/**
 * `Uri.EscapeDataString` and its inverse. Escaping keeps the unreserved
 * characters of section 2.3 of RFC 3986 (A-Z a-z 0-9 - . _ ~) and replaces
 * every other character by its UTF-8 bytes, each written as a percent-encoded
 * triple `%XX` of section 2.1 with upper-case hexadecimal digits.
 */
module UriEscape {
  import opened Optional
  import opened Utf8

  /** The unreserved characters of section 2.3 of RFC 3986. */
  predicate Unreserved(c: char) {
    'A' <= c <= 'Z' || 'a' <= c <= 'z' || '0' <= c <= '9' || c == '-' || c == '.' || c == '_' || c == '~'
  }

  predicate IsUpperHexDigit(c: char) {
    '0' <= c <= '9' || 'A' <= c <= 'F'
  }

  /** A hexadecimal digit of either case, as a decoder accepts it. */
  predicate IsHexDigit(c: char) {
    IsUpperHexDigit(c) || 'a' <= c <= 'f'
  }

  /** The upper-case hexadecimal digit for `n`. */
  function HexDigit(n: nat): (c: char)
    requires n < 16
    ensures IsUpperHexDigit(c)
  {
    if n < 10 then ('0' as int + n) as char else ('A' as int + n - 10) as char
  }

  function HexValue(c: char): (n: nat)
    requires IsHexDigit(c)
    ensures n < 16
  {
    if '0' <= c <= '9' then c as int - '0' as int
    else if 'A' <= c <= 'F' then c as int - 'A' as int + 10
    else c as int - 'a' as int + 10
  }

  /** The percent-encoded triple of section 2.1 of RFC 3986 for one byte. */
  function PercentTriple(b: Byte): (t: string)
    ensures |t| == 3 && t[0] == '%' && IsUpperHexDigit(t[1]) && IsUpperHexDigit(t[2])
  {
    ['%', HexDigit(b / 16), HexDigit(b % 16)]
  }

  /** The triples of a byte sequence, in order. */
  function PercentTriples(bs: seq<Byte>): (t: string)
    ensures |t| == 3 * |bs|
  {
    if bs == [] then [] else PercentTriple(bs[0]) + PercentTriples(bs[1..])
  }

  /** The escaped form of one character. */
  function EscapeChar(c: char): (r: string)
    ensures |r| == 1 <==> Unreserved(c)
    ensures !Unreserved(c) ==> |r| == 3 * |EncodeChar(c)|
  {
    if Unreserved(c) then [c] else PercentTriples(EncodeChar(c))
  }

  /** The characters escaped text is made of: the unreserved ones and `%`. */
  predicate InEscapedAlphabet(c: char) {
    Unreserved(c) || c == '%'
  }

  /** Uri.EscapeDataString: each character escaped in turn. */
  function EscapeDataString(s: string): (r: string)
    ensures |s| <= |r|
  {
    if s == [] then [] else EscapeChar(s[0]) + EscapeDataString(s[1..])
  }

  /**
   * Text made only of unreserved characters and `%XX` triples with upper-case
   * hexadecimal digits: the shape of every escaped string.
   */
  predicate WellEscaped(t: string)
    decreases |t|
  {
    || t == []
    || (Unreserved(t[0]) && WellEscaped(t[1..]))
    || (3 <= |t| && t[0] == '%' && IsUpperHexDigit(t[1]) && IsUpperHexDigit(t[2]) && WellEscaped(t[3..]))
  }

  /**
   * Percent-decoding: a `%` followed by two hexadecimal digits (of either case)
   * stands for that byte; any other character stands for its own UTF-8 bytes.
   */
  function PercentDecode(t: string): seq<Byte>
    decreases |t|
  {
    if t == [] then []
    else if 3 <= |t| && t[0] == '%' && IsHexDigit(t[1]) && IsHexDigit(t[2]) then
      [HexValue(t[1]) * 16 + HexValue(t[2])] + PercentDecode(t[3..])
    else EncodeChar(t[0]) + PercentDecode(t[1..])
  }

  /**
   * The inverse of escaping: percent-decode, then read the bytes as UTF-8.
   * Stricter than `Uri.UnescapeDataString`, which leaves undecodable text as
   * it is: here such text gives None.
   */
  function PercentUnescape(t: string): Option<string> {
    Decode(PercentDecode(t))
  }

  // ---------------------------------------------------------------------------
  // Properties of escaping

  /** Escaping distributes over concatenation: each character is escaped on its own. */
  lemma {:induction false} EscapeAppend(a: string, b: string)
    ensures EscapeDataString(a + b) == EscapeDataString(a) + EscapeDataString(b)
  {
    if a != [] {
      assert (a + b)[0] == a[0];
      assert (a + b)[1..] == a[1..] + b;
      EscapeAppend(a[1..], b);
    } else {
      assert a + b == b;
    }
  }

  lemma WellEscapedConsUnreserved(c: char, t: string)
    requires Unreserved(c) && WellEscaped(t)
    ensures WellEscaped([c] + t)
  {
    assert ([c] + t)[1..] == t;
  }

  lemma WellEscapedConsTriple(x: string, t: string)
    requires |x| == 3 && x[0] == '%' && IsUpperHexDigit(x[1]) && IsUpperHexDigit(x[2])
    requires WellEscaped(t)
    ensures WellEscaped(x + t)
  {
    var xt := x + t;
    assert xt[0] == '%' && xt[1] == x[1] && xt[2] == x[2];
    assert xt[3..] == t;
  }

  lemma {:induction false} PercentTriplesPrepend(bs: seq<Byte>, t: string)
    requires WellEscaped(t)
    ensures WellEscaped(PercentTriples(bs) + t)
  {
    if bs == [] {
      assert PercentTriples(bs) + t == t;
    } else {
      var head, tail := PercentTriple(bs[0]), PercentTriples(bs[1..]);
      PercentTriplesPrepend(bs[1..], t);
      WellEscapedConsTriple(head, tail + t);
      assert (head + tail) + t == head + (tail + t);
    }
  }

  lemma {:induction false} EscapeIsWellEscaped(s: string)
    ensures WellEscaped(EscapeDataString(s))
  {
    if s != [] {
      var c, rest := s[0], EscapeDataString(s[1..]);
      EscapeIsWellEscaped(s[1..]);
      if Unreserved(c) {
        WellEscapedConsUnreserved(c, rest);
      } else {
        PercentTriplesPrepend(EncodeChar(c), rest);
      }
    }
  }

  lemma {:induction false} WellEscapedAlphabet(t: string)
    requires WellEscaped(t)
    ensures forall i :: 0 <= i < |t| ==> InEscapedAlphabet(t[i])
    decreases |t|
  {
    if t != [] {
      if Unreserved(t[0]) && WellEscaped(t[1..]) {
        WellEscapedAlphabet(t[1..]);
        assert forall i :: 1 <= i < |t| ==> t[i] == t[1..][i - 1];
      } else {
        WellEscapedAlphabet(t[3..]);
        assert forall i :: 3 <= i < |t| ==> t[i] == t[3..][i - 3];
      }
    }
  }

  /** Escaped text is made only of unreserved characters and `%`. */
  lemma EscapeAlphabet(s: string)
    ensures forall i :: 0 <= i < |EscapeDataString(s)| ==> InEscapedAlphabet(EscapeDataString(s)[i])
  {
    EscapeIsWellEscaped(s);
    WellEscapedAlphabet(EscapeDataString(s));
  }

  /** Escaped text never contains the separators of a query string. */
  lemma EscapedHasNoDelimiters(s: string)
    ensures '&' !in EscapeDataString(s) && '=' !in EscapeDataString(s)
    ensures '?' !in EscapeDataString(s) && '#' !in EscapeDataString(s) && '+' !in EscapeDataString(s)
  {
    var r := EscapeDataString(s);
    EscapeAlphabet(s);
    forall i | 0 <= i < |r| ensures r[i] != '&' && r[i] != '=' && r[i] != '?' && r[i] != '#' && r[i] != '+' {
      assert InEscapedAlphabet(r[i]);
    }
  }

  /** Escaping lengthens exactly the strings that hold a character outside the unreserved set. */
  lemma {:induction false} EscapeLength(s: string)
    ensures |EscapeDataString(s)| == |s| <==> forall i :: 0 <= i < |s| ==> Unreserved(s[i])
  {
    if s != [] {
      EscapeLength(s[1..]);
      if !Unreserved(s[0]) {
        assert |EscapeChar(s[0])| >= 3;
      } else {
        forall i | 1 <= i < |s| && Unreserved(s[1..][i - 1]) ensures Unreserved(s[i]) {
        }
      }
    }
  }

  /** A string is its own escaped form exactly when every character is unreserved. */
  lemma EscapeIdentity(s: string)
    ensures EscapeDataString(s) == s <==> forall i :: 0 <= i < |s| ==> Unreserved(s[i])
  {
    EscapeLength(s);
    if forall i :: 0 <= i < |s| ==> Unreserved(s[i]) {
      UnreservedUnchanged(s);
    }
  }

  lemma {:induction false} UnreservedUnchanged(s: string)
    requires forall i :: 0 <= i < |s| ==> Unreserved(s[i])
    ensures EscapeDataString(s) == s
  {
    if s != [] {
      assert Unreserved(s[0]);
      UnreservedUnchanged(s[1..]);
      assert [s[0]] + s[1..] == s;
    }
  }

  /** A space is written `%20`, never `+`. */
  lemma EscapeSpace()
    ensures EscapeDataString(" ") == "%20"
  {
    assert EncodeChar(' ') == [0x20];
    assert PercentTriple(0x20) == "%20";
  }

  /** Square brackets are reserved (gen-delims of section 2.2 of RFC 3986) and are percent-encoded. */
  lemma EscapeBrackets()
    ensures EscapeDataString("[") == "%5B" && EscapeDataString("]") == "%5D"
  {
    assert EncodeChar('[') == [0x5B] && EncodeChar(']') == [0x5D];
    assert PercentTriple(0x5B) == "%5B" && PercentTriple(0x5D) == "%5D";
  }

  // ---------------------------------------------------------------------------
  // Decoding after escaping gives back the original string

  lemma HexRoundTrip(n: nat)
    requires n < 16
    ensures IsHexDigit(HexDigit(n)) && HexValue(HexDigit(n)) == n
  {
  }

  lemma PercentDecodeTriple(b: Byte, t: string, rest: string)
    requires t == PercentTriple(b) + rest
    ensures PercentDecode(t) == [b] + PercentDecode(rest)
  {
    HexRoundTrip(b / 16);
    HexRoundTrip(b % 16);
    assert t[3..] == rest;
  }

  lemma ConsAppend<T>(s: seq<T>, d: seq<T>)
    requires s != []
    ensures [s[0]] + (s[1..] + d) == s + d
  {
    assert s == [s[0]] + s[1..];
  }

  lemma PercentTriplesCons(bs: seq<Byte>, rest: string)
    requires bs != []
    ensures PercentTriples(bs) + rest == PercentTriple(bs[0]) + (PercentTriples(bs[1..]) + rest)
  {
  }

  lemma {:induction false} PercentDecodeTriples(bs: seq<Byte>, rest: string)
    ensures PercentDecode(PercentTriples(bs) + rest) == bs + PercentDecode(rest)
  {
    if bs == [] {
      assert PercentTriples(bs) + rest == rest;
    } else {
      PercentTriplesCons(bs, rest);
      PercentDecodeTriple(bs[0], PercentTriples(bs) + rest, PercentTriples(bs[1..]) + rest);
      PercentDecodeTriples(bs[1..], rest);
      ConsAppend(bs, PercentDecode(rest));
    }
  }

  lemma PercentDecodeEscapeChar(c: char, rest: string)
    ensures PercentDecode(EscapeChar(c) + rest) == EncodeChar(c) + PercentDecode(rest)
  {
    if Unreserved(c) {
      var t := [c] + rest;
      assert t[0] == c && t[1..] == rest;
    } else {
      PercentDecodeTriples(EncodeChar(c), rest);
    }
  }

  /** Percent-decoding escaped text gives the UTF-8 form of the original. */
  lemma {:induction false} PercentDecodeEscape(s: string)
    ensures PercentDecode(EscapeDataString(s)) == Encode(s)
  {
    if s != [] {
      PercentDecodeEscapeChar(s[0], EscapeDataString(s[1..]));
      PercentDecodeEscape(s[1..]);
    }
  }

  /** Decoding after escaping recovers the original string exactly. */
  lemma UnescapeEscape(s: string)
    ensures PercentUnescape(EscapeDataString(s)) == Some(s)
  {
    PercentDecodeEscape(s);
    DecodeEncode(s);
  }

  /** Distinct strings have distinct escaped forms. */
  lemma EscapeInjective(a: string, b: string)
    requires EscapeDataString(a) == EscapeDataString(b)
    ensures a == b
  {
    UnescapeEscape(a);
    UnescapeEscape(b);
  }
}
