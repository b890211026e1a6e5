/**
 * `NameValueCollectionExtensions.ToQueryString`: flattens a collection into
 * `startChar` followed by `key=value` segments joined with `&`, key and value
 * each escaped with `Uri.EscapeDataString`. Keys are visited in `AllKeys`
 * order and, for each key, its values in `GetValues` order.
 *
 * The partner of the builder is a parser that strips the prefix, splits on
 * `&`, splits each segment at its first `=` and unescapes both halves; the
 * round-trip lemma shows it recovers exactly the pairs the builder wrote.
 */
module QueryString {
  import opened Optional
  import opened UriEscape
  import opened NameValues

  /** One key/value pair of the query, unescaped. */
  datatype Pair = Pair(key: string, value: string)

  /** The pairs one key contributes: one per value, in order. */
  function KeyPairs(key: string, values: seq<string>): (ps: seq<Pair>)
    ensures |ps| == |values| && forall j :: 0 <= j < |values| ==> ps[j] == Pair(key, values[j])
  {
    seq(|values|, j requires 0 <= j < |values| => Pair(key, values[j]))
  }

  /**
   * The query comprehension `from key in keys from value in GetValues(key)`.
   * The keys come from `AllKeys`, so the lookup always finds its key; the
   * `None` case stands for nothing.
   */
  function SelectPairs(entries: seq<Entry>, keys: seq<string>): (ps: seq<Pair>)
    ensures forall i :: 0 <= i < |ps| ==> ps[i].key in keys
    ensures forall i :: 0 <= i < |ps| ==>
      GetValues(entries, ps[i].key).Some? && ps[i].value in GetValues(entries, ps[i].key).value
  {
    if keys == [] then []
    else
      var values := match GetValues(entries, keys[0]) case Some(vs) => vs case None => [];
      KeyPairs(keys[0], values) + SelectPairs(entries, keys[1..])
  }

  /** The pairs `ToQueryString` writes, in the order it writes them. */
  function QueryPairs(entries: seq<Entry>): (ps: seq<Pair>)
    ensures forall i :: 0 <= i < |ps| ==> ps[i].key in AllKeys(entries)
    ensures forall i :: 0 <= i < |ps| ==>
      GetValues(entries, ps[i].key).Some? && ps[i].value in GetValues(entries, ps[i].key).value
  {
    SelectPairs(entries, AllKeys(entries))
  }

  /** `string.Format("{0}={1}", EscapeDataString(key), EscapeDataString(value))`. */
  function Segment(p: Pair): string {
    EscapeDataString(p.key) + "=" + EscapeDataString(p.value)
  }

  function Segments(ps: seq<Pair>): (segs: seq<string>)
    ensures |segs| == |ps|
  {
    if ps == [] then [] else [Segment(ps[0])] + Segments(ps[1..])
  }

  /** `string.Join`: the parts with one separator between neighbours. */
  function Join(sep: char, parts: seq<string>): string {
    if parts == [] then []
    else if |parts| == 1 then parts[0]
    else parts[0] + [sep] + Join(sep, parts[1..])
  }

  /** `collection.ToQueryString(startChar)`; `startChar` defaults to `?`. */
  function ToQueryString(entries: seq<Entry>, startChar: string := "?"): (r: string)
    ensures |startChar| <= |r| && r[..|startChar|] == startChar
  {
    startChar + Join('&', Segments(QueryPairs(entries)))
  }

  // ---------------------------------------------------------------------------
  // Reference definition of the order: key by key, each key's values in turn

  function Flatten(entries: seq<Entry>): seq<Pair> {
    if entries == [] then [] else KeyPairs(entries[0].key, entries[0].values) + Flatten(entries[1..])
  }

  /** The number of values held under all keys together. */
  function TotalValues(entries: seq<Entry>): nat {
    if entries == [] then 0 else |entries[0].values| + TotalValues(entries[1..])
  }

  /** On a well-formed collection the query comprehension is the flattening, key by key. */
  lemma QueryPairsFlatten(entries: seq<Entry>)
    requires WellFormed(entries)
    ensures QueryPairs(entries) == Flatten(entries)
  {
    SelectPairsFlatten(entries, 0);
  }

  lemma {:induction false} SelectPairsFlatten(entries: seq<Entry>, k: nat)
    requires WellFormed(entries) && k <= |entries|
    ensures SelectPairs(entries, AllKeys(entries)[k..]) == Flatten(entries[k..])
    decreases |entries| - k
  {
    var keys := AllKeys(entries)[k..];
    if k < |entries| {
      FindKeyFirst(entries, entries[k].key, k);
      assert GetValues(entries, keys[0]) == Some(entries[k].values);
      assert keys[1..] == AllKeys(entries)[k + 1..];
      assert entries[k..][1..] == entries[k + 1..];
      SelectPairsFlatten(entries, k + 1);
    }
  }

  /** The flattening holds one pair per value. */
  lemma {:induction false} FlattenLength(entries: seq<Entry>)
    ensures |Flatten(entries)| == TotalValues(entries)
  {
    if entries != [] {
      FlattenLength(entries[1..]);
    }
  }

  /**
   * Order: the `j`-th value of the `i`-th key sits right after the values of
   * all earlier keys and the first `j` values of its own key.
   */
  lemma {:induction false} FlattenAt(entries: seq<Entry>, i: nat, j: nat)
    requires i < |entries| && j < |entries[i].values|
    ensures TotalValues(entries[..i]) + j < |Flatten(entries)|
    ensures Flatten(entries)[TotalValues(entries[..i]) + j] == Pair(entries[i].key, entries[i].values[j])
  {
    FlattenLength(entries);
    if i == 0 {
      assert entries[..0] == [];
    } else {
      assert entries[..i][1..] == entries[1..][..i - 1];
      FlattenAt(entries[1..], i - 1, j);
      FlattenLength(entries[1..]);
    }
  }

  // ---------------------------------------------------------------------------
  // The parser: the builder's partner

  /** Splits at every `sep`; always at least one part. */
  function Split(s: string, sep: char): (parts: seq<string>)
    ensures |parts| >= 1
  {
    if s == [] then [[]]
    else
      var tail := Split(s[1..], sep);
      if s[0] == sep then [[]] + tail else [[s[0]] + tail[0]] + tail[1..]
  }

  /** Splits at the first `sep`, or None if there is none. */
  function SplitFirst(s: string, sep: char): Option<(string, string)> {
    if s == [] then None
    else if s[0] == sep then Some(([], s[1..]))
    else
      match SplitFirst(s[1..], sep)
      case None => None
      case Some((a, b)) => Some(([s[0]] + a, b))
  }

  function ParseSegment(seg: string): Option<Pair> {
    match SplitFirst(seg, '=')
    case None => None
    case Some((k, v)) =>
      match (PercentUnescape(k), PercentUnescape(v))
      case (Some(key), Some(value)) => Some(Pair(key, value))
      case _ => None
  }

  function ParseSegments(segs: seq<string>): Option<seq<Pair>> {
    if segs == [] then Some([])
    else
      match (ParseSegment(segs[0]), ParseSegments(segs[1..]))
      case (Some(p), Some(ps)) => Some([p] + ps)
      case _ => None
  }

  /** The segments of the text after the prefix: none for empty text, otherwise split at `&`. */
  function SplitQuery(body: string): seq<string> {
    if body == [] then [] else Split(body, '&')
  }

  /** Reads a query string back into its pairs, or None if it is not of the builder's shape. */
  function ParseQuery(q: string, startChar: string): Option<seq<Pair>> {
    if |q| < |startChar| || q[..|startChar|] != startChar then None
    else ParseSegments(SplitQuery(q[|startChar|..]))
  }

  lemma {:induction false} SplitNoSeparator(a: string, sep: char)
    requires sep !in a
    ensures Split(a, sep) == [a]
  {
    if a != [] {
      SplitNoSeparator(a[1..], sep);
      assert [a[0]] + a[1..] == a;
    }
  }

  lemma {:induction false} SplitAtSeparator(a: string, sep: char, t: string)
    requires sep !in a
    ensures Split(a + [sep] + t, sep) == [a] + Split(t, sep)
  {
    var s := a + [sep] + t;
    if a == [] {
      assert s[1..] == t;
    } else {
      assert s[1..] == a[1..] + [sep] + t;
      SplitAtSeparator(a[1..], sep, t);
      assert [a[0]] + a[1..] == a;
    }
  }

  /** Splitting a join gives back the parts, when no part holds the separator. */
  lemma {:induction false} SplitJoin(sep: char, parts: seq<string>)
    requires parts != []
    requires forall i :: 0 <= i < |parts| ==> sep !in parts[i]
    ensures Split(Join(sep, parts), sep) == parts
  {
    if |parts| == 1 {
      SplitNoSeparator(parts[0], sep);
    } else {
      SplitAtSeparator(parts[0], sep, Join(sep, parts[1..]));
      SplitJoin(sep, parts[1..]);
    }
  }

  lemma {:induction false} SplitFirstAt(a: string, sep: char, b: string)
    requires sep !in a
    ensures SplitFirst(a + [sep] + b, sep) == Some((a, b))
  {
    var s := a + [sep] + b;
    if a == [] {
      assert s[1..] == b;
    } else {
      assert s[1..] == a[1..] + [sep] + b;
      SplitFirstAt(a[1..], sep, b);
      assert [a[0]] + a[1..] == a;
    }
  }

  /** A segment holds no `&`, and its first `=` is the one between key and value. */
  lemma SegmentShape(p: Pair)
    ensures '&' !in Segment(p)
    ensures SplitFirst(Segment(p), '=') == Some((EscapeDataString(p.key), EscapeDataString(p.value)))
  {
    EscapedHasNoDelimiters(p.key);
    EscapedHasNoDelimiters(p.value);
    SplitFirstAt(EscapeDataString(p.key), '=', EscapeDataString(p.value));
  }

  /** Each segment decodes back to the pair it was written from. */
  lemma ParseSegmentRoundTrip(p: Pair)
    ensures ParseSegment(Segment(p)) == Some(p)
  {
    SegmentShape(p);
    UnescapeEscape(p.key);
    UnescapeEscape(p.value);
  }

  lemma {:induction false} ParseSegmentsRoundTrip(ps: seq<Pair>)
    ensures ParseSegments(Segments(ps)) == Some(ps)
  {
    if ps != [] {
      ParseSegmentRoundTrip(ps[0]);
      ParseSegmentsRoundTrip(ps[1..]);
      assert [ps[0]] + ps[1..] == ps;
    }
  }

  lemma {:induction false} SegmentsAt(ps: seq<Pair>, i: nat)
    requires i < |ps|
    ensures Segments(ps)[i] == Segment(ps[i])
  {
    if i > 0 {
      SegmentsAt(ps[1..], i - 1);
    }
  }

  /** Every segment is `escape(key) + "=" + escape(value)`, one per pair, in order. */
  lemma QuerySegments(entries: seq<Entry>, startChar: string)
    ensures SplitQuery(ToQueryString(entries, startChar)[|startChar|..]) == Segments(QueryPairs(entries))
  {
    var segs := Segments(QueryPairs(entries));
    assert ToQueryString(entries, startChar)[|startChar|..] == Join('&', segs);
    if segs != [] {
      forall i | 0 <= i < |segs| ensures '&' !in segs[i] {
        SegmentsAt(QueryPairs(entries), i);
        SegmentShape(QueryPairs(entries)[i]);
      }
      JoinNonEmpty('&', segs);
      SplitJoin('&', segs);
    }
  }

  lemma {:induction false} JoinNonEmpty(sep: char, parts: seq<string>)
    requires parts != [] && parts[0] != []
    ensures Join(sep, parts) != []
  {
  }

  /** Parsing the builder's output recovers exactly the pairs it wrote, in order. */
  lemma ParseToQueryString(entries: seq<Entry>, startChar: string)
    ensures ParseQuery(ToQueryString(entries, startChar), startChar) == Some(QueryPairs(entries))
  {
    QuerySegments(entries, startChar);
    ParseSegmentsRoundTrip(QueryPairs(entries));
  }

  /**
   * On a well-formed collection the query holds one segment per value, every
   * key's values in turn, and reads back as the flattening of the collection.
   */
  lemma ParseToQueryStringWellFormed(entries: seq<Entry>, startChar: string)
    requires WellFormed(entries)
    ensures |SplitQuery(ToQueryString(entries, startChar)[|startChar|..])| == TotalValues(entries)
    ensures ParseQuery(ToQueryString(entries, startChar), startChar) == Some(Flatten(entries))
  {
    QueryPairsFlatten(entries);
    FlattenLength(entries);
    QuerySegments(entries, startChar);
    ParseToQueryString(entries, startChar);
  }

  /** The query is the prefix alone exactly when there are no pairs to write. */
  lemma ToQueryStringEmpty(entries: seq<Entry>, startChar: string)
    ensures ToQueryString(entries, startChar) == startChar <==> QueryPairs(entries) == []
  {
    var ps := QueryPairs(entries);
    if ps != [] {
      assert Segments(ps)[0] == Segment(ps[0]);
      JoinNonEmpty('&', Segments(ps));
    }
  }

  /** A caller-supplied prefix replaces `?`: one pair `a`/`b` behind `&` gives `&a=b`. */
  lemma CustomPrefixExample()
    ensures ToQueryString([Entry("a", ["b"])], "&") == "&a=b"
  {
    var e := [Entry("a", ["b"])];
    FindKeyFirst(e, "a", 0);
    assert QueryPairs(e) == [Pair("a", "b")];
    assert EscapeDataString("a") == "a" && EscapeDataString("b") == "b";
  }
}
