/**
 * `TwilioNotification.MessageUrl`: the callback URL for a voice call. It
 * fills a fresh collection with `Message[0]`, `Message[1]`, ... mapped to the
 * messages in turn and appends the collection's query string to the fixed
 * address of the message twimlet.
 */
module TwilioNotification {
  import opened Optional
  import opened UriEscape
  import opened NameValues
  import opened QueryString

  /** The address of the hosted message twimlet. */
  const TwimletBase: string := "http://twimlets.com/message"

  predicate IsDigit(c: char) {
    '0' <= c <= '9'
  }

  function DigitChar(d: nat): (c: char)
    requires d < 10
    ensures IsDigit(c)
  {
    ('0' as int + d) as char
  }

  function DigitValue(c: char): (d: nat)
    requires IsDigit(c)
    ensures d < 10
  {
    c as int - '0' as int
  }

  /** `i.ToString()` for a non-negative index: decimal digits, most significant first, no leading zero. */
  function DecimalString(n: nat): (s: string)
    ensures |s| >= 1 && forall k :: 0 <= k < |s| ==> IsDigit(s[k])
    ensures |s| > 1 ==> s[0] != '0'
  {
    if n < 10 then [DigitChar(n)] else DecimalString(n / 10) + [DigitChar(n % 10)]
  }

  /** The number a string of decimal digits denotes. */
  function DecimalValue(s: string): nat
    requires forall k :: 0 <= k < |s| ==> IsDigit(s[k])
  {
    if s == [] then 0 else DecimalValue(s[..|s| - 1]) * 10 + DigitValue(s[|s| - 1])
  }

  /** Reading the decimal form of `n` gives `n` back. */
  lemma {:induction false} DecimalRoundTrip(n: nat)
    ensures DecimalValue(DecimalString(n)) == n
  {
    var s := DecimalString(n);
    if n >= 10 {
      assert s[..|s| - 1] == DecimalString(n / 10);
      DecimalRoundTrip(n / 10);
    }
  }

  /** The key under which the `i`-th message is added. */
  function MessageKey(i: nat): string {
    "Message[" + DecimalString(i) + "]"
  }

  /** Two message keys match, even ignoring case, only when their indices are equal. */
  lemma MessageKeysDistinct(i: nat, j: nat)
    ensures SameKey(MessageKey(i), MessageKey(j)) <==> i == j
  {
    if SameKey(MessageKey(i), MessageKey(j)) {
      var a, b := MessageKey(i), MessageKey(j);
      var di, dj := DecimalString(i), DecimalString(j);
      assert |Fold(a)| == |Fold(b)|;
      forall k | 0 <= k < |di| ensures di[k] == dj[k] {
        assert a[8 + k] == di[k] && b[8 + k] == dj[k];
        assert Fold(a)[8 + k] == Fold(b)[8 + k];
      }
      assert di == dj;
      DecimalRoundTrip(i);
      DecimalRoundTrip(j);
    }
  }

  /** The brackets of a message key are percent-encoded and its digits are kept. */
  lemma EscapedMessageKey(i: nat)
    ensures EscapeDataString(MessageKey(i)) == "Message%5B" + DecimalString(i) + "%5D"
  {
    var head, digits, close := "Message[", DecimalString(i), "]";
    assert MessageKey(i) == head + digits + close;
    EscapeAppend(head + digits, close);
    EscapeAppend(head, digits);
    UnreservedUnchanged(digits);
    EscapedKeyHead();
    EscapeBrackets();
  }

  lemma EscapedKeyWord()
    ensures EscapeDataString("Message") == "Message"
  {
    UnreservedUnchanged("Message");
  }

  lemma EscapedKeyHead()
    ensures EscapeDataString("Message[") == "Message%5B"
  {
    EscapedKeyWord();
    EscapeBrackets();
    EscapeAppend("Message", "[");
    assert "Message" + "[" == "Message[";
    assert "Message" + "%5B" == "Message%5B";
  }

  /** The collection `MessageUrl` builds: one entry per message, keyed by its index. */
  function MessageEntries(messages: seq<string>): seq<Entry> {
    seq(|messages|, i requires 0 <= i < |messages| => Entry(MessageKey(i), [messages[i]]))
  }

  /** The pairs of the message query: `Message[i]` with the `i`-th message, by increasing index. */
  function MessagePairs(messages: seq<string>): seq<Pair> {
    seq(|messages|, i requires 0 <= i < |messages| => Pair(MessageKey(i), messages[i]))
  }

  /** The message collection's keys are pairwise distinct and each holds one value. */
  lemma MessageEntriesWellFormed(messages: seq<string>)
    ensures WellFormed(MessageEntries(messages))
  {
    var e := MessageEntries(messages);
    forall i, j | 0 <= i < j < |e| ensures !SameKey(e[i].key, e[j].key) {
      MessageKeysDistinct(i, j);
    }
  }

  lemma {:induction false} FlattenSingleValued(entries: seq<Entry>)
    requires forall i :: 0 <= i < |entries| ==> |entries[i].values| == 1
    ensures Flatten(entries) == seq(|entries|, i requires 0 <= i < |entries| => Pair(entries[i].key, entries[i].values[0]))
  {
    if entries != [] {
      FlattenSingleValued(entries[1..]);
    }
  }

  /** The message query writes exactly one pair per message, in index order. */
  lemma MessageQueryPairs(messages: seq<string>)
    ensures QueryPairs(MessageEntries(messages)) == MessagePairs(messages)
  {
    MessageEntriesWellFormed(messages);
    QueryPairsFlatten(MessageEntries(messages));
    FlattenSingleValued(MessageEntries(messages));
  }

  /** The segments of the message query as the twimlet reads them: `Message%5B<i>%5D=<escaped message>`. */
  function MessageSegments(messages: seq<string>): seq<string> {
    seq(|messages|, i requires 0 <= i < |messages| =>
          "Message%5B" + DecimalString(i) + "%5D=" + EscapeDataString(messages[i]))
  }

  /**
   * The message query in full: `?Message%5B0%5D=<escaped first message>&...`,
   * indices in increasing numeric order.
   */
  lemma MessageQueryFormat(messages: seq<string>)
    ensures ToQueryString(MessageEntries(messages)) == "?" + Join('&', MessageSegments(messages))
  {
    var ps := MessagePairs(messages);
    var segs := MessageSegments(messages);
    forall i | 0 <= i < |messages| ensures Segments(ps)[i] == segs[i] {
      SegmentsAt(ps, i);
      EscapedMessageKey(i);
    }
    assert Segments(ps) == segs;
    MessageQueryPairs(messages);
  }

  /** Adding the `i`-th message key to the collection of the earlier messages appends a new entry. */
  lemma AddMessage(messages: seq<string>, i: nat)
    requires i < |messages|
    ensures Added(MessageEntries(messages[..i]), MessageKey(i), messages[i]) == MessageEntries(messages[..i + 1])
  {
    var e, key := MessageEntries(messages[..i]), MessageKey(i);
    forall j | 0 <= j < |e| ensures !SameKey(e[j].key, key) {
      assert e[j].key == MessageKey(j);
      MessageKeysDistinct(j, i);
    }
    assert FindKey(e, key).None?;
    assert MessageEntries(messages[..i + 1]) == e + [Entry(key, [messages[i]])];
  }

  /** The twimlet address holds no `?`, so a URL's first `?` is the one that starts its query. */
  lemma TwimletBaseHasNoQuery()
    ensures '?' !in TwimletBase && |TwimletBase| == 27
  {
    assert forall k :: 0 <= k < |TwimletBase| ==> TwimletBase[k] != '?';
  }

  /** Builds the twimlet URL that has the messages said in order. */
  method MessageUrl(messages: seq<string>) returns (url: string)
    ensures url == TwimletBase + ToQueryString(MessageEntries(messages))
    ensures |TwimletBase| <= |url| && url[..|TwimletBase|] == TwimletBase
    ensures ParseQuery(url[|TwimletBase|..], "?") == Some(MessagePairs(messages))
    ensures messages == [] <==> url == "http://twimlets.com/message?"
    ensures SplitFirst(url, '?') == Some((TwimletBase, url[|TwimletBase| + 1..]))
  {
    var collection := new NameValueCollection();
    for i := 0 to |messages|
      invariant collection.Valid()
      invariant collection.entries == MessageEntries(messages[..i])
    {
      AddMessage(messages, i);
      collection.Add(MessageKey(i), messages[i]);
    }
    assert messages[..|messages|] == messages;
    url := TwimletBase + ToQueryString(collection.entries);
    assert url[|TwimletBase|..] == ToQueryString(MessageEntries(messages));
    ParseToQueryString(MessageEntries(messages), "?");
    MessageQueryPairs(messages);
    ToQueryStringEmpty(MessageEntries(messages), "?");
    TwimletBaseHasNoQuery();
    assert url == TwimletBase + ['?'] + url[|TwimletBase| + 1..];
    SplitFirstAt(TwimletBase, '?', url[|TwimletBase| + 1..]);
  }
}
