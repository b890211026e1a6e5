# Acumatica-Twilio: the twimlet URL builder, modelled in Dafny

The Acumatica Twilio connector says a voice message through Twilio's hosted
*message twimlet*. `TwilioNotification.MessageUrl` builds the callback URL for
that twimlet. It adds each message to a `NameValueCollection` under the key
`Message[i]` and appends the collection's query string to
`http://twimlets.com/message`. The query string comes from the extension method
`NameValueCollectionExtensions.ToQueryString`. That method writes a prefix
(`?` by default) and then one `key=value` segment per value, joined with `&`.
Every key and value passes through `Uri.EscapeDataString`.

The model is layered like the code it stands for:

- `utf8.dfy` (`Utf8`) is the UTF-8 encoder that `EscapeDataString` applies before
  percent-encoding. A strict decoder is its partner.
- `uri_escape.dfy` (`UriEscape`) is `Uri.EscapeDataString` with the RFC 3986
  rules:
  - the unreserved set of section 2.3 is kept;
  - every other character becomes `%XX` triples of its UTF-8 bytes, with
    upper-case hexadecimal digits as section 2.1 recommends;
  - a percent-decoder, `PercentUnescape`, is its partner.
- `name_values.dfy` (`NameValues`) covers the parts of `NameValueCollection` the
  builder uses:
  - keys kept in first-insertion order;
  - values kept in insertion order under each key;
  - case-insensitive key matching;
  - `AllKeys` and `GetValues`;
  - the class `NameValueCollection`, whose `Add` updates its entries in place.
- `query_string.dfy` (`QueryString`) is `ToQueryString`, written as the same
  `from key in AllKeys from value in GetValues(key)` comprehension. A parser
  is its partner: it strips the prefix, splits on `&`, splits each segment at
  its first `=` and unescapes both halves.
- `twilio.dfy` (`TwilioNotification`) holds `TwimletBase` and the decimal
  message keys. It also holds `MessageUrl` as a method whose loop fills a
  fresh collection.

The main results:

- Reading back a query string gives exactly the pairs that were written, in
  order. This follows from two round trips: escaping then unescaping is the
  identity, and UTF-8 decoding inverts encoding.
- Escaped text never contains `&`, `=`, `?`, `#` or `+`.
- On a collection whose keys are distinct, the pairs come key by key in
  first-insertion order, each key's values in turn, one segment per value.
- `MessageUrl` produces `http://twimlets.com/message?Message%5B0%5D=…&Message%5B1%5D=…`
  with the messages in index order. With no messages it produces
  `http://twimlets.com/message?`.

## Model

| member | source | states |
|---|---|---|
| Utf8.EncodeChar | AcumaticaTwilio/PX.Objects.TW/TW/Descriptor/Twilio.cs:23 | Each character encodes to 1–4 bytes. There is exactly one byte iff the character is ASCII, and then it is the character's own code. A multi-byte form starts with a lead byte in 0xC2–0xF4 followed by continuation bytes. |
| Utf8.Encode | AcumaticaTwilio/PX.Objects.TW/TW/Descriptor/Twilio.cs:23 | The UTF-8 form of a string is between one and four bytes per character. |
| Utf8.DecodeChar | AcumaticaTwilio/PX.Objects.TW/TW/Descriptor/Twilio.cs:23 | A successful decode consumes between 1 and 4 bytes, and never more than are present. |
| Utf8.DecodeEncode | AcumaticaTwilio/PX.Objects.TW/TW/Descriptor/Twilio.cs:23 | Decoding the UTF-8 form of any string gives that string back. |
| Utf8.EncodeInjective | AcumaticaTwilio/PX.Objects.TW/TW/Descriptor/Twilio.cs:23 | Strings with equal UTF-8 forms are equal. |
| UriEscape.HexDigit | AcumaticaTwilio/PX.Objects.TW/TW/Descriptor/Twilio.cs:23 | Every nibble is written as an upper-case hexadecimal digit. |
| UriEscape.PercentTriple | AcumaticaTwilio/PX.Objects.TW/TW/Descriptor/Twilio.cs:23 | A byte is written as three characters: `%` and two upper-case hexadecimal digits. |
| UriEscape.EscapeChar | AcumaticaTwilio/PX.Objects.TW/TW/Descriptor/Twilio.cs:23 | One character escapes to itself, a single character, exactly when it is unreserved. Any other character becomes three characters per UTF-8 byte. |
| UriEscape.EscapeDataString | AcumaticaTwilio/PX.Objects.TW/TW/Descriptor/Twilio.cs:23 | Escaping never shortens a string. |
| UriEscape.EscapeAppend | AcumaticaTwilio/PX.Objects.TW/TW/Descriptor/Twilio.cs:23 | Escaping works character by character: the escape of a concatenation is the concatenation of the escapes. |
| UriEscape.EscapeIsWellEscaped | AcumaticaTwilio/PX.Objects.TW/TW/Descriptor/Twilio.cs:23 | Every escaped string is a sequence of unreserved characters and `%HH` triples with upper-case digits. |
| UriEscape.WellEscapedAlphabet | AcumaticaTwilio/PX.Objects.TW/TW/Descriptor/Twilio.cs:23 | Text of that shape holds only unreserved characters and `%`. |
| UriEscape.EscapeAlphabet | AcumaticaTwilio/PX.Objects.TW/TW/Descriptor/Twilio.cs:23 | Every character of an escaped string is unreserved or `%`. |
| UriEscape.EscapedHasNoDelimiters | AcumaticaTwilio/PX.Objects.TW/TW/Descriptor/Twilio.cs:23-25 | An escaped key or value never holds `&`, `=`, `?`, `#` or `+`, so it cannot break the query's structure. |
| UriEscape.EscapeLength | AcumaticaTwilio/PX.Objects.TW/TW/Descriptor/Twilio.cs:23 | Escaping keeps the length exactly when every character is unreserved. |
| UriEscape.EscapeIdentity | AcumaticaTwilio/PX.Objects.TW/TW/Descriptor/Twilio.cs:23 | A string is its own escape exactly when every character is unreserved (both directions). |
| UriEscape.UnreservedUnchanged | AcumaticaTwilio/PX.Objects.TW/TW/Descriptor/Twilio.cs:23 | A string of unreserved characters is left as it is. |
| UriEscape.EscapeSpace | AcumaticaTwilio/PX.Objects.TW/TW/Descriptor/Twilio.cs:23 | A space becomes `%20`, never `+`. |
| UriEscape.EscapeBrackets | AcumaticaTwilio/PX.Objects.TW/TW/Descriptor/Twilio.cs:56 | The brackets of the message keys become `%5B` and `%5D`. |
| UriEscape.HexRoundTrip | AcumaticaTwilio/PX.Objects.TW/TW/Descriptor/Twilio.cs:23 | Reading the hexadecimal digit written for a nibble gives the nibble back. |
| UriEscape.PercentDecodeTriple | AcumaticaTwilio/PX.Objects.TW/TW/Descriptor/Twilio.cs:23 | Percent-decoding a `%HH` triple written for a byte gives that byte. |
| UriEscape.PercentDecodeTriples | AcumaticaTwilio/PX.Objects.TW/TW/Descriptor/Twilio.cs:23 | Percent-decoding the triples of a byte sequence gives the sequence back, whatever follows. |
| UriEscape.PercentDecodeEscapeChar | AcumaticaTwilio/PX.Objects.TW/TW/Descriptor/Twilio.cs:23 | Percent-decoding the escape of one character gives its UTF-8 bytes. |
| UriEscape.PercentDecodeEscape | AcumaticaTwilio/PX.Objects.TW/TW/Descriptor/Twilio.cs:23 | Percent-decoding an escaped string gives the UTF-8 form of the original. |
| UriEscape.UnescapeEscape | AcumaticaTwilio/PX.Objects.TW/TW/Descriptor/Twilio.cs:23 | Unescaping after escaping gives back the original string, for every string. |
| UriEscape.EscapeInjective | AcumaticaTwilio/PX.Objects.TW/TW/Descriptor/Twilio.cs:23 | Distinct strings have distinct escapes, so distinct keys or values never collide in the query. |
| NameValues.FoldChar | AcumaticaTwilio/PX.Objects.TW/TW/Descriptor/Twilio.cs:56 | Folding lowers upper-case ASCII letters by 32 and leaves every other character alone. |
| NameValues.Fold | AcumaticaTwilio/PX.Objects.TW/TW/Descriptor/Twilio.cs:56 | The folded key has the same length and folds each character in place. |
| NameValues.SameKey | AcumaticaTwilio/PX.Objects.TW/TW/Descriptor/Twilio.cs:56 | The collection's key comparer: two keys match when their folded forms are equal. `SameKeyPositionwise` characterises it without folding. |
| NameValues.SameKeyPositionwise | AcumaticaTwilio/PX.Objects.TW/TW/Descriptor/Twilio.cs:56 | Two keys match exactly when they have the same length and agree at every position up to the case of an ASCII letter (both directions). |
| NameValues.FoldIdempotent | AcumaticaTwilio/PX.Objects.TW/TW/Descriptor/Twilio.cs:56 | Folding an already folded key changes nothing. |
| NameValues.WellFormed | AcumaticaTwilio/PX.Objects.TW/TW/Descriptor/Twilio.cs:52-57 | The collection's invariant: keys pairwise non-matching, and every key holds at least one value. It holds of a new collection (`NameValueCollection.constructor`) and after every `Add` (`AddedWellFormed`). |
| NameValues.FindKey | AcumaticaTwilio/PX.Objects.TW/TW/Descriptor/Twilio.cs:22 | The lookup finds the first entry whose key matches. It gives None exactly when no key matches. |
| NameValues.AllKeys | AcumaticaTwilio/PX.Objects.TW/TW/Descriptor/Twilio.cs:21 | `AllKeys` lists one key per entry, in entry order. |
| NameValues.GetValues | AcumaticaTwilio/PX.Objects.TW/TW/Descriptor/Twilio.cs:22 | `GetValues` is None exactly when no key matches. |
| NameValues.AddedWellFormed | AcumaticaTwilio/PX.Objects.TW/TW/Descriptor/Twilio.cs:56 | `Add` keeps keys pairwise distinct, and every key keeps at least one value. |
| NameValues.AddedAllKeys | AcumaticaTwilio/PX.Objects.TW/TW/Descriptor/Twilio.cs:56 | A new key goes to the end of `AllKeys`. A key already present leaves `AllKeys` unchanged. |
| NameValues.FindKeyFirst | AcumaticaTwilio/PX.Objects.TW/TW/Descriptor/Twilio.cs:22 | The first matching entry is the one the lookup reports. |
| NameValues.AddedGetValues | AcumaticaTwilio/PX.Objects.TW/TW/Descriptor/Twilio.cs:56 | After `Add(name, value)`, a key matching `name` holds its old values and then `value`. Every other key's values are unchanged. |
| NameValues.Added | AcumaticaTwilio/PX.Objects.TW/TW/Descriptor/Twilio.cs:56 | The entries after `Add(name, value)`. There is one more entry exactly when no key matched `name`, and every existing key keeps its first spelling. `AddedGetValues`, `AddedAllKeys` and `AddedWellFormed` give the rest. |
| NameValues.NameValueCollection.constructor | AcumaticaTwilio/PX.Objects.TW/TW/Descriptor/Twilio.cs:52 | A new collection is empty and valid. |
| NameValues.NameValueCollection.Add | AcumaticaTwilio/PX.Objects.TW/TW/Descriptor/Twilio.cs:56 | `Add` updates the entries in place to exactly the `Added` state and keeps the invariant. |
| QueryString.KeyPairs | AcumaticaTwilio/PX.Objects.TW/TW/Descriptor/Twilio.cs:22 | The inner `from value in GetValues(key)` gives one pair per value, in value order. |
| QueryString.SelectPairs | AcumaticaTwilio/PX.Objects.TW/TW/Descriptor/Twilio.cs:21-22 | The nested `from key in keys from value in GetValues(key)` comprehension. Every pair's key is one of the keys given, and its value is one of that key's values. |
| QueryString.QueryPairs | AcumaticaTwilio/PX.Objects.TW/TW/Descriptor/Twilio.cs:21-22 | The comprehension over `AllKeys`. Every pair's key is a key of the collection, and its value is one of that key's values. `QueryPairsFlatten` fixes the order and completeness. |
| QueryString.Segment | AcumaticaTwilio/PX.Objects.TW/TW/Descriptor/Twilio.cs:23 | `string.Format("{0}={1}")` over the escaped key and value. `SegmentShape` and `ParseSegmentRoundTrip` show it holds no `&`, that its first `=` separates the two halves, and that it parses back to its pair. |
| QueryString.Segments | AcumaticaTwilio/PX.Objects.TW/TW/Descriptor/Twilio.cs:21-23 | There is one formatted segment per selected pair. |
| QueryString.Join | AcumaticaTwilio/PX.Objects.TW/TW/Descriptor/Twilio.cs:25 | `string.Join("&", …)`: the parts with one separator between neighbours. `SplitJoin` proves that splitting recovers the parts, and `QuerySegments` that the query's body is exactly the segments. |
| QueryString.ToQueryString | AcumaticaTwilio/PX.Objects.TW/TW/Descriptor/Twilio.cs:19-26 | The result starts with `startChar`, which defaults to `?`. |
| QueryString.QueryPairsFlatten | AcumaticaTwilio/PX.Objects.TW/TW/Descriptor/Twilio.cs:21-23 | On a well-formed collection the comprehension yields every key in insertion order, each key's values in insertion order. |
| QueryString.SelectPairsFlatten | AcumaticaTwilio/PX.Objects.TW/TW/Descriptor/Twilio.cs:21-22 | The same, for the keys from position `k` on. |
| QueryString.FlattenLength | AcumaticaTwilio/PX.Objects.TW/TW/Descriptor/Twilio.cs:21-22 | There is one pair per value held. |
| QueryString.FlattenAt | AcumaticaTwilio/PX.Objects.TW/TW/Descriptor/Twilio.cs:21-22 | The `j`-th value of the `i`-th key sits after all earlier keys' values and the first `j` values of its own key. |
| QueryString.SplitJoin | AcumaticaTwilio/PX.Objects.TW/TW/Descriptor/Twilio.cs:25 | Splitting `string.Join` output on the separator gives the parts back, when no part contains the separator. |
| QueryString.SegmentShape | AcumaticaTwilio/PX.Objects.TW/TW/Descriptor/Twilio.cs:23 | A `{0}={1}` segment holds no `&`, and its first `=` separates the escaped key from the escaped value. |
| QueryString.ParseSegmentRoundTrip | AcumaticaTwilio/PX.Objects.TW/TW/Descriptor/Twilio.cs:23 | Each segment parses back to the pair it was written from. |
| QueryString.ParseSegmentsRoundTrip | AcumaticaTwilio/PX.Objects.TW/TW/Descriptor/Twilio.cs:21-23 | A list of segments parses back to its pairs, in order. |
| QueryString.SegmentsAt | AcumaticaTwilio/PX.Objects.TW/TW/Descriptor/Twilio.cs:23 | The `i`-th segment is `escape(key) + "=" + escape(value)` of the `i`-th pair. |
| QueryString.QuerySegments | AcumaticaTwilio/PX.Objects.TW/TW/Descriptor/Twilio.cs:19-26 | The text after the prefix splits on `&` into exactly the segments, one per pair, in order. |
| QueryString.ParseToQueryString | AcumaticaTwilio/PX.Objects.TW/TW/Descriptor/Twilio.cs:19-26 | Parsing the query string with the same prefix recovers exactly the pairs written, in order. |
| QueryString.ParseToQueryStringWellFormed | AcumaticaTwilio/PX.Objects.TW/TW/Descriptor/Twilio.cs:19-26 | On a well-formed collection there is one segment per value, and the parse gives the key-by-key flattening. |
| QueryString.ToQueryStringEmpty | AcumaticaTwilio/PX.Objects.TW/TW/Descriptor/Twilio.cs:25 | The result is `startChar` alone exactly when there are no pairs (both directions). |
| QueryString.CustomPrefixExample | AcumaticaTwilio/PX.Objects.TW/TW/Descriptor/Twilio.cs:19-25 | A caller's prefix replaces `?`: the single pair `a`/`b` with prefix `&` gives `&a=b`. |
| TwilioNotification.DigitChar | AcumaticaTwilio/PX.Objects.TW/TW/Descriptor/Twilio.cs:56 | A digit value is written as a decimal digit character. |
| TwilioNotification.DigitValue | AcumaticaTwilio/PX.Objects.TW/TW/Descriptor/Twilio.cs:56 | A decimal digit character stands for a value below 10. |
| TwilioNotification.DecimalString | AcumaticaTwilio/PX.Objects.TW/TW/Descriptor/Twilio.cs:56 | The index is written as at least one decimal digit, with no leading zero. |
| TwilioNotification.DecimalRoundTrip | AcumaticaTwilio/PX.Objects.TW/TW/Descriptor/Twilio.cs:56 | Reading the written index gives the index back. |
| TwilioNotification.MessageKey | AcumaticaTwilio/PX.Objects.TW/TW/Descriptor/Twilio.cs:56 | The key `"Message[" + i + "]"`. `MessageKeysDistinct` shows distinct indices give non-matching keys, and `EscapedMessageKey` gives its escaped form. |
| TwilioNotification.MessageKeysDistinct | AcumaticaTwilio/PX.Objects.TW/TW/Descriptor/Twilio.cs:54-56 | Two message keys match, ignoring case, exactly when their indices are equal. |
| TwilioNotification.EscapedMessageKey | AcumaticaTwilio/PX.Objects.TW/TW/Descriptor/Twilio.cs:56 | The key `Message[i]` escapes to `Message%5B` + digits of `i` + `%5D`. |
| TwilioNotification.EscapedKeyHead | AcumaticaTwilio/PX.Objects.TW/TW/Descriptor/Twilio.cs:56 | The head `Message[` escapes to `Message%5B`. |
| TwilioNotification.MessageEntries | AcumaticaTwilio/PX.Objects.TW/TW/Descriptor/Twilio.cs:52-57 | The collection the loop builds: entry `i` is `Message[i]` holding `messages[i]`. `AddMessage` shows each loop step yields the next prefix, and `MessageEntriesWellFormed` shows the keys are distinct. |
| TwilioNotification.TwimletBaseHasNoQuery | AcumaticaTwilio/PX.Objects.TW/TW/Descriptor/Twilio.cs:31 | `TwimletBase`, the constant `http://twimlets.com/message`, holds no `?` and is 27 characters long. |
| TwilioNotification.MessageEntriesWellFormed | AcumaticaTwilio/PX.Objects.TW/TW/Descriptor/Twilio.cs:52-57 | The collection of message keys has distinct keys, each with one value. |
| TwilioNotification.FlattenSingleValued | AcumaticaTwilio/PX.Objects.TW/TW/Descriptor/Twilio.cs:21-22 | When every key has one value, the query has one pair per key, in key order. |
| TwilioNotification.MessageQueryPairs | AcumaticaTwilio/PX.Objects.TW/TW/Descriptor/Twilio.cs:52-59 | The message query writes the pair `Message[i]` / `messages[i]` for each message, by increasing index. |
| TwilioNotification.MessageQueryFormat | AcumaticaTwilio/PX.Objects.TW/TW/Descriptor/Twilio.cs:52-59 | The query is `?` followed by `Message%5B<i>%5D=<escaped message i>` segments joined with `&`, in index order. |
| TwilioNotification.AddMessage | AcumaticaTwilio/PX.Objects.TW/TW/Descriptor/Twilio.cs:54-57 | Each loop step adds a new key at the end, because no earlier message key matches. |
| TwilioNotification.MessageUrl | AcumaticaTwilio/PX.Objects.TW/TW/Descriptor/Twilio.cs:50-60 | Several guarantees hold for the built URL: it is `TwimletBase` plus the query string of the collection the loop filled; it starts with `http://twimlets.com/message` (`TwimletBase`, line 31); its query parses back to exactly the pairs `Message[i]` / `messages[i]` in order; it is `http://twimlets.com/message?` exactly when there are no messages; and its first `?` separates `TwimletBase` from the query. |

## Left out

- The constructor `TwilioNotification(sid, token)` (lines 40-43), which calls `TwilioClient.Init`, is left out. It configures the vendor SDK, which is not part of this model.
- `SendSMS`, `SendCall` and the `Origin` property are left out. They only hand data to the Twilio SDK over the network.
- `null` is not modelled: no null collection, key, value, `startChar` or `messages` array, and no null value list from `GetValues`. In C# a null `startChar` would concatenate as the empty string. `NameValues.WellFormed` therefore assumes every key holds at least one value.
- `NameValues.SameKey` folds only the ASCII letters. The library compares keys case-insensitively under the invariant culture, which also folds non-ASCII letters. The message keys are ASCII, so `MessageUrl` is unaffected.
- `UriEscape.EscapeDataString` works on Unicode scalar values. A .NET string is UTF-16 and may hold a lone surrogate, for which `EscapeDataString` throws; a Dafny `char` cannot hold one.
- `UriEscape.EscapeDataString` follows RFC 3986 as .NET 4.5 and later do. Older frameworks follow RFC 2396 and leave `!`, `*`, `'`, `(` and `)` unescaped; that behaviour is not modelled.
- `UriEscape.EscapeDataString` has no length limit. Versions of the .NET Framework throw `UriFormatException` beyond a fixed input length; that limit is not modelled.
- `TwilioNotification.DecimalString` takes an unbounded index. The source's `int` counter cannot exceed 2^31 - 1, but an array never holds that many messages.
- The parser (`QueryString.ParseQuery` and its helpers) is not in the source, and neither are the decoders `Utf8.Decode`, `UriEscape.PercentDecode` and `UriEscape.PercentUnescape`. They exist in the model only as the partners that the round-trip lemmas are stated against. `PercentUnescape` is not .NET's `Uri.UnescapeDataString`: it gives None on malformed escapes or invalid UTF-8, where .NET leaves such text as it is.
- Concrete URLs for particular messages are not stated as lemmas, apart from the empty one in `MessageUrl`. `TwilioNotification.MessageQueryFormat` gives the form for every input.
