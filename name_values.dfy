/**
 * The part of `System.Collections.Specialized.NameValueCollection` that the
 * query-string builder relies on: an ordered multi-valued map from string keys
 * to string values. Keys are kept in first-insertion order; each key keeps its
 * values in insertion order; keys are compared without regard to case, and the
 * spelling of a key's first insertion is the one `AllKeys` reports.
 */
module NameValues {
  import opened Optional

  /** One key and the values added under it, oldest first. */
  datatype Entry = Entry(key: string, values: seq<string>)

  /** The lower-case form of an ASCII letter; every other character as it is. */
  function FoldChar(c: char): (d: char)
    ensures 'A' <= c <= 'Z' ==> 'a' <= d <= 'z' && d as int - c as int == 32
    ensures !('A' <= c <= 'Z') ==> d == c
  {
    if 'A' <= c <= 'Z' then (c as int + 32) as char else c
  }

  function Fold(s: string): (r: string)
    ensures |r| == |s| && forall i :: 0 <= i < |s| ==> r[i] == FoldChar(s[i])
  {
    seq(|s|, i requires 0 <= i < |s| => FoldChar(s[i]))
  }

  /** The collection's key comparison: equal up to the case of letters. */
  predicate SameKey(a: string, b: string) {
    Fold(a) == Fold(b)
  }

  /** The position of the entry whose key matches `key`, if any. */
  function FindKey(entries: seq<Entry>, key: string): (r: Option<nat>)
    ensures r.Some? ==> r.value < |entries| && SameKey(entries[r.value].key, key)
    ensures r.Some? ==> forall j :: 0 <= j < r.value ==> !SameKey(entries[j].key, key)
    ensures r.None? <==> forall j :: 0 <= j < |entries| ==> !SameKey(entries[j].key, key)
  {
    if entries == [] then None
    else if SameKey(entries[0].key, key) then Some(0)
    else
      match FindKey(entries[1..], key)
      case None => None
      case Some(i) => Some(i + 1)
  }

  /**
   * The collection's invariant: no two keys match, and every key holds at
   * least one value (the library reports a key without values as a null list,
   * which can only arise from null values).
   */
  predicate WellFormed(entries: seq<Entry>) {
    && (forall i, j :: 0 <= i < j < |entries| ==> !SameKey(entries[i].key, entries[j].key))
    && (forall i :: 0 <= i < |entries| ==> entries[i].values != [])
  }

  /** `AllKeys`: the keys, in first-insertion order. */
  function AllKeys(entries: seq<Entry>): (keys: seq<string>)
    ensures |keys| == |entries| && forall i :: 0 <= i < |entries| ==> keys[i] == entries[i].key
  {
    seq(|entries|, i requires 0 <= i < |entries| => entries[i].key)
  }

  /** `GetValues(key)`: the values of the matching key, oldest first, or None when no key matches. */
  function GetValues(entries: seq<Entry>, key: string): (r: Option<seq<string>>)
    ensures r.None? <==> forall j :: 0 <= j < |entries| ==> !SameKey(entries[j].key, key)
  {
    match FindKey(entries, key)
    case None => None
    case Some(i) => Some(entries[i].values)
  }

  /** The entries after `Add(name, value)`: a matching key gets the value appended, otherwise a new key is appended. */
  function Added(entries: seq<Entry>, name: string, value: string): (r: seq<Entry>)
    ensures |r| == if FindKey(entries, name).None? then |entries| + 1 else |entries|
    ensures forall j :: 0 <= j < |entries| ==> r[j].key == entries[j].key
  {
    match FindKey(entries, name)
    case None => entries + [Entry(name, [value])]
    case Some(i) => entries[i := Entry(entries[i].key, entries[i].values + [value])]
  }

  // ---------------------------------------------------------------------------
  // Properties of Add

  /** Two characters are the upper- and lower-case forms of one ASCII letter. */
  predicate CaseVariants(a: char, b: char) {
    ('A' <= a <= 'Z' && b as int == a as int + 32) || ('A' <= b <= 'Z' && a as int == b as int + 32)
  }

  /**
   * Key matching, stated without folding: two keys match exactly when they
   * have the same length and agree at every position up to the case of an
   * ASCII letter.
   */
  lemma SameKeyPositionwise(s: string, t: string)
    ensures SameKey(s, t) <==>
      |s| == |t| && forall i :: 0 <= i < |s| ==> s[i] == t[i] || CaseVariants(s[i], t[i])
  {
    if SameKey(s, t) {
      forall i | 0 <= i < |s| ensures s[i] == t[i] || CaseVariants(s[i], t[i]) {
        assert Fold(s)[i] == Fold(t)[i];
      }
    }
    if |s| == |t| && forall i :: 0 <= i < |s| ==> s[i] == t[i] || CaseVariants(s[i], t[i]) {
      forall i | 0 <= i < |s| ensures Fold(s)[i] == Fold(t)[i] {
      }
    }
  }

  /** Folding a folded key changes nothing. */
  lemma FoldIdempotent(s: string)
    ensures Fold(Fold(s)) == Fold(s)
  {
  }

  /** Adding keeps the collection's invariant. */
  lemma AddedWellFormed(entries: seq<Entry>, name: string, value: string)
    requires WellFormed(entries)
    ensures WellFormed(Added(entries, name, value))
  {
  }

  /** A new key goes to the end of `AllKeys`; a key already present leaves `AllKeys` as it was. */
  lemma AddedAllKeys(entries: seq<Entry>, name: string, value: string)
    ensures AllKeys(Added(entries, name, value))
         == if GetValues(entries, name).None? then AllKeys(entries) + [name] else AllKeys(entries)
  {
    var r := Added(entries, name, value);
    if GetValues(entries, name).None? {
      assert AllKeys(r) == AllKeys(entries) + [name];
    } else {
      assert AllKeys(r) == AllKeys(entries);
    }
  }

  /** The first matching key is the one `FindKey` reports. */
  lemma FindKeyFirst(entries: seq<Entry>, key: string, i: nat)
    requires i < |entries| && SameKey(entries[i].key, key)
    requires forall j :: 0 <= j < i ==> !SameKey(entries[j].key, key)
    ensures FindKey(entries, key) == Some(i)
  {
  }

  /**
   * After `Add(name, value)`, looking up a key matching `name` gives its old
   * values (none if it was new) followed by `value`; every other lookup is unchanged.
   */
  lemma AddedGetValues(entries: seq<Entry>, name: string, value: string, key: string)
    ensures GetValues(Added(entries, name, value), key)
         == if SameKey(key, name) then
              Some((if GetValues(entries, name).Some? then GetValues(entries, name).value else []) + [value])
            else GetValues(entries, key)
  {
    var r := Added(entries, name, value);
    assert forall j :: 0 <= j < |entries| ==> r[j].key == entries[j].key;
    match FindKey(entries, key)
    case None =>
      if SameKey(key, name) {
        if FindKey(entries, name).None? {
          FindKeyFirst(r, key, |entries|);
          assert r[|entries|].values == [] + [value];
        } else {
          assert false;
        }
      } else {
        assert FindKey(r, key).None?;
      }
    case Some(k) =>
      FindKeyFirst(r, key, k);
      if SameKey(key, name) {
        FindKeyFirst(entries, name, k);
      } else if FindKey(entries, name).Some? {
        assert FindKey(entries, name).value != k;
      }
  }

  /**
   * The collection itself, updated in place by `Add`. A fresh collection is
   * empty; `Add` is the only mutation the query-string builder uses.
   */
  class NameValueCollection {
    var entries: seq<Entry>

    ghost predicate Valid()
      reads this
    {
      WellFormed(entries)
    }

    constructor ()
      ensures Valid() && entries == []
    {
      entries := [];
    }

    method Add(name: string, value: string)
      requires Valid()
      modifies this
      ensures Valid()
      ensures entries == Added(old(entries), name, value)
    {
      AddedWellFormed(entries, name, value);
      entries := Added(entries, name, value);
    }
  }
}
