/**
 * Dictionaries that keep insertion order, as Python dicts and JavaScript
 * objects with string keys do: association lists with distinct keys.
 */
module Dicts {
  import opened Results

  /** The keys in insertion order. */
  function Keys<V>(entries: seq<(string, V)>): (r: seq<string>)
    ensures |r| == |entries| && forall i :: 0 <= i < |r| ==> r[i] == entries[i].0
  {
    if entries == [] then [] else [entries[0].0] + Keys(entries[1..])
  }

  predicate DistinctKeys<V>(entries: seq<(string, V)>)
  {
    forall i, j :: 0 <= i < j < |entries| ==> entries[i].0 != entries[j].0
  }

  /** d[key] for a dict, if present. */
  function Lookup<V>(entries: seq<(string, V)>, key: string): Option<V>
  {
    if entries == [] then None
    else if entries[0].0 == key then Some(entries[0].1)
    else Lookup(entries[1..], key)
  }

  /** d[key] = v: replaces the value of a present key in place, appends a new key at the end. */
  function Put<V>(entries: seq<(string, V)>, key: string, v: V): (r: seq<(string, V)>)
  {
    if entries == [] then [(key, v)]
    else if entries[0].0 == key then [(key, v)] + entries[1..]
    else [entries[0]] + Put(entries[1..], key, v)
  }

  /** After d[key] = v, d[key] is v and every other key reads as before. */
  lemma {:induction false} PutLookup<V>(entries: seq<(string, V)>, key: string, v: V, other: string)
    ensures Lookup(Put(entries, key, v), key) == Some(v)
    ensures other != key ==> Lookup(Put(entries, key, v), other) == Lookup(entries, other)
  {
    if entries != [] && entries[0].0 != key {
      PutLookup(entries[1..], key, v, other);
    }
  }

  /** d[key] = v keeps the key order: a present key stays where it is, a new key goes last. */
  lemma {:induction false} PutKeys<V>(entries: seq<(string, V)>, key: string, v: V)
    ensures Keys(Put(entries, key, v)) == if key in Keys(entries) then Keys(entries) else Keys(entries) + [key]
  {
    if entries != [] && entries[0].0 != key {
      PutKeys(entries[1..], key, v);
      assert Keys(entries) == [entries[0].0] + Keys(entries[1..]);
    }
  }

  /** A dict never holds a key twice. */
  lemma PutDistinct<V>(entries: seq<(string, V)>, key: string, v: V)
    requires DistinctKeys(entries)
    ensures DistinctKeys(Put(entries, key, v))
  {
    PutKeys(entries, key, v);
    var r := Put(entries, key, v);
    forall i, j | 0 <= i < j < |r|
      ensures r[i].0 != r[j].0
    {
      assert Keys(r)[i] == r[i].0 && Keys(r)[j] == r[j].0;
    }
  }

  /** A key reads as present exactly when it is one of the keys. */
  lemma {:induction false} LookupKeys<V>(entries: seq<(string, V)>, key: string)
    ensures Lookup(entries, key).Some? <==> key in Keys(entries)
  {
    if entries != [] {
      LookupKeys(entries[1..], key);
      assert Keys(entries) == [entries[0].0] + Keys(entries[1..]);
    }
  }

  /** d[key] = v entry by entry: the entry of key holds v, every other entry is unchanged, a new key comes last. */
  lemma {:induction false} PutAt<V>(entries: seq<(string, V)>, key: string, v: V)
    requires DistinctKeys(entries)
    ensures var r := Put(entries, key, v);
      |entries| <= |r| <= |entries| + 1 &&
      forall i :: 0 <= i < |r| ==> r[i] == if i < |entries| && entries[i].0 != key then entries[i] else (key, v)
  {
    if entries != [] && entries[0].0 != key {
      PutAt(entries[1..], key, v);
      var r, tail := Put(entries, key, v), Put(entries[1..], key, v);
      assert r == [entries[0]] + tail;
      forall i | 1 <= i < |r|
        ensures r[i] == if i < |entries| && entries[i].0 != key then entries[i] else (key, v)
      {
        assert r[i] == tail[i - 1];
      }
    }
  }
}
