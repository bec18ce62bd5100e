/**
 * A JavaScript `Map<string, number>` as the sequence of its entries in
 * insertion order: `set` on an existing key replaces the value where it
 * stands, `set` on a new key appends, `get` finds the key's value.
 */
module Entries {
  import opened Wrappers

  datatype Entry = Entry(key: string, value: int)

  function Keys(es: seq<Entry>): (r: seq<string>)
    ensures |r| == |es|
    ensures forall i :: 0 <= i < |es| ==> r[i] == es[i].key
  {
    seq(|es|, i requires 0 <= i < |es| => es[i].key)
  }

  predicate UniqueKeys(es: seq<Entry>) {
    forall i, j :: 0 <= i < j < |es| ==> es[i].key != es[j].key
  }

  /** `map.get(k)`. */
  function Lookup(es: seq<Entry>, k: string): (r: Option<int>)
    ensures r.Some? <==> k in Keys(es)
  {
    if es == [] then None
    else if es[0].key == k then Some(es[0].value)
    else Lookup(es[1..], k)
  }

  /** Appending an entry does not change what existing keys map to. */
  lemma {:induction false} LookupAppend(es: seq<Entry>, x: Entry, k: string)
    ensures Lookup(es + [x], k) == if k in Keys(es) then Lookup(es, k) else if x.key == k then Some(x.value) else None
  {
    if es != [] {
      assert (es + [x])[1..] == es[1..] + [x];
      LookupAppend(es[1..], x, k);
      assert Keys(es) == [es[0].key] + Keys(es[1..]);
    }
  }

  /** In a map without repeated keys, `get` finds the entry holding the key. */
  lemma {:induction false} LookupUnique(es: seq<Entry>, k: nat)
    requires UniqueKeys(es) && k < |es|
    ensures Lookup(es, es[k].key) == Some(es[k].value)
  {
    if k > 0 {
      LookupUnique(es[1..], k - 1);
    }
  }

  /** `map.set(k, v)`. */
  function Put(es: seq<Entry>, k: string, v: int): (r: seq<Entry>)
    ensures |r| == if k in Keys(es) then |es| else |es| + 1
  {
    if es == [] then [Entry(k, v)]
    else if es[0].key == k then [Entry(k, v)] + es[1..]
    else [es[0]] + Put(es[1..], k, v)
  }

  /** The abstract map an entry sequence stands for. */
  function AsMap(es: seq<Entry>): (m: map<string, int>) {
    if es == [] then map[] else AsMap(es[1..])[es[0].key := es[0].value]
  }

  /** `get` and membership agree with the abstract map. */
  lemma {:induction false} LookupAsMap(es: seq<Entry>, k: string)
    ensures k in AsMap(es) <==> k in Keys(es)
    ensures k in AsMap(es) ==> Lookup(es, k) == Some(AsMap(es)[k])
  {
    if es != [] {
      LookupAsMap(es[1..], k);
      assert k in Keys(es) <==> k == es[0].key || k in Keys(es[1..]);
    }
  }

  /** After `set(k, v)`, `get(k)` is `v`. */
  lemma {:induction false} LookupPutSame(es: seq<Entry>, k: string, v: int)
    ensures Lookup(Put(es, k, v), k) == Some(v)
  {
    if es != [] && es[0].key != k {
      LookupPutSame(es[1..], k, v);
    }
  }

  /** `set(k, v)` leaves every other key's value as it was. */
  lemma {:induction false} LookupPutOther(es: seq<Entry>, k: string, v: int, k': string)
    requires k' != k
    ensures Lookup(Put(es, k, v), k') == Lookup(es, k')
  {
    if es != [] && es[0].key != k {
      LookupPutOther(es[1..], k, v, k');
    }
  }

  /** `set` keeps an existing key where it stands and appends a new one. */
  lemma {:induction false} PutKeys(es: seq<Entry>, k: string, v: int)
    ensures Keys(Put(es, k, v)) == if k in Keys(es) then Keys(es) else Keys(es) + [k]
  {
    if es != [] {
      KeysCons(es[0], es[1..]);
      assert es == [es[0]] + es[1..];
      if es[0].key == k {
        KeysCons(Entry(k, v), es[1..]);
      } else {
        PutKeys(es[1..], k, v);
        KeysCons(es[0], Put(es[1..], k, v));
      }
    }
  }

  lemma KeysCons(x: Entry, es: seq<Entry>)
    ensures Keys([x] + es) == [x.key] + Keys(es)
  {
  }

  /** `set` of a key not yet present appends one entry. */
  lemma PutNew(es: seq<Entry>, k: string, v: int)
    requires k !in Keys(es)
    ensures Put(es, k, v) == es + [Entry(k, v)]
  {
    PutKeys(es, k, v);
    if es != [] {
      PutNew(es[1..], k, v);
    }
  }

  /** A `Map` never holds a key twice. */
  lemma PutUnique(es: seq<Entry>, k: string, v: int)
    requires UniqueKeys(es)
    ensures UniqueKeys(Put(es, k, v))
  {
    PutKeys(es, k, v);
    var r := Put(es, k, v);
    assert Keys(r) == if k in Keys(es) then Keys(es) else Keys(es) + [k];
  }

  /** The in-place `Map` object. */
  class EntryMap {
    var entries: seq<Entry>

    /** `new Map()`. */
    constructor ()
      ensures entries == []
    {
      entries := [];
    }

    function Get(k: string): (r: Option<int>)
      reads this
      ensures r.Some? <==> k in Keys(entries)
    {
      Lookup(entries, k)
    }

    /** `map.set(k, v)`, which answers the map itself. */
    method Set(k: string, v: int) returns (r: EntryMap)
      modifies this
      ensures r == this
      ensures entries == Put(old(entries), k, v)
      ensures Get(k) == Some(v)
      ensures forall k' :: k' != k ==> Get(k') == old(Get(k'))
      ensures UniqueKeys(old(entries)) ==> UniqueKeys(entries)
    {
      LookupPutSame(entries, k, v);
      forall k' | k' != k
        ensures Lookup(Put(entries, k, v), k') == Lookup(entries, k')
      {
        LookupPutOther(entries, k, v, k');
      }
      if UniqueKeys(entries) {
        PutUnique(entries, k, v);
      }
      entries := Put(entries, k, v);
      r := this;
    }
  }
}
