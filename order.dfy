/**
 * `writeBuffer` walked over the record's own entries, in the map's insertion
 * order, against the walk over the schema in declared order. The two agree
 * on every record whose keys are in schema order, which is what decoding and
 * `fromMap` build; a record filled by `set` in another order is written in
 * an order the receiver's mask does not describe.
 */
module InsertionOrder {
  import opened Wire
  import opened Schema
  import opened Entries
  import opened Codec
  import opened RoundTrip

  /** `fields.get(k) || default_type`: the schema's type for `k`, the default for an unknown key. */
  function TypeOfKey(fields: seq<Field>, k: string): (t: WireType)
    ensures IndexOf(fields, k) == |fields| ==> t == DefaultType
  {
    var i := IndexOf(fields, k);
    if i < |fields| then TypeOf(fields[i]) else DefaultType
  }

  predicate EntriesFit(fields: seq<Field>, es: seq<Entry>) {
    forall k :: 0 <= k < |es| ==> Fits(TypeOfKey(fields, es[k].key), es[k].value)
  }

  /** The bytes of a walk over the entries in insertion order. */
  function EncodeEntries(fields: seq<Field>, e: Endian, es: seq<Entry>): (s: seq<byte>)
    requires EntriesFit(fields, es)
    ensures |s| <= 4 * |es|
  {
    if es == [] then []
    else
      var x := es[|es| - 1];
      EncodeEntries(fields, e, es[..|es| - 1]) + Write(TypeOfKey(fields, x.key), e, x.value)
  }

  /** `fromMap`'s entries fit their types when the map's values fit the schema. */
  lemma {:induction false} FilteredFit(fields: Schema, m: map<string, int>, n: nat)
    requires n <= |fields| && AllFit(fields, m)
    ensures EntriesFit(fields, Filtered(fields, m, n))
  {
    if n > 0 {
      FilteredFit(fields, m, n - 1);
      var f := fields[n - 1];
      IndexOfName(fields, n - 1);
      if f.name in m {
        var prev := Filtered(fields, m, n - 1);
        var es := prev + [Entry(f.name, m[f.name])];
        assert forall k :: 0 <= k < |prev| ==> es[k] == prev[k];
      }
    }
  }

  /** One step of the entry walk: appending an entry appends its bytes. */
  lemma EncodeEntriesSnoc(fields: seq<Field>, e: Endian, es: seq<Entry>, x: Entry)
    requires EntriesFit(fields, es) && Fits(TypeOfKey(fields, x.key), x.value)
    ensures EntriesFit(fields, es + [x])
    ensures EncodeEntries(fields, e, es + [x]) == EncodeEntries(fields, e, es) + Write(TypeOfKey(fields, x.key), e, x.value)
  {
    var es' := es + [x];
    assert forall k :: 0 <= k < |es| ==> es'[k] == es[k];
    assert es'[..|es'| - 1] == es;
  }

  /** Walking `fromMap`'s entries writes what the schema-order walk writes. */
  lemma {:induction false} EncodeFilteredEntries(fields: Schema, e: Endian, m: map<string, int>, n: nat)
    requires n <= |fields| && AllFit(fields, m)
    ensures EntriesFit(fields, Filtered(fields, m, n))
    ensures EncodeEntries(fields, e, Filtered(fields, m, n)) == EncodeUpTo(fields, e, m, n)
  {
    FilteredFit(fields, m, n);
    if n > 0 {
      EncodeFilteredEntries(fields, e, m, n - 1);
      var f := fields[n - 1];
      if f.name in m {
        FilteredFieldStep(fields, e, m, n);
      } else {
        FilteredAbsent(fields, m, n);
        EncodeUpToAbsent(fields, e, m, n);
      }
    }
  }

  /** Field `n - 1` present in `m`: both walks append the bytes of its value. */
  lemma FilteredFieldStep(fields: Schema, e: Endian, m: map<string, int>, n: nat)
    requires 0 < n <= |fields| && AllFit(fields, m) && fields[n - 1].name in m
    requires EntriesFit(fields, Filtered(fields, m, n - 1))
    ensures EntriesFit(fields, Filtered(fields, m, n))
    ensures EncodeEntries(fields, e, Filtered(fields, m, n))
         == EncodeEntries(fields, e, Filtered(fields, m, n - 1)) + EncodeUpTo(fields, e, m, n)[|EncodeUpTo(fields, e, m, n - 1)|..]
  {
    var f := fields[n - 1];
    var v := m[f.name];
    IndexOfName(fields, n - 1);
    assert TypeOfKey(fields, f.name) == TypeOf(f);
    FilteredPresent(fields, m, n);
    EncodeEntriesSnoc(fields, e, Filtered(fields, m, n - 1), Entry(f.name, v));
    EncodeUpToPresent(fields, e, m, n);
    var prev := EncodeUpTo(fields, e, m, n - 1);
    assert (prev + Write(TypeOf(f), e, v))[|prev|..] == Write(TypeOf(f), e, v);
  }

  /** A key of schema field `n - 1` can only stand last among keys ordered below `n`. */
  lemma TopKeyIsLast(fields: Schema, keys: seq<string>, n: nat, k: nat)
    requires 0 < n <= |fields| && OrderedBelow(fields, keys, n)
    requires k < |keys| && keys[k] == fields[n - 1].name
    ensures k == |keys| - 1
    ensures OrderedBelow(fields, keys[..k], n - 1)
  {
    IndexOfName(fields, n - 1);
    assert IndexOf(fields, keys[|keys| - 1]) < n;
    assert forall i :: 0 <= i < k ==> keys[..k][i] == keys[i];
    assert forall i :: 0 <= i < k ==> IndexOf(fields, keys[i]) < IndexOf(fields, keys[k]);
  }

  /** Keys ordered below `n` that skip field `n - 1` are ordered below `n - 1`. */
  lemma SkipTopKey(fields: Schema, keys: seq<string>, n: nat)
    requires 0 < n <= |fields| && OrderedBelow(fields, keys, n)
    requires fields[n - 1].name !in keys
    ensures OrderedBelow(fields, keys, n - 1)
  {
    forall i | 0 <= i < |keys|
      ensures IndexOf(fields, keys[i]) < n - 1
    {
      assert keys[i] != fields[n - 1].name;
    }
  }

  /**
   * The entries have schema-ordered keys among the first `n` fields, agree
   * with `m`, and hold every one of those fields `m` has.
   */
  predicate Agrees(fields: Schema, m: map<string, int>, es: seq<Entry>, n: nat) {
    && n <= |fields|
    && OrderedBelow(fields, Keys(es), n)
    && (forall k :: 0 <= k < |es| ==> es[k].key in m && m[es[k].key] == es[k].value)
    && (forall j :: 0 <= j < n && fields[j].name in m ==> fields[j].name in Keys(es))
  }

  /** Entries agreeing with `m` below `n` are exactly what `fromMap` builds from `m`. */
  lemma {:induction false} OrderedIsFiltered(fields: Schema, m: map<string, int>, es: seq<Entry>, n: nat)
    requires Agrees(fields, m, es, n)
    ensures Filtered(fields, m, n) == es
    decreases n, 1
  {
    if es == [] {
      assert Keys(es) == [];
      NothingFiltered(fields, m, n);
    } else {
      AgreesNonEmpty(fields, m, es, n);
      OrderedIsFilteredStep(fields, m, es, n);
    }
  }

  /** One field of the walk: field `n - 1` is the last entry exactly when `m` has it. */
  lemma {:induction false} OrderedIsFilteredStep(fields: Schema, m: map<string, int>, es: seq<Entry>, n: nat)
    requires Agrees(fields, m, es, n) && es != [] && n > 0
    ensures Filtered(fields, m, n) == es
    decreases n, 0
  {
    if fields[n - 1].name in m {
      var es' := AgreesPresent(fields, m, es, n);
      OrderedIsFiltered(fields, m, es', n - 1);
      FilteredPresent(fields, m, n);
    } else {
      AgreesAbsent(fields, m, es, n);
      OrderedIsFiltered(fields, m, es, n - 1);
      FilteredAbsent(fields, m, n);
    }
  }

  /** No field below `n` in `m`: `fromMap` builds nothing. */
  lemma {:induction false} NothingFiltered(fields: Schema, m: map<string, int>, n: nat)
    requires n <= |fields|
    requires forall j :: 0 <= j < n ==> fields[j].name !in m
    ensures Filtered(fields, m, n) == []
  {
    if n > 0 {
      NothingFiltered(fields, m, n - 1);
      FilteredAbsent(fields, m, n);
    }
  }

  /** Entries below `n` exist only when `n` is positive. */
  lemma AgreesNonEmpty(fields: Schema, m: map<string, int>, es: seq<Entry>, n: nat)
    requires Agrees(fields, m, es, n) && es != []
    ensures n > 0
  {
    assert IndexOf(fields, Keys(es)[0]) < n;
  }

  /** The entry of a present field `n - 1` stands last; the rest agree below `n - 1`. */
  lemma AgreesPresent(fields: Schema, m: map<string, int>, es: seq<Entry>, n: nat) returns (es': seq<Entry>)
    requires Agrees(fields, m, es, n) && es != [] && n > 0
    requires fields[n - 1].name in m
    ensures es == es' + [Entry(fields[n - 1].name, m[fields[n - 1].name])]
    ensures Agrees(fields, m, es', n - 1)
  {
    var keys := Keys(es);
    assert IndexOf(fields, keys[|keys| - 1]) < n;
    var f := fields[n - 1];
    var k :| 0 <= k < |keys| && keys[k] == f.name;
    TopKeyIsLast(fields, keys, n, k);
    es' := es[..k];
    assert Keys(es') == keys[..k];
    assert es == es' + [Entry(f.name, m[f.name])];
    PrefixHoldsLower(fields, m, es, n);
  }

  /** Without field `n - 1` in `m`, the entries agree below `n - 1`. */
  lemma AgreesAbsent(fields: Schema, m: map<string, int>, es: seq<Entry>, n: nat)
    requires Agrees(fields, m, es, n) && es != [] && n > 0
    requires fields[n - 1].name !in m
    ensures Agrees(fields, m, es, n - 1)
  {
    var keys := Keys(es);
    assert IndexOf(fields, keys[|keys| - 1]) < n;
    assert fields[n - 1].name !in keys;
    SkipTopKey(fields, keys, n);
  }

  /** Dropping the entry of field `n - 1` keeps every lower field `m` has. */
  lemma PrefixHoldsLower(fields: Schema, m: map<string, int>, es: seq<Entry>, n: nat)
    requires 0 < n <= |fields| && es != [] && es[|es| - 1].key == fields[n - 1].name
    requires forall j :: 0 <= j < n && fields[j].name in m ==> fields[j].name in Keys(es)
    ensures forall j :: 0 <= j < n - 1 && fields[j].name in m ==> fields[j].name in Keys(es[..|es| - 1])
  {
    var es' := es[..|es| - 1];
    forall j | 0 <= j < n - 1 && fields[j].name in m
      ensures fields[j].name in Keys(es')
    {
      IndexOfName(fields, j);
      IndexOfName(fields, n - 1);
      var i :| 0 <= i < |es| && Keys(es)[i] == fields[j].name;
      assert i != |es| - 1;
      assert Keys(es')[i] == fields[j].name;
    }
  }

  /**
   * For a record whose keys are in schema order, the walk over its entries
   * writes exactly what the walk over the schema writes.
   */
  lemma InsertionOrderAgrees(fields: Schema, e: Endian, es: seq<Entry>)
    requires InSchemaOrder(fields, Keys(es))
    requires AllFit(fields, AsMap(es))
    ensures EntriesFit(fields, es)
    ensures EncodeEntries(fields, e, es) == Encode(fields, e, AsMap(es))
  {
    var m := AsMap(es);
    InSchemaOrderUnique(fields, es);
    forall k | 0 <= k < |es|
      ensures es[k].key in m && m[es[k].key] == es[k].value
    {
      LookupAsMap(es, es[k].key);
      LookupUnique(es, k);
    }
    forall j | 0 <= j < |fields| && fields[j].name in m
      ensures fields[j].name in Keys(es)
    {
      LookupAsMap(es, fields[j].name);
    }
    assert Agrees(fields, m, es, |fields|);
    OrderedIsFiltered(fields, m, es, |fields|);
    EncodeFilteredEntries(fields, e, m, |fields|);
  }

  /**
   * A decoded record walked in its insertion order writes back the bytes
   * the decode consumed.
   */
  lemma DecodedInsertionOrder(fields: Schema, mask: nat, e: Endian, buf: seq<byte>)
    requires Decode(fields, mask, e, buf).Ok?
    ensures var es := Decode(fields, mask, e, buf).value;
            && Consumed(fields, mask) <= |buf|
            && EntriesFit(fields, es)
            && EncodeEntries(fields, e, es) == buf[..Consumed(fields, mask)]
  {
    DecodeSpec(fields, mask, e, buf);
    DecodeThenEncode(fields, mask, e, buf);
    InsertionOrderAgrees(fields, e, Decode(fields, mask, e, buf).value);
  }
}
