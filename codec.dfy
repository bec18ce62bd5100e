/**
 * The value-list codec as functions: which fields a mask selects, what the
 * decode loop of the `MaskedField` constructor reads, what `writeBuffer`
 * writes, what `fromMap` keeps, and the properties that tie them together.
 * Each definition is by recursion on the number `n` of schema fields walked
 * so far, which is the counter of the loops that compute it.
 */
module Codec {
  import opened Wrappers
  import opened Wire
  import opened Mask
  import opened Schema
  import opened Entries

  /** Buffer access past the end, or iteration over a value that is not iterable. */
  datatype Error = OutOfRange(offset: nat, width: nat) | NotIterable

  /** Entries read so far and the byte offset of the next read. */
  datatype Progress = Progress(entries: seq<Entry>, offset: nat)

  /** The fields among the first `n` whose mask bit is set, in schema order. */
  function Selected(fields: seq<Field>, mask: nat, n: nat): (sel: seq<Field>)
    requires n <= |fields|
    ensures |sel| <= n
  {
    if n == 0 then []
    else Selected(fields, mask, n - 1) + (if MaskBit(mask, n - 1) then [fields[n - 1]] else [])
  }

  /** Bytes the decode loop consumes for `mask`. */
  function Consumed(fields: seq<Field>, mask: nat): (bytes: nat) {
    SumWidths(Selected(fields, mask, |fields|))
  }

  /**
   * One pass of the decode loop over field `f` at progress `p`: skipped when
   * its bit is clear, otherwise its value is read at the running offset.
   */
  function DecodeStep(f: Field, present: bool, e: Endian, buf: seq<byte>, p: Progress): (r: Result<Progress, Error>)
    ensures r.Err? <==> present && p.offset + FieldWidth(f) > |buf|
    ensures r.Err? ==> r.error == OutOfRange(p.offset, FieldWidth(f))
    ensures r.Ok? ==> r.value.offset == p.offset + (if present then FieldWidth(f) else 0)
    ensures r.Ok? ==> |r.value.entries| == |p.entries| + (if present then 1 else 0)
    ensures r.Ok? ==> r.value.entries[..|p.entries|] == p.entries
  {
    if !present then Ok(p)
    else
      var t := TypeOf(f);
      var w := Width(t);
      if p.offset + w > |buf| then Err(OutOfRange(p.offset, w))
      else Ok(Progress(p.entries + [Entry(f.name, Read(t, e, buf, p.offset))], p.offset + w))
  }

  /** The decode loop after walking `n` fields. */
  function DecodeUpTo(fields: seq<Field>, mask: nat, e: Endian, buf: seq<byte>, n: nat): (r: Result<Progress, Error>)
    requires n <= |fields|
    ensures r.Ok? ==> r.value.offset <= |buf| && |r.value.entries| <= n
    ensures r.Err? ==> r.error.OutOfRange? && r.error.offset + r.error.width > |buf|
  {
    if n == 0 then Ok(Progress([], 0))
    else
      match DecodeUpTo(fields, mask, e, buf, n - 1)
      case Err(err) => Err(err)
      case Ok(p) => DecodeStep(fields[n - 1], MaskBit(mask, n - 1), e, buf, p)
  }

  /** The `MaskedField` constructor: the entries decoded from `buf` for `mask`. */
  function Decode(fields: seq<Field>, mask: nat, e: Endian, buf: seq<byte>): (r: Result<seq<Entry>, Error>)
    ensures mask == 0 ==> r == Ok([])
    ensures r.Ok? ==> |r.value| <= |fields|
    ensures r.Err? ==> r.error.OutOfRange? && r.error.offset + r.error.width > |buf|
  {
    if mask == 0 then Ok([])
    else
      match DecodeUpTo(fields, mask, e, buf, |fields|)
      case Err(err) => Err(err)
      case Ok(p) => Ok(p.entries)
  }

  /** An error raised by a read at an offset relative to `start`, seen from the buffer's start. */
  function Shift(err: Error, start: nat): (shifted: Error) {
    match err
    case OutOfRange(offset, width) => OutOfRange(start + offset, width)
    case NotIterable => NotIterable
  }

  /** Decoding a value list that begins at byte `start` of `buf`. */
  function DecodeFrom(fields: seq<Field>, mask: nat, e: Endian, buf: seq<byte>, start: nat): (r: Result<seq<Entry>, Error>)
    requires start <= |buf|
    ensures start == 0 ==> r == Decode(fields, mask, e, buf)
    ensures r.Err? ==> r.error.OutOfRange? && start <= r.error.offset && r.error.offset + r.error.width > |buf|
  {
    match Decode(fields, mask, e, buf[start..])
    case Ok(es) => Ok(es)
    case Err(err) => Err(Shift(err, start))
  }

  /** Every value present in `m` fits its field's type. */
  predicate AllFit(fields: seq<Field>, m: map<string, int>) {
    forall i :: 0 <= i < |fields| && fields[i].name in m ==> Fits(TypeOf(fields[i]), m[fields[i].name])
  }

  /** What one pass of `writeBuffer` writes for field `f`: its value's bytes, or nothing if `m` lacks it. */
  function EncodeField(f: Field, e: Endian, m: map<string, int>): seq<byte>
    requires f.name in m ==> Fits(TypeOf(f), m[f.name])
  {
    if f.name in m then Write(TypeOf(f), e, m[f.name]) else []
  }

  /** `writeBuffer` after walking `n` fields in schema order. */
  function EncodeUpTo(fields: seq<Field>, e: Endian, m: map<string, int>, n: nat): (s: seq<byte>)
    requires n <= |fields|
    requires AllFit(fields, m)
  {
    if n == 0 then [] else EncodeUpTo(fields, e, m, n - 1) + EncodeField(fields[n - 1], e, m)
  }

  function Encode(fields: seq<Field>, e: Endian, m: map<string, int>): (s: seq<byte>)
    requires AllFit(fields, m)
    ensures |s| <= 4 * |fields|
  {
    EncodeUpToLength(fields, e, m, |fields|);
    EncodeUpTo(fields, e, m, |fields|)
  }

  /** Each field writes at most 4 bytes. */
  lemma {:induction false} EncodeUpToLength(fields: seq<Field>, e: Endian, m: map<string, int>, n: nat)
    requires n <= |fields| && AllFit(fields, m)
    ensures |EncodeUpTo(fields, e, m, n)| <= 4 * n
  {
    if n > 0 {
      EncodeUpToLength(fields, e, m, n - 1);
    }
  }

  /** The mask a caller sends with a record holding the keys of `m`. */
  function MaskOf(fields: seq<Field>, m: map<string, int>): (mask: nat) {
    FromBits(seq(|fields|, i requires 0 <= i < |fields| => fields[i].name in m))
  }

  /** `fromMap` after walking `n` fields: the schema fields `m` has, with `m`'s values. */
  function Filtered(fields: seq<Field>, m: map<string, int>, n: nat): (r: seq<Entry>)
    requires n <= |fields|
    ensures |r| <= n
  {
    if n == 0 then []
    else
      var f := fields[n - 1];
      Filtered(fields, m, n - 1) + (if f.name in m then [Entry(f.name, m[f.name])] else [])
  }

  /** Every key is one of the first `n` schema fields, and the keys appear in schema order. */
  predicate OrderedBelow(fields: seq<Field>, keys: seq<string>, n: nat) {
    && (forall k :: 0 <= k < |keys| ==> IndexOf(fields, keys[k]) < n)
    && (forall a, b :: 0 <= a < b < |keys| ==> IndexOf(fields, keys[a]) < IndexOf(fields, keys[b]))
  }

  /** Every key is a schema field, and the keys appear in schema order. */
  predicate InSchemaOrder(fields: seq<Field>, keys: seq<string>) {
    OrderedBelow(fields, keys, |fields|)
  }

  /** Appending the name of field `n` keeps keys ordered, now below `n + 1`. */
  lemma AppendInOrder(fields: seq<Field>, keys: seq<string>, x: string, n: nat)
    requires OrderedBelow(fields, keys, n)
    requires IndexOf(fields, x) == n
    ensures OrderedBelow(fields, keys + [x], n + 1)
  {
    var keys' := keys + [x];
    forall a, b | 0 <= a < b < |keys'|
      ensures IndexOf(fields, keys'[a]) < IndexOf(fields, keys'[b])
    {
      if b < |keys| {
        assert keys'[a] == keys[a] && keys'[b] == keys[b];
      } else {
        assert keys'[a] == keys[a];
      }
    }
    forall k | 0 <= k < |keys'| ensures IndexOf(fields, keys'[k]) < n + 1 {
      if k < |keys| {
        assert keys'[k] == keys[k];
      }
    }
  }

  lemma OrderedBelowWeaken(fields: seq<Field>, keys: seq<string>, n: nat, n': nat)
    requires OrderedBelow(fields, keys, n) && n <= n'
    ensures OrderedBelow(fields, keys, n')
  {
  }

  /** Keys in schema order are never repeated. */
  lemma InSchemaOrderUnique(fields: seq<Field>, es: seq<Entry>)
    requires InSchemaOrder(fields, Keys(es))
    ensures UniqueKeys(es)
  {
    var keys := Keys(es);
    forall i, j | 0 <= i < j < |es| ensures es[i].key != es[j].key {
      assert IndexOf(fields, keys[i]) < IndexOf(fields, keys[j]);
    }
  }

  // ---------------------------------------------------------------------
  // Selection by mask bits

  lemma SumWidthsAppend(fs: seq<Field>, f: Field)
    ensures SumWidths(fs + [f]) == SumWidths(fs) + FieldWidth(f)
  {
    assert (fs + [f])[..|fs|] == fs;
  }

  /** A field whose bit is set is appended to the selection and adds its width. */
  lemma SelectedSet(fields: seq<Field>, mask: nat, n: nat)
    requires 0 < n <= |fields| && MaskBit(mask, n - 1)
    ensures Selected(fields, mask, n) == Selected(fields, mask, n - 1) + [fields[n - 1]]
    ensures SumWidths(Selected(fields, mask, n)) == SumWidths(Selected(fields, mask, n - 1)) + FieldWidth(fields[n - 1])
  {
    SumWidthsAppend(Selected(fields, mask, n - 1), fields[n - 1]);
  }

  /** A field present in the map appends its encoding. */
  lemma EncodeUpToPresent(fields: seq<Field>, e: Endian, m: map<string, int>, n: nat)
    requires 0 < n <= |fields| && AllFit(fields, m) && fields[n - 1].name in m
    ensures EncodeUpTo(fields, e, m, n)
         == EncodeUpTo(fields, e, m, n - 1) + Write(TypeOf(fields[n - 1]), e, m[fields[n - 1].name])
  {
  }

  /** A field absent from the map adds no bytes. */
  lemma EncodeUpToAbsent(fields: seq<Field>, e: Endian, m: map<string, int>, n: nat)
    requires 0 < n <= |fields| && AllFit(fields, m) && fields[n - 1].name !in m
    ensures EncodeUpTo(fields, e, m, n) == EncodeUpTo(fields, e, m, n - 1)
  {
  }

  lemma FilteredPresent(fields: seq<Field>, m: map<string, int>, n: nat)
    requires 0 < n <= |fields| && fields[n - 1].name in m
    ensures Filtered(fields, m, n) == Filtered(fields, m, n - 1) + [Entry(fields[n - 1].name, m[fields[n - 1].name])]
  {
  }

  lemma FilteredAbsent(fields: seq<Field>, m: map<string, int>, n: nat)
    requires 0 < n <= |fields| && fields[n - 1].name !in m
    ensures Filtered(fields, m, n) == Filtered(fields, m, n - 1)
  {
  }

  /** The bytes written for the first `i` fields begin the bytes written for the first `n`. */
  lemma {:induction false} EncodeUpToPrefix(fields: seq<Field>, e: Endian, m: map<string, int>, i: nat, n: nat)
    requires i <= n <= |fields| && AllFit(fields, m)
    ensures |EncodeUpTo(fields, e, m, i)| <= |EncodeUpTo(fields, e, m, n)|
    ensures EncodeUpTo(fields, e, m, n)[..|EncodeUpTo(fields, e, m, i)|] == EncodeUpTo(fields, e, m, i)
  {
    if i < n {
      EncodeUpToPrefix(fields, e, m, i, n - 1);
      var a := EncodeUpTo(fields, e, m, n - 1);
      var f := fields[n - 1];
      if f.name in m {
        EncodeUpToPresent(fields, e, m, n);
        assert (a + Write(TypeOf(f), e, m[f.name]))[..|a|] == a;
      } else {
        EncodeUpToAbsent(fields, e, m, n);
      }
    }
  }

  lemma SliceSplit<T>(s: seq<T>, off: nat, w: nat)
    requires off + w <= |s|
    ensures s[..off + w] == s[..off] + s[off..off + w]
  {
  }

  /** What the first `i` fields select is a prefix of what the first `n` select. */
  lemma {:induction false} SelectedPrefix(fields: seq<Field>, mask: nat, i: nat, n: nat)
    requires i <= n <= |fields|
    ensures |Selected(fields, mask, i)| <= |Selected(fields, mask, n)|
    ensures Selected(fields, mask, n)[..|Selected(fields, mask, i)|] == Selected(fields, mask, i)
  {
    if i < n {
      SelectedPrefix(fields, mask, i, n - 1);
    }
  }

  /** A field whose bit is set sits in the selection after the fields selected before it. */
  lemma SelectedIndex(fields: seq<Field>, mask: nat, i: nat)
    requires i < |fields| && MaskBit(mask, i)
    ensures var k := |Selected(fields, mask, i)|;
            var sel := Selected(fields, mask, |fields|);
            && k < |sel| && sel[k] == fields[i] && sel[..k] == Selected(fields, mask, i)
  {
    var k := |Selected(fields, mask, i)|;
    var sel := Selected(fields, mask, |fields|);
    SelectedPrefix(fields, mask, i + 1, |fields|);
    SelectedSet(fields, mask, i + 1);
    PrefixLast(sel, Selected(fields, mask, i), fields[i]);
  }

  /** Splitting off the last element of a sequence's prefix. */
  lemma PrefixLast<T>(a: seq<T>, b: seq<T>, x: T)
    requires |b| < |a| && a[..|b| + 1] == b + [x]
    ensures a[|b|] == x && a[..|b|] == b
  {
    assert a[|b|] == a[..|b| + 1][|b|];
    assert a[..|b|] == a[..|b| + 1][..|b|];
  }

  /** The mask selects fields in schema order, each once. */
  lemma {:induction false} SelectedInOrder(fields: Schema, mask: nat, n: nat)
    requires n <= |fields|
    ensures OrderedBelow(fields, Names(Selected(fields, mask, n)), n)
  {
    if n > 0 {
      SelectedInOrder(fields, mask, n - 1);
      var prev := Names(Selected(fields, mask, n - 1));
      var cur := Names(Selected(fields, mask, n));
      if MaskBit(mask, n - 1) {
        assert Selected(fields, mask, n) == Selected(fields, mask, n - 1) + [fields[n - 1]];
        assert cur == prev + [fields[n - 1].name];
        IndexOfName(fields, n - 1);
        AppendInOrder(fields, prev, fields[n - 1].name, n - 1);
      } else {
        assert Selected(fields, mask, n) == Selected(fields, mask, n - 1);
        OrderedBelowWeaken(fields, prev, n - 1, n);
      }
    }
  }

  /** A field among the first `n` is selected exactly when its bit is set. */
  lemma {:induction false} SelectedMembership(fields: Schema, mask: nat, n: nat, i: nat)
    requires i < n <= |fields|
    ensures fields[i].name in Names(Selected(fields, mask, n)) <==> MaskBit(mask, i)
  {
    var prev := Names(Selected(fields, mask, n - 1));
    var cur := Names(Selected(fields, mask, n));
    SelectedInOrder(fields, mask, n - 1);
    IndexOfName(fields, i);
    if MaskBit(mask, n - 1) {
      assert Selected(fields, mask, n) == Selected(fields, mask, n - 1) + [fields[n - 1]];
      assert cur == prev + [fields[n - 1].name];
    } else {
      assert Selected(fields, mask, n) == Selected(fields, mask, n - 1);
    }
    if i < n - 1 {
      SelectedMembership(fields, mask, n - 1, i);
    } else {
      assert fields[i].name !in prev;
    }
  }

  /**
   * The mask selects exactly the fields whose bit is set, each once, in
   * schema order.
   */
  lemma SelectedSpec(fields: Schema, mask: nat)
    ensures InSchemaOrder(fields, Names(Selected(fields, mask, |fields|)))
    ensures forall i :: 0 <= i < |fields| ==> (fields[i].name in Names(Selected(fields, mask, |fields|)) <==> MaskBit(mask, i))
  {
    SelectedInOrder(fields, mask, |fields|);
    forall i | 0 <= i < |fields|
      ensures fields[i].name in Names(Selected(fields, mask, |fields|)) <==> MaskBit(mask, i)
    {
      SelectedMembership(fields, mask, |fields|, i);
    }
  }

  /** With no bit set among the first `n`, nothing is selected. */
  lemma NothingSelected(fields: seq<Field>, mask: nat, n: nat)
    requires n <= |fields|
    requires forall i :: 0 <= i < n ==> !MaskBit(mask, i)
    ensures Selected(fields, mask, n) == []
  {
    SelectedStaysUnset(fields, mask, 0, n);
  }

  /** Fields whose bits are clear are not selected. */
  lemma {:induction false} SelectedStaysUnset(fields: seq<Field>, mask: nat, i: nat, n: nat)
    requires i <= n <= |fields|
    requires forall j :: i <= j < n ==> !MaskBit(mask, j)
    ensures Selected(fields, mask, n) == Selected(fields, mask, i)
    decreases n
  {
    if i < n {
      SelectedStaysUnset(fields, mask, i, n - 1);
    }
  }

  /** Masks that agree on the schema's bits select the same fields. */
  lemma {:induction false} SelectedAgree(fields: seq<Field>, m1: nat, m2: nat, n: nat)
    requires n <= |fields|
    requires forall i :: 0 <= i < n ==> MaskBit(m1, i) == MaskBit(m2, i)
    ensures Selected(fields, m1, n) == Selected(fields, m2, n)
  {
    if n > 0 {
      SelectedAgree(fields, m1, m2, n - 1);
    }
  }

  // ---------------------------------------------------------------------
  // Decode

  /**
   * The decode loop succeeds exactly when the buffer holds the widths of all
   * selected fields; its offset is then their width sum, and it has read one
   * entry per selected field.
   */
  lemma {:induction false} DecodeUpToOffset(fields: seq<Field>, mask: nat, e: Endian, buf: seq<byte>, n: nat)
    requires n <= |fields|
    ensures DecodeUpTo(fields, mask, e, buf, n).Ok? <==> SumWidths(Selected(fields, mask, n)) <= |buf|
    ensures DecodeUpTo(fields, mask, e, buf, n).Ok? ==>
      && DecodeUpTo(fields, mask, e, buf, n).value.offset == SumWidths(Selected(fields, mask, n))
      && |DecodeUpTo(fields, mask, e, buf, n).value.entries| == |Selected(fields, mask, n)|
    ensures DecodeUpTo(fields, mask, e, buf, n).Err? ==>
      var err := DecodeUpTo(fields, mask, e, buf, n).error;
      err.OutOfRange? && err.offset <= |buf| < err.offset + err.width
  {
    if n > 0 {
      DecodeUpToOffset(fields, mask, e, buf, n - 1);
      if DecodeUpTo(fields, mask, e, buf, n - 1).Err? {
        DecodeStepErr(fields, mask, e, buf, n);
        SelectedGrows(fields, mask, n);
      } else if MaskBit(mask, n - 1) {
        DecodeStepSet(fields, mask, e, buf, n);
        SelectedSet(fields, mask, n);
      } else {
        DecodeStepUnset(fields, mask, e, buf, n);
        SelectedUnset(fields, mask, n);
      }
    }
  }

  /** Once the decode loop fails, it stays failed with the same error. */
  lemma DecodeStepErr(fields: seq<Field>, mask: nat, e: Endian, buf: seq<byte>, n: nat)
    requires 0 < n <= |fields| && DecodeUpTo(fields, mask, e, buf, n - 1).Err?
    ensures DecodeUpTo(fields, mask, e, buf, n) == DecodeUpTo(fields, mask, e, buf, n - 1)
  {
  }

  /** A field whose bit is clear is skipped by the decode loop. */
  lemma DecodeStepUnset(fields: seq<Field>, mask: nat, e: Endian, buf: seq<byte>, n: nat)
    requires 0 < n <= |fields| && !MaskBit(mask, n - 1)
    ensures DecodeUpTo(fields, mask, e, buf, n) == DecodeUpTo(fields, mask, e, buf, n - 1)
  {
  }

  /** A field whose bit is set is read if it fits, and is an out-of-range error otherwise. */
  lemma DecodeStepSet(fields: seq<Field>, mask: nat, e: Endian, buf: seq<byte>, n: nat)
    requires 0 < n <= |fields| && MaskBit(mask, n - 1) && DecodeUpTo(fields, mask, e, buf, n - 1).Ok?
    ensures var p := DecodeUpTo(fields, mask, e, buf, n - 1).value;
            var f := fields[n - 1];
            var w := FieldWidth(f);
            && (DecodeUpTo(fields, mask, e, buf, n).Ok? <==> p.offset + w <= |buf|)
            && (DecodeUpTo(fields, mask, e, buf, n).Err? ==> DecodeUpTo(fields, mask, e, buf, n).error == OutOfRange(p.offset, w))
            && (DecodeUpTo(fields, mask, e, buf, n).Ok? ==>
                  DecodeUpTo(fields, mask, e, buf, n).value
                  == Progress(p.entries + [Entry(f.name, Read(TypeOf(f), e, buf, p.offset))], p.offset + w))
  {
  }

  /** A failed decode loop stays failed with the same error to the end of the schema. */
  lemma {:induction false} DecodeErrSticks(fields: seq<Field>, mask: nat, e: Endian, buf: seq<byte>, i: nat, n: nat)
    requires i <= n <= |fields| && DecodeUpTo(fields, mask, e, buf, i).Err?
    ensures DecodeUpTo(fields, mask, e, buf, n) == DecodeUpTo(fields, mask, e, buf, i)
  {
    if i < n {
      DecodeErrSticks(fields, mask, e, buf, i, n - 1);
      DecodeStepErr(fields, mask, e, buf, n);
    }
  }

  /** A field whose bit is clear leaves the selection unchanged. */
  lemma SelectedUnset(fields: seq<Field>, mask: nat, n: nat)
    requires 0 < n <= |fields| && !MaskBit(mask, n - 1)
    ensures Selected(fields, mask, n) == Selected(fields, mask, n - 1)
  {
  }

  lemma SelectedGrows(fields: seq<Field>, mask: nat, n: nat)
    requires 0 < n <= |fields|
    ensures SumWidths(Selected(fields, mask, n - 1)) <= SumWidths(Selected(fields, mask, n))
  {
    if MaskBit(mask, n - 1) {
      SelectedSet(fields, mask, n);
    } else {
      SelectedUnset(fields, mask, n);
    }
  }

  /** The entries read for the fields `sel`, laid out back to back from offset 0. */
  function ReadAll(e: Endian, buf: seq<byte>, sel: seq<Field>): (es: seq<Entry>)
    requires SumWidths(sel) <= |buf|
    ensures |es| == |sel|
  {
    if sel == [] then []
    else
      var init := sel[..|sel| - 1];
      var f := sel[|sel| - 1];
      var off := SumWidths(init);
      ReadAll(e, buf, init) + [Entry(f.name, Read(TypeOf(f), e, buf, off))]
  }

  /**
   * Entry `k` of `ReadAll` is field `sel[k]` read at the sum of the widths of
   * the fields before it.
   */
  lemma {:induction false} ReadAllIndex(e: Endian, buf: seq<byte>, sel: seq<Field>, k: nat)
    requires SumWidths(sel) <= |buf| && k < |sel|
    ensures var off := SumWidths(sel[..k]);
            var w := FieldWidth(sel[k]);
            && off + w <= |buf|
            && ReadAll(e, buf, sel)[k] == Entry(sel[k].name, Read(TypeOf(sel[k]), e, buf, off))
  {
    var init := sel[..|sel| - 1];
    if k < |init| {
      ReadAllIndex(e, buf, init, k);
      assert init[..k] == sel[..k] && init[k] == sel[k];
    } else {
      assert sel[..k] == init;
    }
  }

  /** The decode loop reads the selected fields back to back. */
  lemma {:induction false} DecodeUpToReads(fields: seq<Field>, mask: nat, e: Endian, buf: seq<byte>, n: nat)
    requires n <= |fields|
    requires DecodeUpTo(fields, mask, e, buf, n).Ok?
    ensures SumWidths(Selected(fields, mask, n)) <= |buf|
    ensures DecodeUpTo(fields, mask, e, buf, n).value.entries == ReadAll(e, buf, Selected(fields, mask, n))
  {
    DecodeUpToOffset(fields, mask, e, buf, n);
    if n > 0 {
      DecodeUpToOffset(fields, mask, e, buf, n - 1);
      var prev := Selected(fields, mask, n - 1);
      if MaskBit(mask, n - 1) {
        DecodeStepSet(fields, mask, e, buf, n);
        DecodeUpToReads(fields, mask, e, buf, n - 1);
        SelectedSet(fields, mask, n);
        assert (prev + [fields[n - 1]])[..|prev|] == prev;
      } else {
        assert Selected(fields, mask, n) == prev;
        DecodeUpToReads(fields, mask, e, buf, n - 1);
      }
    }
  }

  /** Decoded entries are keyed by the selected field names, in schema order. */
  lemma {:induction false} DecodeUpToKeys(fields: seq<Field>, mask: nat, e: Endian, buf: seq<byte>, n: nat)
    requires n <= |fields|
    requires DecodeUpTo(fields, mask, e, buf, n).Ok?
    ensures Keys(DecodeUpTo(fields, mask, e, buf, n).value.entries) == Names(Selected(fields, mask, n))
  {
    if n > 0 {
      DecodeUpToKeys(fields, mask, e, buf, n - 1);
      var es := DecodeUpTo(fields, mask, e, buf, n - 1).value.entries;
      var es' := DecodeUpTo(fields, mask, e, buf, n).value.entries;
      var prev := Selected(fields, mask, n - 1);
      if MaskBit(mask, n - 1) {
        assert Selected(fields, mask, n) == prev + [fields[n - 1]];
        assert es' == es + [es'[|es|]] && es'[|es|].key == fields[n - 1].name;
        assert Keys(es') == Keys(es) + [fields[n - 1].name];
        assert Names(prev + [fields[n - 1]]) == Names(prev) + [fields[n - 1].name];
      } else {
        assert Selected(fields, mask, n) == prev;
      }
    }
  }

  /** A zero mask decodes to no entries, whatever the buffer. */
  lemma DecodeZeroMask(fields: seq<Field>, e: Endian, buf: seq<byte>)
    ensures Decode(fields, 0, e, buf) == Ok([])
    ensures Consumed(fields, 0) == 0
  {
    forall i | 0 <= i < |fields| ensures !MaskBit(0, i) {
      ZeroMaskSelectsNothing(i);
    }
    NothingSelected(fields, 0, |fields|);
  }

  /**
   * Decode fails exactly when the buffer is shorter than the selected fields'
   * widths; otherwise its keys are exactly the fields whose bit is set, in
   * schema order, and it consumes the sum of their widths.
   */
  lemma DecodeSpec(fields: Schema, mask: nat, e: Endian, buf: seq<byte>)
    ensures Decode(fields, mask, e, buf).Ok? <==> Consumed(fields, mask) <= |buf|
    ensures Decode(fields, mask, e, buf).Ok? ==>
      var keys := Keys(Decode(fields, mask, e, buf).value);
      && InSchemaOrder(fields, keys)
      && forall i :: 0 <= i < |fields| ==> (fields[i].name in keys <==> MaskBit(mask, i))
  {
    SelectedSpec(fields, mask);
    if mask == 0 {
      DecodeZeroMask(fields, e, buf);
      forall i | 0 <= i < |fields| ensures !MaskBit(mask, i) {
        ZeroMaskSelectsNothing(i);
      }
    } else {
      DecodeUpToOffset(fields, mask, e, buf, |fields|);
      if Decode(fields, mask, e, buf).Ok? {
        DecodeUpToKeys(fields, mask, e, buf, |fields|);
      }
    }
  }

  /** Mask bits at positions the schema does not have change nothing. */
  lemma DecodeIgnoresOtherBits(fields: seq<Field>, m1: nat, m2: nat, e: Endian, buf: seq<byte>)
    requires forall i :: 0 <= i < |fields| ==> MaskBit(m1, i) == MaskBit(m2, i)
    ensures Decode(fields, m1, e, buf) == Decode(fields, m2, e, buf)
  {
    DecodeUpToAgree(fields, m1, m2, e, buf, |fields|);
    if m1 == 0 || m2 == 0 {
      forall i | 0 <= i < |fields| ensures !MaskBit(m1, i) && !MaskBit(m2, i) {
        ZeroMaskSelectsNothing(i);
      }
      DecodeNoBits(fields, m1, e, buf, |fields|);
    }
  }

  lemma {:induction false} DecodeUpToAgree(fields: seq<Field>, m1: nat, m2: nat, e: Endian, buf: seq<byte>, n: nat)
    requires n <= |fields|
    requires forall i :: 0 <= i < n ==> MaskBit(m1, i) == MaskBit(m2, i)
    ensures DecodeUpTo(fields, m1, e, buf, n) == DecodeUpTo(fields, m2, e, buf, n)
  {
    if n > 0 {
      DecodeUpToAgree(fields, m1, m2, e, buf, n - 1);
    }
  }

  lemma DecodeNoBits(fields: seq<Field>, mask: nat, e: Endian, buf: seq<byte>, n: nat)
    requires n <= |fields|
    requires forall i :: 0 <= i < n ==> !MaskBit(mask, i)
    ensures DecodeUpTo(fields, mask, e, buf, n) == Ok(Progress([], 0))
  {
    DecodeStaysUnset(fields, mask, e, buf, 0, n);
  }

  /** Fields whose bits are clear leave the decode progress as it was. */
  lemma {:induction false} DecodeStaysUnset(fields: seq<Field>, mask: nat, e: Endian, buf: seq<byte>, i: nat, n: nat)
    requires i <= n <= |fields|
    requires forall j :: i <= j < n ==> !MaskBit(mask, j)
    ensures DecodeUpTo(fields, mask, e, buf, n) == DecodeUpTo(fields, mask, e, buf, i)
    decreases n
  {
    if i < n {
      DecodeStaysUnset(fields, mask, e, buf, i, n - 1);
    }
  }

  /** Fields the map lacks add no bytes. */
  lemma {:induction false} EncodeStaysAbsent(fields: seq<Field>, e: Endian, m: map<string, int>, i: nat, n: nat)
    requires i <= n <= |fields| && AllFit(fields, m)
    requires forall j :: i <= j < n ==> fields[j].name !in m
    ensures EncodeUpTo(fields, e, m, n) == EncodeUpTo(fields, e, m, i)
    decreases n
  {
    if i < n {
      EncodeStaysAbsent(fields, e, m, i, n - 1);
    }
  }

  /** The mask selects only schema fields. */
  lemma {:induction false} SelectedSubset(fields: seq<Field>, mask: nat, n: nat)
    requires n <= |fields|
    ensures forall f :: f in Selected(fields, mask, n) ==> f in fields[..n]
  {
    if n > 0 {
      SelectedSubset(fields, mask, n - 1);
      assert fields[..n] == fields[..n - 1] + [fields[n - 1]];
    }
  }

  /** For a schema of 4-byte fields, decode consumes 4 bytes per set bit. */
  lemma {:induction false} UniformWidthSum(fs: seq<Field>)
    requires forall f :: f in fs ==> FieldWidth(f) == 4
    ensures SumWidths(fs) == 4 * |fs|
  {
    if fs != [] {
      UniformWidthSum(fs[..|fs| - 1]);
    }
  }
}
