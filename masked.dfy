/**
 * The `MaskedField` record: a schema, shared by every record of a type, and
 * an insertion-ordered map from field names to integers that the record's
 * methods fill and read. Each loop is proved against the function in `Codec`
 * that describes it.
 */
module Masked {
  import opened Wrappers
  import opened Wire
  import opened Mask
  import opened Schema
  import opened Entries
  import opened Codec
  import opened RoundTrip

  /** `s` with the bytes `b` written over it from index `at`. */
  function Splice(s: seq<byte>, at: nat, b: seq<byte>): (r: seq<byte>)
    requires at + |b| <= |s|
    ensures |r| == |s|
  {
    s[..at] + b + s[at + |b|..]
  }

  /** The written bytes read back where they were put, and nothing else changes. */
  lemma SpliceContents(s: seq<byte>, at: nat, b: seq<byte>)
    requires at + |b| <= |s|
    ensures Splice(s, at, b)[at..at + |b|] == b
    ensures forall x :: 0 <= x < |s| && !(at <= x < at + |b|) ==> Splice(s, at, b)[x] == s[x]
  {
    var r := Splice(s, at, b);
    assert r[at..at + |b|] == (s[..at] + b + s[at + |b|..])[at..at + |b|];
  }

  /** Writing `a` and then `b` right after it writes `a + b`. */
  lemma SpliceAppend(s: seq<byte>, at: nat, a: seq<byte>, b: seq<byte>)
    requires at + |a| + |b| <= |s|
    ensures Splice(Splice(s, at, a), at + |a|, b) == Splice(s, at, a + b)
  {
    var r := Splice(Splice(s, at, a), at + |a|, b);
    var r' := Splice(s, at, a + b);
    forall x | 0 <= x < |s| ensures r[x] == r'[x] {
      if x < at {
      } else if x < at + |a| {
        assert r'[x] == (a + b)[x - at];
      } else if x < at + |a| + |b| {
        assert r'[x] == (a + b)[x - at];
      }
    }
  }

  lemma SpliceExtend(s: seq<byte>, at: nat, b: seq<byte>, j: nat)
    requires at + |b| <= |s| && j < |b|
    ensures Splice(s, at, b[..j])[at + j := b[j]] == Splice(s, at, b[..j + 1])
  {
    var r := Splice(s, at, b[..j])[at + j := b[j]];
    var r' := Splice(s, at, b[..j + 1]);
    forall x | 0 <= x < |s| ensures r[x] == r'[x] {
      if at <= x < at + j {
        assert r'[x] == b[..j + 1][x - at];
      }
    }
  }

  /** `write<Type>(value, offset)` on the caller's buffer: `bytes` stored from index `at`. */
  method Store(buffer: array<byte>, at: nat, bytes: seq<byte>)
    requires at + |bytes| <= buffer.Length
    modifies buffer
    ensures buffer[..] == Splice(old(buffer[..]), at, bytes)
  {
    var j := 0;
    assert bytes[..0] == [];
    while j < |bytes|
      invariant j <= |bytes|
      invariant buffer[..] == Splice(old(buffer[..]), at, bytes[..j])
    {
      SpliceExtend(old(buffer[..]), at, bytes, j);
      buffer[at + j] := bytes[j];
      j := j + 1;
    }
    assert bytes[..j] == bytes;
  }

  /**
   * One pass of `writeBuffer` after outcome `r` (bytes written so far from
   * `offset`) and contents `b`: nothing more once a write has failed;
   * otherwise `bytes` are stored at the running offset, or they do not fit
   * and the buffer reports the out-of-range access.
   */
  function WriteNext(r: Result<nat, Error>, b: seq<byte>, offset: nat, bytes: seq<byte>): (res: (Result<nat, Error>, seq<byte>))
    requires r.Ok? ==> offset + r.value <= |b|
    ensures |res.1| == |b|
    ensures res.0.Ok? ==> offset + res.0.value <= |b|
  {
    if r.Err? then (r, b)
    else
      var at := offset + r.value;
      if at + |bytes| > |b| then (Err(OutOfRange(at, |bytes|)), b)
      else (Ok(r.value + |bytes|), Splice(b, at, bytes))
  }

  /**
   * `writeBuffer` over buffer contents `buf` from `offset`, after walking
   * `n` fields: the outcome (bytes written, or the out-of-range error of
   * the first field that does not fit) and the buffer's new contents.
   */
  function WriteUpTo(fields: seq<Field>, e: Endian, m: map<string, int>, buf: seq<byte>, offset: nat, n: nat): (res: (Result<nat, Error>, seq<byte>))
    requires n <= |fields| && AllFit(fields, m) && offset <= |buf|
    ensures |res.1| == |buf|
    ensures res.0.Ok? ==> offset + res.0.value <= |buf|
  {
    if n == 0 then (Ok(0), buf)
    else
      var prev := WriteUpTo(fields, e, m, buf, offset, n - 1);
      WriteNext(prev.0, prev.1, offset, EncodeField(fields[n - 1], e, m))
  }

  /** Once a write does not fit, `writeBuffer` stops: nothing after it is written. */
  lemma {:induction false} WriteErrSticks(fields: seq<Field>, e: Endian, m: map<string, int>, buf: seq<byte>, offset: nat, i: nat, n: nat)
    requires i <= n <= |fields| && AllFit(fields, m) && offset <= |buf|
    requires WriteUpTo(fields, e, m, buf, offset, i).0.Err?
    ensures WriteUpTo(fields, e, m, buf, offset, n) == WriteUpTo(fields, e, m, buf, offset, i)
  {
    if i < n {
      WriteErrSticks(fields, e, m, buf, offset, i, n - 1);
    }
  }

  /**
   * What `writeBuffer` promises for the encoding `bytes` of a record: it
   * succeeds exactly when `bytes` fit after `offset`, and then answers their
   * length and leaves them in the buffer with every other byte unchanged;
   * otherwise the error names an access that runs past the end, and only
   * the bytes before it have been written.
   */
  predicate Wrote(buf: seq<byte>, offset: nat, bytes: seq<byte>, r: Result<nat, Error>, after: seq<byte>) {
    && offset <= |buf|
    && (r.Ok? <==> offset + |bytes| <= |buf|)
    && (r.Ok? ==> r.value == |bytes| && after == Splice(buf, offset, bytes))
    && (r.Err? ==>
          && r.error.OutOfRange?
          && offset <= r.error.offset <= |buf| < r.error.offset + r.error.width
          && r.error.offset - offset <= |bytes|
          && after == Splice(buf, offset, bytes[..r.error.offset - offset]))
  }

  /** One pass of `writeBuffer` keeps its promise for the encoding extended by `field`. */
  lemma WroteStep(buf: seq<byte>, offset: nat, prev: seq<byte>, field: seq<byte>, r: Result<nat, Error>, b: seq<byte>)
    requires Wrote(buf, offset, prev, r, b) && |b| == |buf|
    ensures var next := WriteNext(r, b, offset, field);
      Wrote(buf, offset, prev + field, next.0, next.1)
  {
    if r.Err? {
      assert (prev + field)[..r.error.offset - offset] == prev[..r.error.offset - offset];
    } else if offset + r.value + |field| > |b| {
      assert (prev + field)[..|prev|] == prev;
    } else {
      SpliceAppend(buf, offset, prev, field);
    }
  }

  /** `writeBuffer` keeps its promise for the encoding of the fields it has walked. */
  lemma {:induction false} WriteUpToSpec(fields: seq<Field>, e: Endian, m: map<string, int>, buf: seq<byte>, offset: nat, n: nat)
    requires n <= |fields| && AllFit(fields, m) && offset <= |buf|
    ensures var res := WriteUpTo(fields, e, m, buf, offset, n);
      Wrote(buf, offset, EncodeUpTo(fields, e, m, n), res.0, res.1)
  {
    if n > 0 {
      WriteUpToSpec(fields, e, m, buf, offset, n - 1);
      var prev := WriteUpTo(fields, e, m, buf, offset, n - 1);
      WroteStep(buf, offset, EncodeUpTo(fields, e, m, n - 1), EncodeField(fields[n - 1], e, m), prev.0, prev.1);
    }
  }

  /** The name of field `i` is not among keys that only name fields before it. */
  lemma NotBelow(fields: Schema, keys: seq<string>, i: nat)
    requires i < |fields| && OrderedBelow(fields, keys, i)
    ensures fields[i].name !in keys
  {
    IndexOfName(fields, i);
    forall k | 0 <= k < |keys| ensures keys[k] != fields[i].name {
      assert IndexOf(fields, keys[k]) < i;
    }
  }

  /** The decode loop never meets a field it has already stored. */
  lemma DecodedKeyIsNew(fields: Schema, mask: nat, e: Endian, buf: seq<byte>, i: nat)
    requires i < |fields| && DecodeUpTo(fields, mask, e, buf, i).Ok?
    ensures fields[i].name !in Keys(DecodeUpTo(fields, mask, e, buf, i).value.entries)
  {
    DecodeUpToKeys(fields, mask, e, buf, i);
    SelectedInOrder(fields, mask, i);
    NotBelow(fields, Names(Selected(fields, mask, i)), i);
  }

  /** A step of the decode loop reads the same bytes wherever the value list starts. */
  lemma DecodeStepShift(f: Field, e: Endian, data: seq<byte>, start: nat, es: seq<Entry>, offset: nat)
    requires start + offset + FieldWidth(f) <= |data|
    ensures DecodeStep(f, true, e, data[start..], Progress(es, offset))
            == Ok(Progress(es + [Entry(f.name, Read(TypeOf(f), e, data, start + offset))], offset + FieldWidth(f)))
  {
    ReadShift(TypeOf(f), e, data, start, offset);
  }

  /** A zero mask decodes to nothing wherever the value list starts. */
  lemma DecodeFromZero(fields: seq<Field>, e: Endian, data: seq<byte>, start: nat)
    requires start <= |data|
    ensures DecodeFrom(fields, 0, e, data, start) == Ok([])
  {
    DecodeZeroMask(fields, e, data[start..]);
  }

  /** `fromMap` never meets a field it has already stored. */
  lemma FilteredKeyIsNew(fields: Schema, m: map<string, int>, i: nat)
    requires i < |fields|
    ensures fields[i].name !in Keys(Filtered(fields, m, i))
  {
    FilteredKeys(fields, m, i);
    NotBelow(fields, Keys(Filtered(fields, m, i)), i);
  }

  /** One pass of the `fromMap` loop: `set` of field `i` when `m` has it. */
  lemma FilteredStep(fields: Schema, m: map<string, int>, i: nat)
    requires i < |fields|
    ensures var k := fields[i].name;
      Filtered(fields, m, i + 1) == if k in m then Put(Filtered(fields, m, i), k, m[k]) else Filtered(fields, m, i)
  {
    var k := fields[i].name;
    if k in m {
      FilteredKeyIsNew(fields, m, i);
      PutNew(Filtered(fields, m, i), k, m[k]);
      FilteredPresent(fields, m, i + 1);
    } else {
      FilteredAbsent(fields, m, i + 1);
    }
  }

  /** `getFieldNames` as written: `i` stays 0, so every name or none is returned. */
  function NamesAsWritten(fields: seq<Field>, mask: nat): (names: seq<string>)
    ensures names == [] || names == Names(fields)
    ensures names != [] <==> MaskBit(mask, 0) && fields != []
  {
    if MaskBit(mask, 0) then Names(fields) else []
  }

  lemma NamesSnoc(fields: seq<Field>, j: nat)
    requires j < |fields|
    ensures Names(fields[..j + 1]) == Names(fields[..j]) + [fields[j].name]
  {
  }

  class MaskedField {
    /** The record type's schema, `this.constructor.fields`. */
    const fields: Schema
    /** `_map`: the record's present fields and their values. */
    const values: EntryMap

    /** The map never holds a key twice. */
    ghost predicate Valid()
      reads this, values
    {
      UniqueKeys(values.entries)
    }

    /** `new this(0)`: a record with no fields present. */
    constructor Empty(fields: Schema)
      ensures this.fields == fields && fresh(values) && values.entries == []
      ensures Valid()
    {
      this.fields := fields;
      values := new EntryMap();
    }

    /**
     * `new this(vmask, vdata)`: walk the schema, reading one value for each
     * set bit at a running offset that starts at `start` (the source always
     * starts at 0) and advances by the field's width; a read past the end of
     * the buffer is the buffer's out-of-range error.
     */
    static method Decode(fields: Schema, vmask: nat, e: Endian, vdata: array<byte>, start: nat) returns (r: Result<MaskedField, Error>)
      requires start <= vdata.Length
      ensures r.Ok? <==> DecodeFrom(fields, vmask, e, vdata[..], start).Ok?
      ensures r.Ok? ==>
        && fresh(r.value) && fresh(r.value.values) && r.value.fields == fields
        && r.value.values.entries == DecodeFrom(fields, vmask, e, vdata[..], start).value
        && r.value.Valid()
      ensures r.Err? ==> r.error == DecodeFrom(fields, vmask, e, vdata[..], start).error
    {
      var rec := new MaskedField.Empty(fields);
      var data := vdata[..];
      if vmask == 0 {
        DecodeFromZero(fields, e, data, start);
        return Ok(rec);
      }
      var read := rec.ReadFields(vmask, e, data, start);
      if read.Err? {
        return Err(read.error);
      }
      return Ok(rec);
    }

    /**
     * The constructor's loop: for each set bit, in schema order, read the
     * field's value at the running offset into the map.
     */
    method ReadFields(vmask: nat, e: Endian, data: seq<byte>, start: nat) returns (r: Result<nat, Error>)
      requires start <= |data| && values.entries == []
      modifies values
      ensures var d := DecodeUpTo(fields, vmask, e, data[start..], |fields|);
        && (r.Ok? <==> d.Ok?)
        && (r.Ok? ==> values.entries == d.value.entries && r.value == d.value.offset && Valid())
        && (r.Err? ==> r.error == Shift(d.error, start))
    {
      var i := 0;
      var offset := 0;
      while i < |fields|
        invariant i <= |fields|
        invariant DecodeUpTo(fields, vmask, e, data[start..], i) == Ok(Progress(values.entries, offset))
        invariant Valid()
      {
        DecodedKeyIsNew(fields, vmask, e, data[start..], i);
        var step := ReadField(MaskBit(vmask, i), i, e, data, start, offset);
        if step.Err? {
          DecodeErrSticks(fields, vmask, e, data[start..], i + 1, |fields|);
          return step;
        }
        offset := step.value;
        i := i + 1;
      }
      return Ok(offset);
    }

    /**
     * One pass of the constructor's loop over field `i`, whose mask bit is
     * `present`, at the running `offset`: answers the next offset, or the error
     * that ends the decode.
     */
    method ReadField(present: bool, i: nat, e: Endian, data: seq<byte>, start: nat, offset: nat) returns (r: Result<nat, Error>)
      requires i < |fields| && start <= |data|
      requires fields[i].name !in Keys(values.entries) && Valid()
      modifies values
      ensures var d := DecodeStep(fields[i], present, e, data[start..], Progress(old(values.entries), offset));
        && (r.Ok? <==> d.Ok?)
        && (r.Ok? ==> d.value == Progress(values.entries, r.value) && Valid())
        && (r.Err? ==> r.error == Shift(d.error, start))
    {
      if !present {
        return Ok(offset);
      }
      var t := TypeOf(fields[i]);
      var w := Width(t);
      if start + offset + w > |data| {
        return Err(OutOfRange(start + offset, w));
      }
      var v := Read(t, e, data, start + offset);
      DecodeStepShift(fields[i], e, data, start, values.entries, offset);
      PutNew(values.entries, fields[i].name, v);
      var _ := Set(fields[i].name, v);
      return Ok(offset + w);
    }

    /** `get(key)`. */
    function Get(key: string): (r: Option<int>)
      reads this, values
      ensures r.Some? <==> key in Keys(values.entries)
    {
      values.Get(key)
    }

    /**
     * `set(key, value)`: `get(key)` is now `value`, and no other key changes.
     * It answers what `this._map.set` answers: the record's own map.
     */
    method Set(key: string, value: int) returns (r: EntryMap)
      modifies values
      ensures r == values
      ensures values.entries == Put(old(values.entries), key, value)
      ensures Get(key) == Some(value)
      ensures forall k :: k != key ==> Get(k) == old(Get(k))
      ensures old(Valid()) ==> Valid()
    {
      r := values.Set(key, value);
    }

    /**
     * `writeBuffer(buffer, offset)`, walking the schema in order and writing
     * each field the record holds at a running offset advanced by the
     * field's width; it answers the number of bytes written. A write past
     * the end of the buffer is the buffer's out-of-range error, after the
     * fields before it have been written.
     */
    method WriteBuffer(buffer: array<byte>, offset: nat, e: Endian) returns (r: Result<nat, Error>)
      requires offset <= buffer.Length
      requires AllFit(fields, AsMap(values.entries))
      modifies buffer
      ensures (r, buffer[..]) == WriteUpTo(fields, e, AsMap(values.entries), old(buffer[..]), offset, |fields|)
    {
      ghost var m := AsMap(values.entries);
      ghost var before := buffer[..];
      var written := 0;
      var i := 0;
      while i < |fields|
        invariant i <= |fields|
        invariant WriteUpTo(fields, e, m, before, offset, i) == (Ok(written), buffer[..])
      {
        r := WriteField(i, buffer, offset, written, e);
        if r.Err? {
          WriteErrSticks(fields, e, m, before, offset, i + 1, |fields|);
          return;
        }
        written := r.value;
        i := i + 1;
      }
      return Ok(written);
    }

    /**
     * One pass of the `writeBuffer` loop over field `i`, `written` bytes
     * after `offset`: if the record holds the field, its value's bytes are
     * written at the running offset.
     */
    method WriteField(i: nat, buffer: array<byte>, offset: nat, written: nat, e: Endian) returns (r: Result<nat, Error>)
      requires i < |fields| && offset + written <= buffer.Length
      requires AllFit(fields, AsMap(values.entries))
      modifies buffer
      ensures (r, buffer[..]) == WriteNext(Ok(written), old(buffer[..]), offset, EncodeField(fields[i], e, AsMap(values.entries)))
    {
      var f := fields[i];
      LookupAsMap(values.entries, f.name);
      var got := Get(f.name);
      if got.None? {
        assert buffer[..] == Splice(buffer[..], offset + written, []);
        return Ok(written);
      }
      var bytes := Write(TypeOf(f), e, got.value);
      var at := offset + written;
      if at + |bytes| > buffer.Length {
        return Err(OutOfRange(at, |bytes|));
      }
      Store(buffer, at, bytes);
      return Ok(written + |bytes|);
    }

    /**
     * `writeBuffer` as written: it iterates `this.map`, a property records do
     * not have, so the loop header throws before anything is written.
     */
    method WriteBufferAsWritten(buffer: array<byte>, offset: nat, e: Endian) returns (r: Result<nat, Error>)
      ensures r == Err(NotIterable)
    {
      return Err(NotIterable);
    }

    /** `toObject()`: a plain object holding the record's entries. */
    method ToObject() returns (o: map<string, int>)
      requires Valid()
      ensures o == AsMap(values.entries)
      ensures forall k :: (k in o <==> Get(k).Some?) && (k in o ==> Get(k) == Some(o[k]))
    {
      var es := values.entries;
      o := map[];
      var j := 0;
      while j < |es|
        invariant j <= |es|
        invariant forall k :: (k in o <==> k in Keys(es[..j])) && (k in o ==> Lookup(es[..j], k) == Some(o[k]))
      {
        assert es[..j + 1] == es[..j] + [es[j]];
        assert es[j].key !in Keys(es[..j]);
        forall k ensures Lookup(es[..j + 1], k)
                         == if k in Keys(es[..j]) then Lookup(es[..j], k) else if es[j].key == k then Some(es[j].value) else None
        {
          LookupAppend(es[..j], es[j], k);
        }
        o := o[es[j].key := es[j].value];
        j := j + 1;
      }
      assert es[..j] == es;
      forall k ensures (k in o <==> k in AsMap(es)) && (k in o ==> o[k] == AsMap(es)[k]) {
        LookupAsMap(es, k);
      }
    }

    /** `toMap()` as written: the record's own map, shared with the caller. */
    method ToMapAsWritten() returns (r: EntryMap)
      ensures r == values
    {
      r := values;
    }

    /** `toMap()` for a value-like record: a fresh map with the same entries. */
    method ToMap() returns (r: EntryMap)
      ensures fresh(r) && r.entries == values.entries
    {
      r := new EntryMap();
      r.entries := values.entries;
    }

    /** `fromMap(map)`: the schema fields `m` has, with `m`'s values, in schema order. */
    static method FromMap(fields: Schema, m: map<string, int>) returns (rec: MaskedField)
      ensures fresh(rec) && fresh(rec.values) && rec.fields == fields
      ensures rec.values.entries == Filtered(fields, m, |fields|)
      ensures rec.Valid()
    {
      rec := new MaskedField.Empty(fields);
      var i := 0;
      while i < |fields|
        invariant i <= |fields|
        invariant fresh(rec) && fresh(rec.values) && rec.fields == fields
        invariant rec.values.entries == Filtered(fields, m, i)
      {
        var k := fields[i].name;
        FilteredStep(fields, m, i);
        if k in m {
          var _ := rec.Set(k, m[k]);
        }
        i := i + 1;
      }
      FilteredKeys(fields, m, |fields|);
      InSchemaOrderUnique(fields, rec.values.entries);
    }

    /**
     * `fromObject(o)`: like `fromMap` over the object's own properties; a
     * missing object (`null` or `undefined`) gives an empty record.
     */
    static method FromObject(fields: Schema, o: Option<map<string, int>>) returns (rec: MaskedField)
      ensures fresh(rec) && fresh(rec.values) && rec.fields == fields
      ensures rec.values.entries == if o.Some? then Filtered(fields, o.value, |fields|) else []
      ensures rec.Valid()
    {
      if o.Some? {
        rec := FromMap(fields, o.value);
      } else {
        rec := new MaskedField.Empty(fields);
      }
    }

    /** `getFieldNames(vmask)`, advancing the bit index with each field. */
    static method FieldNames(fields: Schema, vmask: nat) returns (names: seq<string>)
      ensures names == Names(Selected(fields, vmask, |fields|))
    {
      names := [];
      var i := 0;
      while i < |fields|
        invariant i <= |fields|
        invariant names == Names(Selected(fields, vmask, i))
      {
        if MaskBit(vmask, i) {
          SelectedSet(fields, vmask, i + 1);
          assert Names(Selected(fields, vmask, i) + [fields[i]]) == names + [fields[i].name];
          names := names + [fields[i].name];
        } else {
          SelectedUnset(fields, vmask, i + 1);
        }
        i := i + 1;
      }
    }

    /** `getFieldNames(vmask)` as written: the bit index is never advanced. */
    static method FieldNamesAsWritten(fields: Schema, vmask: nat) returns (names: seq<string>)
      ensures names == NamesAsWritten(fields, vmask)
    {
      names := [];
      var i := 0;
      var j := 0;
      while j < |fields|
        invariant j <= |fields|
        invariant names == if MaskBit(vmask, i) then Names(fields[..j]) else []
      {
        NamesSnoc(fields, j);
        if MaskBit(vmask, i) {
          names := names + [fields[j].name];
        }
        j := j + 1;
      }
      assert fields[..j] == fields;
    }
  }

  /** A caller changing the map `toMap` returned as written changes the record. */
  method ToMapAliasing(rec: MaskedField, key: string, value: int)
    modifies rec.values
    ensures rec.Get(key) == Some(value)
  {
    var shared := rec.ToMapAsWritten();
    var _ := shared.Set(key, value);
  }

  /**
   * `set` answers the record's own map, so a caller changing the map that
   * `set` returned changes the record too.
   */
  method SetAliasing(rec: MaskedField, key: string, value: int, other: string, otherValue: int)
    modifies rec.values
    ensures rec.Get(other) == Some(otherValue)
    ensures other != key ==> rec.Get(key) == Some(value)
  {
    var shared := rec.Set(key, value);
    var _ := shared.Set(other, otherValue);
  }

  /** A caller changing the copy `toMap` returns leaves the record as it was. */
  method ToMapIsolation(rec: MaskedField, key: string, value: int) returns (copy: EntryMap)
    ensures copy.Get(key) == Some(value)
    ensures rec.values.entries == old(rec.values.entries)
  {
    copy := rec.ToMap();
    var _ := copy.Set(key, value);
  }
}
