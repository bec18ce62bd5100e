/**
 * What `writeBuffer` (walking the schema in order) and `fromMap` produce,
 * and how they invert the constructor's decode: encoding a record and
 * decoding with the mask of its present fields gives the record back, and
 * decoding then re-encoding gives the consumed bytes back.
 */
module RoundTrip {
  import opened Wrappers
  import opened Wire
  import opened Mask
  import opened Schema
  import opened Entries
  import opened Codec

  /** Bit `i` of the caller's mask is set exactly when field `i` is present. */
  lemma MaskOfBits(fields: seq<Field>, m: map<string, int>, i: nat)
    requires |fields| <= 32
    ensures MaskBit(MaskOf(fields, m), i) == (i < |fields| && fields[i].name in m)
  {
    MaskBitOfFromBits(seq(|fields|, j requires 0 <= j < |fields| => fields[j].name in m), i);
  }

  /** `fromMap` keeps schema fields only, once each, in schema order. */
  lemma {:induction false} FilteredKeys(fields: Schema, m: map<string, int>, n: nat)
    requires n <= |fields|
    ensures OrderedBelow(fields, Keys(Filtered(fields, m, n)), n)
  {
    if n > 0 {
      FilteredKeys(fields, m, n - 1);
      var prev := Keys(Filtered(fields, m, n - 1));
      var cur := Keys(Filtered(fields, m, n));
      var f := fields[n - 1];
      if f.name in m {
        assert Filtered(fields, m, n) == Filtered(fields, m, n - 1) + [Entry(f.name, m[f.name])];
        assert cur == prev + [f.name];
        IndexOfName(fields, n - 1);
        AppendInOrder(fields, prev, f.name, n - 1);
      } else {
        assert cur == prev;
        OrderedBelowWeaken(fields, prev, n - 1, n);
      }
    }
  }

  /** `fromMap` holds `m`'s value for each schema field `m` has, and nothing else. */
  lemma {:induction false} FilteredLookup(fields: Schema, m: map<string, int>, n: nat, k: string)
    requires n <= |fields|
    ensures Lookup(Filtered(fields, m, n), k) == if k in m && IndexOf(fields, k) < n then Some(m[k]) else None
  {
    if n > 0 {
      FilteredLookup(fields, m, n - 1, k);
      var prev := Filtered(fields, m, n - 1);
      var f := fields[n - 1];
      IndexOfName(fields, n - 1);
      if f.name in m {
        var x := Entry(f.name, m[f.name]);
        assert Filtered(fields, m, n) == prev + [x];
        LookupAppend(prev, x, k);
      } else {
        assert Filtered(fields, m, n) == prev;
      }
    }
  }

  /** `fromMap` then the record's map: `m` without the keys the schema lacks. */
  lemma FromMapKeepsSchemaKeys(fields: Schema, m: map<string, int>)
    ensures AsMap(Filtered(fields, m, |fields|)) == map k | k in m && IndexOf(fields, k) < |fields| :: m[k]
  {
    var r := Filtered(fields, m, |fields|);
    forall k ensures (k in AsMap(r)) == (k in m && IndexOf(fields, k) < |fields|)
      && (k in AsMap(r) ==> AsMap(r)[k] == m[k])
    {
      FilteredLookup(fields, m, |fields|, k);
      LookupAsMap(r, k);
    }
  }

  /**
   * Decoding a buffer that begins with the encoding of the first `n` fields,
   * under the mask of `m`'s keys, reads back exactly those fields.
   */
  lemma {:induction false} DecodeEncodeUpTo(fields: seq<Field>, e: Endian, m: map<string, int>, buf: seq<byte>, n: nat)
    requires |fields| <= 32 && n <= |fields|
    requires AllFit(fields, m)
    requires |EncodeUpTo(fields, e, m, n)| <= |buf|
    requires buf[..|EncodeUpTo(fields, e, m, n)|] == EncodeUpTo(fields, e, m, n)
    ensures DecodeUpTo(fields, MaskOf(fields, m), e, buf, n)
         == Ok(Progress(Filtered(fields, m, n), |EncodeUpTo(fields, e, m, n)|))
  {
    if n > 0 {
      var mask := MaskOf(fields, m);
      var f := fields[n - 1];
      var prev := EncodeUpTo(fields, e, m, n - 1);
      MaskOfBits(fields, m, n - 1);
      if f.name in m {
        var t := TypeOf(f);
        var v := m[f.name];
        EncodeUpToPresent(fields, e, m, n);
        PrefixSplit(buf, prev, Write(t, e, v));
        DecodeEncodeUpTo(fields, e, m, buf, n - 1);
        DecodeStepSet(fields, mask, e, buf, n);
        ReadWrite(t, e, v, buf, |prev|);
        FilteredPresent(fields, m, n);
      } else {
        EncodeUpToAbsent(fields, e, m, n);
        DecodeEncodeUpTo(fields, e, m, buf, n - 1);
        DecodeStepUnset(fields, mask, e, buf, n);
        FilteredAbsent(fields, m, n);
      }
    }
  }

  lemma PrefixSplit<T>(buf: seq<T>, a: seq<T>, b: seq<T>)
    requires |a + b| <= |buf| && buf[..|a + b|] == a + b
    ensures buf[..|a|] == a && buf[|a|..|a| + |b|] == b
  {
    assert buf[..|a|] == buf[..|a + b|][..|a|];
    assert buf[|a|..|a| + |b|] == buf[..|a + b|][|a|..];
  }

  /**
   * Encoding a record and decoding the bytes with the mask of its present
   * fields yields the record's schema fields with their values, in schema
   * order.
   */
  lemma EncodeThenDecode(fields: seq<Field>, e: Endian, m: map<string, int>)
    requires |fields| <= 32
    requires AllFit(fields, m)
    ensures Decode(fields, MaskOf(fields, m), e, Encode(fields, e, m)) == Ok(Filtered(fields, m, |fields|))
  {
    var bytes := Encode(fields, e, m);
    DecodeEncodeUpTo(fields, e, m, bytes, |fields|);
    if MaskOf(fields, m) == 0 {
      forall i | 0 <= i < |fields| ensures !MaskBit(0, i) {
        ZeroMaskSelectsNothing(i);
      }
      DecodeNoBits(fields, 0, e, bytes, |fields|);
    }
  }

  /** The round trip gives back the record's whole map when every key is a schema field. */
  lemma EncodeThenDecodeMap(fields: Schema, e: Endian, m: map<string, int>)
    requires |fields| <= 32
    requires AllFit(fields, m)
    requires forall k :: k in m ==> IndexOf(fields, k) < |fields|
    ensures Decode(fields, MaskOf(fields, m), e, Encode(fields, e, m)).Ok?
    ensures AsMap(Decode(fields, MaskOf(fields, m), e, Encode(fields, e, m)).value) == m
  {
    EncodeThenDecode(fields, e, m);
    FromMapKeepsSchemaKeys(fields, m);
  }

  /** What a decoded record's map says about field `i`. */
  predicate HoldsReadValue(fields: seq<Field>, mask: nat, e: Endian, buf: seq<byte>, m: map<string, int>, i: nat)
    requires i < |fields|
  {
    && (fields[i].name in m <==> MaskBit(mask, i))
    && (MaskBit(mask, i) ==>
          var off := SumWidths(Selected(fields, mask, i));
          var w := FieldWidth(fields[i]);
          off + w <= |buf| && m[fields[i].name] == Read(TypeOf(fields[i]), e, buf, off))
  }

  lemma {:induction false} EncodeUpToDecoded(fields: seq<Field>, mask: nat, e: Endian, buf: seq<byte>, m: map<string, int>, n: nat)
    requires n <= |fields|
    requires AllFit(fields, m)
    requires forall i :: 0 <= i < |fields| ==> HoldsReadValue(fields, mask, e, buf, m, i)
    requires SumWidths(Selected(fields, mask, n)) <= |buf|
    ensures EncodeUpTo(fields, e, m, n) == buf[..SumWidths(Selected(fields, mask, n))]
  {
    if n > 0 {
      SelectedGrows(fields, mask, n);
      EncodeUpToDecoded(fields, mask, e, buf, m, n - 1);
      EncodeStep(fields, mask, e, buf, m, n);
    }
  }

  lemma EncodeStep(fields: seq<Field>, mask: nat, e: Endian, buf: seq<byte>, m: map<string, int>, n: nat)
    requires 0 < n <= |fields|
    requires AllFit(fields, m)
    requires HoldsReadValue(fields, mask, e, buf, m, n - 1)
    requires SumWidths(Selected(fields, mask, n)) <= |buf|
    requires SumWidths(Selected(fields, mask, n - 1)) <= |buf|
    requires EncodeUpTo(fields, e, m, n - 1) == buf[..SumWidths(Selected(fields, mask, n - 1))]
    ensures EncodeUpTo(fields, e, m, n) == buf[..SumWidths(Selected(fields, mask, n))]
  {
    if MaskBit(mask, n - 1) {
      EncodeStepPresent(fields, mask, e, buf, m, n);
    } else {
      assert Selected(fields, mask, n) == Selected(fields, mask, n - 1);
      assert EncodeUpTo(fields, e, m, n) == EncodeUpTo(fields, e, m, n - 1);
    }
  }

  lemma EncodeStepPresent(fields: seq<Field>, mask: nat, e: Endian, buf: seq<byte>, m: map<string, int>, n: nat)
    requires 0 < n <= |fields|
    requires AllFit(fields, m)
    requires MaskBit(mask, n - 1)
    requires HoldsReadValue(fields, mask, e, buf, m, n - 1)
    requires SumWidths(Selected(fields, mask, n - 1)) <= |buf|
    requires EncodeUpTo(fields, e, m, n - 1) == buf[..SumWidths(Selected(fields, mask, n - 1))]
    ensures SumWidths(Selected(fields, mask, n)) <= |buf|
    ensures EncodeUpTo(fields, e, m, n) == buf[..SumWidths(Selected(fields, mask, n))]
  {
    var f := fields[n - 1];
    var off := SumWidths(Selected(fields, mask, n - 1));
    var t := TypeOf(f);
    ReadValueAt(fields, mask, e, buf, m, n - 1);
    SelectedSet(fields, mask, n);
    EncodeUpToPresent(fields, e, m, n);
    WriteRead(t, e, buf, off);
    SliceSplit(buf, off, Width(t));
  }

  lemma ReadValueAt(fields: seq<Field>, mask: nat, e: Endian, buf: seq<byte>, m: map<string, int>, i: nat)
    requires i < |fields| && MaskBit(mask, i)
    requires HoldsReadValue(fields, mask, e, buf, m, i)
    ensures var off := SumWidths(Selected(fields, mask, i));
            var t := TypeOf(fields[i]);
            && off + Width(t) <= |buf|
            && fields[i].name in m
            && m[fields[i].name] == Read(t, e, buf, off)
  {
  }

  /** The entry a decode holds for a field whose bit is set is the value read at that field's offset. */
  lemma DecodedFieldValue(fields: seq<Field>, mask: nat, e: Endian, buf: seq<byte>, i: nat)
    requires i < |fields| && MaskBit(mask, i)
    requires DecodeUpTo(fields, mask, e, buf, |fields|).Ok?
    requires UniqueKeys(DecodeUpTo(fields, mask, e, buf, |fields|).value.entries)
    ensures var off := SumWidths(Selected(fields, mask, i));
            var w := FieldWidth(fields[i]);
            && off + w <= |buf|
            && Lookup(DecodeUpTo(fields, mask, e, buf, |fields|).value.entries, fields[i].name)
               == Some(Read(TypeOf(fields[i]), e, buf, off))
  {
    var es := DecodeUpTo(fields, mask, e, buf, |fields|).value.entries;
    var k := |Selected(fields, mask, i)|;
    SelectedIndex(fields, mask, i);
    DecodeUpToReads(fields, mask, e, buf, |fields|);
    ReadAllIndex(e, buf, Selected(fields, mask, |fields|), k);
    LookupUnique(es, k);
  }

  /** The map of a decoded record holds, for each set bit, the value read for that field. */
  lemma DecodedHoldsReadValues(fields: Schema, mask: nat, e: Endian, buf: seq<byte>)
    requires Decode(fields, mask, e, buf).Ok?
    ensures forall i :: 0 <= i < |fields| ==>
              HoldsReadValue(fields, mask, e, buf, AsMap(Decode(fields, mask, e, buf).value), i)
  {
    if mask == 0 {
      assert AsMap(Decode(fields, mask, e, buf).value) == map[];
      forall i | 0 <= i < |fields|
        ensures !MaskBit(mask, i)
      {
        ZeroMaskSelectsNothing(i);
      }
      return;
    }
    var es := Decode(fields, mask, e, buf).value;
    var m := AsMap(es);
    DecodeSpec(fields, mask, e, buf);
    InSchemaOrderUnique(fields, es);
    forall i | 0 <= i < |fields|
      ensures HoldsReadValue(fields, mask, e, buf, m, i)
    {
      LookupAsMap(es, fields[i].name);
      if MaskBit(mask, i) {
        DecodedFieldValue(fields, mask, e, buf, i);
      }
    }
  }

  /**
   * Decoding and re-encoding the decoded record's map writes back exactly the
   * bytes the decode consumed.
   */
  lemma DecodeThenEncode(fields: Schema, mask: nat, e: Endian, buf: seq<byte>)
    requires Decode(fields, mask, e, buf).Ok?
    ensures var m := AsMap(Decode(fields, mask, e, buf).value);
            && AllFit(fields, m)
            && Consumed(fields, mask) <= |buf|
            && Encode(fields, e, m) == buf[..Consumed(fields, mask)]
  {
    var m := AsMap(Decode(fields, mask, e, buf).value);
    DecodeSpec(fields, mask, e, buf);
    if mask == 0 {
      DecodeZeroMask(fields, e, buf);
      assert m == map[];
      EncodeNothing(fields, e, |fields|);
    } else {
      DecodedHoldsReadValues(fields, mask, e, buf);
      forall i | 0 <= i < |fields| && fields[i].name in m
        ensures Fits(TypeOf(fields[i]), m[fields[i].name])
      {
        assert HoldsReadValue(fields, mask, e, buf, m, i);
      }
      EncodeUpToDecoded(fields, mask, e, buf, m, |fields|);
    }
  }

  lemma EncodeNothing(fields: seq<Field>, e: Endian, n: nat)
    requires n <= |fields|
    ensures EncodeUpTo(fields, e, map[], n) == []
  {
    EncodeStaysAbsent(fields, e, map[], 0, n);
  }
}
