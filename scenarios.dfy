/**
 * Concrete records of the three X11 value-list schemas: what the decode
 * loop reads for a given mask and bytes, what encode writes back, and the
 * inputs on which the code as written and the intended behaviour part ways.
 */
module Scenarios {
  import opened Wrappers
  import opened Wire
  import opened Mask
  import opened Schema
  import opened Entries
  import opened Codec
  import opened RoundTrip
  import opened Masked
  import opened InsertionOrder

  /** `x = 10` then `width = 200`, each a little-endian 4-byte value. */
  const ConfigureBytes: seq<byte> := [10, 0, 0, 0, 200, 0, 0, 0]

  lemma WinConfigureMask5Selects()
    ensures Selected(WinConfigureFields, 5, 7) == [Field("x", None), Field("width", None)]
  {
    var fs := WinConfigureFields;
    WinConfigureTable();
    assert MaskBit(5, 0) && !MaskBit(5, 1) && MaskBit(5, 2);
    assert !MaskBit(5, 3) && !MaskBit(5, 4) && !MaskBit(5, 5) && !MaskBit(5, 6);
    assert Selected(fs, 5, 1) == [fs[0]];
    assert Selected(fs, 5, 2) == [fs[0]];
    assert Selected(fs, 5, 3) == [fs[0], fs[2]];
    assert Selected(fs, 5, 4) == [fs[0], fs[2]];
    assert Selected(fs, 5, 5) == [fs[0], fs[2]];
    assert Selected(fs, 5, 6) == [fs[0], fs[2]];
  }

  lemma WinConfigureTable()
    ensures |WinConfigureFields| == 7
    ensures WinConfigureFields[0] == Field("x", None) && WinConfigureFields[1] == Field("y", None)
    ensures WinConfigureFields[2] == Field("width", None) && WinConfigureFields[3] == Field("height", None)
    ensures WinConfigureFields[4] == Field("border_width", None) && WinConfigureFields[5] == Field("sibling", None)
    ensures WinConfigureFields[6] == Field("stack_mode", None)
  {
  }

  /**
   * ConfigureWindow with mask `0b101`: bits 0 and 2 select `x` and `width`,
   * which are read from the 8 bytes in that order.
   */
  lemma WinConfigureScenario()
    ensures Decode(WinConfigureFields, 5, Little, ConfigureBytes) == Ok([Entry("x", 10), Entry("width", 200)])
    ensures Consumed(WinConfigureFields, 5) == 8
  {
    assert SumWidths([Field("x", None), Field("width", None)]) == 8 by {
      assert [Field("x", None), Field("width", None)][..1] == [Field("x", None)];
    }
    var fs := WinConfigureFields;
    var buf := ConfigureBytes;
    WinConfigureMask5Selects();
    WinConfigureTable();
    assert MaskBit(5, 0) && !MaskBit(5, 1) && MaskBit(5, 2);
    assert !MaskBit(5, 3) && !MaskBit(5, 4) && !MaskBit(5, 5) && !MaskBit(5, 6);
    assert Read(UInt32, Little, buf, 0) == 10;
    assert Read(UInt32, Little, buf, 4) == 200;
    var x := [Entry("x", 10)];
    var both := [Entry("x", 10), Entry("width", 200)];
    assert TypeOf(fs[0]) == UInt32 && Width(UInt32) == 4;
    assert [] + [Entry(fs[0].name, 10)] == x;
    assert DecodeStep(fs[0], true, Little, buf, Progress([], 0)) == Ok(Progress(x, 4));
    assert DecodeUpTo(fs, 5, Little, buf, 1) == Ok(Progress(x, 4));
    assert DecodeUpTo(fs, 5, Little, buf, 2) == Ok(Progress(x, 4));
    assert TypeOf(fs[2]) == UInt32;
    assert x + [Entry(fs[2].name, 200)] == both;
    assert DecodeStep(fs[2], true, Little, buf, Progress(x, 4)) == Ok(Progress(both, 8));
    assert DecodeUpTo(fs, 5, Little, buf, 3) == Ok(Progress(both, 8));
    assert DecodeUpTo(fs, 5, Little, buf, 4) == Ok(Progress(both, 8));
    assert DecodeUpTo(fs, 5, Little, buf, 5) == Ok(Progress(both, 8));
    assert DecodeUpTo(fs, 5, Little, buf, 6) == Ok(Progress(both, 8));
    assert DecodeUpTo(fs, 5, Little, buf, 7) == Ok(Progress(both, 8));
  }

  /** Re-encoding the decoded ConfigureWindow record writes back the same 8 bytes. */
  lemma WinConfigureReencode()
    ensures AllFit(WinConfigureFields, map["x" := 10, "width" := 200])
    ensures Encode(WinConfigureFields, Little, map["x" := 10, "width" := 200]) == ConfigureBytes
  {
    WinConfigureScenario();
    DecodeThenEncode(WinConfigureFields, 5, Little, ConfigureBytes);
    assert AsMap([Entry("x", 10), Entry("width", 200)]) == map["x" := 10, "width" := 200];
    assert ConfigureBytes[..8] == ConfigureBytes;
  }

  /** `fromObject` keeps the schema field `x` and drops a key the schema does not have. */
  lemma FromObjectDropsUnknown()
    ensures Filtered(WinConfigureFields, map["unknown_field" := 5, "x" := 1], 7) == [Entry("x", 1)]
  {
    var fs := WinConfigureFields;
    var m := map["unknown_field" := 5, "x" := 1];
    WinConfigureTable();
    assert Filtered(fs, m, 1) == [Entry("x", 1)];
    assert Filtered(fs, m, 2) == [Entry("x", 1)];
    assert Filtered(fs, m, 3) == [Entry("x", 1)];
    assert Filtered(fs, m, 4) == [Entry("x", 1)];
    assert Filtered(fs, m, 5) == [Entry("x", 1)];
    assert Filtered(fs, m, 6) == [Entry("x", 1)];
  }

  // getFieldNames: the bit index is never advanced.

  /** Mask 4 selects `width` alone; as written, bit 0 is tested for every field and nothing is returned. */
  lemma FieldNamesMask4()
    ensures NamesAsWritten(WinConfigureFields, 4) == []
    ensures Names(Selected(WinConfigureFields, 4, 7)) == ["width"]
  {
    var fs := WinConfigureFields;
    WinConfigureTable();
    assert !MaskBit(4, 0) && !MaskBit(4, 1) && MaskBit(4, 2);
    assert !MaskBit(4, 3) && !MaskBit(4, 4) && !MaskBit(4, 5) && !MaskBit(4, 6);
    assert Selected(fs, 4, 1) == [];
    assert Selected(fs, 4, 2) == [];
    assert Selected(fs, 4, 3) == [fs[2]];
    assert Selected(fs, 4, 5) == [fs[2]];
    assert Selected(fs, 4, 7) == [fs[2]];
  }

  /** Mask 1 selects `x` alone; as written, every name of the schema is returned. */
  lemma FieldNamesMask1()
    ensures NamesAsWritten(WinConfigureFields, 1) == WinConfigureNames
    ensures Names(Selected(WinConfigureFields, 1, 7)) == ["x"]
  {
    var fs := WinConfigureFields;
    WinConfigureTable();
    assert MaskBit(1, 0) && !MaskBit(1, 1) && !MaskBit(1, 2);
    assert !MaskBit(1, 3) && !MaskBit(1, 4) && !MaskBit(1, 5) && !MaskBit(1, 6);
    assert Selected(fs, 1, 1) == [fs[0]];
    assert Selected(fs, 1, 3) == [fs[0]];
    assert Selected(fs, 1, 5) == [fs[0]];
    assert Selected(fs, 1, 7) == [fs[0]];
  }

  // The decode loop always starts at offset 0.

  /** A 4-byte header holding 5, then the value list holding `x = 10`. */
  const HeaderThenX: seq<byte> := [5, 0, 0, 0, 10, 0, 0, 0]

  /**
   * As written, decoding the value list that starts at byte 4 reads `x`
   * from the header; decoding from the list's own start reads 10.
   */
  lemma DecodeStartCounterexample()
    ensures Decode(WinConfigureFields, 1, Little, HeaderThenX) == Ok([Entry("x", 5)])
    ensures DecodeFrom(WinConfigureFields, 1, Little, HeaderThenX, 4) == Ok([Entry("x", 10)])
  {
    DecodeOnlyX(HeaderThenX, 5);
    assert HeaderThenX[4..] == [10, 0, 0, 0];
    DecodeOnlyX(HeaderThenX[4..], 10);
  }

  /** Mask 1 decodes `x` alone from the first four bytes. */
  lemma DecodeOnlyX(buf: seq<byte>, v: int)
    requires |buf| >= 4 && Read(UInt32, Little, buf, 0) == v
    ensures Decode(WinConfigureFields, 1, Little, buf) == Ok([Entry("x", v)])
  {
    var fs := WinConfigureFields;
    WinConfigureTable();
    assert MaskBit(1, 0) && !MaskBit(1, 1) && !MaskBit(1, 2);
    assert !MaskBit(1, 3) && !MaskBit(1, 4) && !MaskBit(1, 5) && !MaskBit(1, 6);
    var x := [Entry("x", v)];
    assert TypeOf(fs[0]) == UInt32 && [] + [Entry(fs[0].name, v)] == x;
    assert DecodeUpTo(fs, 1, Little, buf, 1) == Ok(Progress(x, 4));
    assert DecodeUpTo(fs, 1, Little, buf, 3) == Ok(Progress(x, 4));
    assert DecodeUpTo(fs, 1, Little, buf, 5) == Ok(Progress(x, 4));
    assert DecodeUpTo(fs, 1, Little, buf, 7) == Ok(Progress(x, 4));
  }

  /**
   * Decoding from the start of a value list that follows any header gives
   * back the record that was encoded, whatever the header holds.
   */
  lemma DecodeAfterHeader(fields: seq<Field>, e: Endian, m: map<string, int>, header: seq<byte>)
    requires |fields| <= 32 && AllFit(fields, m)
    ensures DecodeFrom(fields, MaskOf(fields, m), e, header + Encode(fields, e, m), |header|) == Ok(Filtered(fields, m, |fields|))
  {
    assert (header + Encode(fields, e, m))[|header|..] == Encode(fields, e, m);
    EncodeThenDecode(fields, e, m);
  }

  // Decode consumes four bytes per set bit in the all-4-byte schemas.

  lemma UniformConsumed(fields: seq<Field>, mask: nat)
    requires forall f :: f in fields ==> FieldWidth(f) == 4
    ensures Consumed(fields, mask) == 4 * |Selected(fields, mask, |fields|)|
  {
    SelectedSubset(fields, mask, |fields|);
    assert fields[..|fields|] == fields;
    UniformWidthSum(Selected(fields, mask, |fields|));
  }

  /** A GC value list is four bytes per set bit. */
  lemma GCVConsumed(mask: nat)
    ensures Consumed(GCVFields, mask) == 4 * |Selected(GCVFields, mask, 23)|
  {
    GCVFieldsShape();
    UniformConsumed(GCVFields, mask);
  }

  /** A ConfigureWindow value list is four bytes per set bit. */
  lemma WinConfigureConsumed(mask: nat)
    ensures Consumed(WinConfigureFields, mask) == 4 * |Selected(WinConfigureFields, mask, 7)|
  {
    WinConfigureFieldsShape();
    UniformConsumed(WinConfigureFields, mask);
  }

  /**
   * With 4-byte slots, a window-attribute value list is four bytes per set
   * bit, the `4n` bytes the X11 protocol gives a LISTofVALUE.
   */
  lemma WinVX11Consumed(mask: nat)
    ensures Consumed(WinVFieldsX11, mask) == 4 * |Selected(WinVFieldsX11, mask, 15)|
  {
    WinVFieldsX11Shape();
    UniformConsumed(WinVFieldsX11, mask);
  }

  // Window attributes: 1-byte fields against 4-byte slots.

  /** Mask `0x30` (bit_gravity, win_gravity) with each value in its own 4-byte slot. */
  const GravityBytes: seq<byte> := [1, 0, 0, 0, 2, 0, 0, 0]

  lemma WinVGravityBits()
    ensures !MaskBit(0x30, 0) && !MaskBit(0x30, 1) && !MaskBit(0x30, 2) && !MaskBit(0x30, 3)
    ensures MaskBit(0x30, 4) && MaskBit(0x30, 5)
    ensures forall i :: 6 <= i ==> !MaskBit(0x30, i)
  {
    forall i | 6 <= i
      ensures !MaskBit(0x30, i)
    {
      assert Bit(0x30, i) == Bit(24, i - 1) == Bit(12, i - 2) == Bit(6, i - 3);
      assert Bit(6, i - 3) == Bit(3, i - 4) == Bit(1, i - 5) == Bit(0, i - 6);
      BitOfZero(i - 6);
    }
  }

  /** Entries 4 and 5 of the window-attribute schemas are the two gravities. */
  lemma WinVGravityFields()
    ensures |WinVFields| == 15 && |WinVFieldsX11| == 15
    ensures WinVFields[4] == Field("bit_gravity", Some(UInt8)) && WinVFields[5] == Field("win_gravity", Some(UInt8))
    ensures WinVFieldsX11[4] == Field("bit_gravity", None) && WinVFieldsX11[5] == Field("win_gravity", None)
  {
  }

  /**
   * As written, `bit_gravity` and `win_gravity` are read as one byte each:
   * 2 bytes are consumed and `win_gravity` comes from the padding of the
   * first slot.
   */
  lemma WinVGravityAsWritten()
    ensures Decode(WinVFields, 0x30, Little, GravityBytes) == Ok([Entry("bit_gravity", 1), Entry("win_gravity", 0)])
    ensures Consumed(WinVFields, 0x30) == 2
  {
    WinVGravityBits();
    WinVGravityFields();
    assert Read(UInt8, Little, GravityBytes, 0) == 1 && Read(UInt8, Little, GravityBytes, 1) == 0;
    DecodeAdjacentPair(WinVFields, 0x30, Little, GravityBytes, 4);
  }

  /**
   * With 4-byte slots, `bit_gravity` and `win_gravity` are read from their
   * own slots and the 8 bytes are consumed.
   */
  lemma WinVGravityX11()
    ensures Decode(WinVFieldsX11, 0x30, Little, GravityBytes) == Ok([Entry("bit_gravity", 1), Entry("win_gravity", 2)])
    ensures Consumed(WinVFieldsX11, 0x30) == 8
  {
    WinVGravityBits();
    WinVGravityFields();
    assert Read(UInt32, Little, GravityBytes, 0) == 1 && Read(UInt32, Little, GravityBytes, 4) == 2;
    DecodeAdjacentPair(WinVFieldsX11, 0x30, Little, GravityBytes, 4);
  }

  /** A mask selecting exactly fields `i` and `i + 1` reads them back to back from offset 0. */
  lemma DecodeAdjacentPair(fields: seq<Field>, mask: nat, e: Endian, buf: seq<byte>, i: nat)
    requires i + 1 < |fields|
    requires forall j :: 0 <= j < |fields| ==> (MaskBit(mask, j) <==> j == i || j == i + 1)
    requires FieldWidth(fields[i]) + FieldWidth(fields[i + 1]) <= |buf|
    ensures Decode(fields, mask, e, buf) == Ok([
      Entry(fields[i].name, Read(TypeOf(fields[i]), e, buf, 0)),
      Entry(fields[i + 1].name, Read(TypeOf(fields[i + 1]), e, buf, FieldWidth(fields[i])))])
    ensures Consumed(fields, mask) == FieldWidth(fields[i]) + FieldWidth(fields[i + 1])
  {
    var f, g := fields[i], fields[i + 1];
    var w := FieldWidth(f);
    var one := [Entry(f.name, Read(TypeOf(f), e, buf, 0))];
    var two := one + [Entry(g.name, Read(TypeOf(g), e, buf, w))];
    assert DecodeUpTo(fields, mask, e, buf, i + 2) == Ok(Progress(two, w + FieldWidth(g))) by {
      DecodeStaysUnset(fields, mask, e, buf, 0, i);
      assert [] + one == one;
      assert DecodeUpTo(fields, mask, e, buf, i + 1) == Ok(Progress(one, w));
    }
    DecodeStaysUnset(fields, mask, e, buf, i + 2, |fields|);
    assert DecodeUpTo(fields, mask, e, buf, |fields|) == Ok(Progress(two, w + FieldWidth(g)));
    ZeroMaskSelectsNothing(i);
    assert mask != 0;
    assert two == [one[0], Entry(g.name, Read(TypeOf(g), e, buf, w))];
    SelectedAdjacentPair(fields, mask, i);
  }

  lemma SelectedAdjacentPair(fields: seq<Field>, mask: nat, i: nat)
    requires i + 1 < |fields|
    requires forall j :: 0 <= j < |fields| ==> (MaskBit(mask, j) <==> j == i || j == i + 1)
    ensures Consumed(fields, mask) == FieldWidth(fields[i]) + FieldWidth(fields[i + 1])
  {
    SelectedStaysUnset(fields, mask, 0, i);
    assert MaskBit(mask, i) && MaskBit(mask, i + 1);
    SelectedSet(fields, mask, i + 1);
    SelectedSet(fields, mask, i + 2);
    SelectedStaysUnset(fields, mask, i + 2, |fields|);
  }

  // Writing in insertion order against writing in schema order.

  /** `set('y', 1)` then `set('x', 2)` on an empty ConfigureWindow record. */
  const YThenX: seq<Entry> := [Entry("y", 1), Entry("x", 2)]

  /**
   * Walked in insertion order, the record writes `y` first; the receiver,
   * reading the fields its mask selects in schema order, takes those bytes
   * for `x`. The schema-order walk writes `x` first and is read back as set.
   */
  lemma SetOrderCounterexample()
    ensures Put(Put([], "y", 1), "x", 2) == YThenX
    ensures EntriesFit(WinConfigureFields, YThenX)
    ensures EncodeEntries(WinConfigureFields, Little, YThenX) == [1, 0, 0, 0, 2, 0, 0, 0]
    ensures Decode(WinConfigureFields, MaskOf(WinConfigureFields, AsMap(YThenX)), Little, [1, 0, 0, 0, 2, 0, 0, 0])
         == Ok([Entry("x", 1), Entry("y", 2)])
    ensures AllFit(WinConfigureFields, AsMap(YThenX))
    ensures Encode(WinConfigureFields, Little, AsMap(YThenX)) == [2, 0, 0, 0, 1, 0, 0, 0]
  {
    YThenXEntries();
    YThenXReceiver();
    assert AsMap(YThenX) == map["y" := 1, "x" := 2];
    WinConfigureYThenX();
  }

  /** The entry walk writes `y` then `x`. */
  lemma YThenXEntries()
    ensures Put(Put([], "y", 1), "x", 2) == YThenX
    ensures EntriesFit(WinConfigureFields, YThenX)
    ensures EncodeEntries(WinConfigureFields, Little, YThenX) == [1, 0, 0, 0, 2, 0, 0, 0]
  {
    var fs := WinConfigureFields;
    WinConfigureTable();
    assert IndexOf(fs, "y") == 1 && IndexOf(fs, "x") == 0;
    assert TypeOfKey(fs, "y") == UInt32 && TypeOfKey(fs, "x") == UInt32;
    assert Write(UInt32, Little, 1) == [1, 0, 0, 0] && Write(UInt32, Little, 2) == [2, 0, 0, 0];
    assert YThenX[..1] == [Entry("y", 1)];
    assert EncodeEntries(fs, Little, [Entry("y", 1)]) == [1, 0, 0, 0];
  }

  /** The receiver's mask selects `x` and `y`, read in that order. */
  lemma YThenXReceiver()
    ensures Decode(WinConfigureFields, MaskOf(WinConfigureFields, AsMap(YThenX)), Little, [1, 0, 0, 0, 2, 0, 0, 0])
         == Ok([Entry("x", 1), Entry("y", 2)])
  {
    var fs := WinConfigureFields;
    var m := AsMap(YThenX);
    assert m == map["y" := 1, "x" := 2];
    WinConfigureTable();
    var bytes: seq<byte> := [1, 0, 0, 0, 2, 0, 0, 0];
    assert Read(UInt32, Little, bytes, 0) == 1 && Read(UInt32, Little, bytes, 4) == 2;
    forall j | 0 <= j < 7
      ensures MaskBit(MaskOf(fs, m), j) <==> j == 0 || j == 1
    {
      MaskOfBits(fs, m, j);
    }
    DecodeAdjacentPair(fs, MaskOf(fs, m), Little, bytes, 0);
  }

  /** The schema-order walk over `{x: 2, y: 1}` writes `x` first. */
  lemma WinConfigureYThenX()
    ensures AllFit(WinConfigureFields, map["y" := 1, "x" := 2])
    ensures Encode(WinConfigureFields, Little, map["y" := 1, "x" := 2]) == [2, 0, 0, 0, 1, 0, 0, 0]
  {
    var fs := WinConfigureFields;
    var m := map["y" := 1, "x" := 2];
    WinConfigureTable();
    assert Write(UInt32, Little, 1) == [1, 0, 0, 0] && Write(UInt32, Little, 2) == [2, 0, 0, 0];
    assert EncodeUpTo(fs, Little, m, 1) == [2, 0, 0, 0];
    assert EncodeUpTo(fs, Little, m, 2) == [2, 0, 0, 0, 1, 0, 0, 0];
    EncodeStaysAbsent(fs, Little, m, 2, 7);
  }

  // A key outside the schema.

  /**
   * A ConfigureWindow record after `set('foo', 1)`: the walk over its entries
   * writes `foo` with the default type, while the schema-order walk writes
   * nothing for it.
   */
  lemma UnknownKeyDivergence()
    ensures EntriesFit(WinConfigureFields, [Entry("foo", 1)])
    ensures EncodeEntries(WinConfigureFields, Little, [Entry("foo", 1)]) == [1, 0, 0, 0]
    ensures AllFit(WinConfigureFields, map["foo" := 1])
    ensures Encode(WinConfigureFields, Little, map["foo" := 1]) == []
  {
    var fs := WinConfigureFields;
    var m := map["foo" := 1];
    WinConfigureTable();
    assert IndexOf(fs, "foo") == |fs|;
    assert Write(UInt32, Little, 1) == [1, 0, 0, 0];
    assert [Entry("foo", 1)][..0] == [];
    EncodeStaysAbsent(fs, Little, m, 0, |fs|);
  }
}
