# Masked value-list records

This project models `MaskedField` from `src/common.js`, a JavaScript X11 server. It is the codec
for X11 value lists: an integer mask says which of a request's optional fields are present, and
their values follow back to back in the buffer.

- **Schema.** Each record type has one: a fixed, ordered list of field names. Each field has an
  explicit wire type or the default `UInt32`.
- **Decode (the constructor).** It walks the schema in order with a bit index. For every set bit
  it reads that field's value at a running offset and advances by the field's width.
- **`writeBuffer`.** It writes the record's values back at a running offset.
- **Map-style access.** `set`/`get` give it, and `toMap`/`toObject` expose it.
- **`fromMap`/`fromObject`.** They copy the schema fields an input mapping has, in schema order,
  and drop every other key.
- **`getFieldNames`.** It lists the names a mask selects.
- **The three schemas:**
  - the graphics-context list `GCVField`: 23 fields, all 4 bytes;
  - the window-attribute list `WinVField`: 15 fields of 1 or 4 bytes;
  - the ConfigureWindow list `WinConfigureField`: 7 fields, all 4 bytes.

## Modules

- `Wire`: the wire types and their widths (`type_lengths`). It also has the buffer's fixed-width
  reads and writes in either byte order, over byte sequences.
- `Mask`: the bit test `vmask & 2 ** i`. JavaScript truncates both operands of `&` to 32 bits, so
  bit 32 and above never test set.
- `Schema`: fields, unique-name schemas, and the three schema tables. It also has the
  window-attribute list laid out in 4-byte slots, which is the corrected table of a finding below.
- `Entries`: a JavaScript `Map` as its entries in insertion order. The class `EntryMap` holds them
  and changes them in place.
- `Codec`: what each loop computes, as functions that walk the schema one field at a time:
  - decode: `DecodeStep`, `DecodeUpTo`, `Decode`, `DecodeFrom`;
  - the encoding: `EncodeField`, `EncodeUpTo`, `Encode`;
  - `fromMap`: `Filtered`;
  - the names a mask selects: `Selected`.

  It also proves their properties: which fields a mask selects, the bytes consumed, and where
  decode fails.
- `RoundTrip`: encode followed by decode, and decode followed by encode. It also covers what
  `fromMap` keeps.
- `Masked`: the class `MaskedField`. It holds the schema and its in-place map.
  - Decode, `writeBuffer`, `fromMap` and `getFieldNames` are proved against the matching function
    in `Codec`.
  - `set`, `get`, `toObject` and `toMap` are proved against the entry functions in `Entries`.
  - The module also contains `writeBuffer`'s effect on the caller's buffer (`WriteUpTo`, `Wrote`).
- `InsertionOrder`: `writeBuffer` walking the record's own entries in insertion order, compared
  with the walk in schema order.
- `Scenarios`: concrete records, including the inputs behind each row of "Findings".

The model follows the code as written in these places:

- The graphics-context list has 23 fields, with `arc_mode` last.
- The constructor always reads from offset 0 of `vdata` (line 28), so a value list must start at
  the beginning of the buffer it is given.
  - `Masked.MaskedField.Decode` takes the start as a parameter, and the source's behaviour is
    `start == 0`.
  - `Scenarios.DecodeStartCounterexample` shows that the two differ when the value list follows a
    header.
  - `Scenarios.DecodeAfterHeader` shows that decoding from the list's own start gives back the
    encoded record.
- `writeBuffer` returns nothing in the code. The model answers the number of bytes written, which
  is the code's final running offset minus the offset it was given.
- `toMap` returns the record's own map, not a snapshot of it (see "Findings").

## Model

| member | source | states |
|---|---|---|
| Wire.Width | src/common.js:10-17 | every registered wire type is 1, 2 or 4 bytes wide |
| Wire.Read | src/common.js:32 | the value read for a field always lies in its type's range (two's complement for the signed types) |
| Wire.ReadWrite | src/common.js:58 | reading back the bytes written for a value that fits its type gives that value, wherever the bytes sit in the buffer |
| Wire.WriteRead | src/common.js:32 | writing the value read from a field's bytes reproduces those bytes |
| Wire.ReadShift | src/common.js:32 | a read depends only on the bytes it covers, so it is the same wherever the buffer is taken to start |
| Wire.Write | src/common.js:58 | `write<Type>` stores exactly the type's width in bytes for a value that fits; `Wire.ReadWrite` and `Wire.WriteRead` make it the inverse of `Read` |
| Mask.ZeroMaskSelectsNothing | src/common.js:21-23 | a zero mask tests no bit set |
| Mask.MaskBit | src/common.js:30 | `vmask & 2 ** i` is non-zero; after the 32-bit truncation no bit at position 32 or above tests set |
| Mask.MaskBitOfFromBits | src/common.js:30 | a mask built from at most 32 presence flags tests set exactly at those flags |
| Schema.IndexOfName | src/common.js:29 | in a schema, a field's name leads back to the field's position (names are unique) |
| Schema.TypeOf | src/common.js:31 | a field with an explicit type is read and written with it; any other field gets the default type, which is 4 bytes wide |
| Schema.GCVFieldsShape | src/common.js:110-118 | the graphics-context table `GCVFields` has 23 fields, each of the default 4-byte type |
| Schema.WinVFieldsShape | src/common.js:120-138 | the window-attribute table `WinVFields` has 15 fields, each 1 or 4 bytes wide |
| Schema.WinConfigureFieldsShape | src/common.js:140-145 | the ConfigureWindow table `WinConfigureFields` has 7 fields, each of the default 4-byte type |
| Schema.WinVFieldsX11Shape | src/common.js:120-138 | the corrected window-attribute list: the same 15 names, each in a 4-byte slot |
| Entries.Lookup | src/common.js:47-49 | `get(k)` finds a value exactly when `k` is a key of the map |
| Entries.Put | src/common.js:43-45 | `set` grows the map by one entry exactly when the key is new |
| Entries.LookupPutSame | src/common.js:43-45 | after `set(k, v)`, `get(k)` is `v` |
| Entries.LookupPutOther | src/common.js:43-45 | `set(k, v)` leaves `get` of every other key as it was |
| Entries.PutKeys | src/common.js:43-45 | `set` keeps an existing key where it stands and appends a new key last |
| Entries.PutNew | src/common.js:43-45 | `set` of a key not yet present appends exactly one entry |
| Entries.PutUnique | src/common.js:43-45 | `set` never makes a key appear twice |
| Entries.LookupAsMap | src/common.js:67-73 | `get` and key membership agree with the plain mapping the entries stand for |
| Entries.EntryMap.Set | src/common.js:43-45 | the entries become `Put` of the old entries; `get(k)` is the new value; other keys are unchanged; no key is repeated; it answers the map itself, as `Map.prototype.set` does |
| Codec.SelectedSpec | src/common.js:29-35 | the fields a mask selects are in schema order, and field `i` is selected exactly when bit `i` is set |
| Codec.Selected | src/common.js:97-107 | the corrected `getFieldNames` selection: at most one field per field walked (see `Codec.SelectedSpec` for which ones) |
| Codec.SelectedMembership | src/common.js:30 | among the first `n` fields, field `i` is selected exactly when its bit is set |
| Codec.SelectedSubset | src/common.js:29-30 | a mask selects only fields of the schema |
| Codec.SelectedStaysUnset | src/common.js:30 | fields whose bits are clear add nothing to the selection |
| Codec.DecodeZeroMask | src/common.js:21-23 | a zero mask gives an empty record and consumes no bytes |
| Codec.DecodeStep | src/common.js:30-34 | one pass of the loop fails exactly when the bit is set and the field's bytes run past the buffer's end, with the error at the running offset; otherwise it keeps the entries so far, appends one entry exactly when the bit is set, and advances by the field's width exactly then |
| Codec.DecodeUpTo | src/common.js:27-36 | after `n` fields, the running offset lies within the buffer and at most `n` entries are stored; a failure is a read running past the buffer's end |
| Codec.Decode | src/common.js:20-37 | a zero mask gives an empty record; a success holds at most one entry per schema field; a failure is a read running past the buffer's end |
| Codec.DecodeFrom | src/common.js:28 | from start 0 it is the constructor's decode; a failure is a read at or after the start that runs past the buffer's end |
| Codec.DecodeSpec | src/common.js:20-37 | decode succeeds exactly when the buffer holds the selected fields' total width; its keys are then the fields whose bit is set, in schema order |
| Codec.DecodeUpToOffset | src/common.js:29-36 | after `n` fields, the running offset is the sum of the selected fields' widths and one entry has been stored per selected field; a failure is a read running past the buffer's end |
| Codec.DecodeErrSticks | src/common.js:32 | once a read throws, decoding stops with that error |
| Codec.DecodeStaysUnset | src/common.js:29-36 | fields whose bits are clear leave the decode loop's entries and offset as they were |
| Codec.DecodeUpToReads | src/common.js:29-36 | the decoded entries are the values of the selected fields read back to back from offset 0 |
| Codec.DecodeUpToKeys | src/common.js:32 | the decoded keys are the selected fields' names |
| Codec.DecodeIgnoresOtherBits | src/common.js:30 | bits at positions the schema lacks change nothing |
| Codec.EncodeUpToPrefix | src/common.js:55-60 | what is written for the first `i` fields begins what is written for the first `n` |
| Codec.EncodeStaysAbsent | src/common.js:55-60 | fields the record does not hold add no bytes |
| Codec.EncodeUpToLength | src/common.js:55-60 | each pass of the `writeBuffer` loop writes at most 4 bytes |
| Codec.Encode | src/common.js:51-61 | `writeBuffer` writes at most 4 bytes per schema field; `RoundTrip.EncodeThenDecode` and `RoundTrip.DecodeThenEncode` make it the inverse of decode |
| Codec.InSchemaOrderUnique | src/common.js:43-45 | entries whose keys are in schema order never repeat a key |
| Codec.Filtered | src/common.js:75-83 | `fromMap` stores at most one entry per field walked (see `RoundTrip.FilteredLookup` for which ones) |
| Codec.UniformWidthSum | src/common.js:33 | fields that are all 4 bytes wide take 4 bytes each |
| RoundTrip.MaskOfBits | src/common.js:30 | the mask a caller sends for a record has bit `i` set exactly when field `i` is present |
| RoundTrip.FilteredKeys | src/common.js:75-83 | `fromMap` stores only schema fields, each once, in schema order |
| RoundTrip.FilteredLookup | src/common.js:75-83 | after `fromMap(m)`, `get(k)` is `m[k]` for a schema field `k` in `m`, and nothing otherwise |
| RoundTrip.FromMapKeepsSchemaKeys | src/common.js:75-83 | the map `fromMap` builds is `m` restricted to the schema's names |
| RoundTrip.EncodeThenDecode | src/common.js:20-61 | decoding what `writeBuffer` writes, with the mask of the record's present fields, gives back the record's schema fields in schema order |
| RoundTrip.EncodeThenDecodeMap | src/common.js:20-61 | for a mapping of schema fields only, the decoded record's map is the mapping itself |
| RoundTrip.DecodedHoldsReadValues | src/common.js:29-34 | a decoded record holds, for each set bit, the value read at that field's offset |
| RoundTrip.DecodeThenEncode | src/common.js:20-61 | re-encoding a decoded record writes back exactly the bytes decode consumed |
| RoundTrip.EncodeNothing | src/common.js:51-61 | an empty record writes nothing |
| Masked.SpliceContents | src/common.js:58 | a write leaves its bytes where they were put and changes no other byte |
| Masked.SpliceAppend | src/common.js:58-59 | writing `a` and then `b` right after it writes `a + b` |
| Masked.Store | src/common.js:58 | the buffer afterwards is the old contents with the value's bytes written from the offset |
| Masked.WriteErrSticks | src/common.js:58 | once a write throws, nothing after it is written |
| Masked.WroteStep | src/common.js:55-60 | one pass of the write loop keeps the promise of `Wrote` for the encoding extended by one field |
| Masked.WriteUpToSpec | src/common.js:51-61 | `writeBuffer` succeeds exactly when the record's encoding fits after the offset. It then answers the encoding's length, and the buffer is the old contents with the encoding written from the offset. A failure names an access past the end, and only the bytes before it are written |
| Masked.DecodedKeyIsNew | src/common.js:32 | the decode loop never stores a field twice, so each `set` appends |
| Masked.DecodeStepShift | src/common.js:32 | a step of the decode loop reads the same bytes wherever the value list starts |
| Masked.FilteredKeyIsNew | src/common.js:78-80 | `fromMap` never stores a field twice |
| Masked.FilteredStep | src/common.js:78-80 | one pass of `fromMap` is `set` of the field when the input has it |
| Masked.NamesAsWritten | src/common.js:97-107 | as written, `getFieldNames` gives either every schema name or none, and gives the names exactly when bit 0 is set and the schema is not empty |
| Masked.MaskedField.Empty | src/common.js:76 | `new this(0)` has the record type's schema and an empty map |
| Masked.MaskedField.Decode | src/common.js:20-37 | the record exists exactly when `DecodeFrom` succeeds, and its entries are then `DecodeFrom`'s entries with no key repeated; otherwise the buffer's out-of-range error is returned |
| Masked.MaskedField.ReadFields | src/common.js:27-36 | the loop over the schema stores `DecodeUpTo`'s entries and ends at its offset, or returns its error |
| Masked.MaskedField.ReadField | src/common.js:30-34 | one pass of the loop is one `DecodeStep` on the record's map |
| Masked.MaskedField.Set | src/common.js:43-45 | `get(key)` is now `value`; every other key is unchanged; the map still never repeats a key; it answers the record's own map, which is what `this._map.set` returns |
| Masked.MaskedField.Get | src/common.js:47-49 | `get(key)` finds a value exactly when the record holds `key` |
| Masked.MaskedField.WriteBuffer | src/common.js:51-61 | the result and the buffer afterwards are `WriteUpTo` of the record's map over the old contents (see `Masked.WriteUpToSpec`) |
| Masked.MaskedField.WriteField | src/common.js:56-60 | one pass of the loop is one `WriteNext` with the field's encoding |
| Masked.MaskedField.WriteBufferAsWritten | src/common.js:56 | as written, `writeBuffer` always fails because `this.map` is not iterable |
| Masked.MaskedField.ToObject | src/common.js:67-73 | the object has exactly the record's keys, each with the value `get` gives |
| Masked.MaskedField.ToMapAsWritten | src/common.js:63-65 | `toMap` returns the record's own map object |
| Masked.MaskedField.ToMap | src/common.js:63-65 | corrected `toMap`: a fresh map with the record's entries |
| Masked.MaskedField.FromMap | src/common.js:75-83 | the record holds `Filtered` of the input: its schema fields, in schema order, with no key repeated |
| Masked.MaskedField.FromObject | src/common.js:85-95 | like `fromMap` over the object's properties; a missing object gives an empty record |
| Masked.MaskedField.FieldNames | src/common.js:97-107 | corrected `getFieldNames`: the names of the fields whose bit is set, in schema order |
| Masked.MaskedField.FieldNamesAsWritten | src/common.js:97-107 | as written, `getFieldNames` returns every name when bit 0 is set and none otherwise |
| Masked.ToMapAliasing | src/common.js:63-65 | a `set` on the map that `toMap` returns, as written, changes the record |
| Masked.ToMapIsolation | src/common.js:63-65 | a `set` on the copy the corrected `toMap` returns leaves the record unchanged |
| Masked.SetAliasing | src/common.js:44 | a caller changing the map that `set` returned changes the record: the record then holds the caller's value, and keeps the value `set` stored under any other key |
| InsertionOrder.TypeOfKey | src/common.js:57 | a key the schema lacks is written with the default type |
| InsertionOrder.EncodeEntries | src/common.js:55-60 | the walk over the record's entries in insertion order writes at most 4 bytes per entry |
| InsertionOrder.EncodeFilteredEntries | src/common.js:55-60 | walking `fromMap`'s entries in insertion order writes what the schema-order walk writes |
| InsertionOrder.OrderedIsFiltered | src/common.js:75-83 | entries in schema order that agree with a mapping and hold all of its schema fields are exactly what `fromMap` builds from it |
| InsertionOrder.InsertionOrderAgrees | src/common.js:55-60 | for any record whose keys are in schema order, the insertion-order walk and the schema-order walk write the same bytes |
| InsertionOrder.DecodedInsertionOrder | src/common.js:20-61 | a decoded record walked in insertion order writes back exactly the bytes decode consumed |
| Scenarios.WinConfigureMask5Selects | src/common.js:140-145 | ConfigureWindow mask `0b101` selects `x` and `width` |
| Scenarios.WinConfigureScenario | src/common.js:20-37 | ConfigureWindow mask `0b101` over the little-endian bytes of 10 and 200 decodes to `x = 10, width = 200` and consumes 8 bytes |
| Scenarios.WinConfigureReencode | src/common.js:51-61 | re-encoding `{x: 10, width: 200}` writes back the same 8 bytes |
| Scenarios.FromObjectDropsUnknown | src/common.js:85-95 | `fromObject({unknown_field: 5, x: 1})` keeps only `x = 1` |
| Scenarios.FieldNamesMask4 | src/common.js:97-107 | mask 4 selects `width` alone; as written, `getFieldNames` returns nothing |
| Scenarios.FieldNamesMask1 | src/common.js:97-107 | mask 1 selects `x` alone; as written, `getFieldNames` returns all seven names |
| Scenarios.DecodeOnlyX | src/common.js:29-36 | ConfigureWindow mask 1 decodes `x` alone from the first four bytes |
| Scenarios.DecodeStartCounterexample | src/common.js:28 | with a 4-byte header before the value list, decoding from offset 0 reads `x` from the header; decoding from the list's start reads the list's value |
| Scenarios.DecodeAfterHeader | src/common.js:28 | decoding from the start of an encoded value list gives back the record, whatever header precedes it |
| Scenarios.UniformConsumed | src/common.js:33 | in a schema of 4-byte fields, decode consumes 4 bytes per selected field |
| Scenarios.GCVConsumed | src/common.js:110-118 | a graphics-context value list is 4 bytes per set bit |
| Scenarios.WinConfigureConsumed | src/common.js:140-145 | a ConfigureWindow value list is 4 bytes per set bit |
| Scenarios.WinVX11Consumed | src/common.js:120-138 | with 4-byte slots, a window-attribute value list is 4 bytes per set bit |
| Scenarios.DecodeAdjacentPair | src/common.js:29-36 | a mask selecting exactly fields `i` and `i + 1` reads them back to back from offset 0 and consumes their two widths |
| Scenarios.SelectedAdjacentPair | src/common.js:33 | such a mask consumes exactly the two fields' widths |
| Scenarios.WinVGravityAsWritten | src/common.js:126-127 | as written, the two gravity values in 4-byte slots decode as `bit_gravity = 1, win_gravity = 0` and only 2 bytes are consumed |
| Scenarios.WinVGravityX11 | src/common.js:126-127 | with 4-byte slots, the same bytes decode as `bit_gravity = 1, win_gravity = 2`, and 8 bytes are consumed |
| Scenarios.SetOrderCounterexample | src/common.js:56-59 | `set('y', 1)` then `set('x', 2)` walked in insertion order writes `y` first, and the receiver then reads `x = 1, y = 2`; the schema-order walk writes `x` first |
| Scenarios.YThenXEntries | src/common.js:56-59 | the insertion-order walk over that record writes the bytes of 1 and then of 2 |
| Scenarios.YThenXReceiver | src/common.js:30-33 | the receiver's mask for that record reads those bytes as `x = 1, y = 2` |
| Scenarios.WinConfigureYThenX | src/common.js:51-61 | the schema-order walk over `{x: 2, y: 1}` writes the bytes of 2 and then of 1 |
| Scenarios.UnknownKeyDivergence | src/common.js:56-59 | for a ConfigureWindow record holding only the key `foo`, the walk over its entries writes `foo` with the default type (4 bytes), while the schema-order walk writes nothing |

## Left out

- The `EndianBuffer` class is not part of this model:
  - Its `read<Type>`/`write<Type>` accessors are `Wire.Read`/`Wire.Write`, with the byte order as a parameter.
  - A read or write past its end is the error `OutOfRange`.
  - The caller's buffer is a fixed-size `array<byte>`.
- `MustImplementError` (lines 1-5) is not used by the record code and is not modelled.
- `[Symbol.iterator]` (lines 39-41) is the record's entry sequence in insertion order. `ToObject` and `InsertionOrder.EncodeEntries` walk it.
- Dispatch by building method names (`'read' + type`, `'write' + type`) becomes a closed datatype of wire types. A type name with no entry in `type_lengths` therefore cannot arise.
- The per-subclass static tables (`this.constructor.fields`) are passed to the generic record as a schema value.
- JavaScript numbers are modelled as unbounded integers. Fractional, `NaN` and negative masks are outside the model.
- Masked.MaskedField.WriteBuffer: requires every stored value to fit its field's type. The buffer's behaviour for a value outside the range is not part of this model.
- Masked.MaskedField.WriteBuffer: requires a numeric offset within the buffer. The source's optional `offset`, when omitted, is `undefined`, and the resulting `NaN` offsets are not modelled.
- Masked.MaskedField.Decode: requires a buffer. A non-zero mask with `vdata` missing throws a `TypeError` in the source, and that case is not modelled.
- Masked.MaskedField.FromObject: the object is a mapping of its own properties. Inherited properties, and falsy non-object arguments other than a missing object, are not modelled.
- Masked.MaskedField.WriteBuffer: walks the schema in order. The source intends to walk the map in insertion order. `InsertionOrder.InsertionOrderAgrees` proves the two agree on every record whose keys are in schema order, which includes every decoded record and every `fromMap`/`fromObject` record.
- Masked.MaskedField.WriteBuffer: drops keys outside the schema, which only `set` can store. The insertion-order walk writes such a key with the default type (line 57), bytes that no mask bit accounts for. `Scenarios.UnknownKeyDivergence` shows the difference.
- Masked.MaskedField.Set: answers the record's own map, as the source does. The model has no corrected `set`, so this second way the map escapes stays in the model (`Masked.SetAliasing`); the corrected `toMap` closes only the first.
- Concurrency and I/O: the record code has none.

## Findings

| source | as written | input that shows it | evidently intended | confidence | as-written member | corrected member |
|---|---|---|---|---|---|---|
| src/common.js:56 | `writeBuffer` iterates `this.map`, which records do not have; `for…of` over `undefined` throws | any record and any buffer: the call throws before writing | walk the record's entries (`this._map`) and write each value at the running offset. The model walks them in schema order. That agrees with insertion order on decoded and `fromMap` records (`InsertionOrder.InsertionOrderAgrees`), keeps the receiver's mask right when fields were `set` out of order (`Scenarios.SetOrderCounterexample`), and drops keys outside the schema, which the insertion-order walk would write with the default type (`Scenarios.UnknownKeyDivergence`) | high, not executed | Masked.MaskedField.WriteBufferAsWritten | Masked.MaskedField.WriteBuffer |
| src/common.js:97-107 | `getFieldNames` never increments `i`, so every field tests bit 0 | ConfigureWindow mask 4 gives `[]` instead of `["width"]`; mask 1 gives all seven names instead of `["x"]` | advance `i` with each field, as the constructor does at line 35 | high, not executed | Scenarios.FieldNamesMask4 | Masked.MaskedField.FieldNames |
| src/common.js:120-138 | `bit_gravity`, `win_gravity`, `backing_store`, `override_redirect` and `save_under` are read and written as 1 byte. In the X Window System Protocol, Version 11, every value of a LISTofVALUE occupies 4 bytes (the list is 4n bytes long) | window-attribute mask `0x30` with value slots `01 00 00 00 02 00 00 00`: as written, `win_gravity = 0` is read from the padding and 2 of the 8 bytes are consumed | each value in its own 4-byte slot, so the list consumes 4 bytes per set bit | medium, not executed | Scenarios.WinVGravityAsWritten | Scenarios.WinVGravityX11 |
| src/common.js:63-65 | `toMap` returns the record's own map, so a caller's `set` on the result changes the record. `set` (line 44) returns the same map (`Masked.SetAliasing`) | `rec.toMap().set("x", 1)` makes `rec.get("x")` 1 | an independent snapshot of the entries, as `toObject` gives | low, not executed | Masked.ToMapAliasing | Masked.ToMapIsolation |
