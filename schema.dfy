/**
 * A record schema: the ordered field list of one `MaskedField` subclass.
 * Field `i` corresponds to mask bit `i`; a field without an explicit type
 * uses the default type `UInt32`. The source keeps the fields in a `Map`,
 * so names are unique.
 */
module Schema {
  import opened Wrappers
  import opened Wire

  datatype Field = Field(name: string, explicitType: Option<WireType>)

  predicate UniqueNames(fs: seq<Field>) {
    forall i, j :: 0 <= i < j < |fs| ==> fs[i].name != fs[j].name
  }

  type Schema = fs: seq<Field> | UniqueNames(fs) witness []

  /** `default_type`. */
  const DefaultType: WireType := UInt32

  /** `v || default_type`. */
  function TypeOf(f: Field): (t: WireType)
    ensures f.explicitType.Some? ==> t == f.explicitType.value
    ensures f.explicitType.None? ==> Width(t) == 4
  {
    match f.explicitType
    case Some(t) => t
    case None => DefaultType
  }

  function FieldWidth(f: Field): (w: nat) {
    Width(TypeOf(f))
  }

  function Names(fs: seq<Field>): (r: seq<string>)
    ensures |r| == |fs|
    ensures forall i :: 0 <= i < |fs| ==> r[i] == fs[i].name
  {
    seq(|fs|, i requires 0 <= i < |fs| => fs[i].name)
  }

  /** Position of the first field called `name`, or `|fs|` when there is none. */
  function IndexOf(fs: seq<Field>, name: string): (k: nat)
    ensures k <= |fs|
    ensures k < |fs| ==> fs[k].name == name
    ensures forall i :: 0 <= i < k ==> fs[i].name != name
  {
    if fs == [] then 0
    else if fs[0].name == name then 0
    else 1 + IndexOf(fs[1..], name)
  }

  /** In a schema a field's name leads back to the field's position. */
  lemma IndexOfName(fields: Schema, i: nat)
    requires i < |fields|
    ensures IndexOf(fields, fields[i].name) == i
  {
  }

  /** Sum of the widths of a sequence of fields. */
  function SumWidths(fs: seq<Field>): (total: nat) {
    if fs == [] then 0 else SumWidths(fs[..|fs| - 1]) + FieldWidth(fs[|fs| - 1])
  }

  predicate Distinct(names: seq<string>) {
    forall i, j :: 0 <= i < j < |names| ==> names[i] != names[j]
  }

  function Untyped(names: seq<string>): (fs: seq<Field>)
    ensures Distinct(names) ==> UniqueNames(fs)
  {
    seq(|names|, i requires 0 <= i < |names| => Field(names[i], None))
  }

  function Typed(names: seq<string>, types: seq<WireType>): (fs: seq<Field>)
    requires |names| == |types|
    ensures Distinct(names) ==> UniqueNames(fs)
  {
    seq(|names|, i requires 0 <= i < |names| => Field(names[i], Some(types[i])))
  }

  const GCVNames: seq<string> := [
    "function", "plane_mask", "foreground", "background", "line_width",
    "line_style", "cap_style", "join_style", "fill_style", "fill_rule",
    "tile", "stipple", "tile_stipple_x_origin", "tile_stipple_y_origin", "font",
    "subwindow_mode", "graphics_exposures", "clip_x_origin", "clip_y_origin",
    "clip_mask", "dash_offset", "gc_dashes", "arc_mode"]

  const WinVNames: seq<string> := [
    "background_pixmap", "background_pixel", "border_pixmap", "border_pixel",
    "bit_gravity", "win_gravity", "backing_store", "backing_planes",
    "backing_pixel", "override_redirect", "save_under", "event_mask",
    "do_not_propagate_mask", "colormap", "cursor"]

  const WinVTypes: seq<WireType> := [
    UInt32, UInt32, UInt32, UInt32,
    UInt8, UInt8, UInt8, UInt32,
    UInt32, UInt8, UInt8, UInt32,
    UInt32, UInt32, UInt32]

  const WinConfigureNames: seq<string> := [
    "x", "y", "width", "height", "border_width", "sibling", "stack_mode"]

  // Distinct names differ in length or in some character.

  lemma GCVNamesDistinct()
    ensures Distinct(GCVNames)
  {
    var names := GCVNames;
    forall i, j | 0 <= i < j < |names| ensures names[i] != names[j] {
      if |names[i]| == |names[j]| {
        assert names[i] != names[j];
      }
    }
  }

  lemma WinVNamesDistinct()
    ensures Distinct(WinVNames)
  {
    var names := WinVNames;
    forall i, j | 0 <= i < j < |names| ensures names[i] != names[j] {
      if |names[i]| == |names[j]| {
        assert names[i] != names[j];
      }
    }
  }

  lemma WinConfigureNamesDistinct()
    ensures Distinct(WinConfigureNames)
  {
    var names := WinConfigureNames;
    forall i, j | 0 <= i < j < |names| ensures names[i] != names[j] {
      if |names[i]| == |names[j]| {
        assert names[i] != names[j];
      }
    }
  }

  /** `GCVField`: the CreateGC / ChangeGC value list, all default-typed. */
  const GCVFields: Schema := (GCVNamesDistinct(); Untyped(GCVNames))

  /** `WinVField`: the CreateWindow / ChangeWindowAttributes value list. */
  const WinVFields: Schema := (WinVNamesDistinct(); Typed(WinVNames, WinVTypes))

  /** `WinConfigureField`: the ConfigureWindow value list, all default-typed. */
  const WinConfigureFields: Schema := (WinConfigureNamesDistinct(); Untyped(WinConfigureNames))

  /**
   * The window-attribute value list as the X11 protocol lays it out: every
   * value, whatever its type, occupies one 4-byte slot.
   */
  const WinVFieldsX11: Schema := (WinVNamesDistinct(); Untyped(WinVNames))

  /** Every GC field is 4 bytes wide. */
  lemma GCVFieldsShape()
    ensures |GCVFields| == 23
    ensures forall f :: f in GCVFields ==> FieldWidth(f) == 4
  {
  }

  /** Every ConfigureWindow field is 4 bytes wide. */
  lemma WinConfigureFieldsShape()
    ensures |WinConfigureFields| == 7
    ensures forall f :: f in WinConfigureFields ==> FieldWidth(f) == 4
  {
  }

  /** Every window-attribute slot is 4 bytes wide. */
  lemma WinVFieldsX11Shape()
    ensures |WinVFieldsX11| == 15
    ensures forall f :: f in WinVFieldsX11 ==> FieldWidth(f) == 4
  {
  }

  /** Window-attribute fields are 1 or 4 bytes wide. */
  lemma WinVFieldsShape()
    ensures |WinVFields| == 15
    ensures forall f :: f in WinVFields ==> FieldWidth(f) == 1 || FieldWidth(f) == 4
  {
  }
}
