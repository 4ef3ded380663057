/** The attribute record of an element and the way raw (name, value) pairs
    are folded into it (core/dom/attribute.go). Every element owns its record
    exclusively, so the pointer-receiver updates of the source are modelled as
    functions from the old record to the new one. */
module Attribute {
  import opened Kinds
  import opened Wrappers
  import opened Helpers

  datatype Attributes = Attributes(
    display: Display,
    position: Position,
    flex: int,
    focusable: bool,
    flexDirection: FlexDirection,
    color: int,
    backGroundColor: int,
    width: int,
    maxWidth: int,
    minWidth: int,
    height: int,
    maxHeight: int,
    minHeight: int,
    border: bool,
    vCenter: bool,
    hCenter: bool,
    top: int,
    left: int,
    id: string,
    textAlign: TextAlign,
    writable: bool,
    textType: InputType,
    zIndex: uint8,
    overflow: Overflow)

  /** The Go zero value of the record: every enumeration at its first
      constant, every number 0, every flag false, the id empty. */
  const Zero: Attributes :=
    Attributes(Block, Relative, 0, false, Row, 0, 0, 0, 0, 0, 0, 0, 0,
               false, false, false, 0, 0, "", Left, false, Text, 0, Hidden)

  // ------------------------------------------------------------------
  // Field names
  // ------------------------------------------------------------------

  /** The recognised attribute names, one per field of the record. */
  datatype AttrName =
    | AttrDisplay | AttrPosition | AttrFlex | AttrFlexDirection | AttrFocusable
    | AttrColor | AttrBackGroundColor | AttrWidth | AttrMaxWidth | AttrMinWidth
    | AttrHeight | AttrMaxHeight | AttrMinHeight | AttrBorder | AttrVCenter
    | AttrHCenter | AttrTop | AttrLeft | AttrID | AttrTextAlign | AttrWritable
    | AttrTextType | AttrZIndex | AttrOverflow

  /** The markup spelling of each name. */
  function NameOf(n: AttrName): string
  {
    match n
    case AttrDisplay => "display"
    case AttrPosition => "position"
    case AttrFlex => "flex"
    case AttrFlexDirection => "flex-direction"
    case AttrFocusable => "focusable"
    case AttrColor => "color"
    case AttrBackGroundColor => "background-color"
    case AttrWidth => "width"
    case AttrMaxWidth => "max-width"
    case AttrMinWidth => "min-width"
    case AttrHeight => "height"
    case AttrMaxHeight => "max-height"
    case AttrMinHeight => "min-height"
    case AttrBorder => "border"
    case AttrVCenter => "vcenter"
    case AttrHCenter => "hcenter"
    case AttrTop => "top"
    case AttrLeft => "left"
    case AttrID => "id"
    case AttrTextAlign => "text-align"
    case AttrWritable => "writable"
    case AttrTextType => "text-type"
    case AttrZIndex => "z-index"
    case AttrOverflow => "overflow"
  }

  /** The name a markup attribute selects, if any: the switch of AddRaw. */
  function Lookup(s: string): (r: Option<AttrName>)
    ensures r.Some? ==> NameOf(r.value) == s
  {
    match s
    case "display" => Some(AttrDisplay)
    case "position" => Some(AttrPosition)
    case "flex" => Some(AttrFlex)
    case "flex-direction" => Some(AttrFlexDirection)
    case "focusable" => Some(AttrFocusable)
    case "color" => Some(AttrColor)
    case "background-color" => Some(AttrBackGroundColor)
    case "width" => Some(AttrWidth)
    case "max-width" => Some(AttrMaxWidth)
    case "min-width" => Some(AttrMinWidth)
    case "height" => Some(AttrHeight)
    case "max-height" => Some(AttrMaxHeight)
    case "min-height" => Some(AttrMinHeight)
    case "border" => Some(AttrBorder)
    case "vcenter" => Some(AttrVCenter)
    case "hcenter" => Some(AttrHCenter)
    case "top" => Some(AttrTop)
    case "left" => Some(AttrLeft)
    case "id" => Some(AttrID)
    case "text-align" => Some(AttrTextAlign)
    case "writable" => Some(AttrWritable)
    case "text-type" => Some(AttrTextType)
    case "z-index" => Some(AttrZIndex)
    case "overflow" => Some(AttrOverflow)
    case _ => None
  }

  /** Every name is found under its own spelling, so the spellings are
      pairwise distinct and Lookup is a bijection onto them. */
  lemma LookupNameOf(n: AttrName)
    ensures Lookup(NameOf(n)) == Some(n)
  {
    match n
    case AttrDisplay =>
    case AttrPosition =>
    case AttrFlex =>
    case AttrFlexDirection =>
    case AttrFocusable =>
    case AttrColor =>
    case AttrBackGroundColor =>
    case AttrWidth =>
    case AttrMaxWidth =>
    case AttrMinWidth =>
    case AttrHeight =>
    case AttrMaxHeight =>
    case AttrMinHeight =>
    case AttrBorder =>
    case AttrVCenter =>
    case AttrHCenter =>
    case AttrTop =>
    case AttrLeft =>
    case AttrID =>
    case AttrTextAlign =>
    case AttrWritable =>
    case AttrTextType =>
    case AttrZIndex =>
    case AttrOverflow =>
  }

  // ------------------------------------------------------------------
  // Field access
  // ------------------------------------------------------------------

  /** The value of one field, tagged with its type. */
  datatype FieldValue =
    | DisplayValue(d: Display)
    | PositionValue(p: Position)
    | IntValue(i: int)
    | BoolValue(b: bool)
    | DirectionValue(fd: FlexDirection)
    | StringValue(s: string)
    | AlignValue(ta: TextAlign)
    | InputTypeValue(it: InputType)
    | Uint8Value(u: uint8)
    | OverflowValue(o: Overflow)

  /** Projection of the record onto one named field. */
  function Get(a: Attributes, n: AttrName): FieldValue
  {
    match n
    case AttrDisplay => DisplayValue(a.display)
    case AttrPosition => PositionValue(a.position)
    case AttrFlex => IntValue(a.flex)
    case AttrFlexDirection => DirectionValue(a.flexDirection)
    case AttrFocusable => BoolValue(a.focusable)
    case AttrColor => IntValue(a.color)
    case AttrBackGroundColor => IntValue(a.backGroundColor)
    case AttrWidth => IntValue(a.width)
    case AttrMaxWidth => IntValue(a.maxWidth)
    case AttrMinWidth => IntValue(a.minWidth)
    case AttrHeight => IntValue(a.height)
    case AttrMaxHeight => IntValue(a.maxHeight)
    case AttrMinHeight => IntValue(a.minHeight)
    case AttrBorder => BoolValue(a.border)
    case AttrVCenter => BoolValue(a.vCenter)
    case AttrHCenter => BoolValue(a.hCenter)
    case AttrTop => IntValue(a.top)
    case AttrLeft => IntValue(a.left)
    case AttrID => StringValue(a.id)
    case AttrTextAlign => AlignValue(a.textAlign)
    case AttrWritable => BoolValue(a.writable)
    case AttrTextType => InputTypeValue(a.textType)
    case AttrZIndex => Uint8Value(a.zIndex)
    case AttrOverflow => OverflowValue(a.overflow)
  }

  // ------------------------------------------------------------------
  // Adding one raw attribute
  // ------------------------------------------------------------------

  /** What the value text of an attribute decodes to: each field's own
      converter, the id taken verbatim. */
  function Decode(n: AttrName, value: string): FieldValue
  {
    match n
    case AttrDisplay => DisplayValue(StringToDisplay(value))
    case AttrPosition => PositionValue(StringToPosition(value))
    case AttrFlexDirection => DirectionValue(StringToFlexDirection(value))
    case AttrFocusable => BoolValue(StringToBool(value))
    case AttrBorder => BoolValue(StringToBool(value))
    case AttrVCenter => BoolValue(StringToBool(value))
    case AttrHCenter => BoolValue(StringToBool(value))
    case AttrWritable => BoolValue(StringToBool(value))
    case AttrID => StringValue(value)
    case AttrTextAlign => AlignValue(StringToTextAlign(value))
    case AttrTextType => InputTypeValue(StringToInputType(value))
    case AttrZIndex => Uint8Value(StringToUint8(value))
    case AttrOverflow => OverflowValue(StringToOverflow(value))
    case _ => IntValue(StringToInt(value))
  }

  /** The arms of the switch: the named field takes the decoded value, every
      other field keeps its own. */
  function Assign(a: Attributes, n: AttrName, value: string): Attributes
  {
    Attributes(
      if n == AttrDisplay then StringToDisplay(value) else a.display,
      if n == AttrPosition then StringToPosition(value) else a.position,
      if n == AttrFlex then StringToInt(value) else a.flex,
      if n == AttrFocusable then StringToBool(value) else a.focusable,
      if n == AttrFlexDirection then StringToFlexDirection(value) else a.flexDirection,
      if n == AttrColor then StringToInt(value) else a.color,
      if n == AttrBackGroundColor then StringToInt(value) else a.backGroundColor,
      if n == AttrWidth then StringToInt(value) else a.width,
      if n == AttrMaxWidth then StringToInt(value) else a.maxWidth,
      if n == AttrMinWidth then StringToInt(value) else a.minWidth,
      if n == AttrHeight then StringToInt(value) else a.height,
      if n == AttrMaxHeight then StringToInt(value) else a.maxHeight,
      if n == AttrMinHeight then StringToInt(value) else a.minHeight,
      if n == AttrBorder then StringToBool(value) else a.border,
      if n == AttrVCenter then StringToBool(value) else a.vCenter,
      if n == AttrHCenter then StringToBool(value) else a.hCenter,
      if n == AttrTop then StringToInt(value) else a.top,
      if n == AttrLeft then StringToInt(value) else a.left,
      if n == AttrID then value else a.id,
      if n == AttrTextAlign then StringToTextAlign(value) else a.textAlign,
      if n == AttrWritable then StringToBool(value) else a.writable,
      if n == AttrTextType then StringToInputType(value) else a.textType,
      if n == AttrZIndex then StringToUint8(value) else a.zIndex,
      if n == AttrOverflow then StringToOverflow(value) else a.overflow)
  }

  /** AddRaw: an unrecognised name is ignored; a recognised one stores its
      decoded value. */
  function AddRaw(a: Attributes, attr: string, value: string): (r: Attributes)
    ensures Lookup(attr) == None ==> r == a
    ensures Lookup(attr).Some? ==> Get(r, Lookup(attr).value) == Decode(Lookup(attr).value, value)
  {
    match Lookup(attr)
    case None => a
    case Some(n) => Assign(a, n, value)
  }

  /** A recognised name changes exactly its own field: every other field
      reads as before. */
  lemma AddRawChangesOneField(a: Attributes, n: AttrName, value: string, f: AttrName)
    ensures Get(AddRaw(a, NameOf(n), value), f) == if f == n then Decode(n, value) else Get(a, f)
  {
    LookupNameOf(n);
    AssignOneField(a, n, value, f);
  }

  /** Assign changes the named field and no other. */
  lemma AssignOneField(a: Attributes, n: AttrName, value: string, f: AttrName)
    ensures Get(Assign(a, n, value), f) == if f == n then Decode(n, value) else Get(a, f)
  {
    if f == n {
      match n
        case AttrDisplay =>
        case AttrPosition =>
        case AttrFlex =>
        case AttrFlexDirection =>
        case AttrFocusable =>
        case AttrColor =>
        case AttrBackGroundColor =>
        case AttrWidth =>
        case AttrMaxWidth =>
        case AttrMinWidth =>
        case AttrHeight =>
        case AttrMaxHeight =>
        case AttrMinHeight =>
        case AttrBorder =>
        case AttrVCenter =>
        case AttrHCenter =>
        case AttrTop =>
        case AttrLeft =>
        case AttrID =>
        case AttrTextAlign =>
        case AttrWritable =>
        case AttrTextType =>
        case AttrZIndex =>
        case AttrOverflow =>
    } else {
      match f
        case AttrDisplay =>
        case AttrPosition =>
        case AttrFlex =>
        case AttrFlexDirection =>
        case AttrFocusable =>
        case AttrColor =>
        case AttrBackGroundColor =>
        case AttrWidth =>
        case AttrMaxWidth =>
        case AttrMinWidth =>
        case AttrHeight =>
        case AttrMaxHeight =>
        case AttrMinHeight =>
        case AttrBorder =>
        case AttrVCenter =>
        case AttrHCenter =>
        case AttrTop =>
        case AttrLeft =>
        case AttrID =>
        case AttrTextAlign =>
        case AttrWritable =>
        case AttrTextType =>
        case AttrZIndex =>
        case AttrOverflow =>
    }
  }

  // ------------------------------------------------------------------
  // Parsing a list of raw attributes
  // ------------------------------------------------------------------

  /** The record after applying the pairs in order. */
  function ParseAll(a: Attributes, raw: seq<RawAttribute>): Attributes
  {
    if raw == [] then a
    else AddRaw(ParseAll(a, raw[..|raw| - 1]), raw[|raw| - 1].name, raw[|raw| - 1].value)
  }

  /** The index of the last pair with the given name, -1 when there is
      none. */
  function LastIndex(raw: seq<RawAttribute>, name: string): (k: int)
    ensures -1 <= k < |raw| && (k >= 0 ==> raw[k].name == name)
    ensures forall j :: k < j < |raw| ==> raw[j].name != name
  {
    if raw == [] then -1
    else if raw[|raw| - 1].name == name then |raw| - 1
    else
      var k := LastIndex(raw[..|raw| - 1], name);
      assert forall j :: k < j < |raw| - 1 ==> raw[..|raw| - 1][j] == raw[j];
      k
  }

  /** The value of the last pair with the given name, if there is one. */
  function LastValue(raw: seq<RawAttribute>, name: string): (v: Option<string>)
    ensures v.None? <==> forall i :: 0 <= i < |raw| ==> raw[i].name != name
    ensures v.Some? ==> exists i :: 0 <= i < |raw| && raw[i] == RawAttribute(name, v.value) &&
                                    forall j :: i < j < |raw| ==> raw[j].name != name
  {
    var k := LastIndex(raw, name);
    if k < 0 then None
    else
      assert raw[k] == RawAttribute(name, raw[k].value);
      Some(raw[k].value)
  }

  /** Parse: the attributes are applied one after the other, in list order. */
  method Parse(a: Attributes, raw: seq<RawAttribute>) returns (r: Attributes)
    ensures r == ParseAll(a, raw)
  {
    r := a;
    var i := 0;
    while i < |raw|
      invariant 0 <= i <= |raw|
      invariant r == ParseAll(a, raw[..i])
    {
      assert raw[..i + 1][..i] == raw[..i];
      r := AddRaw(r, raw[i].name, raw[i].value);
      i := i + 1;
    }
    assert raw[..|raw|] == raw;
  }

  /** Every field ends up with the value of the last pair naming it, and a
      field no pair names keeps its value: the last duplicate wins. */
  lemma {:induction false} ParseLastWins(a: Attributes, raw: seq<RawAttribute>, n: AttrName)
    ensures Get(ParseAll(a, raw), n) ==
            match LastValue(raw, NameOf(n))
            case None => Get(a, n)
            case Some(v) => Decode(n, v)
  {
    if raw != [] {
      var init := raw[..|raw| - 1];
      var last := raw[|raw| - 1];
      var p := ParseAll(a, init);
      assert ParseAll(a, raw) == AddRaw(p, last.name, last.value);
      if last.name == NameOf(n) {
        LookupNameOf(n);
        assert LastValue(raw, NameOf(n)) == Some(last.value);
      } else {
        assert LastValue(raw, NameOf(n)) == LastValue(init, NameOf(n));
        ParseLastWins(a, init, n);
        if Lookup(last.name).Some? {
          var m := Lookup(last.name).value;
          AddRawChangesOneField(p, m, last.value, n);
        }
      }
    }
  }

  /** The record of the "multiple with invalid" case: id stored verbatim,
      display block, the invalid position left at its zero value. */
  lemma ParseExample()
    ensures ParseAll(Zero, [RawAttribute("id", "saman"), RawAttribute("display", "block"),
                            RawAttribute("position", "invalid")]) == Zero.(id := "saman")
  {
    var raw := [RawAttribute("id", "saman"), RawAttribute("display", "block"),
                RawAttribute("position", "invalid")];
    var a1 := Zero.(id := "saman");
    assert raw[..1][..0] == [];
    assert AddRaw(Zero, "id", "saman") == Assign(Zero, AttrID, "saman");
    assert ParseAll(Zero, raw[..1]) == a1;
    assert raw[..2][..1] == raw[..1];
    assert AddRaw(a1, "display", "block") == Assign(a1, AttrDisplay, "block");
    assert ParseAll(Zero, raw[..2]) == a1;
    assert raw[..3][..2] == raw[..2];
    assert AddRaw(a1, "position", "invalid") == Assign(a1, AttrPosition, "invalid");
    assert ParseAll(Zero, raw) == AddRaw(a1, "position", "invalid") == a1;
  }

  // ------------------------------------------------------------------
  // Inheritance
  // ------------------------------------------------------------------

  /** The fields a child takes over from its parent. */
  const Inherited: set<AttrName> := {AttrColor, AttrBackGroundColor}

  /** InheritFrom: the colours come from the parent, every other field stays. */
  function InheritFrom(a: Attributes, parent: Attributes): (r: Attributes)
    ensures forall n :: Get(r, n) == if n in Inherited then Get(parent, n) else Get(a, n)
  {
    a.(color := parent.color, backGroundColor := parent.backGroundColor)
  }

  /** Inheriting overwrites: only the last parent's colours count, and a
      parent contributes nothing but its colours. */
  lemma InheritFromOverwrites(a: Attributes, b: Attributes, p: Attributes, q: Attributes)
    ensures InheritFrom(InheritFrom(a, p), q) == InheritFrom(a, q)
    ensures InheritFrom(a, InheritFrom(b, p)) == InheritFrom(a, p)
  {
  }

  // ------------------------------------------------------------------
  // Construction with options
  // ------------------------------------------------------------------

  /** An option rewrites a record. */
  type AttributesOpt = Attributes -> Attributes

  /** The options applied left to right. */
  function ApplyOpts(a: Attributes, opts: seq<AttributesOpt>): Attributes
    decreases |opts|
  {
    if opts == [] then a else ApplyOpts(opts[0](a), opts[1..])
  }

  /** NewAttributes: start from the zero record and apply every option. */
  method NewAttributes(opts: seq<AttributesOpt>) returns (a: Attributes)
    ensures a == ApplyOpts(Zero, opts)
    ensures opts == [] ==> a == Zero
  {
    a := Zero;
    var i := 0;
    while i < |opts|
      invariant 0 <= i <= |opts|
      invariant ApplyOpts(a, opts[i..]) == ApplyOpts(Zero, opts)
    {
      assert opts[i..][1..] == opts[i + 1..];
      a := opts[i](a);
      i := i + 1;
    }
  }

  /** Applying two batches of options is applying their concatenation. */
  lemma {:induction false} ApplyOptsAppend(a: Attributes, opts1: seq<AttributesOpt>, opts2: seq<AttributesOpt>)
    ensures ApplyOpts(a, opts1 + opts2) == ApplyOpts(ApplyOpts(a, opts1), opts2)
    decreases |opts1|
  {
    if opts1 != [] {
      assert (opts1 + opts2)[1..] == opts1[1..] + opts2;
      ApplyOptsAppend(opts1[0](a), opts1[1..], opts2);
    } else {
      assert opts1 + opts2 == opts2;
    }
  }

  /** The fixed record of WithDefaultAttributes: the zero record with a flex
      share of 1. */
  const Defaults: Attributes := Zero.(flex := 1)

  /** WithDefaultAttributes: an option that discards its input. */
  function WithDefaultAttributes(): (opt: AttributesOpt)
    ensures forall a :: opt(a) == Defaults
  {
    _ => Defaults
  }

  /** A default option wipes out every option before it. */
  lemma DefaultsOverrideEarlierOptions(a: Attributes, opts: seq<AttributesOpt>)
    ensures ApplyOpts(a, opts + [WithDefaultAttributes()]) == Defaults
  {
    ApplyOptsAppend(a, opts, [WithDefaultAttributes()]);
  }
}
