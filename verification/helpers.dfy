/** The converters that turn attribute value strings into typed values, and
    the integer min/max helpers (core/dom/helpers.go). Every converter fails
    soft: text it does not recognise yields the type's zero value. */
module Helpers {
  import opened Kinds
  import opened Wrappers
  import Decimal

  // ------------------------------------------------------------------
  // Primitive converters
  // ------------------------------------------------------------------

  /** stringToInt: strconv.Atoi with the error dropped. */
  function StringToInt(s: string): (r: int)
    ensures Decimal.MinInt64 <= r <= Decimal.MaxInt64
    ensures !Decimal.WellFormed(s) && !Decimal.Overflows(s) ==> r == 0
    ensures Decimal.Overflows(s) ==> r == if |s| >= 1 && s[0] == '-' then Decimal.MinInt64 else Decimal.MaxInt64
    ensures Decimal.WellFormed(s) && Decimal.MinInt64 <= Decimal.SignedValue(s) <= Decimal.MaxInt64 ==>
              r == Decimal.SignedValue(s)
    ensures Decimal.WellFormed(s) && Decimal.SignedValue(s) > Decimal.MaxInt64 ==> r == Decimal.MaxInt64
    ensures Decimal.WellFormed(s) && Decimal.SignedValue(s) < Decimal.MinInt64 ==> r == Decimal.MinInt64
  {
    Decimal.Atoi(s)
  }

  /** strconv.ParseBool: the spellings it accepts and what they mean. */
  function ParseBool(s: string): Option<bool>
  {
    if s == "1" || s == "t" || s == "T" || s == "TRUE" || s == "true" || s == "True" then Some(true)
    else if s == "0" || s == "f" || s == "F" || s == "FALSE" || s == "false" || s == "False" then Some(false)
    else None
  }

  const TrueSpellings: set<string> := {"1", "t", "T", "TRUE", "true", "True"}

  /** stringToBool: ParseBool's value, false when ParseBool fails. */
  function StringToBool(s: string): (b: bool)
    ensures b <==> s in TrueSpellings
  {
    match ParseBool(s)
    case Some(v) => v
    case None => false
  }

  /** stringToUint8: the int conversion truncated to its low 8 bits, which for
      Go's two's-complement ints is the residue modulo 256. */
  function StringToUint8(s: string): (r: uint8)
    ensures (r - StringToInt(s)) % 256 == 0
  {
    StringToInt(s) % 256
  }

  // ------------------------------------------------------------------
  // Attribute list
  // ------------------------------------------------------------------

  /** rawAttrsToAttibuteList: the markup reader's pairs, one RawAttribute each,
      in the same order. */
  function RawAttrsToAttributeList(attrs: seq<(string, string)>): (list: seq<RawAttribute>)
    ensures |list| == |attrs|
    ensures forall i :: 0 <= i < |attrs| ==> list[i].name == attrs[i].0 && list[i].value == attrs[i].1
  {
    if attrs == [] then []
    else [RawAttribute(attrs[0].0, attrs[0].1)] + RawAttrsToAttributeList(attrs[1..])
  }

  // ------------------------------------------------------------------
  // Enumeration converters
  // ------------------------------------------------------------------

  function StringToDisplay(s: string): (d: Display)
    ensures d == Flex <==> s == "flex"
    ensures d == Absolute <==> s == "absolute"
  {
    if s == "block" then Block
    else if s == "flex" then Flex
    else if s == "absolute" then Absolute
    else Block
  }

  function StringToFlexDirection(s: string): (d: FlexDirection)
    ensures d == RowReverse <==> s == "row-reverse"
    ensures d == Column <==> s == "column"
    ensures d == ColumnReverse <==> s == "column-reverse"
  {
    if s == "row" then Row
    else if s == "row-reverse" then RowReverse
    else if s == "column" then Column
    else if s == "column-reverse" then ColumnReverse
    else Row
  }

  function StringToTextAlign(s: string): (a: TextAlign)
    ensures a == Center <==> s == "center"
    ensures a == Right <==> s == "right"
  {
    if s == "left" then Left
    else if s == "center" then Center
    else if s == "right" then Right
    else Left
  }

  function StringToTextDecoration(s: string): (d: TextDecoration)
    ensures d == Underline <==> s == "underline"
    ensures d == LineThrough <==> s == "line-through"
  {
    if s == "none" then NoDecoration
    else if s == "underline" then Underline
    else if s == "line-through" then LineThrough
    else NoDecoration
  }

  function StringToPosition(s: string): (p: Position)
    ensures p == AbsolutePosition <==> s == "absolute"
  {
    if s == "relative" then Relative
    else if s == "absolute" then AbsolutePosition
    else Relative
  }

  function StringToInputType(s: string): (t: InputType)
    ensures t == Password <==> s == "password"
    ensures t == Email <==> s == "email"
    ensures t == Number <==> s == "number"
    ensures t == Tel <==> s == "tel"
    ensures t == URL <==> s == "url"
  {
    if s == "text" then Text
    else if s == "password" then Password
    else if s == "email" then Email
    else if s == "number" then Number
    else if s == "tel" then Tel
    else if s == "url" then URL
    else Text
  }

  /** stringToOverflow, which AddRaw calls for the overflow attribute. Its
      body is not part of this model; this definition follows the pattern
      of the converters above: the name of a constant gives that constant,
      and any other text gives the zero constant Hidden. */
  function StringToOverflow(s: string): (o: Overflow)
    ensures o == Scroll <==> s == "scroll"
  {
    if s == "hidden" then Hidden
    else if s == "scroll" then Scroll
    else Hidden
  }

  // ------------------------------------------------------------------
  // The names the converters recognise
  // ------------------------------------------------------------------

  function DisplayName(d: Display): string
  {
    match d
    case Block => "block"
    case Flex => "flex"
    case Absolute => "absolute"
  }

  function FlexDirectionName(d: FlexDirection): string
  {
    match d
    case Row => "row"
    case RowReverse => "row-reverse"
    case Column => "column"
    case ColumnReverse => "column-reverse"
  }

  function TextAlignName(a: TextAlign): string
  {
    match a
    case Left => "left"
    case Center => "center"
    case Right => "right"
  }

  function TextDecorationName(d: TextDecoration): string
  {
    match d
    case NoDecoration => "none"
    case Underline => "underline"
    case LineThrough => "line-through"
  }

  function PositionName(p: Position): string
  {
    match p
    case Relative => "relative"
    case AbsolutePosition => "absolute"
  }

  function InputTypeName(t: InputType): string
  {
    match t
    case Text => "text"
    case Password => "password"
    case Number => "number"
    case Email => "email"
    case Tel => "tel"
    case URL => "url"
  }

  function OverflowName(o: Overflow): string
  {
    match o
    case Hidden => "hidden"
    case Scroll => "scroll"
  }

  /** Every constant is recognised under its own name: each converter is a
      left inverse of the naming. */
  lemma ConvertersReadNames(d: Display, f: FlexDirection, a: TextAlign, td: TextDecoration,
                            p: Position, t: InputType, o: Overflow)
    ensures StringToDisplay(DisplayName(d)) == d
    ensures StringToFlexDirection(FlexDirectionName(f)) == f
    ensures StringToTextAlign(TextAlignName(a)) == a
    ensures StringToTextDecoration(TextDecorationName(td)) == td
    ensures StringToPosition(PositionName(p)) == p
    ensures StringToInputType(InputTypeName(t)) == t
    ensures StringToOverflow(OverflowName(o)) == o
  {
  }

  /** Text that names no constant falls back to the zero constant. */
  lemma UnknownNamesFallBack(s: string)
    ensures (forall d :: s != DisplayName(d)) ==> StringToDisplay(s) == Block
    ensures (forall f :: s != FlexDirectionName(f)) ==> StringToFlexDirection(s) == Row
    ensures (forall a :: s != TextAlignName(a)) ==> StringToTextAlign(s) == Left
    ensures (forall td :: s != TextDecorationName(td)) ==> StringToTextDecoration(s) == NoDecoration
    ensures (forall p :: s != PositionName(p)) ==> StringToPosition(s) == Relative
    ensures (forall t :: s != InputTypeName(t)) ==> StringToInputType(s) == Text
    ensures (forall o :: s != OverflowName(o)) ==> StringToOverflow(s) == Hidden
  {
    var names := [DisplayName(Flex), DisplayName(Absolute), OverflowName(Scroll), FlexDirectionName(RowReverse), FlexDirectionName(Column), FlexDirectionName(ColumnReverse),
                  TextAlignName(Center), TextAlignName(Right),
                  TextDecorationName(Underline), TextDecorationName(LineThrough),
                  PositionName(AbsolutePosition),
                  InputTypeName(Password), InputTypeName(Number), InputTypeName(Email),
                  InputTypeName(Tel), InputTypeName(URL)];
    assert names == ["flex", "absolute", "scroll", "row-reverse", "column", "column-reverse", "center", "right", "underline",
                     "line-through", "absolute", "password", "number", "email", "tel", "url"];
  }

  // ------------------------------------------------------------------
  // Math helpers
  // ------------------------------------------------------------------

  function Max(a: int, b: int): (m: int)
    ensures m >= a && m >= b
    ensures m == a || m == b
  {
    if a > b then a else b
  }

  function Min(a: int, b: int): (m: int)
    ensures m <= a && m <= b
    ensures m == a || m == b
  {
    if a < b then a else b
  }
}
