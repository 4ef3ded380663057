/** The enumerations of the attribute model (Go uint8 constants numbered with
    iota, so the first constructor of each is the zero value). */
module Kinds {

  datatype Display = Block | Flex | Absolute

  datatype Position = Relative | AbsolutePosition

  datatype InputType = Text | Password | Number | Email | Tel | URL

  datatype TextAlign = Left | Center | Right

  datatype FlexDirection = Row | RowReverse | Column | ColumnReverse

  datatype TextDecoration = NoDecoration | Underline | LineThrough

  datatype Overflow = Hidden | Scroll

  /** One (name, value) pair as the markup reader delivers it. */
  datatype RawAttribute = RawAttribute(name: string, value: string)

  /** Go's uint8. */
  type uint8 = x: int | 0 <= x < 256
}
