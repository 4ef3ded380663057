# samtui core in Dafny

This project models the sequential core of samtui, a terminal UI engine
written in Go. It covers the following parts:

- **Elements.** An element tree (`dom.Element`) carries typed attributes
  parsed from markup and a rectangle (`Boundry`) on the screen.
- **Screen.** A frame buffer (`View`) is a grid of cells. Every paint goes
  through a z-index gate.
- **Render stack.** This queue holds the elements waiting to be painted
  again. A push moves an element to the front, and a pop takes from the back.
- **Engine.** The engine keeps an index of elements by id. It edits the tree
  through `ElementUpdater`. Its render loop pops each waiting element and
  paints it with the layout of its display: flex, block or absolute.
- **Layouts.** A flex layout plans the children's rectangles with a
  `RenderMan` flag table. Block and absolute layouts paint the element's
  base, border and text.
- **Terminal layer.** This covers input events, the Unix key parser, and the
  escape sequences for colours (SGR, section 8.3.117 of ECMA-48) and for the
  cursor position (CUP, section 8.3.21 of ECMA-48).

The model follows the source's own form:

- **Pure code** becomes functions and lemmas. This covers rectangles,
  attribute conversion, events, the parser and the escape-sequence builders.
- **Objects updated in place** become classes:
  - `Element.Tree`, an arena of nodes keyed by handle, whose child lists are
    spliced in place;
  - `Element.ElementState`;
  - `Screen.View`, a grid of cells;
  - `RenderStacks.RenderStack`;
  - `Flags.RenderMan`;
  - `Engine.Engine`.
- **Loops** become methods. Each one is proved against a function that
  states what the loop computes:
  - the painting loops of the view and of the layout helpers;
  - the flex passes;
  - the id indexing;
  - the render drain.
- **Pointer-receiver updates of a value record** become the record
  reassigned. This applies to `Attributes.AddRaw`, `Attributes.InheritFrom`
  and `Cell.Flush`.

Go pointers to elements become handles into the arena. A ghost rank on
every element keeps the tree acyclic, which is what lets recursion over it
terminate. The float32 flex-share arithmetic is a parameter `ext` of the
layouts. Every property about flex layout holds whatever that function
returns.

## Model

| member | source | states |
|---|---|---|
| Geometry.NewBoundry | core/dom/element.go:101-108 | the four edges are the four arguments, in the order FirstX, FirstY, SecondX, SecondY |
| Geometry.Indexify | core/dom/element.go:110-114 | the first edges stay and width and height each drop by one |
| Geometry.IndexifyKeepsFirstEdges | core/dom/element.go:110-114 | Indexify is exactly the rectangle with both second edges one less |
| Geometry.Normalize | core/dom/element.go:116-124 | afterwards both first edges are at least 1, positive first edges and both second edges are kept |
| Geometry.NormalizeIdempotent | core/dom/element.go:116-124 | normalizing twice is normalizing once |
| Geometry.Shrink | core/dom/element.go:126-132 | the first edges move in by n and width and height lose 2n |
| Geometry.Inflate | core/dom/element.go:159-165 | the first edges move out by n and width and height gain 2n |
| Geometry.InflateUndoesShrink | core/dom/element.go:126-165 | Inflate(n) undoes Shrink(n) and Shrink(n) undoes Inflate(n), for every n |
| Geometry.ShrinkMask | core/dom/element.go:134-148 | each edge moves inward by n exactly when its mask bit is set |
| Geometry.InflateMask | core/dom/element.go:167-181 | each edge moves outward by n exactly when its mask bit is set |
| Geometry.InflateMaskUndoesShrinkMask | core/dom/element.go:134-181 | the masked operations with the same mask undo each other |
| Geometry.ShrinkMaskAllIsShrink | core/dom/element.go:126-181 | with all four edge bits the masked operations are Shrink and Inflate |
| Geometry.ShrinkMaskSingleEdges | core/dom/element.go:134-157 | each single-bit mask (Top, Bottom, Left, Right) moves its own edge and leaves the other three |
| Geometry.ShrinkMaskNoEdges | core/dom/element.go:134-148 | a mask with none of the four edge bits changes nothing |
| Geometry.CircumscribesIrreflexive | core/dom/element.go:195-200 | no rectangle circumscribes itself |
| Geometry.CircumscribesTransitive | core/dom/element.go:195-200 | strict containment is transitive |
| Geometry.CircumscribesContains | core/dom/element.go:195-209 | strict containment implies edge-wise containment |
| Geometry.Sum | core/dom/element.go:202-209 | the sum contains both operands and lies inside every rectangle that contains both (least upper bound) |
| Geometry.SumCommutative | core/dom/element.go:202-209 | Sum is commutative |
| Geometry.SumAssociative | core/dom/element.go:202-209 | Sum is associative |
| Geometry.SumIdempotent | core/dom/element.go:202-209 | the sum of a rectangle with itself is that rectangle |
| Geometry.SumKeepsContained | core/dom/element.go:202-209 | whatever the accumulator contains, its sum with another rectangle still contains |
| Geometry.ContainsTransitive | core/dom/element.go:202-209 | edge-wise containment, the order Sum is the least upper bound in, is transitive |
| Geometry.ToString | core/dom/element.go:191-193 | the text starts with "Boundry: (" and ends with ')' |
| Geometry.ReadBoundryToString | core/dom/element.go:191-193 | the text carries the rectangle: reading "Boundry: (FirstX,FirstY) (SecondX,SecondY)" back gives the four edges in that order, for every rectangle with int64 edges |
| Element.ElementState.constructor | core/dom/element.go:216-218 | both scroll offsets start at 0 |
| Element.ElementState.ScrollTo | core/dom/element.go:220-223 | the offsets are overwritten with the arguments |
| Element.ElementState.ScrollBy | core/dom/element.go:225-228 | the arguments are added to the offsets |
| Element.Tree.NewElement | core/dom/element.go:21-29 | a fresh element with the name, no children, no parent, zero attributes, the rectangle (-1,-1,-1,-1) and zero scroll offsets; no other element changes and the tree stays acyclic |
| Element.Tree.AppendChild | core/dom/element.go:83-85 | the child goes to the end of the parent's children, every other list and every node unchanged, the tree still acyclic |
| Element.Tree.InheritChildrensAttr | core/dom/element.go:87-92 | exactly the strict descendants take the receiver's Color and BackGroundColor (other fields kept), and the receiver itself is unchanged |
| Element.Tree.PassDown | core/dom/element.go:88-91 | one turn of the loop: the child and everything below it take the receiver's colours |
| Element.HandDown | core/dom/element.go:87-92 | a child inheriting from its parent and then handing down equals its whole subtree inheriting the parent's colours |
| Element.RecolouredTwice | core/dom/element.go:87-92 | recolouring two sets with the same colours is recolouring their union |
| Element.NotOwnDescendant | core/dom/element.go:87-92 | no element is among its own descendants, so the recursion never revisits the receiver |
| Element.Tree.SetParent | core/engine/engine.go:252 | only the child's Parent link changes |
| Element.Tree.PrependChild | core/engine/engine.go:275 | the child goes to the front of the parent's children, everything else unchanged |
| Element.Tree.RemoveChildAt | core/engine/engine.go:286 | position i is spliced out of the parent's children, the others keep their order |
| Element.Tree.SetBoundry | core/engine/layouts.go:229 | only that element's rectangle changes |
| Attribute.Lookup | core/dom/attribute.go:187-212 | a recognised attribute name is the spelling of the field it selects |
| Attribute.LookupNameOf | core/dom/attribute.go:187-212 | every field is found under its own spelling, so the 24 spellings are distinct |
| Attribute.AddRaw | core/dom/attribute.go:104-155 | an unrecognised name leaves the record unchanged; a recognised one stores the decoded value in its field |
| Attribute.AddRawChangesOneField | core/dom/attribute.go:104-155 | a recognised name changes its own field and no other |
| Attribute.Parse | core/dom/attribute.go:98-102 | the pairs are applied one after the other in list order |
| Attribute.ParseLastWins | core/dom/attribute.go:98-102 | every field ends with the decoded value of the last pair naming it, or its old value when none does |
| Attribute.ParseExample | core/dom/attribute_test.go:51-70 | id stored verbatim, display block, an invalid position falls back to Relative without affecting the other keys |
| Attribute.InheritFrom | core/dom/attribute.go:157-179 | Color and BackGroundColor come from the parent, every other field is kept |
| Attribute.InheritFromOverwrites | core/dom/attribute.go:157-179 | of two inheritances only the last parent's colours remain, and inheriting from a parent that itself inherited from p is inheriting from p |
| Attribute.NewAttributes | core/dom/attribute.go:50-56 | the options are applied left to right to the zero record; no options give the zero record |
| Attribute.ApplyOptsAppend | core/dom/attribute.go:50-56 | applying two batches of options is applying their concatenation |
| Attribute.WithDefaultAttributes | core/dom/attribute.go:64-92 | the option ignores its input and returns the fixed default record |
| Attribute.DefaultsOverrideEarlierOptions | core/dom/attribute.go:64-92 | a default option wipes out every option before it |
| Helpers.StringToInt | core/dom/helpers.go:11-14 | the result is an int64; a well-formed decimal gives its value, saturated by sign beyond the int64 range; text whose digits after the sign exceed the unsigned 64-bit range before the first other character saturates by sign; any other malformed text gives 0 |
| Helpers.StringToBool | core/dom/helpers.go:21-24 | true exactly for "1", "t", "T", "TRUE", "true" and "True" |
| Helpers.StringToUint8 | core/dom/helpers.go:122-125 | the int conversion reduced modulo 256 |
| Helpers.RawAttrsToAttributeList | core/dom/helpers.go:30-36 | same length, and each pair becomes the attribute at the same position |
| Helpers.StringToDisplay | core/dom/helpers.go:38-49 | "flex" and "absolute" give their constants, and any other text gives Block |
| Helpers.StringToFlexDirection | core/dom/helpers.go:51-64 | each of the three non-row names gives its constant, and any other text gives Row |
| Helpers.StringToTextAlign | core/dom/helpers.go:66-77 | "center" and "right" give their constants, anything else Left |
| Helpers.StringToTextDecoration | core/dom/helpers.go:79-90 | "underline" and "line-through" give their constants, anything else None |
| Helpers.StringToPosition | core/dom/helpers.go:92-101 | "absolute" gives Absolute, anything else Relative |
| Helpers.StringToInputType | core/dom/helpers.go:103-120 | each of the five non-text names gives its constant, anything else Text |
| Helpers.StringToOverflow | core/dom/attribute.go:152-153 | the converter AddRaw applies to the overflow attribute, in the pattern of the other converters: "scroll" gives Scroll, anything else Hidden |
| Helpers.ConvertersReadNames | core/dom/helpers.go:38-120 | every constant of every enumeration is recognised under its own name |
| Helpers.UnknownNamesFallBack | core/dom/helpers.go:38-120 | text naming no constant falls back to the zero constant of each enumeration |
| Helpers.Max | core/dom/helpers.go:131-136 | the result is one of the arguments and at least both |
| Helpers.Min | core/dom/helpers.go:138-143 | the result is one of the arguments and at most both |
| Decimal.Atoi | core/dom/helpers.go:11-14 | the strconv.Atoi value with the error dropped: an int64; a well-formed string gives its value, saturated by sign beyond the int64 range; digits after the sign that exceed the unsigned 64-bit range before the first other character saturate by sign; any other malformed text gives 0 |
| Decimal.DigitRun | core/dom/helpers.go:11-14 | the length of the leading run of digits: all of it digits, the next character not a digit, and the whole string exactly when it is all digits |
| Decimal.OverflowOutOfRange | core/dom/helpers.go:11-14 | a well-formed string that overflows denotes a value beyond the int64 range on the side of its sign, so the early saturation agrees with clamping its value |
| Decimal.AtoiSaturatesEarly | core/dom/helpers.go:11-14 | once the leading digits exceed the unsigned 64-bit range, Atoi gives MaxInt64 (MinInt64 after '-') whatever follows, digits or not |
| Decimal.Show | core/engine/view/buffer.go:57 | what %d and %v print: a minus sign for negative values, then the digits |
| Decimal.AtoiShow | core/dom/helpers.go:11-14 | Atoi reads back exactly what Show printed, for every int64 |
| Decimal.ReadPairShow | core/engine/tty/helpers.go:10 | two printed int64 values around a separator that is neither a digit nor '-' read back as themselves, in order |
| Buffer.NewCell | core/engine/view/buffer.go:21-25 | content ' ', zero style, no element, z-index 0 |
| Buffer.Flushed | core/engine/view/buffer.go:27-31 | a new cell except that the z-index is kept |
| Buffer.StyleString | core/engine/view/buffer.go:53-62 | the text is a control sequence: it starts with ESC and ends with 'm' |
| Buffer.SgrStyleString | core/engine/view/buffer.go:53-62 | a terminal reading the style's text ends up in exactly that style, whatever it was in before |
| Buffer.SgrReset | core/engine/view/buffer.go:54-55 | the reset that the zero style prints returns a terminal to the default colours whatever style it was in |
| Buffer.SgrOneColour | core/engine/view/buffer.go:56-59 | the reset followed by one palette sequence sets that colour over the defaults |
| Buffer.SgrBothColours | core/engine/view/buffer.go:61 | the two palette sequences, foreground first, set both colours with no reset |
| Buffer.CellString | core/engine/view/buffer.go:33-35 | the style's text followed by the content character |
| Buffer.Utf8RoundTrip | core/engine/view/buffer.go:37-39 | the UTF-8 encoding of a character reads back as that character |
| Buffer.CellBytes | core/engine/view/buffer.go:37-39 | the style's text byte for byte, then the UTF-8 encoding of the content |
| Buffer.AsciiStyle | core/engine/view/buffer.go:53-62 | a style's text is pure ASCII |
| Screen.Gate | core/engine/view/view.go:72-78 | a paint at or above the cell's z-index takes the cell with its style, character and z-index; a paint below it leaves the cell unchanged; the cell ends with the larger z-index and keeps the element that owns it |
| Screen.GateKeepsHigher | core/engine/view/view.go:72-78 | a cell painted at some z-index refuses every later paint below it |
| Screen.GateCommutes | core/engine/view/view.go:72-78 | paints at different z-indices give the same cell in either order |
| Screen.GateLaterWins | core/engine/view/view.go:72-78 | of two paints at the same z-index the later wins |
| Screen.FlushedStillRefuses | core/engine/view/buffer.go:27-31 | a flushed cell keeps its z-index and so still refuses lower paints |
| Screen.ClearedAcceptsAll | core/engine/view/view.go:132-140 | a cleared cell takes every paint |
| Screen.StrokeIdempotent | core/engine/view/view.go:132-149 | clearing, filling or painting a cell twice is doing it once |
| Screen.RegionEmpty | core/engine/view/view.go:132-149 | a rectangle with no width or no height changes nothing |
| Screen.RegionIdempotent | core/engine/view/view.go:132-149 | stroking a rectangle twice is stroking it once |
| Screen.OffsetIsByteCount | core/engine/view/view.go:62-70 | the index `range` gives a character is the UTF-8 byte count of the characters before it |
| Screen.OffsetGrows | core/engine/view/view.go:62-70 | later characters have larger byte offsets, so no two characters share a cell |
| Screen.PaintTextAt | core/engine/view/view.go:62-70 | each character lands, through the gate, in the cell at its byte offset |
| Screen.PaintTextElsewhere | core/engine/view/view.go:62-70 | cells no character's offset reaches keep what they had |
| Screen.Resized | core/engine/view/view.go:151-175 | h rows of w cells, the overlap with the old grid kept and every other cell new |
| Screen.ResizeShrinkBack | core/engine/view/view.go:151-175 | growing the screen and shrinking it back restores it |
| Screen.ResizeRows | core/engine/view/view.go:151-175 | the row phase followed by the column phase gives Resized |
| Screen.RepeatRect | core/engine/view/view.go:80-107 | rp cells along X, rp down Y, or the rp by rp square for X and Y, from (x, y) |
| Screen.View.constructor | core/engine/view/view.go:29-40 | height rows of width blank cells |
| Screen.View.Bounds | core/engine/view/view.go:42-52 | the rectangle from (0,0) to (Width, Height), where Width is the row length |
| Screen.View.Slice | core/engine/view/view.go:119-122 | the l cells of row y from column x |
| Screen.View.Flush | core/engine/view/view.go:54-60 | every cell is flushed and keeps its z-index |
| Screen.View.PrintRune | core/engine/view/view.go:72-78 | only cell (x, y) changes, through the gate |
| Screen.View.PrintString | core/engine/view/view.go:62-70 | only row y changes; it becomes PaintText of the string from column x |
| Screen.View.PrintRuneRepeat | core/engine/view/view.go:80-117 | for the axes X, Y and X and Y the gate paints exactly RepeatRect; any other selector paints the mirrored run of the default branch |
| Screen.View.StrokeRect | core/engine/view/view.go:132-149 | the nested loops stroke exactly the cells of the half-open rectangle |
| Screen.View.ClearBoundry | core/engine/view/view.go:132-140 | every cell inside becomes blank with z-index 0 whatever its old z-index; cells outside unchanged |
| Screen.View.FillBoundry | core/engine/view/view.go:142-149 | only the styles of cells inside change |
| Screen.View.Resize | core/engine/view/view.go:151-175 | the grid becomes Resized of the old one |
| Screen.MirroredUpTo | core/engine/view/view.go:108-115 | the loop of the default branch leaves the cells at and beyond x + i alone |
| Screen.MirroredCells | core/engine/view/view.go:108-115 | in the default branch the content and z-index go to x + i but the style to x - i |
| RenderStacks.IndexOf | core/engine/engine.go:312-317 | the first position of the element, or the length exactly when it is absent |
| RenderStacks.Find | core/engine/engine.go:312-317 | the search loop finds IndexOf |
| RenderStacks.RemoveFirst | core/engine/engine.go:312-317 | an absent element changes nothing; a present one shortens the queue by one and adds nothing |
| RenderStacks.RemoveFirstNoDup | core/engine/engine.go:312-317 | on a queue without duplicates the element is gone and the queue stays without duplicates |
| RenderStacks.RenderStack.constructor | core/engine/engine.go:304-306 | an empty queue |
| RenderStacks.RenderStack.Push | core/engine/engine.go:308-321 | the element goes to the front and its earlier copy leaves, the others keep their order; Len is unchanged for a present element and grows by one otherwise; no duplicates are introduced |
| RenderStacks.RenderStack.Pop | core/engine/engine.go:323-332 | nothing from an empty queue, else the last element, which alone leaves |
| RenderStacks.RemoveFirstKeeps | core/engine/engine.go:312-317 | removing one element keeps every other element in the queue |
| RenderStacks.PushAllKeeps | core/engine/engine.go:308-321 | a run of pushes keeps the queue free of duplicates, and an element is waiting afterwards exactly when it was waiting before or was pushed |
| RenderStacks.PushAllFresh | core/engine/engine.go:308-332 | pushing distinct new elements lines them up newest first, so pops return them in push order |
| RenderStacks.PushAllSnoc | core/engine/engine.go:308-321 | one more push after a run goes in front of what the run left |
| RenderStacks.PickedAll | core/engine/layouts.go:152-189 | when every flag is set, every element is picked |
| Engine.IndexedIn | core/engine/engine.go:88-97 | indexing elements of the tree lists only elements of the tree |
| Engine.IndexedLists | core/engine/engine.go:88-97 | for a non-empty id the walk appends exactly the elements with that id, in order, and creates the entry only then; the empty id is never indexed |
| Engine.IndexedAppend | core/engine/engine.go:88-97 | indexing one run and then another is indexing the two together |
| Engine.VisitStep | core/engine/engine.go:94-96 | one more subtree in the loop indexes that subtree's pre-order next |
| Engine.Engine.IndexFrom | core/engine/engine.go:88-97 | the index grown by the element and its subtrees is the index of their pre-order walk |
| Engine.Engine.GenerateIDsMap | core/engine/engine.go:83-86 | afterwards GetElementByID gives, for each non-empty id, exactly the elements carrying it in pre-order, and nothing for the empty id or an id no element carries |
| Engine.Engine.GetElementByID | core/engine/engine.go:99-111 | nothing exactly for an id the index does not hold, else the listed elements in order |
| Engine.Engine.constructor | core/engine/engine.go:46-66 | an empty render stack and the index of the tree from the body down |
| Engine.Engine.Update | core/engine/engine.go:186-188 | the element is pushed |
| Engine.IndexChildIn | core/engine/engine.go:253-260 | the corrected index update lists only elements |
| Engine.IndexChildIndexes | core/engine/engine.go:253-260 | with the corrected update the index stays the index of all elements in order of arrival |
| Engine.IndexChildAsWrittenLoses | core/engine/engine.go:254-255 | as written, a second element with an id in use is missing from the index |
| Engine.Engine.IndexNew | core/engine/engine.go:253-260 | the index takes the corrected update (the child joins its id's list) |
| Engine.Engine.AppendChild | core/engine/engine.go:251-263 | the child's parent is set, it ends the parent's children, the index takes the corrected update, and the parent is pushed |
| Engine.Engine.PrependChild | core/engine/engine.go:265-277 | as AppendChild, with the corrected index update, but the child starts the parent's children |
| Engine.Engine.Remove | core/engine/engine.go:279-291 | the rectangle is cleared, the whole entry of the id leaves the index, the first occurrence leaves the parent's children, and the parent is pushed exactly when the element was found |
| Engine.Engine.Reload | core/engine/engine.go:71-77 | the screen takes the new size, the body's rectangle becomes the whole screen, and the body is pushed |
| Engine.Engine.PaintFlex | core/engine/engine.go:166-167 | the frame is painted and the children take the flex layout's rectangles and pushes |
| Engine.Engine.RenderElement | core/engine/engine.go:163-184 | painted exactly when the element can be drawn, and then the new screen, nodes and queue are its Rendered form of the old ones: flex elements get the flex layout, block elements the block layout, absolute elements the absolute layout, each with the element's own rectangle and scroll offset; nothing changes when the element cannot be drawn |
| Engine.WeightPushAll | core/engine/engine.go:137-149 | a run of pushes adds at most the weight of what is pushed |
| Engine.WeightPicked | core/engine/engine.go:137-149 | picking some of a list weighs no more than the list |
| Engine.WeightChildren | core/engine/engine.go:137-149 | a list of children weighs what their subtrees count |
| Engine.DrainDecreases | core/engine/engine.go:137-149 | popping the last element and pushing no more than its children's weight lowers the weight, so the drain ends |
| Engine.FlexPushedWeight | core/engine/layouts.go:80-107 | what a flex element pushes weighs no more than its children |
| Engine.TurnKeeps | core/engine/engine.go:136-141 | a turn that paints loses no waiting element other than the one it took |
| Engine.DrainedSnoc | core/engine/engine.go:136-147 | one more turn extends a recorded drain: the element taken joins the order, the state after the turn joins the trace, and the element's rectangle after its paint joins the popped rectangles when it was painted |
| Engine.Engine.PaintNext | core/engine/engine.go:136-141 | the element taken is the oldest waiting one; the new screen, nodes and queue are one Turn of the old ones with that element's scroll offset, so it leaves the queue and is rendered exactly when it can be drawn; then the queue's weight drops |
| Engine.Engine.Step | core/engine/engine.go:136-147 | one turn of the loop extends the recorded drain by the element taken and the state after it, keeps the accumulator the covering rectangle of the popped rectangles, and, when it paints, loses no waiting element |
| Engine.HullBounds | core/engine/engine.go:143-148 | the hull contains every rectangle and lies inside every rectangle containing them all |
| Engine.CircumscribedSum | core/engine/engine.go:146-147 | a rectangle already strictly inside adds nothing to the sum, so skipping the sum changes nothing |
| Engine.Widen | core/engine/engine.go:143-148 | one step of the merge keeps the accumulator the covering rectangle of everything popped |
| Engine.Engine.Drain | core/engine/engine.go:135-147 | the run is a recorded drain from the old screen, nodes and queue to the new ones: each state is the Turn of the one before for the oldest waiting element with its scroll offset; the popped rectangles are, in order, those of the painted elements after their paint, and the rectangle returned is their covering rectangle (none when nothing was popped); when every element could be drawn the queue ends empty and every element that was waiting was taken |
| Flags.RenderMan.constructor | core/engine/layouts.go:272-278 | l entries (none for a negative l), each with the default flag and value 0 |
| Flags.RenderMan.SetFlag | core/engine/layouts.go:280-282 | the entry's flag is replaced, not or-ed, and nothing else changes |
| Flags.RenderMan.SaveCalculation | core/engine/layouts.go:288-290 | only the entry's value changes |
| Flags.RenderMan.Next | core/engine/layouts.go:292-301 | the smallest index after head whose flag meets the request (every index for no flag), or ok false past the last entry |
| Flags.RenderMan.FlagRest | core/engine/layouts.go:303-308 | every entry from head on gets the flag, earlier entries unchanged |
| FlexPlan.Entry | core/engine/layouts.go:42-59 | an absolute child is ignored, a child with a fixed length is calculated at that length, and a bounded flex child is selected by the second pass |
| FlexPlan.Clamp | core/engine/layouts.go:63-76 | a bound is the minimum or the maximum, and a minimum above the flex length wins |
| FlexPlan.Planned | core/engine/layouts.go:38-76 | one entry per child, the space is the length less the fixed lengths, the shares are the flex total, and each entry is its child's second-pass entry |
| FlexPlan.LimitedFlags | core/engine/layouts.go:42-76 | after the second pass an entry is ignored exactly for an absolute child, fixed children keep their length, and clamped children are calculated at the bound |
| FlexPlan.Advance | core/engine/layouts.go:93-106 | a placed child moves the reserve by its length, and other moves leave the counters alone |
| FlexPlan.Slot | core/engine/layouts.go:86-102 | exactly a placed child gets a slot, which starts at the reserve and ends its length further |
| FlexPlan.RowPlacement | core/engine/layouts.go:80-107 | every child except an absolute one gets a rectangle across the parent's full height, and a fixed-width child exactly its width |
| FlexPlan.RowAbutting | core/engine/layouts.go:80-107 | row children follow one another from the parent's left edge |
| FlexPlan.RowReserveSteps | core/engine/layouts.go:80-107 | each row box starts at the reserve before it and ends at the reserve after it |
| FlexPlan.ColumnPlacement | core/engine/layouts.go:152-189 | a placed child is not absolute, not above the scroll offset and spans the parent's width; children above the offset are neither placed nor pushed unless absolute |
| FlexPlan.ColumnFixedFits | core/engine/layouts.go:160-171 | a fixed-height child is placed at exactly its height and only if it fits in the remaining height |
| FlexPlan.ColumnStaysStopped | core/engine/layouts.go:161-174 | once the pass breaks no later child is placed or pushed |
| FlexPlan.ColumnAbutting | core/engine/layouts.go:152-189 | column children follow one another down from the parent's top edge |
| FlexPlan.ColumnReserveSteps | core/engine/layouts.go:152-189 | up to where the pass stops, each column box ends at the reserve after it and a child without a box leaves the reserve as it was |
| Layouts.Classify | core/engine/layouts.go:40-59 | the first pass leaves each child's entry, the space after the fixed lengths and the flex shares |
| Layouts.Limit | core/engine/layouts.go:63-76 | the second pass leaves every entry its clamped form, and the totals less the clamped children |
| Layouts.LimitChild | core/engine/layouts.go:64-75 | one child of the second pass gets its bound and its entry |
| Layouts.PlaceRow | core/engine/layouts.go:80-107 | the third row pass gives each child its RowBoxes rectangle and pushes every child once, in child order |
| Layouts.PlaceColumn | core/engine/layouts.go:152-189 | the third column pass gives each child its ColumnBoxes rectangle and pushes the picked children in order |
| Layouts.PlanPasses | core/engine/layouts.go:38-76 | the first two passes compute Planned |
| Layouts.RenderRow | core/engine/layouts.go:38-110 | the children take the RowLayout rectangles and are all pushed in order; nothing else changes |
| Layouts.RenderColumn | core/engine/layouts.go:112-192 | the children take the ColumnLayout rectangles and the ColumnPushed children are pushed in order |
| Layouts.PlacedBoundries | core/engine/layouts.go:86-102 | placing children changes nothing but rectangles |
| Layouts.PlacedBoxes | core/engine/layouts.go:86-102 | a child with a box ends up with it, the others keep their rectangle |
| Layouts.PlacedOthers | core/engine/layouts.go:86-102 | elements that are not children keep their node |
| Layouts.Frame | core/engine/layouts.go:26-27 | renderBase then drawBorder |
| Layouts.Decorate | core/engine/layouts.go:207-209 | renderBase, drawBorder then renderText |
| Layouts.TextAreaFits | core/engine/layout_helpers.go:26-29 | the text area lies inside the element's rectangle |
| Layouts.DecoratedWithin | core/engine/layouts.go:206-214 | painting an element changes no cell outside its rectangle |
| Layouts.FlexPushed | core/engine/layouts.go:80-189 | only children are pushed |
| Layouts.FlexLayout | core/engine/layouts.go:25-36 | the base and border are painted first; Column uses the column layout, and Row and every other direction the row layout |
| Layouts.BlockLayout | core/engine/layouts.go:206-214 | the element is painted with its text, and no child and no rectangle changes |
| Layouts.AbsoluteBox | core/engine/layouts.go:229 | the rectangle starts at (Left, Top) and has the element's Width and Height |
| Layouts.AbsoluteLayout | core/engine/layouts.go:228-234 | the element's rectangle becomes its AbsoluteBox and the element is painted there |
| Paint.RenderBase | core/engine/layout_helpers.go:54-60 | ' ' in the element's colours at its z-index through the gate on every cell of the half-open rectangle and no other |
| Paint.BaseRow | core/engine/layout_helpers.go:56-58 | one row of the rectangle |
| Paint.CornerGlyph | core/engine/layout_helpers.go:18-22 | corners only on the corner cells of the indexified rectangle |
| Paint.BorderGlyph | core/engine/layout_helpers.go:12-22 | glyphs only inside the indexified rectangle |
| Paint.DrawBorder | core/engine/layout_helpers.go:8-23 | nothing without a border; with one, ─ rows, │ columns and then the four corners on the indexified rectangle, through the gate |
| Paint.DrawStrokes | core/engine/layout_helpers.go:13-16 | the rows and then the columns |
| Paint.DrawRows | core/engine/layout_helpers.go:13-14 | the top and bottom rows |
| Paint.DrawColumns | core/engine/layout_helpers.go:15-16 | the left and right columns |
| Paint.DrawCorners | core/engine/layout_helpers.go:18-22 | ┌ ┐ └ ┘ through the gate |
| Paint.StrokeCells | core/engine/layout_helpers.go:13-16 | the four strokes cell by cell |
| Paint.CornerCells | core/engine/layout_helpers.go:18-22 | the four corners cell by cell |
| Paint.BorderCells | core/engine/layout_helpers.go:12-22 | every cell of the border gets its glyph through the gate and every other cell is kept |
| Paint.Bordering | core/engine/layout_helpers.go:12-22 | the grid a border leaves satisfies the cell-by-cell description |
| Paint.BorderDrawnUnique | core/engine/layout_helpers.go:12-22 | the cell-by-cell description pins the grid down |
| Paint.TextArea | core/engine/layout_helpers.go:26-29 | shrunk by one on every side with a border, else the rectangle |
| Paint.RowOffset | core/engine/layout_helpers.go:39-47 | rows before the scroll offset consume nothing |
| Paint.TextByte | core/engine/layout_helpers.go:38-47 | a cell gets a byte exactly on a row from the scroll offset on, within the width, while bytes remain; it is the byte row-major from there |
| Paint.RowOffsetMono | core/engine/layout_helpers.go:47 | each later row starts at least a row's width further |
| Paint.FullRowsExact | core/engine/layout_helpers.go:49-51 | the bytes to a part row fill exactly the rows before it |
| Paint.FullRowsAtLeast | core/engine/layout_helpers.go:49-51 | bytes reaching a row fill at least the rows before it |
| Paint.TextRows | core/engine/layout_helpers.go:38-51 | the rows counted are the height, or the scrolled rows plus the rows the text fills |
| Paint.RenderText | core/engine/layout_helpers.go:25-52 | empty text or a text area under one cell writes nothing and returns the area; otherwise the bytes go row-major from the scroll offset and the indexified area comes back with its top moved down by the rows used |
| Paint.PrintTextRows | core/engine/layout_helpers.go:38-50 | the outer loop writes Texted and counts TextRows |
| Paint.PrintTextRow | core/engine/layout_helpers.go:40-49 | one row: skipped before the scroll offset, else written; it stops exactly when the text runs out |
| Paint.PrintTextCells | core/engine/layout_helpers.go:41-46 | the inner loop writes the row's bytes and stops exactly when the text is shorter than the row |
| Events.ModifierValues | core/engine/tty/events.go:151-156 | None is 0, Shift 2, Ctrl 4, Alt 8: distinct single bits |
| Events.TypeOf | core/engine/tty/events.go:32-34 | each event reports its own kind |
| Events.KeyTypeOf | core/engine/tty/events.go:95-97 | a byte key reports Byte, a special key Special |
| Events.ByteKeyIs | core/engine/tty/events.go:99-104 | true exactly for a byte key with the same byte |
| Events.SpecialKeyIs | core/engine/tty/events.go:116-121 | true exactly for a special key with the same text |
| Events.KeyIs | core/engine/tty/events.go:75-121 | keys match exactly when equal, so keys of different kinds never match |
| Events.OrAllCovers | core/engine/tty/events.go:49-51 | every given modifier is inside the or |
| Events.OrAllLeast | core/engine/tty/events.go:49-51 | the or lies inside every byte holding all the given modifiers |
| Events.NewKeyboardEvent | core/engine/tty/events.go:45-53 | the key, modifiers 0 for none, one modifier as given, and every modifier inside the result |
| Events.SetModifiers | core/engine/tty/events.go:55-58 | the modifiers are replaced, and the key (or position and button) and kind are kept |
| Events.SetModifiersLaws | core/engine/tty/events.go:55-58 | setting the current modifiers changes nothing, and of two settings the last wins |
| Events.KeyboardIs | core/engine/tty/events.go:64-73 | with no modifiers it is key equality, and a match always has the key |
| Events.KeyboardIsNone | core/engine/tty/events.go:64-73 | asking for None matches only events without modifiers |
| Events.KeyboardIsBit | core/engine/tty/events.go:64-73 | asking for Shift, Ctrl or Alt matches every event holding that bit |
| Events.NewKeyboardEventIs | core/engine/tty/events.go:45-73 | an event made with non-zero modifiers matches its key with those modifiers |
| KeyParser.CleanBytes | core/engine/tty/parser_unix.go:60-67 | a prefix without zeros that stops at the first zero |
| KeyParser.ByteToModifier | core/engine/tty/parser_unix.go:69-88 | non-zero exactly for '2' to '8', a combination of Shift, Ctrl and Alt whose bits are those of the digit less one |
| KeyParser.ByteToModifierInverse | core/engine/tty/parser_unix.go:69-88 | every combination reads back from its parameter, and every parameter comes from its combination |
| KeyParser.ParseKeyAsWritten | core/engine/tty/parser_unix.go:20-44 | always a keyboard event, a byte key exactly for a lone byte or ESC and a byte, modifiers only Shift, Ctrl and Alt |
| KeyParser.ParseKey | core/engine/tty/parser_unix.go:20-44 | the corrected parser: always a keyboard event, a byte key exactly for a lone byte or ESC and a byte, modifiers only Shift, Ctrl and Alt; the ten-byte read of every key a terminal sends reads back as that key (ParseKeyEncode) |
| KeyParser.Parse | core/engine/tty/parser_unix.go:16-18 | exactly one event, a keyboard event (read by the corrected parser) |
| KeyParser.Padded | core/engine/tty/tty.go:78 | the ten-byte read buffer holding the bytes, zero-filled |
| KeyParser.ParseKeyEncode | core/engine/tty/parser_unix.go:20-44 | the corrected parser reads back every key event a terminal sends |
| KeyParser.CleanPrefix | core/engine/tty/parser_unix.go:60-67 | cleaning a zero-filled buffer gives back the bytes sent when none is zero |
| KeyParser.NamedKeysPlain | core/engine/tty/events.go:124-146 | every named special key but Escape and Enter is sent as it is; Escape reads as Ctrl and '{', and Enter as byte 13 |
| KeyParser.AsWrittenDiffers | core/engine/tty/parser_unix.go:25-40 | the parsers differ exactly on a lone byte from 32 to 35 and on a modified ESC [ 2 3 sequence |
| KeyParser.SpaceAsWritten | core/engine/tty/parser_unix.go:25-27 | as written, a space reads as Ctrl and byte 128 |
| KeyParser.ShiftF11AsWritten | core/engine/tty/parser_unix.go:39-40 | as written, Shift and F11 reads as Shift and F12 |
| Cursor.PositionToEscapeCode | core/engine/tty/helpers.go:10 | ESC [ ... H, and for non-negative coordinates 4 plus the digits of Y and X long |
| Cursor.ReadPositionToEscapeCode | core/engine/tty/helpers.go:10 | a terminal reads the row from Y and the column from X, unshifted, for every pair of int64 values |

## Left out

- Terminal I/O and operating-system plumbing are not modelled: raw mode, window size, reading bytes, writing cells and signals. core/engine/tty/tty.go, the readers and `renderBoundry` stay outside. The window size given to `reload` is a parameter of `Engine.Engine.Reload`.
- Concurrency is not modelled:
  - the mutex of the render stack (its operations are modelled as the sequential operations it makes them);
  - the goroutines of `Start`;
  - the 1 ms ticker of `Render` (only its inner drain loop is modelled);
  - the debouncer of `Reload`;
  - the event channel;
  - `Exit`.
- NewEngineFromTemplate, the XML reading of elements and documents, and `NewElementFromString` depend on an external decoder. `Engine.Engine.constructor` starts from a tree and a screen that already exist.
- Layouts.FlexLayout: the float32 flex share (`float32(total) / float32(shares)` times the flex, truncated) is the parameter `ext`. No property depends on what it returns, so exact splits and the min/max clamping outcomes are not stated.
- stringToFloat is floating point and is not used by the core.
- View.Render prints to standard output and is left out. `CellList.Bytes` is left out too.
- Engine.Engine.RenderElement: a paint that would index off the grid panics in Go. Here it is the outcome `painted == false` with nothing changed. The drain stops there.
- Other index panics are preconditions:
  - the View methods require coordinates on the grid;
  - `Engine.Engine.Remove` requires the element to have a parent;
  - `Flags.RenderMan.SetFlag` requires an existing entry.
- KeyParser.ParseKey: the decoder is always given the ten-byte read buffer, so `|b| == 10` is required. Its `len(b) == 1/2/6/7` tests are therefore always false and only the byte tests decide.
- The unused `modifiers` helper of parser_unix.go builds a modifier and returns nil. It is not modelled beyond its `< 32` threshold, which the corrected parser uses.
- No mouse event is produced by the parser. Mouse events exist only as `Events.Event` values.
- Element.Tree.AppendChild, Element.Tree.PrependChild, Engine.Engine.AppendChild, Engine.Engine.PrependChild: these require that the parent is not below the child, so that the tree stays a tree. The source does not check this (element.go:83-85, engine.go:251-277), and a cycle would make its recursive walks run forever.
- Engine.Engine.IndexNew uses the corrected index update of the first finding below, so the child joins its id's list. The code as written (engine.go:254-255 and 268-269) drops that update; it is Engine.IndexChildAsWritten, and Engine.IndexChildAsWrittenLoses shows the element it loses.
- Engine.Engine.AppendChild indexes the child with that corrected update (Engine.Engine.IndexNew), not with the dropped append of engine.go:254-255.
- Engine.Engine.PrependChild indexes the child with that corrected update (Engine.Engine.IndexNew), not with the dropped append of engine.go:268-269.
- KeyParser.ParseKey is the corrected parser of the second and third findings below. The code as written is KeyParser.ParseKeyAsWritten, and KeyParser.AsWrittenDiffers states exactly the inputs where the two differ.
- KeyParser.Parse wraps the corrected KeyParser.ParseKey, not the parseKey as written that parser_unix.go:16-18 calls.
- Engine.Engine.Drain does not model the drain's `bl == nil` skip. The modelled queue never holds nil.
- Layouts.BlockLayout is not given the boundary argument, which `Block.Layout` ignores.
- Layouts.DecoratedWithin holds only for a bordered element at least one cell wide and high. A thinner bordered element has its right or bottom border drawn one cell outside its rectangle, because drawBorder indexifies the rectangle.
- Screen.View.PrintString writes at byte offsets as the source does, not at display columns. Unicode width is not modelled.
- Cursor.PositionToEscapeCode emits the coordinates unchanged, with no 1-based shift. tty.go:138 adds 1 before formatting. That file is not part of this model.
- The `ids` index is a package-level variable in the source and a field of the engine here.
- The element field `Style` (element.go:14) is not modelled: nothing in the core reads or writes it. `Name` and `Content` are carried unchanged in each node.
- Helpers.StringToOverflow: the body of stringToOverflow is not part of this model. AddRaw calls it at attribute.go:153, and the definition here follows the pattern of the other converters.
- FlexPlan.RowPlacement, FlexPlan.ColumnFixedFits: a fixed length passes through float32 in SaveCalculation (layouts.go:49 and 89-93). The box is exactly that length only up to 2^24; beyond that float32 rounds it. Lengths are unbounded integers here.
- Layouts.AbsoluteBox, Engine.Engine.Drain, Geometry.Shrink, Geometry.Inflate, Geometry.ShrinkMask, Geometry.InflateMask, Element.ElementState.ScrollBy, FlexPlan.Advance: Go's `int` arithmetic wraps around at 64 bits, and these sums are unbounded integers here. The wrap is reachable from markup. Take an absolute element with width 9223372036854775807 and left 1. In Go its second X edge wraps to -2^63 (layouts.go:229), renderBase paints nothing, and the drain goes on. Here the edge is 2^63, the element does not fit the grid, and the drain stops with `painted == false`.
- Geometry.ToString: its own ensures states only the frame of the text. Geometry.ReadBoundryToString states the four edges it carries.

## Findings

| source | as written | input that shows it | evidently intended | confidence | as-written member | corrected member |
|---|---|---|---|---|---|---|
| core/engine/engine.go:254-255 | AppendChild appends the child to `l`, a local copy of the id's list, and drops it. PrependChild does the same at lines 268-269. | two elements with the id "row": the second is appended after the first is indexed | `ids[id] = append(ids[id], el)`, so the child joins its id's list | high (not executed) | Engine.IndexChildAsWrittenLoses | Engine.IndexChildIndexes |
| core/engine/tty/parser_unix.go:25 | a lone byte below 36 is read as Ctrl plus the byte + 96 | the space bar, the bytes 32 0 0 0 0 0 0 0 0 0, reads as Ctrl and byte 128 | the control range below 32, the threshold the `modifiers` helper uses | high (not executed) | KeyParser.SpaceAsWritten | KeyParser.ParseKeyEncode |
| core/engine/tty/parser_unix.go:39-40 | ESC [ 2 3 ; m X is read as the key ESC [ 2 4 X | Shift+F11, the bytes 27 91 50 51 59 50 126 0 0 0, reads as Shift+F12 | the key ESC [ 2 3 X, the digits the branch checked | medium (not executed) | KeyParser.ShiftF11AsWritten | KeyParser.ParseKeyEncode |
