/** The painting helpers every layout starts with
    (core/engine/layout_helpers.go): the background, the border and the
    text of one element. The element's fields are read, never written, so
    they come in as values: its attribute record, its rectangle, its
    content and its vertical scroll offset. Every paint goes through the
    z-index gate of the view at the element's z-index. */
module Paint {
  import opened Kinds
  import opened Wrappers
  import opened Buffer
  import opened Geometry
  import opened Screen
  import opened Attribute

  /** The colours an element paints in. */
  function Pen(a: Attributes): (st: Style)
    ensures st.foreground == a.color && st.background == a.backGroundColor
  {
    NewStyle(a.color, a.backGroundColor)
  }

  // ------------------------------------------------------------------
  // Background
  // ------------------------------------------------------------------

  /** renderBase: a blank in the element's colours on every cell of its
      half-open rectangle, through the gate, and nowhere else. */
  method RenderBase(v: View, a: Attributes, b: Boundry)
    requires v.Valid() && v.Fits(b)
    modifies v
    ensures v.Valid()
    ensures v.rows == Region(old(v.rows), b, Paint(Pen(a), ' ', a.zIndex))
  {
    var k := Paint(Pen(a), ' ', a.zIndex);
    if b.firstX >= b.secondX || b.firstY >= b.secondY {
      RegionEmpty(v.rows, b, k);
      return;
    }
    ghost var g := v.rows;
    var y := b.firstY;
    while y < b.secondY
      invariant b.firstY <= y <= b.secondY
      invariant v.Valid() && |v.rows| == |g| && (|g| > 0 ==> |v.rows[0]| == |g[0]|)
      invariant v.rows == Region(g, Boundry(b.firstX, b.firstY, b.secondX, y), k)
    {
      BaseRow(v, a, b.firstX, b.secondX, y);
      RegionRowDone(g, b.firstX, b.firstY, b.secondX, y, k);
      y := y + 1;
    }
  }

  /** One row of renderBase: the cells from fx up to sx, left to right. */
  method BaseRow(v: View, a: Attributes, fx: int, sx: int, y: int)
    requires v.Valid() && 0 <= y < |v.rows| && 0 <= fx <= sx <= |v.rows[y]|
    modifies v
    ensures v.Valid() && |v.rows| == |old(v.rows)| && |v.rows[0]| == |old(v.rows)[0]|
    ensures v.rows == old(v.rows)[y := RowStroke(old(v.rows)[y], fx, sx, Paint(Pen(a), ' ', a.zIndex))]
  {
    var k := Paint(Pen(a), ' ', a.zIndex);
    ghost var g := v.rows;
    RowStrokeNone(g[y], fx, k);
    assert g[y := RowStroke(g[y], fx, fx, k)] == g;
    var x := fx;
    while x < sx
      invariant fx <= x <= sx
      invariant v.rows == g[y := RowStroke(g[y], fx, x, k)]
    {
      v.PrintRune(x, y, a.color, a.backGroundColor, a.zIndex, ' ');
      RowStrokeStep(g[y], fx, x, k);
      x := x + 1;
    }
  }

  /** An empty run of a row changes nothing. */
  lemma RowStrokeNone(row: seq<Cell>, a: int, k: Stroke)
    ensures RowStroke(row, a, a, k) == row
  {
  }

  /** Stroking one more cell of a run extends it by that cell. */
  lemma RowStrokeStep(row: seq<Cell>, a: int, x: int, k: Stroke)
    requires 0 <= a <= x < |row|
    ensures RowStroke(row, a, x, k)[x := Stroked(row[x], k)] == RowStroke(row, a, x + 1, k)
  {
    var r, r' := RowStroke(row, a, x, k)[x := Stroked(row[x], k)], RowStroke(row, a, x + 1, k);
    assert forall j :: 0 <= j < |row| ==> r[j] == r'[j];
  }

  /** A rectangle one row taller is the shorter one with that row stroked. */
  lemma RegionRowDone(g: Grid, fx: int, fy: int, sx: int, y: int, k: Stroke)
    requires 0 <= fy <= y < |g|
    ensures Region(g, Boundry(fx, fy, sx, y), k)[y := RowStroke(g[y], fx, sx, k)] == Region(g, Boundry(fx, fy, sx, y + 1), k)
  {
    var h, h' := Region(g, Boundry(fx, fy, sx, y), k)[y := RowStroke(g[y], fx, sx, k)], Region(g, Boundry(fx, fy, sx, y + 1), k);
    assert forall i :: 0 <= i < |g| ==> h[i] == h'[i];
  }

  // ------------------------------------------------------------------
  // Border
  // ------------------------------------------------------------------

  /** The four corners of the (indexified) border rectangle lie on the
      grid; then so does every stroke of the border. */
  predicate CornersOnGrid(g: Grid, ib: Boundry)
  {
    |g| >= 1 &&
    0 <= ib.firstY < |g| && 0 <= ib.secondY < |g| &&
    0 <= ib.firstX < |g[0]| && 0 <= ib.secondX < |g[0]|
  }

  /** The corner glyph drawBorder leaves on cell (x, y) of the indexified
      rectangle, if any: the corners are written ┌ ┐ └ ┘ in that order, so
      where corners coincide (a rectangle one cell wide or high) the later
      one shows. */
  function CornerGlyph(ib: Boundry, x: int, y: int): (r: Option<char>)
    ensures r.Some? ==> (x == ib.firstX || x == ib.secondX) && (y == ib.firstY || y == ib.secondY)
  {
    if x == ib.secondX && y == ib.secondY then Some('┘')
    else if x == ib.firstX && y == ib.secondY then Some('└')
    else if x == ib.secondX && y == ib.firstY then Some('┐')
    else if x == ib.firstX && y == ib.firstY then Some('┌')
    else None
  }

  /** The stroke glyph drawBorder leaves on cell (x, y) before the corners:
      the side columns show │ from the top row down to the row above the
      bottom one and, written after the rows, win where they meet them; the
      top and bottom rows show ─ from the left column up to the column
      before the right one. */
  function StrokeGlyph(ib: Boundry, x: int, y: int): (r: Option<char>)
  {
    if (x == ib.firstX || x == ib.secondX) && ib.firstY <= y < ib.secondY then Some('│')
    else if (y == ib.firstY || y == ib.secondY) && ib.firstX <= x < ib.secondX then Some('─')
    else None
  }

  /** The glyph a whole border leaves on a cell: a corner's, or else a
      stroke's. */
  function BorderGlyph(ib: Boundry, x: int, y: int): (r: Option<char>)
    ensures r.Some? ==> ib.firstX <= x <= ib.secondX || ib.secondX <= x <= ib.firstX
    ensures r.Some? ==> ib.firstY <= y <= ib.secondY || ib.secondY <= y <= ib.firstY
  {
    if CornerGlyph(ib, x, y).Some? then CornerGlyph(ib, x, y) else StrokeGlyph(ib, x, y)
  }

  /** A cell after the border: through the gate with its glyph, or as it
      was. */
  function Bordered(c: Cell, st: Style, z: uint8, glyph: Option<char>): Cell
  {
    match glyph
    case Some(r) => Gate(c, st, r, z)
    case None => c
  }

  /** The stroke of one border glyph in the element's colours at its
      z-index. */
  function Ink(a: Attributes, r: char): (k: Stroke)
    ensures k == Paint(Pen(a), r, a.zIndex)
  {
    Paint(NewStyle(a.color, a.backGroundColor), r, a.zIndex)
  }

  /** The grid after the top and bottom rows of the border. */
  function RowsDrawn(g: Grid, a: Attributes, ib: Boundry): Grid
  {
    Region(Region(g, RepeatRect(ib.firstX, ib.firstY, Width(ib), AxisX), Ink(a, '─')),
           RepeatRect(ib.firstX, ib.secondY, Width(ib), AxisX), Ink(a, '─'))
  }

  /** The grid after the left and right columns of the border. */
  function ColumnsDrawn(g: Grid, a: Attributes, ib: Boundry): Grid
  {
    Region(Region(g, RepeatRect(ib.firstX, ib.firstY, Height(ib), AxisY), Ink(a, '│')),
           RepeatRect(ib.secondX, ib.firstY, Height(ib), AxisY), Ink(a, '│'))
  }

  /** drawBorder: nothing without a border; with one, on the rectangle made
      inclusive, every cell takes the glyph BorderGlyph gives it in the
      element's colours at its z-index, through the gate, and no other cell
      changes. */
  method DrawBorder(v: View, a: Attributes, b: Boundry)
    requires v.Valid() && (a.border ==> CornersOnGrid(v.rows, Indexify(b)))
    modifies v
    ensures v.Valid() && |v.rows| == |old(v.rows)| && (|v.rows| > 0 ==> |v.rows[0]| == |old(v.rows)[0]|)
    ensures !a.border ==> v.rows == old(v.rows)
    ensures a.border ==> BorderDrawn(old(v.rows), v.rows, Indexify(b), Pen(a), a.zIndex)
  {
    if !a.border {
      return;
    }
    var ib := Indexify(b);
    ghost var g0 := v.rows;
    DrawStrokes(v, a, ib);
    StrokeCells(g0, ib, a);
    ghost var g4 := v.rows;
    DrawCorners(v, a, ib);
    BorderCells(g0, g4, v.rows, ib, Pen(a), a.zIndex);
  }

  /** The first half of drawBorder: the top and bottom rows, then the left
      and right columns. */
  method DrawStrokes(v: View, a: Attributes, ib: Boundry)
    requires v.Valid() && CornersOnGrid(v.rows, ib)
    modifies v
    ensures v.Valid() && |v.rows| == |old(v.rows)| && |v.rows[0]| == |old(v.rows)[0]|
    ensures v.rows == ColumnsDrawn(RowsDrawn(old(v.rows), a, ib), a, ib)
  {
    DrawRows(v, a, ib);
    DrawColumns(v, a, ib);
  }

  /** The top and bottom rows, ─ from the left corner across the width. */
  method DrawRows(v: View, a: Attributes, ib: Boundry)
    requires v.Valid() && CornersOnGrid(v.rows, ib)
    modifies v
    ensures v.Valid() && |v.rows| == |old(v.rows)| && |v.rows[0]| == |old(v.rows)[0]|
    ensures v.rows == RowsDrawn(old(v.rows), a, ib)
  {
    v.PrintRuneRepeat(ib.firstX, ib.firstY, a.color, a.backGroundColor, Width(ib), a.zIndex, AxisX, '─');
    assert CornersOnGrid(v.rows, ib);
    v.PrintRuneRepeat(ib.firstX, ib.secondY, a.color, a.backGroundColor, Width(ib), a.zIndex, AxisX, '─');
  }

  /** The left and right columns, │ from the top corner down the height. */
  method DrawColumns(v: View, a: Attributes, ib: Boundry)
    requires v.Valid() && CornersOnGrid(v.rows, ib)
    modifies v
    ensures v.Valid() && |v.rows| == |old(v.rows)| && |v.rows[0]| == |old(v.rows)[0]|
    ensures v.rows == ColumnsDrawn(old(v.rows), a, ib)
  {
    v.PrintRuneRepeat(ib.firstX, ib.firstY, a.color, a.backGroundColor, Height(ib), a.zIndex, AxisY, '│');
    assert CornersOnGrid(v.rows, ib);
    v.PrintRuneRepeat(ib.secondX, ib.firstY, a.color, a.backGroundColor, Height(ib), a.zIndex, AxisY, '│');
  }

  /** The second half of drawBorder: the four corners, ┌ ┐ └ ┘ in that
      order. */
  method DrawCorners(v: View, a: Attributes, ib: Boundry)
    requires v.Valid() && CornersOnGrid(v.rows, ib)
    modifies v
    ensures v.Valid() && |v.rows| == |old(v.rows)| && |v.rows[0]| == |old(v.rows)[0]|
    ensures Cornered(old(v.rows), v.rows, ib, Pen(a), a.zIndex)
  {
    ghost var g4 := v.rows;
    v.PrintRune(ib.firstX, ib.firstY, a.color, a.backGroundColor, a.zIndex, '┌');
    ghost var g5 := v.rows;
    v.PrintRune(ib.secondX, ib.firstY, a.color, a.backGroundColor, a.zIndex, '┐');
    ghost var g6 := v.rows;
    v.PrintRune(ib.firstX, ib.secondY, a.color, a.backGroundColor, a.zIndex, '└');
    ghost var g7 := v.rows;
    v.PrintRune(ib.secondX, ib.secondY, a.color, a.backGroundColor, a.zIndex, '┘');
    CornerCells(g4, g5, g6, g7, v.rows, ib, Pen(a), a.zIndex);
  }

  /** Every cell of `h` is the cell of `g` through the gate with its corner
      glyph, or as it was. */
  ghost predicate Cornered(g: Grid, h: Grid, ib: Boundry, st: Style, z: uint8)
  {
    |h| == |g| && (forall y :: 0 <= y < |h| ==> |h[y]| == |g[y]|) &&
    forall y, x :: 0 <= y < |h| && 0 <= x < |h[y]| ==> h[y][x] == Bordered(g[y][x], st, z, CornerGlyph(ib, x, y))
  }

  /** The four corner paints, cell by cell. */
  lemma CornerCells(g4: Grid, g5: Grid, g6: Grid, g7: Grid, g8: Grid, ib: Boundry, st: Style, z: uint8)
    requires Painted(g4, g5, ib.firstX, ib.firstY, st, '┌', z)
    requires Painted(g5, g6, ib.secondX, ib.firstY, st, '┐', z)
    requires Painted(g6, g7, ib.firstX, ib.secondY, st, '└', z)
    requires Painted(g7, g8, ib.secondX, ib.secondY, st, '┘', z)
    ensures Cornered(g4, g8, ib, st, z)
  {
  }

  /** The two halves together. */
  lemma BorderCells(g0: Grid, g4: Grid, g8: Grid, ib: Boundry, st: Style, z: uint8)
    requires StrokesDrawn(g0, g4, ib, st, z) && Cornered(g4, g8, ib, st, z)
    ensures BorderDrawn(g0, g8, ib, st, z)
  {
    forall y, x | 0 <= y < |g8| && 0 <= x < |g8[y]|
      ensures g8[y][x] == Bordered(g0[y][x], st, z, BorderGlyph(ib, x, y))
    {
      assert g8[y][x] == Bordered(g4[y][x], st, z, CornerGlyph(ib, x, y));
    }
  }

  /** Every cell of `h` is the cell of `g` through the gate with the glyph
      the strokes give it, or as it was. */
  ghost predicate StrokesDrawn(g: Grid, h: Grid, ib: Boundry, st: Style, z: uint8)
  {
    |h| == |g| && (forall y :: 0 <= y < |h| ==> |h[y]| == |g[y]|) &&
    forall y, x :: 0 <= y < |h| && 0 <= x < |h[y]| ==> h[y][x] == Bordered(g[y][x], st, z, StrokeGlyph(ib, x, y))
  }

  /** Every cell of `h` is the cell of `g` through the gate with the glyph
      the border gives it, or as it was. */
  ghost predicate BorderDrawn(g: Grid, h: Grid, ib: Boundry, st: Style, z: uint8)
  {
    |h| == |g| && (forall y :: 0 <= y < |h| ==> |h[y]| == |g[y]|) &&
    forall y, x :: 0 <= y < |h| && 0 <= x < |h[y]| ==> h[y][x] == Bordered(g[y][x], st, z, BorderGlyph(ib, x, y))
  }

  /** The grid a border leaves on `g`, cell by cell. */
  function Bordering(g: Grid, ib: Boundry, st: Style, z: uint8): (h: Grid)
    ensures BorderDrawn(g, h, ib, st, z)
  {
    seq(|g|, y requires 0 <= y < |g| =>
      seq(|g[y]|, x requires 0 <= x < |g[y]| => Bordered(g[y][x], st, z, BorderGlyph(ib, x, y))))
  }

  /** BorderDrawn pins the new grid down: it is Bordering's. */
  lemma BorderDrawnUnique(g: Grid, h: Grid, ib: Boundry, st: Style, z: uint8)
    requires BorderDrawn(g, h, ib, st, z)
    ensures h == Bordering(g, ib, st, z)
  {
    var r := Bordering(g, ib, st, z);
    forall y | 0 <= y < |h|
      ensures h[y] == r[y]
    {
    }
  }

  /** One paint of a single cell. */
  predicate Painted(g: Grid, h: Grid, x: int, y: int, st: Style, r: char, z: uint8)
  {
    0 <= y < |g| && 0 <= x < |g[y]| && h == g[y := g[y][x := Gate(g[y][x], st, r, z)]]
  }

  /** The four strokes of drawBorder, cell by cell: the rows first, then the
      columns over them. */
  lemma StrokeCells(g0: Grid, ib: Boundry, a: Attributes)
    requires CornersOnGrid(g0, ib) && Rect(g0, |g0[0]|)
    ensures StrokesDrawn(g0, ColumnsDrawn(RowsDrawn(g0, a, ib), a, ib), ib, Pen(a), a.zIndex)
  {
    var st, z := Pen(a), a.zIndex;
    var g2 := RowsDrawn(g0, a, ib);
    var g4 := ColumnsDrawn(g2, a, ib);
    forall y, x | 0 <= y < |g4| && 0 <= x < |g4[y]|
      ensures g4[y][x] == Bordered(g0[y][x], st, z, StrokeGlyph(ib, x, y))
    {
      var c := g0[y][x];
      var row := if (y == ib.firstY || y == ib.secondY) && ib.firstX <= x < ib.secondX then Some('─') else None;
      assert g2[y][x] == Bordered(c, st, z, row);
      var g3 := Region(g2, RepeatRect(ib.firstX, ib.firstY, Height(ib), AxisY), Ink(a, '│'));
      assert g3[y][x] == Bordered(Bordered(c, st, z, row), st, z,
                                  if x == ib.firstX && ib.firstY <= y < ib.secondY then Some('│') else None);
    }
  }

  // ------------------------------------------------------------------
  // Text
  // ------------------------------------------------------------------

  /** The rectangle the text goes in: one cell in from every edge when the
      element has a border. */
  function TextArea(a: Attributes, b: Boundry): (area: Boundry)
    ensures area == if a.border then Shrink(b, 1) else b
  {
    if a.border then Shrink(b, 1) else b
  }

  /** Where row `y` of the text starts in the bytes, for rows `w` cells
      wide of which the first `s0` are scrolled past. */
  function RowOffset(y: int, s0: nat, w: nat): (off: nat)
    ensures y <= s0 ==> off == 0
    decreases y - s0
  {
    if y <= s0 then 0 else RowOffset(y - 1, s0, w) + w
  }

  /** The byte the text puts on cell (x, y) of a text area `w` cells wide
      whose first `s0` rows are scrolled past: rows are filled left to
      right, `w` bytes each, from row `s0` on. */
  function TextByte(bytes: seq<uint8>, s0: nat, w: nat, x: int, y: int): (r: Option<uint8>)
    ensures r.Some? <==> s0 <= y && 0 <= x < w && RowOffset(y, s0, w) + x < |bytes|
    ensures r.Some? ==> r.value == bytes[RowOffset(y, s0, w) + x]
  {
    if s0 <= y && 0 <= x < w && RowOffset(y, s0, w) + x < |bytes| then Some(bytes[RowOffset(y, s0, w) + x]) else None
  }

  /** Each row starts `w` bytes after the one before, so a later row starts
      at least a row further on. */
  lemma {:induction false} RowOffsetMono(y: int, i: int, s0: nat, w: nat)
    requires s0 <= y < i
    ensures RowOffset(i, s0, w) >= RowOffset(y, s0, w) + w
    decreases i - y
  {
    if i > y + 1 {
      RowOffsetMono(y, i - 1, s0, w);
    }
  }

  /** The grid after the text has reached row `y`, column `x` of the area
      whose top-left cell is (fx, fy) and which is `w` cells wide: every
      cell before that point takes its byte, as a character, through the
      gate; all other cells are as they were. */
  function Texted(g: Grid, fx: int, fy: int, w: nat, st: Style, z: uint8, bytes: seq<uint8>, s0: nat, y: int, x: int): (r: Grid)
    ensures |r| == |g| && forall i :: 0 <= i < |g| ==> |r[i]| == |g[i]|
  {
    seq(|g|, i requires 0 <= i < |g| =>
      seq(|g[i]|, j requires 0 <= j < |g[i]| =>
        var t := TextByte(bytes, s0, w, j - fx, i - fy);
        if t.Some? && (i - fy < y || (i - fy == y && j - fx < x)) then Gate(g[i][j], st, t.value as char, z)
        else g[i][j]))
  }

  /** How many whole rows of `w` cells `len` bytes fill. */
  function FullRows(len: nat, w: nat): nat
    requires w >= 1
    decreases len
  {
    if len < w then 0 else 1 + FullRows(len - w, w)
  }

  /** The bytes up to a part row of row `y` fill the rows from s0 to y. */
  lemma {:induction false} FullRowsExact(y: int, s0: nat, w: nat, x: nat)
    requires s0 <= y && x < w
    ensures FullRows(RowOffset(y, s0, w) + x, w) == y - s0
    decreases y - s0
  {
    if y > s0 {
      FullRowsExact(y - 1, s0, w, x);
    }
  }

  /** Bytes reaching the start of row `y` fill at least the rows before it. */
  lemma {:induction false} FullRowsAtLeast(y: int, s0: nat, w: nat, len: nat)
    requires w >= 1 && s0 <= y && RowOffset(y, s0, w) <= len
    ensures y - s0 <= FullRows(len, w)
    decreases y - s0
  {
    if y > s0 {
      FullRowsAtLeast(y - 1, s0, w, len - w);
    }
  }

  /** The number of rows renderText reports as used: the rows scrolled past
      and the rows the text filled completely, at most the height. */
  function TextRows(len: nat, w: nat, h: nat, s0: nat): (n: nat)
    requires w >= 1
    ensures n <= h
    ensures n == h || n == s0 + FullRows(len, w)
  {
    if s0 + FullRows(len, w) < h then s0 + FullRows(len, w) else h
  }

  /** renderText: the content, converted to UTF-8 bytes, written one byte
      per cell (each byte read as a character of its own value) into the
      text area, `w` bytes per row, starting at row ScrollY and stopping
      when the bytes or the rows run out. With no content, or an area with
      no width or no height, nothing is written and the area is returned;
      otherwise the result is the area, made inclusive, with its top edge
      moved down by the number of rows TextRows counts. */
  method RenderText(v: View, a: Attributes, b: Boundry, content: string, scrollY: int) returns (r: Boundry)
    requires v.Valid()
    requires content == [] || Width(TextArea(a, b)) < 1 || Height(TextArea(a, b)) < 1 || v.Fits(TextArea(a, b))
    modifies v
    ensures v.Valid()
    ensures content == [] || Width(TextArea(a, b)) < 1 || Height(TextArea(a, b)) < 1 ==>
              r == TextArea(a, b) && v.rows == old(v.rows)
    ensures content != [] && Width(TextArea(a, b)) >= 1 && Height(TextArea(a, b)) >= 1 ==>
              var area := TextArea(a, b);
              r == ShrinkMask(Indexify(area), TextRows(|Utf8String(content)|, Width(area), Height(area), if scrollY < 0 then 0 else scrollY), MaskTop) &&
              v.rows == Texted(old(v.rows), area.firstX, area.firstY, Width(area), Pen(a), a.zIndex,
                               Utf8String(content), if scrollY < 0 then 0 else scrollY, Height(area), 0)
  {
    var boundry := b;
    if a.border {
      boundry := Shrink(boundry, 1);
    }
    var text := Utf8String(content);
    var n := 0;
    if content == [] || Width(boundry) < 1 || Height(boundry) < 1 {
      return boundry;
    }
    ghost var area := boundry;
    assert area == TextArea(a, b);
    boundry := Indexify(boundry);
    n := PrintTextRows(v, a, boundry, text, scrollY);
    return ShrinkMask(boundry, n, MaskTop);
  }

  /** The loop of renderText over the rows of the (inclusive) text area:
      rows above ScrollY are passed over and counted; every other row takes
      its share of the bytes, until a row runs out of them. */
  method PrintTextRows(v: View, a: Attributes, ib: Boundry, text: seq<uint8>, scrollY: int) returns (n: nat)
    requires v.Valid() && Width(ib) >= 0 && Height(ib) >= 0
    requires v.Fits(Boundry(ib.firstX, ib.firstY, ib.secondX + 1, ib.secondY + 1))
    modifies v
    ensures v.Valid()
    ensures n == TextRows(|text|, Width(ib) + 1, Height(ib) + 1, if scrollY < 0 then 0 else scrollY)
    ensures v.rows == Texted(old(v.rows), ib.firstX, ib.firstY, Width(ib) + 1, Pen(a), a.zIndex,
                             text, if scrollY < 0 then 0 else scrollY, Height(ib) + 1, 0)
  {
    ghost var g, bytes, w, h := v.rows, text, Width(ib) + 1, Height(ib) + 1;
    ghost var s0: nat := if scrollY < 0 then 0 else scrollY;
    TextedNone(g, ib.firstX, ib.firstY, w, Pen(a), a.zIndex, bytes, s0);
    var rest := text;
    n := 0;
    var y := 0;
    while y <= Height(ib)
      invariant 0 <= y <= h && n == y && v.Valid()
      invariant RowOffset(y, s0, w) <= |bytes| && rest == bytes[RowOffset(y, s0, w)..]
      invariant v.rows == Texted(g, ib.firstX, ib.firstY, w, Pen(a), a.zIndex, bytes, s0, y, 0)
    {
      var stopped;
      stopped, rest := PrintTextRow(v, a, ib.firstX, ib.firstY, y, Width(ib) + 1, scrollY, rest, g, bytes, s0, h);
      if stopped {
        return;
      }
      n := n + 1;
      y := y + 1;
    }
    if s0 < h {
      FullRowsAtLeast(h, s0, w, |bytes|);
    }
  }

  /** One pass of renderText's outer loop, on row `fy + y`: a row scrolled
      past is skipped; otherwise the bytes of `text`, one per cell from
      column `fx`, through the gate, until the row is full or the bytes run
      out. Running out first stops the whole text, and then the rows
      reached are all the rows counted; a full row passes the rest of the
      text on. */
  method PrintTextRow(v: View, a: Attributes, fx: int, fy: int, y: nat, w: nat, scrollY: int, text: seq<uint8>,
                      ghost g: Grid, ghost bytes: seq<uint8>, ghost s0: nat, ghost h: nat)
    returns (stopped: bool, rest: seq<uint8>)
    requires s0 == (if scrollY < 0 then 0 else scrollY)
    requires v.Valid() && y < h && w >= 1
    requires 0 <= fy + y < |g| && 0 <= fx && fx + w <= |g[fy + y]|
    requires RowOffset(y, s0, w) <= |bytes| && text == bytes[RowOffset(y, s0, w)..]
    requires v.rows == Texted(g, fx, fy, w, Pen(a), a.zIndex, bytes, s0, y, 0)
    modifies v
    ensures v.Valid()
    ensures stopped <==> s0 <= y && |text| < w
    ensures stopped ==> v.rows == Texted(g, fx, fy, w, Pen(a), a.zIndex, bytes, s0, h, 0) &&
                        TextRows(|bytes|, w, h, s0) == y
    ensures !stopped ==> v.rows == Texted(g, fx, fy, w, Pen(a), a.zIndex, bytes, s0, y + 1, 0) &&
                         RowOffset(y + 1, s0, w) <= |bytes| && rest == bytes[RowOffset(y + 1, s0, w)..]
  {
    if y < scrollY {
      assert RowOffset(y + 1, s0, w) == 0;
      TextRowSkipped(g, fx, fy, w, Pen(a), a.zIndex, bytes, s0, y);
      return false, text;
    }
    stopped := PrintTextCells(v, a, fx, fy, y, w, text, g, bytes, s0, h);
    if stopped {
      return true, text;
    }
    assert RowOffset(y + 1, s0, w) == RowOffset(y, s0, w) + w;
    return false, text[w..];
  }

  /** The inner loop of renderText on a row not scrolled past: the bytes of
      `text`, one per cell from column `fx` of row `fy + y`, through the
      gate, until the row is full or the bytes run out. */
  method PrintTextCells(v: View, a: Attributes, fx: int, fy: int, y: nat, w: nat, text: seq<uint8>,
                        ghost g: Grid, ghost bytes: seq<uint8>, ghost s0: nat, ghost h: nat) returns (stopped: bool)
    requires v.Valid() && s0 <= y < h && w >= 1
    requires 0 <= fy + y < |g| && 0 <= fx && fx + w <= |g[fy + y]|
    requires RowOffset(y, s0, w) <= |bytes| && text == bytes[RowOffset(y, s0, w)..]
    requires v.rows == Texted(g, fx, fy, w, Pen(a), a.zIndex, bytes, s0, y, 0)
    modifies v
    ensures v.Valid()
    ensures stopped <==> |text| < w
    ensures stopped ==> v.rows == Texted(g, fx, fy, w, Pen(a), a.zIndex, bytes, s0, h, 0) &&
                        TextRows(|bytes|, w, h, s0) == y
    ensures !stopped ==> v.rows == Texted(g, fx, fy, w, Pen(a), a.zIndex, bytes, s0, y + 1, 0)
  {
    var x := 0;
    while x < w
      invariant 0 <= x <= w && x <= |text| && v.Valid()
      invariant v.rows == Texted(g, fx, fy, w, Pen(a), a.zIndex, bytes, s0, y, x)
    {
      if x >= |text| {
        TextStops(g, fx, fy, w, h, Pen(a), a.zIndex, bytes, s0, y, x);
        return true;
      }
      TextStep(g, v.rows, fx, fy, w, Pen(a), a.zIndex, bytes, s0, y, x);
      v.PrintRune(fx + x, fy + y, a.color, a.backGroundColor, a.zIndex, text[x] as char);
      x := x + 1;
    }
    TextRowDone(g, fx, fy, w, Pen(a), a.zIndex, bytes, s0, y);
    return false;
  }

  /** Before the text starts, the grid is as it was. */
  lemma TextedNone(g: Grid, fx: int, fy: int, w: nat, st: Style, z: uint8, bytes: seq<uint8>, s0: nat)
    ensures Texted(g, fx, fy, w, st, z, bytes, s0, 0, 0) == g
  {
    var r := Texted(g, fx, fy, w, st, z, bytes, s0, 0, 0);
    forall i | 0 <= i < |g|
      ensures r[i] == g[i]
    {
    }
  }

  /** Writing the byte at (x, y) moves the text one cell on. */
  lemma TextStep(g: Grid, rows: Grid, fx: int, fy: int, w: nat, st: Style, z: uint8, bytes: seq<uint8>, s0: nat, y: nat, x: nat)
    requires rows == Texted(g, fx, fy, w, st, z, bytes, s0, y, x)
    requires 0 <= fy + y < |g| && 0 <= fx + x < |g[fy + y]| && x < w
    requires s0 <= y && RowOffset(y, s0, w) + x < |bytes|
    ensures rows[fy + y := rows[fy + y][fx + x := Gate(rows[fy + y][fx + x], st, bytes[RowOffset(y, s0, w) + x] as char, z)]] ==
            Texted(g, fx, fy, w, st, z, bytes, s0, y, x + 1)
  {
    var r2 := Texted(g, fx, fy, w, st, z, bytes, s0, y, x + 1);
    TextStepRow(g, fx, fy, w, st, z, bytes, s0, y, x);
    forall i | 0 <= i < |g| && i != fy + y
      ensures rows[i] == r2[i]
    {
    }
  }

  /** The row the step writes to: one more cell of text on it. */
  lemma TextStepRow(g: Grid, fx: int, fy: int, w: nat, st: Style, z: uint8, bytes: seq<uint8>, s0: nat, y: nat, x: nat)
    requires 0 <= fy + y < |g| && 0 <= fx + x < |g[fy + y]| && x < w
    requires s0 <= y && RowOffset(y, s0, w) + x < |bytes|
    ensures var row := Texted(g, fx, fy, w, st, z, bytes, s0, y, x)[fy + y];
            row[fx + x := Gate(row[fx + x], st, bytes[RowOffset(y, s0, w) + x] as char, z)] ==
            Texted(g, fx, fy, w, st, z, bytes, s0, y, x + 1)[fy + y]
  {
    var row := Texted(g, fx, fy, w, st, z, bytes, s0, y, x)[fy + y];
    var row2 := Texted(g, fx, fy, w, st, z, bytes, s0, y, x + 1)[fy + y];
    forall j | 0 <= j < |row|
      ensures row[fx + x := Gate(row[fx + x], st, bytes[RowOffset(y, s0, w) + x] as char, z)][j] == row2[j]
    {
      if j == fx + x {
        assert TextByte(bytes, s0, w, x, y) == Some(bytes[RowOffset(y, s0, w) + x]);
      }
    }
  }

  /** The last row the text reached: the rest of the area keeps what it
      had, and the rows counted are the rows reached. */
  lemma TextStops(g: Grid, fx: int, fy: int, w: nat, h: nat, st: Style, z: uint8, bytes: seq<uint8>, s0: nat, y: nat, x: nat)
    requires s0 <= y < h && x < w && |bytes| == RowOffset(y, s0, w) + x
    ensures Texted(g, fx, fy, w, st, z, bytes, s0, y, x) == Texted(g, fx, fy, w, st, z, bytes, s0, h, 0)
    ensures TextRows(|bytes|, w, h, s0) == y
  {
    var r1, r2 := Texted(g, fx, fy, w, st, z, bytes, s0, y, x), Texted(g, fx, fy, w, st, z, bytes, s0, h, 0);
    forall i | 0 <= i < |g|
      ensures r1[i] == r2[i]
    {
      forall j | 0 <= j < |g[i]|
        ensures r1[i][j] == r2[i][j]
      {
        if s0 <= i - fy && 0 <= j - fx < w && !(i - fy < y || (i - fy == y && j - fx < x)) {
          if i - fy > y {
            RowOffsetMono(y, i - fy, s0, w);
          }
        }
      }
    }
    assert TextRows(|bytes|, w, h, s0) == y by {
      FullRowsExact(y, s0, w, x);
    }
  }

  /** A row written to its end is the same as the next row not started. */
  lemma TextRowDone(g: Grid, fx: int, fy: int, w: nat, st: Style, z: uint8, bytes: seq<uint8>, s0: nat, y: nat)
    ensures Texted(g, fx, fy, w, st, z, bytes, s0, y, w) == Texted(g, fx, fy, w, st, z, bytes, s0, y + 1, 0)
  {
    var r1, r2 := Texted(g, fx, fy, w, st, z, bytes, s0, y, w), Texted(g, fx, fy, w, st, z, bytes, s0, y + 1, 0);
    forall i | 0 <= i < |g|
      ensures r1[i] == r2[i]
    {
    }
  }

  /** A row scrolled past gets no text. */
  lemma TextRowSkipped(g: Grid, fx: int, fy: int, w: nat, st: Style, z: uint8, bytes: seq<uint8>, s0: nat, y: nat)
    requires y < s0
    ensures Texted(g, fx, fy, w, st, z, bytes, s0, y, 0) == Texted(g, fx, fy, w, st, z, bytes, s0, y + 1, 0)
  {
    var r1, r2 := Texted(g, fx, fy, w, st, z, bytes, s0, y, 0), Texted(g, fx, fy, w, st, z, bytes, s0, y + 1, 0);
    forall i | 0 <= i < |g|
      ensures r1[i] == r2[i]
    {
    }
  }
}
