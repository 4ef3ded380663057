/** The screen buffer (core/engine/view/view.go): a grid of cells, row by
    row, that the renderer paints into and the engine copies to the
    terminal. Every painting operation goes through the z-index gate: a cell
    takes a new character only from a paint at or above the z-index it was
    last painted at. Indexing outside the grid is a run-time panic in the
    source; here it is excluded by each method's precondition, which is
    exactly the condition under which the source does not panic. */
module Screen {
  import opened Kinds
  import opened Buffer
  import opened Geometry

  // ------------------------------------------------------------------
  // Cells
  // ------------------------------------------------------------------

  /** The z-index gate every paint goes through: a paint at or above the
      cell's z-index takes the cell, with its style, character and
      z-index, and a paint below it leaves the cell as it was. */
  function Gate(c: Cell, st: Style, r: char, z: uint8): (d: Cell)
    ensures c.zIndex <= z ==> d == c.(style := st, content := r, zIndex := z)
    ensures z < c.zIndex ==> d == c
    ensures d.zIndex == if c.zIndex <= z then z else c.zIndex
    ensures d.element == c.element
  {
    if c.zIndex <= z then c.(style := st, content := r, zIndex := z) else c
  }

  /** A cell painted at some z-index refuses every later paint below it. */
  lemma GateKeepsHigher(c: Cell, s1: Style, r1: char, z1: uint8, s2: Style, r2: char, z2: uint8)
    requires c.zIndex <= z1 && z2 < z1
    ensures Gate(Gate(c, s1, r1, z1), s2, r2, z2) == Gate(c, s1, r1, z1)
  {
  }

  /** Paints at different z-indices may come in either order: the higher
      one shows. At the same z-index the later one shows. */
  lemma GateCommutes(c: Cell, s1: Style, r1: char, z1: uint8, s2: Style, r2: char, z2: uint8)
    requires z1 != z2
    ensures Gate(Gate(c, s1, r1, z1), s2, r2, z2) == Gate(Gate(c, s2, r2, z2), s1, r1, z1)
  {
  }

  lemma GateLaterWins(c: Cell, s1: Style, r1: char, s2: Style, r2: char, z: uint8)
    ensures Gate(Gate(c, s1, r1, z), s2, r2, z) == Gate(c, s2, r2, z)
  {
  }

  /** Flushing blanks a cell but keeps its z-index, so it still refuses a
      paint below the z-index it had. */
  lemma FlushedStillRefuses(c: Cell, st: Style, r: char, z: uint8)
    requires z < c.zIndex
    ensures Gate(Flushed(c), st, r, z) == Flushed(c)
  {
  }

  /** What the rectangle operations do to each cell they cover. */
  datatype Stroke = Paint(st: Style, r: char, z: uint8) | Clear | Fill(st: Style)

  function Stroked(c: Cell, k: Stroke): (d: Cell)
  {
    match k
    case Paint(st, r, z) => Gate(c, st, r, z)
    case Clear => c.(content := ' ', style := Style(0, 0), zIndex := 0)
    case Fill(st) => c.(style := st)
  }

  /** A cleared cell accepts every paint. */
  lemma ClearedAcceptsAll(c: Cell, st: Style, r: char, z: uint8)
    ensures Gate(Stroked(c, Clear), st, r, z) == c.(style := st, content := r, zIndex := z)
  {
  }

  /** Doing a stroke twice is doing it once. */
  lemma StrokeIdempotent(c: Cell, k: Stroke)
    ensures Stroked(Stroked(c, k), k) == Stroked(c, k)
  {
  }

  // ------------------------------------------------------------------
  // Grids
  // ------------------------------------------------------------------

  type Grid = seq<seq<Cell>>

  /** Every row `w` cells long. */
  predicate Rect(g: Grid, w: int)
  {
    forall i :: 0 <= i < |g| ==> |g[i]| == w
  }

  /** A fresh row of `w` blank cells. */
  function BlankRow(w: nat): (row: seq<Cell>)
    ensures |row| == w && forall j :: 0 <= j < w ==> row[j] == NewCell()
  {
    seq(w, _ => NewCell())
  }

  /** Every cell of a row flushed. */
  function FlushedRow(row: seq<Cell>): (r: seq<Cell>)
    ensures |r| == |row| && forall j :: 0 <= j < |row| ==> r[j] == Flushed(row[j])
  {
    seq(|row|, j requires 0 <= j < |row| => Flushed(row[j]))
  }

  /** Cells `a` up to `b` of a row take the stroke. */
  function RowStroke(row: seq<Cell>, a: int, b: int, k: Stroke): (r: seq<Cell>)
    ensures |r| == |row|
    ensures forall j :: 0 <= j < |row| ==> r[j] == if a <= j < b then Stroked(row[j], k) else row[j]
  {
    seq(|row|, j requires 0 <= j < |row| => if a <= j < b then Stroked(row[j], k) else row[j])
  }

  /** Every cell inside the rectangle takes the stroke; no other cell
      changes. */
  function Region(g: Grid, b: Boundry, k: Stroke): (h: Grid)
    ensures |h| == |g|
    ensures forall i :: 0 <= i < |g| ==> h[i] == if b.firstY <= i < b.secondY then RowStroke(g[i], b.firstX, b.secondX, k) else g[i]
  {
    seq(|g|, i requires 0 <= i < |g| => if b.firstY <= i < b.secondY then RowStroke(g[i], b.firstX, b.secondX, k) else g[i])
  }

  /** An empty rectangle changes nothing. */
  lemma RegionEmpty(g: Grid, b: Boundry, k: Stroke)
    requires Width(b) <= 0 || Height(b) <= 0
    ensures Region(g, b, k) == g
  {
    forall i | 0 <= i < |g|
      ensures Region(g, b, k)[i] == g[i]
    {
    }
  }

  /** Stroking a rectangle twice is stroking it once. */
  lemma RegionIdempotent(g: Grid, b: Boundry, k: Stroke)
    ensures Region(Region(g, b, k), b, k) == Region(g, b, k)
  {
    var h := Region(g, b, k);
    forall i | 0 <= i < |g|
      ensures Region(h, b, k)[i] == h[i]
    {
      forall j | 0 <= j < |g[i]|
        ensures Region(h, b, k)[i][j] == h[i][j]
      {
        StrokeIdempotent(g[i][j], k);
      }
    }
  }

  /** The byte offset of the `k`th character of a string, which is where a
      range loop over the string puts it. */
  function Offset(s: string, k: nat): (n: nat)
    requires k <= |s|
    ensures n >= k
  {
    if k == 0 then 0 else Offset(s, k - 1) + Utf8Len(s[k - 1])
  }

  /** The offset counts exactly the bytes of the characters before it. */
  lemma {:induction false} OffsetIsByteCount(s: string, k: nat)
    requires k <= |s|
    ensures Offset(s, k) == |Utf8String(s[..k])|
  {
    if k > 0 {
      OffsetIsByteCount(s, k - 1);
      assert s[..k][..k - 1] == s[..k - 1];
    }
  }

  /** Offsets grow with every character. */
  lemma {:induction false} OffsetGrows(s: string, k: nat, m: nat)
    requires k < m <= |s|
    ensures Offset(s, k) < Offset(s, m)
    decreases m
  {
    if k < m - 1 {
      OffsetGrows(s, k, m - 1);
    }
  }

  /** The first `k` characters of `s` painted along a row from `x`. */
  function PaintText(row: seq<Cell>, x: int, st: Style, z: uint8, s: string, k: nat): (r: seq<Cell>)
    requires k <= |s|
    requires k == 0 || (0 <= x && x + Offset(s, k - 1) < |row|)
    ensures |r| == |row|
  {
    if k == 0 then row
    else
      OffsetGrows0(s, k - 1);
      var prev := PaintText(row, x, st, z, s, k - 1);
      var at := x + Offset(s, k - 1);
      prev[at := Gate(prev[at], st, s[k - 1], z)]
  }

  lemma OffsetGrows0(s: string, k: nat)
    requires k < |s|
    ensures k == 0 || Offset(s, k - 1) < Offset(s, k)
  {
    if k > 0 {
      OffsetGrows(s, k - 1, k);
    }
  }

  /** Each character lands in the cell at its byte offset, through the
      gate. */
  lemma {:induction false} PaintTextAt(row: seq<Cell>, x: int, st: Style, z: uint8, s: string, k: nat, m: nat)
    requires m < k <= |s|
    requires 0 <= x && x + Offset(s, k - 1) < |row|
    ensures x + Offset(s, m) < |row| &&
            PaintText(row, x, st, z, s, k)[x + Offset(s, m)] == Gate(row[x + Offset(s, m)], st, s[m], z)
  {
    if m < k - 1 {
      OffsetGrows(s, m, k - 1);
    }
    OffsetGrows0(s, k - 1);
    var prev := PaintText(row, x, st, z, s, k - 1);
    var at := x + Offset(s, k - 1);
    assert PaintText(row, x, st, z, s, k) == prev[at := Gate(prev[at], st, s[k - 1], z)];
    if m == k - 1 {
      OffsetsBelow(s, k - 1);
      PaintTextElsewhere(row, x, st, z, s, k - 1, at);
    } else {
      PaintTextAt(row, x, st, z, s, k - 1, m);
    }
  }

  /** The cells no character's offset reaches keep what they had. */
  lemma {:induction false} PaintTextElsewhere(row: seq<Cell>, x: int, st: Style, z: uint8, s: string, k: nat, j: int)
    requires k <= |s|
    requires k == 0 || (0 <= x && x + Offset(s, k - 1) < |row|)
    requires 0 <= j < |row|
    requires forall m :: 0 <= m < k ==> j != x + Offset(s, m)
    ensures PaintText(row, x, st, z, s, k)[j] == row[j]
  {
    if k > 0 {
      OffsetGrows0(s, k - 1);
      PaintTextElsewhere(row, x, st, z, s, k - 1, j);
    }
  }

  /** Every character before the k-th starts at a smaller offset. */
  lemma OffsetsBelow(s: string, k: nat)
    requires k < |s|
    ensures forall m :: 0 <= m < k ==> Offset(s, m) < Offset(s, k)
  {
    forall m | 0 <= m < k
      ensures Offset(s, m) < Offset(s, k)
    {
      OffsetGrows(s, m, k);
    }
  }

  /** The grid after Resize: `h` rows of `w` cells; the cells the old and the
      new grid share keep their contents, the rest are blank. */
  function Resized(g: Grid, w: nat, h: nat): (r: Grid)
    ensures |r| == h && Rect(r, w)
    ensures forall i, j :: 0 <= i < h && 0 <= j < w ==>
              r[i][j] == if i < |g| && j < |g[i]| then g[i][j] else NewCell()
  {
    seq(h, i requires 0 <= i < h =>
      if i < |g| then
        (if |g[i]| >= w then g[i][..w] else g[i] + BlankRow(w - |g[i]|))
      else BlankRow(w))
  }

  /** Growing the screen and shrinking it back restores it. */
  lemma ResizeShrinkBack(g: Grid, w: nat, h: nat, w2: nat, h2: nat)
    requires |g| == h && Rect(g, w) && w <= w2 && h <= h2
    ensures Resized(Resized(g, w2, h2), w, h) == g
  {
    var r := Resized(Resized(g, w2, h2), w, h);
    forall i | 0 <= i < h
      ensures r[i] == g[i]
    {
    }
  }

  // ------------------------------------------------------------------
  // The view
  // ------------------------------------------------------------------

  /** The axes PrintRuneRepeat strokes a rectangle for. */
  predicate Straight(axis: AxisMask)
  {
    axis == AxisX || axis == AxisY || axis == AxisBoth
  }

  /** The rectangle PrintRuneRepeat strokes: `rp` cells along the row, down
      the column, or both ways from (x, y). */
  function RepeatRect(x: int, y: int, rp: int, axis: AxisMask): (b: Boundry)
    requires Straight(axis)
    ensures b.firstX == x && b.firstY == y
    ensures Width(b) == (if axis == AxisY then 1 else rp)
    ensures Height(b) == (if axis == AxisX then 1 else rp)
  {
    if axis == AxisX then Boundry(x, y, x + rp, y + 1)
    else if axis == AxisY then Boundry(x, y, x + 1, y + rp)
    else Boundry(x, y, x + rp, y + rp)
  }

  /** Whether painting the rectangle stays inside the grid `g`, whose rows
      are as long as its first: an empty rectangle touches no cell. */
  predicate FitsGrid(g: Grid, b: Boundry)
  {
    b.firstX >= b.secondX || b.firstY >= b.secondY ||
    (0 <= b.firstY && b.secondY <= |g| && 0 <= b.firstX && b.secondX <= |g[0]|)
  }

  class View {
    var rows: Grid

    /** All rows are as wide as the first. */
    ghost predicate Valid()
      reads this
    {
      |rows| == 0 || Rect(rows, |rows[0]|)
    }

    /** Whether painting the rectangle stays inside the grid: an empty
        rectangle touches no cell. */
    predicate Fits(b: Boundry)
      reads this
    {
      FitsGrid(rows, b)
    }

    /** NewView: `height` rows of `width` blank cells. */
    constructor (width: nat, height: nat)
      ensures Valid() && |rows| == height && Rect(rows, width)
      ensures forall i, j :: 0 <= i < height && 0 <= j < width ==> rows[i][j] == NewCell()
    {
      var g: Grid := [];
      var i := 0;
      while i < height
        invariant i <= height && |g| == i && Rect(g, width)
        invariant forall a, b :: 0 <= a < i && 0 <= b < width ==> g[a][b] == NewCell()
      {
        var row: seq<Cell> := [];
        while |row| < width
          invariant |row| <= width && forall b :: 0 <= b < |row| ==> row[b] == NewCell()
        {
          row := row + [NewCell()];
        }
        g := g + [row];
        i := i + 1;
      }
      rows := g;
    }

    function Width(): int
      reads this
      requires |rows| >= 1
    {
      |rows[0]|
    }

    function Height(): int
      reads this
    {
      |rows|
    }

    /** View.Boundry: the rectangle of the whole grid. A point is inside it
        exactly when it names a cell. */
    function Bounds(): (b: Boundry)
      reads this
      requires |rows| >= 1 && Valid()
      ensures b.firstX == 0 && b.firstY == 0 && b.secondY == |rows| && Rect(rows, b.secondX)
    {
      NewBoundry(0, 0, Width(), Height())
    }

    function GetCell(x: int, y: int): Cell
      reads this
      requires 0 <= y < |rows| && 0 <= x < |rows[y]|
    {
      rows[y][x]
    }

    /** View.Slice: `l` cells of row `y` from column `x`. */
    function Slice(x: int, y: int, l: int): (cl: seq<Cell>)
      reads this
      requires 0 <= y < |rows| && 0 <= x && 0 <= l && x + l <= |rows[y]|
      ensures |cl| == l && forall i :: 0 <= i < l ==> cl[i] == GetCell(x + i, y)
    {
      rows[y][x..x + l]
    }

    /** View.Flush: every cell blank again; z-indices stay. */
    method Flush()
      modifies this
      ensures |rows| == |old(rows)|
      ensures forall i :: 0 <= i < |rows| ==> rows[i] == FlushedRow(old(rows)[i])
    {
      var i := 0;
      while i < |rows|
        invariant 0 <= i <= |rows| && |rows| == |old(rows)|
        invariant forall a :: i <= a < |rows| ==> rows[a] == old(rows)[a]
        invariant forall a :: 0 <= a < i ==> rows[a] == FlushedRow(old(rows)[a])
      {
        var row := rows[i];
        var j := 0;
        while j < |row|
          invariant 0 <= j <= |row| && |row| == |rows[i]|
          invariant forall b :: 0 <= b < j ==> row[b] == Flushed(rows[i][b])
          invariant forall b :: j <= b < |row| ==> row[b] == rows[i][b]
        {
          row := row[j := Flushed(row[j])];
          j := j + 1;
        }
        rows := rows[i := row];
        i := i + 1;
      }
    }

    /** View.PrintRune: one cell through the gate. */
    method PrintRune(x: int, y: int, fg: int, bg: int, z: uint8, r: char)
      requires 0 <= y < |rows| && 0 <= x < |rows[y]|
      modifies this
      ensures rows == old(rows)[y := old(rows)[y][x := Gate(old(rows)[y][x], NewStyle(fg, bg), r, z)]]
      ensures old(Valid()) ==> Valid()
    {
      rows := rows[y := rows[y][x := Gate(rows[y][x], NewStyle(fg, bg), r, z)]];
    }

    /** View.PrintString: the characters along row `y` from column `x`, each
        at its byte offset, each through the gate. */
    method PrintString(x: int, y: int, fg: int, bg: int, z: uint8, s: string)
      requires s == [] || (0 <= y < |rows| && 0 <= x && x + Offset(s, |s| - 1) < |rows[y]|)
      modifies this
      ensures s == [] ==> rows == old(rows)
      ensures s != [] ==> rows == old(rows)[y := PaintText(old(rows)[y], x, NewStyle(fg, bg), z, s, |s|)]
    {
      var k := 0;
      while k < |s|
        invariant 0 <= k <= |s|
        invariant k == 0 ==> rows == old(rows)
        invariant k > 0 ==> x + Offset(s, k - 1) < |old(rows)[y]|
        invariant k > 0 ==> rows == old(rows)[y := PaintText(old(rows)[y], x, NewStyle(fg, bg), z, s, k)]
      {
        if k < |s| - 1 {
          OffsetGrows(s, k, |s| - 1);
        }
        var at := x + Offset(s, k);
        rows := rows[y := rows[y][at := Gate(rows[y][at], NewStyle(fg, bg), s[k], z)]];
        k := k + 1;
      }
    }

    /** View.PrintRuneRepeat along a row, a column or a square, each cell
        through the gate. Any other axis paints along the row from `x` but
        puts the style on the cell mirrored about `x` instead. */
    method PrintRuneRepeat(x: int, y: int, fg: int, bg: int, rp: int, z: uint8, axis: AxisMask, r: char)
      requires Valid()
      requires Straight(axis) ==> Fits(RepeatRect(x, y, rp, axis))
      requires !Straight(axis) && rp > 0 ==>
                 0 <= y < |rows| && 0 <= x && x + rp <= |rows[y]| &&
                 forall j :: x <= j < x + rp && rows[y][j].zIndex <= z ==> 0 <= 2 * x - j
      modifies this
      ensures Straight(axis) ==> rows == Region(old(rows), RepeatRect(x, y, rp, axis), Paint(NewStyle(fg, bg), r, z))
      ensures !Straight(axis) && rp > 0 ==>
                rows == old(rows)[y := Mirrored(old(rows)[y], x, rp, NewStyle(fg, bg), r, z)]
      ensures !Straight(axis) && rp <= 0 ==> rows == old(rows)
      ensures Valid() && |rows| == |old(rows)| && (|rows| > 0 ==> |rows[0]| == |old(rows)[0]|)
    {
      var k := Paint(NewStyle(fg, bg), r, z);
      if axis == AxisX {
        StrokeRect(Boundry(x, y, x + rp, y + 1), k);
      } else if axis == AxisY {
        StrokeRect(Boundry(x, y, x + 1, y + rp), k);
      } else if axis == AxisBoth {
        StrokeRect(Boundry(x, y, x + rp, y + rp), k);
      } else if rp > 0 {
        var st := NewStyle(fg, bg);
        ghost var row0 := rows[y];
        var i := 0;
        while i < rp
          invariant 0 <= i <= rp && |rows| == |old(rows)|
          invariant rows == old(rows)[y := MirroredUpTo(row0, x, i, st, r, z)]
        {
          if rows[y][x + i].zIndex <= z {
            rows := rows[y := rows[y][x - i := rows[y][x - i].(style := st)]];
            rows := rows[y := rows[y][x + i := rows[y][x + i].(content := r, zIndex := z)]];
          }
          i := i + 1;
        }
      }
    }

    /** The loops of ClearBoundry, FillBoundry and PrintRuneRepeat: row by
        row, cell by cell, every cell of the rectangle takes the stroke. */
    method StrokeRect(b: Boundry, k: Stroke)
      requires Valid() && Fits(b)
      modifies this
      ensures rows == Region(old(rows), b, k)
      ensures Valid() && |rows| == |old(rows)| && (|rows| > 0 ==> |rows[0]| == |old(rows)[0]|)
    {
      if b.firstX >= b.secondX || b.firstY >= b.secondY {
        RegionEmpty(rows, b, k);
        return;
      }
      ghost var g := rows;
      var y := b.firstY;
      while y < b.secondY
        invariant b.firstY <= y <= b.secondY && |rows| == |g|
        invariant rows == Region(g, Boundry(b.firstX, b.firstY, b.secondX, y), k)
      {
        var row := rows[y];
        var x := b.firstX;
        while x < b.secondX
          invariant b.firstX <= x <= b.secondX
          invariant row == RowStroke(g[y], b.firstX, x, k)
        {
          row := row[x := Stroked(row[x], k)];
          x := x + 1;
        }
        rows := rows[y := row];
        y := y + 1;
      }
    }

    /** View.ClearBoundry: the cells inside go blank in the default colours
        at z-index 0; the element that painted them stays recorded. */
    method ClearBoundry(b: Boundry)
      requires Valid() && Fits(b)
      modifies this
      ensures Valid() && rows == Region(old(rows), b, Clear)
    {
      StrokeRect(b, Clear);
    }

    /** View.FillBoundry: the cells inside take the style and keep their
        characters and z-indices. */
    method FillBoundry(fg: int, bg: int, b: Boundry)
      requires Valid() && Fits(b)
      modifies this
      ensures rows == Region(old(rows), b, Fill(NewStyle(fg, bg)))
    {
      StrokeRect(b, Fill(NewStyle(fg, bg)));
    }

    /** View.Resize: rows are added or cut to the new height, then every row
        is padded or cut to the new width. The source reads the first row's
        width afterwards, so the height must be at least 1, and a negative
        width makes a slice bound fail. */
    method Resize(width: int, height: int)
      requires Valid() && width >= 0 && height >= 1
      modifies this
      ensures Valid() && rows == Resized(old(rows), width, height)
    {
      ghost var g := rows;
      if |rows| < height {
        var i := |rows|;
        while i < height
          invariant |rows| == i <= height && rows[..|g|] == g
          invariant forall a :: |g| <= a < i ==> rows[a] == BlankRow(width)
        {
          rows := rows + [BlankRow(width)];
          i := i + 1;
        }
      } else {
        rows := rows[..height];
      }
      ghost var mid := rows;
      assert forall a :: 0 <= a < height ==> mid[a] == if a < |g| then g[a] else BlankRow(width);
      if |rows[0]| < width {
        var i := 0;
        while i < |rows|
          invariant 0 <= i <= |rows| && |rows| == height
          invariant forall a :: 0 <= a < i ==> rows[a] == Pad(mid[a], width)
          invariant forall a :: i <= a < |rows| ==> rows[a] == mid[a]
        {
          rows := rows[i := rows[i] + BlankRow(width - |rows[i]|)];
          i := i + 1;
        }
      } else {
        var i := 0;
        while i < |rows|
          invariant 0 <= i <= |rows| && |rows| == height
          invariant forall a :: 0 <= a < i ==> rows[a] == mid[a][..width]
          invariant forall a :: i <= a < |rows| ==> rows[a] == mid[a]
        {
          rows := rows[i := rows[i][..width]];
          i := i + 1;
        }
      }
      ResizeRows(g, mid, rows, width, height);
    }
  }

  /** A row after the first `i` turns of PrintRuneRepeat's mirrored loop. */
  function MirroredUpTo(row: seq<Cell>, x: int, i: nat, st: Style, r: char, z: uint8): (res: seq<Cell>)
    requires 0 <= x && x + i <= |row|
    requires forall j :: x <= j < x + i && row[j].zIndex <= z ==> 0 <= 2 * x - j
    ensures |res| == |row|
    ensures forall j :: x + i <= j < |row| ==> res[j] == row[j]
  {
    if i == 0 then row
    else
      var prev := MirroredUpTo(row, x, i - 1, st, r, z);
      if row[x + i - 1].zIndex <= z then
        var p1 := prev[x - (i - 1) := prev[x - (i - 1)].(style := st)];
        p1[x + i - 1 := p1[x + i - 1].(content := r, zIndex := z)]
      else prev
  }

  function Mirrored(row: seq<Cell>, x: int, rp: nat, st: Style, r: char, z: uint8): (res: seq<Cell>)
    requires 0 <= x && x + rp <= |row|
    requires forall j :: x <= j < x + rp && row[j].zIndex <= z ==> 0 <= 2 * x - j
  {
    MirroredUpTo(row, x, rp, st, r, z)
  }

  /** Resize's two phases: first the rows are added or cut, then every row
      is padded or cut according to the first row's width. */
  lemma ResizeRows(g: Grid, mid: Grid, res: Grid, w: nat, h: nat)
    requires |g| == 0 || Rect(g, |g[0]|)
    requires |mid| == h >= 1 && |res| == h
    requires forall a :: 0 <= a < h ==> mid[a] == if a < |g| then g[a] else BlankRow(w)
    requires |mid[0]| < w ==> forall a :: 0 <= a < h ==> res[a] == Pad(mid[a], w)
    requires |mid[0]| >= w ==> forall a :: 0 <= a < h ==> |mid[a]| >= w && res[a] == mid[a][..w]
    ensures res == Resized(g, w, h)
  {
    forall a | 0 <= a < h
      ensures res[a] == Resized(g, w, h)[a]
    {
      if a < |g| {
        assert |g[a]| == |mid[0]|;
      } else {
        assert BlankRow(w)[..w] == BlankRow(w);
      }
    }
  }

  /** The mirrored loop cell by cell: the cells from `x` on take the
      character and the z-index through the gate, but only cell `x` takes
      the style; each cell left of `x` takes the style when the cell mirrored
      to it on the right passes the gate. */
  lemma {:induction false} MirroredCells(row: seq<Cell>, x: int, i: nat, st: Style, r: char, z: uint8, j: int)
    requires 0 <= x && x + i <= |row|
    requires forall j :: x <= j < x + i && row[j].zIndex <= z ==> 0 <= 2 * x - j
    requires 0 <= j < |row|
    ensures MirroredUpTo(row, x, i, st, r, z)[j] ==
              if x <= j < x + i && row[j].zIndex <= z then
                row[j].(style := if j == x then st else row[j].style, content := r, zIndex := z)
              else if x - i < j < x && row[2 * x - j].zIndex <= z then row[j].(style := st)
              else row[j]
  {
    if i > 0 {
      MirroredCells(row, x, i - 1, st, r, z, j);
    }
  }

  /** A row padded with blanks to `w` cells. */
  function Pad(row: seq<Cell>, w: nat): seq<Cell>
  {
    if |row| >= w then row else row + BlankRow(w - |row|)
  }
}
