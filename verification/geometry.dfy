/** The rectangle algebra of the element model (the Boundry type of
    core/dom/element.go). A rectangle is half-open by convention: the second
    edges are exclusive until Indexify turns them into inclusive indices. Every
    operation is a pure function of its operands. */
module Geometry {
  import Helpers
  import Decimal
  import opened Wrappers

  datatype Boundry = Boundry(firstX: int, firstY: int, secondX: int, secondY: int)

  /** The edge selector of the masked operations: one bit per edge. */
  type PositionMask = bv8

  const MaskTop: PositionMask := 1
  const MaskBottom: PositionMask := 2
  const MaskLeft: PositionMask := 4
  const MaskRight: PositionMask := 8
  const MaskAll: PositionMask := 15

  function NewBoundry(fx: int, fy: int, sx: int, sy: int): (b: Boundry)
    ensures b.firstX == fx && b.firstY == fy && b.secondX == sx && b.secondY == sy
  {
    Boundry(fx, fy, sx, sy)
  }

  function Width(b: Boundry): int { b.secondX - b.firstX }

  function Height(b: Boundry): int { b.secondY - b.firstY }

  /** Exclusive second edges become inclusive indices. */
  function Indexify(b: Boundry): (r: Boundry)
    ensures r.firstX == b.firstX && r.firstY == b.firstY
    ensures Width(r) == Width(b) - 1 && Height(r) == Height(b) - 1
  {
    b.(secondX := b.secondX - 1, secondY := b.secondY - 1)
  }

  /** First edges at or below zero are moved to 1. */
  function Normalize(b: Boundry): (r: Boundry)
    ensures r.firstX >= 1 && r.firstY >= 1
    ensures r.secondX == b.secondX && r.secondY == b.secondY
    ensures b.firstX >= 1 ==> r.firstX == b.firstX
    ensures b.firstY >= 1 ==> r.firstY == b.firstY
  {
    var b1 := if b.firstX <= 0 then b.(firstX := 1) else b;
    if b1.firstY <= 0 then b1.(firstY := 1) else b1
  }

  /** Every edge moves `n` cells inward. */
  function Shrink(b: Boundry, n: int): (r: Boundry)
    ensures Width(r) == Width(b) - 2 * n && Height(r) == Height(b) - 2 * n
    ensures r.firstX == b.firstX + n && r.firstY == b.firstY + n
  {
    Boundry(b.firstX + n, b.firstY + n, b.secondX - n, b.secondY - n)
  }

  /** Every edge moves `n` cells outward. */
  function Inflate(b: Boundry, n: int): (r: Boundry)
    ensures Width(r) == Width(b) + 2 * n && Height(r) == Height(b) + 2 * n
    ensures r.firstX == b.firstX - n && r.firstY == b.firstY - n
  {
    Boundry(b.firstX - n, b.firstY - n, b.secondX + n, b.secondY + n)
  }

  /** How far the masked operations move one edge: `n` when the edge's bit
      is in the mask, nothing otherwise. */
  function EdgeMove(m: PositionMask, edge: PositionMask, n: int): int
  {
    if m & edge != 0 then n else 0
  }

  /** Only the edges selected by the mask move inward. */
  function ShrinkMask(b: Boundry, n: int, m: PositionMask): (r: Boundry)
    ensures r.firstY == b.firstY + EdgeMove(m, MaskTop, n)
    ensures r.secondY == b.secondY - EdgeMove(m, MaskBottom, n)
    ensures r.firstX == b.firstX + EdgeMove(m, MaskLeft, n)
    ensures r.secondX == b.secondX - EdgeMove(m, MaskRight, n)
  {
    var b1 := if m & MaskTop != 0 then b.(firstY := b.firstY + n) else b;
    var b2 := if m & MaskBottom != 0 then b1.(secondY := b1.secondY - n) else b1;
    var b3 := if m & MaskLeft != 0 then b2.(firstX := b2.firstX + n) else b2;
    if m & MaskRight != 0 then b3.(secondX := b3.secondX - n) else b3
  }

  /** Only the edges selected by the mask move outward. */
  function InflateMask(b: Boundry, n: int, m: PositionMask): (r: Boundry)
    ensures r.firstY == b.firstY - EdgeMove(m, MaskTop, n)
    ensures r.secondY == b.secondY + EdgeMove(m, MaskBottom, n)
    ensures r.firstX == b.firstX - EdgeMove(m, MaskLeft, n)
    ensures r.secondX == b.secondX + EdgeMove(m, MaskRight, n)
  {
    var b1 := if m & MaskTop != 0 then b.(firstY := b.firstY - n) else b;
    var b2 := if m & MaskBottom != 0 then b1.(secondY := b1.secondY + n) else b1;
    var b3 := if m & MaskLeft != 0 then b2.(firstX := b2.firstX - n) else b2;
    if m & MaskRight != 0 then b3.(secondX := b3.secondX + n) else b3
  }

  /** Strict containment: every edge of `inner` lies strictly inside. */
  predicate Circumscribes(outer: Boundry, inner: Boundry)
  {
    outer.firstX < inner.firstX && outer.firstY < inner.firstY &&
    outer.secondX > inner.secondX && outer.secondY > inner.secondY
  }

  /** Edge-wise (non-strict) containment, the relation Sum is the least upper
      bound of. */
  predicate Contains(outer: Boundry, inner: Boundry)
  {
    outer.firstX <= inner.firstX && outer.firstY <= inner.firstY &&
    outer.secondX >= inner.secondX && outer.secondY >= inner.secondY
  }

  /** The smallest rectangle containing both operands, axis by axis. */
  function Sum(b: Boundry, b2: Boundry): (r: Boundry)
    ensures Contains(r, b) && Contains(r, b2)
    ensures forall c :: Contains(c, b) && Contains(c, b2) ==> Contains(c, r)
  {
    Boundry(Helpers.Min(b.firstX, b2.firstX), Helpers.Min(b.firstY, b2.firstY),
            Helpers.Max(b.secondX, b2.secondX), Helpers.Max(b.secondY, b2.secondY))
  }

  /** The debugging text "Boundry: (fx,fy) (sx,sy)". */
  function ToString(b: Boundry): (s: string)
    ensures |s| > 10 && s[..10] == "Boundry: ("
    ensures s[|s| - 1] == ')'
  {
    "Boundry: (" + Decimal.Show(b.firstX) + "," + Decimal.Show(b.firstY) + ") (" +
    Decimal.Show(b.secondX) + "," + Decimal.Show(b.secondY) + ")"
  }

  /** Reading the text back: "Boundry: (", the first corner, ") (", the
      second corner and ")", each corner two numbers around a ','. */
  function ReadBoundry(s: string): Option<Boundry>
  {
    if |s| >= 11 && s[..10] == "Boundry: (" && s[|s| - 1] == ')' then
      ReadCorners(s[10..|s| - 1])
    else None
  }

  function ReadCorners(body: string): Option<Boundry>
  {
    var (first, tail) := Decimal.Cut(body, ')');
    if ')' in body && |tail| >= 2 && tail[..2] == " (" then
      match (Decimal.ReadPair(first, ','), Decimal.ReadPair(tail[2..], ','))
      case (Some((x1, y1)), Some((x2, y2))) => Some(Boundry(x1, y1, x2, y2))
      case _ => None
    else None
  }

  predicate Int64Boundry(b: Boundry)
  {
    Decimal.MinInt64 <= b.firstX <= Decimal.MaxInt64 && Decimal.MinInt64 <= b.firstY <= Decimal.MaxInt64 &&
    Decimal.MinInt64 <= b.secondX <= Decimal.MaxInt64 && Decimal.MinInt64 <= b.secondY <= Decimal.MaxInt64
  }

  /** The text carries the rectangle: its four edges read back, in the
      order FirstX, FirstY, SecondX, SecondY, for every int64 rectangle. */
  lemma ReadBoundryToString(b: Boundry)
    requires Int64Boundry(b)
    ensures ReadBoundry(ToString(b)) == Some(b)
  {
    var first := Decimal.Show(b.firstX) + [','] + Decimal.Show(b.firstY);
    var second := Decimal.Show(b.secondX) + [','] + Decimal.Show(b.secondY);
    ToStringParts(b, first, second);
    ReadBoundryEnvelope(first + [')'] + (" (" + second));
    ReadCornersShow(b, first, second);
  }

  lemma ToStringParts(b: Boundry, first: string, second: string)
    requires first == Decimal.Show(b.firstX) + [','] + Decimal.Show(b.firstY)
    requires second == Decimal.Show(b.secondX) + [','] + Decimal.Show(b.secondY)
    ensures ToString(b) == "Boundry: (" + (first + [')'] + (" (" + second)) + ")"
  {
  }

  lemma ReadBoundryEnvelope(body: string)
    ensures ReadBoundry("Boundry: (" + body + ")") == ReadCorners(body)
  {
    var s := "Boundry: (" + body + ")";
    assert s[..10] == "Boundry: (" && s[10..|s| - 1] == body;
  }

  lemma ReadCornersShow(b: Boundry, first: string, second: string)
    requires Int64Boundry(b)
    requires first == Decimal.Show(b.firstX) + [','] + Decimal.Show(b.firstY)
    requires second == Decimal.Show(b.secondX) + [','] + Decimal.Show(b.secondY)
    ensures ReadCorners(first + [')'] + (" (" + second)) == Some(b)
  {
    Decimal.ShowAvoids(b.firstX, ')');
    Decimal.ShowAvoids(b.firstY, ')');
    Decimal.CutAfter(first, ')', " (" + second);
    assert (" (" + second)[2..] == second;
    Decimal.ReadPairShow(b.firstX, b.firstY, ',');
    Decimal.ReadPairShow(b.secondX, b.secondY, ',');
  }




  // ------------------------------------------------------------------
  // Laws
  // ------------------------------------------------------------------

  lemma InflateUndoesShrink(b: Boundry, n: int)
    ensures Inflate(Shrink(b, n), n) == b
    ensures Shrink(Inflate(b, n), n) == b
  {
  }

  lemma InflateMaskUndoesShrinkMask(b: Boundry, n: int, m: PositionMask)
    ensures InflateMask(ShrinkMask(b, n, m), n, m) == b
    ensures ShrinkMask(InflateMask(b, n, m), n, m) == b
  {
  }

  /** Selecting all four edges is the uniform operation. */
  lemma ShrinkMaskAllIsShrink(b: Boundry, n: int)
    ensures ShrinkMask(b, n, MaskTop | MaskBottom | MaskLeft | MaskRight) == Shrink(b, n)
    ensures InflateMask(b, n, MaskTop | MaskBottom | MaskLeft | MaskRight) == Inflate(b, n)
  {
    assert MaskTop | MaskBottom | MaskLeft | MaskRight == MaskAll;
  }

  /** Each single-bit mask moves its own edge and leaves the other three. */
  lemma ShrinkMaskSingleEdges(b: Boundry, n: int)
    ensures ShrinkMask(b, n, MaskTop) == b.(firstY := b.firstY + n)
    ensures ShrinkMask(b, n, MaskBottom) == b.(secondY := b.secondY - n)
    ensures ShrinkMask(b, n, MaskLeft) == b.(firstX := b.firstX + n)
    ensures ShrinkMask(b, n, MaskRight) == b.(secondX := b.secondX - n)
  {
  }

  /** A mask with none of the four edge bits changes nothing. */
  lemma ShrinkMaskNoEdges(b: Boundry, n: int, m: PositionMask)
    requires m & MaskAll == 0
    ensures ShrinkMask(b, n, m) == b && InflateMask(b, n, m) == b
  {
    assert m & MaskTop == 0 && m & MaskBottom == 0 && m & MaskLeft == 0 && m & MaskRight == 0;
  }

  lemma NormalizeIdempotent(b: Boundry)
    ensures Normalize(Normalize(b)) == Normalize(b)
  {
  }

  lemma IndexifyKeepsFirstEdges(b: Boundry)
    ensures Indexify(b) == Boundry(b.firstX, b.firstY, b.secondX - 1, b.secondY - 1)
  {
  }

  lemma CircumscribesIrreflexive(b: Boundry)
    ensures !Circumscribes(b, b)
  {
  }

  lemma CircumscribesTransitive(a: Boundry, b: Boundry, c: Boundry)
    requires Circumscribes(a, b) && Circumscribes(b, c)
    ensures Circumscribes(a, c)
  {
  }

  lemma CircumscribesContains(a: Boundry, b: Boundry)
    requires Circumscribes(a, b)
    ensures Contains(a, b)
  {
  }

  lemma SumCommutative(a: Boundry, b: Boundry)
    ensures Sum(a, b) == Sum(b, a)
  {
  }

  lemma SumAssociative(a: Boundry, b: Boundry, c: Boundry)
    ensures Sum(Sum(a, b), c) == Sum(a, Sum(b, c))
  {
  }

  lemma SumIdempotent(a: Boundry)
    ensures Sum(a, a) == a
  {
  }

  /** Containment is preserved when the container grows by Sum. */
  lemma SumKeepsContained(acc: Boundry, inner: Boundry, b: Boundry)
    requires Contains(acc, inner)
    ensures Contains(Sum(acc, b), inner)
  {
  }

  lemma ContainsTransitive(a: Boundry, b: Boundry, c: Boundry)
    requires Contains(a, b) && Contains(b, c)
    ensures Contains(a, c)
  {
  }
}
