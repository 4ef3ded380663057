/** What the flex layout (core/engine/layouts.go, renderRow and
    renderColumn) decides for the children of one element, as functions of
    the children's attribute records and the element's rectangle. The
    layout works in three passes over a flag table with one entry per
    child: the first classifies each child and sums the fixed lengths and
    the flex shares, the second settles the children whose flex length is
    bounded by a minimum or a maximum, the third walks all children in order
    and gives each its rectangle. The row and the column versions differ
    only in the axis they measure, in the bound tests of the second pass,
    and in the column's scroll offset and its stop at the bottom edge. */
module FlexPlan {
  import opened Wrappers
  import opened Kinds
  import opened Attribute
  import opened Geometry
  import opened Flags

  datatype Axis = Horizontal | Vertical

  /** How long a flex child is: from the space to share out, the shares
      it is shared among and the child's own flex, the source computes
      int(float32(space) / float32(shares) * float32(flex)). The layout
      takes that computation as a parameter, and every property below holds
      whatever it returns; FlexExtent is the exact counterpart. */
  type Extent = (int, int, int) -> int

  /** The flex length in exact arithmetic: the quotient truncated toward
      zero as Go's int conversion truncates, and 0 when there are no shares
      (where the float quotient is an infinity or not a number). */
  function FlexExtent(space: int, shares: int, flex: int): int
  {
    if shares == 0 then 0
    else
      var n := space * flex;
      var q: int := (if n < 0 then -n else n) / (if shares < 0 then -shares else shares);
      if (n < 0) == (shares < 0) then q else -q
  }

  /** The fixed length, minimum and maximum a child asks for on the axis. */
  function Length(ax: Axis, c: Attributes): int
  {
    if ax == Horizontal then c.width else c.height
  }

  function MinLength(ax: Axis, c: Attributes): int
  {
    if ax == Horizontal then c.minWidth else c.minHeight
  }

  function MaxLength(ax: Axis, c: Attributes): int
  {
    if ax == Horizontal then c.maxWidth else c.maxHeight
  }

  /** The flag of a child with a fixed length, and the flags of a bounded
      flex child. */
  function LengthFlag(ax: Axis): RenderFlag
  {
    if ax == Horizontal then FlagWidth else FlagHeight
  }

  function LimitFlags(ax: Axis): RenderFlag
  {
    if ax == Horizontal then FlagMinWidth | FlagMaxWidth else FlagMinHeight | FlagMaxHeight
  }

  // ------------------------------------------------------------------
  // First pass: classification
  // ------------------------------------------------------------------

  /** The entry the first pass leaves for a child: absolute children are
      ignored, a fixed length is saved as calculated, a flex child with a
      bound is marked for the second pass, anything else keeps the default
      flex flag. */
  function Entry(ax: Axis, c: Attributes): (d: RenderData)
    ensures d.flag & FlagIgnore > 1 <==> c.display == Absolute
    ensures c.display != Absolute && Length(ax, c) != 0 ==> FlagCalculated & d.flag > 0 && d.value == Length(ax, c)
    ensures Selects(LimitFlags(ax), d.flag) <==>
              c.display != Absolute && Length(ax, c) == 0 && c.flex != 0 && (MinLength(ax, c) != 0 || MaxLength(ax, c) != 0)
  {
    if c.display == Absolute then RenderData(FlagIgnore, 0)
    else if Length(ax, c) != 0 then RenderData(LengthFlag(ax) | FlagCalculated, Length(ax, c))
    else if c.flex != 0 && (MinLength(ax, c) != 0 || MaxLength(ax, c) != 0) then RenderData(LimitFlags(ax), 0)
    else RenderData(FlagFlex, 0)
  }

  /** The fixed lengths of the children that are not absolute. */
  function FixedTotal(ax: Axis, cs: seq<Attributes>): int
  {
    if cs == [] then 0
    else
      var c := cs[|cs| - 1];
      FixedTotal(ax, cs[..|cs| - 1]) + (if c.display == Absolute then 0 else Length(ax, c))
  }

  /** The flex shares of the children that are neither absolute nor fixed. */
  function FlexTotal(ax: Axis, cs: seq<Attributes>): int
  {
    if cs == [] then 0
    else
      var c := cs[|cs| - 1];
      FlexTotal(ax, cs[..|cs| - 1]) + (if c.display == Absolute || Length(ax, c) != 0 then 0 else c.flex)
  }

  // ------------------------------------------------------------------
  // Second pass: bounded flex children
  // ------------------------------------------------------------------

  /** The space to share out and the shares it is shared among. */
  datatype Unit = Unit(space: int, shares: int)

  /** The bound a bounded flex child of flex length `fl` is held to, if
      any. A row applies a positive minimum above the flex length, or else a
      non-negative maximum below it; a column applies a positive minimum
      above it, or else a positive maximum at or below it. */
  function Clamp(ax: Axis, c: Attributes, fl: int): (r: Option<int>)
    ensures r.Some? ==> r.value == MinLength(ax, c) || r.value == MaxLength(ax, c)
    ensures MinLength(ax, c) > 0 && MinLength(ax, c) > fl ==> r == Some(MinLength(ax, c))
  {
    if MinLength(ax, c) > 0 && MinLength(ax, c) > fl then Some(MinLength(ax, c))
    else if ax == Horizontal && c.maxWidth >= 0 && c.maxWidth < fl then Some(c.maxWidth)
    else if ax == Vertical && c.maxHeight > 0 && c.maxHeight <= fl then Some(c.maxHeight)
    else None
  }

  /** The entry of a child after the second pass, which measures every
      bounded child against the unit of the first pass. */
  function Limited(ax: Axis, c: Attributes, u: Unit, ext: Extent): RenderData
  {
    var d := Entry(ax, c);
    if !Selects(LimitFlags(ax), d.flag) then d
    else match Clamp(ax, c, ext(u.space, u.shares, c.flex))
      case Some(v) => RenderData(FlagCalculated, v)
      case None => d
  }

  /** The space and shares left once the bounded children among the first
      `k` have taken their bounds. */
  function LimitRun(ax: Axis, cs: seq<Attributes>, u: Unit, ext: Extent, k: nat): Unit
    requires k <= |cs|
  {
    if k == 0 then u
    else
      var r := LimitRun(ax, cs, u, ext, k - 1);
      var c := cs[k - 1];
      if !Selects(LimitFlags(ax), Entry(ax, c).flag) then r
      else match Clamp(ax, c, ext(u.space, u.shares, c.flex))
        case Some(v) => Unit(r.space - v, r.shares - c.flex)
        case None => r
  }

  /** What the first two passes leave for the third: the table, the space
      and the shares still to share out, and the unit of the first pass
      (which the column's fit test goes on using until a flex child is
      placed). */
  datatype Plan = Plan(data: seq<RenderData>, space: int, shares: int, first: Unit, extent: Extent)

  function Planned(ax: Axis, cs: seq<Attributes>, length: int, ext: Extent): (p: Plan)
    ensures |p.data| == |cs|
    ensures p.first == Unit(length - FixedTotal(ax, cs), FlexTotal(ax, cs))
    ensures forall k :: 0 <= k < |cs| ==> p.data[k] == Limited(ax, cs[k], p.first, ext)
    ensures p.extent == ext
  {
    var u := Unit(length - FixedTotal(ax, cs), FlexTotal(ax, cs));
    var r := LimitRun(ax, cs, u, ext, |cs|);
    Plan(seq(|cs|, k requires 0 <= k < |cs| => Limited(ax, cs[k], u, ext)), r.space, r.shares, u, ext)
  }

  // ------------------------------------------------------------------
  // Third pass: placement
  // ------------------------------------------------------------------

  /** The counters of the third pass: the length used so far, the part of
      it taken by flex children, the shares not yet placed, and the current
      unit. */
  datatype Run = Run(reserve: int, cap: int, shares: int, unit: Unit)

  /** What the third pass does with one child: leave it, only push it,
      place it with a length (a flex child re-derives the unit first), or
      stop the whole pass. */
  datatype Move = Pass | Push | Place(length: int, flexed: bool) | Halt

  predicate Pushes(mv: Move)
  {
    mv.Push? || mv.Place?
  }

  function Advance(st: Run, c: Attributes, mv: Move, space: int): (r: Run)
    ensures !mv.Place? ==> r == st
    ensures mv.Place? ==> r.reserve == st.reserve + mv.length
  {
    match mv
    case Place(e, flexed) =>
      if flexed then Run(st.reserve + e, st.cap + e, st.shares - c.flex, Unit(space - st.cap, st.shares))
      else st.(reserve := st.reserve + e)
    case _ => st
  }

  function Near(ax: Axis, bx: Boundry): int
  {
    if ax == Horizontal then bx.firstX else bx.firstY
  }

  function Far(ax: Axis, bx: Boundry): int
  {
    if ax == Horizontal then bx.secondX else bx.secondY
  }

  /** The rectangle a placed child gets: a slice of the parent across the
      whole cross axis, starting `reserve` cells along the main axis. */
  function Slot(ax: Axis, b: Boundry, st: Run, mv: Move): (r: Option<Boundry>)
    ensures r.Some? <==> mv.Place?
    ensures r.Some? ==> Near(ax, r.value) == Near(ax, b) + st.reserve &&
                        Far(ax, r.value) == Near(ax, b) + st.reserve + mv.length
  {
    match mv
    case Place(e, _) =>
      if ax == Horizontal then Some(NewBoundry(st.reserve + b.firstX, b.firstY, st.reserve + b.firstX + e, b.secondY))
      else Some(NewBoundry(b.firstX, st.reserve + b.firstY, b.secondX, st.reserve + b.firstY + e))
    case _ => None
  }

  /** Row: an ignored child is only pushed; every other child is placed,
      a calculated one at its saved length, a flex one at its share of the
      space not yet taken by flex children. */
  function RowMove(c: Attributes, d: RenderData, p: Plan, st: Run): Move
  {
    if d.flag & FlagIgnore > 1 then Push
    else if FlagCalculated & d.flag > 0 then Place(d.value, false)
    else Place(p.extent(p.space - st.cap, st.shares, c.flex), true)
  }

  function RowRun(cs: seq<Attributes>, p: Plan, k: nat): Run
    requires |p.data| == |cs| && k <= |cs|
  {
    if k == 0 then Run(0, 0, p.shares, p.first)
    else
      var st := RowRun(cs, p, k - 1);
      Advance(st, cs[k - 1], RowMove(cs[k - 1], p.data[k - 1], p, st), p.space)
  }

  function RowBoxes(cs: seq<Attributes>, p: Plan, b: Boundry): (boxes: seq<Option<Boundry>>)
    requires |p.data| == |cs|
    ensures |boxes| == |cs|
  {
    seq(|cs|, k requires 0 <= k < |cs| =>
      var st := RowRun(cs, p, k);
      Slot(Horizontal, b, st, RowMove(cs[k], p.data[k], p, st)))
  }

  /** renderRow: the rectangle each child gets, None for a child it leaves
      alone. Every child is pushed, in order. */
  function RowLayout(cs: seq<Attributes>, b: Boundry, ext: Extent): seq<Option<Boundry>>
  {
    RowBoxes(cs, Planned(Horizontal, cs, Width(b), ext), b)
  }

  /** Column: an ignored child is pushed even above the scroll offset;
      other children above it are left alone; a child whose length (for a
      flex child: its length under the current unit, before the unit is
      re-derived) would run past the parent's height stops the pass. */
  function ColumnMove(c: Attributes, d: RenderData, k: int, scrollY: int, height: int, p: Plan, st: Run): Move
  {
    if d.flag & FlagIgnore > 1 then Push
    else if k < scrollY then Pass
    else if FlagCalculated & d.flag > 0 then
      if st.reserve + d.value > height then Halt else Place(d.value, false)
    else if st.reserve + p.extent(st.unit.space, st.unit.shares, c.flex) > height then Halt
    else Place(p.extent(p.space - st.cap, st.shares, c.flex), true)
  }

  /** The counters before child `k`, None once the pass has stopped. */
  function ColumnRun(cs: seq<Attributes>, p: Plan, scrollY: int, height: int, k: nat): Option<Run>
    requires |p.data| == |cs| && k <= |cs|
  {
    if k == 0 then Some(Run(0, 0, p.shares, p.first))
    else match ColumnRun(cs, p, scrollY, height, k - 1)
      case None => None
      case Some(st) =>
        var mv := ColumnMove(cs[k - 1], p.data[k - 1], k - 1, scrollY, height, p, st);
        if mv == Halt then None else Some(Advance(st, cs[k - 1], mv, p.space))
  }

  /** What the pass does with child `k`: nothing once it has stopped. */
  function ColumnStep(cs: seq<Attributes>, p: Plan, scrollY: int, height: int, k: nat): Move
    requires |p.data| == |cs| && k < |cs|
  {
    match ColumnRun(cs, p, scrollY, height, k)
    case None => Pass
    case Some(st) => ColumnMove(cs[k], p.data[k], k, scrollY, height, p, st)
  }

  function ColumnBoxes(cs: seq<Attributes>, p: Plan, b: Boundry, scrollY: int): (boxes: seq<Option<Boundry>>)
    requires |p.data| == |cs|
    ensures |boxes| == |cs|
  {
    seq(|cs|, k requires 0 <= k < |cs| =>
      match ColumnRun(cs, p, scrollY, Height(b), k)
      case None => None
      case Some(st) => Slot(Vertical, b, st, ColumnStep(cs, p, scrollY, Height(b), k)))
  }

  function ColumnPushes(cs: seq<Attributes>, p: Plan, b: Boundry, scrollY: int): (pushed: seq<bool>)
    requires |p.data| == |cs|
    ensures |pushed| == |cs|
  {
    seq(|cs|, k requires 0 <= k < |cs| => Pushes(ColumnStep(cs, p, scrollY, Height(b), k)))
  }

  /** renderColumn: the rectangle each child gets, and whether it is
      pushed. */
  function ColumnLayout(cs: seq<Attributes>, b: Boundry, scrollY: int, ext: Extent): seq<Option<Boundry>>
  {
    ColumnBoxes(cs, Planned(Vertical, cs, Height(b), ext), b, scrollY)
  }

  function ColumnPushed(cs: seq<Attributes>, b: Boundry, scrollY: int, ext: Extent): seq<bool>
  {
    ColumnPushes(cs, Planned(Vertical, cs, Height(b), ext), b, scrollY)
  }

  /** Whether the column pass has stopped before child `k`. */
  predicate Stopped(cs: seq<Attributes>, b: Boundry, scrollY: int, ext: Extent, k: nat)
    requires k <= |cs|
  {
    ColumnRun(cs, Planned(Vertical, cs, Height(b), ext), scrollY, Height(b), k).None?
  }

  // ------------------------------------------------------------------
  // Properties
  // ------------------------------------------------------------------

  /** Where the next placed box starts: the far edge of the last placed box
      before index `k`, or `start` when there is none. */
  function Edge(ax: Axis, boxes: seq<Option<Boundry>>, k: nat, start: int): int
    requires k <= |boxes|
  {
    if k == 0 then start
    else match boxes[k - 1]
      case Some(bx) => Far(ax, bx)
      case None => Edge(ax, boxes, k - 1, start)
  }

  /** The placed boxes follow one another along the axis, each starting
      where the one before ended, the first at `start`. */
  predicate Abutting(ax: Axis, boxes: seq<Option<Boundry>>, start: int)
  {
    forall k :: 0 <= k < |boxes| && boxes[k].Some? ==> Near(ax, boxes[k].value) == Edge(ax, boxes, k, start)
  }

  /** An entry is ignored exactly when its child is absolute; the second
      pass never changes that, and gives a fixed child its length. */
  lemma LimitedFlags(ax: Axis, c: Attributes, u: Unit, ext: Extent)
    ensures Limited(ax, c, u, ext).flag & FlagIgnore > 1 <==> c.display == Absolute
    ensures c.display != Absolute && Length(ax, c) != 0 ==>
              Limited(ax, c, u, ext) == RenderData(LengthFlag(ax) | FlagCalculated, Length(ax, c))
    ensures Selects(LimitFlags(ax), Entry(ax, c).flag) && Clamp(ax, c, ext(u.space, u.shares, c.flex)).Some? ==>
              Limited(ax, c, u, ext) == RenderData(FlagCalculated, Clamp(ax, c, ext(u.space, u.shares, c.flex)).value)
  {
    var d := Entry(ax, c);
    if Selects(LimitFlags(ax), d.flag) {
      assert LimitFlags(ax) & FlagIgnore == 0;
    }
  }

  /** renderRow: every child but an absolute one is placed, across the
      parent's full height; a child with a fixed width gets exactly that
      width, and a bounded flex child that its bound holds gets the bound. */
  lemma RowPlacement(cs: seq<Attributes>, b: Boundry, ext: Extent, k: nat)
    requires k < |cs|
    ensures var boxes := RowLayout(cs, b, ext);
            |boxes| == |cs| &&
            (boxes[k].None? <==> cs[k].display == Absolute) &&
            (boxes[k].Some? ==> boxes[k].value.firstY == b.firstY && boxes[k].value.secondY == b.secondY)
    ensures var boxes, c, u := RowLayout(cs, b, ext), cs[k], Planned(Horizontal, cs, Width(b), ext).first;
            c.display != Absolute && c.width != 0 ==> Width(boxes[k].value) == c.width
    ensures var boxes, c, u := RowLayout(cs, b, ext), cs[k], Planned(Horizontal, cs, Width(b), ext).first;
            var bound := Clamp(Horizontal, c, ext(u.space, u.shares, c.flex));
            c.display != Absolute && c.width == 0 && c.flex != 0 && (c.minWidth != 0 || c.maxWidth != 0) && bound.Some? ==>
              Width(boxes[k].value) == bound.value
  {
    var p := Planned(Horizontal, cs, Width(b), ext);
    LimitedFlags(Horizontal, cs[k], p.first, ext);
    var st := RowRun(cs, p, k);
    var mv := RowMove(cs[k], p.data[k], p, st);
    assert RowLayout(cs, b, ext)[k] == Slot(Horizontal, b, st, mv);
  }

  /** renderRow's children follow one another from the parent's left edge. */
  lemma RowAbutting(cs: seq<Attributes>, b: Boundry, ext: Extent)
    ensures Abutting(Horizontal, RowLayout(cs, b, ext), b.firstX)
  {
    RowBoxesAbut(cs, Planned(Horizontal, cs, Width(b), ext), b);
  }

  lemma RowBoxesAbut(cs: seq<Attributes>, p: Plan, b: Boundry)
    requires |p.data| == |cs|
    ensures Abutting(Horizontal, RowBoxes(cs, p, b), b.firstX)
  {
    var boxes := RowBoxes(cs, p, b);
    var reserve := RowReserves(cs, p);
    RowReserveSteps(cs, p, b);
    forall k | 0 <= k < |boxes| && boxes[k].Some?
      ensures Near(Horizontal, boxes[k].value) == Edge(Horizontal, boxes, k, b.firstX)
    {
      EdgeFromReserve(Horizontal, boxes, reserve, b.firstX, k);
    }
  }

  /** The reserve of a row before each child and after the last. */
  function RowReserves(cs: seq<Attributes>, p: Plan): (reserve: seq<int>)
    requires |p.data| == |cs|
    ensures |reserve| == |cs| + 1
  {
    seq(|cs| + 1, j requires 0 <= j <= |cs| => RowRun(cs, p, j).reserve)
  }

  /** Every box of a row starts at the reserve before it and ends at the
      reserve after it, and a child without a box leaves the reserve alone. */
  lemma RowReserveSteps(cs: seq<Attributes>, p: Plan, b: Boundry)
    requires |p.data| == |cs|
    ensures RowReserves(cs, p)[0] == 0
    ensures forall j :: 0 <= j < |cs| ==>
              var bx, reserve := RowBoxes(cs, p, b)[j], RowReserves(cs, p);
              (bx.Some? ==> Near(Horizontal, bx.value) == b.firstX + reserve[j] &&
                            Far(Horizontal, bx.value) == b.firstX + reserve[j + 1]) &&
              (bx.None? ==> reserve[j + 1] == reserve[j])
  {
    forall j | 0 <= j < |cs|
      ensures var bx, reserve := RowBoxes(cs, p, b)[j], RowReserves(cs, p);
              (bx.Some? ==> Near(Horizontal, bx.value) == b.firstX + reserve[j] &&
                            Far(Horizontal, bx.value) == b.firstX + reserve[j + 1]) &&
              (bx.None? ==> reserve[j + 1] == reserve[j])
    {
      RowSlot(cs, p, b, j);
    }
  }

  /** The edge before box `k` is where the reserve stood before it, given
      that every box before it starts at the reserve before it and ends at
      the reserve after it, and a missing box leaves the reserve alone. */
  lemma {:induction false} EdgeFromReserve(ax: Axis, boxes: seq<Option<Boundry>>, reserve: seq<int>, start: int, k: nat)
    requires k <= |boxes| && |reserve| == |boxes| + 1 && reserve[0] == 0
    requires forall j :: 0 <= j < k ==> (boxes[j].Some? ==> Far(ax, boxes[j].value) == start + reserve[j + 1]) &&
                                        (boxes[j].None? ==> reserve[j + 1] == reserve[j])
    ensures Edge(ax, boxes, k, start) == start + reserve[k]
  {
    if k > 0 {
      EdgeFromReserve(ax, boxes, reserve, start, k - 1);
    }
  }

  /** Child `j` of a row either takes a box from the reserve on, which
      moves the reserve to its far edge, or leaves the reserve alone. */
  lemma RowSlot(cs: seq<Attributes>, p: Plan, b: Boundry, j: nat)
    requires |p.data| == |cs| && j < |cs|
    ensures var bx, reserve := RowBoxes(cs, p, b)[j], RowReserves(cs, p);
            (bx.Some? ==> Near(Horizontal, bx.value) == b.firstX + reserve[j] &&
                          Far(Horizontal, bx.value) == b.firstX + reserve[j + 1]) &&
            (bx.None? ==> reserve[j + 1] == reserve[j])
  {
    var st := RowRun(cs, p, j);
    var mv := RowMove(cs[j], p.data[j], p, st);
    assert RowBoxes(cs, p, b)[j] == Slot(Horizontal, b, st, mv);
    assert RowReserves(cs, p)[j + 1] == Advance(st, cs[j], mv, p.space).reserve;
    assert RowReserves(cs, p)[j] == st.reserve;
    SlotAdvance(Horizontal, b, st, cs[j], mv, p.space);
  }

  /** A slot starts at the reserve and ends where the move leaves it; no
      slot, no change to the reserve. */
  lemma SlotAdvance(ax: Axis, b: Boundry, st: Run, c: Attributes, mv: Move, space: int)
    ensures var bx, r1 := Slot(ax, b, st, mv), Advance(st, c, mv, space).reserve;
            (bx.Some? ==> Near(ax, bx.value) == Near(ax, b) + st.reserve && Far(ax, bx.value) == Near(ax, b) + r1) &&
            (bx.None? ==> r1 == st.reserve)
  {
  }

  /** renderColumn: a child that is placed is not absolute, not above the
      scroll offset, pushed, and spans the parent's full width; an absolute
      child is pushed unless the pass has stopped before it; a child above
      the scroll offset that is not absolute is neither placed nor pushed. */
  lemma ColumnPlacement(cs: seq<Attributes>, b: Boundry, scrollY: int, ext: Extent, k: nat)
    requires k < |cs|
    ensures var boxes, pushed := ColumnLayout(cs, b, scrollY, ext), ColumnPushed(cs, b, scrollY, ext);
            |boxes| == |cs| && |pushed| == |cs| &&
            (boxes[k].Some? ==> pushed[k] && cs[k].display != Absolute && k >= scrollY &&
                                boxes[k].value.firstX == b.firstX && boxes[k].value.secondX == b.secondX) &&
            (cs[k].display == Absolute ==> boxes[k].None? && (pushed[k] <==> !Stopped(cs, b, scrollY, ext, k))) &&
            (cs[k].display != Absolute && k < scrollY ==> boxes[k].None? && !pushed[k]) &&
            (pushed[k] ==> boxes[k].Some? || cs[k].display == Absolute)
  {
    var p := Planned(Vertical, cs, Height(b), ext);
    LimitedFlags(Vertical, cs[k], p.first, ext);
  }

  /** renderColumn places a child with a fixed height at exactly that height
      and only if it ends inside the parent; such a child that is due (not
      absolute, not above the scroll offset, the pass still going) and does
      not fit stops the pass. */
  lemma ColumnFixedFits(cs: seq<Attributes>, b: Boundry, scrollY: int, ext: Extent, k: nat)
    requires k < |cs|
    ensures var boxes, c := ColumnLayout(cs, b, scrollY, ext), cs[k];
            c.display != Absolute && c.height != 0 && boxes[k].Some? ==>
              Height(boxes[k].value) == c.height && boxes[k].value.secondY <= b.secondY
    ensures var boxes, c := ColumnLayout(cs, b, scrollY, ext), cs[k];
            c.display != Absolute && c.height != 0 && k >= scrollY && !Stopped(cs, b, scrollY, ext, k) ==>
              (boxes[k].Some? <==> Edge(Vertical, boxes, k, b.firstY) + c.height <= b.secondY) &&
              (boxes[k].None? ==> Stopped(cs, b, scrollY, ext, k + 1))
  {
    var p := Planned(Vertical, cs, Height(b), ext);
    LimitedFlags(Vertical, cs[k], p.first, ext);
    if !Stopped(cs, b, scrollY, ext, k) {
      ColumnEdge(cs, p, b, scrollY, k);
    }
  }

  /** Once the column pass has stopped, no later child is placed or pushed. */
  lemma {:induction false} ColumnStaysStopped(cs: seq<Attributes>, b: Boundry, scrollY: int, ext: Extent, k: nat, j: nat)
    requires k <= j < |cs| && Stopped(cs, b, scrollY, ext, k)
    ensures ColumnLayout(cs, b, scrollY, ext)[j].None? && !ColumnPushed(cs, b, scrollY, ext)[j]
    ensures Stopped(cs, b, scrollY, ext, j + 1)
  {
    ColumnHalted(cs, Planned(Vertical, cs, Height(b), ext), b, scrollY, k, j);
  }

  /** The same for any plan: after a halt nothing is placed or pushed. */
  lemma {:induction false} ColumnHalted(cs: seq<Attributes>, p: Plan, b: Boundry, scrollY: int, k: nat, j: nat)
    requires |p.data| == |cs| && k <= j < |cs| && ColumnRun(cs, p, scrollY, Height(b), k).None?
    ensures ColumnBoxes(cs, p, b, scrollY)[j].None? && !ColumnPushes(cs, p, b, scrollY)[j]
    ensures ColumnRun(cs, p, scrollY, Height(b), j + 1).None?
    decreases j - k
  {
    if k < j {
      ColumnHalted(cs, p, b, scrollY, k, j - 1);
    }
    assert ColumnRun(cs, p, scrollY, Height(b), j).None?;
    assert ColumnStep(cs, p, scrollY, Height(b), j) == Pass;
  }

  /** renderColumn's children follow one another down from the parent's top
      edge. */
  lemma ColumnAbutting(cs: seq<Attributes>, b: Boundry, scrollY: int, ext: Extent)
    ensures Abutting(Vertical, ColumnLayout(cs, b, scrollY, ext), b.firstY)
  {
    var p := Planned(Vertical, cs, Height(b), ext);
    var boxes := ColumnLayout(cs, b, scrollY, ext);
    forall k | 0 <= k < |boxes| && boxes[k].Some?
      ensures Near(Vertical, boxes[k].value) == Edge(Vertical, boxes, k, b.firstY)
    {
      ColumnNear(cs, p, b, scrollY, k);
      ColumnEdge(cs, p, b, scrollY, k);
    }
  }

  /** While the column pass is going, the edge before child `k` is where
      its reserve stands. */
  lemma ColumnEdge(cs: seq<Attributes>, p: Plan, b: Boundry, scrollY: int, k: nat)
    requires |p.data| == |cs| && k < |cs| && ColumnRun(cs, p, scrollY, Height(b), k).Some?
    ensures Edge(Vertical, ColumnBoxes(cs, p, b, scrollY), k, b.firstY) ==
            b.firstY + ColumnRun(cs, p, scrollY, Height(b), k).value.reserve
  {
    ColumnReserveSteps(cs, p, b, scrollY, k);
    EdgeFromReserve(Vertical, ColumnBoxes(cs, p, b, scrollY), ColumnReserves(cs, p, Height(b), scrollY), b.firstY, k);
  }

  /** The reserve of a column before each child and after the last, 0 once
      the pass has stopped. */
  function ColumnReserves(cs: seq<Attributes>, p: Plan, height: int, scrollY: int): (reserve: seq<int>)
    requires |p.data| == |cs|
    ensures |reserve| == |cs| + 1
  {
    seq(|cs| + 1, j requires 0 <= j <= |cs| =>
      match ColumnRun(cs, p, scrollY, height, j) case Some(st) => st.reserve case None => 0)
  }

  /** Up to a child the pass reaches, every box of a column ends at the
      reserve after it, and a child without a box leaves the reserve alone. */
  lemma ColumnReserveSteps(cs: seq<Attributes>, p: Plan, b: Boundry, scrollY: int, k: nat)
    requires |p.data| == |cs| && k < |cs| && ColumnRun(cs, p, scrollY, Height(b), k).Some?
    ensures ColumnReserves(cs, p, Height(b), scrollY)[0] == 0
    ensures ColumnReserves(cs, p, Height(b), scrollY)[k] == ColumnRun(cs, p, scrollY, Height(b), k).value.reserve
    ensures forall j :: 0 <= j < k ==>
              var bx, reserve := ColumnBoxes(cs, p, b, scrollY)[j], ColumnReserves(cs, p, Height(b), scrollY);
              (bx.Some? ==> Far(Vertical, bx.value) == b.firstY + reserve[j + 1]) &&
              (bx.None? ==> reserve[j + 1] == reserve[j])
  {
    forall j | 0 <= j < k
      ensures var bx, reserve := ColumnBoxes(cs, p, b, scrollY)[j], ColumnReserves(cs, p, Height(b), scrollY);
              (bx.Some? ==> Far(Vertical, bx.value) == b.firstY + reserve[j + 1]) &&
              (bx.None? ==> reserve[j + 1] == reserve[j])
    {
      ColumnGoing(cs, p, scrollY, Height(b), j + 1, k);
      ColumnSlot(cs, p, b, scrollY, j);
    }
  }

  /** A column pass still going before child `k` was going before every
      earlier child. */
  lemma {:induction false} ColumnGoing(cs: seq<Attributes>, p: Plan, scrollY: int, height: int, j: nat, k: nat)
    requires |p.data| == |cs| && j <= k <= |cs| && ColumnRun(cs, p, scrollY, height, k).Some?
    ensures ColumnRun(cs, p, scrollY, height, j).Some?
    decreases k - j
  {
    if j < k {
      ColumnGoing(cs, p, scrollY, height, j + 1, k);
    }
  }

  /** A box of a column is only placed while the pass is going, and starts
      at the reserve before it. */
  lemma ColumnNear(cs: seq<Attributes>, p: Plan, b: Boundry, scrollY: int, k: nat)
    requires |p.data| == |cs| && k < |cs| && ColumnBoxes(cs, p, b, scrollY)[k].Some?
    ensures ColumnRun(cs, p, scrollY, Height(b), k).Some?
    ensures Near(Vertical, ColumnBoxes(cs, p, b, scrollY)[k].value) ==
            b.firstY + ColumnRun(cs, p, scrollY, Height(b), k).value.reserve
  {
    var st := ColumnRun(cs, p, scrollY, Height(b), k).value;
    assert ColumnBoxes(cs, p, b, scrollY)[k] == Slot(Vertical, b, st, ColumnStep(cs, p, scrollY, Height(b), k));
  }

  /** Child `j` of a column, the pass still going after it, either takes a
      box from the reserve on, which moves the reserve to its far edge, or
      leaves the reserve alone. */
  lemma ColumnSlot(cs: seq<Attributes>, p: Plan, b: Boundry, scrollY: int, j: nat)
    requires |p.data| == |cs| && j < |cs| && ColumnRun(cs, p, scrollY, Height(b), j + 1).Some?
    ensures var bx, reserve := ColumnBoxes(cs, p, b, scrollY)[j], ColumnReserves(cs, p, Height(b), scrollY);
            (bx.Some? ==> Far(Vertical, bx.value) == b.firstY + reserve[j + 1]) &&
            (bx.None? ==> reserve[j + 1] == reserve[j])
  {
    var st := ColumnRun(cs, p, scrollY, Height(b), j).value;
    var mv := ColumnStep(cs, p, scrollY, Height(b), j);
    assert ColumnBoxes(cs, p, b, scrollY)[j] == Slot(Vertical, b, st, mv);
    assert ColumnReserves(cs, p, Height(b), scrollY)[j + 1] == Advance(st, cs[j], mv, p.space).reserve;
    assert ColumnReserves(cs, p, Height(b), scrollY)[j] == st.reserve;
    SlotAdvance(Vertical, b, st, cs[j], mv, p.space);
  }
}
