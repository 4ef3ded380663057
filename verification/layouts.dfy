/** The three layouts of the engine (core/engine/layouts.go): Flex, which
    paints an element and then shares its rectangle out among its children,
    Block, which paints an element and its text, and Absolute, which places
    an element by its own attributes and paints it. The passes of
    renderRow and renderColumn are written as the loops of the source and
    proved to compute what the functions of FlexPlan describe. The flex
    share of a child is the parameter `ext` (see FlexPlan.Extent). */
module Layouts {
  import opened Wrappers
  import opened Kinds
  import opened Attribute
  import opened Geometry
  import opened Flags
  import opened RenderStacks
  import opened Element
  import opened Screen
  import opened Paint
  import opened FlexPlan
  import opened Buffer

  // ------------------------------------------------------------------
  // What a layout does to the children
  // ------------------------------------------------------------------

  /** The attribute records of the children, in order. */
  function ChildAttrs(nodes: map<Handle, Node>, cs: seq<Handle>): (r: seq<Attributes>)
    requires forall i :: 0 <= i < |cs| ==> cs[i] in nodes
    ensures |r| == |cs| && forall i :: 0 <= i < |cs| ==> r[i] == nodes[cs[i]].attrs
  {
    seq(|cs|, i requires 0 <= i < |cs| => nodes[cs[i]].attrs)
  }

  /** The nodes after one more child has been given its box, if it has
      one: the box becomes the child's boundary. */
  function PlaceOne(nodes: map<Handle, Node>, c: Handle, bx: Option<Boundry>): (r: map<Handle, Node>)
    requires c in nodes
    ensures r.Keys == nodes.Keys
  {
    match bx
    case None => nodes
    case Some(v) => nodes[c := nodes[c].(boundry := v)]
  }

  /** The nodes after the first `k` children have been given their boxes, in
      order. */
  function Placed(nodes: map<Handle, Node>, cs: seq<Handle>, boxes: seq<Option<Boundry>>, k: nat): (r: map<Handle, Node>)
    requires k <= |cs| && k <= |boxes|
    requires forall i :: 0 <= i < |cs| ==> cs[i] in nodes
    ensures r.Keys == nodes.Keys
  {
    if k == 0 then nodes else PlaceOne(Placed(nodes, cs, boxes, k - 1), cs[k - 1], boxes[k - 1])
  }

  /** Giving boxes changes nothing but boundaries. */
  lemma {:induction false} PlacedBoundries(nodes: map<Handle, Node>, cs: seq<Handle>, boxes: seq<Option<Boundry>>, k: nat)
    requires k <= |cs| && k <= |boxes|
    requires forall i :: 0 <= i < |cs| ==> cs[i] in nodes
    ensures forall h :: h in nodes ==> Placed(nodes, cs, boxes, k)[h] == nodes[h].(boundry := Placed(nodes, cs, boxes, k)[h].boundry)
  {
    if k > 0 {
      PlacedBoundries(nodes, cs, boxes, k - 1);
    }
  }

  /** For children listed once each, a child with a box ends up with that
      box and a child without one keeps its boundary. */
  lemma {:induction false} PlacedBoxes(nodes: map<Handle, Node>, cs: seq<Handle>, boxes: seq<Option<Boundry>>, k: nat, i: nat)
    requires i < k <= |cs| && k <= |boxes| && NoDup(cs)
    requires forall j :: 0 <= j < |cs| ==> cs[j] in nodes
    ensures Placed(nodes, cs, boxes, k)[cs[i]].boundry == (if boxes[i].Some? then boxes[i].value else nodes[cs[i]].boundry)
  {
    if i < k - 1 {
      PlacedBoxes(nodes, cs, boxes, k - 1, i);
      assert cs[i] != cs[k - 1];
    } else {
      PlacedOthers(nodes, cs, boxes, k - 1, cs[i]);
    }
  }

  /** Every element that is not among the first `k` children keeps its
      node. */
  lemma {:induction false} PlacedOthers(nodes: map<Handle, Node>, cs: seq<Handle>, boxes: seq<Option<Boundry>>, k: nat, h: Handle)
    requires k <= |cs| && k <= |boxes| && h in nodes && h !in cs[..k]
    requires forall j :: 0 <= j < |cs| ==> cs[j] in nodes
    ensures Placed(nodes, cs, boxes, k)[h] == nodes[h]
  {
    if k > 0 {
      assert cs[..k] == cs[..k - 1] + [cs[k - 1]];
      PlacedOthers(nodes, cs, boxes, k - 1, h);
    }
  }

  // ------------------------------------------------------------------
  // The passes of renderRow and renderColumn
  // ------------------------------------------------------------------

  /** The first pass: an absolute child is flagged Ignore; a child with a
      length along the axis is flagged calculated at that length, which is
      taken off the space; a flex child adds its shares and, when it has a
      minimum or a maximum, is flagged for the second pass. */
  method Classify(ax: Axis, cs: seq<Attributes>, length: int) returns (flags: RenderMan, space: int, shares: int)
    ensures fresh(flags)
    ensures |flags.data| == |cs| && forall i :: 0 <= i < |cs| ==> flags.data[i] == Entry(ax, cs[i])
    ensures space == length - FixedTotal(ax, cs) && shares == FlexTotal(ax, cs)
  {
    space := length;
    flags := new RenderMan(|cs|, FlagFlex);
    shares := 0;
    for i := 0 to |cs|
      invariant |flags.data| == |cs|
      invariant forall j :: 0 <= j < i ==> flags.data[j] == Entry(ax, cs[j])
      invariant forall j :: i <= j < |cs| ==> flags.data[j] == RenderData(FlagFlex, 0)
      invariant space == length - FixedTotal(ax, cs[..i]) && shares == FlexTotal(ax, cs[..i])
    {
      var c := cs[i];
      assert cs[..i + 1][..i] == cs[..i];
      if c.display == Absolute {
        flags.SetFlag(i, FlagIgnore);
      } else if Length(ax, c) != 0 {
        flags.SetFlag(i, LengthFlag(ax) | FlagCalculated);
        flags.SaveCalculation(i, Length(ax, c));
        space := space - Length(ax, c);
      } else if c.flex != 0 {
        shares := shares + c.flex;
        if MinLength(ax, c) != 0 || MaxLength(ax, c) != 0 {
          flags.SetFlag(i, LimitFlags(ax));
        }
      }
    }
    assert cs[..|cs|] == cs;
  }

  /** Children the second pass does not select leave its totals alone. */
  lemma {:induction false} LimitSkip(ax: Axis, cs: seq<Attributes>, u: Unit, ext: Extent, i: nat, h: nat)
    requires i <= h <= |cs|
    requires forall j :: i <= j < h ==> !Selects(LimitFlags(ax), Entry(ax, cs[j]).flag)
    ensures LimitRun(ax, cs, u, ext, h) == LimitRun(ax, cs, u, ext, i)
    decreases h
  {
    if i < h {
      LimitSkip(ax, cs, u, ext, i, h - 1);
    }
  }

  /** The second pass: each child flagged for it whose minimum is above its
      share, or whose maximum is below it (at or below it in a column), is
      flagged calculated at that bound, which is taken off the space, and
      its shares are taken off the total. The share is always computed from
      the totals the first pass left. */
  method Limit(ax: Axis, cs: seq<Attributes>, flags: RenderMan, space0: int, shares0: int, ext: Extent)
    returns (space: int, shares: int)
    requires |flags.data| == |cs| && forall i :: 0 <= i < |cs| ==> flags.data[i] == Entry(ax, cs[i])
    modifies flags
    ensures |flags.data| == |cs|
    ensures forall i :: 0 <= i < |cs| ==> flags.data[i] == Limited(ax, cs[i], Unit(space0, shares0), ext)
    ensures Unit(space, shares) == LimitRun(ax, cs, Unit(space0, shares0), ext, |cs|)
  {
    var unit := Unit(space0, shares0);
    space, shares := space0, shares0;
    var head, d, ok := flags.Next(-1, LimitFlags(ax));
    LimitSkip(ax, cs, unit, ext, 0, head);
    while ok
      invariant |flags.data| == |cs|
      invariant 0 <= head <= |cs| && (ok <==> head < |cs|)
      invariant ok ==> Selects(LimitFlags(ax), Entry(ax, cs[head]).flag)
      invariant forall j :: 0 <= j < head ==> flags.data[j] == Limited(ax, cs[j], unit, ext)
      invariant forall j :: head <= j < |cs| ==> flags.data[j] == Entry(ax, cs[j])
      invariant Unit(space, shares) == LimitRun(ax, cs, unit, ext, head)
      decreases |cs| - head
    {
      space, shares, head, ok := LimitTurn(ax, cs, flags, unit, ext, head, space, shares);
    }
  }

  /** One turn of the second pass, from the child at `head`, which it
      selects, to the next child it selects, if any. */
  method LimitTurn(ax: Axis, cs: seq<Attributes>, flags: RenderMan, unit: Unit, ext: Extent, head: nat, space: int, shares: int)
    returns (space': int, shares': int, h: int, ok: bool)
    requires |flags.data| == |cs| && head < |cs| && Selects(LimitFlags(ax), Entry(ax, cs[head]).flag)
    requires forall j :: 0 <= j < head ==> flags.data[j] == Limited(ax, cs[j], unit, ext)
    requires forall j :: head <= j < |cs| ==> flags.data[j] == Entry(ax, cs[j])
    requires Unit(space, shares) == LimitRun(ax, cs, unit, ext, head)
    modifies flags
    ensures |flags.data| == |cs|
    ensures head < h <= |cs| && (ok <==> h < |cs|)
    ensures ok ==> Selects(LimitFlags(ax), Entry(ax, cs[h]).flag)
    ensures forall j :: 0 <= j < h ==> flags.data[j] == Limited(ax, cs[j], unit, ext)
    ensures forall j :: h <= j < |cs| ==> flags.data[j] == Entry(ax, cs[j])
    ensures Unit(space', shares') == LimitRun(ax, cs, unit, ext, h)
  {
    var c := cs[head];
    space', shares' := space, shares;
    var taken := LimitChild(ax, c, flags, head, unit, ext);
    if taken.Some? {
      space' := space' - taken.value;
      shares' := shares' - c.flex;
    }
    var d;
    h, d, ok := flags.Next(head, LimitFlags(ax));
    forall j | head + 1 <= j < h
      ensures !Selects(LimitFlags(ax), Entry(ax, cs[j]).flag)
      ensures flags.data[j] == Limited(ax, cs[j], unit, ext)
    {
      assert flags.data[j] == Entry(ax, cs[j]);
    }
    LimitSkip(ax, cs, unit, ext, head + 1, h);
  }

  /** One turn of the second pass, on a child it selects: the bound the
      child is held to, if any, is saved as its calculated length. */
  method LimitChild(ax: Axis, c: Attributes, flags: RenderMan, i: int, unit: Unit, ext: Extent) returns (taken: Option<int>)
    requires 0 <= i < |flags.data| && flags.data[i] == Entry(ax, c) && Selects(LimitFlags(ax), Entry(ax, c).flag)
    modifies flags
    ensures taken == Clamp(ax, c, ext(unit.space, unit.shares, c.flex))
    ensures flags.data == old(flags.data)[i := Limited(ax, c, unit, ext)]
  {
    taken := Clamp(ax, c, ext(unit.space, unit.shares, c.flex));
    if taken.Some? {
      flags.SaveCalculation(i, taken.value);
      flags.SetFlag(i, FlagCalculated);
    }
  }

  /** Next with no flag to look for: every entry is selected, so it moves
      on by exactly one. */
  method NextEntry(flags: RenderMan, head: int) returns (h: int, d: Option<RenderData>, ok: bool)
    requires -1 <= head < |flags.data|
    ensures h == head + 1 && (ok <==> h < |flags.data|) && (ok ==> d == Some(flags.data[h]))
  {
    h, d, ok := flags.Next(head, 0);
    if h > head + 1 {
      assert Selects(0, flags.data[head + 1].flag);
    }
  }

  /** What the third pass of renderRow does with child `k`, and what it
      leaves for the next one. */
  lemma RowStep(cs: seq<Attributes>, p: Plan, b: Boundry, k: nat)
    requires |p.data| == |cs| && k < |cs|
    ensures var st := RowRun(cs, p, k);
            var mv := RowMove(cs[k], p.data[k], p, st);
            RowBoxes(cs, p, b)[k] == Slot(Horizontal, b, st, mv) &&
            RowRun(cs, p, k + 1) == Advance(st, cs[k], mv, p.space)
  {
  }

  /** The third pass of renderRow: every child is pushed onto the render
      stack in order; an ignored child only that, a calculated one first
      gets a box its saved width wide, a flex one a box its share of the
      space wide, each starting where the last box placed ends. */
  method PlaceRow(t: Tree, rs: RenderStack, cs: seq<Handle>, attrs: seq<Attributes>, flags: RenderMan, p: Plan, b: Boundry)
    requires |attrs| == |cs| && p.data == flags.data && |p.data| == |cs|
    requires forall i :: 0 <= i < |cs| ==> cs[i] in t.nodes
    modifies t, rs
    ensures t.children == old(t.children) && t.next == old(t.next) && t.rank == old(t.rank)
    ensures t.nodes == Placed(old(t.nodes), cs, RowBoxes(attrs, p, b), |cs|)
    ensures rs.elements == PushAll(old(rs.elements), cs)
  {
    ghost var boxes := RowBoxes(attrs, p, b);
    ghost var o, s0 := t.nodes, rs.elements;
    var st := Run(0, 0, p.shares, p.first);
    var head, d, ok := NextEntry(flags, -1);
    while ok
      invariant 0 <= head <= |cs| && (ok <==> head < |cs|) && (ok ==> d == Some(p.data[head]))
      invariant st == RowRun(attrs, p, head)
      invariant t.children == old(t.children) && t.next == old(t.next) && t.rank == old(t.rank)
      invariant t.nodes == Placed(o, cs, boxes, head)
      invariant rs.elements == PushAll(s0, cs[..head])
      decreases |cs| - head
    {
      st := RowTurn(t, rs, cs, attrs, p, b, o, s0, head, st);
      head, d, ok := NextEntry(flags, head);
    }
    assert cs[..head] == cs;
  }

  /** One turn of the third pass of renderRow, on child `k`: it takes the
      nodes, the queue and the running totals from what the first `k`
      turns leave to what the first `k + 1` leave. */
  method RowTurn(t: Tree, rs: RenderStack, cs: seq<Handle>, attrs: seq<Attributes>, p: Plan, b: Boundry,
                 ghost o: map<Handle, Node>, ghost s0: seq<Handle>, k: nat, st: Run) returns (next: Run)
    requires |attrs| == |cs| == |p.data| && k < |cs|
    requires forall i :: 0 <= i < |cs| ==> cs[i] in o
    requires st == RowRun(attrs, p, k)
    requires t.nodes == Placed(o, cs, RowBoxes(attrs, p, b), k)
    requires rs.elements == PushAll(s0, cs[..k])
    modifies t, rs
    ensures next == RowRun(attrs, p, k + 1)
    ensures t.children == old(t.children) && t.next == old(t.next) && t.rank == old(t.rank)
    ensures t.nodes == Placed(o, cs, RowBoxes(attrs, p, b), k + 1)
    ensures rs.elements == PushAll(s0, cs[..k + 1])
  {
    ghost var boxes := RowBoxes(attrs, p, b);
    RowStep(attrs, p, b, k);
    ghost var mv := RowMove(attrs[k], p.data[k], p, st);
    assert boxes[k] == Slot(Horizontal, b, st, mv);
    ghost var before := t.nodes;
    PlaceStep(o, cs, boxes, k);
    next := RowChild(t, cs[k], attrs[k], p.data[k], p, b, st);
    assert t.nodes == PlaceOne(before, cs[k], boxes[k]);
    rs.Push(cs[k]);
    PushStep(s0, cs, k);
  }

  lemma PlaceStep(o: map<Handle, Node>, cs: seq<Handle>, boxes: seq<Option<Boundry>>, k: nat)
    requires k < |cs| && k < |boxes|
    requires forall i :: 0 <= i < |cs| ==> cs[i] in o
    ensures Placed(o, cs, boxes, k + 1) == PlaceOne(Placed(o, cs, boxes, k), cs[k], boxes[k])
  {
  }

  lemma PushStep(s0: seq<Handle>, cs: seq<Handle>, k: nat)
    requires k < |cs|
    ensures PushAll(s0, cs[..k + 1]) == [cs[k]] + RemoveFirst(PushAll(s0, cs[..k]), cs[k])
  {
    assert cs[..k + 1] == cs[..k] + [cs[k]];
    PushAllSnoc(s0, cs[..k], cs[k]);
  }

  /** One turn of renderRow's third pass, on child `c` with attributes `a`
      and entry `dd`, given what the earlier turns left in `st`. */
  method RowChild(t: Tree, c: Handle, a: Attributes, dd: RenderData, p: Plan, b: Boundry, st: Run)
    returns (next: Run)
    requires c in t.nodes
    modifies t
    ensures next == Advance(st, a, RowMove(a, dd, p, st), p.space)
    ensures t.children == old(t.children) && t.next == old(t.next) && t.rank == old(t.rank)
    ensures t.nodes == PlaceOne(old(t.nodes), c, Slot(Horizontal, b, st, RowMove(a, dd, p, st)))
  {
    var reserve, cap, shares, unit := st.reserve, st.cap, st.shares, st.unit;
    if dd.flag & FlagIgnore > 1 {
      assert RowMove(a, dd, p, st) == Push;
      return st;
    }
    if FlagCalculated & dd.flag > 0 {
      ghost var bx := NewBoundry(reserve + b.firstX, b.firstY, reserve + b.firstX + dd.value, b.secondY);
      assert RowMove(a, dd, p, st) == Place(dd.value, false);
      assert Slot(Horizontal, b, st, Place(dd.value, false)) == Some(bx);
      t.SetBoundry(c, NewBoundry(reserve + b.firstX, b.firstY, reserve + b.firstX + dd.value, b.secondY));
      reserve := reserve + dd.value;
      return Run(reserve, cap, shares, unit);
    }
    unit := Unit(p.space - cap, shares);
    var e := p.extent(unit.space, unit.shares, a.flex);
    ghost var bx := NewBoundry(reserve + b.firstX, b.firstY, reserve + b.firstX + e, b.secondY);
    assert RowMove(a, dd, p, st) == Place(e, true);
    assert Slot(Horizontal, b, st, Place(e, true)) == Some(bx);
    t.SetBoundry(c, NewBoundry(reserve + b.firstX, b.firstY, reserve + b.firstX + e, b.secondY));
    shares := shares - a.flex;
    reserve := reserve + e;
    cap := cap + e;
    return Run(reserve, cap, shares, unit);
  }

  // ------------------------------------------------------------------
  // The third pass of renderColumn
  // ------------------------------------------------------------------

  /** What the third pass of renderColumn does with child `k` when it has
      not stopped before it, and what it leaves for the next one. */
  lemma ColumnStepAt(cs: seq<Attributes>, p: Plan, b: Boundry, scrollY: int, k: nat, st: Run)
    requires |p.data| == |cs| && k < |cs| && ColumnRun(cs, p, scrollY, Height(b), k) == Some(st)
    ensures var mv := ColumnMove(cs[k], p.data[k], k, scrollY, Height(b), p, st);
            ColumnBoxes(cs, p, b, scrollY)[k] == Slot(Vertical, b, st, mv) &&
            ColumnPushes(cs, p, b, scrollY)[k] == Pushes(mv) &&
            ColumnRun(cs, p, scrollY, Height(b), k + 1) == (if mv == Halt then None else Some(Advance(st, cs[k], mv, p.space)))
  {
    assert ColumnStep(cs, p, scrollY, Height(b), k) == ColumnMove(cs[k], p.data[k], k, scrollY, Height(b), p, st);
  }

  /** Pushing the first `k + 1` picked children. */
  lemma PickStep(s0: seq<Handle>, cs: seq<Handle>, keep: seq<bool>, k: nat)
    requires k < |cs| && k < |keep|
    ensures keep[k] ==> PushAll(s0, Picked(cs, keep, k + 1)) == [cs[k]] + RemoveFirst(PushAll(s0, Picked(cs, keep, k)), cs[k])
    ensures !keep[k] ==> Picked(cs, keep, k + 1) == Picked(cs, keep, k)
  {
    if keep[k] {
      PushAllSnoc(s0, Picked(cs, keep, k), cs[k]);
    }
  }

  /** Children without a box leave the nodes alone. */
  lemma {:induction false} PlacedIdle(o: map<Handle, Node>, cs: seq<Handle>, boxes: seq<Option<Boundry>>, k: nat, n: nat)
    requires k <= n <= |cs| && n <= |boxes|
    requires forall i :: 0 <= i < |cs| ==> cs[i] in o
    requires forall j :: k <= j < n ==> boxes[j].None?
    ensures Placed(o, cs, boxes, n) == Placed(o, cs, boxes, k)
    decreases n
  {
    if k < n {
      PlacedIdle(o, cs, boxes, k, n - 1);
    }
  }

  /** Children not picked add nothing. */
  lemma {:induction false} PickedIdle(cs: seq<Handle>, keep: seq<bool>, k: nat, n: nat)
    requires k <= n <= |cs| && n <= |keep|
    requires forall j :: k <= j < n ==> !keep[j]
    ensures Picked(cs, keep, n) == Picked(cs, keep, k)
    decreases n
  {
    if k < n {
      PickedIdle(cs, keep, k, n - 1);
    }
  }

  /** The third pass of renderColumn: children above the scroll offset are
      passed over (an ignored child is still pushed); the others are placed
      one under the other and pushed, until a child no longer fits in the
      height of the rectangle, where the pass stops. A calculated child is
      measured at its saved height; a flex child by the share computed for
      the child before it, although it then gets a share computed afresh. */
  method PlaceColumn(t: Tree, rs: RenderStack, cs: seq<Handle>, attrs: seq<Attributes>, flags: RenderMan, p: Plan,
                     b: Boundry, scrollY: int)
    requires |attrs| == |cs| && p.data == flags.data && |p.data| == |cs|
    requires forall i :: 0 <= i < |cs| ==> cs[i] in t.nodes
    modifies t, rs
    ensures t.children == old(t.children) && t.next == old(t.next) && t.rank == old(t.rank)
    ensures t.nodes == Placed(old(t.nodes), cs, ColumnBoxes(attrs, p, b, scrollY), |cs|)
    ensures rs.elements == PushAll(old(rs.elements), Picked(cs, ColumnPushes(attrs, p, b, scrollY), |cs|))
  {
    var st := Run(0, 0, p.shares, p.first);
    var head, d, ok := NextEntry(flags, -1);
    while ok
      invariant 0 <= head <= |cs| && (ok ==> head < |cs| && d == Some(p.data[head]))
      invariant ok ==> ColumnRun(attrs, p, scrollY, Height(b), head) == Some(st)
      invariant t.children == old(t.children) && t.next == old(t.next) && t.rank == old(t.rank)
      invariant ColumnDone(old(t.nodes), old(rs.elements), cs, attrs, p, b, scrollY, if ok then head else |cs|, t.nodes, rs.elements)
      decreases if ok then |cs| - head + 1 else 0
    {
      head, d, st, ok := ColumnTurn(t, rs, cs, attrs, flags, p, b, scrollY, old(t.nodes), old(rs.elements), head, st);
    }
    ColumnDoneAll(old(t.nodes), old(rs.elements), cs, attrs, p, b, scrollY, t.nodes, rs.elements);
  }

  lemma ColumnDoneAll(o: map<Handle, Node>, s0: seq<Handle>, cs: seq<Handle>, attrs: seq<Attributes>, p: Plan,
                       b: Boundry, scrollY: int, nodes: map<Handle, Node>, elements: seq<Handle>)
    requires ColumnDone(o, s0, cs, attrs, p, b, scrollY, |cs|, nodes, elements)
    ensures nodes == Placed(o, cs, ColumnBoxes(attrs, p, b, scrollY), |cs|)
    ensures elements == PushAll(s0, Picked(cs, ColumnPushes(attrs, p, b, scrollY), |cs|))
  {
  }

  /** The nodes and the queue are what the first `n` turns of the third
      pass of renderColumn leave. */
  predicate ColumnDone(o: map<Handle, Node>, s0: seq<Handle>, cs: seq<Handle>, attrs: seq<Attributes>, p: Plan,
                       b: Boundry, scrollY: int, n: nat, nodes: map<Handle, Node>, elements: seq<Handle>)
  {
    |attrs| == |cs| == |p.data| && n <= |cs| && (forall i :: 0 <= i < |cs| ==> cs[i] in o) &&
    nodes == Placed(o, cs, ColumnBoxes(attrs, p, b, scrollY), n) &&
    elements == PushAll(s0, Picked(cs, ColumnPushes(attrs, p, b, scrollY), n))
  }

  /** One turn of the third pass of renderColumn, on child `k`, which the
      pass has reached: it stops there, or takes the nodes, the queue and
      the running totals to what the first `k + 1` turns leave. */
  method ColumnTurn(t: Tree, rs: RenderStack, cs: seq<Handle>, attrs: seq<Attributes>, flags: RenderMan, p: Plan, b: Boundry,
                    scrollY: int, ghost o: map<Handle, Node>, ghost s0: seq<Handle>, k: nat, st: Run)
    returns (head: int, d: Option<RenderData>, next: Run, ok: bool)
    requires k < |cs| == |p.data| && p.data == flags.data && ColumnDone(o, s0, cs, attrs, p, b, scrollY, k, t.nodes, rs.elements)
    requires ColumnRun(attrs, p, scrollY, Height(b), k) == Some(st)
    modifies t, rs
    ensures k <= head <= |cs| && (ok ==> head == k + 1 < |cs| && d == Some(p.data[head]))
    ensures ok ==> ColumnRun(attrs, p, scrollY, Height(b), head) == Some(next)
    ensures t.children == old(t.children) && t.next == old(t.next) && t.rank == old(t.rank)
    ensures ColumnDone(o, s0, cs, attrs, p, b, scrollY, if ok then head else |cs|, t.nodes, rs.elements)
  {
    var halted;
    next, halted := ColumnVisit(t, rs, cs, attrs, p, b, scrollY, o, s0, k, st);
    if halted {
      return k, None, next, false;
    }
    head, d, ok := NextEntry(flags, k);
    assert ok <==> head < |cs|;
  }

  /** The body of one turn of the third pass of renderColumn, on child `k`,
      which the pass has reached: it stops there, or takes the nodes, the
      queue and the running totals to what the first `k + 1` turns leave. */
  method ColumnVisit(t: Tree, rs: RenderStack, cs: seq<Handle>, attrs: seq<Attributes>, p: Plan, b: Boundry, scrollY: int,
                     ghost o: map<Handle, Node>, ghost s0: seq<Handle>, k: nat, st: Run) returns (next: Run, halted: bool)
    requires k < |cs| && ColumnDone(o, s0, cs, attrs, p, b, scrollY, k, t.nodes, rs.elements)
    requires ColumnRun(attrs, p, scrollY, Height(b), k) == Some(st)
    modifies t, rs
    ensures !halted ==> ColumnRun(attrs, p, scrollY, Height(b), k + 1) == Some(next)
    ensures t.children == old(t.children) && t.next == old(t.next) && t.rank == old(t.rank)
    ensures ColumnDone(o, s0, cs, attrs, p, b, scrollY, if halted then |cs| else k + 1, t.nodes, rs.elements)
  {
    ColumnStepAt(attrs, p, b, scrollY, k, st);
    ColumnPlaceFacts(o, cs, attrs, p, b, scrollY, k, st);
    if ColumnMove(attrs[k], p.data[k], k, scrollY, Height(b), p, st) == Halt {
      ColumnPlaceHalt(o, cs, attrs, p, b, scrollY, k, st);
    }
    ColumnPickFacts(s0, cs, attrs, p, b, scrollY, k, st);
    var pushed;
    next, pushed, halted := ColumnChild(t, cs[k], attrs[k], p.data[k], k, scrollY, p, b, st);
    if pushed {
      rs.Push(cs[k]);
    }
  }

  /** What one turn of the third pass of renderColumn does to the nodes, in
      terms of the move it makes. */
  lemma ColumnPlaceFacts(o: map<Handle, Node>, cs: seq<Handle>, attrs: seq<Attributes>, p: Plan,
                         b: Boundry, scrollY: int, k: nat, st: Run)
    requires |attrs| == |cs| == |p.data| && k < |cs|
    requires forall i :: 0 <= i < |cs| ==> cs[i] in o
    requires ColumnRun(attrs, p, scrollY, Height(b), k) == Some(st)
    ensures var boxes := ColumnBoxes(attrs, p, b, scrollY);
            Placed(o, cs, boxes, k + 1) ==
            PlaceOne(Placed(o, cs, boxes, k), cs[k], Slot(Vertical, b, st, ColumnMove(attrs[k], p.data[k], k, scrollY, Height(b), p, st)))
  {
    ColumnStepAt(attrs, p, b, scrollY, k, st);
    PlaceStep(o, cs, ColumnBoxes(attrs, p, b, scrollY), k);
  }

  /** A halt in the third pass of renderColumn leaves the nodes as the
      turns before it placed them. */
  lemma ColumnPlaceHalt(o: map<Handle, Node>, cs: seq<Handle>, attrs: seq<Attributes>, p: Plan,
                        b: Boundry, scrollY: int, k: nat, st: Run)
    requires |attrs| == |cs| == |p.data| && k < |cs|
    requires forall i :: 0 <= i < |cs| ==> cs[i] in o
    requires ColumnRun(attrs, p, scrollY, Height(b), k) == Some(st)
    requires ColumnMove(attrs[k], p.data[k], k, scrollY, Height(b), p, st) == Halt
    ensures var boxes := ColumnBoxes(attrs, p, b, scrollY);
            Placed(o, cs, boxes, |cs|) == Placed(o, cs, boxes, k)
  {
    ColumnIdle(attrs, p, b, scrollY, k, st);
    PlacedIdle(o, cs, ColumnBoxes(attrs, p, b, scrollY), k, |cs|);
  }

  /** From a halt on, the third pass of renderColumn neither places nor
      pushes a child. */
  lemma ColumnIdle(attrs: seq<Attributes>, p: Plan, b: Boundry, scrollY: int, k: nat, st: Run)
    requires |attrs| == |p.data| && k < |attrs|
    requires ColumnRun(attrs, p, scrollY, Height(b), k) == Some(st)
    requires ColumnMove(attrs[k], p.data[k], k, scrollY, Height(b), p, st) == Halt
    ensures forall j :: k <= j < |attrs| ==> ColumnBoxes(attrs, p, b, scrollY)[j].None? && !ColumnPushes(attrs, p, b, scrollY)[j]
  {
    ColumnStepAt(attrs, p, b, scrollY, k, st);
    forall j | k < j < |attrs|
      ensures ColumnBoxes(attrs, p, b, scrollY)[j].None? && !ColumnPushes(attrs, p, b, scrollY)[j]
    {
      ColumnHalted(attrs, p, b, scrollY, k + 1, j);
    }
  }

  /** What one turn of the third pass of renderColumn does to the queue, in
      terms of the move it makes: a halt settles all of it. */
  lemma ColumnPickFacts(s0: seq<Handle>, cs: seq<Handle>, attrs: seq<Attributes>, p: Plan,
                        b: Boundry, scrollY: int, k: nat, st: Run)
    requires |attrs| == |cs| == |p.data| && k < |cs|
    requires ColumnRun(attrs, p, scrollY, Height(b), k) == Some(st)
    ensures var mv, pushes := ColumnMove(attrs[k], p.data[k], k, scrollY, Height(b), p, st), ColumnPushes(attrs, p, b, scrollY);
            var n := if mv == Halt then |cs| else k + 1;
            (Pushes(mv) ==> PushAll(s0, Picked(cs, pushes, n)) == [cs[k]] + RemoveFirst(PushAll(s0, Picked(cs, pushes, k)), cs[k])) &&
            (!Pushes(mv) ==> Picked(cs, pushes, n) == Picked(cs, pushes, k))
  {
    var pushes := ColumnPushes(attrs, p, b, scrollY);
    var mv := ColumnMove(attrs[k], p.data[k], k, scrollY, Height(b), p, st);
    ColumnStepAt(attrs, p, b, scrollY, k, st);
    assert pushes[k] == Pushes(mv);
    PickStep(s0, cs, pushes, k);
    if mv == Halt {
      ColumnIdle(attrs, p, b, scrollY, k, st);
      PickedIdle(cs, pushes, k, |cs|);
    }
  }

  /** One turn of renderColumn's third pass, on child `c` at index `k`
      with attributes `a` and entry `dd`, given what the earlier turns left
      in `st`. */
  method ColumnChild(t: Tree, c: Handle, a: Attributes, dd: RenderData, k: int, scrollY: int, p: Plan, b: Boundry, st: Run)
    returns (next: Run, pushed: bool, halted: bool)
    requires c in t.nodes
    modifies t
    ensures var mv := ColumnMove(a, dd, k, scrollY, Height(b), p, st);
            halted == (mv == Halt) && pushed == Pushes(mv) && (!halted ==> next == Advance(st, a, mv, p.space)) &&
            t.nodes == PlaceOne(old(t.nodes), c, Slot(Vertical, b, st, mv))
    ensures t.children == old(t.children) && t.next == old(t.next) && t.rank == old(t.rank)
  {
    var reserve, cap, shares, unit := st.reserve, st.cap, st.shares, st.unit;
    if dd.flag & FlagIgnore > 1 {
      assert ColumnMove(a, dd, k, scrollY, Height(b), p, st) == Push;
      return st, true, false;
    }
    if k < scrollY {
      assert ColumnMove(a, dd, k, scrollY, Height(b), p, st) == Pass;
      return st, false, false;
    }
    if FlagCalculated & dd.flag > 0 {
      if reserve + dd.value > Height(b) {
        assert ColumnMove(a, dd, k, scrollY, Height(b), p, st) == Halt;
        return st, false, true;
      }
      ghost var bx := NewBoundry(b.firstX, reserve + b.firstY, b.secondX, reserve + b.firstY + dd.value);
      assert ColumnMove(a, dd, k, scrollY, Height(b), p, st) == Place(dd.value, false);
      assert Slot(Vertical, b, st, Place(dd.value, false)) == Some(bx);
      t.SetBoundry(c, NewBoundry(b.firstX, reserve + b.firstY, b.secondX, reserve + b.firstY + dd.value));
      reserve := reserve + dd.value;
      return Run(reserve, cap, shares, unit), true, false;
    }
    if reserve + p.extent(unit.space, unit.shares, a.flex) > Height(b) {
      assert ColumnMove(a, dd, k, scrollY, Height(b), p, st) == Halt;
      return st, false, true;
    }
    unit := Unit(p.space - cap, shares);
    var e := p.extent(unit.space, unit.shares, a.flex);
    ghost var bx := NewBoundry(b.firstX, reserve + b.firstY, b.secondX, reserve + b.firstY + e);
    assert ColumnMove(a, dd, k, scrollY, Height(b), p, st) == Place(e, true);
    assert Slot(Vertical, b, st, Place(e, true)) == Some(bx);
    t.SetBoundry(c, NewBoundry(b.firstX, reserve + b.firstY, b.secondX, reserve + b.firstY + e));
    shares := shares - a.flex;
    reserve := reserve + e;
    cap := cap + e;
    return Run(reserve, cap, shares, unit), true, false;
  }

  // ------------------------------------------------------------------
  // renderRow and renderColumn
  // ------------------------------------------------------------------

  /** The three passes of renderRow or renderColumn together compute the
      plan FlexPlan describes. */
  method PlanPasses(ax: Axis, attrs: seq<Attributes>, length: int, ext: Extent) returns (flags: RenderMan, p: Plan)
    ensures fresh(flags)
    ensures p == Planned(ax, attrs, length, ext) && flags.data == p.data
  {
    var space, shares;
    flags, space, shares := Classify(ax, attrs, length);
    var first := Unit(space, shares);
    space, shares := Limit(ax, attrs, flags, space, shares, ext);
    p := Plan(flags.data, space, shares, first, ext);
    assert flags.data == Planned(ax, attrs, length, ext).data;
  }

  /** renderRow: the children of `h` get their boxes along the row of `b`
      and are all pushed, in order; nothing but their boundaries changes. */
  method RenderRow(t: Tree, rs: RenderStack, h: Handle, b: Boundry, ext: Extent)
    requires t.Valid() && h in t.children
    modifies t, rs
    ensures t.Valid() && t.children == old(t.children) && t.next == old(t.next) && t.rank == old(t.rank)
    ensures var cs := t.children[h];
            t.nodes == Placed(old(t.nodes), cs, RowLayout(ChildAttrs(old(t.nodes), cs), b, ext), |cs|) &&
            rs.elements == PushAll(old(rs.elements), cs)
  {
    var cs := t.children[h];
    var attrs := ChildAttrs(t.nodes, cs);
    var flags, p := PlanPasses(Horizontal, attrs, Width(b), ext);
    ghost var o := t.nodes;
    PlaceRow(t, rs, cs, attrs, flags, p, b);
    PlacedBoundries(o, cs, RowBoxes(attrs, p, b), |cs|);
    BoundriesFit(o, t.nodes, t.children);
  }

  /** renderColumn: the children of `h` get their boxes down the column of
      `b`, from the element's vertical scroll offset on, until one no
      longer fits; the ones the pass picks are pushed, in order; nothing
      but their boundaries changes. */
  method RenderColumn(t: Tree, rs: RenderStack, h: Handle, b: Boundry, ext: Extent)
    requires t.Valid() && h in t.children
    modifies t, rs
    ensures t.Valid() && t.children == old(t.children) && t.next == old(t.next) && t.rank == old(t.rank)
    ensures var cs, attrs, scrollY := t.children[h], ChildAttrs(old(t.nodes), t.children[h]), old(t.nodes[h].state.scrollY);
            t.nodes == Placed(old(t.nodes), cs, ColumnLayout(attrs, b, scrollY, ext), |cs|) &&
            rs.elements == PushAll(old(rs.elements), Picked(cs, ColumnPushed(attrs, b, scrollY, ext), |cs|))
  {
    var cs := t.children[h];
    var attrs := ChildAttrs(t.nodes, cs);
    var scrollY := t.nodes[h].state.scrollY;
    var flags, p := PlanPasses(Vertical, attrs, Height(b), ext);
    ghost var o := t.nodes;
    PlaceColumn(t, rs, cs, attrs, flags, p, b, scrollY);
    PlacedBoundries(o, cs, ColumnBoxes(attrs, p, b, scrollY), |cs|);
    BoundriesFit(o, t.nodes, t.children);
  }

  // ------------------------------------------------------------------
  // Painting an element
  // ------------------------------------------------------------------

  /** Painting an element stays on the grid: its rectangle fits and, with a
      border, so do the corners of the border. The source does not check
      this; it is what keeps every write of the view inside its grid. */
  predicate Paintable(v: View, a: Attributes, b: Boundry)
    reads v
  {
    PaintableOn(v.rows, a, b)
  }

  /** Paintable, on the grid `g` itself. */
  predicate PaintableOn(g: Grid, a: Attributes, b: Boundry)
  {
    FitsGrid(g, b) && (a.border ==> CornersOnGrid(g, Indexify(b)))
  }

  /** What renderBase and then drawBorder leave on the grid. */
  function Framed(g: Grid, a: Attributes, b: Boundry): (h: Grid)
    ensures |h| == |g| && forall i :: 0 <= i < |g| ==> |h[i]| == |g[i]|
  {
    var based := Region(g, b, Paint(Pen(a), ' ', a.zIndex));
    if a.border then Bordering(based, Indexify(b), Pen(a), a.zIndex) else based
  }

  /** What renderBase, drawBorder and then renderText leave on the grid. */
  function Decorated(g: Grid, a: Attributes, b: Boundry, content: string, scrollY: int): (h: Grid)
    ensures |h| == |g| && forall i :: 0 <= i < |g| ==> |h[i]| == |g[i]|
  {
    var f := Framed(g, a, b);
    var area := TextArea(a, b);
    if content == [] || Width(area) < 1 || Height(area) < 1 then f
    else Texted(f, area.firstX, area.firstY, Width(area), Pen(a), a.zIndex, Utf8String(content),
                if scrollY < 0 then 0 else scrollY, Height(area), 0)
  }

  /** The text area lies inside the element's rectangle, so it fits when
      the rectangle does. */
  lemma TextAreaFits(v: View, a: Attributes, b: Boundry)
    requires v.Fits(b)
    ensures v.Fits(TextArea(a, b))
  {
  }

  /** Painting an element changes no cell outside its rectangle, provided
      a bordered element has room for its border: one with no width or no
      height has its border corners drawn a cell before its rectangle. */
  lemma DecoratedWithin(g: Grid, a: Attributes, b: Boundry, content: string, scrollY: int, x: int, y: int)
    requires 0 <= y < |g| && 0 <= x < |g[y]|
    requires !(b.firstX <= x < b.secondX && b.firstY <= y < b.secondY)
    requires a.border ==> Width(b) >= 1 && Height(b) >= 1
    ensures Decorated(g, a, b, content, scrollY)[y][x] == g[y][x]
  {
    var based := Region(g, b, Paint(Pen(a), ' ', a.zIndex));
    assert based[y][x] == g[y][x];
    var f := Framed(g, a, b);
    if a.border {
      assert BorderGlyph(Indexify(b), x, y).None?;
    }
    assert f[y][x] == g[y][x];
  }

  /** renderBase followed by drawBorder, the start of every layout. */
  method Frame(v: View, a: Attributes, b: Boundry)
    requires v.Valid() && Paintable(v, a, b)
    modifies v
    ensures v.Valid() && v.rows == Framed(old(v.rows), a, b)
  {
    RenderBase(v, a, b);
    assert |v.rows| == |old(v.rows)| && (|v.rows| > 0 ==> |v.rows[0]| == |old(v.rows)[0]|);
    ghost var based := v.rows;
    DrawBorder(v, a, b);
    if a.border {
      BorderDrawnUnique(based, v.rows, Indexify(b), Pen(a), a.zIndex);
    }
  }

  /** renderBase, drawBorder and renderText, the whole of Block.Layout. */
  method Decorate(v: View, a: Attributes, b: Boundry, content: string, scrollY: int)
    requires v.Valid() && Paintable(v, a, b)
    modifies v
    ensures v.Valid() && v.rows == Decorated(old(v.rows), a, b, content, scrollY)
  {
    TextAreaFits(v, a, b);
    Frame(v, a, b);
    assert v.Fits(TextArea(a, b));
    var _ := RenderText(v, a, b, content, scrollY);
  }

  // ------------------------------------------------------------------
  // The three layouts
  // ------------------------------------------------------------------

  /** The nodes after a flex element with attributes `a` has shared `b`
      out among its children `cs`: down a column for the Column direction,
      along a row for every other. */
  function FlexNodes(o: map<Handle, Node>, cs: seq<Handle>, a: Attributes, b: Boundry, scrollY: int, ext: Extent): map<Handle, Node>
    requires forall i :: 0 <= i < |cs| ==> cs[i] in o
  {
    var attrs := ChildAttrs(o, cs);
    if a.flexDirection == Column then Placed(o, cs, ColumnLayout(attrs, b, scrollY, ext), |cs|)
    else Placed(o, cs, RowLayout(attrs, b, ext), |cs|)
  }

  /** The children a flex element pushes, in the order it pushes them:
      all of them along a row, the ones the column reaches down a column. */
  function FlexPushed(o: map<Handle, Node>, cs: seq<Handle>, a: Attributes, b: Boundry, scrollY: int, ext: Extent): (r: seq<Handle>)
    requires forall i :: 0 <= i < |cs| ==> cs[i] in o
    ensures forall i :: 0 <= i < |r| ==> r[i] in cs
  {
    if a.flexDirection == Column then Picked(cs, ColumnPushed(ChildAttrs(o, cs), b, scrollY, ext), |cs|)
    else cs
  }

  /** Flex.Layout: the element is painted in its own rectangle, then its
      children share out `b`, down a column when the direction is Column
      and along a row for every other direction. */
  method FlexLayout(t: Tree, rs: RenderStack, v: View, h: Handle, b: Boundry, ext: Extent)
    requires t.Valid() && h in t.children && v.Valid()
    requires Paintable(v, t.nodes[h].attrs, t.nodes[h].boundry)
    modifies t, rs, v
    ensures v.Valid() && v.rows == Framed(old(v.rows), old(t.nodes[h].attrs), old(t.nodes[h].boundry))
    ensures t.Valid() && t.children == old(t.children) && t.next == old(t.next) && t.rank == old(t.rank)
    ensures var cs, a, scrollY := t.children[h], old(t.nodes[h].attrs), old(t.nodes[h].state.scrollY);
            t.nodes == FlexNodes(old(t.nodes), cs, a, b, scrollY, ext) &&
            rs.elements == PushAll(old(rs.elements), FlexPushed(old(t.nodes), cs, a, b, scrollY, ext))
  {
    var n := t.nodes[h];
    Frame(v, n.attrs, n.boundry);
    match n.attrs.flexDirection
    case Row =>
      RenderRow(t, rs, h, b, ext);
    case Column =>
      RenderColumn(t, rs, h, b, ext);
    case _ =>
      RenderRow(t, rs, h, b, ext);
  }

  /** Block.Layout: the element is painted, with its text, in its own
      rectangle; the rectangle it is handed is not used, and its children
      are left alone. */
  method BlockLayout(t: Tree, v: View, h: Handle)
    requires h in t.nodes && v.Valid() && Paintable(v, t.nodes[h].attrs, t.nodes[h].boundry)
    modifies v
    ensures v.Valid()
    ensures var n := t.nodes[h];
            v.rows == Decorated(old(v.rows), n.attrs, n.boundry, n.content, n.state.scrollY)
  {
    var n := t.nodes[h];
    Decorate(v, n.attrs, n.boundry, n.content, n.state.scrollY);
  }

  /** The rectangle an absolute element takes: its left and top attributes
      give the corner, its width and height the size. */
  function AbsoluteBox(a: Attributes): (r: Boundry)
    ensures r.firstX == a.left && r.firstY == a.top && Width(r) == a.width && Height(r) == a.height
  {
    NewBoundry(a.left, a.top, a.width + a.left, a.height + a.top)
  }

  /** Absolute.Layout: the element's boundary becomes its AbsoluteBox,
      whatever rectangle it is handed, and it is painted there with its
      text. */
  method AbsoluteLayout(t: Tree, v: View, h: Handle)
    requires t.Valid() && h in t.nodes && v.Valid() && Paintable(v, t.nodes[h].attrs, AbsoluteBox(t.nodes[h].attrs))
    modifies t, v
    ensures t.Valid() && t.children == old(t.children) && t.next == old(t.next) && t.rank == old(t.rank)
    ensures t.nodes == old(t.nodes)[h := old(t.nodes)[h].(boundry := AbsoluteBox(old(t.nodes)[h].attrs))]
    ensures v.Valid()
    ensures var n := old(t.nodes)[h];
            v.rows == Decorated(old(v.rows), n.attrs, AbsoluteBox(n.attrs), n.content, n.state.scrollY)
  {
    var a := t.nodes[h].attrs;
    t.SetBoundry(h, AbsoluteBox(a));
    var n := t.nodes[h];
    Decorate(v, n.attrs, n.boundry, n.content, n.state.scrollY);
  }
}
