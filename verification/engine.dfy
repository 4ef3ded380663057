/** The engine (core/engine/engine.go) with its goroutines, ticker, debounce
    and terminal stripped: the element tree, the screen buffer, the render
    stack and the index of elements by id, and the operations on them. The
    index is a package variable in the source; here it is a field of the
    engine. An ElementUpdater, the pair of an element and its engine, becomes
    a method of the engine taking the element's handle. */
module Engine {
  import opened Wrappers
  import opened Kinds
  import opened Attribute
  import opened Geometry
  import opened Element
  import opened RenderStacks
  import opened Screen
  import opened Paint
  import opened FlexPlan
  import opened Layouts
  import Seqs

  // ------------------------------------------------------------------
  // The index of elements by id
  // ------------------------------------------------------------------

  type Ids = map<string, seq<Handle>>

  /** The list under `id`: the nil slice of a missing key is the empty one. */
  function Listed(ids: Ids, id: string): seq<Handle>
  {
    if id in ids then ids[id] else []
  }

  /** Every listed element is an element of the tree. */
  predicate IdsIn(ids: Ids, elements: set<Handle>)
  {
    forall k, x :: k in ids && x in ids[k] ==> x in elements
  }

  /** The index after visiting the elements of `s` in order: each element
      with a non-empty id goes to the end of its id's list. */
  function Indexed(nodes: map<Handle, Node>, m: Ids, s: seq<Handle>): Ids
    requires forall x :: x in s ==> x in nodes
    decreases |s|
  {
    if s == [] then m
    else
      var r := Indexed(nodes, m, s[..|s| - 1]);
      var x := s[|s| - 1];
      var id := nodes[x].attrs.id;
      if id == "" then r else r[id := Listed(r, id) + [x]]
  }

  /** Indexing existing elements lists nothing but existing elements. */
  lemma {:induction false} IndexedIn(nodes: map<Handle, Node>, m: Ids, s: seq<Handle>)
    requires forall x :: x in s ==> x in nodes
    requires IdsIn(m, nodes.Keys)
    ensures IdsIn(Indexed(nodes, m, s), nodes.Keys)
    decreases |s|
  {
    if s != [] {
      IndexedIn(nodes, m, s[..|s| - 1]);
    }
  }

  /** The elements of `s` whose id is `k`, in order. */
  function WithId(nodes: map<Handle, Node>, s: seq<Handle>, k: string): (r: seq<Handle>)
    requires forall x :: x in s ==> x in nodes
    ensures forall y :: y in r ==> y in nodes && nodes[y].attrs.id == k
    ensures (exists x :: x in s && nodes[x].attrs.id == k) <==> r != []
    decreases |s|
  {
    if s == [] then []
    else
      var r := WithId(nodes, s[..|s| - 1], k);
      var x := s[|s| - 1];
      r + (if nodes[x].attrs.id == k then [x] else [])
  }

  /** Indexing a run of elements appends to the list of every non-empty id
      exactly the elements of the run with that id, in order, and creates
      the id's entry only if there is one; the empty id is never indexed. */
  lemma {:induction false} IndexedLists(nodes: map<Handle, Node>, m: Ids, s: seq<Handle>, k: string)
    requires forall x :: x in s ==> x in nodes
    ensures k != "" ==> Listed(Indexed(nodes, m, s), k) == Listed(m, k) + WithId(nodes, s, k)
    ensures k != "" ==> (k in Indexed(nodes, m, s) <==> k in m || WithId(nodes, s, k) != [])
    ensures k == "" ==> (k in Indexed(nodes, m, s) <==> k in m) && Listed(Indexed(nodes, m, s), k) == Listed(m, k)
    decreases |s|
  {
    if s != [] {
      var s1, x := s[..|s| - 1], s[|s| - 1];
      IndexedLists(nodes, m, s1, k);
      var r, w := Indexed(nodes, m, s1), WithId(nodes, s1, k);
      var id := nodes[x].attrs.id;
      assert Indexed(nodes, m, s) == if id == "" then r else r[id := Listed(r, id) + [x]];
      assert WithId(nodes, s, k) == w + (if id == k then [x] else []);
      if k != "" && id == k {
        Seqs.AppendAssoc(Listed(m, k), w, [x]);
      }
    }
  }

  /** Indexing one run and then another is indexing the two together. */
  lemma {:induction false} IndexedAppend(nodes: map<Handle, Node>, m: Ids, s: seq<Handle>, t: seq<Handle>)
    requires forall x :: x in s ==> x in nodes
    requires forall x :: x in t ==> x in nodes
    ensures forall x :: x in s + t ==> x in nodes
    ensures Indexed(nodes, m, s + t) == Indexed(nodes, Indexed(nodes, m, s), t)
    decreases |t|
  {
    if t != [] {
      var t1, x := t[..|t| - 1], t[|t| - 1];
      assert (s + t)[..|s + t| - 1] == s + t1;
      assert (s + t)[|s + t| - 1] == x;
      IndexedAppend(nodes, m, s, t1);
      var r := Indexed(nodes, m, s + t1);
      var id := nodes[x].attrs.id;
      assert Indexed(nodes, m, s + t) == if id == "" then r else r[id := Listed(r, id) + [x]];
      assert r == Indexed(nodes, Indexed(nodes, m, s), t1);
    } else {
      assert s + t == s;
    }
  }

  /** The update AppendChild and PrependChild make to the index, as written:
      an id not yet indexed gets a list of the new child alone, but for an
      id already indexed the child is appended to a local copy of the list,
      which is then dropped, so the index is left as it was. */
  function IndexChildAsWritten(ids: Ids, id: string, c: Handle): Ids
  {
    if id == "" then ids
    else if id in ids then ids
    else ids[id := [c]]
  }

  /** The update as evidently intended: the child joins the end of its
      id's list, which is created when missing. */
  function IndexChild(ids: Ids, id: string, c: Handle): Ids
  {
    if id == "" then ids
    else if id in ids then ids[id := ids[id] + [c]]
    else ids[id := [c]]
  }

  /** The intended update lists nothing but elements. */
  lemma IndexChildIn(ids: Ids, elements: set<Handle>, id: string, c: Handle)
    requires IdsIn(ids, elements) && c in elements
    ensures IdsIn(IndexChild(ids, id, c), elements)
  {
  }

  /** With the intended update the index stays what indexing every element
      in order of arrival gives: adding a child is indexing one element
      more. */
  lemma IndexChildIndexes(nodes: map<Handle, Node>, m: Ids, s: seq<Handle>, c: Handle)
    requires forall x :: x in s ==> x in nodes
    requires c in nodes
    ensures forall x :: x in s + [c] ==> x in nodes
    ensures IndexChild(Indexed(nodes, m, s), nodes[c].attrs.id, c) == Indexed(nodes, m, s + [c])
  {
    assert (s + [c])[..|s + [c]| - 1] == s;
    assert [] + [c] == [c];
  }

  /** As written, a child appended under an id already in use is not
      found by that id: element 2 joins element 1 under "row", and the
      index still lists element 1 alone. */
  lemma IndexChildAsWrittenLoses(nodes: map<Handle, Node>)
    requires 1 in nodes && 2 in nodes
    requires nodes[1].attrs.id == "row" && nodes[2].attrs.id == "row"
    ensures Indexed(nodes, map[], [1, 2]) == map["row" := [1, 2]]
    ensures IndexChildAsWritten(Indexed(nodes, map[], [1]), "row", 2) == map["row" := [1]]
  {
    assert [1, 2][..1] == [1] && [1][..0] == [];
    assert Indexed(nodes, map[], [1]) == map["row" := [] + [1]];
    assert [] + [1] == [1] && [1] + [2] == [1, 2];
  }

  /** The pre-order walk from `h` after its first `i` subtrees. */
  ghost function Visited(kids: map<Handle, seq<Handle>>, rank: map<Handle, nat>, h: Handle, i: nat): (r: seq<Handle>)
    requires WellRanked(kids, rank) && h in kids && i <= |kids[h]|
    ensures forall x :: x in r ==> x in kids
  {
    ChildrenBelow(kids, rank, h);
    BelowPrefix(kids, rank, kids[h], rank[h], i);
    [h] + PreOrderAll(kids, rank, kids[h][..i], rank[h])
  }

  /** The walk starts with the element itself. */
  lemma VisitStart(nodes: map<Handle, Node>, kids: map<Handle, seq<Handle>>, rank: map<Handle, nat>, h: Handle, m: Ids)
    requires WellRanked(kids, rank) && nodes.Keys == kids.Keys && h in kids
    ensures var id := nodes[h].attrs.id;
            Indexed(nodes, m, Visited(kids, rank, h, 0)) == if id == "" then m else m[id := Listed(m, id) + [h]]
  {
    assert kids[h][..0] == [];
    assert Visited(kids, rank, h, 0) == [h];
    assert [h][..0] == [];
  }

  /** Each child ranks below its parent. */
  lemma VisitBelow(kids: map<Handle, seq<Handle>>, rank: map<Handle, nat>, h: Handle, i: nat)
    requires WellRanked(kids, rank) && h in kids && i < |kids[h]|
    ensures kids[h][i] in kids && rank[kids[h][i]] < rank[h]
  {
    ChildrenBelow(kids, rank, h);
  }

  /** The walk over one more subtree indexes that subtree's walk next. */
  lemma VisitStep(nodes: map<Handle, Node>, kids: map<Handle, seq<Handle>>, rank: map<Handle, nat>, h: Handle, i: nat,
                  m: Ids, before: Ids, after: Ids)
    requires WellRanked(kids, rank) && nodes.Keys == kids.Keys && h in kids && i < |kids[h]|
    requires kids[h][i] in kids
    requires before == Indexed(nodes, m, Visited(kids, rank, h, i))
    requires after == Indexed(nodes, before, PreOrder(kids, rank, kids[h][i]))
    ensures after == Indexed(nodes, m, Visited(kids, rank, h, i + 1))
  {
    var cs := kids[h];
    var next := PreOrder(kids, rank, cs[i]);
    assert Visited(kids, rank, h, i + 1) == Visited(kids, rank, h, i) + next by {
      ChildrenBelow(kids, rank, h);
      BelowPrefix(kids, rank, cs, rank[h], i);
      BelowPrefix(kids, rank, cs, rank[h], i + 1);
      var done := PreOrderAll(kids, rank, cs[..i], rank[h]);
      assert cs[..i + 1][..i] == cs[..i] && cs[..i + 1][i] == cs[i];
      assert PreOrderAll(kids, rank, cs[..i + 1], rank[h]) == done + next;
      Seqs.AppendAssoc([h], done, next);
    }
    IndexedAppend(nodes, m, Visited(kids, rank, h, i), next);
  }

  /** After the last subtree the walk is the whole pre-order. */
  lemma VisitDone(kids: map<Handle, seq<Handle>>, rank: map<Handle, nat>, h: Handle)
    requires WellRanked(kids, rank) && h in kids
    ensures Visited(kids, rank, h, |kids[h]|) == PreOrder(kids, rank, h)
  {
    assert kids[h][..|kids[h]|] == kids[h];
  }

  // ------------------------------------------------------------------
  // The amount of painting left
  // ------------------------------------------------------------------

  /** The paints the stack `s` can still lead to: each waiting element is
      worth the number of paths from it down through its descendants. */
  ghost function Weight(kids: map<Handle, seq<Handle>>, rank: map<Handle, nat>, s: seq<Handle>): nat
    requires WellRanked(kids, rank) && forall x :: x in s ==> x in kids
    decreases |s|
  {
    if s == [] then 0 else Weight(kids, rank, s[..|s| - 1]) + Size(kids, rank, s[|s| - 1])
  }

  lemma {:induction false} WeightAppend(kids: map<Handle, seq<Handle>>, rank: map<Handle, nat>, s: seq<Handle>, t: seq<Handle>)
    requires WellRanked(kids, rank)
    requires forall x :: x in s ==> x in kids
    requires forall x :: x in t ==> x in kids
    ensures forall x :: x in s + t ==> x in kids
    ensures Weight(kids, rank, s + t) == Weight(kids, rank, s) + Weight(kids, rank, t)
    decreases |t|
  {
    if t != [] {
      var t1 := t[..|t| - 1];
      assert (s + t)[..|s + t| - 1] == s + t1;
      assert (s + t)[|s + t| - 1] == t[|t| - 1];
      WeightAppend(kids, rank, s, t1);
    } else {
      assert s + t == s;
    }
  }

  /** Taking an element out of the stack never adds weight. */
  lemma WeightRemoveFirst(kids: map<Handle, seq<Handle>>, rank: map<Handle, nat>, s: seq<Handle>, x: Handle)
    requires WellRanked(kids, rank) && forall x :: x in s ==> x in kids
    ensures forall y :: y in RemoveFirst(s, x) ==> y in kids
    ensures Weight(kids, rank, RemoveFirst(s, x)) <= Weight(kids, rank, s)
  {
    var i := IndexOf(s, x);
    if i < |s| {
      var a, b := s[..i], s[i + 1..];
      assert s == a + [s[i]] + b;
      WeightAppend(kids, rank, a, [s[i]]);
      WeightAppend(kids, rank, a + [s[i]], b);
      WeightAppend(kids, rank, a, b);
    }
  }

  /** A run of pushes adds at most the weight of what is pushed. */
  lemma {:induction false} WeightPushAll(kids: map<Handle, seq<Handle>>, rank: map<Handle, nat>, s: seq<Handle>, xs: seq<Handle>)
    requires WellRanked(kids, rank)
    requires forall x :: x in s ==> x in kids
    requires forall x :: x in xs ==> x in kids
    ensures forall x :: x in PushAll(s, xs) ==> x in kids
    ensures Weight(kids, rank, PushAll(s, xs)) <= Weight(kids, rank, s) + Weight(kids, rank, xs)
    decreases |xs|
  {
    if xs != [] {
      var r := RemoveFirst(s, xs[0]);
      WeightRemoveFirst(kids, rank, s, xs[0]);
      WeightAppend(kids, rank, [xs[0]], r);
      WeightPushAll(kids, rank, [xs[0]] + r, xs[1..]);
      assert xs == [xs[0]] + xs[1..];
      WeightAppend(kids, rank, [xs[0]], xs[1..]);
    }
  }

  /** Picking some of a list weighs no more than the list. */
  lemma {:induction false} WeightPicked(kids: map<Handle, seq<Handle>>, rank: map<Handle, nat>, xs: seq<Handle>, keep: seq<bool>, k: nat)
    requires WellRanked(kids, rank) && forall x :: x in xs ==> x in kids
    requires k <= |xs| && k <= |keep|
    ensures forall x :: x in Picked(xs, keep, k) ==> x in kids
    ensures Weight(kids, rank, Picked(xs, keep, k)) <= Weight(kids, rank, xs[..k])
  {
    if k > 0 {
      WeightPicked(kids, rank, xs, keep, k - 1);
      var p, x := Picked(xs, keep, k - 1), xs[k - 1];
      assert x in kids;
      assert Weight(kids, rank, xs[..k]) == Weight(kids, rank, xs[..k - 1]) + Size(kids, rank, x) by {
        assert xs[..k][..k - 1] == xs[..k - 1] && xs[..k][k - 1] == x;
      }
      if keep[k - 1] {
        assert Picked(xs, keep, k) == p + [x];
        WeightAppend(kids, rank, p, [x]);
        assert [x][..0] == [];
      } else {
        assert Picked(xs, keep, k) == p + [] == p;
      }
    }
  }

  /** A list of children weighs what their parent weighs, less the parent
      itself. */
  lemma {:induction false} WeightChildren(kids: map<Handle, seq<Handle>>, rank: map<Handle, nat>, cs: seq<Handle>, bound: nat)
    requires WellRanked(kids, rank) && Below(kids, rank, cs, bound)
    ensures forall x :: x in cs ==> x in kids
    ensures Weight(kids, rank, cs) == SizeAll(kids, rank, cs, bound)
    decreases |cs|
  {
    if cs != [] {
      WeightChildren(kids, rank, cs[..|cs| - 1], bound);
    }
  }

  /** Painting the last element of the stack and pushing at most its
      children leaves less weight than there was. */
  lemma DrainDecreases(kids: map<Handle, seq<Handle>>, rank: map<Handle, nat>, s: seq<Handle>, pushed: seq<Handle>)
    requires WellRanked(kids, rank) && s != [] && forall x :: x in s ==> x in kids
    requires forall x :: x in pushed ==> x in kids
    requires Weight(kids, rank, pushed) <= Weight(kids, rank, kids[s[|s| - 1]])
    ensures forall x :: x in PushAll(s[..|s| - 1], pushed) ==> x in kids
    ensures Weight(kids, rank, PushAll(s[..|s| - 1], pushed)) < Weight(kids, rank, s)
  {
    var h := s[|s| - 1];
    WeightPushAll(kids, rank, s[..|s| - 1], pushed);
    ChildrenBelow(kids, rank, h);
    WeightChildren(kids, rank, kids[h], rank[h]);
  }

  /** What a flex element pushes weighs no more than its children. */
  lemma FlexPushedWeight(kids: map<Handle, seq<Handle>>, rank: map<Handle, nat>, o: map<Handle, Node>, h: Handle,
                         a: Attributes, b: Boundry, scrollY: int, ext: Extent)
    requires WellRanked(kids, rank) && h in kids && NodesFit(o, kids)
    ensures forall x :: x in kids[h] ==> x in o
    ensures var r := FlexPushed(o, kids[h], a, b, scrollY, ext);
            (forall x :: x in r ==> x in kids) &&
            Weight(kids, rank, r) <= Weight(kids, rank, kids[h])
  {
    var cs := kids[h];
    if a.flexDirection == Column {
      var keep := ColumnPushed(ChildAttrs(o, cs), b, scrollY, ext);
      WeightPicked(kids, rank, cs, keep, |cs|);
      assert cs[..|cs|] == cs;
    }
  }

  // ------------------------------------------------------------------
  // The rectangle a drain repaints
  // ------------------------------------------------------------------

  /** The smallest rectangle containing every rectangle of a non-empty
      list, built up one Sum at a time. */
  function Hull(bs: seq<Boundry>): Boundry
    requires bs != []
    decreases |bs|
  {
    if |bs| == 1 then bs[0] else Sum(Hull(bs[..|bs| - 1]), bs[|bs| - 1])
  }

  /** The hull contains every rectangle of the list, and lies inside every
      rectangle that contains them all. */
  lemma {:induction false} HullBounds(bs: seq<Boundry>, c: Boundry)
    requires bs != []
    ensures forall i :: 0 <= i < |bs| ==> Contains(Hull(bs), bs[i])
    ensures (forall i :: 0 <= i < |bs| ==> Contains(c, bs[i])) ==> Contains(c, Hull(bs))
    decreases |bs|
  {
    if |bs| > 1 {
      var init := bs[..|bs| - 1];
      HullBounds(init, c);
      forall i | 0 <= i < |bs| - 1
        ensures Contains(Hull(bs), bs[i])
      {
        assert bs[i] == init[i];
        SumKeepsContained(Hull(init), bs[i], bs[|bs| - 1]);
      }
    }
  }

  /** A rectangle already strictly inside the accumulated one adds nothing
      to it, so skipping the Sum, as the source does, gives the hull too. */
  lemma CircumscribedSum(acc: Boundry, b: Boundry)
    requires Circumscribes(acc, b)
    ensures Sum(acc, b) == acc
  {
  }

  /** The rectangle covering the boundaries of a drain so far: none before
      the first. */
  function Covering(bs: seq<Boundry>): Option<Boundry>
  {
    if bs == [] then None else Some(Hull(bs))
  }

  /** The step of Render that takes one more painted boundary into the
      rectangle to repaint: the first is taken as it is, one sticking out is
      summed in, one strictly inside is skipped. Either way the result
      covers the boundaries seen so far plus this one. */
  method Widen(bnd: Option<Boundry>, b: Boundry, ghost bs: seq<Boundry>) returns (r: Option<Boundry>)
    requires bnd == Covering(bs)
    ensures r == Covering(bs + [b])
  {
    assert (bs + [b])[..|bs|] == bs;
    if bnd.None? {
      r := Some(b);
    } else if !Circumscribes(bnd.value, b) {
      r := Some(Sum(bnd.value, b));
    } else {
      CircumscribedSum(bnd.value, b);
      r := bnd;
    }
  }

  // ------------------------------------------------------------------
  // The engine
  // ------------------------------------------------------------------

  /** Whether painting the element stays on the grid, in the rectangle its
      layout paints: its AbsoluteBox for an absolute element, else its
      boundary. A write off the grid is a run-time panic in the source. */
  predicate Drawable(v: View, n: Node)
    reads v
  {
    DrawableOn(v.rows, n)
  }

  /** Drawable, on the grid `g` itself. */
  predicate DrawableOn(g: Grid, n: Node)
  {
    PaintableOn(g, n.attrs, if n.attrs.display == Absolute then AbsoluteBox(n.attrs) else n.boundry)
  }

  /** What a paint may change: the screen's grid, the elements, and the
      elements waiting on the render stack. */
  datatype Snap = Snap(rows: Grid, nodes: map<Handle, Node>, waiting: seq<Handle>)

  /** The element a turn takes: the oldest waiting one, at the back. */
  function Oldest(a: Snap): Handle
    requires a.waiting != []
  {
    a.waiting[|a.waiting| - 1]
  }

  /** `h` and its children, under the child lists `kids`, are elements. */
  predicate Known(kids: map<Handle, seq<Handle>>, nodes: map<Handle, Node>, h: Handle)
  {
    h in nodes && h in kids && forall i :: 0 <= i < |kids[h]| ==> kids[h][i] in nodes
  }

  /** What renderElement leaves after painting element `h` from `a`, under
      the child lists `kids`, with the element's vertical scroll offset
      `scrollY`. A flex element's frame is painted, its children are
      placed by the flex layout of its direction and those still to paint
      join the stack; a block element is painted with its text in its
      boundary; an absolute element takes its AbsoluteBox as boundary and
      is painted there. */
  function Rendered(kids: map<Handle, seq<Handle>>, a: Snap, h: Handle, scrollY: int, ext: Extent): Snap
    requires Known(kids, a.nodes, h)
  {
    var n := a.nodes[h];
    match n.attrs.display
    case Flex =>
      Snap(Framed(a.rows, n.attrs, n.boundry),
           FlexNodes(a.nodes, kids[h], n.attrs, n.boundry, scrollY, ext),
           PushAll(a.waiting, FlexPushed(a.nodes, kids[h], n.attrs, n.boundry, scrollY, ext)))
    case Block =>
      a.(rows := Decorated(a.rows, n.attrs, n.boundry, n.content, scrollY))
    case Absolute =>
      a.(rows := Decorated(a.rows, n.attrs, AbsoluteBox(n.attrs), n.content, scrollY),
         nodes := a.nodes[h := n.(boundry := AbsoluteBox(n.attrs))])
  }

  /** One turn of the inner loop of Render from `a`: the oldest waiting
      element leaves the stack and is painted when it can be drawn; when
      it cannot, nothing else changes. `scrollY` is that element's
      vertical scroll offset. */
  function Turn(kids: map<Handle, seq<Handle>>, a: Snap, scrollY: int, ext: Extent): Snap
    requires a.waiting != [] && Known(kids, a.nodes, Oldest(a))
  {
    var h := Oldest(a);
    var rest := a.(waiting := a.waiting[..|a.waiting| - 1]);
    if DrawableOn(a.rows, a.nodes[h]) then Rendered(kids, rest, h, scrollY, ext) else rest
  }

  /** A turn either paints, with what renderElement leaves, or only pops. */
  lemma TurnSplit(kids: map<Handle, seq<Handle>>, a: Snap, scrollY: int, ext: Extent)
    requires a.waiting != [] && Known(kids, a.nodes, Oldest(a))
    ensures var h, rest := Oldest(a), a.(waiting := a.waiting[..|a.waiting| - 1]);
            Turn(kids, a, scrollY, ext) == if DrawableOn(a.rows, a.nodes[h]) then Rendered(kids, rest, h, scrollY, ext) else rest
  {
  }

  /** A turn that paints loses no waiting element but the one it paints. */
  lemma TurnKeeps(kids: map<Handle, seq<Handle>>, a: Snap, scrollY: int, ext: Extent)
    requires NoDup(a.waiting) && a.waiting != [] && Known(kids, a.nodes, Oldest(a))
    requires DrawableOn(a.rows, a.nodes[Oldest(a)])
    ensures forall x :: x in a.waiting ==> x == Oldest(a) || x in Turn(kids, a, scrollY, ext).waiting
  {
    var s, h := a.waiting, Oldest(a);
    var rest := s[..|s| - 1];
    forall x | x in s && x != h
      ensures x in rest
    {
      var j :| 0 <= j < |s| && s[j] == x;
      assert rest[j] == x;
    }
    if a.nodes[h].attrs.display == Flex {
      var n := a.nodes[h];
      assert NoDup(rest) by {
        assert forall i :: 0 <= i < |rest| ==> rest[i] == s[i];
      }
      PushAllKeeps(rest, FlexPushed(a.nodes, kids[h], n.attrs, n.boundry, scrollY, ext));
    }
  }

  /** Turn `i` of a run: `order[i]` is the oldest element waiting in
      `trace[i]`, and `trace[i + 1]` is the Turn from `trace[i]` with
      scroll offset `scrolls[i]`; the turn paints exactly when `i` is
      below |popped|, and then `popped[i]` is the boundary the element has
      after its paint. */
  predicate TurnAt(kids: map<Handle, seq<Handle>>, trace: seq<Snap>, order: seq<Handle>, scrolls: seq<int>, ext: Extent,
                   popped: seq<Boundry>, i: int)
    requires |trace| == |order| + 1 && |scrolls| == |order| && 0 <= i < |order|
  {
    trace[i].waiting != [] && order[i] == Oldest(trace[i]) && Known(kids, trace[i].nodes, order[i]) &&
    (i < |popped| <==> DrawableOn(trace[i].rows, trace[i].nodes[order[i]])) &&
    trace[i + 1] == Turn(kids, trace[i], scrolls[i], ext) &&
    (i < |popped| ==> order[i] in trace[i + 1].nodes && popped[i] == trace[i + 1].nodes[order[i]].boundry)
  }

  /** `trace` is a run of turns, each of them a TurnAt: the first |popped|
      paint and the rest do not. */
  predicate Drained(kids: map<Handle, seq<Handle>>, trace: seq<Snap>, order: seq<Handle>, scrolls: seq<int>, ext: Extent,
                    popped: seq<Boundry>)
  {
    |trace| == |order| + 1 && |scrolls| == |order| && |popped| <= |order| &&
    forall i {:trigger TurnAt(kids, trace, order, scrolls, ext, popped, i)} :: 0 <= i < |order| ==>
      TurnAt(kids, trace, order, scrolls, ext, popped, i)
  }

  /** `states[i]` is the state of the element taken in turn `i`. */
  predicate StatesOf(trace: seq<Snap>, order: seq<Handle>, states: seq<ElementState>)
    requires |trace| == |order| + 1 && |states| == |order|
  {
    forall i {:trigger states[i]} :: 0 <= i < |order| ==>
      order[i] in trace[i].nodes && trace[i].nodes[order[i]].state == states[i]
  }

  /** The states go on with the state of the element the next turn takes. */
  lemma StatesSnoc(trace: seq<Snap>, order: seq<Handle>, states: seq<ElementState>, b: Snap)
    requires |trace| == |order| + 1 && |states| == |order| && StatesOf(trace, order, states)
    requires trace[|order|].waiting != [] && Oldest(trace[|order|]) in trace[|order|].nodes
    ensures var a := trace[|order|];
            StatesOf(trace + [b], order + [Oldest(a)], states + [a.nodes[Oldest(a)].state])
  {
    var a := trace[|order|];
    var t, o, ss := trace + [b], order + [Oldest(a)], states + [a.nodes[Oldest(a)].state];
    forall i | 0 <= i < |o|
      ensures o[i] in t[i].nodes && t[i].nodes[o[i]].state == ss[i]
    {
      if i < |order| {
        assert t[i] == trace[i] && o[i] == order[i] && ss[i] == states[i];
      }
    }
  }

  /** A run of painting turns goes on with one more turn. */
  lemma DrainedSnoc(kids: map<Handle, seq<Handle>>, trace: seq<Snap>, order: seq<Handle>, scrolls: seq<int>, ext: Extent,
                    popped: seq<Boundry>, scrollY: int, b: Snap)
    requires Drained(kids, trace, order, scrolls, ext, popped) && |popped| == |order|
    requires var a := trace[|order|];
             a.waiting != [] && Known(kids, a.nodes, Oldest(a)) && b == Turn(kids, a, scrollY, ext)
    requires Oldest(trace[|order|]) in b.nodes
    ensures var h, painted := Oldest(trace[|order|]), DrawableOn(trace[|order|].rows, trace[|order|].nodes[Oldest(trace[|order|])]);
            Drained(kids, trace + [b], order + [h], scrolls + [scrollY], ext,
                    if painted then popped + [b.nodes[h].boundry] else popped)
  {
    var a := trace[|order|];
    var h := Oldest(a);
    var painted := DrawableOn(a.rows, a.nodes[h]);
    var t, o, sc := trace + [b], order + [h], scrolls + [scrollY];
    var p := if painted then popped + [b.nodes[h].boundry] else popped;
    forall i | 0 <= i < |o|
      ensures TurnAt(kids, t, o, sc, ext, p, i)
    {
      if i < |order| {
        assert TurnAt(kids, trace, order, scrolls, ext, popped, i);
        assert t[i] == trace[i] && o[i] == order[i] && sc[i] == scrolls[i] && t[i + 1] == trace[i + 1];
        assert i < |p| && i < |popped| && p[i] == popped[i];
      } else {
        assert t[i] == a && o[i] == h && sc[i] == scrollY && t[i + 1] == b;
      }
    }
  }

  class Engine {
    const dom: Tree
    const view: View
    const stack: RenderStack
    const body: Handle
    var ids: Ids

    /** The body is an element, every waiting element is one, and so is
        every element of the index. */
    ghost predicate Valid()
      reads this, dom, view, stack
    {
      dom.Valid() && body in dom.children && view.Valid() && stack.Valid() &&
      (forall x :: x in stack.elements ==> x in dom.children) &&
      IdsIn(ids, dom.children.Keys)
    }

    /** The part of NewEngineFromTemplate that builds the engine from a
        tree and a screen: an empty render stack, and the index of the
        tree from the body down. */
    constructor (t: Tree, v: View, b: Handle)
      requires t.Valid() && b in t.children && v.Valid()
      ensures Valid() && dom == t && view == v && body == b
      ensures fresh(stack) && stack.elements == []
      ensures ids == Indexed(t.nodes, map[], PreOrder(t.children, t.rank, b))
    {
      dom, view, body := t, v, b;
      stack := new RenderStack();
      ids := map[];
      new;
      GenerateIDsMap();
    }

    /** GetElementByID: nothing for an id the index does not hold, else the
        listed elements in order, each of which the source wraps in an
        ElementUpdater. */
    function GetElementByID(id: string): (r: Option<seq<Handle>>)
      reads this
      ensures r.None? <==> id !in ids
      ensures r.Some? ==> r.value == ids[id]
    {
      if id in ids then Some(ids[id]) else None
    }

    /** generateIDsMap: the index is rebuilt from the body down, in
        pre-order, so afterwards GetElementByID finds, for a non-empty id,
        exactly the elements carrying it, in pre-order, and nothing for an
        id no element carries or for the empty id. */
    method GenerateIDsMap()
      requires dom.Valid() && body in dom.children
      modifies this
      ensures var s := PreOrder(dom.children, dom.rank, body);
              (forall x :: x in s ==> x in dom.nodes) &&
              ids == Indexed(dom.nodes, map[], s) &&
              forall k :: GetElementByID(k) == if k == "" || WithId(dom.nodes, s, k) == [] then None
                                               else Some(WithId(dom.nodes, s, k))
      ensures IdsIn(ids, dom.children.Keys)
    {
      ids := IndexFrom(body, map[]);
      var s := PreOrder(dom.children, dom.rank, body);
      IndexedIn(dom.nodes, map[], s);
      forall k
        ensures GetElementByID(k) == if k == "" || WithId(dom.nodes, s, k) == [] then None
                                     else Some(WithId(dom.nodes, s, k))
      {
        IndexedLists(dom.nodes, map[], s, k);
        assert [] + WithId(dom.nodes, s, k) == WithId(dom.nodes, s, k);
      }
    }

    /** generateIDsMapRecursive: the element, then its subtrees in child
        order, join the index `m`; the index grown is returned. */
    method IndexFrom(h: Handle, m: Ids) returns (r: Ids)
      requires dom.Valid() && h in dom.children
      decreases dom.rank[h]
      ensures var s := PreOrder(dom.children, dom.rank, h);
              (forall x :: x in s ==> x in dom.nodes) &&
              r == Indexed(dom.nodes, m, s)
    {
      r := m;
      var id := dom.nodes[h].attrs.id;
      if id != "" {
        r := r[id := Listed(r, id) + [h]];
      }
      VisitStart(dom.nodes, dom.children, dom.rank, h, m);
      var cs := dom.children[h];
      var i := 0;
      while i < |cs|
        invariant 0 <= i <= |cs|
        invariant r == Indexed(dom.nodes, m, Visited(dom.children, dom.rank, h, i))
      {
        VisitBelow(dom.children, dom.rank, h, i);
        var next := IndexFrom(cs[i], r);
        VisitStep(dom.nodes, dom.children, dom.rank, h, i, m, r, next);
        r := next;
        i := i + 1;
      }
      VisitDone(dom.children, dom.rank, h);
    }

    /** Engine.Update and ElementUpdater.Update: the element waits for a
        new paint. */
    method Update(h: Handle)
      requires Valid() && h in dom.children
      modifies stack
      ensures Valid()
      ensures stack.elements == [h] + RemoveFirst(old(stack.elements), h)
    {
      stack.Push(h);
    }

    /** The index update AppendChild and PrependChild share, as evidently
        intended (see IndexChild). */
    method IndexNew(c: Handle)
      requires IdsIn(ids, dom.children.Keys) && c in dom.nodes && c in dom.children
      modifies this
      ensures ids == IndexChild(old(ids), dom.nodes[c].attrs.id, c)
      ensures IdsIn(ids, dom.children.Keys)
    {
      var id := dom.nodes[c].attrs.id;
      if id != "" {
        if id in ids {
          ids := ids[id := ids[id] + [c]];
        } else {
          ids := ids[id := [c]];
        }
      }
      IndexChildIn(old(ids), dom.children.Keys, id, c);
    }

    /** ElementUpdater.AppendChild on element `p`: the child's parent
        becomes `p`, its id is indexed, it goes to the end of `p`'s
        children, and `p` waits for a new paint. The child must not be
        above `p`. */
    method AppendChild(p: Handle, c: Handle)
      requires Valid() && p in dom.children && c in dom.children
      requires p !in Reach(dom.children, dom.rank, c)
      modifies this, dom, stack
      ensures Valid()
      ensures dom.nodes == old(dom.nodes)[c := old(dom.nodes)[c].(parent := Some(p))]
      ensures dom.children == old(dom.children)[p := old(dom.children)[p] + [c]]
      ensures ids == IndexChild(old(ids), old(dom.nodes)[c].attrs.id, c)
      ensures stack.elements == [p] + RemoveFirst(old(stack.elements), p)
    {
      dom.SetParent(c, p);
      IndexNew(c);
      dom.AppendChild(p, c);
      assert dom.children.Keys == old(dom.children).Keys;
      stack.Push(p);
    }

    /** ElementUpdater.PrependChild on element `p`: as AppendChild, but the
        child goes to the front of `p`'s children. */
    method PrependChild(p: Handle, c: Handle)
      requires Valid() && p in dom.children && c in dom.children
      requires p !in Reach(dom.children, dom.rank, c)
      modifies this, dom, stack
      ensures Valid()
      ensures dom.nodes == old(dom.nodes)[c := old(dom.nodes)[c].(parent := Some(p))]
      ensures dom.children == old(dom.children)[p := [c] + old(dom.children)[p]]
      ensures ids == IndexChild(old(ids), old(dom.nodes)[c].attrs.id, c)
      ensures stack.elements == [p] + RemoveFirst(old(stack.elements), p)
    {
      dom.SetParent(c, p);
      IndexNew(c);
      dom.PrependChild(p, c);
      assert dom.children.Keys == old(dom.children).Keys;
      stack.Push(p);
    }

    /** ElementUpdater.Remove on element `h`: its rectangle is cleared, the
        whole entry of its id leaves the index, its first occurrence leaves
        its parent's children, and the parent waits for a new paint if it
        was found there. The element needs a parent (the source follows
        the link unchecked). */
    method Remove(h: Handle)
      requires Valid() && h in dom.nodes && dom.nodes[h].parent.Some?
      requires view.Fits(dom.nodes[h].boundry)
      modifies this, dom, view, stack
      ensures Valid()
      ensures view.rows == Region(old(view.rows), old(dom.nodes[h].boundry), Clear)
      ensures var id := old(dom.nodes[h].attrs.id);
              ids == if id != "" then old(ids) - {id} else old(ids)
      ensures dom.nodes == old(dom.nodes)
      ensures var p := old(dom.nodes[h].parent.value);
              dom.children == old(dom.children)[p := RemoveFirst(old(dom.children[p]), h)]
      ensures var p := old(dom.nodes[h].parent.value);
              stack.elements == if h in old(dom.children[p]) then [p] + RemoveFirst(old(stack.elements), p)
                                else old(stack.elements)
    {
      view.ClearBoundry(dom.nodes[h].boundry);
      var id := dom.nodes[h].attrs.id;
      if id != "" {
        ids := ids - {id};
      }
      var p := dom.nodes[h].parent.value;
      var cs := dom.children[p];
      var i := Find(cs, h);
      assert i < |cs| <==> h in cs;
      if i < |cs| {
        dom.RemoveChildAt(p, i);
        stack.Push(p);
      }
    }

    /** reload: the screen takes the terminal's new size, the body takes
        the whole screen, and the body waits for a new paint. The size is
        a parameter here; the source asks the terminal. */
    method Reload(width: int, height: int)
      requires Valid() && width >= 0 && height >= 1
      modifies dom, view, stack
      ensures Valid()
      ensures view.rows == Resized(old(view.rows), width, height)
      ensures dom.nodes == old(dom.nodes)[body := old(dom.nodes)[body].(boundry := Boundry(0, 0, width, height))]
      ensures dom.children == old(dom.children)
      ensures stack.elements == [body] + RemoveFirst(old(stack.elements), body)
    {
      view.Resize(width, height);
      dom.SetBoundry(body, view.Bounds());
      stack.Push(body);
    }

    /** The Flex case of renderElement: the element's frame is painted,
        its children are placed by the flex layout of its direction, and
        those still to paint wait on the stack. */
    method PaintFlex(h: Handle, ext: Extent)
      requires Valid() && h in dom.children
      requires Paintable(view, dom.nodes[h].attrs, dom.nodes[h].boundry)
      modifies dom, view, stack
      ensures Valid()
      ensures dom.children == old(dom.children) && dom.rank == old(dom.rank)
      ensures var n := old(dom.nodes[h]);
              view.rows == Framed(old(view.rows), n.attrs, n.boundry) &&
              dom.nodes == FlexNodes(old(dom.nodes), dom.children[h], n.attrs, n.boundry, n.state.scrollY, ext) &&
              stack.elements == PushAll(old(stack.elements), FlexPushed(old(dom.nodes), dom.children[h], n.attrs, n.boundry, n.state.scrollY, ext))
    {
      var n := dom.nodes[h];
      ghost var o, kids, rk, s := dom.nodes, dom.children, dom.rank, stack.elements;
      FlexLayout(dom, stack, view, h, n.boundry, ext);
      FlexPushedWeight(kids, rk, o, h, n.attrs, n.boundry, n.state.scrollY, ext);
      PushAllKeeps(s, FlexPushed(o, kids[h], n.attrs, n.boundry, n.state.scrollY, ext));
    }

    /** renderElement: the layout of the element's display, handed the
        element's own boundary: Flex for a flex element, Block for a block
        element, Absolute for an absolute one. When the element cannot be
        drawn on the grid the source panics; here `painted` is false and
        nothing changes. */
    method RenderElement(h: Handle, ext: Extent) returns (painted: bool)
      requires Valid() && h in dom.children
      modifies dom, view, stack
      ensures Valid()
      ensures dom.children == old(dom.children) && dom.rank == old(dom.rank)
      ensures painted <==> old(Drawable(view, dom.nodes[h]))
      ensures !painted ==> view.rows == old(view.rows) && dom.nodes == old(dom.nodes) && stack.elements == old(stack.elements)
      ensures Known(dom.children, old(dom.nodes), h)
      ensures painted ==>
                Snap(view.rows, dom.nodes, stack.elements) ==
                Rendered(dom.children, Snap(old(view.rows), old(dom.nodes), old(stack.elements)), h,
                         old(dom.nodes[h].state.scrollY), ext)
    {
      var n := dom.nodes[h];
      if !Drawable(view, n) {
        return false;
      }
      painted := true;
      match n.attrs.display
      case Flex =>
        PaintFlex(h, ext);
      case Block =>
        BlockLayout(dom, view, h);
      case Absolute =>
        AbsoluteLayout(dom, view, h);
    }

    /** One turn of the inner loop of Render: the oldest waiting element
        leaves the stack and is painted when it can be drawn (Turn).
        Whatever the paint pushes weighs less than what it took off, so
        the loop ends. */
    method PaintNext(ext: Extent) returns (h: Handle, painted: bool)
      requires Valid() && stack.elements != []
      modifies dom, view, stack
      ensures Valid() && dom.children == old(dom.children) && dom.rank == old(dom.rank)
      ensures h == old(stack.elements[|stack.elements| - 1]) && Known(dom.children, old(dom.nodes), h)
      ensures painted <==> old(Drawable(view, dom.nodes[h]))
      ensures Snap(view.rows, dom.nodes, stack.elements) ==
              Turn(dom.children, Snap(old(view.rows), old(dom.nodes), old(stack.elements)), old(dom.nodes[h].state.scrollY), ext)
      ensures painted ==> Weight(dom.children, dom.rank, stack.elements) < old(Weight(dom.children, dom.rank, stack.elements))
    {
      ghost var a := Snap(view.rows, dom.nodes, stack.elements);
      ghost var s, o, kids, rk := stack.elements, dom.nodes, dom.children, dom.rank;
      var bl := stack.Pop();
      h := bl.value;
      ghost var n := o[h];
      ghost var rest := Snap(view.rows, dom.nodes, stack.elements);
      assert rest == a.(waiting := a.waiting[..|a.waiting| - 1]);
      painted := RenderElement(h, ext);
      TurnSplit(kids, a, n.state.scrollY, ext);
      if painted {
        ghost var pushed: seq<Handle> := [];
        if n.attrs.display == Flex {
          pushed := FlexPushed(o, kids[h], n.attrs, n.boundry, n.state.scrollY, ext);
          FlexPushedWeight(kids, rk, o, h, n.attrs, n.boundry, n.state.scrollY, ext);
        }
        DrainDecreases(kids, rk, s, pushed);
      }
    }

    /** One turn of Drain: PaintNext, extending the record of the run
        (Drained and StatesOf) with the turn it makes, and widening the
        rectangle to repaint by the boundary the element has after a
        paint. */
    method Step(ext: Extent, bnd: Option<Boundry>, ghost trace: seq<Snap>, ghost order: seq<Handle>,
                ghost scrolls: seq<int>, ghost states: seq<ElementState>, ghost popped: seq<Boundry>)
      returns (painted: bool, bnd': Option<Boundry>, ghost trace': seq<Snap>, ghost order': seq<Handle>,
               ghost scrolls': seq<int>, ghost states': seq<ElementState>, ghost popped': seq<Boundry>)
      requires Valid() && stack.elements != []
      requires Drained(dom.children, trace, order, scrolls, ext, popped) && |popped| == |order| && |states| == |order|
      requires trace[|order|] == Snap(view.rows, dom.nodes, stack.elements) && StatesOf(trace, order, states)
      requires forall i {:trigger states[i]} :: 0 <= i < |order| ==> allocated(states[i]) && scrolls[i] == states[i].scrollY
      requires bnd == Covering(popped)
      modifies dom, view, stack
      ensures Valid() && dom.children == old(dom.children) && dom.rank == old(dom.rank)
      ensures |order'| == |order| + 1 && order'[..|order|] == order && trace' == trace + [Snap(view.rows, dom.nodes, stack.elements)]
      ensures |scrolls'| == |order'| && |states'| == |order'| && |popped'| == if painted then |order'| else |order|
      ensures Drained(dom.children, trace', order', scrolls', ext, popped')
      ensures StatesOf(trace', order', states')
      ensures forall i {:trigger states'[i]} :: 0 <= i < |order'| ==> allocated(states'[i]) && scrolls'[i] == states'[i].scrollY
      ensures bnd' == Covering(popped')
      ensures painted ==> Weight(dom.children, dom.rank, stack.elements) < old(Weight(dom.children, dom.rank, stack.elements))
      ensures painted ==> forall x :: x in old(stack.elements) ==> x in order' || x in stack.elements
    {
      ghost var before := Snap(view.rows, dom.nodes, stack.elements);
      ghost var st := dom.nodes[stack.elements[|stack.elements| - 1]].state;
      ghost var sy := st.scrollY;
      var h;
      label Before:
      h, painted := PaintNext(ext);
      ghost var after := Snap(view.rows, dom.nodes, stack.elements);
      DrainedSnoc(dom.children, trace, order, scrolls, ext, popped, sy, after);
      StatesSnoc(trace, order, states, after);
      order', scrolls', trace', states' := order + [h], scrolls + [sy], trace + [after], states + [st];
      assert order'[..|order|] == order;
      forall i | 0 <= i < |states'|
        ensures allocated(states'[i]) && scrolls'[i] == states'[i].scrollY
      {
        if i < |states| {
          assert states'[i] == states[i] && scrolls'[i] == scrolls[i];
        } else {
          assert states'[i] == st && scrolls'[i] == sy;
        }
        assert states'[i].scrollY == old@Before(states'[i].scrollY);
      }
      bnd', popped' := bnd, popped;
      if painted {
        TurnKeeps(dom.children, before, sy, ext);
        var b := dom.nodes[h].boundry;
        bnd' := Widen(bnd, b, popped);
        popped' := popped + [b];
      }
    }

    /** The inner loop of Render: paint the oldest waiting element until
        nothing waits, summing up the boundaries the painted elements have
        afterwards. `order` lists the elements taken off the stack,
        `trace` the state before each turn and after the last, and
        `scrolls` the scroll offsets of the elements taken, read from
        their `states`. Each turn is a Turn, every element that waited at
        the start is taken, and the result is the smallest rectangle
        containing the boundary each painted element has after its paint
        (HullBounds), the rectangle the source then copies to the
        terminal. When an element cannot be drawn the source panics; here
        the drain stops after that turn with `painted` false. */
    method Drain(ext: Extent) returns (bnd: Option<Boundry>, painted: bool, ghost order: seq<Handle>,
                                       ghost scrolls: seq<int>, ghost states: seq<ElementState>, ghost trace: seq<Snap>,
                                       ghost popped: seq<Boundry>)
      requires Valid()
      modifies dom, view, stack
      ensures Valid() && dom.children == old(dom.children)
      ensures Drained(dom.children, trace, order, scrolls, ext, popped)
      ensures trace[0] == Snap(old(view.rows), old(dom.nodes), old(stack.elements))
      ensures trace[|order|] == Snap(view.rows, dom.nodes, stack.elements)
      ensures |states| == |order| && StatesOf(trace, order, states)
      ensures forall i {:trigger states[i]} :: 0 <= i < |order| ==> scrolls[i] == states[i].scrollY
      ensures |popped| == if painted then |order| else |order| - 1
      ensures painted ==> stack.elements == [] && forall x :: x in old(stack.elements) ==> x in order
      ensures bnd == Covering(popped)
    {
      bnd, painted, order, scrolls, states, trace, popped := None, true, [], [], [], [Snap(view.rows, dom.nodes, stack.elements)], [];
      ghost var kids, rk := dom.children, dom.rank;
      while painted && stack.Len() != 0
        invariant Valid() && dom.children == kids && dom.rank == rk
        invariant Drained(kids, trace, order, scrolls, ext, popped) && |states| == |order|
        invariant |popped| == if painted then |order| else |order| - 1
        invariant trace[0] == Snap(old(view.rows), old(dom.nodes), old(stack.elements))
        invariant trace[|order|] == Snap(view.rows, dom.nodes, stack.elements)
        invariant StatesOf(trace, order, states)
        invariant forall i {:trigger states[i]} :: 0 <= i < |order| ==> allocated(states[i]) && scrolls[i] == states[i].scrollY
        invariant painted ==> forall x :: x in old(stack.elements) ==> x in order || x in stack.elements
        invariant bnd == Covering(popped)
        decreases painted, Weight(kids, rk, stack.elements)
      {
        painted, bnd, trace, order, scrolls, states, popped := Step(ext, bnd, trace, order, scrolls, states, popped);
      }
    }
  }
}
