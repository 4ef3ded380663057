/** The element tree (core/dom/element.go). Elements are heap objects in the
    source, reached through pointers; here they live in an arena, the class
    Tree, where a Handle plays the part of a pointer and each field of an
    element is a map from handles. The ghost `rank` orders every element
    above its children, which is what keeps the recursive walks finite. */
module Element {
  import opened Wrappers
  import opened Attribute
  import opened Geometry

  type Handle = nat

  /** The scroll offsets of one element, shared by pointer in the source. */
  class ElementState {
    var scrollX: int
    var scrollY: int

    /** NewElementState: both offsets 0. */
    constructor ()
      ensures scrollX == 0 && scrollY == 0
    {
      scrollX := 0;
      scrollY := 0;
    }

    method ScrollTo(x: int, y: int)
      modifies this
      ensures scrollX == x && scrollY == y
    {
      scrollX := x;
      scrollY := y;
    }

    method ScrollBy(x: int, y: int)
      modifies this
      ensures scrollX == old(scrollX) + x && scrollY == old(scrollY) + y
    {
      scrollX := scrollX + x;
      scrollY := scrollY + y;
    }
  }

  // ------------------------------------------------------------------
  // Structure of the child lists
  // ------------------------------------------------------------------

  /** Every child is an element, ranked strictly below its parent. */
  predicate WellRanked(kids: map<Handle, seq<Handle>>, rank: map<Handle, nat>)
  {
    kids.Keys <= rank.Keys &&
    forall h, i :: h in kids && 0 <= i < |kids[h]| ==> kids[h][i] in kids && rank[kids[h][i]] < rank[h]
  }

  /** Children all ranked below `bound`. */
  predicate Below(kids: map<Handle, seq<Handle>>, rank: map<Handle, nat>, cs: seq<Handle>, bound: nat)
  {
    forall i :: 0 <= i < |cs| ==> cs[i] in kids && cs[i] in rank && rank[cs[i]] < bound
  }

  /** An element and everything below it. */
  ghost function Reach(kids: map<Handle, seq<Handle>>, rank: map<Handle, nat>, h: Handle): (r: set<Handle>)
    requires WellRanked(kids, rank) && h in kids
    ensures h in r && r <= kids.Keys
    decreases rank[h], 1, 0
  {
    {h} + ReachAll(kids, rank, kids[h], rank[h])
  }

  /** Everything reachable from a list of children, the children included. */
  ghost function ReachAll(kids: map<Handle, seq<Handle>>, rank: map<Handle, nat>, cs: seq<Handle>, bound: nat): (r: set<Handle>)
    requires WellRanked(kids, rank) && Below(kids, rank, cs, bound)
    ensures r <= kids.Keys
    decreases bound, 0, |cs|
  {
    if cs == [] then {}
    else ReachAll(kids, rank, cs[..|cs| - 1], bound) + Reach(kids, rank, cs[|cs| - 1])
  }

  /** The strict descendants of an element. */
  ghost function Descendants(kids: map<Handle, seq<Handle>>, rank: map<Handle, nat>, h: Handle): set<Handle>
    requires WellRanked(kids, rank) && h in kids
  {
    ReachAll(kids, rank, kids[h], rank[h])
  }

  /** The number of paths from an element down to the elements below it,
      itself included; children shared between parents count once per
      parent. */
  ghost function Size(kids: map<Handle, seq<Handle>>, rank: map<Handle, nat>, h: Handle): (n: nat)
    requires WellRanked(kids, rank) && h in kids
    ensures n >= 1
    decreases rank[h], 1, 0
  {
    1 + SizeAll(kids, rank, kids[h], rank[h])
  }

  ghost function SizeAll(kids: map<Handle, seq<Handle>>, rank: map<Handle, nat>, cs: seq<Handle>, bound: nat): nat
    requires WellRanked(kids, rank) && Below(kids, rank, cs, bound)
    decreases bound, 0, |cs|
  {
    if cs == [] then 0
    else SizeAll(kids, rank, cs[..|cs| - 1], bound) + Size(kids, rank, cs[|cs| - 1])
  }

  /** The elements in depth-first pre-order, once per path. */
  ghost function PreOrder(kids: map<Handle, seq<Handle>>, rank: map<Handle, nat>, h: Handle): (r: seq<Handle>)
    requires WellRanked(kids, rank) && h in kids
    ensures |r| >= 1 && r[0] == h
    ensures forall i :: 0 <= i < |r| ==> r[i] in kids
    decreases rank[h], 1, 0
  {
    [h] + PreOrderAll(kids, rank, kids[h], rank[h])
  }

  ghost function PreOrderAll(kids: map<Handle, seq<Handle>>, rank: map<Handle, nat>, cs: seq<Handle>, bound: nat): (r: seq<Handle>)
    requires WellRanked(kids, rank) && Below(kids, rank, cs, bound)
    ensures forall i :: 0 <= i < |r| ==> r[i] in kids
    decreases bound, 0, |cs|
  {
    if cs == [] then []
    else PreOrderAll(kids, rank, cs[..|cs| - 1], bound) + PreOrder(kids, rank, cs[|cs| - 1])
  }

  lemma ChildrenBelow(kids: map<Handle, seq<Handle>>, rank: map<Handle, nat>, h: Handle)
    requires WellRanked(kids, rank) && h in kids
    ensures Below(kids, rank, kids[h], rank[h])
  {
  }

  /** Below is inherited by prefixes. */
  lemma BelowPrefix(kids: map<Handle, seq<Handle>>, rank: map<Handle, nat>, cs: seq<Handle>, bound: nat, k: nat)
    requires Below(kids, rank, cs, bound) && k <= |cs|
    ensures Below(kids, rank, cs[..k], bound)
  {
  }

  /** Everything reachable from an element is ranked no higher, and strictly
      lower unless it is the element itself: the structure has no cycle. */
  lemma {:induction false} ReachRanked(kids: map<Handle, seq<Handle>>, rank: map<Handle, nat>, h: Handle, x: Handle)
    requires WellRanked(kids, rank) && h in kids && x in Reach(kids, rank, h)
    ensures rank[x] <= rank[h]
    ensures x != h ==> rank[x] < rank[h]
    decreases rank[h], 1, 0
  {
    if x != h {
      ReachAllRanked(kids, rank, kids[h], rank[h], x);
    }
  }

  lemma {:induction false} ReachAllRanked(kids: map<Handle, seq<Handle>>, rank: map<Handle, nat>, cs: seq<Handle>, bound: nat, x: Handle)
    requires WellRanked(kids, rank) && Below(kids, rank, cs, bound) && x in ReachAll(kids, rank, cs, bound)
    ensures rank[x] < bound
    decreases bound, 0, |cs|
  {
    var last := cs[|cs| - 1];
    if x in Reach(kids, rank, last) {
      ReachRanked(kids, rank, last, x);
    } else {
      ReachAllRanked(kids, rank, cs[..|cs| - 1], bound, x);
    }
  }

  /** The children of anything reachable are reachable. */
  lemma {:induction false} ReachClosed(kids: map<Handle, seq<Handle>>, rank: map<Handle, nat>, h: Handle, x: Handle, i: nat)
    requires WellRanked(kids, rank) && h in kids && x in Reach(kids, rank, h) && i < |kids[x]|
    ensures kids[x][i] in Reach(kids, rank, h)
    decreases rank[h], 1, 0
  {
    if x == h {
      ReachAllContains(kids, rank, kids[h], rank[h], i);
    } else {
      ReachAllClosed(kids, rank, kids[h], rank[h], x, i);
    }
  }

  lemma {:induction false} ReachAllClosed(kids: map<Handle, seq<Handle>>, rank: map<Handle, nat>, cs: seq<Handle>, bound: nat, x: Handle, i: nat)
    requires WellRanked(kids, rank) && Below(kids, rank, cs, bound)
    requires x in ReachAll(kids, rank, cs, bound) && i < |kids[x]|
    ensures kids[x][i] in ReachAll(kids, rank, cs, bound)
    decreases bound, 0, |cs|
  {
    var last := cs[|cs| - 1];
    if x in Reach(kids, rank, last) {
      ReachClosed(kids, rank, last, x, i);
    } else {
      ReachAllClosed(kids, rank, cs[..|cs| - 1], bound, x, i);
    }
  }

  /** Every listed child is reachable from the list. */
  lemma {:induction false} ReachAllContains(kids: map<Handle, seq<Handle>>, rank: map<Handle, nat>, cs: seq<Handle>, bound: nat, i: nat)
    requires WellRanked(kids, rank) && Below(kids, rank, cs, bound) && i < |cs|
    ensures cs[i] in ReachAll(kids, rank, cs, bound)
    decreases |cs|
  {
    if i < |cs| - 1 {
      ReachAllContains(kids, rank, cs[..|cs| - 1], bound, i);
    }
  }

  /** Taking one more child into a prefix of a child list adds that child
      and its descendants, and never the parent the list belongs to. */
  lemma ReachAllStep(kids: map<Handle, seq<Handle>>, rank: map<Handle, nat>, cs: seq<Handle>, h: Handle, i: nat)
    requires WellRanked(kids, rank) && h in kids && Below(kids, rank, cs, rank[h]) && i < |cs|
    ensures Below(kids, rank, cs[..i], rank[h]) && Below(kids, rank, cs[..i + 1], rank[h])
    ensures ReachAll(kids, rank, cs[..i + 1], rank[h]) ==
            ReachAll(kids, rank, cs[..i], rank[h]) + {cs[i]} + Descendants(kids, rank, cs[i])
    ensures h !in ReachAll(kids, rank, cs[..i + 1], rank[h])
  {
    assert cs[..i + 1][..i] == cs[..i];
    if h in ReachAll(kids, rank, cs[..i + 1], rank[h]) {
      ReachAllRanked(kids, rank, cs[..i + 1], rank[h], h);
    }
  }

  /** An element is not among its own descendants. */
  lemma NotOwnDescendant(kids: map<Handle, seq<Handle>>, rank: map<Handle, nat>, h: Handle)
    requires WellRanked(kids, rank) && h in kids
    ensures h !in Descendants(kids, rank, h)
  {
    if h in Descendants(kids, rank, h) {
      ReachAllRanked(kids, rank, kids[h], rank[h], h);
    }
  }

  /** The child lists after `c` is added under `p`, with `c` not above `p`,
      are well ranked again once every element outside `c`'s subtree is
      lifted above it. */
  lemma Rerank(kids: map<Handle, seq<Handle>>, rank: map<Handle, nat>, p: Handle, c: Handle, newKids: seq<Handle>)
    requires WellRanked(kids, rank) && p in kids && c in kids
    requires p !in Reach(kids, rank, c)
    requires forall i :: 0 <= i < |newKids| ==> newKids[i] == c || newKids[i] in kids[p]
    ensures WellRanked(kids[p := newKids], Lifted(kids, rank, c))
  {
    var sub := Reach(kids, rank, c);
    var nr := Lifted(kids, rank, c);
    var nk := kids[p := newKids];
    forall h, i | h in nk && 0 <= i < |nk[h]|
      ensures nk[h][i] in nk && nr[nk[h][i]] < nr[h]
    {
      var y := nk[h][i];
      if h == p && y == c {
        ReachRanked(kids, rank, c, c);
      } else {
        var j :| 0 <= j < |kids[h]| && kids[h][j] == y;
        if h in sub {
          ReachClosed(kids, rank, c, h, j);
        } else if y in sub {
          ReachRanked(kids, rank, c, y);
        }
      }
    }
  }

  /** The ranks after lifting everything outside `c`'s subtree above `c`. */
  ghost function Lifted(kids: map<Handle, seq<Handle>>, rank: map<Handle, nat>, c: Handle): (r: map<Handle, nat>)
    requires WellRanked(kids, rank) && c in kids
    ensures r.Keys == rank.Keys
  {
    var sub := Reach(kids, rank, c);
    map x | x in rank :: if x in sub then rank[x] else rank[x] + rank[c] + 1
  }

  /** The handles in use are below the allocator's next handle, every one
      ranked, and the ranks fit the child lists. */
  predicate Shaped(kids: map<Handle, seq<Handle>>, rank: map<Handle, nat>, next: Handle)
  {
    kids.Keys == rank.Keys && (forall h :: h in kids ==> h < next) && WellRanked(kids, rank)
  }

  /** A new leaf under the next handle keeps the shape. */
  lemma ShapedAddLeaf(kids: map<Handle, seq<Handle>>, rank: map<Handle, nat>, next: Handle)
    requires Shaped(kids, rank, next)
    ensures next !in kids && Shaped(kids[next := []], rank[next := 0], next + 1)
  {
    var k := kids[next := []];
    var r := rank[next := 0];
    forall h, i | h in k && 0 <= i < |k[h]|
      ensures k[h][i] in k && r[k[h][i]] < r[h]
    {
      assert h != next && k[h][i] == kids[h][i];
    }
  }

  // ------------------------------------------------------------------
  // The arena
  // ------------------------------------------------------------------

  /** The fields of an element other than its child list. */
  datatype Node = Node(name: string, parent: Option<Handle>, content: string, attrs: Attributes,
                       boundry: Boundry, state: ElementState)

  /** One node per child list, and every parent link leads to a node. */
  predicate NodesFit(nodes: map<Handle, Node>, kids: map<Handle, seq<Handle>>)
  {
    nodes.Keys == kids.Keys &&
    forall h :: h in nodes && nodes[h].parent.Some? ==> nodes[h].parent.value in nodes
  }

  /** Changing boundaries leaves the links alone. */
  lemma BoundriesFit(o: map<Handle, Node>, n: map<Handle, Node>, kids: map<Handle, seq<Handle>>)
    requires NodesFit(o, kids) && n.Keys == o.Keys
    requires forall h :: h in o ==> n[h] == o[h].(boundry := n[h].boundry)
    ensures NodesFit(n, kids)
  {
    forall h | h in n && n[h].parent.Some?
      ensures n[h].parent.value in n
    {
      assert n[h].parent == o[h].parent;
    }
  }

  /** The nodes after every element of `s` has inherited the colours of
      `p`. */
  function Recoloured(nodes: map<Handle, Node>, s: set<Handle>, p: Attributes): (r: map<Handle, Node>)
    ensures r.Keys == nodes.Keys
  {
    map x | x in nodes :: if x in s then nodes[x].(attrs := InheritFrom(nodes[x].attrs, p)) else nodes[x]
  }

  /** Recolouring leaves the links alone. */
  lemma RecolouredFits(nodes: map<Handle, Node>, kids: map<Handle, seq<Handle>>, s: set<Handle>, p: Attributes)
    requires NodesFit(nodes, kids)
    ensures NodesFit(Recoloured(nodes, s, p), kids)
  {
  }

  /** Recolouring twice with the same colours is recolouring the union. */
  lemma RecolouredTwice(o: map<Handle, Node>, s: set<Handle>, t: set<Handle>, p: Attributes)
    ensures Recoloured(Recoloured(o, s, p), t, p) == Recoloured(o, s + t, p)
  {
    var r := Recoloured(Recoloured(o, s, p), t, p);
    forall x | x in o
      ensures r[x] == Recoloured(o, s + t, p)[x]
    {
      InheritFromOverwrites(o[x].attrs, o[x].attrs, p, p);
    }
  }

  /** A child taking the parent's colours, then handing its own colours down
      to its descendants, recolours its whole subtree with the parent's. */
  lemma HandDown(o: map<Handle, Node>, kids: map<Handle, seq<Handle>>, rank: map<Handle, nat>, c: Handle, p: Attributes)
    requires WellRanked(kids, rank) && NodesFit(o, kids) && c in kids
    ensures var mid := o[c := o[c].(attrs := InheritFrom(o[c].attrs, p))];
            NodesFit(mid, kids) &&
            Recoloured(mid, Descendants(kids, rank, c), mid[c].attrs) == Recoloured(o, Reach(kids, rank, c), p)
  {
    NotOwnDescendant(kids, rank, c);
    var mid := o[c := o[c].(attrs := InheritFrom(o[c].attrs, p))];
    var d := Descendants(kids, rank, c);
    var lhs, rhs := Recoloured(mid, d, mid[c].attrs), Recoloured(o, {c} + d, p);
    forall x | x in o
      ensures lhs[x] == rhs[x]
    {
      if x != c && x in d {
        InheritFromOverwrites(o[x].attrs, o[c].attrs, p, mid[c].attrs);
      }
    }
    assert lhs.Keys == rhs.Keys;
    assert Reach(kids, rank, c) == {c} + d;
  }

  /** The loop of InheritChildrensAttr after its first `i` children: the
      subtree of child `i` joins those already recoloured, and the parent
      is never among them. */
  lemma InheritLoopStep(o: map<Handle, Node>, kids: map<Handle, seq<Handle>>, rank: map<Handle, nat>,
                        h: Handle, i: nat, p: Attributes)
    requires WellRanked(kids, rank) && h in kids && i < |kids[h]|
    ensures Below(kids, rank, kids[h], rank[h]) && Below(kids, rank, kids[h][..i + 1], rank[h])
    ensures var c := kids[h][i];
            var done := ReachAll(kids, rank, kids[h][..i], rank[h]);
            c in kids && rank[c] < rank[h] &&
            ReachAll(kids, rank, kids[h][..i + 1], rank[h]) == done + Reach(kids, rank, c) &&
            h !in ReachAll(kids, rank, kids[h][..i + 1], rank[h]) &&
            Recoloured(Recoloured(o, done, p), Reach(kids, rank, c), p) ==
              Recoloured(o, ReachAll(kids, rank, kids[h][..i + 1], rank[h]), p)
  {
    var cs := kids[h];
    ChildrenBelow(kids, rank, h);
    ReachAllStep(kids, rank, cs, h, i);
    assert cs[..i + 1][..i] == cs[..i];
    RecolouredTwice(o, ReachAll(kids, rank, cs[..i], rank[h]), Reach(kids, rank, cs[i]), p);
  }

  class Tree {
    var nodes: map<Handle, Node>
    var children: map<Handle, seq<Handle>>
    var next: Handle
    ghost var rank: map<Handle, nat>

    ghost predicate Valid()
      reads this
    {
      NodesFit(nodes, children) && Shaped(children, rank, next)
    }

    /** An empty arena. */
    constructor ()
      ensures Valid() && nodes == map[] && children == map[]
    {
      nodes, children, next := map[], map[], 0;
      rank := map[];
    }

    /** NewElement: a fresh element with the given name, no children, no
        parent, empty content, the zero attribute record, the placeholder
        boundary (-1, -1, -1, -1) and a zeroed state. */
    method NewElement(nm: string) returns (h: Handle)
      requires Valid()
      modifies this
      ensures Valid()
      ensures h !in old(nodes)
      ensures children == old(children)[h := []]
      ensures nodes == old(nodes)[h := Node(nm, None, "", Zero, Boundry(-1, -1, -1, -1), nodes[h].state)]
      ensures fresh(nodes[h].state) && nodes[h].state.scrollX == 0 && nodes[h].state.scrollY == 0
    {
      h := next;
      ShapedAddLeaf(children, rank, next);
      var st := new ElementState();
      nodes := nodes[h := Node(nm, None, "", Zero, NewBoundry(-1, -1, -1, -1), st)];
      children := children[h := []];
      rank := rank[h := 0];
      next := next + 1;
    }

    /** Element.AppendChild: `c` goes to the end of `p`'s children; nothing
        else changes (the parent link is the caller's business). The child
        must not be above the parent, or the walks over the tree would never
        end. */
    method AppendChild(p: Handle, c: Handle)
      requires Valid() && p in children && c in children
      requires p !in Reach(children, rank, c)
      modifies this
      ensures Valid()
      ensures children == old(children)[p := old(children[p]) + [c]]
      ensures nodes == old(nodes) && next == old(next)
    {
      Rerank(children, rank, p, c, children[p] + [c]);
      rank := Lifted(children, rank, c);
      children := children[p := children[p] + [c]];
    }

    /** An assignment to an element's Boundry field: only that element's
        boundary changes, and the tree stays valid. */
    method SetBoundry(h: Handle, b: Boundry)
      requires h in nodes
      modifies this
      ensures children == old(children) && next == old(next) && rank == old(rank)
      ensures nodes == old(nodes)[h := old(nodes)[h].(boundry := b)]
      ensures old(Valid()) ==> Valid()
    {
      ghost var o := nodes;
      nodes := nodes[h := nodes[h].(boundry := b)];
      if old(Valid()) {
        BoundriesFit(o, nodes, children);
      }
    }

    /** An assignment to an element's Parent field: only that element's
        parent link changes, and it leads to an element. */
    method SetParent(c: Handle, p: Handle)
      requires Valid() && c in nodes && p in nodes
      modifies this
      ensures Valid()
      ensures children == old(children) && next == old(next) && rank == old(rank)
      ensures nodes == old(nodes)[c := old(nodes)[c].(parent := Some(p))]
    {
      nodes := nodes[c := nodes[c].(parent := Some(p))];
    }

    /** The splice `append([]*Element{c}, p.Children...)`: `c` goes to the
        front of `p`'s children; nothing else changes. As for AppendChild,
        the child must not be above the parent. */
    method PrependChild(p: Handle, c: Handle)
      requires Valid() && p in children && c in children
      requires p !in Reach(children, rank, c)
      modifies this
      ensures Valid()
      ensures children == old(children)[p := [c] + old(children[p])]
      ensures nodes == old(nodes) && next == old(next)
    {
      Rerank(children, rank, p, c, [c] + children[p]);
      rank := Lifted(children, rank, c);
      children := children[p := [c] + children[p]];
    }

    /** The splice `append(cs[:i], cs[i+1:]...)` on `p`'s children: child
        `i` leaves the list, the others keep their order. */
    method RemoveChildAt(p: Handle, i: nat)
      requires Valid() && p in children && i < |children[p]|
      modifies this
      ensures Valid()
      ensures children == old(children)[p := old(children[p])[..i] + old(children[p])[i + 1..]]
      ensures nodes == old(nodes) && next == old(next) && rank == old(rank)
    {
      var cs := children[p];
      var rest := cs[..i] + cs[i + 1..];
      var kids := children[p := rest];
      forall x, j | x in kids && 0 <= j < |kids[x]|
        ensures kids[x][j] in kids && rank[kids[x][j]] < rank[x]
      {
        if x == p {
          assert kids[x][j] == cs[if j < i then j else j + 1];
        }
      }
      children := kids;
    }

    /** InheritChildrensAttr: every strict descendant takes over the
        element's colours, depth first; nothing else changes. */
    method InheritChildrensAttr(h: Handle)
      requires Valid() && h in children
      modifies this
      decreases rank[h], 1
      ensures Valid()
      ensures children == old(children) && next == old(next) && rank == old(rank)
      ensures nodes == Recoloured(old(nodes), Descendants(children, rank, h), old(nodes[h].attrs))
    {
      var cs := children[h];
      ghost var o, p, kids, rk := nodes, nodes[h].attrs, children, rank;
      var i := 0;
      while i < |cs|
        invariant 0 <= i <= |cs| && Valid()
        invariant children == kids && next == old(next) && rank == rk
        invariant WellRanked(kids, rk) && h in kids && cs == kids[h] && Below(kids, rk, cs[..i], rk[h])
        invariant h !in ReachAll(kids, rk, cs[..i], rk[h])
        invariant nodes == Recoloured(o, ReachAll(kids, rk, cs[..i], rk[h]), p)
      {
        InheritLoopStep(o, kids, rk, h, i, p);
        PassDown(h, i);
        i := i + 1;
      }
      assert cs[..|cs|] == cs;
    }

    /** One turn of InheritChildrensAttr's loop: child `i` takes the
        element's colours and hands them down to its own descendants. */
    method PassDown(h: Handle, i: nat)
      requires Valid() && h in children && i < |children[h]|
      modifies this
      decreases rank[h], 0
      ensures Valid()
      ensures children == old(children) && next == old(next) && rank == old(rank)
      ensures nodes == Recoloured(old(nodes), Reach(children, rank, children[h][i]), old(nodes[h].attrs))
    {
      var c := children[h][i];
      HandDown(nodes, children, rank, c, nodes[h].attrs);
      nodes := nodes[c := nodes[c].(attrs := InheritFrom(nodes[c].attrs, nodes[h].attrs))];
      InheritChildrensAttr(c);
    }
  }
}
