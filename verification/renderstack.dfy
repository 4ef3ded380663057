/** The render stack of the engine (core/engine/engine.go, renderStack): the
    elements waiting to be laid out and painted again. Push puts an element
    at the front, moving it there if it was already waiting; Pop takes from
    the back. So in spite of its name it serves the oldest request first.
    The source guards both operations with a mutex; they are modelled as
    the sequential operations the mutex makes them. */
module RenderStacks {
  import opened Wrappers
  import opened Element
  import Seqs

  /** No element waits twice. */
  predicate NoDup(s: seq<Handle>)
  {
    forall i, j :: 0 <= i < j < |s| ==> s[i] != s[j]
  }

  /** Where `x` first occurs, or the length when it does not. */
  function IndexOf(s: seq<Handle>, x: Handle): (i: nat)
    ensures i <= |s| && (i < |s| ==> s[i] == x)
    ensures forall j :: 0 <= j < i ==> s[j] != x
    ensures i < |s| <==> x in s
  {
    if s == [] then 0 else if s[0] == x then 0 else 1 + IndexOf(s[1..], x)
  }

  /** The range loops of renderStack.Push and ElementUpdater.Remove: the
      position of the first element equal to `h`, or the length when there
      is none. */
  method Find(cs: seq<Handle>, h: Handle) returns (i: nat)
    ensures i == IndexOf(cs, h)
  {
    i := 0;
    while i < |cs|
      invariant i <= |cs| && h !in cs[..i]
    {
      if cs[i] == h {
        assert cs[..i + 1][i] == h;
        return;
      }
      assert cs[..i + 1] == cs[..i] + [cs[i]];
      i := i + 1;
    }
    assert cs[..i] == cs;
  }

  /** The sequence with the first occurrence of `x` cut out, the rest in
      order. */
  function RemoveFirst(s: seq<Handle>, x: Handle): (r: seq<Handle>)
    ensures x !in s ==> r == s
    ensures x in s ==> |r| == |s| - 1
    ensures forall y :: y in r ==> y in s
  {
    var i := IndexOf(s, x);
    if i < |s| then s[..i] + s[i + 1..] else s
  }

  /** Without duplicates, the element is gone altogether. */
  lemma RemoveFirstNoDup(s: seq<Handle>, x: Handle)
    requires NoDup(s)
    ensures NoDup(RemoveFirst(s, x)) && x !in RemoveFirst(s, x)
  {
    var i := IndexOf(s, x);
    if i < |s| {
      var r := RemoveFirst(s, x);
      assert forall a :: 0 <= a < |r| ==> r[a] == s[if a < i then a else a + 1];
    }
  }

  /** Cutting out the first `x` keeps every other element. */
  lemma RemoveFirstKeeps(s: seq<Handle>, x: Handle, y: Handle)
    requires y in s && y != x
    ensures y in RemoveFirst(s, x)
  {
    var i := IndexOf(s, x);
    if i < |s| {
      var j :| 0 <= j < |s| && s[j] == y;
      if j < i {
        assert s[..i][j] == y;
      } else {
        assert s[i + 1..][j - i - 1] == y;
      }
    }
  }

  /** The queue after pushing `xs` one by one. */
  function PushAll(s: seq<Handle>, xs: seq<Handle>): seq<Handle>
    decreases |xs|
  {
    if xs == [] then s else PushAll([xs[0]] + RemoveFirst(s, xs[0]), xs[1..])
  }

  /** A run of pushes keeps the queue free of duplicates, loses no
      waiting element and brings in nothing but the pushed elements. */
  lemma {:induction false} PushAllKeeps(s: seq<Handle>, xs: seq<Handle>)
    requires NoDup(s)
    ensures NoDup(PushAll(s, xs))
    ensures forall y :: y in PushAll(s, xs) <==> y in s || y in xs
    decreases |xs|
  {
    if xs != [] {
      var s1 := [xs[0]] + RemoveFirst(s, xs[0]);
      RemoveFirstNoDup(s, xs[0]);
      PushAllKeeps(s1, xs[1..]);
      forall y | y in PushAll(s, xs)
        ensures y in s || y in xs
      {
        if y !in xs[1..] {
          assert y in s1;
        }
      }
      forall y | y in s || y in xs
        ensures y in PushAll(s, xs)
      {
        if y !in xs[1..] {
          if y != xs[0] {
            RemoveFirstKeeps(s, xs[0], y);
          }
          assert y in s1;
        }
      }
    }
  }

  /** The elements of `xs` are distinct and none is waiting in `s`. */
  predicate Fresh(s: seq<Handle>, xs: seq<Handle>)
  {
    NoDup(xs) && forall i :: 0 <= i < |xs| ==> xs[i] !in s
  }

  /** Pushing distinct new elements lines them up newest first, so popping
      from the back returns them in the order they were pushed. */
  lemma {:induction false} PushAllFresh(s: seq<Handle>, xs: seq<Handle>)
    requires Fresh(s, xs)
    ensures PushAll(s, xs) == Reversed(xs) + s
    decreases |xs|
  {
    if xs != [] {
      FreshRest(s, xs);
      PushFresh(s, xs);
      PushAllFresh([xs[0]] + s, xs[1..]);
      ReversedFront(xs, s);
    }
  }

  /** Pushing an element not waiting yet just puts it in front. */
  lemma PushFresh(s: seq<Handle>, xs: seq<Handle>)
    requires xs != [] && xs[0] !in s
    ensures PushAll(s, xs) == PushAll([xs[0]] + s, xs[1..])
  {
  }

  /** The first element reversed goes last. */
  lemma ReversedFront(xs: seq<Handle>, s: seq<Handle>)
    requires xs != []
    ensures Reversed(xs) + s == Reversed(xs[1..]) + ([xs[0]] + s)
  {
    assert Reversed(xs) == Reversed(xs[1..]) + [xs[0]];
    Seqs.AppendAssoc(Reversed(xs[1..]), [xs[0]], s);
  }

  /** After the first of distinct new elements is pushed, the others are
      still distinct and new. */
  lemma FreshRest(s: seq<Handle>, xs: seq<Handle>)
    requires xs != [] && Fresh(s, xs)
    ensures xs[0] !in s && Fresh([xs[0]] + s, xs[1..])
  {
    var rest := xs[1..];
    assert xs[0] !in s;
    forall i, j | 0 <= i < j < |rest| ensures rest[i] != rest[j] {
      assert rest[i] == xs[i + 1] && rest[j] == xs[j + 1];
    }
    forall i | 0 <= i < |rest|
      ensures rest[i] !in [xs[0]] + s
    {
      assert rest[i] == xs[i + 1] != xs[0];
      assert xs[i + 1] !in s;
    }
  }

  /** Pushing one more element after a run of pushes: it goes in front of
      the queue the run left. */
  lemma {:induction false} PushAllSnoc(s: seq<Handle>, xs: seq<Handle>, x: Handle)
    ensures PushAll(s, xs + [x]) == [x] + RemoveFirst(PushAll(s, xs), x)
    decreases |xs|
  {
    if xs != [] {
      assert (xs + [x])[0] == xs[0] && (xs + [x])[1..] == xs[1..] + [x];
      PushAllSnoc([xs[0]] + RemoveFirst(s, xs[0]), xs[1..], x);
    }
  }

  /** The first `k` of `xs` whose flag in `keep` is set, in order. */
  function Picked(xs: seq<Handle>, keep: seq<bool>, k: nat): (r: seq<Handle>)
    requires k <= |xs| && k <= |keep|
    ensures |r| <= k
    ensures forall i :: 0 <= i < |r| ==> r[i] in xs[..k]
  {
    if k == 0 then []
    else
      var r := Picked(xs, keep, k - 1);
      assert xs[..k - 1] <= xs[..k];
      r + (if keep[k - 1] then [xs[k - 1]] else [])
  }

  /** When every flag is set, every element is picked. */
  lemma {:induction false} PickedAll(xs: seq<Handle>, keep: seq<bool>, k: nat)
    requires k <= |xs| && k <= |keep|
    requires forall i :: 0 <= i < k ==> keep[i]
    ensures Picked(xs, keep, k) == xs[..k]
  {
    if k > 0 {
      PickedAll(xs, keep, k - 1);
      assert xs[..k] == xs[..k - 1] + [xs[k - 1]];
    }
  }

  function Reversed(xs: seq<Handle>): (r: seq<Handle>)
    ensures |r| == |xs|
  {
    if xs == [] then [] else Reversed(xs[1..]) + [xs[0]]
  }

  class RenderStack {
    var elements: seq<Handle>

    ghost predicate Valid()
      reads this
    {
      NoDup(elements)
    }

    /** newRenderStack: nothing waiting. */
    constructor ()
      ensures Valid() && elements == []
    {
      elements := [];
    }

    function Len(): (n: nat)
      reads this
    {
      |elements|
    }

    /** Push: the element goes to the front; a copy already waiting is taken
        out first, so it waits once, and every other element keeps its
        place in the order. */
    method Push(el: Handle)
      modifies this
      ensures elements == [el] + RemoveFirst(old(elements), el)
      ensures el in old(elements) ==> Len() == old(Len())
      ensures el !in old(elements) ==> Len() == old(Len()) + 1
      ensures old(Valid()) ==> Valid()
    {
      var i := Find(elements, el);
      if i < |elements| {
        elements := elements[..i] + elements[i + 1..];
      }
      elements := [el] + elements;
      if old(Valid()) {
        RemoveFirstNoDup(old(elements), el);
      }
    }

    /** Pop: nothing from an empty stack; otherwise the last element, which
        leaves. */
    method Pop() returns (el: Option<Handle>)
      modifies this
      ensures old(elements) == [] ==> el == None && elements == []
      ensures old(elements) != [] ==> el == Some(old(elements)[|old(elements)| - 1]) &&
                                      elements == old(elements)[..|old(elements)| - 1]
      ensures old(Valid()) ==> Valid()
    {
      if |elements| == 0 {
        return None;
      }
      el := Some(elements[|elements| - 1]);
      elements := elements[..|elements| - 1];
    }
  }
}
