/** The flag table the flex layout keeps while it places an element's
    children (core/engine/layouts.go, RenderMan): one entry per child
    index, each holding a set of flags and the size worked out for it. The
    source keys a Go map by the indices 0 .. l-1 and never adds a key
    afterwards, so the table is a sequence here and "key present" reads
    "index in range". */
module Flags {
  import opened Wrappers

  /** A set of RenderFlag bits. */
  type RenderFlag = bv16

  const FlagFlex: RenderFlag := 1
  const FlagWidth: RenderFlag := 2
  const FlagMaxWidth: RenderFlag := 4
  const FlagMinWidth: RenderFlag := 8
  const FlagHeight: RenderFlag := 16
  const FlagMaxHeight: RenderFlag := 32
  const FlagMinHeight: RenderFlag := 64
  const FlagCalculated: RenderFlag := 128
  const FlagIgnore: RenderFlag := 256
  const FlagInvalid: RenderFlag := 512

  /** One entry: its flags and the size saved for it. The source saves an
      integer length converted to float32, which keeps it exactly only up
      to 2^24 in magnitude; the size is an unbounded int here. */
  datatype RenderData = RenderData(flag: RenderFlag, value: int)

  /** Whether Next stops at an entry: every entry when asked for no flag,
      otherwise an entry sharing a bit with the request. */
  predicate Selects(want: RenderFlag, have: RenderFlag)
  {
    want == 0 || want & have > 0
  }

  class RenderMan {
    var data: seq<RenderData>

    /** newRenderMan: entries 0 .. l-1, each with the default flag and
        value 0. A negative length gives an empty table. */
    constructor (l: int, defaultFlag: RenderFlag)
      ensures |data| == (if l < 0 then 0 else l)
      ensures forall i :: 0 <= i < |data| ==> data[i] == RenderData(defaultFlag, 0)
    {
      var res: seq<RenderData> := [];
      var x := 0;
      while x < l
        invariant 0 <= x && (l >= 0 ==> x <= l) && (l < 0 ==> x == 0) && |res| == x
        invariant forall i :: 0 <= i < x ==> res[i] == RenderData(defaultFlag, 0)
      {
        res := res + [RenderData(defaultFlag, 0)];
        x := x + 1;
      }
      data := res;
    }

    /** SetFlag replaces the entry's flags; it does not add to them. */
    method SetFlag(i: int, flag: RenderFlag)
      requires 0 <= i < |data|
      modifies this
      ensures data == old(data)[i := old(data)[i].(flag := flag)]
    {
      data := data[i := data[i].(flag := flag)];
    }

    function Flag(i: int): (f: RenderFlag)
      reads this
      requires 0 <= i < |data|
      ensures f == data[i].flag
    {
      data[i].flag
    }

    /** SaveCalculation sets the entry's size and leaves its flags alone. */
    method SaveCalculation(i: int, value: int)
      requires 0 <= i < |data|
      modifies this
      ensures data == old(data)[i := old(data)[i].(value := value)]
    {
      data := data[i := data[i].(value := value)];
    }

    /** Next: the first index after `head` whose entry the request selects,
        with that entry; `ok` false once the indices run out, and then the
        index returned is the first one past the table (or head + 1 when
        that is below the table). */
    method Next(head: int, flag: RenderFlag) returns (h: int, d: Option<RenderData>, ok: bool)
      ensures ok <==> d.Some?
      ensures ok ==> head < h && 0 <= h < |data| && d.value == data[h] && Selects(flag, data[h].flag)
      ensures forall j :: 0 <= j < |data| && head < j < h ==> !Selects(flag, data[j].flag)
      ensures !ok ==> h == (if head + 1 < 0 || head + 1 > |data| then head + 1 else |data|)
    {
      h := head + 1;
      while 0 <= h < |data|
        invariant head + 1 <= h && (0 <= head + 1 <= |data| ==> h <= |data|)
        invariant forall j :: 0 <= j < |data| && head < j < h ==> !Selects(flag, data[j].flag)
        invariant h != head + 1 ==> 0 <= head + 1 <= |data|
        decreases |data| - h
      {
        if Selects(flag, data[h].flag) {
          return h, Some(data[h]), true;
        }
        h := h + 1;
      }
      return h, None, false;
    }

    /** FlagRest: every entry from `head` on gets the flag; earlier entries
        keep theirs. A negative head names no entry, so nothing changes. */
    method FlagRest(head: int, flag: RenderFlag)
      modifies this
      ensures |data| == |old(data)|
      ensures forall j :: 0 <= j < |data| ==>
                data[j] == if 0 <= head <= j then old(data)[j].(flag := flag) else old(data)[j]
    {
      var h := head;
      while 0 <= h < |data|
        invariant |data| == |old(data)| && head <= h && (h == head || 0 <= head)
        invariant forall j :: 0 <= j < |data| ==>
                    data[j] == if 0 <= head <= j < h then old(data)[j].(flag := flag) else old(data)[j]
        decreases |data| - h
      {
        data := data[h := data[h].(flag := flag)];
        h := h + 1;
      }
    }
  }
}
