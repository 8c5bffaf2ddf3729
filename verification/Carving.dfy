/** The free list under repeated requests of one cell of 8 bytes, as deep_copy makes them: which node serves which
    request, and which nodes still have the size they were copied with. */
module Carving {
  import opened HeapState

  /** A segment after serving a request. */
  function Shrink(seg: Seg, n: nat): Seg
    requires Fits(seg, n)
  {
    Seg(seg.addr, HeaderFor(seg, n) - seg.addr - 8)
  }

  predicate Hosts(l: seq<Seg>, n: nat) { FirstFit(l, n, 0) < |l| }

  /** What malloc does to the list alone; a request that cannot be served leaves it. */
  function MallocList(l: seq<Seg>, n: nat): (r: seq<Seg>)
    ensures |r| == |l|
  {
    if Hosts(l, n) then l[FirstFit(l, n, 0) := Shrink(l[FirstFit(l, n, 0)], n)] else l
  }

  lemma MallocListIs(s: State, n: nat)
    requires CanMalloc(s, n)
    ensures Hosts(s.free, n) && Malloc(s, n).free == MallocList(s.free, n)
  {
  }

  const CELL := 8

  /** The list after c requests of one cell. */
  function After(l: seq<Seg>, c: nat): (r: seq<Seg>)
    ensures |r| == |l|
    decreases c
  {
    if c == 0 then l else After(MallocList(l, CELL), c - 1)
  }

  /** How many cells a segment can serve. */
  function Cells(seg: Seg): nat
    decreases seg.size
  {
    if Fits(seg, CELL) then 1 + Cells(Shrink(seg, CELL)) else 0
  }

  /** What misaligns the start of a segment. */
  function Padding(seg: Seg): nat { (8 - seg.addr % 8) % 8 }

  lemma ShrinkSize(seg: Seg)
    requires Fits(seg, CELL)
    ensures var room := seg.size - Padding(seg);
            16 <= room && Shrink(seg, CELL).size == Padding(seg) + (room - room % 8) - 16
  {
    FitsIffPlaceable(seg, CELL);
    PaddingAligns(seg.addr);
    SameRemainder(seg.addr + Padding(seg), seg.size - Padding(seg));
  }

  lemma PaddingAligns(a: nat)
    ensures (a + (8 - a % 8) % 8) % 8 == 0
  {
    assert a == 8 * (a / 8) + a % 8;
  }

  lemma SameRemainder(a: int, room: int)
    requires a % 8 == 0
    ensures (a + room) % 8 == room % 8
  {
    assert a + room == 8 * (a / 8 + room / 8) + room % 8;
  }

  lemma OneCellLess(room: nat)
    requires 16 <= room
    ensures (room - room % 8 - 16) / 16 == room / 16 - 1
  {
    var cells, rest := room / 16, room % 16;
    assert room == 16 * cells + rest;
    if rest < 8 {
      Remainder(room, 8, 2 * cells, rest);
      Remainder(room - rest - 16, 16, cells - 1, 0);
    } else {
      Remainder(room, 8, 2 * cells + 1, rest - 8);
      Remainder(room - (rest - 8) - 16, 16, cells - 1, 8);
    }
  }

  /** A segment serves one cell for each 16 bytes of its size, less the padding of a misaligned start. */
  lemma {:induction false} CellsAre(seg: Seg)
    ensures Cells(seg) == if seg.size < Padding(seg) then 0 else (seg.size - Padding(seg)) / 16
    decreases seg.size
  {
    FitsIffPlaceable(seg, CELL);
    if Fits(seg, CELL) {
      ShrinkSize(seg);
      OneCellLess(seg.size - Padding(seg));
      CellsAre(Shrink(seg, CELL));
    }
  }

  /** How many cells the first j nodes can serve together. */
  function Cap(l: seq<Seg>, j: nat): nat
    requires j <= |l|
  {
    if j == 0 then 0 else Cap(l, j - 1) + Cells(l[j - 1])
  }

  /** One request takes one cell from the capacity of every prefix that contains the node serving it. */
  lemma {:induction false} CapStep(l: seq<Seg>, j: nat)
    requires j <= |l|
    ensures Cap(MallocList(l, CELL), j) == Cap(l, j) - (if FirstFit(l, CELL, 0) < j then 1 else 0)
    ensures j <= FirstFit(l, CELL, 0) ==> Cap(l, j) == 0
    ensures FirstFit(l, CELL, 0) < j ==> 0 < Cap(l, j)
  {
    if j > 0 { CapStep(l, j - 1); }
  }

  /** A list that cannot serve a cell stays as it is. */
  lemma {:induction false} AfterStuck(l: seq<Seg>, c: nat)
    requires !Hosts(l, CELL)
    ensures After(l, c) == l
  {
    if c > 0 { AfterStuck(l, c - 1); }
  }

  /** A segment after serving up to t cells. */
  function Times(seg: Seg, t: nat): Seg
    decreases t
  {
    if t == 0 || !Fits(seg, CELL) then seg else Times(Shrink(seg, CELL), t - 1)
  }

  /** Cells that c requests take from node j: what exceeds the capacity before it, up to its own. */
  function Taken(l: seq<Seg>, j: nat, c: nat): nat
    requires j < |l|
  {
    if c <= Cap(l, j) then 0 else if c - Cap(l, j) < Cells(l[j]) then c - Cap(l, j) else Cells(l[j])
  }

  lemma {:induction false} AfterSeg(l: seq<Seg>, c: nat, j: nat)
    requires j < |l|
    ensures After(l, c)[j] == Times(l[j], Taken(l, j, c))
    decreases c
  {
    if c > 0 {
      CapStep(l, j);
      CapStep(l, j + 1);
      AfterSeg(MallocList(l, CELL), c - 1, j);
    }
  }

  lemma {:induction false} TimesDrops(seg: Seg, a: nat, b: nat)
    requires a < b <= Cells(seg)
    ensures Times(seg, b).size < Times(seg, a).size
    decreases b
  {
    var next := Shrink(seg, CELL);
    if a > 0 {
      TimesDrops(next, a - 1, b - 1);
    } else if b > 1 {
      TimesDrops(next, 0, b - 1);
    }
  }

  /** Node j has the same size after a and after b requests exactly when the requests between take nothing
      from it. */
  lemma SameSizeIff(l: seq<Seg>, a: nat, b: nat, j: nat)
    requires a <= b && j < |l|
    ensures After(l, a)[j].size == After(l, b)[j].size <==> Taken(l, j, a) == Taken(l, j, b)
  {
    AfterSeg(l, a, j);
    AfterSeg(l, b, j);
    if Taken(l, j, a) < Taken(l, j, b) { TimesDrops(l[j], Taken(l, j, a), Taken(l, j, b)); }
  }

  /** When all nodes are copied, node j still has the size it had right after the request for its cell. */
  predicate Fresh(l: seq<Seg>, j: nat)
    requires j < |l|
  {
    After(l, j + 1)[j].size == After(l, |l|)[j].size
  }

  ghost predicate NoneStale(l: seq<Seg>) {
    forall j :: 0 <= j < |l| ==> Fresh(l, j)
  }

  /** The nodes before any node j cannot serve more than the j requests made before its own. */
  ghost predicate ServedInTime(l: seq<Seg>) {
    forall j :: 0 <= j < |l| ==> Cap(l, j) <= j
  }

  lemma {:induction false} InTimeUpTo(l: seq<Seg>, j: nat)
    requires NoneStale(l) && j < |l|
    ensures Cap(l, j) <= j
    decreases j
  {
    if j > 0 {
      InTimeUpTo(l, j - 1);
      SameSizeIff(l, j, |l|, j - 1);
      assert Fresh(l, j - 1);
    }
  }

  lemma NoneStaleIff(l: seq<Seg>)
    ensures NoneStale(l) <==> ServedInTime(l)
  {
    if ServedInTime(l) {
      forall j | 0 <= j < |l| ensures Fresh(l, j) {
        SameSizeIff(l, j + 1, |l|, j);
        if j + 1 < |l| { assert Cap(l, j + 1) <= j + 1; }
      }
    }
    if NoneStale(l) {
      forall j | 0 <= j < |l| ensures Cap(l, j) <= j {
        InTimeUpTo(l, j);
      }
    }
  }
}
