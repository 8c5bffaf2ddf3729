/** The allocator's own test, for arbitrary request sizes and an arbitrary heap. */
module HeapTest {
  import opened HeapState
  import opened HeapRuns
  import opened Unsigned
  import opened Words
  import opened Memory
  import opened Carving
  import opened HeapCopy
  import opened Heap

  /** Copying the free list and deleting the copy restores the heap, and the copy finishes exactly when the list
      has room for one cell per node.  In between, the copy equals the live list exactly when no node's
      predecessors can serve more cells than were asked for before its own: then every request is served at or
      after the node being copied, and no recorded size changes any more. */
  method CopyThenDelete(h: Allocator) returns (ok: bool, same: bool)
    requires h.Valid() && 8 <= h.st.base
    modifies h`st, h.ram
    ensures h.Valid() && ok == CanCopy(old(h.st).free, 0)
    ensures ok ==> h.st == old(h.st) && same == ServedInTime(old(h.st).free)
    ensures !ok ==> h.st.free == After(old(h.st).free, |old(h.st).free|)
  {
    ghost var cl, bs;
    var before;
    ok, before, cl, bs := h.DeepCopy(h.freeSegment, 0);
    assert Opened(h.st) && Looked(cl);
    if !ok { return false, false; }
    same := Compare(h, old(h.st).free, before, cl, bs);
    h.FreeSegmentDelete(before, cl, bs);
    assert h.st.live == old(h.st).live;
    SameLiveSameState(h.st, old(h.st));
  }

  /** The comparison of a finished copy with the live list; l is the list before the copy was made. */
  method Compare(h: Allocator, ghost l: seq<Seg>, before: nat, ghost cl: seq<Seg>, ghost bs: seq<Seg>) returns (same: bool)
    requires h.Valid() && Copied(h.ram[..], h.st.live, before, cl, bs)
    requires h.st.free == After(l, |l|) && |cl| == |l|
    requires forall c :: 0 <= c < |cl| ==> Recorded(l, 0, cl, c)
    ensures same == ServedInTime(l)
  {
    assert Looked(cl);
    InvBounds(h.st);
    same := FreeSegmentEquals(h.ram[..], before, h.freeSegment, cl, h.st.free);
    EqualsIff(h.ram[..], before, h.freeSegment, cl, h.st.free);
    FaithfulIff(l, cl);
  }

  lemma CopySurvives(m: seq<Byte>, m': seq<Byte>, s: State, p: nat, cl: seq<Seg>, bs: seq<Seg>, live: set<Seg>)
    requires Copied(m, live, p, cl, bs) && Inv(s) && s.limit <= |m| && KeptOutside(m, m', s.free)
    requires forall b :: b in bs ==> b in s.live
    ensures Copied(m', s.live, p, cl, bs)
  {
    InvBounds(s);
    forall b, x | b in bs && b.addr + 8 <= x < b.End() && x < |m| ensures m'[x] == m[x] {
      KeptInBlock(m, m', s, b);
      assert m'[b.addr..b.End()][x - b.addr] == m[b.addr..b.End()][x - b.addr];
    }
    CopiedKept(m, m', live, s.live, p, cl, bs);
  }

  /** The free space shrinks as the live set grows. */
  lemma FreeShrinks(s: State, t: State)
    requires Inv(s) && Inv(t) && s.base == t.base && s.limit == t.limit && s.live <= t.live
    ensures forall x :: InFree(t.free, x) ==> InFree(s.free, x)
  {
    assert Opened(s) && Opened(t);
    forall x | InFree(t.free, x) ensures InFree(s.free, x) {
      if InLive(s.live, x) {
        var c :| c in s.live && c.Has(x);
        FreeNotLive(t, c, x);
      }
    }
  }

  /** Two mallocs and the frees of both blocks, in the order they were allocated. */
  lemma TwoBlocks(s: State, n1: nat, b1: Seg, s1: State, n2: nat, b2: Seg, s2: State, s3: State, s4: State)
    requires Inv(s) && CanMalloc(s, n1) && s1 == HeapState.Malloc(s, n1) && b1 == Block(s, n1)
    requires CanMalloc(s1, n2) && s2 == HeapState.Malloc(s1, n2) && b2 == Block(s1, n2)
    requires s3 == HeapState.Free(s2, b1) && s4 == HeapState.Free(s3, b2)
    ensures Inv(s1) && Inv(s2) && Inv(s3) && b1 in s2.live && b2 in s3.live && s4 == s
    ensures forall x :: InFree(s1.free, x) ==> InFree(s.free, x)
    ensures forall x :: InFree(s3.free, x) ==> InFree(s.free, x)
  {
    MallocInv(s, n1);
    MallocInv(s1, n2);
    FreeInv(s2, b1);
    FreeInv(s3, b2);
    assert s2.live - {b1} - {b2} == s.live;
    SameLiveSameState(s4, s);
    FreeShrinks(s, s1);
    FreeShrinks(s, s3);
  }

  method MallocBlockOf(h: Allocator, n: nat) returns (ok: bool, p: nat, ghost b: Seg)
    requires h.Valid() && n < MODULUS && NoneMisplaced(h.st.free, n)
    modifies h`st, h.ram
    ensures h.Valid() && ok == Hosts(old(h.st).free, n)
    ensures ok ==> CanMalloc(old(h.st), n) && b == Block(old(h.st), n) && p == b.addr + 8 && b in h.st.live && n <= b.size
    ensures ok ==> h.st == HeapState.Malloc(old(h.st), n) && h.st.free == MallocList(old(h.st).free, n)
    ensures KeptOutside(old(h.ram[..]), h.ram[..], old(h.st).free)
  {
    b := Seg(0, 0);
    ghost var s := h.st;
    ok, p := h.Malloc(n);
    if ok {
      b := Block(s, n);
      HeapState.MallocBlock(s, n);
      MallocListIs(s, n);
    }
  }

  method FreeBlock(h: Allocator, p: nat, ghost b: Seg)
    requires h.Valid() && b in h.st.live && p == b.addr + 8
    modifies h`st, h.ram
    ensures h.Valid() && h.st == HeapState.Free(old(h.st), b)
    ensures KeptOutside(old(h.ram[..]), h.ram[..], h.st.free)
  {
    LiveAtIs(h.st, b);
    var ok := h.Free(p);
  }

  /** The client's stores into a payload it holds. */
  method Fill(h: Allocator, p: nat, data: seq<Byte>, ghost b: Seg)
    requires h.Valid() && b in h.st.live && p == b.addr + 8 && |data| <= b.size
    modifies h.ram
    ensures h.Valid() && SameExcept(old(h.ram[..]), h.ram[..], p, p + |data|)
    ensures p + |data| <= h.ram.Length && h.ram[p..p + |data|] == data
  {
    InvBounds(h.st);
    ghost var was := h.ram[..];
    for i := 0 to |data|
      invariant h.Valid() && Filled(was, h.ram[..], p, data, i)
    {
      ghost var m := h.ram[..];
      h.Poke(p + i, data[i], b);
      FilledNext(was, m, h.ram[..], p, data, i);
    }
    FilledAll(was, h.ram[..], p, data);
  }

  /** The first i bytes of the data lie at p, and the rest of memory is as it was. */
  ghost predicate Filled(was: seq<Byte>, m: seq<Byte>, p: nat, data: seq<Byte>, i: nat) {
    p + i <= |was| && i <= |data| && m == was[..p] + data[..i] + was[p + i..]
  }

  lemma FilledNext(was: seq<Byte>, m: seq<Byte>, m': seq<Byte>, p: nat, data: seq<Byte>, i: nat)
    requires Filled(was, m, p, data, i) && i < |data| && p + i < |m|
    requires SameExcept(m, m', p + i, p + i + 1) && m'[p + i] == data[i]
    ensures Filled(was, m', p, data, i + 1)
  {
    assert m' == m[p + i := data[i]];
  }

  lemma FilledAll(was: seq<Byte>, m: seq<Byte>, p: nat, data: seq<Byte>)
    requires Filled(was, m, p, data, |data|)
    ensures SameExcept(was, m, p, p + |data|) && p + |data| <= |m| && m[p..p + |data|] == data
  {
  }

  /** malloc, then a first write into the block: only bytes that were free change. */
  method MallocAndFill(h: Allocator, n: nat, data: seq<Byte>) returns (ok: bool, p: nat, ghost b: Seg)
    requires h.Valid() && n < MODULUS && NoneMisplaced(h.st.free, n) && |data| <= n
    modifies h`st, h.ram
    ensures h.Valid() && ok == Hosts(old(h.st).free, n)
    ensures ok ==> CanMalloc(old(h.st), n) && b == Block(old(h.st), n) && p == b.addr + 8
    ensures ok ==> h.st == HeapState.Malloc(old(h.st), n) && h.st.free == MallocList(old(h.st).free, n)
    ensures ok ==> p + |data| <= h.ram.Length && h.ram[p..p + |data|] == data
    ensures KeptOutside(old(h.ram[..]), h.ram[..], old(h.st).free)
  {
    ghost var s, m := h.st, h.ram[..];
    ok, p, b := MallocBlockOf(h, n);
    if ok {
      ghost var m1 := h.ram[..];
      Fill(h, p, data, b);
      forall x | b.addr <= x < b.End() ensures InFree(s.free, x) {
        assert s.free[FirstFit(s.free, n, 0)].Has(x);
      }
      KeptByStore(m1, h.ram[..], p, p + |data|, s.free);
      KeptThrough(m, m1, h.ram[..], s.free, s.free);
    }
  }

  /** The two requests of the test are served one after the other from the list l. */
  predicate BothHosted(l: seq<Seg>, n1: nat, n2: nat) {
    Hosts(l, n1) && Hosts(MallocList(l, n1), n2)
  }

  ghost predicate BothPlaced(l: seq<Seg>, n1: nat, n2: nat) {
    n1 < MODULUS && n2 < MODULUS && NoneMisplaced(l, n1) && (Hosts(l, n1) ==> NoneMisplaced(MallocList(l, n1), n2))
  }

  /** Two mallocs with writes and the two frees: no trace is left in the list, and only free bytes were written. */
  method ThereAndBack(h: Allocator, n1: nat, data1: seq<Byte>, n2: nat, data2: seq<Byte>) returns (ok: bool)
    requires h.Valid() && BothPlaced(h.st.free, n1, n2) && |data1| <= n1 && |data2| <= n2
    modifies h`st, h.ram
    ensures h.Valid() && ok == BothHosted(old(h.st).free, n1, n2)
    ensures ok ==> h.st == old(h.st) && KeptOutside(old(h.ram[..]), h.ram[..], h.st.free)
  {
    var p1, p2;
    ghost var b1, b2;
    ghost var s, m := h.st, h.ram[..];
    ok, p1, b1 := MallocAndFill(h, n1, data1);
    if !ok { return; }
    ghost var s1, m1 := h.st, h.ram[..];
    ok, p2, b2 := MallocAndFill(h, n2, data2);
    if !ok { return; }
    ghost var s2, m2 := h.st, h.ram[..];
    ghost var s3 := HeapState.Free(s2, b1);
    TwoBlocks(s, n1, b1, s1, n2, b2, s2, s3, HeapState.Free(s3, b2));
    KeptThrough(m, m1, m2, s.free, s1.free);
    FreeBlock(h, p1, b1);
    KeptThrough(m, m2, h.ram[..], s.free, s3.free);
    ghost var m3 := h.ram[..];
    FreeBlock(h, p2, b2);
    KeptThrough(m, m3, h.ram[..], s.free, s.free);
  }

  /** The test of the allocator, with requests of n1 and n2 bytes and arbitrary contents: it completes exactly when
      the copy and both requests find room, it leaves the heap as it was, and its comparison holds exactly when
      the copy was a faithful one. */
  method AllocatorTest(h: Allocator, n1: nat, data1: seq<Byte>, n2: nat, data2: seq<Byte>) returns (ok: bool, same: bool)
    requires h.Valid() && 8 <= h.st.base && |data1| <= n1 && |data2| <= n2
    requires BothPlaced(After(h.st.free, |h.st.free|), n1, n2)
    modifies h`st, h.ram
    ensures h.Valid()
    ensures ok == (CanCopy(old(h.st).free, 0) && BothHosted(After(old(h.st).free, |old(h.st).free|), n1, n2))
    ensures ok ==> h.st == old(h.st) && same == ServedInTime(old(h.st).free)
  {
    ghost var cl, bs;
    var before;
    same := false;
    ok, before, cl, bs := h.DeepCopy(h.freeSegment, 0);
    assert Opened(h.st);
    if !ok { return; }
    ghost var m := h.ram[..];
    ok := ThereAndBack(h, n1, data1, n2, data2);
    if !ok { return; }
    CopySurvives(m, h.ram[..], h.st, before, cl, bs, h.st.live);
    same := Compare(h, old(h.st).free, before, cl, bs);
    h.FreeSegmentDelete(before, cl, bs);
    assert h.st.live == old(h.st).live;
    SameLiveSameState(h.st, old(h.st));
  }

  // ---------- heaps with two segments ----------

  /** Two mallocs and the free of the first leave the head and one more segment. */
  lemma TwoSegments(base: nat, limit: nat, n1: nat, n2: nat)
    requires base + 8 <= limit
    requires var head := Seg(base, limit - base - 8);
             Fits(head, n1) && Fits(Shrink(head, n1), n2)
    ensures var head := Seg(base, limit - base - 8);
            var h1 := HeaderFor(head, n1);
            var h2 := HeaderFor(Shrink(head, n1), n2);
            var r := Exec(Init(base, limit), [MallocCall(n1), MallocCall(n2), FreeCall(h1 + 8)]);
            r.Done? && r.s.free == [Seg(base, h2 - base - 8), Seg(h1, limit - h1 - 8)]
  {
    var s := Init(base, limit);
    var head := Seg(base, limit - base - 8);
    InitInv(base, limit);
    var b1 := Block(s, n1);
    var s1 := HeapState.Malloc(s, n1);
    MallocInv(s, n1);
    MallocListIs(s, n1);
    assert s1.free == [Shrink(head, n1)];
    var b2 := Block(s1, n2);
    var s2 := HeapState.Malloc(s1, n2);
    MallocInv(s1, n2);
    MallocListIs(s1, n2);
    assert s2.free == [Shrink(Shrink(head, n1), n2)];
    LiveAtIs(s2, b1);
    var s3 := HeapState.Free(s2, b1);
    assert s3.free == [s2.free[0], b1];
    assert Step(s, MallocCall(n1)) == Done(s1) && Step(s1, MallocCall(n2)) == Done(s2);
    assert Step(s2, FreeCall(b1.addr + 8)) == Done(s3);
    ExecThree(s, MallocCall(n1), s1, MallocCall(n2), s2, FreeCall(b1.addr + 8), s3);
  }

  /** Always true: a proof mentions Made(call) where it needs to look inside Leads. */
  predicate Made(call: Call) { true }

  ghost predicate Leads(s: State, call: Call, t: State)
    requires s.free != []
  {
    forall c: Call {:trigger Made(c)} :: c == call ==> Step(s, c) == Done(t)
  }

  lemma ExecThree(s: State, a: Call, s1: State, b: Call, s2: State, c: Call, s3: State)
    requires s.free != [] && s1.free != [] && s2.free != [] && s3.free != []
    requires Leads(s, a, s1) && Leads(s1, b, s2) && Leads(s2, c, s3)
    ensures Exec(s, [a, b, c]) == Done(s3)
  {
    ExecCons(s2, c, s3, []);
    ExecCons(s1, b, s2, [c] + []);
    ExecCons(s, a, s1, [b] + ([c] + []));
    assert [a, b, c] == [a] + ([b] + ([c] + []));
  }

  lemma ExecCons(s: State, call: Call, t: State, calls: seq<Call>)
    requires s.free != [] && t.free != [] && Leads(s, call, t)
    ensures Exec(s, [call] + calls) == Exec(t, calls)
  {
    assert ([call] + calls)[1..] == calls && Made(call);
  }

  lemma TwoCells(seg: Seg)
    requires 46 <= seg.size
    ensures 2 <= Cells(seg)
  {
    RoomFits(seg, CELL);
    RoomFits(Shrink(seg, CELL), CELL);
  }

  lemma CapOfTwo(l: seq<Seg>)
    requires |l| == 2
    ensures Cap(l, 0) == 0 && Cap(l, 1) == Cells(l[0]) && Cap(l, 2) == Cells(l[0]) + Cells(l[1])
  {
    assert Cap(l, 1) == Cap(l, 0) + Cells(l[0]);
  }

  /** From initialization the comparison can fail: two blocks are taken and the first is given back, which leaves a
      head that serves both cells of the copy. */
  lemma UnfaithfulCopyReachable(base: nat, limit: nat) returns (calls: seq<Call>)
    requires base + 160 <= limit
    ensures var r := Exec(Init(base, limit), calls);
            r.Done? && |r.s.free| == 2 && CanCopy(r.s.free, 0) && !ServedInTime(r.s.free)
  {
    var head := Seg(base, limit - base - 8);
    RoomFits(head, 16);
    RoomFits(Shrink(head, 16), 16);
    calls := [MallocCall(16), MallocCall(16), FreeCall(HeaderFor(head, 16) + 8)];
    TwoSegments(base, limit, 16, 16);
    var l := Exec(Init(base, limit), calls).s.free;
    CapOfTwo(l);
    TwoCells(l[0]);
    assert !(Cap(l, 1) <= 1);
  }

  /** It can also succeed with two segments: the second block takes all the head can give, so that the other
      segment serves both cells. */
  lemma FaithfulCopyReachable(base: nat, limit: nat) returns (calls: seq<Call>)
    requires base + 160 <= limit
    ensures var r := Exec(Init(base, limit), calls);
            r.Done? && |r.s.free| == 2 && CanCopy(r.s.free, 0) && ServedInTime(r.s.free)
  {
    var head := Seg(base, limit - base - 8);
    RoomFits(head, 48);
    var rest := Shrink(head, 48);
    var n := rest.size - 8 - (8 - base % 8) % 8;
    FitsIffPlaceable(rest, n);
    calls := [MallocCall(48), MallocCall(n), FreeCall(HeaderFor(head, 48) + 8)];
    TwoSegments(base, limit, 48, n);
    var l := Exec(Init(base, limit), calls).s.free;
    CapOfTwo(l);
    TwoCells(l[1]);
    FitsIffPlaceable(l[0], CELL);
    assert Cells(l[0]) == 0;
  }
}
