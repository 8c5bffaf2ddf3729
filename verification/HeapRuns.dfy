/** Facts about the heap over whole runs: the free list is a function of the set of live blocks, bytes are
    conserved, and free undoes malloc. */
module HeapRuns {
  import opened HeapState

  // ---------- the free list is determined by the live blocks ----------

  /** A maximal interval start..end of free addresses. */
  datatype Run = Run(start: int, end: int) {
    predicate Has(x: int) { start <= x < end }
  }

  /** Put the address a in front of runs that lie above it. */
  function PushFront(a: int, rs: seq<Run>): (qs: seq<Run>)
    ensures qs != [] && qs[0].start == a
    ensures rs != [] && rs[0].start == a + 1 ==>
              |qs| == |rs| && qs[0].end == rs[0].end && forall i :: 1 <= i < |qs| ==> qs[i] == rs[i]
    ensures !(rs != [] && rs[0].start == a + 1) ==>
              |qs| == |rs| + 1 && qs[0].end == a + 1 && forall i :: 1 <= i < |qs| ==> qs[i] == rs[i - 1]
  {
    if rs != [] && rs[0].start == a + 1 then [Run(a, rs[0].end)] + rs[1..] else [Run(a, a + 1)] + rs
  }

  /** The maximal free runs of lo..hi, found by scanning addresses; it knows nothing of segments or merging. */
  ghost function FreeRuns(lo: int, hi: int, live: set<Seg>): seq<Run>
    requires lo <= hi
    decreases hi - lo
  {
    if lo == hi then [] else
      var rest := FreeRuns(lo + 1, hi, live);
      if InLive(live, lo) then rest else PushFront(lo, rest)
  }

  ghost predicate InRuns(rs: seq<Run>, x: int) {
    exists i :: 0 <= i < |rs| && rs[i].Has(x)
  }

  ghost predicate RunsSpaced(rs: seq<Run>) {
    (forall i :: 0 <= i < |rs| ==> rs[i].start < rs[i].end)
    && forall i, j :: 0 <= i < j < |rs| ==> rs[i].end < rs[j].start
  }

  function Extents(l: seq<Seg>): seq<Run> {
    seq(|l|, i requires 0 <= i < |l| => Run(l[i].addr, l[i].End()))
  }

  ghost predicate Within(rs: seq<Run>, lo: int, hi: int) {
    forall i :: 0 <= i < |rs| ==> lo <= rs[i].start && rs[i].end <= hi
  }

  lemma {:induction false} FreeRunsSpaced(lo: int, hi: int, live: set<Seg>)
    requires lo <= hi
    ensures RunsSpaced(FreeRuns(lo, hi, live)) && Within(FreeRuns(lo, hi, live), lo, hi)
    decreases hi - lo
  {
    if lo < hi {
      FreeRunsSpaced(lo + 1, hi, live);
      PushFrontSpaced(lo, hi, FreeRuns(lo + 1, hi, live));
    }
  }

  lemma PushFrontSpaced(a: int, hi: int, rs: seq<Run>)
    requires RunsSpaced(rs) && Within(rs, a + 1, hi) && a < hi
    ensures RunsSpaced(PushFront(a, rs)) && Within(PushFront(a, rs), a, hi)
  {
    if rs != [] && rs[0].start == a + 1 {
      SpacedCons(Run(a, rs[0].end), rs[1..], a, hi);
    } else {
      SpacedCons(Run(a, a + 1), rs, a, hi);
    }
  }

  /** A run put in front of runs that begin above its end. */
  lemma SpacedCons(r: Run, rs: seq<Run>, lo: int, hi: int)
    requires lo <= r.start < r.end <= hi && RunsSpaced(rs) && Within(rs, lo, hi)
    requires forall i :: 0 <= i < |rs| ==> r.end < rs[i].start
    ensures RunsSpaced([r] + rs) && Within([r] + rs, lo, hi)
  {
  }

  lemma PushFrontCovers(a: int, rs: seq<Run>, x: int)
    requires RunsSpaced(rs) && (rs != [] ==> a < rs[0].start)
    ensures InRuns(PushFront(a, rs), x) <==> x == a || InRuns(rs, x)
  {
    var qs := PushFront(a, rs);
    InRunsCons(qs, x);
    if rs != [] && rs[0].start == a + 1 {
      InRunsCons(rs, x);
      assert qs[1..] == rs[1..];
    } else {
      assert qs[1..] == rs;
    }
  }

  lemma InRunsCons(rs: seq<Run>, x: int)
    requires rs != []
    ensures InRuns(rs, x) <==> rs[0].Has(x) || InRuns(rs[1..], x)
  {
    if InRuns(rs[1..], x) {
      var i :| 0 <= i < |rs[1..]| && rs[1..][i].Has(x);
      assert rs[i + 1].Has(x);
    }
    if InRuns(rs, x) {
      var i :| 0 <= i < |rs| && rs[i].Has(x);
      assert i > 0 ==> rs[1..][i - 1].Has(x);
    }
  }

  lemma {:induction false} FreeRunsCover(lo: int, hi: int, live: set<Seg>, x: int)
    requires lo <= hi
    ensures InRuns(FreeRuns(lo, hi, live), x) <==> lo <= x < hi && !InLive(live, x)
    decreases hi - lo
  {
    if lo < hi {
      var rest := FreeRuns(lo + 1, hi, live);
      FreeRunsCover(lo + 1, hi, live, x);
      FreeRunsSpaced(lo + 1, hi, live);
      PushFrontCovers(lo, rest, x);
    }
  }

  /** The first run starts at the least address of all and ends where the addresses first break off. */
  lemma FirstRun(rs: seq<Run>, x: int)
    requires RunsSpaced(rs) && rs != []
    ensures InRuns(rs, rs[0].start) && !InRuns(rs, rs[0].end)
    ensures rs[0].Has(x) ==> InRuns(rs, x)
    ensures InRuns(rs, x) ==> rs[0].start <= x
  {
    assert rs[0].Has(rs[0].start);
    assert forall i :: 0 <= i < |rs| ==> !rs[i].Has(rs[0].end) && rs[0].start <= rs[i].start;
  }

  lemma SameFirstRun(rs: seq<Run>, qs: seq<Run>)
    requires RunsSpaced(rs) && RunsSpaced(qs) && rs != []
    requires forall x :: InRuns(rs, x) <==> InRuns(qs, x)
    ensures qs != [] && qs[0] == rs[0]
  {
    FirstRun(rs, rs[0].start);
    assert InRuns(qs, rs[0].start);
    FirstRun(rs, qs[0].start);
    FirstRun(qs, rs[0].start);
    FirstRun(rs, qs[0].end);
    FirstRun(qs, rs[0].end);
  }

  lemma TailRuns(rs: seq<Run>, x: int)
    requires RunsSpaced(rs) && rs != []
    ensures InRuns(rs[1..], x) <==> InRuns(rs, x) && rs[0].end <= x
  {
  }

  /** Spaced runs over the same addresses are the same runs. */
  lemma {:induction false} RunsUnique(rs: seq<Run>, qs: seq<Run>)
    requires RunsSpaced(rs) && RunsSpaced(qs)
    requires forall x :: InRuns(rs, x) <==> InRuns(qs, x)
    ensures rs == qs
    decreases |rs|
  {
    if rs == [] {
      if qs != [] {
        FirstRun(qs, 0);
        assert false;
      }
    } else {
      SameFirstRun(rs, qs);
      forall x ensures InRuns(rs[1..], x) <==> InRuns(qs[1..], x) {
        TailRuns(rs, x);
        TailRuns(qs, x);
      }
      RunsUnique(rs[1..], qs[1..]);
      assert rs == [rs[0]] + rs[1..] && qs == [qs[0]] + qs[1..];
    }
  }

  lemma ExtentsHas(l: seq<Seg>, x: int)
    ensures InRuns(Extents(l), x) <==> InFree(l, x)
  {
    if InFree(l, x) {
      var i :| 0 <= i < |l| && l[i].Has(x);
      assert Extents(l)[i].Has(x);
    }
    if InRuns(Extents(l), x) {
      var i :| 0 <= i < |l| && Extents(l)[i].Has(x);
      assert l[i].Has(x);
    }
  }

  lemma SpacedStrictly(l: seq<Seg>, i: nat, j: nat)
    requires Spaced(l) && i < j < |l|
    ensures l[i].End() < l[j].addr
  {
    assert Apart(l, i);
    if i + 1 < j { assert l[i + 1].End() <= l[j].addr; }
  }

  lemma ExtentsSpaced(l: seq<Seg>)
    requires Spaced(l)
    ensures RunsSpaced(Extents(l))
  {
    forall i, j | 0 <= i < j < |l| ensures l[i].End() < l[j].addr {
      SpacedStrictly(l, i, j);
    }
  }

  /** The free list is exactly the maximal free runs left by the live blocks. */
  lemma FreeListCanonical(s: State)
    requires Inv(s)
    ensures Extents(s.free) == FreeRuns(s.base, s.limit, s.live)
  {
    assert Opened(s);
    var rs := FreeRuns(s.base, s.limit, s.live);
    FreeRunsSpaced(s.base, s.limit, s.live);
    ExtentsSpaced(s.free);
    forall x ensures InRuns(Extents(s.free), x) <==> InRuns(rs, x) {
      FreeRunsCover(s.base, s.limit, s.live, x);
      ExtentsHas(s.free, x);
      if InLive(s.live, x) {
        var c :| c in s.live && c.Has(x);
        FreeNotLive(s, c, x);
      }
    }
    RunsUnique(Extents(s.free), rs);
  }

  lemma SameLiveSameState(s: State, t: State)
    requires Inv(s) && Inv(t) && s.base == t.base && s.limit == t.limit && s.live == t.live
    ensures s == t
  {
    FreeListCanonical(s);
    FreeListCanonical(t);
    assert |s.free| == |Extents(s.free)| == |t.free|;
    forall i | 0 <= i < |s.free| ensures s.free[i] == t.free[i] {
      assert Extents(s.free)[i] == Extents(t.free)[i];
    }
    assert s.free == t.free;
  }

  // ---------- conservation ----------

  function FreeBytes(l: seq<Seg>): nat {
    if l == [] then 0 else 8 + l[0].size + FreeBytes(l[1..])
  }

  ghost function LiveBytes(live: set<Seg>): nat {
    if live == {} then 0 else
      var b :| b in live;
      8 + b.size + LiveBytes(live - {b})
  }

  lemma {:induction false} FreeBytesConcat(l: seq<Seg>, m: seq<Seg>)
    ensures FreeBytes(l + m) == FreeBytes(l) + FreeBytes(m)
  {
    if l == [] {
      assert l + m == m;
    } else {
      assert (l + m)[1..] == l[1..] + m;
      FreeBytesConcat(l[1..], m);
    }
  }

  lemma FreeBytesCons(b: Seg, l: seq<Seg>)
    ensures FreeBytes([b] + l) == 8 + b.size + FreeBytes(l)
  {
    assert ([b] + l)[1..] == l;
  }

  lemma FreeBytesUpdate(l: seq<Seg>, k: nat, b: Seg)
    requires k < |l|
    ensures FreeBytes(l[k := b]) == FreeBytes(l) - l[k].size + b.size
  {
    assert l == l[..k] + ([l[k]] + l[k + 1..]);
    assert l[k := b] == l[..k] + ([b] + l[k + 1..]);
    FreeBytesConcat(l[..k], [l[k]] + l[k + 1..]);
    FreeBytesConcat(l[..k], [b] + l[k + 1..]);
    FreeBytesCons(l[k], l[k + 1..]);
    FreeBytesCons(b, l[k + 1..]);
  }

  lemma {:induction false} FreeBytesInsert(l: seq<Seg>, k: nat, b: Seg)
    requires k < |l|
    ensures FreeBytes(Insert(l, k, b)) == FreeBytes(l) + 8 + b.size
  {
    if k == 0 {
      assert Insert(l, 0, b) == [l[0]] + ([b] + l[1..]);
      FreeBytesCons(l[0], [b] + l[1..]);
      FreeBytesCons(b, l[1..]);
    } else {
      assert Insert(l, k, b) == [l[0]] + Insert(l[1..], k - 1, b);
      FreeBytesInsert(l[1..], k - 1, b);
      FreeBytesCons(l[0], Insert(l[1..], k - 1, b));
    }
  }

  lemma FreeBytesMergeFront(l: seq<Seg>)
    requires l != []
    ensures FreeBytes(MergeAt(l, 0)) == FreeBytes(l)
  {
  }

  lemma MergeAtTail(l: seq<Seg>, i: nat)
    requires 0 < i < |l|
    ensures MergeAt(l, i) == [l[0]] + MergeAt(l[1..], i - 1)
  {
  }

  lemma {:induction false} FreeBytesMerge(l: seq<Seg>, i: nat)
    requires i < |l|
    ensures FreeBytes(MergeAt(l, i)) == FreeBytes(l)
  {
    if i == 0 {
      FreeBytesMergeFront(l);
    } else {
      MergeAtTail(l, i);
      FreeBytesMerge(l[1..], i - 1);
      FreeBytesCons(l[0], MergeAt(l[1..], i - 1));
    }
  }

  lemma {:induction false} LiveBytesRemove(live: set<Seg>, b: Seg)
    requires b in live
    ensures LiveBytes(live) == 8 + b.size + LiveBytes(live - {b})
    decreases |live|
  {
    var c :| c in live && LiveBytes(live) == 8 + c.size + LiveBytes(live - {c});
    if c != b {
      LiveBytesRemove(live - {c}, b);
      LiveBytesRemove(live - {b}, c);
      assert live - {c} - {b} == live - {b} - {c};
    }
  }

  /** Free sizes, live sizes and 8 bytes per header. */
  ghost function TotalBytes(s: State): nat { FreeBytes(s.free) + LiveBytes(s.live) }

  lemma MallocConserves(s: State, n: nat)
    requires Inv(s) && CanMalloc(s, n)
    ensures TotalBytes(Malloc(s, n)) == TotalBytes(s)
  {
    var k := FirstFit(s.free, n, 0);
    var b := Block(s, n);
    MallocInv(s, n);
    FreeBytesUpdate(s.free, k, Malloc(s, n).free[k]);
    LiveBytesRemove(s.live + {b}, b);
    assert s.live + {b} - {b} == s.live;
  }

  lemma FreeConserves(s: State, b: Seg)
    requires Inv(s) && b in s.live
    ensures TotalBytes(Free(s, b)) == TotalBytes(s)
  {
    var k := Slot(s.free, b.addr, 0);
    FreeBytesInsert(s.free, k, b);
    FreeBytesMerge(Insert(s.free, k, b), k + 1);
    FreeBytesMerge(MergeAt(Insert(s.free, k, b), k + 1), k);
    LiveBytesRemove(s.live, b);
  }

  // ---------- runs ----------

  /** A call of malloc, or of free on a payload pointer. */
  datatype Call = MallocCall(n: nat) | FreeCall(p: nat)

  datatype Outcome = Done(s: State) | Panic | Misuse

  ghost predicate IsLive(live: set<Seg>, p: nat) {
    exists b :: b in live && b.addr + 8 == p
  }

  /** The live block whose payload starts at p. */
  ghost function LiveAt(live: set<Seg>, p: nat): (b: Seg)
    requires IsLive(live, p)
    ensures b in live && b.addr + 8 == p
  {
    var b :| b in live && b.addr + 8 == p;
    b
  }

  lemma LiveAtIs(s: State, b: Seg)
    requires Inv(s) && b in s.live
    ensures IsLive(s.live, b.addr + 8) && LiveAt(s.live, b.addr + 8) == b
  {
    assert Opened(s);
  }

  ghost function Step(s: State, call: Call): Outcome
    requires s.free != []
  {
    match call
    case MallocCall(n) => if CanMalloc(s, n) then Done(Malloc(s, n)) else Panic
    case FreeCall(p) => if IsLive(s.live, p) then Done(Free(s, LiveAt(s.live, p))) else Misuse
  }

  ghost function Exec(s: State, calls: seq<Call>): Outcome
    requires s.free != []
    decreases |calls|
  {
    if calls == [] then Done(s) else
      var r := Step(s, calls[0]);
      if r.Done? then Exec(r.s, calls[1..]) else r
  }

  /** A run of one call is that call, and a run of two parts is the second part from where the first one ended. */
  lemma {:induction false} ExecConcat(s: State, a: seq<Call>, b: seq<Call>)
    requires Inv(s)
    ensures |a| == 1 ==> Exec(s, a) == Step(s, a[0])
    ensures var r := Exec(s, a);
            (r.Done? ==> Inv(r.s)) && Exec(s, a + b) == if r.Done? then Exec(r.s, b) else r
    decreases |a|
  {
    if a == [] {
      assert a + b == b;
    } else {
      assert (a + b)[1..] == a[1..] + b;
      StepKeeps(s, a[0]);
      var r := Step(s, a[0]);
      if r.Done? { ExecConcat(r.s, a[1..], b); }
    }
  }

  lemma StepKeeps(s: State, call: Call)
    requires Inv(s)
    ensures var r := Step(s, call);
            r.Done? ==> Inv(r.s) && r.s.base == s.base && r.s.limit == s.limit && TotalBytes(r.s) == TotalBytes(s)
  {
    match call
    case MallocCall(n) =>
      if CanMalloc(s, n) {
        MallocInv(s, n);
        MallocConserves(s, n);
      }
    case FreeCall(p) =>
      if IsLive(s.live, p) {
        FreeInv(s, LiveAt(s.live, p));
        FreeConserves(s, LiveAt(s.live, p));
      }
  }

  /** Every run keeps the invariant, the bounds of the heap and the byte total. */
  lemma {:induction false} RunKeeps(s: State, calls: seq<Call>)
    requires Inv(s)
    ensures var r := Exec(s, calls);
            r.Done? ==> Inv(r.s) && r.s.base == s.base && r.s.limit == s.limit && TotalBytes(r.s) == TotalBytes(s)
    decreases |calls|
  {
    if calls != [] {
      StepKeeps(s, calls[0]);
      var r := Step(s, calls[0]);
      if r.Done? { RunKeeps(r.s, calls[1..]); }
    }
  }

  /** Over any run from initialization the free list is the scan of what is not live, and its bytes plus the
      live bytes are the whole heap. */
  lemma RunCanonical(base: nat, limit: nat, calls: seq<Call>)
    requires base + 8 <= limit
    ensures var r := Exec(Init(base, limit), calls);
            r.Done? ==> Inv(r.s)
                        && Extents(r.s.free) == FreeRuns(base, limit, r.s.live)
                        && FreeBytes(r.s.free) + LiveBytes(r.s.live) == limit - base
                        && (r.s.live == {} ==> r.s == Init(base, limit))
  {
    InitInv(base, limit);
    RunKeeps(Init(base, limit), calls);
    assert FreeBytes(Init(base, limit).free) == limit - base + FreeBytes(Init(base, limit).free[1..]);
    assert TotalBytes(Init(base, limit)) == limit - base;
    var r := Exec(Init(base, limit), calls);
    if r.Done? {
      FreeListCanonical(r.s);
      if r.s.live == {} { SameLiveSameState(r.s, Init(base, limit)); }
    }
  }

  /** Two histories that leave the same blocks live leave the same free list, node for node. */
  lemma RunsAgree(base: nat, limit: nat, calls: seq<Call>, others: seq<Call>)
    requires base + 8 <= limit
    ensures var r := Exec(Init(base, limit), calls);
            var q := Exec(Init(base, limit), others);
            r.Done? && q.Done? && r.s.live == q.s.live ==> r == q
  {
    InitInv(base, limit);
    RunKeeps(Init(base, limit), calls);
    RunKeeps(Init(base, limit), others);
    var r, q := Exec(Init(base, limit), calls), Exec(Init(base, limit), others);
    if r.Done? && q.Done? && r.s.live == q.s.live {
      SameLiveSameState(r.s, q.s);
    }
  }

  // ---------- undoing ----------

  /** free gives back exactly the list malloc found, so the same request is served at the same address. */
  lemma FreeUndoesMalloc(s: State, n: nat)
    requires Inv(s) && CanMalloc(s, n)
    ensures Free(Malloc(s, n), Block(s, n)) == s
  {
    var b := Block(s, n);
    MallocInv(s, n);
    FreeInv(Malloc(s, n), b);
    assert s.live + {b} - {b} == s.live;
    SameLiveSameState(Free(Malloc(s, n), b), s);
  }

  ghost function FreeAll(s: State, bs: seq<Seg>): State
    requires s.free != []
    decreases |bs|
  {
    if bs == [] then s else
      var t := Free(s, bs[0]);
      FreeAll(t, bs[1..])
  }

  ghost predicate Distinct(bs: seq<Seg>) {
    forall i, j :: 0 <= i < j < |bs| ==> bs[i] != bs[j]
  }

  lemma {:induction false} FreeAllInv(s: State, bs: seq<Seg>)
    requires Inv(s) && Distinct(bs) && forall b :: b in bs ==> b in s.live
    ensures var t := FreeAll(s, bs);
            && Inv(t) && t.base == s.base && t.limit == s.limit
            && forall b :: b in t.live <==> b in s.live && b !in bs
    decreases |bs|
  {
    if bs != [] {
      var t := Free(s, bs[0]);
      FreeInv(s, bs[0]);
      forall b | b in bs[1..] ensures b in t.live { }
      FreeAllInv(t, bs[1..]);
      assert forall b :: b in bs <==> b == bs[0] || b in bs[1..];
    }
  }

  /** Freeing the same blocks in another order gives the same list. */
  lemma FreeOrderIrrelevant(s: State, bs: seq<Seg>, cs: seq<Seg>)
    requires Inv(s) && Distinct(bs) && Distinct(cs)
    requires forall b :: b in bs ==> b in s.live
    requires forall b :: b in bs <==> b in cs
    ensures FreeAll(s, bs) == FreeAll(s, cs)
  {
    FreeAllInv(s, bs);
    FreeAllInv(s, cs);
    assert FreeAll(s, bs).live == FreeAll(s, cs).live;
    SameLiveSameState(FreeAll(s, bs), FreeAll(s, cs));
  }

  /** A stretch of free addresses lies inside one segment, because neighbours are merged. */
  lemma FreeStretch(l: seq<Seg>, a: int, e: int)
    requires Spaced(l) && a < e
    requires forall x :: a <= x < e ==> InFree(l, x)
    ensures exists i :: 0 <= i < |l| && l[i].addr <= a && e <= l[i].End()
  {
    assert InFree(l, a);
    var i :| 0 <= i < |l| && l[i].Has(a);
    if l[i].End() < e {
      var x := l[i].End();
      assert InFree(l, x);
      forall j | 0 <= j < |l| ensures !l[j].Has(x) {
        if i < j { SpacedStrictly(l, i, j); }
      }
      assert false;
    }
  }

  /** Any part of the old free space, and the freed block, lies inside one new segment. */
  lemma FreeContains(s: State, b: Seg, seg: Seg)
    requires Inv(s) && b in s.live
    requires seg == b || seg in s.free
    ensures exists i :: 0 <= i < |Free(s, b).free| && Free(s, b).free[i].addr <= seg.addr
                        && seg.End() <= Free(s, b).free[i].End()
  {
    FreeInv(s, b);
    assert Opened(s) && Opened(Free(s, b));
    forall x: int | seg.addr <= x < seg.End() ensures InFree(Free(s, b).free, x) {
      assert seg.Has(x);
      assert seg != b ==> InFree(s.free, x);
      ReleaseHas(s.free, b, x);
    }
    FreeStretch(Free(s, b).free, seg.addr, seg.End());
  }

  lemma FreeServes(s: State, b: Seg, seg: Seg, n: nat)
    requires Inv(s) && b in s.live && (seg == b || seg in s.free) && Fits(seg, n)
    ensures CanMalloc(Free(s, b), n)
  {
    FitsIffPlaceable(seg, n);
    FreeContains(s, b, seg);
    PlaceInside(Free(s, b), seg, n, HeaderFor(seg, n));
  }

  /** Freeing a block never makes a request fail that could be served before, and afterwards every request
      small enough for the freed block can be served. */
  lemma FreeKeepsCapacity(s: State, b: Seg, n: nat)
    requires Inv(s) && b in s.live
    requires CanMalloc(s, n) || n + 8 <= b.size
    ensures CanMalloc(Free(s, b), n)
  {
    if CanMalloc(s, n) {
      FreeServes(s, b, s.free[FirstFit(s.free, n, 0)], n);
    } else {
      assert b.addr % 8 == 0 by { assert Opened(s); }
      FitsIffPlaceable(b, n);
      FreeServes(s, b, b, n);
    }
  }

  lemma PlaceInside(s: State, seg: Seg, n: nat, h: int)
    requires Placement(seg, n, h)
    requires exists i :: 0 <= i < |s.free| && s.free[i].addr <= seg.addr && seg.End() <= s.free[i].End()
    ensures CanMalloc(s, n)
  {
  }
}
