/** Whole runs of the allocator in memory: they do what the runs on values do, and a client's bytes stay put. */
module HeapClient {
  import opened Unsigned
  import opened HeapState
  import opened HeapRuns
  import opened Words
  import opened Memory
  import opened Heap

  /** Every call of the run is within malloc's and free's contracts. */
  ghost predicate Runnable(s: State, calls: seq<Call>)
    requires s.free != []
    decreases |calls|
  {
    calls != [] ==>
      && (match calls[0]
          case MallocCall(n) => n < MODULUS && NoneMisplaced(s.free, n)
          case FreeCall(p) => IsLive(s.live, p))
      && (Step(s, calls[0]).Done? ==> Runnable(Step(s, calls[0]).s, calls[1..]))
  }

  /** The block is live throughout the run. */
  ghost predicate Outlives(s: State, calls: seq<Call>, b: Seg)
    requires s.free != []
    decreases |calls|
  {
    && b in s.live
    && (calls != [] && Step(s, calls[0]).Done? ==> Outlives(Step(s, calls[0]).s, calls[1..], b))
  }

  ghost predicate SameBlock(m: seq<Byte>, m': seq<Byte>, b: Seg) {
    b.End() <= |m| == |m'| && m'[b.addr..b.End()] == m[b.addr..b.End()]
  }

  lemma SameBlockThrough(m: seq<Byte>, m1: seq<Byte>, m2: seq<Byte>, b: Seg)
    requires SameBlock(m, m1, b) && SameBlock(m1, m2, b)
    ensures SameBlock(m, m2, b)
  {
  }

  /** What one call leaves to the rest of the run. */
  lemma RunUnfolds(s: State, calls: seq<Call>)
    requires s.free != [] && Runnable(s, calls) && calls != []
    ensures Runnable(s, calls[..1])
    ensures var r := Step(s, calls[0]);
            if r.Done? then
              && Runnable(r.s, calls[1..]) && Exec(s, calls) == Exec(r.s, calls[1..])
              && forall b :: Outlives(s, calls, b) ==> b in s.live && b in r.s.live && Outlives(r.s, calls[1..], b)
            else
              Exec(s, calls) == r && forall b :: Outlives(s, calls, b) ==> b in s.live
  {
    assert calls[..1][0] == calls[0];
  }

  /** One call in memory does what it does on values and touches no byte of a block live before and after. */
  method RunCall(h: Allocator, call: Call) returns (ok: bool)
    requires h.Valid() && Runnable(h.st, [call])
    modifies h`st, h.ram
    ensures h.Valid() && (!ok ==> h.st == old(h.st))
    ensures Step(old(h.st), call) == if ok then Done(h.st) else Panic
    ensures forall b :: b in old(h.st).live && b in h.st.live ==> SameBlock(old(h.ram[..]), h.ram[..], b)
  {
    ghost var s, m := h.st, h.ram[..];
    match call {
      case MallocCall(n) =>
        var p;
        ok, p := h.Malloc(n);
        forall b | b in s.live ensures SameBlock(m, h.ram[..], b) {
          InvBounds(s);
          KeptInBlock(m, h.ram[..], s, b);
        }
      case FreeCall(p) =>
        ok := h.Free(p);
        forall b | b in h.st.live ensures SameBlock(m, h.ram[..], b) {
          InvBounds(h.st);
          KeptInBlock(m, h.ram[..], h.st, b);
        }
    }
  }

  /** A run in memory ends in the state of the run on values, or in malloc's panic when that does, and every block
      that is live throughout keeps all its bytes, header and payload. */
  method RunCalls(h: Allocator, calls: seq<Call>) returns (ok: bool)
    requires h.Valid() && Runnable(h.st, calls)
    modifies h`st, h.ram
    ensures h.Valid()
    ensures Exec(old(h.st), calls) == if ok then Done(h.st) else Panic
    ensures forall b :: Outlives(old(h.st), calls, b) ==> SameBlock(old(h.ram[..]), h.ram[..], b)
    decreases |calls|
  {
    ghost var s, m := h.st, h.ram[..];
    if calls == [] {
      InvBounds(s);
      return true;
    }
    RunUnfolds(s, calls);
    assert calls[..1] == [calls[0]];
    ok := RunCall(h, calls[0]);
    if !ok {
      return;
    }
    ghost var m1 := h.ram[..];
    ok := RunCalls(h, calls[1..]);
    forall b | Outlives(s, calls, b) ensures SameBlock(m, h.ram[..], b) {
      SameBlockThrough(m, m1, h.ram[..], b);
    }
  }
}
