/** The exchange-based spinlock with any number of threads, one access to the lock word per step. */
module Spinlock {

  datatype Pc =
    | Idle
    | LockXchg              // spin_lock: about to exchange
    | LockAssert(got: int)  // spin_lock: exchanged, about to assert that the word is 1
    | LockWon               // spin_lock: out of the loop, about to assert once more
    | TryXchg               // spin_trylock: about to exchange
    | TryAssert(got: int)   // spin_trylock: exchanged, about to assert
    | Holding
    | UnlockTest            // spin_unlock: about to test for a lock not held
    | UnlockStore           // spin_unlock: about to store 0
    | Panicked

  datatype State = State(locked: int, pcs: seq<Pc>)

  /** What an idle thread starts; other threads take their next step. */
  datatype Event = Event(thread: nat, blocking: bool)

  function ThreadStep(pc: Pc, locked: int, blocking: bool): (Pc, int) {
    match pc
    case Idle => (if blocking then LockXchg else TryXchg, locked)
    case LockXchg => (LockAssert(locked), 1)
    case LockAssert(got) => (if locked != 1 then Panicked else if got != 0 then LockXchg else LockWon, locked)
    case LockWon => (if locked != 1 then Panicked else Holding, locked)
    case TryXchg => (TryAssert(locked), 1)
    case TryAssert(got) => (if locked != 1 then Panicked else if got == 0 then Holding else Idle, locked)
    case Holding => (UnlockTest, locked)
    case UnlockTest => (if locked == 0 then Panicked else UnlockStore, locked)
    case UnlockStore => (Idle, 0)
    case Panicked => (Panicked, locked)
  }

  function Next(s: State, e: Event): (r: State)
    ensures |r.pcs| == |s.pcs|
  {
    if e.thread < |s.pcs| then
      var (pc, locked) := ThreadStep(s.pcs[e.thread], s.locked, e.blocking);
      State(locked, s.pcs[e.thread := pc])
    else s
  }

  function Run(s: State, events: seq<Event>): (r: State)
    ensures |r.pcs| == |s.pcs|
    decreases |events|
  {
    if events == [] then s else Run(Next(s, events[0]), events[1..])
  }

  function Init(n: nat): State { State(0, seq(n, _ => Idle)) }

  /** The thread won the exchange and has not stored 0 yet. */
  predicate Owns(pc: Pc) {
    pc == LockAssert(0) || pc == TryAssert(0) || pc.LockWon? || pc.Holding? || pc.UnlockTest? || pc.UnlockStore?
  }

  ghost predicate SomeOwner(s: State) { exists t :: 0 <= t < |s.pcs| && Owns(s.pcs[t]) }

  ghost predicate OneOwner(s: State) {
    forall t, u :: 0 <= t < |s.pcs| && 0 <= u < |s.pcs| && Owns(s.pcs[t]) && Owns(s.pcs[u]) ==> t == u
  }

  /** The word is 1 exactly when one thread owns the lock. */
  ghost predicate Inv(s: State) {
    && (s.locked == 0 || s.locked == 1)
    && (s.locked == 1 <==> SomeOwner(s))
    && OneOwner(s)
  }

  lemma InvStep(s: State, e: Event)
    requires Inv(s)
    ensures Inv(Next(s, e))
  {
    var t := Next(s, e);
    if e.thread < |s.pcs| {
      var i := e.thread;
      assert forall u :: 0 <= u < |s.pcs| && u != i ==> t.pcs[u] == s.pcs[u];
      if SomeOwner(s) {
        var o :| 0 <= o < |s.pcs| && Owns(s.pcs[o]);
        assert o != i ==> Owns(t.pcs[o]);
        assert Owns(t.pcs[i]) ==> SomeOwner(t);
      } else {
        assert !Owns(s.pcs[i]);
        assert Owns(t.pcs[i]) ==> SomeOwner(t);
      }
    }
  }

  /** A step reaches a panic exactly when a thread that lost its exchange finds the lock released before its
      assertion: never in a thread that won, and never in spin_unlock. */
  lemma PanicIff(s: State, e: Event)
    requires Inv(s) && e.thread < |s.pcs| && !s.pcs[e.thread].Panicked?
    ensures Next(s, e).pcs[e.thread].Panicked?
            <==> s.locked == 0 && (s.pcs[e.thread].LockAssert? || s.pcs[e.thread].TryAssert?)
    ensures Owns(s.pcs[e.thread]) ==> !Next(s, e).pcs[e.thread].Panicked?
  {
    if Owns(s.pcs[e.thread]) { assert SomeOwner(s); }
  }

  lemma {:induction false} RunInv(s: State, events: seq<Event>)
    requires Inv(s)
    ensures Inv(Run(s, events))
    decreases |events|
  {
    if events != [] {
      InvStep(s, events[0]);
      RunInv(Next(s, events[0]), events[1..]);
    }
  }

  /** Mutual exclusion over every interleaving of any number of threads. */
  lemma MutualExclusion(n: nat, events: seq<Event>)
    ensures var s := Run(Init(n), events);
            && Inv(s)
            && forall t, u :: 0 <= t < |s.pcs| && 0 <= u < |s.pcs| && s.pcs[t].Holding? && s.pcs[u].Holding? ==> t == u
  {
    RunInv(Init(n), events);
  }

  // ---------- what the calls return ----------

  predicate InSpinLock(pc: Pc) { pc.LockXchg? || pc.LockAssert? || pc.LockWon? }

  /** Steps of other threads. */
  predicate Others(t: nat, events: seq<Event>) { forall i :: 0 <= i < |events| ==> events[i].thread != t }

  lemma {:induction false} OthersLeave(s: State, t: nat, events: seq<Event>)
    requires t < |s.pcs| && Others(t, events)
    ensures Run(s, events).pcs[t] == s.pcs[t]
    decreases |events|
  {
    if events != [] { OthersLeave(Next(s, events[0]), t, events[1..]); }
  }

  /** spin_lock does not return without the lock: a thread found in it and idle later held the lock in between. */
  lemma {:induction false} LockReturnsHolding(s: State, t: nat, events: seq<Event>)
    requires t < |s.pcs| && InSpinLock(s.pcs[t]) && Run(s, events).pcs[t].Idle?
    ensures exists k :: 0 <= k <= |events| && Run(s, events[..k]).pcs[t].Holding?
    decreases |events|
  {
    var r := Next(s, events[0]);
    if r.pcs[t].Holding? {
      assert events[..1][1..] == [];
      assert Run(s, events[..1]) == r;
    } else {
      if r.pcs[t].Panicked? {
        PanicStays(r, t, events[1..]);
      }
      LockReturnsHolding(r, t, events[1..]);
      var k :| 0 <= k <= |events[1..]| && Run(r, events[1..][..k]).pcs[t].Holding?;
      assert events[..k + 1][1..] == events[1..][..k];
      assert Run(s, events[..k + 1]).pcs[t].Holding?;
    }
  }

  lemma {:induction false} PanicStays(s: State, t: nat, events: seq<Event>)
    requires t < |s.pcs| && s.pcs[t].Panicked?
    ensures Run(s, events).pcs[t].Panicked?
    decreases |events|
  {
    if events != [] { PanicStays(Next(s, events[0]), t, events[1..]); }
  }

  /** Others take some steps, then thread t takes one. */
  function Turn(s: State, others: seq<Event>, e: Event): (r: State)
    ensures |r.pcs| == |s.pcs|
  {
    Next(Run(s, others), e)
  }

  /** A call by an idle thread: it enters, exchanges and asserts, with any steps of other threads before each of the
      three.  What it gets is decided by whether some thread owned the lock at the exchange: if none did, it wins;
      otherwise spin_trylock comes back without the lock and spin_lock exchanges again, except that both panic when
      the lock is released before the assertion. */
  lemma CallOutcome(s: State, t: nat, blocking: bool, o1: seq<Event>, o2: seq<Event>, o3: seq<Event>, e2: Event, e3: Event)
    requires Inv(s) && t < |s.pcs| && s.pcs[t].Idle?
    requires Others(t, o1) && Others(t, o2) && Others(t, o3) && e2.thread == e3.thread == t
    ensures var before := Run(Turn(s, o1, Event(t, blocking)), o2);
            var asserting := Run(Next(before, e2), o3);
            var pc := Next(asserting, e3).pcs[t];
            if !SomeOwner(before) then pc == if blocking then LockWon else Holding
            else if asserting.locked == 1 then pc == if blocking then LockXchg else Idle
            else pc.Panicked?
  {
    var s1 := Run(s, o1);
    RunInv(s, o1);
    OthersLeave(s, t, o1);
    var s2 := Next(s1, Event(t, blocking));
    InvStep(s1, Event(t, blocking));
    var before := Run(s2, o2);
    RunInv(s2, o2);
    OthersLeave(s2, t, o2);
    var s3 := Next(before, e2);
    InvStep(before, e2);
    RunInv(s3, o3);
    OthersLeave(s3, t, o3);
    var asserting := Run(s3, o3);
    assert Owns(asserting.pcs[t]) ==> SomeOwner(asserting);
  }

  /** The winner of spin_lock's exchange comes out of it with the lock. */
  lemma WinnerHolds(s: State, t: nat, others: seq<Event>, e: Event)
    requires Inv(s) && t < |s.pcs| && s.pcs[t].LockWon? && Others(t, others) && e.thread == t
    ensures Turn(s, others, e).pcs[t].Holding?
  {
    RunInv(s, others);
    OthersLeave(s, t, others);
    assert Owns(Run(s, others).pcs[t]);
    assert SomeOwner(Run(s, others));
  }

  /** The holder's call of spin_unlock: three steps, with any steps of other threads before each, after which it is
      idle and the word is 0; until then the word stays 1. */
  lemma UnlockReleases(s: State, t: nat, o1: seq<Event>, o2: seq<Event>, o3: seq<Event>, e1: Event, e2: Event, e3: Event)
    requires Inv(s) && t < |s.pcs| && s.pcs[t].Holding? && e1.thread == e2.thread == e3.thread == t
    requires Others(t, o1) && Others(t, o2) && Others(t, o3)
    ensures var storing := Run(Turn(Turn(s, o1, e1), o2, e2), o3);
            storing.locked == 1 && Next(storing, e3).locked == 0 && Next(storing, e3).pcs[t].Idle?
  {
    var s1 := Turn(s, o1, e1);
    RunInv(s, o1);
    OthersLeave(s, t, o1);
    InvStep(Run(s, o1), e1);
    var s2 := Turn(s1, o2, e2);
    RunInv(s1, o2);
    OthersLeave(s1, t, o2);
    assert Owns(Run(s1, o2).pcs[t]);
    assert SomeOwner(Run(s1, o2));
    InvStep(Run(s1, o2), e2);
    RunInv(s2, o3);
    OthersLeave(s2, t, o3);
    assert Owns(Run(s2, o3).pcs[t]);
    assert SomeOwner(Run(s2, o3));
  }

  /** spin_unlock does not look at who calls it.  In any state, even one where the caller never had the lock: it panics
      exactly when it finds the word 0, and otherwise makes it 0, whoever owns the lock. */
  lemma UnlockByAnyone(s: State, t: nat, o1: seq<Event>, o2: seq<Event>, e1: Event, e2: Event)
    requires t < |s.pcs| && s.pcs[t].UnlockTest? && e1.thread == e2.thread == t && Others(t, o1) && Others(t, o2)
    ensures Turn(s, o1, e1).pcs[t].Panicked? <==> Run(s, o1).locked == 0
    ensures Run(s, o1).locked != 0 ==> Turn(Turn(s, o1, e1), o2, e2).locked == 0 && Turn(Turn(s, o1, e1), o2, e2).pcs[t].Idle?
  {
    OthersLeave(s, t, o1);
    OthersLeave(Turn(s, o1, e1), t, o2);
  }

  // ---------- the panic ----------

  /** Some interleaving of n threads leads to s. */
  ghost predicate Reachable(n: nat, s: State) {
    exists events :: Run(Init(n), events) == s
  }

  lemma {:induction false} RunSnoc(s: State, events: seq<Event>, e: Event)
    ensures Run(s, events + [e]) == Next(Run(s, events), e)
    decreases |events|
  {
    if events == [] {
      assert Run(Next(s, e), []) == Next(s, e);
    } else {
      assert (events + [e])[1..] == events[1..] + [e];
      RunSnoc(Next(s, events[0]), events[1..], e);
    }
  }

  lemma ReachableStep(n: nat, s: State, e: Event) returns (t: State)
    requires Reachable(n, s)
    ensures t == Next(s, e) && Reachable(n, t)
  {
    var events :| Run(Init(n), events) == s;
    RunSnoc(Init(n), events, e);
    t := Next(s, e);
  }

  lemma AboutToStore(n: nat) returns (s: State)
    requires 2 <= n
    ensures Reachable(n, s) && |s.pcs| == n && s.locked == 1 && s.pcs[0].UnlockStore? && s.pcs[1].Idle?
  {
    var holder := Event(0, true);
    s := Winner(n);
    s := ReachableStep(n, s, holder);
    s := ReachableStep(n, s, holder);
  }

  lemma Winner(n: nat) returns (s: State)
    requires 2 <= n
    ensures Reachable(n, s) && |s.pcs| == n && s.locked == 1 && s.pcs[0].Holding? && s.pcs[1].Idle?
  {
    var holder := Event(0, true);
    assert Run(Init(n), []) == Init(n);
    s := ReachableStep(n, Init(n), holder);
    s := ReachableStep(n, s, holder);
    s := ReachableStep(n, s, holder);
    s := ReachableStep(n, s, holder);
  }

  /** The loser of an exchange can panic although every thread unlocks only what it holds: the holder stores 0
      between the loser's exchange and its assertion. */
  lemma LoserPanics(n: nat) returns (s: State)
    requires 2 <= n
    ensures Reachable(n, s) && |s.pcs| == n && s.pcs[1].Panicked?
  {
    var holder, loser := Event(0, true), Event(1, true);
    s := AboutToStore(n);
    s := ReachableStep(n, s, loser);
    s := ReachableStep(n, s, loser);
    s := ReachableStep(n, s, holder);
    s := ReachableStep(n, s, loser);
  }

  ghost predicate SomePanicked(s: State) { exists t :: 0 <= t < |s.pcs| && s.pcs[t].Panicked? }

  /** A thread that is alone wins every exchange. */
  ghost predicate Alone(s: State) {
    && |s.pcs| <= 1 && Inv(s)
    && forall t :: 0 <= t < |s.pcs| ==>
         var pc := s.pcs[t];
         !pc.Panicked? && (pc.LockAssert? || pc.TryAssert? ==> pc.got == 0)
  }

  lemma {:induction false} AloneRun(s: State, events: seq<Event>)
    requires Alone(s)
    ensures Alone(Run(s, events))
    decreases |events|
  {
    if events != [] {
      InvStep(s, events[0]);
      if events[0].thread < |s.pcs| {
        assert SomeOwner(s) <==> Owns(s.pcs[0]);
        PanicIff(s, events[0]);
      }
      AloneRun(Next(s, events[0]), events[1..]);
    }
  }

  /** Some interleaving of threads that unlock only what they hold leads to a panic exactly when there are at least
      two of them. */
  lemma PanicReachableIff(n: nat)
    ensures (exists s :: Reachable(n, s) && SomePanicked(s)) <==> 2 <= n
  {
    if 2 <= n {
      var s := LoserPanics(n);
      assert SomePanicked(s);
    } else {
      forall s | Reachable(n, s) ensures !SomePanicked(s) {
        var events :| Run(Init(n), events) == s;
        AloneRun(Init(n), events);
      }
    }
  }
}
