/** A program that makes sleep futures and awaits them one after another.  Their contexts come from the allocator and go
    back to it when an await ends, but the list keeps pointing at them, and the timer handler goes on reading the
    first entry. */
module Session {
  import opened Clock
  import opened Await
  import opened Unsigned
  import opened Contexts
  import H = HeapState
  import R = HeapRuns

  /** targets holds what was last written to each context, first is the context of entry 0 of the list, now that of the
      future awaited, and taken counts the awaits begun while the first entry's context belonged to a different
      future.  A program that runs out of memory is stopped by malloc's panic. */
  datatype Session = Session(s: Await.State, heap: H.State, targets: map<nat, nat>, first: nat, now: nat, taken: nat,
                             stopped: bool)

  /** The main thread makes and awaits futures between two awaits; interrupts and steps of await come at any time. */
  datatype Action = Event(e: Await.Event) | Create(seconds: nat) | Await(ctx: nat)

  /** Power-on: tick 0, no future registered, no await under way, the heap just initialized. */
  function Boot(base: nat, limit: nat): (u: Session)
    requires base + 8 <= limit
    ensures H.Inv(u.heap)
  {
    H.InitInv(base, limit);
    Session(State(0, [], false, 0, Finished, 0), H.Init(base, limit), map[], 0, 0, 0, false)
  }

  ghost function Do(u: Session, a: Action): (t: Session)
    requires H.Inv(u.heap)
    ensures H.Inv(t.heap) && u.s.time <= t.s.time && u.taken <= t.taken
  {
    if u.stopped then u else
      match a
      case Event(e) => DoEvent(u, e)
      case Create(seconds) => if u.s.pc.Finished? then DoCreate(u, seconds) else u
      case Await(ctx) => if u.s.pc.Finished? && R.IsLive(u.heap.live, ctx) && ctx in u.targets then DoAwait(u, ctx) else u
  }

  /** The first registration settles what entry 0 points at; the end of an await frees the context. */
  ghost function DoEvent(u: Session, e: Await.Event): (t: Session)
    requires H.Inv(u.heap)
    ensures H.Inv(t.heap) && u.s.time <= t.s.time && u.taken == t.taken
  {
    NextKeeps(u.s, e);
    var s := Next(u.s, e);
    u.(s := s,
       heap := if !u.s.pc.Finished? && s.pc.Finished? then FreeContext(u.heap, u.now) else u.heap,
       first := if u.s.futures == [] then u.now else u.first)
  }

  ghost function FreeContext(heap: H.State, ctx: nat): (t: H.State)
    requires H.Inv(heap)
    ensures H.Inv(t)
  {
    if R.IsLive(heap.live, ctx) then
      H.FreeInv(heap, R.LiveAt(heap.live, ctx));
      H.Free(heap, R.LiveAt(heap.live, ctx))
    else heap
  }

  function NextContext(heap: H.State): nat
    requires H.CanMalloc(heap, CONTEXT)
  {
    H.Block(heap, CONTEXT).addr + 8
  }

  /** Writing the deadline shows through entry 0 when the new context takes the place of the first one. */
  ghost function DoCreate(u: Session, seconds: nat): (t: Session)
    requires H.Inv(u.heap)
    ensures H.Inv(t.heap) && u.s.time == t.s.time && u.taken == t.taken
  {
    if !H.CanMalloc(u.heap, CONTEXT) then u.(stopped := true) else
      H.MallocInv(u.heap, CONTEXT);
      var ctx, d := NextContext(u.heap), Deadline(u.s.time, seconds);
      u.(s := if u.s.futures != [] && ctx == u.first then u.s.(futures := u.s.futures[0 := d]) else u.s,
         heap := H.Malloc(u.heap, CONTEXT),
         targets := u.targets[ctx := d])
  }

  /** Some future other than ctx, made and not awaited yet, lies where the context of the first one was. */
  ghost predicate Takes(u: Session, ctx: nat) { u.s.futures != [] && R.IsLive(u.heap.live, u.first) && ctx != u.first }

  ghost function DoAwait(u: Session, ctx: nat): Session
    requires ctx in u.targets
  {
    u.(s := u.s.(target := u.targets[ctx], pc := Register, late := 0),
       now := ctx,
       taken := if Takes(u, ctx) then u.taken + 1 else u.taken)
  }

  ghost function Play(u: Session, actions: seq<Action>): (t: Session)
    requires H.Inv(u.heap)
    ensures H.Inv(t.heap)
    decreases |actions|
  {
    if actions == [] then u else Play(Do(u, actions[0]), actions[1..])
  }

  /** How often the tick counter has wrapped since power-on. */
  function Wraps(u: Session): nat { u.s.time / MODULUS }

  lemma {:induction false} PlayGrows(u: Session, actions: seq<Action>)
    requires H.Inv(u.heap)
    ensures u.s.time <= Play(u, actions).s.time && u.taken <= Play(u, actions).taken
    decreases |actions|
  {
    if actions != [] {
      PlayGrows(Do(u, actions[0]), actions[1..]);
    }
  }

  lemma {:induction false} PlayConcat(u: Session, a: seq<Action>, b: seq<Action>)
    requires H.Inv(u.heap)
    ensures Play(u, a + b) == Play(Play(u, a), b)
    decreases |a|
  {
    if a == [] {
      assert a + b == b;
    } else {
      assert (a + b)[1..] == a[1..] + b;
      PlayConcat(Do(u, a[0]), a[1..], b);
    }
  }

  lemma PlayCons(u: Session, a: Action, actions: seq<Action>)
    requires H.Inv(u.heap)
    ensures Play(u, [a] + actions) == Play(Do(u, a), actions)
  {
    assert ([a] + actions)[1..] == actions;
  }

  // ---------- every await is prompt ----------

  /** The contexts of futures that are not finished, and entry 0 of the list, show their deadlines. */
  ghost predicate Linked(u: Session) {
    && (forall c: nat :: R.IsLive(u.heap.live, c) ==> c in u.targets && u.targets[c] < MODULUS)
    && (u.s.futures != [] ==> u.first in u.targets && u.s.futures[0] == u.targets[u.first] < MODULUS)
    && (!u.s.pc.Finished? ==> R.IsLive(u.heap.live, u.now) && u.targets[u.now] == u.s.target)
  }

  /** Entry 0 is due, or it is the future awaited now, or it is a future made but not awaited yet. */
  ghost predicate FirstDue(u: Session) {
    u.s.futures == [] || Expired(u.s.time, u.s.futures[0])
    || (if u.s.pc.Finished? then R.IsLive(u.heap.live, u.first) else u.first == u.now)
  }

  ghost predicate Quick(u: Session) {
    && H.Inv(u.heap) && Linked(u) && FirstDue(u) && u.s.late <= 1
    && (u.s.pc.Finished? || AtOnce(u.s) || (Prompt(u.s) && Covered(u.s)))
  }

  lemma LiveAfterFree(heap: H.State, ctx: nat)
    requires H.Inv(heap)
    ensures forall c: nat :: R.IsLive(FreeContext(heap, ctx).live, c) ==> R.IsLive(heap.live, c)
  {
  }

  lemma LinkedEvent(u: Session, e: Await.Event)
    requires H.Inv(u.heap) && Linked(u)
    ensures Linked(DoEvent(u, e))
  {
    NextKeeps(u.s, e);
    LiveAfterFree(u.heap, u.now);
  }

  lemma FirstDueEvent(u: Session, e: Await.Event)
    requires H.Inv(u.heap) && Linked(u) && FirstDue(u) && SameRound(u.s.time, Next(u.s, e).time)
    ensures FirstDue(DoEvent(u, e))
  {
    NextKeeps(u.s, e);
    TickGrows(u.s.time, Next(u.s, e).time, Next(u.s, e).time);
  }

  lemma QuickEvent(u: Session, e: Await.Event)
    requires Quick(u) && SameRound(u.s.time, Next(u.s, e).time)
    ensures Quick(DoEvent(u, e))
  {
    LinkedEvent(u, e);
    FirstDueEvent(u, e);
    NextKeeps(u.s, e);
    if AtOnce(u.s) {
      AtOnceStep(u.s, e);
    } else if !u.s.pc.Finished? {
      PromptStep(u.s, e);
    }
  }

  lemma LiveAfterMalloc(heap: H.State, c: nat)
    requires H.Inv(heap) && H.CanMalloc(heap, CONTEXT)
    ensures R.IsLive(H.Malloc(heap, CONTEXT).live, c) <==> R.IsLive(heap.live, c) || c == NextContext(heap)
  {
    var t := H.Malloc(heap, CONTEXT);
    assert H.Block(heap, CONTEXT) in t.live;
    if R.IsLive(heap.live, c) {
      var b :| b in heap.live && b.addr + 8 == c;
      assert b in t.live;
    }
  }

  lemma QuickCreate(u: Session, seconds: nat)
    requires Quick(u) && u.s.pc.Finished?
    ensures Quick(DoCreate(u, seconds))
  {
    if H.CanMalloc(u.heap, CONTEXT) {
      forall c: nat
        ensures R.IsLive(DoCreate(u, seconds).heap.live, c) <==> R.IsLive(u.heap.live, c) || c == NextContext(u.heap)
      {
        LiveAfterMalloc(u.heap, c);
      }
    }
  }

  lemma QuickDo(u: Session, a: Action)
    requires Quick(u) && SameRound(u.s.time, Do(u, a).s.time) && Do(u, a).taken == u.taken
    ensures Quick(Do(u, a))
  {
    if !u.stopped {
      match a
      case Event(e) => QuickEvent(u, e);
      case Create(seconds) => if u.s.pc.Finished? { QuickCreate(u, seconds); }
      case Await(ctx) =>
    }
  }

  lemma {:induction false} QuickPlay(u: Session, actions: seq<Action>)
    requires Quick(u) && SameRound(u.s.time, Play(u, actions).s.time) && Play(u, actions).taken == u.taken
    ensures Quick(Play(u, actions))
    decreases |actions|
  {
    if actions != [] {
      var t := Do(u, actions[0]);
      PlayGrows(t, actions[1..]);
      TickGrows(u.s.time, t.s.time, Play(u, actions).s.time);
      QuickDo(u, actions[0]);
      QuickPlay(t, actions[1..]);
    }
  }

  // ---------- the place of a finished future ----------

  lemma {:induction false} SlotsPlay(u: Session, actions: seq<Action>)
    requires H.Inv(u.heap) && AllInSlots(u.heap)
    ensures var t := Play(u, actions);
            AllInSlots(t.heap) && t.heap.base == u.heap.base && t.heap.limit == u.heap.limit
    decreases |actions|
  {
    if actions != [] {
      if H.CanMalloc(u.heap, CONTEXT) { MallocInSlot(u.heap); }
      SlotsPlay(Do(u, actions[0]), actions[1..]);
    }
  }

  /** A context keeps its deadline after it is freed until another future is made in its very place: no block ever
      handed out later overlaps it in part, and no header of the heap ever lies on it. */
  lemma ContextsWhole(base: nat, limit: nat, actions: seq<Action>, more: seq<Action>, c: H.Seg)
    requires base + 8 <= limit && c in Play(Boot(base, limit), actions).heap.live
    ensures var heap := Play(Boot(base, limit), actions + more).heap;
            && (forall b :: b in heap.live ==> b == c || H.Disjoint(b, c))
            && (forall k :: 0 <= k < |heap.free| ==>
                  heap.free[k].addr + 8 <= c.addr + 8 || c.addr + 8 + CONTEXT <= heap.free[k].addr)
  {
    var u := Boot(base, limit);
    SlotsPlay(u, actions);
    H.InvBounds(Play(u, actions).heap);
    PlayConcat(u, actions, more);
    SlotsPlay(Play(u, actions), more);
    ContextKept(Play(u, actions + more).heap, c);
  }

  // ---------- too little room for two contexts ----------

  ghost predicate RoomForOne(base: nat, limit: nat)
    requires base + 8 <= limit
  {
    H.CanMalloc(H.Init(base, limit), CONTEXT)
  }

  ghost predicate RoomForTwo(base: nat, limit: nat)
    requires base + 8 <= limit
  {
    RoomForOne(base, limit) && H.CanMalloc(H.Malloc(H.Init(base, limit), CONTEXT), CONTEXT)
  }

  lemma RoomIn64Bytes(base: nat, limit: nat)
    requires base + 64 <= limit
    ensures RoomForTwo(base, limit)
  {
    var s := H.Init(base, limit);
    H.RoomFits(s.free[0], CONTEXT);
    H.MallocShape(s, CONTEXT);
    H.RoomFits(H.Malloc(s, CONTEXT).free[0], CONTEXT);
  }

  /** The heap as initialized, or with the one context it has room for. */
  ghost predicate OneAtATime(u: Session, base: nat, limit: nat)
    requires base + 8 <= limit
  {
    var s := H.Init(base, limit);
    u.taken == 0 && (u.heap == s || (RoomForOne(base, limit) && u.heap == H.Malloc(s, CONTEXT)))
  }

  lemma OneDo(u: Session, a: Action, base: nat, limit: nat)
    requires base + 8 <= limit && !RoomForTwo(base, limit) && OneAtATime(u, base, limit) && H.Inv(u.heap)
    ensures OneAtATime(Do(u, a), base, limit)
  {
    var s := H.Init(base, limit);
    H.InitInv(base, limit);
    if u.heap != s {
      var b := H.Block(s, CONTEXT);
      assert u.heap.live == {b};
      R.LiveAtIs(u.heap, b);
      R.FreeUndoesMalloc(s, CONTEXT);
    }
  }

  lemma {:induction false} OnePlay(u: Session, actions: seq<Action>, base: nat, limit: nat)
    requires base + 8 <= limit && !RoomForTwo(base, limit) && OneAtATime(u, base, limit) && H.Inv(u.heap)
    ensures OneAtATime(Play(u, actions), base, limit)
    decreases |actions|
  {
    if actions != [] {
      OneDo(u, actions[0], base, limit);
      OnePlay(Do(u, actions[0]), actions[1..], base, limit);
    }
  }

  lemma {:induction false} NonePlay(u: Session, actions: seq<Action>)
    requires H.Inv(u.heap) && u.heap.live == {} && u.s.pc.Finished? && u.s.late == 0
    requires !H.CanMalloc(u.heap, CONTEXT)
    ensures Play(u, actions).s.late == 0
    decreases |actions|
  {
    if actions != [] { NonePlay(Do(u, actions[0]), actions[1..]); }
  }

  // ---------- late awaits ----------

  function Events(events: seq<Await.Event>): seq<Action> {
    seq(|events|, i requires 0 <= i < |events| => Event(events[i]))
  }

  lemma EventIs(u: Session, e: Await.Event)
    requires H.Inv(u.heap) && !u.stopped
    ensures var t := Do(u, Event(e));
            t.s == Next(u.s, e) && t.taken == u.taken && t.targets == u.targets && !t.stopped
            && (u.s.pc.Finished? ==> t.heap == u.heap && t.s.pc.Finished?)
  {
  }

  /** Interrupts and steps of an await. */
  lemma {:induction false} PlayEvents(u: Session, events: seq<Await.Event>)
    requires H.Inv(u.heap) && !u.stopped
    ensures var t := Play(u, Events(events));
            t.s == Run(u.s, events) && t.taken == u.taken && t.targets == u.targets && !t.stopped
            && (u.s.pc.Finished? ==> t.heap == u.heap)
    decreases |events|
  {
    if events != [] {
      assert Events(events)[0] == Event(events[0]) && Events(events)[1..] == Events(events[1..]);
      EventIs(u, events[0]);
      PlayEvents(Do(u, Event(events[0])), events[1..]);
    }
  }

  /** The first future is due at the last tick before a wrap, and main is about to halt both before that wrap and before
      the next. */
  lemma LateThroughWrap(base: nat, limit: nat) returns (actions: seq<Action>)
    requires base + 8 <= limit && RoomForOne(base, limit)
    ensures var u := Play(Boot(base, limit), actions);
            Wraps(u) == 1 && u.taken == 0 && u.s.late == 2
  {
    var u := Boot(base, limit);
    var seconds := MODULUS / RTC_FREQ - 1;
    var timers := Timers(RTC_FREQ - 1);
    RunTimers(u.s, RTC_FREQ - 1);
    PlayEvents(u, timers);
    var v := Play(u, Events(timers));
    var ctx := NextContext(v.heap);
    var v1 := Do(v, Create(seconds));
    LiveAfterMalloc(v.heap, ctx);
    var v2 := Do(v1, Await(ctx));
    var events := WrappingRun(v2.s);
    PlayEvents(v2, events);
    PlayCons(v1, Await(ctx), Events(events));
    PlayCons(v, Create(seconds), [Await(ctx)] + Events(events));
    PlayConcat(u, Events(timers), [Create(seconds)] + ([Await(ctx)] + Events(events)));
    actions := Events(timers) + ([Create(seconds)] + ([Await(ctx)] + Events(events)));
  }

  /** Make a future that is due at once and await it. */
  lemma AwaitDue(base: nat, limit: nat) returns (actions: seq<Action>)
    requires base + 8 <= limit && RoomForOne(base, limit)
    ensures var t := Play(Boot(base, limit), actions);
            && t.s.time == 0 && t.s.pc.Finished? && t.s.futures == [0] && !t.stopped && t.taken == 0
            && t.heap == H.Init(base, limit) && t.first == NextContext(t.heap)
  {
    var u := Boot(base, limit);
    var ctx := NextContext(u.heap);
    var a1 := [Event(Main)] + [];
    var a2 := [Event(Main)] + a1;
    var a3 := [Await(ctx)] + a2;
    var u1 := Do(u, Create(0));
    LiveAfterMalloc(u.heap, ctx);
    var u2 := Do(u1, Await(ctx));
    var u3 := Do(u2, Event(Main));
    PlayCons(u, Create(0), a3);
    PlayCons(u1, Await(ctx), a2);
    PlayCons(u2, Event(Main), a1);
    PlayCons(u3, Event(Main), []);
    assert u3.s.futures == [0];
    H.MallocInv(u.heap, CONTEXT);
    R.LiveAtIs(u1.heap, H.Block(u.heap, CONTEXT));
    R.FreeUndoesMalloc(u.heap, CONTEXT);
    actions := [Create(0)] + a3;
  }

  /** A two-second future gets the block of the finished first one, and a one-second future is awaited. */
  lemma LateThroughReuse(base: nat, limit: nat) returns (actions: seq<Action>)
    requires base + 8 <= limit && RoomForTwo(base, limit)
    ensures var u := Play(Boot(base, limit), actions);
            Wraps(u) == 0 && u.taken == 1 && u.s.late == 2
  {
    var a := AwaitDue(base, limit);
    var v := Play(Boot(base, limit), a);
    var v1 := Do(v, Create(2));
    var ctx := NextContext(v1.heap);
    SecondContext(v.heap);
    var v2 := Do(v1, Create(1));
    LiveAfterMalloc(v1.heap, ctx);
    LiveAfterMalloc(v1.heap, v.first);
    LiveAfterMalloc(v.heap, v.first);
    var v3 := Do(v2, Await(ctx));
    var events := SleepyRun(v3.s);
    PlayEvents(v3, events);
    var b2 := [Await(ctx)] + Events(events);
    var b1 := [Create(1)] + b2;
    PlayCons(v2, Await(ctx), Events(events));
    PlayCons(v1, Create(1), b2);
    PlayCons(v, Create(2), b1);
    PlayConcat(Boot(base, limit), a, [Create(2)] + b1);
    actions := a + ([Create(2)] + b1);
  }

  lemma SecondContext(heap: H.State)
    requires H.Inv(heap) && H.CanMalloc(heap, CONTEXT) && H.CanMalloc(H.Malloc(heap, CONTEXT), CONTEXT)
    ensures NextContext(H.Malloc(heap, CONTEXT)) != NextContext(heap)
  {
    var s1 := H.Malloc(heap, CONTEXT);
    var b := H.Block(s1, CONTEXT);
    H.MallocInv(heap, CONTEXT);
    H.MallocBlock(s1, CONTEXT);
    assert b.Has(b.addr);
    assert H.Block(heap, CONTEXT).Has(H.Block(heap, CONTEXT).addr);
  }

  /** Over every program of awaits and every interleaving with at most k wraps of the counter and at most j awaits
      begun while another future has taken the first one's freed context, main executes hlt at most once after a
      deadline, exactly when both k and j are 0, save that a heap with room for one context allows any j and a heap
      with room for none any k and j. */
  lemma ProgramsPromptIff(base: nat, limit: nat, k: nat, j: nat)
    requires base + 8 <= limit
    ensures (forall actions :: var u := Play(Boot(base, limit), actions);
                               Wraps(u) <= k && u.taken <= j ==> u.s.late <= 1)
            <==> (RoomForOne(base, limit) ==> k == 0) && (RoomForTwo(base, limit) ==> j == 0)
  {
    var u := Boot(base, limit);
    if RoomForOne(base, limit) && 0 < k {
      var actions := LateThroughWrap(base, limit);
      assert Wraps(Play(u, actions)) <= k;
    } else if RoomForTwo(base, limit) && 0 < j {
      var actions := LateThroughReuse(base, limit);
      assert Wraps(Play(u, actions)) <= k;
    } else {
      forall actions | Wraps(Play(u, actions)) <= k && Play(u, actions).taken <= j
        ensures Play(u, actions).s.late <= 1
      {
        if !RoomForOne(base, limit) {
          NonePlay(u, actions);
        } else {
          if !RoomForTwo(base, limit) { OnePlay(u, actions, base, limit); }
          QuickPlay(u, actions);
        }
      }
    }
  }

  /** In the programs and interleavings of the first kind every await finishes after as many effective steps as there
      are ticks up to its deadline, and at most six more. */
  lemma AwaitsFinish(base: nat, limit: nat, actions: seq<Action>, events: seq<Await.Event>)
    requires base + 8 <= limit
    requires var u := Play(Boot(base, limit), actions);
             u.taken == 0 && !u.s.pc.Finished? && Run(u.s, events).time < MODULUS
    ensures var s := Play(Boot(base, limit), actions).s;
            Run(s, events).pc.Finished? || Progress(s, events) < (if s.time < s.target then s.target - s.time else 0) + 6
  {
    var u := Play(Boot(base, limit), actions);
    TimeGrows(u.s, events);
    QuickPlay(Boot(base, limit), actions);
    AwaitFinishes(u.s, events);
  }

  // ---------- from making a future to the end of its await ----------

  /** The program does not begin to await this context. */
  predicate Awaitless(ctx: nat, actions: seq<Action>) {
    forall i :: 0 <= i < |actions| ==> actions[i] != Await(ctx)
  }

  /** The context holds the deadline of a future that is made and not awaited yet. */
  ghost predicate Waiting(u: Session, ctx: nat, deadline: nat) {
    && R.IsLive(u.heap.live, ctx) && ctx in u.targets && u.targets[ctx] == deadline
    && (u.s.pc.Finished? || u.now != ctx)
  }

  lemma OtherStaysLive(heap: H.State, ctx: nat, other: nat)
    requires H.Inv(heap) && R.IsLive(heap.live, ctx) && ctx != other
    ensures R.IsLive(FreeContext(heap, other).live, ctx)
  {
    var b :| b in heap.live && b.addr + 8 == ctx;
    if R.IsLive(heap.live, other) {
      assert R.LiveAt(heap.live, other).addr + 8 == other;
      assert b in FreeContext(heap, other).live;
    }
  }

  /** malloc does not hand out a live context. */
  lemma NextIsNew(heap: H.State, ctx: nat)
    requires H.Inv(heap) && H.CanMalloc(heap, CONTEXT) && R.IsLive(heap.live, ctx)
    ensures NextContext(heap) != ctx
  {
    var b :| b in heap.live && b.addr + 8 == ctx;
    H.MallocBlock(heap, CONTEXT);
    assert H.Block(heap, CONTEXT).Has(H.Block(heap, CONTEXT).addr);
    assert b.Has(b.addr);
  }

  lemma WaitingDo(u: Session, a: Action, ctx: nat, deadline: nat)
    requires H.Inv(u.heap) && Waiting(u, ctx, deadline) && a != Await(ctx)
    ensures Waiting(Do(u, a), ctx, deadline)
  {
    if !u.stopped {
      match a
      case Event(e) =>
        NextKeeps(u.s, e);
        if u.now != ctx { OtherStaysLive(u.heap, ctx, u.now); }
      case Create(seconds) =>
        if u.s.pc.Finished? && H.CanMalloc(u.heap, CONTEXT) {
          NextIsNew(u.heap, ctx);
          LiveAfterMalloc(u.heap, ctx);
        }
      case Await(other) =>
    }
  }

  lemma {:induction false} WaitingPlay(u: Session, actions: seq<Action>, ctx: nat, deadline: nat)
    requires H.Inv(u.heap) && Waiting(u, ctx, deadline) && Awaitless(ctx, actions)
    ensures Waiting(Play(u, actions), ctx, deadline)
    decreases |actions|
  {
    if actions != [] {
      WaitingDo(u, actions[0], ctx, deadline);
      WaitingPlay(Do(u, actions[0]), actions[1..], ctx, deadline);
    }
  }

  /** Main is free to make or await a future. */
  ghost predicate Free(u: Session) { H.Inv(u.heap) && !u.stopped && u.s.pc.Finished? }

  /** Make a future, do other things, and begin to await it. */
  function MadeThenAwaited(ctx: nat, seconds: nat, mid: seq<Action>): seq<Action> {
    [Create(seconds)] + (mid + ([Await(ctx)] + []))
  }

  /** main is free again when it begins to await the future, and has not awaited it before. */
  ghost predicate Fair(u: Session, seconds: nat, mid: seq<Action>)
    requires Free(u) && H.CanMalloc(u.heap, CONTEXT)
  {
    Awaitless(NextContext(u.heap), mid) && Free(Play(Do(u, Create(seconds)), mid))
  }

  /** Without room for its context, making a future is the last thing a program does. */
  lemma OutOfMemoryStops(u: Session, seconds: nat, more: seq<Action>)
    requires Free(u) && !H.CanMalloc(u.heap, CONTEXT)
    ensures Play(u, [Create(seconds)] + more) == u.(stopped := true)
  {
    PlayCons(u, Create(seconds), more);
    StoppedStays(u.(stopped := true), more);
  }

  lemma {:induction false} StoppedStays(u: Session, actions: seq<Action>)
    requires H.Inv(u.heap) && u.stopped
    ensures Play(u, actions) == u
    decreases |actions|
  {
    if actions != [] { StoppedStays(u, actions[1..]); }
  }

  /** The await of a future has the deadline that the future was made with, whatever the program did in between. */
  lemma AwaitsWhatWasMade(u: Session, seconds: nat, mid: seq<Action>)
    requires Free(u) && H.CanMalloc(u.heap, CONTEXT) && Fair(u, seconds, mid)
    ensures var t := Play(u, MadeThenAwaited(NextContext(u.heap), seconds, mid));
            && Starting(t.s) && t.s.target == Deadline(u.s.time, seconds) && u.s.time <= t.s.time
            && t.now == NextContext(u.heap) && !t.stopped
  {
    var ctx := NextContext(u.heap);
    var u1 := Do(u, Create(seconds));
    LiveAfterMalloc(u.heap, ctx);
    WaitingPlay(u1, mid, ctx, Deadline(u.s.time, seconds));
    PlayGrows(u1, mid);
    var u2 := Play(u1, mid);
    PlayCons(u2, Await(ctx), []);
    PlayConcat(u1, mid, [Await(ctx)] + []);
    PlayCons(u, Create(seconds), mid + ([Await(ctx)] + []));
  }

  /** A future made at some moment for some seconds: whatever the program does before it awaits it, and however that await
      is interleaved, the await is over no earlier than 256 ticks for each second after that moment, exactly when the
      deadline did not wrap; otherwise some program and interleaving is over early. */
  lemma MadeWaitsIff(u: Session, seconds: nat)
    requires Free(u) && H.CanMalloc(u.heap, CONTEXT)
    ensures (forall mid, events :: Fair(u, seconds, mid) ==>
               var s := Run(Play(u, MadeThenAwaited(NextContext(u.heap), seconds, mid)).s, events);
               s.pc.Finished? ==> u.s.time + 256 * seconds <= s.time)
            <==> u.s.time % 0x1_0000_0000 + 256 * seconds < 0x1_0000_0000
  {
    var t := u.s.time;
    HonestIff(t, seconds);
    var ctx := NextContext(u.heap);
    if Honest(t, seconds) {
      forall mid, events | Fair(u, seconds, mid)
        ensures var s := Run(Play(u, MadeThenAwaited(ctx, seconds, mid)).s, events);
                s.pc.Finished? ==> t + 256 * seconds <= s.time
      {
        var s := Play(u, MadeThenAwaited(ctx, seconds, mid)).s;
        AwaitsWhatWasMade(u, seconds, mid);
        if Run(s, events).pc.Finished? { var at := FinishedExpired(s, events); }
      }
    } else {
      var at: nat :| t <= at && Expired(at, Deadline(t, seconds)) && at < t + seconds * RTC_FREQ;
      assert Fair(u, seconds, []);
      AwaitsWhatWasMade(u, seconds, []);
      NothingBetween(u, seconds);
      var s := Play(u, MadeThenAwaited(ctx, seconds, [])).s;
      var events := EarlyRun(s, at);
      assert Run(s, events).pc.Finished?;
    }
  }

  lemma NothingBetween(u: Session, seconds: nat)
    requires Free(u) && H.CanMalloc(u.heap, CONTEXT)
    ensures Play(u, MadeThenAwaited(NextContext(u.heap), seconds, [])).s.time == u.s.time
  {
    var ctx := NextContext(u.heap);
    var u1 := Do(u, Create(seconds));
    PlayCons(u1, Await(ctx), []);
    assert [] + ([Await(ctx)] + []) == [Await(ctx)] + [];
    PlayCons(u, Create(seconds), [Await(ctx)] + []);
  }

  /** In a program from power-on whose counter has not wrapped, and in which no await began while another future lay in
      the freed place of the first one, the await of a future made at moment t for n seconds is over, or has seen fewer
      effective steps than there were ticks left to t + 256 * n, and six. */
  lemma MadeFinishes(base: nat, limit: nat, actions: seq<Action>, seconds: nat, mid: seq<Action>, events: seq<Await.Event>)
    requires base + 8 <= limit
    requires var u := Play(Boot(base, limit), actions);
             Free(u) && H.CanMalloc(u.heap, CONTEXT) && Fair(u, seconds, mid)
             && var v := Play(u, MadeThenAwaited(NextContext(u.heap), seconds, mid));
                v.taken == 0 && Run(v.s, events).time < 0x1_0000_0000
    ensures var u := Play(Boot(base, limit), actions);
            var s := Play(u, MadeThenAwaited(NextContext(u.heap), seconds, mid)).s;
            var due := u.s.time + 256 * seconds;
            Run(s, events).pc.Finished? || Progress(s, events) < (if s.time < due then due - s.time else 0) + 6
  {
    var u := Play(Boot(base, limit), actions);
    var more := MadeThenAwaited(NextContext(u.heap), seconds, mid);
    AwaitsWhatWasMade(u, seconds, mid);
    PlayConcat(Boot(base, limit), actions, more);
    var s := Play(u, more).s;
    AwaitsFinish(base, limit, actions + more, events);
  }
}
