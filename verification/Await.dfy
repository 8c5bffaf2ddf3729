/** await on a sleep future, interleaved with timer and serial interrupts.  Every step of the main thread below is
    one access to shared state; an interrupt handler runs between two of them as a whole. */
module Await {
  import opened Clock
  import opened Unsigned

  datatype Pc =
    | Register  // about to append the future to the list
    | Poll      // about to ask whether the future is ready
    | Clear     // about to reset SHOULD_POLL
    | Check     // about to test SHOULD_POLL
    | Hlt       // about to execute hlt
    | Halted    // asleep until the next interrupt
    | Finished

  /** late counts the hlt instructions executed after the deadline was reached. */
  datatype State = State(time: nat, futures: seq<nat>, shouldPoll: bool, target: nat, pc: Pc, late: nat)

  datatype Event = Main | Timer | Uart

  function MainStep(s: State): State {
    match s.pc
    case Register => s.(futures := s.futures + [s.target], pc := Poll)
    case Poll => s.(pc := if Expired(s.time, s.target) then Finished else Clear)
    case Clear => s.(shouldPoll := false, pc := Check)
    case Check => s.(pc := if s.shouldPoll then Poll else Hlt)
    case Hlt => s.(pc := Halted, late := if Expired(s.time, s.target) then s.late + 1 else s.late)
    case Halted => s
    case Finished => s
  }

  function Woken(pc: Pc): Pc { if pc.Halted? then Check else pc }

  /** process_tick: count, then examine the first registered future only. */
  function TimerStep(s: State): State {
    var time := s.time + 1;
    s.(time := time, shouldPoll := s.futures != [] && Expired(time, s.futures[0]), pc := Woken(s.pc))
  }

  function UartStep(s: State): State { s.(shouldPoll := true, pc := Woken(s.pc)) }

  function Next(s: State, e: Event): State {
    match e
    case Main => MainStep(s)
    case Timer => TimerStep(s)
    case Uart => UartStep(s)
  }

  function Run(s: State, events: seq<Event>): State
    decreases |events|
  {
    if events == [] then s else Run(Next(s, events[0]), events[1..])
  }

  predicate Starting(s: State) { s.pc.Register? && s.late == 0 && s.target < MODULUS }

  /** The future that the timer handler will examine once this one is registered. */
  function First(s: State): nat { if s.futures == [] then s.target else s.futures[0] }

  lemma {:induction false} RunConcat(s: State, e: seq<Event>, f: seq<Event>)
    ensures Run(s, e + f) == Run(Run(s, e), f)
    decreases |e|
  {
    if e == [] {
      assert e + f == f;
    } else {
      assert (e + f)[1..] == e[1..] + f;
      RunConcat(Next(s, e[0]), e[1..], f);
    }
  }

  // ---------- await leaves its loop only after the deadline ----------

  lemma {:induction false} FinishedExpired(s: State, events: seq<Event>) returns (at: nat)
    requires !s.pc.Finished? && Run(s, events).pc.Finished?
    ensures s.time <= at <= Run(s, events).time && Expired(at, s.target)
    decreases |events|
  {
    var t := Next(s, events[0]);
    if t.pc.Finished? {
      at := s.time;
      TimeGrows(t, events[1..]);
    } else {
      at := FinishedExpired(t, events[1..]);
    }
  }

  lemma {:induction false} TimeGrows(s: State, events: seq<Event>)
    ensures s.time <= Run(s, events).time && Run(s, events).target == s.target
    decreases |events|
  {
    if events != [] { TimeGrows(Next(s, events[0]), events[1..]); }
  }

  /** A future made now for some seconds. */
  function Created(time: nat, seconds: nat, futures: seq<nat>, shouldPoll: bool): State {
    State(time, futures, shouldPoll, Deadline(time, seconds), Register, 0)
  }

  /** Every interleaving waits the full time exactly when the deadline did not wrap; otherwise some interleaving
      returns early. */
  lemma AwaitWaitsIff(time: nat, seconds: nat, futures: seq<nat>, shouldPoll: bool)
    ensures (forall events :: var r := Run(Created(time, seconds, futures, shouldPoll), events);
                              r.pc.Finished? ==> time + seconds * RTC_FREQ <= r.time)
            <==> Tick(time) + seconds * RTC_FREQ < MODULUS
  {
    var s := Created(time, seconds, futures, shouldPoll);
    HonestIff(time, seconds);
    if Honest(time, seconds) {
      forall events | Run(s, events).pc.Finished? ensures time + seconds * RTC_FREQ <= Run(s, events).time {
        var at := FinishedExpired(s, events);
      }
    } else {
      var at: nat :| time <= at && Expired(at, s.target) && at < time + seconds * RTC_FREQ;
      var events := EarlyRun(s, at);
      assert Run(s, events).pc.Finished?;
    }
  }

  function Timers(n: nat): seq<Event> { seq(n, _ => Timer) }

  lemma {:induction false} RunTimers(s: State, n: nat)
    requires !s.pc.Halted?
    ensures var r := Run(s, Timers(n));
            r.time == s.time + n && r.pc == s.pc && r.target == s.target && r.futures == s.futures && r.late == s.late
    decreases n
  {
    if n > 0 {
      assert Timers(n)[1..] == Timers(n - 1);
      RunTimers(TimerStep(s), n - 1);
    }
  }

  /** Let the timer run until a moment that shows an expired tick, then let main poll. */
  lemma EarlyRun(s: State, at: nat) returns (events: seq<Event>)
    requires s.pc.Register? && s.time <= at && Expired(at, s.target)
    ensures Run(s, events).pc.Finished? && Run(s, events).time == at
  {
    var t := MainStep(s);
    RunTimers(t, at - s.time);
    var u := Run(t, Timers(at - s.time));
    assert Run(u, [Main]) == MainStep(u) by { assert Run(MainStep(u), []) == MainStep(u); assert [Main][1..] == []; }
    RunConcat(t, Timers(at - s.time), [Main]);
    events := [Main] + (Timers(at - s.time) + [Main]);
    assert events[1..] == Timers(at - s.time) + [Main];
  }

  // ---------- wake-ups ----------

  predicate Listed(futures: seq<nat>) { forall i :: 0 <= i < |futures| ==> futures[i] < MODULUS }

  /** Once the deadline is reached, every interrupt leaves SHOULD_POLL set. */
  predicate Covered(s: State) { First(s) <= s.target + 1 && First(s) < MODULUS }

  /** At most one late hlt, and after it main is on its way out. */
  predicate Prompt(s: State) {
    && (s.pc.Register? || s.futures != [])
    && (s.pc.Register? ==> s.late == 0)
    && (!Expired(s.time, s.target) ==> s.late == 0)
    && s.late <= 1
    && (s.late == 1 ==> s.pc.Halted? || s.pc.Poll? || s.pc.Finished? || (s.pc.Check? && s.shouldPoll))
  }

  lemma PromptStep(s: State, e: Event)
    requires Prompt(s) && Covered(s) && SameRound(s.time, Next(s, e).time)
    ensures Prompt(Next(s, e)) && Covered(Next(s, e)) && First(Next(s, e)) == First(s) && Next(s, e).target == s.target
  {
  }

  lemma {:induction false} PromptRun(s: State, events: seq<Event>)
    requires Prompt(s) && Covered(s) && SameRound(s.time, Run(s, events).time)
    ensures Prompt(Run(s, events))
    decreases |events|
  {
    if events != [] {
      TimeGrows(Next(s, events[0]), events[1..]);
      TickGrows(s.time, Next(s, events[0]).time, Run(s, events).time);
      PromptStep(s, events[0]);
      PromptRun(Next(s, events[0]), events[1..]);
    }
  }

  /** What a step does to the fields that outlive an await. */
  lemma NextKeeps(s: State, e: Event)
    ensures var t := Next(s, e);
            && t.target == s.target && s.time <= t.time
            && t.futures == (if s.pc.Register? && e.Main? then s.futures + [s.target] else s.futures)
            && (s.pc.Finished? ==> t.pc.Finished? && t.late == s.late)
            && (t.pc.Finished? && !s.pc.Finished? ==> t.time == s.time && Expired(s.time, s.target))
  {
  }

  /** A future ready before it is awaited never reaches hlt. */
  predicate AtOnce(s: State) {
    Expired(s.time, s.target) && s.late == 0 && (s.pc.Register? || s.pc.Poll? || s.pc.Finished?)
  }

  lemma AtOnceStep(s: State, e: Event)
    requires AtOnce(s) && SameRound(s.time, Next(s, e).time)
    ensures AtOnce(Next(s, e)) && Next(s, e).target == s.target
  {
  }

  lemma {:induction false} AtOnceRun(s: State, events: seq<Event>)
    requires AtOnce(s) && SameRound(s.time, Run(s, events).time)
    ensures AtOnce(Run(s, events))
    decreases |events|
  {
    if events != [] {
      TimeGrows(Next(s, events[0]), events[1..]);
      TickGrows(s.time, Next(s, events[0]).time, Run(s, events).time);
      AtOnceStep(s, events[0]);
      AtOnceRun(Next(s, events[0]), events[1..]);
    }
  }

  /** Without a wrap of the counter, main executes hlt at most once after the deadline in every interleaving,
      exactly when the first registered future is due no later than one tick after the awaited one (or the
      awaited one is already due): lost wake-ups then cost one interrupt each, and otherwise the timer handler,
      which looks only at the first future, puts main back to sleep.  Session.dfy says when a program of awaits
      gets into the second case. */
  lemma PromptIff(s: State)
    requires Starting(s) && Listed(s.futures)
    ensures (forall events :: SameRound(s.time, Run(s, events).time) ==> Run(s, events).late <= 1)
            <==> Expired(s.time, s.target) || First(s) <= s.target + 1
  {
    if Expired(s.time, s.target) {
      forall events | SameRound(s.time, Run(s, events).time) ensures Run(s, events).late <= 1 {
        AtOnceRun(s, events);
      }
    } else if First(s) <= s.target + 1 {
      forall events | SameRound(s.time, Run(s, events).time) ensures Run(s, events).late <= 1 {
        PromptRun(s, events);
      }
    } else {
      var events := SleepyRun(s);
      assert SameRound(s.time, Run(s, events).time);
    }
  }

  /** An interleaving with two late hlts. */
  lemma SleepyRun(s: State) returns (events: seq<Event>)
    requires Starting(s) && Listed(s.futures) && !Expired(s.time, s.target) && s.target + 1 < First(s)
    ensures SameRound(s.time, Run(s, events).time) && Run(s, events).late == 2
  {
    var n := s.target - Tick(s.time);
    var t := MainStep(MainStep(s));
    RunTimers(t, n);
    var u := Run(t, Timers(n));
    TickAt(s.time, s.target);
    TickAt(s.time, s.target + 1);
    assert u.time == s.time - Tick(s.time) + s.target;
    var tail := SixSteps(u);
    RunConcat(t, Timers(n), tail);
    events := [Main] + ([Main] + (Timers(n) + tail));
    RunCons(s, Main, [Main] + (Timers(n) + tail));
    RunCons(MainStep(s), Main, Timers(n) + tail);
  }

  lemma RunCons(s: State, e: Event, events: seq<Event>)
    ensures Run(s, [e] + events) == Run(Next(s, e), events)
  {
    assert ([e] + events)[1..] == events;
  }

  /** Main clears, checks and halts; the timer wakes it with SHOULD_POLL reset; it checks and halts again. */
  lemma SixSteps(u: State) returns (events: seq<Event>)
    ensures Run(u, events) == MainStep(MainStep(TimerStep(MainStep(MainStep(MainStep(u))))))
  {
    var u3 := MainStep(MainStep(MainStep(u)));
    var e2, e1, e0 := [Main] + [], [Main] + ([Main] + []), [Timer] + ([Main] + ([Main] + []));
    RunCons(MainStep(TimerStep(u3)), Main, []);
    RunCons(TimerStep(u3), Main, e2);
    RunCons(u3, Timer, e1);
    RunCons(MainStep(MainStep(u)), Main, e0);
    RunCons(MainStep(u), Main, [Main] + e0);
    RunCons(u, Main, [Main] + ([Main] + e0));
    events := [Main] + ([Main] + ([Main] + e0));
  }

  /** The deadline is the last tick before a wrap: main halts at that tick, is woken by the wrap with nothing due, and
      halts again at the last tick of the next round. */
  lemma WrappingRun(s: State) returns (events: seq<Event>)
    requires Starting(s) && s.futures == [] && s.target == MODULUS - 1 && !Expired(s.time, s.target)
    ensures Run(s, events).late == 2 && Run(s, events).time == s.time - Tick(s.time) + 2 * MODULUS - 1
  {
    var s1, s2, s3 := MainStep(s), MainStep(MainStep(s)), MainStep(MainStep(MainStep(s)));
    var t := MainStep(s3);
    var n := s.target - Tick(s.time);
    RunTimers(t, n);
    var u := Run(t, Timers(n));
    TickAt(s.time, s.target);
    var wrap := HaltThroughWrap(u);
    var rest := Timers(n) + wrap;
    RunConcat(t, Timers(n), wrap);
    RunCons(s3, Main, rest);
    RunCons(s2, Main, [Main] + rest);
    RunCons(s1, Main, [Main] + ([Main] + rest));
    RunCons(s, Main, [Main] + ([Main] + ([Main] + rest)));
    events := [Main] + ([Main] + ([Main] + ([Main] + rest)));
  }

  lemma HaltThroughWrap(u: State) returns (events: seq<Event>)
    requires u.pc.Hlt? && u.futures == [u.target] && u.late == 0
    requires u.target == MODULUS - 1 && Tick(u.time) == MODULUS - 1
    ensures Run(u, events).late == 2 && Run(u, events).time == u.time + MODULUS
  {
    var u1 := MainStep(u);
    var u2 := TimerStep(u1);
    var v := MainStep(u2);
    assert Tick(v.time) == 0 && v.pc.Hlt?;
    RunTimers(v, MODULUS - 1);
    var timers := Timers(MODULUS - 1);
    var w := Run(v, timers);
    assert Tick(w.time) == MODULUS - 1;
    var last := timers + ([Main] + []);
    RunCons(w, Main, []);
    RunConcat(v, timers, [Main] + []);
    RunCons(u2, Main, last);
    RunCons(u1, Timer, [Main] + last);
    RunCons(u, Main, [Timer] + ([Main] + last));
    events := [Main] + ([Timer] + ([Main] + last));
  }

  // ---------- lost wake-ups ----------

  predicate Interrupts(events: seq<Event>) { forall i :: 0 <= i < |events| ==> !events[i].Main? }

  /** The last of these interrupts is a timer's that finds the first registered future not due at this time. */
  predicate EndsIdle(events: seq<Event>, futures: seq<nat>, time: nat)
    requires events != []
  {
    events[|events| - 1].Timer? && (futures == [] || time % 0x1_0000_0000 < futures[0])
  }

  lemma {:induction false} AfterInterrupts(s: State, events: seq<Event>)
    requires (s.pc.Check? || s.pc.Halted?) && Interrupts(events) && events != []
    ensures var r := Run(s, events);
            r.pc.Check? && r.futures == s.futures && r.shouldPoll == !EndsIdle(events, s.futures, r.time)
    decreases |events|
  {
    var t := Next(s, events[0]);
    if |events| > 1 {
      AfterInterrupts(t, events[1..]);
    } else {
      assert Run(t, events[1..]) == t;
    }
  }

  /** main, having seen its future pending, executes hlt exactly when since it cleared SHOULD_POLL there was no interrupt,
      or the last one was the timer's and found the first future not due: a serial wake-up followed by such a tick is
      lost.  Otherwise it polls again. */
  lemma HaltsIff(s: State, events: seq<Event>)
    requires s.pc.Clear? && Interrupts(events)
    ensures var waiting := Run(MainStep(s), events);
            MainStep(waiting).pc ==
            if events == [] || EndsIdle(events, s.futures, waiting.time) then Hlt else Poll
  {
    if events != [] { AfterInterrupts(MainStep(s), events); }
  }

  /** Asleep, main is woken by the first interrupt, and halts again under the same condition. */
  lemma HaltsAgainIff(s: State, events: seq<Event>)
    requires s.pc.Halted? && Interrupts(events) && events != []
    ensures var woken := Run(s, events);
            MainStep(woken).pc == if EndsIdle(events, s.futures, woken.time) then Hlt else Poll
  {
    AfterInterrupts(s, events);
  }

  /** Steps of main until it is asleep or done, when nothing else happens. */
  function ToRest(s: State): nat {
    match s.pc
    case Register => 5
    case Poll => 4
    case Clear => 3
    case Check => if s.shouldPoll then 5 else 2
    case Hlt => 1
    case Halted => 0
    case Finished => 0
  }

  lemma RestNearer(s: State)
    ensures ToRest(s) > 0 ==> ToRest(MainStep(s)) < ToRest(s)
    ensures ToRest(s) == 0 ==> (s.pc.Halted? || s.pc.Finished?) && MainStep(s) == s
  {
  }

  /** Left alone, main is asleep or done after five steps: it does not spin. */
  lemma SleepsOrFinishes(s: State)
    ensures var r := MainStep(MainStep(MainStep(MainStep(MainStep(s)))));
            (r.pc.Halted? || r.pc.Finished?) && MainStep(r) == r
  {
    var s1 := MainStep(s);
    var s2 := MainStep(s1);
    var s3 := MainStep(s2);
    var s4 := MainStep(s3);
    RestNearer(s);
    RestNearer(s1);
    RestNearer(s2);
    RestNearer(s3);
    RestNearer(s4);
    RestNearer(MainStep(s4));
  }

  // ---------- progress ----------

  /** Steps still ahead of main once the deadline is reached. */
  function Rank(s: State): nat {
    match s.pc
    case Finished => 0
    case Poll => 1
    case Register => 2
    case Check => if s.shouldPoll then 2 else 5
    case Halted => 3
    case Hlt => 4
    case Clear => 6
  }

  /** Ticks up to the deadline, then steps. */
  function Measure(s: State): nat {
    if Expired(s.time, s.target) then Rank(s) else s.target - Tick(s.time) + 6
  }

  /** Before the deadline: timer interrupts.  After it: steps of main that is not asleep or over, and interrupts
      that find main asleep. */
  predicate Effective(s: State, e: Event) {
    if !Expired(s.time, s.target) then e.Timer?
    else if e.Main? then !s.pc.Halted? && !s.pc.Finished?
    else s.pc.Halted?
  }

  function Progress(s: State, events: seq<Event>): nat
    decreases |events|
  {
    if events == [] then 0 else (if Effective(s, events[0]) then 1 else 0) + Progress(Next(s, events[0]), events[1..])
  }

  /** The timer handler will wake main in time, or main will not sleep. */
  predicate Watched(s: State) {
    (Covered(s) && (s.pc.Register? || s.futures != [])) || AtOnce(s)
  }

  lemma MeasureStep(s: State, e: Event)
    requires Watched(s) && SameRound(s.time, Next(s, e).time)
    ensures Measure(Next(s, e)) + (if Effective(s, e) then 1 else 0) <= Measure(s)
    ensures Watched(Next(s, e)) && Next(s, e).target == s.target
  {
  }

  /** As many effective steps as there are ticks up to the deadline, and six more, finish await, whatever else
      interleaves. */
  lemma {:induction false} AwaitFinishes(s: State, events: seq<Event>)
    requires Watched(s) && SameRound(s.time, Run(s, events).time)
    ensures Measure(Run(s, events)) + Progress(s, events) <= Measure(s)
    ensures Measure(s) <= (if Tick(s.time) < s.target then s.target - Tick(s.time) else 0) + 6
    ensures Run(s, events).pc.Finished? || Progress(s, events) < Measure(s)
    decreases |events|
  {
    if events != [] {
      TimeGrows(Next(s, events[0]), events[1..]);
      TickGrows(s.time, Next(s, events[0]).time, Run(s, events).time);
      MeasureStep(s, events[0]);
      AwaitFinishes(Next(s, events[0]), events[1..]);
    }
  }
}
