/** sleep, interleaved with interrupts: re-read the tick, halt until the next interrupt, and so on. */
module Sleep {
  import opened Clock

  datatype Pc =
    | ReadStart
    | Check(end: nat)
    | Hlt(end: nat)
    | Halted(end: nat)
    | Returned

  /** began is the moment of the first reading; late counts hlt instructions executed past the deadline. */
  datatype State = State(time: nat, seconds: nat, pc: Pc, began: nat, late: nat)

  datatype Event = Main | Interrupt(ticks: bool)

  function MainStep(s: State): State {
    match s.pc
    case ReadStart => s.(pc := Check(Deadline(s.time, s.seconds)), began := s.time)
    case Check(end) => s.(pc := if Tick(s.time) < end then Hlt(end) else Returned)
    case Hlt(end) => s.(pc := Halted(end), late := if Expired(s.time, end) then s.late + 1 else s.late)
    case Halted(_) => s
    case Returned => s
  }

  /** Any interrupt ends a hlt; the timer's also advances the tick. */
  function InterruptStep(s: State, ticks: bool): State {
    s.(time := if ticks then s.time + 1 else s.time, pc := if s.pc.Halted? then Check(s.pc.end) else s.pc)
  }

  function Next(s: State, e: Event): State {
    match e
    case Main => MainStep(s)
    case Interrupt(ticks) => InterruptStep(s, ticks)
  }

  function Run(s: State, events: seq<Event>): State
    decreases |events|
  {
    if events == [] then s else Run(Next(s, events[0]), events[1..])
  }

  /** The deadline a running sleep compares with is the one computed at its first reading. */
  predicate Consistent(s: State) {
    && s.began <= s.time
    && (s.pc.Check? || s.pc.Hlt? || s.pc.Halted? ==> s.pc.end == Deadline(s.began, s.seconds))
  }

  lemma {:induction false} RunKeeps(s: State, events: seq<Event>)
    requires Consistent(s)
    ensures var r := Run(s, events);
            Consistent(r) && s.time <= r.time && r.seconds == s.seconds && (!s.pc.ReadStart? ==> r.began == s.began)
    decreases |events|
  {
    if events != [] { RunKeeps(Next(s, events[0]), events[1..]); }
  }

  lemma {:induction false} ReturnedExpired(s: State, events: seq<Event>) returns (at: nat)
    requires Consistent(s) && !s.pc.Returned? && Run(s, events).pc.Returned?
    ensures var r := Run(s, events);
            r.began <= at <= r.time && Expired(at, Deadline(r.began, s.seconds))
    decreases |events|
  {
    var t := Next(s, events[0]);
    RunKeeps(s, events[..1]);
    RunKeeps(t, events[1..]);
    if t.pc.Returned? {
      at := s.time;
    } else {
      at := ReturnedExpired(t, events[1..]);
    }
  }

  // ---------- from the call to the return ----------

  /** sleep as it is called. */
  function Called(time: nat, seconds: nat): State { State(time, seconds, ReadStart, time, 0) }

  /** The moment of main's first step, or the last one if it never takes one. */
  function FirstStep(time: nat, events: seq<Event>): nat
    decreases |events|
  {
    if events == [] || events[0].Main? then time
    else FirstStep(if events[0].ticks then time + 1 else time, events[1..])
  }

  /** The time is the number of timer interrupts. */
  function Ticks(events: seq<Event>): nat {
    if events == [] then 0 else (if events[0] == Interrupt(true) then 1 else 0) + Ticks(events[1..])
  }

  lemma {:induction false} TimeCounts(s: State, events: seq<Event>)
    ensures Run(s, events).time == s.time + Ticks(events)
    decreases |events|
  {
    if events != [] { TimeCounts(Next(s, events[0]), events[1..]); }
  }

  lemma {:induction false} BeganAt(s: State, events: seq<Event>)
    requires s.pc.ReadStart? && Consistent(s) && !Run(s, events).pc.ReadStart?
    ensures Run(s, events).began == FirstStep(s.time, events)
    decreases |events|
  {
    var t := Next(s, events[0]);
    if events[0].Main? {
      RunKeeps(t, events[1..]);
    } else {
      BeganAt(t, events[1..]);
    }
  }

  /** sleep, called at some time and taking its first step at moment b, waits 256 ticks for each second from then on in
      every interleaving exactly when the deadline does not wrap; otherwise some interleaving returns early. */
  lemma SleepWaitsIff(time: nat, seconds: nat, b: nat)
    requires time <= b
    ensures (forall events :: Run(Called(time, seconds), events).pc.Returned? && FirstStep(time, events) == b
                              ==> b + 256 * seconds <= Run(Called(time, seconds), events).time)
            <==> b % 0x1_0000_0000 + 256 * seconds < 0x1_0000_0000
  {
    var s := Called(time, seconds);
    HonestIff(b, seconds);
    if Honest(b, seconds) {
      forall events | Run(s, events).pc.Returned? && FirstStep(time, events) == b
        ensures b + seconds * RTC_FREQ <= Run(s, events).time
      {
        RunKeeps(s, events);
        BeganAt(s, events);
        var at := ReturnedExpired(s, events);
      }
    } else {
      var at: nat :| b <= at && Expired(at, Deadline(b, seconds)) && at < b + seconds * RTC_FREQ;
      var events := EarlyCall(time, seconds, b, at);
      assert Run(s, events).pc.Returned? && FirstStep(time, events) == b;
    }
  }

  lemma {:induction false} EarlyCall(time: nat, seconds: nat, b: nat, at: nat) returns (events: seq<Event>)
    requires time <= b <= at && Expired(at, Deadline(b, seconds))
    ensures var r := Run(State(time, seconds, ReadStart, time, 0), events);
            r.pc.Returned? && r.time == at && FirstStep(time, events) == b
    decreases b - time
  {
    var s := Called(time, seconds);
    if time == b {
      var rest := EarlyRun(MainStep(s), at);
      events := [Main] + rest;
      assert events[1..] == rest;
    } else {
      var rest := EarlyCall(time + 1, seconds, b, at);
      events := [Interrupt(true)] + rest;
      assert events[1..] == rest;
      BeganIrrelevant(State(time + 1, seconds, ReadStart, time, 0), State(time + 1, seconds, ReadStart, time + 1, 0), rest);
    }
  }

  /** The steps do not look at the field began. */
  lemma {:induction false} BeganIrrelevant(s: State, t: State, events: seq<Event>)
    requires t == s.(began := t.began)
    ensures Run(t, events).pc == Run(s, events).pc && Run(t, events).time == Run(s, events).time
    decreases |events|
  {
    if events != [] { BeganIrrelevant(Next(s, events[0]), Next(t, events[0]), events[1..]); }
  }

  lemma {:induction false} EarlyRun(s: State, at: nat) returns (events: seq<Event>)
    requires s.pc.Check? && s.time <= at && Expired(at, s.pc.end)
    ensures Run(s, events).pc.Returned? && Run(s, events).time == at
    decreases at - s.time
  {
    if s.time == at {
      events := [Main];
      assert Run(MainStep(s), events[1..]) == MainStep(s);
    } else {
      var rest := EarlyRun(InterruptStep(s, true), at);
      events := [Interrupt(true)] + rest;
      assert events[1..] == rest;
    }
  }

  /** Left alone, main is asleep or has returned after three steps: it does not spin. */
  lemma SleepsOrReturns(s: State)
    ensures var r := MainStep(MainStep(MainStep(s)));
            (r.pc.Halted? || r.pc.Returned?) && MainStep(r) == r
  {
  }

  // ---------- lost wake-ups and termination ----------

  /** Ticks left until the deadline. */
  function Left(s: State): nat {
    if s.pc.Check? || s.pc.Hlt? || s.pc.Halted? then
      (if Tick(s.time) < s.pc.end then s.pc.end - Tick(s.time) else 0)
    else 0
  }

  function Rank(s: State): nat {
    match s.pc
    case ReadStart => s.seconds * RTC_FREQ + 4
    case Check(_) => 1
    case Hlt(_) => 3
    case Halted(_) => 2
    case Returned => 0
  }

  /** Steps still to come: the ticks left and then at most three more, or what main has left to do. */
  function Measure(s: State): nat { if Left(s) > 0 then Left(s) + 3 else Rank(s) }

  /** A tick before the deadline; after it, a step of main awake or an interrupt that finds it asleep. */
  predicate Effective(s: State, e: Event) {
    if Left(s) > 0 then e == Interrupt(true)
    else if e.Main? then !s.pc.Halted? && !s.pc.Returned? else s.pc.Halted?
  }

  function Progress(s: State, events: seq<Event>): nat
    decreases |events|
  {
    if events == [] then 0 else (if Effective(s, events[0]) then 1 else 0) + Progress(Next(s, events[0]), events[1..])
  }

  /** At most one hlt past the deadline, and main is leaving after it. */
  predicate Prompt(s: State) {
    && s.late <= 1
    && (s.late == 1 ==> (s.pc.Halted? || s.pc.Check? || s.pc.Returned?) && Left(s) == 0)
  }

  lemma StepCost(s: State, e: Event)
    requires SameRound(s.time, Next(s, e).time)
    ensures Measure(Next(s, e)) + (if Effective(s, e) then 1 else 0) <= Measure(s)
    ensures Prompt(s) ==> Prompt(Next(s, e))
  {
    if s.pc.ReadStart? { DeadlineNear(s.time, s.seconds); }
  }

  /** A deadline lies no further ahead than the seconds asked for. */
  lemma DeadlineNear(time: nat, seconds: nat)
    ensures Deadline(time, seconds) <= Tick(time) + seconds * RTC_FREQ
  {
  }

  /** Without a wrap of the counter the effective steps use up the measure. */
  lemma {:induction false} MeasureRun(s: State, events: seq<Event>)
    requires Consistent(s) && SameRound(s.time, Run(s, events).time)
    ensures Measure(Run(s, events)) + Progress(s, events) <= Measure(s)
    ensures Progress(s, events) == Measure(s) ==> Run(s, events).pc.Returned?
    ensures Prompt(s) ==> Prompt(Run(s, events))
    decreases |events|
  {
    if events != [] {
      var t := Next(s, events[0]);
      RunKeeps(s, events[..1]);
      RunKeeps(t, events[1..]);
      TickGrows(s.time, t.time, Run(t, events[1..]).time);
      StepCost(s, events[0]);
      MeasureRun(t, events[1..]);
    }
  }

  /** Without a wrap of the counter a call of sleep returns after its ticks and four more effective steps, and executes
      at most one hlt past its deadline, in every interleaving. */
  lemma SleepReturns(time: nat, seconds: nat, events: seq<Event>)
    requires SameRound(time, Run(Called(time, seconds), events).time)
    ensures var r := Run(Called(time, seconds), events);
            (r.pc.Returned? || Progress(Called(time, seconds), events) < 256 * seconds + 4) && r.late <= 1
  {
    MeasureRun(Called(time, seconds), events);
  }
}
