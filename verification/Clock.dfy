/** The 32-bit tick counter, and deadlines computed from it. */
module Clock {

  import opened Unsigned

  const RTC_FREQ := 256

  /** What the counter shows after this many timer interrupts. */
  function Tick(time: nat): nat { U32(time) }

  /** Now plus some seconds, in 32 bits. */
  function Deadline(time: nat, seconds: nat): nat { U32(Tick(time) + seconds * RTC_FREQ) }

  predicate Expired(time: nat, deadline: nat) { deadline <= Tick(time) }

  /** An expired deadline means that the full time has passed. */
  ghost predicate Honest(start: nat, seconds: nat) {
    forall time: nat :: start <= time && Expired(time, Deadline(start, seconds)) ==> start + seconds * RTC_FREQ <= time
  }

  /** The first moment at or after start that shows the tick d. */
  function Reach(start: nat, d: nat): nat
    requires d < MODULUS
  {
    if d >= Tick(start) then start - Tick(start) + d else start
  }

  /** A deadline is honest exactly when computing it does not wrap. */
  lemma HonestIff(start: nat, seconds: nat)
    ensures Honest(start, seconds) <==> Tick(start) + seconds * RTC_FREQ < MODULUS
  {
    var d := Deadline(start, seconds);
    if Tick(start) + seconds * RTC_FREQ < MODULUS {
      forall time: nat | start <= time && Expired(time, d) ensures start + seconds * RTC_FREQ <= time {
        SameEpoch(start, time);
      }
    } else {
      var t := Reach(start, d);
      ReachShows(start, d);
      assert Expired(t, d) && t < start + seconds * RTC_FREQ;
    }
  }

  lemma SameEpoch(start: nat, time: nat)
    requires start <= time
    ensures time - Tick(time) == start - Tick(start) || start - Tick(start) + MODULUS <= time
  {
  }

  lemma ReachShows(start: nat, d: nat)
    requires d < MODULUS
    ensures start <= Reach(start, d) && Expired(Reach(start, d), d) && Reach(start, d) < start - Tick(start) + MODULUS
  {
  }

  lemma TickAt(start: nat, d: nat)
    requires Tick(start) <= d < MODULUS
    ensures Tick(start - Tick(start) + d) == d
  {
  }

  /** The counter did not wrap between the two moments. */
  predicate SameRound(time: nat, later: nat) { later - Tick(later) == time - Tick(time) }

  lemma TickGrows(time: nat, mid: nat, later: nat)
    requires time <= mid <= later && SameRound(time, later)
    ensures SameRound(time, mid) && SameRound(mid, later) && Tick(mid) - Tick(time) == mid - time
  {
  }
}
