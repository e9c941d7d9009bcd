/** The wake-up times of the cyclic task: absolute, so that no cycle's delay carries over to the next. */
module Schedule {

  const NSEC_PER_SEC := 1_000_000_000

  datatype Timespec = Timespec(sec: int, nsec: int)

  function Nanoseconds(t: Timespec): int { t.sec * NSEC_PER_SEC + t.nsec }

  /** What the clock accepts as a time. */
  predicate Normalised(t: Timespec) { 0 <= t.nsec < NSEC_PER_SEC }

  function TimespecAdd(a: Timespec, b: Timespec): Timespec {
    var nsec := a.nsec + b.nsec;
    if nsec >= NSEC_PER_SEC then Timespec(a.sec + b.sec + 1, nsec - NSEC_PER_SEC)
    else Timespec(a.sec + b.sec, nsec)
  }

  /** The wake-up time of the k-th cycle. The whole period is put into the nanoseconds. */
  function WakeUp(start: Timespec, period: nat, k: nat): Timespec {
    if k == 0 then start else TimespecAdd(WakeUp(start, period, k - 1), Timespec(0, period))
  }

  /** No drift: each wake-up is a whole number of periods after the start, for any period. */
  lemma {:induction false} NoDrift(start: Timespec, period: nat, k: nat)
    ensures Nanoseconds(WakeUp(start, period, k)) == Nanoseconds(start) + k * period
  {
    if k > 0 {
      NoDrift(start, period, k - 1);
      assert k * period == (k - 1) * period + period;
    }
  }

  lemma {:induction false} StaysNormalised(start: Timespec, period: nat, k: nat)
    requires Normalised(start) && period <= NSEC_PER_SEC
    ensures Normalised(WakeUp(start, period, k))
  {
    if k > 0 {
      StaysNormalised(start, period, k - 1);
    }
  }

  /** A longer period leaves its excess behind in every cycle. */
  lemma {:induction false} Excess(start: Timespec, period: nat, k: nat)
    requires Normalised(start) && period >= NSEC_PER_SEC
    ensures WakeUp(start, period, k).nsec == start.nsec + k * (period - NSEC_PER_SEC)
  {
    if k > 0 {
      Excess(start, period, k - 1);
      var excess := period - NSEC_PER_SEC;
      assert k * excess == (k - 1) * excess + excess;
      assert (k - 1) * excess >= 0 by { NotNegative(k - 1, excess); }
    }
  }

  lemma NotNegative(x: nat, y: nat)
    ensures x * y >= 0
  {
  }

  /** One carry per addition is enough exactly for periods of at most a second: only then does the clock
      accept every wake-up time. */
  lemma NormalisedForEverIff(start: Timespec, period: nat)
    requires Normalised(start)
    ensures period <= NSEC_PER_SEC <==> forall k: nat :: Normalised(WakeUp(start, period, k))
  {
    if period <= NSEC_PER_SEC {
      forall k: nat
        ensures Normalised(WakeUp(start, period, k))
      {
        StaysNormalised(start, period, k);
      }
    } else {
      var k: nat := NSEC_PER_SEC;
      Excess(start, period, k);
      assert !Normalised(WakeUp(start, period, k));
    }
  }

  /** The clock side of the task: it sleeps until each wake-up time in turn and gives up at the first that
      the clock refuses. */
  method Sleeps(start: Timespec, period: nat, cycles: nat) returns (wakeups: seq<Timespec>)
    requires Normalised(start)
    ensures |wakeups| <= cycles
    ensures forall k :: 0 <= k < |wakeups| ==>
              wakeups[k] == WakeUp(start, period, k + 1) && Normalised(wakeups[k])
    ensures |wakeups| < cycles ==> !Normalised(WakeUp(start, period, |wakeups| + 1))
  {
    wakeups := [];
    var wakeup, cycletime := start, Timespec(0, period);
    while |wakeups| < cycles
      invariant |wakeups| <= cycles && wakeup == WakeUp(start, period, |wakeups|)
      invariant forall k :: 0 <= k < |wakeups| ==>
                  wakeups[k] == WakeUp(start, period, k + 1) && Normalised(wakeups[k])
    {
      wakeup := TimespecAdd(wakeup, cycletime);
      if !(0 <= wakeup.nsec < NSEC_PER_SEC) {
        return;
      }
      wakeups := wakeups + [wakeup];
    }
  }
}
