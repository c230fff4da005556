/**
 * The gesture debouncer `handleStableGesture` (components/SmartGestureModal.tsx):
 * it turns the per-frame finger count into rare, deliberate gestures.
 * Its three refs are the candidate value, the run counter and the time of the
 * last firing; the clock reading `Date.now()` is a parameter.
 */
module GestureDebounce {

  /** The run counter must exceed this many repeats before a gesture fires. */
  const DwellFrames: nat := 20
  /** Milliseconds that must pass after a firing before the next one. */
  const CooldownMs: int := 1500

  datatype Debouncer = Debouncer(candidate: int, run: nat, lastFired: int)

  /** The refs as the component initialises them. */
  const Initial: Debouncer := Debouncer(0, 0, 0)

  /** One processed frame: its finger count and the clock reading in milliseconds. */
  datatype Sample = Sample(count: int, now: int)

  /** Only counts 1..5 are actions. */
  predicate IsAction(count: int) {
    1 <= count <= 5
  }

  /**
   * One call of `handleStableGesture(count)` at time `now`: the new refs and
   * whether `triggerAction(count)` is called.
   */
  function Observe(d: Debouncer, count: int, now: int): (Debouncer, bool)
  {
    var run := if count == d.candidate then d.run + 1 else 0;
    if run > DwellFrames && now - d.lastFired > CooldownMs && IsAction(count) then
      (Debouncer(count, 0, now), true)
    else
      (Debouncer(count, run, d.lastFired), false)
  }

  /** A gesture fires exactly when it repeats the candidate, the run is long enough, the cooldown is over and it is an action. */
  lemma FiresExactlyWhen(d: Debouncer, count: int, now: int)
    ensures Observe(d, count, now).1 <==>
      count == d.candidate && d.run >= DwellFrames && now - d.lastFired > CooldownMs && IsAction(count)
  {
  }

  /** Every sample becomes the candidate; firing restarts the run and records the time. */
  lemma ObserveUpdates(d: Debouncer, count: int, now: int)
    ensures Observe(d, count, now).0.candidate == count
    ensures Observe(d, count, now).1 ==> Observe(d, count, now).0.run == 0 && Observe(d, count, now).0.lastFired == now
    ensures !Observe(d, count, now).1 ==> Observe(d, count, now).0.lastFired == d.lastFired
    ensures !Observe(d, count, now).1 && count == d.candidate ==> Observe(d, count, now).0.run == d.run + 1
    ensures count != d.candidate ==> Observe(d, count, now).0.run == 0
  {
  }

  /** A count outside 1..5 (0 in particular) never fires, keeps the last firing time and does not restart a run. */
  lemma NonActionNeverFires(d: Debouncer, count: int, now: int)
    requires !IsAction(count)
    ensures !Observe(d, count, now).1
    ensures Observe(d, count, now).0.lastFired == d.lastFired
    ensures count == d.candidate ==> Observe(d, count, now).0.run == d.run + 1
  {
  }

  /** The state after feeding `samples`, in order, starting from `d0`. */
  function Run(d0: Debouncer, samples: seq<Sample>): Debouncer
    decreases |samples|
  {
    if samples == [] then d0
    else
      var last := samples[|samples| - 1];
      Observe(Run(d0, samples[..|samples| - 1]), last.count, last.now).0
  }

  /** Whether sample `i` fires when `samples` is fed to a fresh debouncer. */
  predicate FiredAt(samples: seq<Sample>, i: nat)
    requires i < |samples|
  {
    Observe(Run(Initial, samples[..i]), samples[i].count, samples[i].now).1
  }

  lemma RunStep(d0: Debouncer, samples: seq<Sample>, s: Sample)
    ensures Run(d0, samples + [s]) == Observe(Run(d0, samples), s.count, s.now).0
  {
    assert (samples + [s])[..|samples|] == samples;
  }

  /** Firing at `i` is decided by the first `i + 1` samples only. */
  lemma FiredAtPrefix(samples: seq<Sample>, m: nat, i: nat)
    requires i < m <= |samples|
    ensures FiredAt(samples[..m], i) == FiredAt(samples, i)
  {
    assert samples[..m][..i] == samples[..i];
  }

  /**
   * Invariant of a fresh debouncer: the candidate is the latest sample, and
   * the last `run` samples all equal it. A candidate other than the initial 0
   * was itself read as a sample, so then the last `run + 1` samples equal it.
   */
  lemma {:induction false} TrailingRun(samples: seq<Sample>)
    ensures Run(Initial, samples).run <= |samples|
    ensures samples != [] ==> Run(Initial, samples).candidate == samples[|samples| - 1].count
    ensures forall k :: |samples| - Run(Initial, samples).run <= k < |samples| ==>
      samples[k].count == Run(Initial, samples).candidate
    ensures Run(Initial, samples).candidate != 0 ==>
      Run(Initial, samples).run + 1 <= |samples| &&
      forall k :: |samples| - Run(Initial, samples).run - 1 <= k < |samples| ==>
        samples[k].count == Run(Initial, samples).candidate
  {
    if samples != [] {
      var n := |samples|;
      var prefix := samples[..n - 1];
      TrailingRun(prefix);
      assert prefix + [samples[n - 1]] == samples;
      RunStep(Initial, prefix, samples[n - 1]);
    }
  }

  /** After a firing at `i`, the run counts at most the samples fed since. */
  lemma {:induction false} RunSinceFiring(samples: seq<Sample>, i: nat)
    requires i < |samples| && FiredAt(samples, i)
    ensures Run(Initial, samples).run <= |samples| - 1 - i
  {
    var n := |samples|;
    var prefix := samples[..n - 1];
    assert prefix + [samples[n - 1]] == samples;
    RunStep(Initial, prefix, samples[n - 1]);
    if i < n - 1 {
      FiredAtPrefix(samples, n - 1, i);
      RunSinceFiring(prefix, i);
    } else {
      assert prefix == samples[..i];
    }
  }

  /** With no firing after `i`, the recorded firing time is that of sample `i`. */
  lemma {:induction false} LastFiredSince(samples: seq<Sample>, i: nat)
    requires i < |samples| && FiredAt(samples, i)
    requires forall k :: i < k < |samples| ==> !FiredAt(samples, k)
    ensures Run(Initial, samples).lastFired == samples[i].now
  {
    var n := |samples|;
    var prefix := samples[..n - 1];
    assert prefix + [samples[n - 1]] == samples;
    RunStep(Initial, prefix, samples[n - 1]);
    if i < n - 1 {
      FiredAtPrefix(samples, n - 1, i);
      forall k | i < k < n - 1 ensures !FiredAt(prefix, k) {
        FiredAtPrefix(samples, n - 1, k);
      }
      LastFiredSince(prefix, i);
      assert !FiredAt(samples, n - 1);
      assert samples[..n - 1] == prefix;
    } else {
      assert prefix == samples[..i];
    }
  }

  /**
   * A firing needs a held gesture: the firing sample is an action and it and
   * the 21 samples before it are all equal (22 equal samples in all).
   */
  lemma DwellBeforeFiring(samples: seq<Sample>, j: nat)
    requires j < |samples| && FiredAt(samples, j)
    ensures IsAction(samples[j].count)
    ensures DwellFrames + 1 <= j
    ensures forall k :: j - DwellFrames - 1 <= k <= j ==> samples[k].count == samples[j].count
  {
    var prefix := samples[..j];
    TrailingRun(prefix);
    FiresExactlyWhen(Run(Initial, prefix), samples[j].count, samples[j].now);
  }

  /**
   * No double trigger: two firings are more than 20 samples apart, and two
   * consecutive firings are more than 1500 ms apart on the clock.
   */
  lemma FiringsSpaced(samples: seq<Sample>, i: nat, j: nat)
    requires i < j < |samples| && FiredAt(samples, i) && FiredAt(samples, j)
    ensures j - i > DwellFrames
    ensures (forall k :: i < k < j ==> !FiredAt(samples, k)) ==> samples[j].now - samples[i].now > CooldownMs
  {
    var prefix := samples[..j];
    FiredAtPrefix(samples, j, i);
    RunSinceFiring(prefix, i);
    FiresExactlyWhen(Run(Initial, prefix), samples[j].count, samples[j].now);
    if forall k :: i < k < j ==> !FiredAt(samples, k) {
      forall k | i < k < j ensures !FiredAt(prefix, k) {
        FiredAtPrefix(samples, j, k);
      }
      LastFiredSince(prefix, i);
    }
  }

  /**
   * Any two firings are more than 1500 ms apart on the clock, whatever the
   * clock does between them: each firing is more than 1500 ms after the one before.
   */
  lemma {:induction false} FiringsSpacedInTime(samples: seq<Sample>, i: nat, j: nat)
    requires i < j < |samples| && FiredAt(samples, i) && FiredAt(samples, j)
    ensures samples[j].now - samples[i].now > CooldownMs
    decreases j - i
  {
    if k :| i < k < j && FiredAt(samples, k) {
      FiringsSpacedInTime(samples, i, k);
      FiringsSpacedInTime(samples, k, j);
    } else {
      FiringsSpaced(samples, i, j);
    }
  }

  /**
   * While nothing in `held` has fired, feeding one repeated count after any
   * history `prefix` keeps the last firing time and grows the run by one per
   * sample (the first sample of `held` may restart it at 0).
   */
  lemma {:induction false} HeldRunGrows(prefix: seq<Sample>, held: seq<Sample>, c: int, k: nat)
    requires k <= |held|
    requires forall i :: 0 <= i < |held| ==> held[i].count == c
    requires forall i :: |prefix| <= i < |prefix| + k ==> !FiredAt(prefix + held, i)
    ensures Run(Initial, (prefix + held)[..|prefix| + k]).lastFired == Run(Initial, prefix).lastFired
    ensures k > 0 ==> Run(Initial, (prefix + held)[..|prefix| + k]).candidate == c
    ensures k > 0 ==> Run(Initial, (prefix + held)[..|prefix| + k]).run + 1 >= k
  {
    var samples := prefix + held;
    var p := |prefix|;
    if k == 0 {
      assert samples[..p] == prefix;
    } else {
      HeldRunGrows(prefix, held, c, k - 1);
      assert !FiredAt(samples, p + k - 1);
      assert samples[p + k - 1] == held[k - 1];
      assert samples[..p + k] == samples[..p + k - 1] + [samples[p + k - 1]];
      RunStep(Initial, samples[..p + k - 1], samples[p + k - 1]);
    }
  }

  /**
   * A held gesture fires: after any history `prefix`, 22 equal action samples,
   * each read more than 1500 ms after the last firing time of that history,
   * fire at least once within those 22.
   */
  lemma HeldGestureFires(prefix: seq<Sample>, held: seq<Sample>, c: int)
    requires IsAction(c) && |held| >= DwellFrames + 2
    requires forall i :: 0 <= i < |held| ==>
      held[i].count == c && held[i].now - Run(Initial, prefix).lastFired > CooldownMs
    ensures exists i :: |prefix| <= i <= |prefix| + DwellFrames + 1 && FiredAt(prefix + held, i)
  {
    var samples := prefix + held;
    var p := |prefix|;
    if !exists i :: p <= i <= p + DwellFrames && FiredAt(samples, i) {
      HeldRunGrows(prefix, held, c, DwellFrames + 1);
      assert samples[p + DwellFrames + 1] == held[DwellFrames + 1];
      FiresExactlyWhen(Run(Initial, samples[..p + DwellFrames + 1]), c, held[DwellFrames + 1].now);
      assert FiredAt(samples, p + DwellFrames + 1);
    }
  }
}
