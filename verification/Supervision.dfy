/**
 The two supervisors of the email worker: the restart loop and the crash-recording
 step machine. They were written independently; here they are shown to agree.
 */
module Supervision {
  import opened Common

  const MAX_RESTARTS: nat := 5
  const BASE_MS: nat := 500
  const U32_MAX: nat := 0xffff_ffff

  /** `500 ms * 2u32.saturating_pow(attempt)`. */
  function EmailWorkerBackoff(attempt: nat): nat {
    BASE_MS * Min(Pow2(attempt), U32_MAX)
  }

  /** `1u32.checked_shl(attempt)`: no shift by the full width or more; bits shifted out are lost. */
  function CheckedShl(attempt: nat): Option<nat> {
    if attempt < 32 then Some(Pow2(attempt) % (U32_MAX + 1)) else None
  }

  function BackoffForAttempt(attempt: nat): nat {
    BASE_MS * CheckedShl(attempt).GetOr(U32_MAX)
  }

  lemma Pow2Values()
    ensures Pow2(31) == 0x8000_0000 && Pow2(32) == 0x1_0000_0000
  {
    assert Pow2(8) == 256;
    assert Pow2(16) == 65536;
    assert Pow2(24) == 0x100_0000;
    assert Pow2(28) == 0x1000_0000;
  }

  /** The two backoff formulas agree for every attempt number, saturated or not. */
  lemma BackoffsAgree(attempt: nat)
    ensures EmailWorkerBackoff(attempt) == BackoffForAttempt(attempt)
  {
    Pow2Values();
    if attempt < 32 {
      Pow2Monotone(attempt, 31);
    } else {
      Pow2Monotone(32, attempt);
    }
  }

  datatype Outcome = Completed | Recovered(attempts: nat) | Exhausted(attempts: nat)

  /** Everything observable about a supervised worker. */
  datatype Trace = Trace(outcome: Outcome, calls: nat, sleeps: seq<nat>, crashes: nat)

  /**
   The intended behaviour for a restart cap: run until the first success or until
   cap + 1 crashes, sleeping the doubling backoff between runs.
   */
  ghost predicate Supervised(cap: nat, succeeds: nat -> bool, t: Trace) {
    && t.calls >= 1
    && (forall i :: 0 <= i < t.calls - 1 ==> !succeeds(i))
    && (forall i :: 0 <= i < |t.sleeps| ==> t.sleeps[i] == EmailWorkerBackoff(i))
    && |t.sleeps| == t.calls - 1
    && if succeeds(t.calls - 1)
       then t.calls <= cap + 1 && t.crashes == t.calls - 1
            && t.outcome == (if t.calls == 1 then Completed else Recovered(t.calls - 1))
       else t.calls == cap + 1 && t.crashes == t.calls && t.outcome == Exhausted(t.calls)
  }

  class LoopSupervisor {
    const maxRestarts: nat
    var crashTotal: nat

    constructor (maxRestarts: nat)
      ensures this.maxRestarts == maxRestarts && crashTotal == 0
    {
      this.maxRestarts, crashTotal := maxRestarts, 0;
    }

    /** The 32-bit attempt counter overflows only under the largest cap, after as many crashes as it can count. */
    method Supervise(succeeds: nat -> bool) returns (t: Trace)
      requires maxRestarts <= U32_MAX
      requires maxRestarts < U32_MAX || exists n: nat :: n <= U32_MAX && succeeds(n)
      modifies this
      ensures Supervised(maxRestarts, succeeds, t)
      ensures crashTotal == old(crashTotal) + t.crashes
    {
      var attempts := 0;
      var calls := 0;
      var sleeps: seq<nat> := [];
      while true
        invariant calls == attempts == |sleeps| && attempts <= maxRestarts
        invariant crashTotal == old(crashTotal) + attempts
        invariant forall i :: 0 <= i < calls ==> !succeeds(i)
        invariant forall i :: 0 <= i < |sleeps| ==> sleeps[i] == EmailWorkerBackoff(i)
        decreases maxRestarts - attempts
      {
        calls := calls + 1;
        if succeeds(calls - 1) {
          return Trace(if attempts == 0 then Completed else Recovered(attempts), calls, sleeps, attempts);
        }
        crashTotal := crashTotal + 1;
        assert attempts + 1 <= U32_MAX;
        attempts := attempts + 1;
        if attempts > maxRestarts {
          return Trace(Exhausted(attempts), calls, sleeps, attempts);
        }
        sleeps := sleeps + [EmailWorkerBackoff(attempts - 1)];
      }
    }
  }

  class StepSupervisor {
    var restarts: nat
    var crashes: nat

    constructor ()
      ensures restarts == 0 && crashes == 0
    {
      restarts, crashes := 0, 0;
    }

    method RecordCrash() returns (delay: Option<nat>)
      modifies this
      ensures crashes == old(crashes) + 1
      ensures old(restarts) >= 5 ==> delay.None? && restarts == old(restarts)
      ensures old(restarts) < 5 ==>
                delay == Some(BackoffForAttempt(old(restarts))) && restarts == old(restarts) + 1
    {
      crashes := crashes + 1;
      if restarts >= MAX_RESTARTS {
        return None;
      }
      delay := Some(BackoffForAttempt(restarts));
      restarts := restarts + 1;
    }
  }

  /** A caller that restarts the worker whenever the step machine grants a delay. */
  method DriveSteps(succeeds: nat -> bool) returns (t: Trace, machine: StepSupervisor)
    ensures Supervised(5, succeeds, t)
    ensures machine.crashes == t.crashes && machine.restarts == |t.sleeps|
  {
    machine := new StepSupervisor();
    var calls := 0;
    var sleeps: seq<nat> := [];
    while true
      invariant fresh(machine) && calls == machine.restarts == machine.crashes == |sleeps| <= MAX_RESTARTS
      invariant forall i :: 0 <= i < calls ==> !succeeds(i)
      invariant forall i :: 0 <= i < |sleeps| ==> sleeps[i] == EmailWorkerBackoff(i)
      decreases MAX_RESTARTS - calls
    {
      calls := calls + 1;
      if succeeds(calls - 1) {
        t := Trace(if calls == 1 then Completed else Recovered(calls - 1), calls, sleeps, calls - 1);
        return;
      }
      BackoffsAgree(machine.restarts);
      var delay := machine.RecordCrash();
      if delay.None? {
        t := Trace(Exhausted(calls), calls, sleeps, calls);
        return;
      }
      sleeps := sleeps + [delay.value];
    }
  }

  /**
   A worker's outcomes determine everything about its supervision, so the loop
   with the default cap and the step machine agree on every run.
   */
  lemma SupervisionIsDetermined(cap: nat, succeeds: nat -> bool, a: Trace, b: Trace)
    requires Supervised(cap, succeeds, a) && Supervised(cap, succeeds, b)
    ensures a == b
  {
  }

  /** The delays of n restarts. */
  ghost predicate Delays(sleeps: seq<nat>) {
    forall i :: 0 <= i < |sleeps| ==> sleeps[i] == EmailWorkerBackoff(i)
  }

  lemma {:induction false} SleepBelowSaturation(sleeps: seq<nat>)
    requires Delays(sleeps) && |sleeps| <= 32
    ensures Sum(sleeps) == BASE_MS * (Pow2(|sleeps|) - 1)
  {
    var n := |sleeps|;
    if n > 0 {
      SleepBelowSaturation(sleeps[..n - 1]);
      Pow2Values();
      Pow2Monotone(n - 1, 31);
    }
  }

  lemma {:induction false} SleepAboveSaturation(sleeps: seq<nat>)
    requires Delays(sleeps) && |sleeps| >= 33
    ensures Sum(sleeps) < BASE_MS * (Pow2(|sleeps|) - 1)
  {
    var n := |sleeps|;
    Pow2Values();
    if n == 33 {
      SleepBelowSaturation(sleeps[..32]);
    } else {
      SleepAboveSaturation(sleeps[..n - 1]);
    }
    Pow2Monotone(32, n - 1);
  }

  /** A supervised run with n restarts sleeps 500 * (2^n - 1) ms in all, exactly up to 32 restarts. */
  lemma TotalSleepIff(cap: nat, succeeds: nat -> bool, t: Trace)
    requires Supervised(cap, succeeds, t)
    ensures Sum(t.sleeps) == 500 * (Pow2(|t.sleeps|) - 1) <==> |t.sleeps| <= 32
    ensures forall i :: 32 <= i < |t.sleeps| ==> t.sleeps[i] == 500 * 0xffff_ffff
  {
    forall i | 32 <= i < |t.sleeps|
      ensures t.sleeps[i] == 500 * 0xffff_ffff
    {
      Pow2Values();
      Pow2Monotone(32, i);
    }
    if |t.sleeps| <= 32 {
      SleepBelowSaturation(t.sleeps);
    } else {
      SleepAboveSaturation(t.sleeps);
    }
  }
}
