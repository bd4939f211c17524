/** zombies_final_entrada_exogena.py: the coexistence model forced by a
    periodic exogenous Military pulse, in its discrete and continuous forms. */
module EntradaExogena {
  import opened Compartments
  import opened Schedule
  import SistemaFinal

  /** The defaults of military_pulse: 10 soldiers every 300 steps. */
  const DefaultMagnitude := 10.0
  const DefaultInterval := 300

  /** military_pulse: a discrete Dirac-like input, `magnitude` at every
      positive multiple of `interval` and nothing elsewhere (in particular
      nothing at step 0). */
  function MilitaryPulse(t: int, magnitude: real, interval: int): (r: real)
    requires interval != 0
    ensures r == magnitude || r == 0.0
    ensures t <= 0 ==> r == 0.0
  {
    if Fires(t, interval) then magnitude else 0.0
  }

  /** The pulse is `magnitude` exactly at the positive multiples of the
      interval, and 0 everywhere else. */
  lemma PulseAtPositiveMultiples(t: int, magnitude: real, interval: int)
    requires interval != 0
    ensures MilitaryPulse(t, magnitude, interval) == if IsPositiveMultiple(t, interval) then magnitude else 0.0
  {
    FiresIffPositiveMultiple(t, interval);
  }

  /** With the defaults, over steps 1..1500 the pulse arrives exactly at
      steps 300, 600, 900, 1200 and 1500. */
  lemma DefaultPulseTimes(t: int)
    requires 1 <= t <= TMax
    ensures MilitaryPulse(t, DefaultMagnitude, DefaultInterval) != 0.0
            <==> t == 300 || t == 600 || t == 900 || t == 1200 || t == 1500
  {
    var q, r := t / 300, t % 300;
    assert t == 300 * q + r && 0 <= r < 300;
    assert 0 <= q <= 5;
  }

  /** One pass of the loop body with the pulse of this step: the updates of
      zombies_sistema_final.py, with `pulse` soldiers added to `Mt1`. */
  function Step(p: Params, s: State, pulse: real): State
  {
    State(SistemaFinal.NextC(p, s), SistemaFinal.NextZ(p, s), SistemaFinal.NextM(p, s) + pulse, SistemaFinal.NextD(p, s))
  }

  /** The pulse reaches the Military update only: the forced step is the
      unforced step with `pulse` more soldiers, and with no pulse it is the
      unforced step. */
  lemma StepIsUnforcedPlusPulse(p: Params, s: State, pulse: real)
    ensures Step(p, s, pulse) == SistemaFinal.Step(p, s).(m := SistemaFinal.Step(p, s).m + pulse)
    ensures Step(p, s, 0.0) == SistemaFinal.Step(p, s)
  {
  }

  /** The forced step out of state `k` of a run: it is taken at time
      `k + 1` and receives that time's pulse. */
  function StepFrom(p: Params, magnitude: real, interval: int, s: State, k: int): State
    requires interval != 0
  {
    Step(p, s, MilitaryPulse(k + 1, magnitude, interval))
  }

  /** `states` is a run of the forced recurrence from `init`: state `k + 1`
      is the step from state `k` with the pulse of time `k + 1`. */
  ghost predicate IsRun(p: Params, magnitude: real, interval: int, init: State, states: seq<State>)
    requires interval != 0
  {
    && |states| >= 1
    && states[0] == init
    && forall k {:trigger StepFrom(p, magnitude, interval, states[k], k)} :: 0 <= k < |states| - 1 ==>
         states[k + 1] == StepFrom(p, magnitude, interval, states[k], k)
  }

  /** simulate_discrete with the pulse, with `init_discrete`, `t_max` and the
      pulse's magnitude and interval as parameters. On success: the run of
      `tMax` steps, every computed state non-negative. `None` exactly when
      some run of fewer than `tMax` steps, non-negative so far, has a next
      step with a negative component. */
  method SimulateDiscrete(p: Params, init: State, tMax: nat, magnitude: real, interval: int)
    returns (result: Option<seq<State>>)
    requires interval != 0
    ensures result.Some? ==> |result.value| == tMax + 1 && IsRun(p, magnitude, interval, init, result.value)
    ensures result.Some? ==> SistemaFinal.StepsNonNeg(result.value)
    ensures result.None? <==>
      exists states :: |states| <= tMax && IsRun(p, magnitude, interval, init, states)
                       && SistemaFinal.StepsNonNeg(states)
                       && !NonNeg(StepFrom(p, magnitude, interval, states[|states| - 1], |states| - 1))
  {
    var s := init;
    var states := [s];
    var step := 1;
    while step <= tMax
      invariant 1 <= step <= tMax + 1
      invariant |states| == step && s == states[step - 1]
      invariant IsRun(p, magnitude, interval, init, states) && SistemaFinal.StepsNonNeg(states)
    {
      var pulse := MilitaryPulse(step, magnitude, interval);
      var next := Step(p, s, pulse);
      assert next == StepFrom(p, magnitude, interval, s, step - 1);
      if !NonNeg(next) {
        return None;
      }
      s := next;
      states := states + [s];
      step := step + 1;
    }
    result := Some(states);
    forall other | |other| <= tMax && IsRun(p, magnitude, interval, init, other) && SistemaFinal.StepsNonNeg(other)
      ensures NonNeg(StepFrom(p, magnitude, interval, other[|other| - 1], |other| - 1))
    {
      RunsAgree(p, magnitude, interval, init, other, states);
      assert other[|other| - 1] == states[|other| - 1];
      assert states[|other|] == StepFrom(p, magnitude, interval, states[|other| - 1], |other| - 1);
    }
  }

  /** The forced recurrence is deterministic too. */
  lemma {:induction false} RunsAgree(p: Params, magnitude: real, interval: int, init: State, a: seq<State>, b: seq<State>)
    requires interval != 0
    requires IsRun(p, magnitude, interval, init, a) && IsRun(p, magnitude, interval, init, b)
    requires |a| <= |b|
    ensures a == b[..|a|]
  {
    if |a| > 1 {
      var n := |a| - 1;
      assert IsRun(p, magnitude, interval, init, a[..n]) && IsRun(p, magnitude, interval, init, b[..n]);
      RunsAgree(p, magnitude, interval, init, a[..n], b[..n]);
      assert a[n] == StepFrom(p, magnitude, interval, a[n - 1], n - 1);
      assert b[n] == StepFrom(p, magnitude, interval, b[n - 1], n - 1);
      assert a == a[..n] + [a[n]] && b[..|a|] == b[..n] + [b[n]];
    }
  }

  /** A pulse of magnitude 0, or a horizon that ends before the first pulse,
      leaves the model of zombies_sistema_final.py: the forced runs are
      exactly the unforced runs. */
  lemma UnforcedWithoutPulse(p: Params, magnitude: real, interval: int, init: State, states: seq<State>)
    requires interval > 0
    requires magnitude == 0.0 || |states| <= interval
    ensures IsRun(p, magnitude, interval, init, states) <==> SistemaFinal.IsRun(p, init, states)
  {
    forall k | 0 <= k < |states| - 1
      ensures StepFrom(p, magnitude, interval, states[k], k) == SistemaFinal.Step(p, states[k])
    {
      NoPulseBeforeFirstInterval(k + 1, magnitude, interval);
      StepFromWithoutPulse(p, magnitude, interval, states[k], k);
    }
  }

  lemma StepFromWithoutPulse(p: Params, magnitude: real, interval: int, s: State, k: int)
    requires interval != 0 && MilitaryPulse(k + 1, magnitude, interval) == 0.0
    ensures StepFrom(p, magnitude, interval, s, k) == SistemaFinal.Step(p, s)
  {
    StepIsUnforcedPlusPulse(p, s, 0.0);
  }

  /** Steps strictly between 0 and the interval get no pulse, and a pulse
      of magnitude 0 is no pulse at all. */
  lemma NoPulseBeforeFirstInterval(t: int, magnitude: real, interval: int)
    requires interval > 0
    requires magnitude == 0.0 || t < interval
    ensures MilitaryPulse(t, magnitude, interval) == 0.0
  {
    if magnitude != 0.0 && t > 0 {
      NotYetDue(t, interval);
    }
  }

  /** continuous_model with the pulse: the pulse is read at `int(t)`, so it
      is constant over each unit interval, and the field at `y` is the
      increment the discrete step of index `int(t)` makes from `y`. */
  function ContinuousModel(t: real, y: State, p: Params, magnitude: real, interval: int): (r: State)
    requires interval != 0
    ensures r == Increment(Step(p, y, MilitaryPulse(Trunc(t), magnitude, interval)), y)
  {
    var pulse := MilitaryPulse(Trunc(t), magnitude, interval);
    SistemaFinal.CivilianChange(p, y);
    SistemaFinal.ZombieChange(p, y);
    SistemaFinal.MilitaryChange(p, y);
    SistemaFinal.DeadChange(p, y);
    State(
      (p.alpha - p.beta - p.E) * y.c - p.betaCZ * y.c * y.z,
      (p.betaCZ - p.epsilonCZ) * y.c * y.z + p.rho * p.beta * (y.c + y.m) + (p.betaMZ - p.gammaMZ) * y.z * y.m,
      p.E * y.c - p.beta * y.m - p.betaMZ * y.z * y.m + pulse,
      (1.0 - p.rho) * p.beta * (y.c + y.m) + p.epsilonCZ * y.c * y.z + p.gammaMZ * y.z * y.m)
  }

  /** Soldiers injected by the pulses of steps 1..n. */
  function PulseSum(n: nat, magnitude: real, interval: int): real
    requires interval != 0
  {
    if n == 0 then 0.0 else PulseSum(n - 1, magnitude, interval) + MilitaryPulse(n, magnitude, interval)
  }

  /** Over steps 1..n a positive interval fires `n / interval` times. */
  lemma {:induction false} PulseSumClosedForm(n: nat, magnitude: real, interval: int)
    requires interval > 0
    ensures PulseSum(n, magnitude, interval) == magnitude * (n / interval) as real
  {
    if n == 0 {
      DivModUnique(0, interval, 0, 0);
    } else {
      PulseSumClosedForm(n - 1, magnitude, interval);
      QuotientStep(n, interval);
      if n % interval == 0 {
        ScaleSucc(magnitude, (n - 1) / interval);
      }
    }
  }

  lemma ScaleSucc(m: real, q: int)
    ensures m * (q + 1) as real == m * q as real + m
  {
  }

  /** Going from `n - 1` to `n`, the quotient by `k` grows by one exactly
      when `n` is a multiple of `k`. */
  lemma QuotientStep(n: int, k: int)
    requires n > 0 && k > 0
    ensures n % k == 0 ==> n / k == (n - 1) / k + 1
    ensures n % k != 0 ==> n / k == (n - 1) / k
  {
    var q, r := (n - 1) / k, (n - 1) % k;
    if r == k - 1 {
      DivModUnique(n, k, q + 1, 0);
    } else {
      DivModUnique(n, k, q, r + 1);
    }
  }

  /** After `n` steps of a forced run the total has grown by `alpha` times
      the civilians summed over the steps, plus every pulse so far. */
  lemma {:induction false} TotalAfter(p: Params, magnitude: real, interval: int, init: State, states: seq<State>, n: nat)
    requires interval != 0
    requires IsRun(p, magnitude, interval, init, states) && n < |states|
    ensures Total(states[n]) == Total(init) + p.alpha * SistemaFinal.CivilianSum(states, n) + PulseSum(n, magnitude, interval)
  {
    if n > 0 {
      TotalAfter(p, magnitude, interval, init, states, n - 1);
      RunStepGrowth(p, magnitude, interval, init, states, n);
      SistemaFinal.Distribute(p.alpha, SistemaFinal.CivilianSum(states, n - 1), states[n - 1].c);
    }
  }

  /** StepGrowth at step `n` of a forced run. */
  lemma RunStepGrowth(p: Params, magnitude: real, interval: int, init: State, states: seq<State>, n: nat)
    requires interval != 0
    requires IsRun(p, magnitude, interval, init, states) && 0 < n < |states|
    ensures Total(states[n]) == Total(states[n - 1]) + p.alpha * states[n - 1].c + MilitaryPulse(n, magnitude, interval)
  {
    assert states[n] == StepFrom(p, magnitude, interval, states[n - 1], n - 1);
    StepGrowth(p, states[n - 1], MilitaryPulse(n, magnitude, interval));
  }

  /** The conservation law of one forced step: the total grows by
      `alpha * C` plus the pulse. */
  lemma StepGrowth(p: Params, s: State, pulse: real)
    ensures Total(Step(p, s, pulse)) == Total(s) + p.alpha * s.c + pulse
  {
    SistemaFinal.StepGrowth(p, s);
  }
}
