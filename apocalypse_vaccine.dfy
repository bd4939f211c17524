/** zombies_apocalypse_vaccine.py: the clamped L/Z Euler step with a periodic
    vaccine that lowers the infection coefficient gamma at the vaccination
    times, and the driver that records populations and effective gamma. */
module ApocalypseVaccine {
  import opened Schedule
  import opened Apocalypse
  import CompetitionDiscrete

  /** The period and efficacy of the comparison run without vaccine. */
  const NoVaccinePeriod := 999999
  const NoVaccineEfficacy := 0.0

  /** `effective_gamma`: gamma reduced by the efficacy at the vaccination
      times (positive multiples of the period), gamma itself otherwise. */
  function EffectiveGamma(gamma: real, timeStep: int, period: int, efficacy: real): (r: real)
    requires period != 0
    ensures r == gamma || r == gamma * (1.0 - efficacy)
    ensures timeStep <= 0 || efficacy == 0.0 ==> r == gamma
  {
    if Fires(timeStep, period) then gamma * (1.0 - efficacy) else gamma
  }

  /** The reduction happens exactly at the positive multiples of the
      period. */
  lemma EffectiveGammaAtMultiples(gamma: real, timeStep: int, period: int, efficacy: real)
    requires period != 0
    ensures EffectiveGamma(gamma, timeStep, period, efficacy)
         == if IsPositiveMultiple(timeStep, period) then gamma * (1.0 - efficacy) else gamma
  {
    FiresIffPositiveMultiple(timeStep, period);
  }

  /** discrete_lotka_volterra with the vaccine: the clamped Euler step of
      zombies_competition_discrete.py with the effective gamma in place of
      gamma, in both the L and the Z update. */
  function DiscreteLotkaVolterra(p: LVParams, y: Pop, dt: real, timeStep: int, period: int, efficacy: real): (r: Pop)
    requires period != 0
    ensures r.l >= 0.0 && r.z >= 0.0
  {
    CompetitionDiscrete.DiscreteLotkaVolterra(p.(gamma := EffectiveGamma(p.gamma, timeStep, period, efficacy)), y, dt)
  }

  /** A vaccine of efficacy 0 changes nothing, whatever the period. */
  lemma NoEfficacyIsPlain(p: LVParams, y: Pop, dt: real, timeStep: int, period: int)
    requires period != 0
    ensures DiscreteLotkaVolterra(p, y, dt, timeStep, period, 0.0) == CompetitionDiscrete.DiscreteLotkaVolterra(p, y, dt)
  {
    assert EffectiveGamma(p.gamma, timeStep, period, 0.0) == p.gamma;
    assert p.(gamma := p.gamma) == p;
  }

  /** Away from the vaccination times the step is the plain step. */
  lemma OffScheduleIsPlain(p: LVParams, y: Pop, dt: real, timeStep: int, period: int, efficacy: real)
    requires period != 0 && !Fires(timeStep, period)
    ensures DiscreteLotkaVolterra(p, y, dt, timeStep, period, efficacy) == CompetitionDiscrete.DiscreteLotkaVolterra(p, y, dt)
  {
    assert p.(gamma := p.gamma) == p;
  }

  /** With `L == 0` and `Z >= 0` the step returns `(0, Z)`, vaccine or not. */
  lemma ExtinctionIsFixed(p: LVParams, y: Pop, dt: real, timeStep: int, period: int, efficacy: real)
    requires period != 0
    requires y.l == 0.0 && y.z >= 0.0
    ensures DiscreteLotkaVolterra(p, y, dt, timeStep, period, efficacy) == y
  {
    CompetitionDiscrete.ExtinctionIsFixed(p.(gamma := EffectiveGamma(p.gamma, timeStep, period, efficacy)), y, dt);
  }

  /** The driver's own formula for the gamma it records at step `t`:
      `gamma * (1 - vaccine_efficacy if t % vaccine_period == 0 else 1)`.
      It leaves out the test `t > 0` of the step. */
  function RecordedGamma(gamma: real, t: int, period: int, efficacy: real): real
    requires period != 0
  {
    gamma * (if t % period == 0 then 1.0 - efficacy else 1.0)
  }

  /** From step 1 on, the recorded gamma is the one the step uses; at step 0
      the driver records gamma itself, which is also the step's value. */
  lemma RecordedGammaIsEffective(gamma: real, t: int, period: int, efficacy: real)
    requires period != 0 && t >= 1
    ensures RecordedGamma(gamma, t, period, efficacy) == EffectiveGamma(gamma, t, period, efficacy)
  {
  }

  /** The step that produces entry `k + 1` of the driver's arrays: the driver
      passes `time_step = k + 1`. */
  function StepFrom(p: LVParams, y: Pop, dt: real, k: int, period: int, efficacy: real): Pop
    requires period != 0
  {
    DiscreteLotkaVolterra(p, y, dt, k + 1, period, efficacy)
  }

  /** `ls` and `zs` hold an orbit of the vaccinated step: entry `k + 1` is
      the step at time `k + 1` from entry `k`. */
  ghost predicate IsOrbit(p: LVParams, dt: real, period: int, efficacy: real, ls: seq<real>, zs: seq<real>)
    requires period != 0
  {
    && |ls| == |zs|
    && forall k {:trigger StepFrom(p, Pop(ls[k], zs[k]), dt, k, period, efficacy)} :: 0 <= k < |ls| - 1 ==>
         Pop(ls[k + 1], zs[k + 1]) == StepFrom(p, Pop(ls[k], zs[k]), dt, k, period, efficacy)
  }

  /** The driver loop over one parameter set: entry 0 of the populations is
      the initial state and each later entry the vaccinated step from the
      one before; every entry of `gammaEffective` is the effective gamma of
      its time step. */
  method Simulate(p: LVParams, init: Pop, dt: real, timeSteps: nat, period: int, efficacy: real)
    returns (lValues: array<real>, zValues: array<real>, gammaEffective: array<real>)
    requires timeSteps >= 1 && period != 0
    ensures fresh(lValues) && fresh(zValues) && fresh(gammaEffective)
    ensures lValues.Length == timeSteps && zValues.Length == timeSteps && gammaEffective.Length == timeSteps
    ensures lValues[0] == init.l && zValues[0] == init.z
    ensures IsOrbit(p, dt, period, efficacy, lValues[..], zValues[..])
    ensures forall t :: 1 <= t < timeSteps ==> lValues[t] >= 0.0 && zValues[t] >= 0.0
    ensures forall t :: 0 <= t < timeSteps ==> gammaEffective[t] == EffectiveGamma(p.gamma, t, period, efficacy)
  {
    lValues := new real[timeSteps];
    zValues := new real[timeSteps];
    gammaEffective := new real[timeSteps];
    lValues[0] := init.l;
    zValues[0] := init.z;
    gammaEffective[0] := p.gamma;
    for t := 1 to timeSteps
      invariant lValues[0] == init.l && zValues[0] == init.z
      invariant IsOrbit(p, dt, period, efficacy, lValues[..t], zValues[..t])
      invariant forall k :: 0 <= k < t ==> gammaEffective[k] == EffectiveGamma(p.gamma, k, period, efficacy)
    {
      gammaEffective[t] := RecordedGamma(p.gamma, t, period, efficacy);
      RecordedGammaIsEffective(p.gamma, t, period, efficacy);
      var next := DiscreteLotkaVolterra(p, Pop(lValues[t - 1], zValues[t - 1]), dt, t, period, efficacy);
      assert next == StepFrom(p, Pop(lValues[t - 1], zValues[t - 1]), dt, t - 1, period, efficacy);
      lValues[t], zValues[t] := next.l, next.z;
      assert lValues[..t + 1] == lValues[..t] + [next.l];
      assert zValues[..t + 1] == zValues[..t] + [next.z];
    }
    assert lValues[..] == lValues[..timeSteps];
    assert zValues[..] == zValues[..timeSteps];
    OrbitNonNeg(p, dt, period, efficacy, lValues[..], zValues[..]);
  }

  /** Every entry of an orbit after the first is non-negative. */
  lemma OrbitNonNeg(p: LVParams, dt: real, period: int, efficacy: real, ls: seq<real>, zs: seq<real>)
    requires period != 0
    requires IsOrbit(p, dt, period, efficacy, ls, zs)
    ensures forall k :: 1 <= k < |ls| ==> ls[k] >= 0.0 && zs[k] >= 0.0
  {
    forall k | 1 <= k < |ls|
      ensures ls[k] >= 0.0 && zs[k] >= 0.0
    {
      assert Pop(ls[k], zs[k]) == StepFrom(p, Pop(ls[k - 1], zs[k - 1]), dt, k - 1, period, efficacy);
    }
  }

  /** The comparison run passes efficacy 0 and period 999999; either alone
      makes it a run of the model without vaccine (the period alone as long
      as the run is shorter than one period): its orbits are exactly the
      orbits of zombies_competition_discrete.py. */
  lemma UnvaccinatedOrbit(p: LVParams, dt: real, period: int, efficacy: real, ls: seq<real>, zs: seq<real>)
    requires period > 0
    requires efficacy == 0.0 || |ls| <= period
    ensures IsOrbit(p, dt, period, efficacy, ls, zs) <==> CompetitionDiscrete.IsOrbit(p, dt, ls, zs)
  {
    forall k | 0 <= k < |ls| - 1 && |ls| == |zs|
      ensures StepFrom(p, Pop(ls[k], zs[k]), dt, k, period, efficacy)
           == CompetitionDiscrete.DiscreteLotkaVolterra(p, Pop(ls[k], zs[k]), dt)
    {
      if efficacy == 0.0 {
        NoEfficacyIsPlain(p, Pop(ls[k], zs[k]), dt, k + 1, period);
      } else {
        NotYetDue(k + 1, period);
        OffScheduleIsPlain(p, Pop(ls[k], zs[k]), dt, k + 1, period, efficacy);
      }
    }
  }

  /** The comparison run of the script, with its own constants. */
  lemma ComparisonRunIsUnvaccinated(p: LVParams, dt: real, ls: seq<real>, zs: seq<real>)
    ensures IsOrbit(p, dt, NoVaccinePeriod, NoVaccineEfficacy, ls, zs) <==> CompetitionDiscrete.IsOrbit(p, dt, ls, zs)
  {
    UnvaccinatedOrbit(p, dt, NoVaccinePeriod, NoVaccineEfficacy, ls, zs);
  }

  /** Extinction of the living is permanent under the vaccine too. */
  lemma {:induction false} ExtinctionIsPermanent(p: LVParams, dt: real, period: int, efficacy: real,
                                                 ls: seq<real>, zs: seq<real>, i: nat, j: nat)
    requires period != 0
    requires IsOrbit(p, dt, period, efficacy, ls, zs)
    requires i <= j < |ls| && ls[i] == 0.0 && zs[i] >= 0.0
    ensures ls[j] == 0.0 && zs[j] == zs[i]
  {
    if i < j {
      ExtinctionIsPermanent(p, dt, period, efficacy, ls, zs, i, j - 1);
      ExtinctionIsFixed(p, Pop(ls[j - 1], zs[j - 1]), dt, j, period, efficacy);
      assert Pop(ls[j], zs[j]) == StepFrom(p, Pop(ls[j - 1], zs[j - 1]), dt, j - 1, period, efficacy);
    }
  }
}
