/** zombies_apocalypse_vaccine_normal.py: the clamped L/Z Euler step with a
    periodic exogenous removal of a share of the zombies, and the driver
    that fills `L_values` and `Z_values`. */
module ApocalypseVaccineNormal {
  import opened Schedule
  import opened Apocalypse
  import CompetitionDiscrete

  /** The period and ratio of the comparison run without removal. */
  const NoRemovalPeriod := 999999
  const NoRemovalRatio := 0.0

  /** `exogenous_zombie_remover`: the share `ratio` of the zombies at the
      removal times (positive multiples of the period), nothing otherwise. */
  function Remover(z: real, timeStep: int, period: int, ratio: real): (r: real)
    requires period != 0
    ensures r == ratio * z || r == 0.0
    ensures timeStep <= 0 || ratio == 0.0 ==> r == 0.0
  {
    if Fires(timeStep, period) then ratio * z else 0.0
  }

  /** The removal happens exactly at the positive multiples of the period. */
  lemma RemoverAtMultiples(z: real, timeStep: int, period: int, ratio: real)
    requires period != 0
    ensures Remover(z, timeStep, period, ratio) == if IsPositiveMultiple(timeStep, period) then ratio * z else 0.0
  {
    FiresIffPositiveMultiple(timeStep, period);
  }

  /** `new_Z = Z + dZ` before the clamp, with the removal taken out of `dZ`. */
  function EulerZ(p: LVParams, y: Pop, dt: real, remover: real): real
  {
    y.z + ((p.rho * p.beta * y.l + (p.gamma - p.delta) * y.l * y.z) * dt - remover)
  }

  /** The removal is subtracted from the Euler value of
      zombies_competition_discrete.py and does nothing else. */
  lemma RemovalIsSubtracted(p: LVParams, y: Pop, dt: real, remover: real)
    ensures EulerZ(p, y, dt, remover) == CompetitionDiscrete.EulerZ(p, y, dt) - remover
  {
  }

  /** discrete_lotka_volterra with removal: L as in the plain step, Z with
      the removal, both clamped at zero. */
  function DiscreteLotkaVolterra(p: LVParams, y: Pop, dt: real, timeStep: int, period: int, ratio: real): (r: Pop)
    requires period != 0
    ensures r.l >= 0.0 && r.z >= 0.0
  {
    var remover := Remover(y.z, timeStep, period, ratio);
    Pop(CompetitionDiscrete.Max0(CompetitionDiscrete.EulerL(p, y, dt)),
        CompetitionDiscrete.Max0(EulerZ(p, y, dt, remover)))
  }

  /** The L update does not see the removal: the new L is the plain step's,
      at every time and for every ratio. */
  lemma LivingIgnoresRemoval(p: LVParams, y: Pop, dt: real, timeStep: int, period: int, ratio: real)
    requires period != 0
    ensures DiscreteLotkaVolterra(p, y, dt, timeStep, period, ratio).l == CompetitionDiscrete.DiscreteLotkaVolterra(p, y, dt).l
  {
  }

  /** At a removal time the unclamped Z is the plain Euler value less
      `ratio * Z`; at any other time it is the plain Euler value. */
  lemma RemovalStep(p: LVParams, y: Pop, dt: real, timeStep: int, period: int, ratio: real)
    requires period != 0
    ensures Fires(timeStep, period)
        ==> EulerZ(p, y, dt, Remover(y.z, timeStep, period, ratio)) == CompetitionDiscrete.EulerZ(p, y, dt) - ratio * y.z
    ensures !Fires(timeStep, period)
        ==> EulerZ(p, y, dt, Remover(y.z, timeStep, period, ratio)) == CompetitionDiscrete.EulerZ(p, y, dt)
  {
    RemovalIsSubtracted(p, y, dt, Remover(y.z, timeStep, period, ratio));
  }

  /** Without removal (ratio 0, or off the removal times) the step is the
      plain step. */
  lemma NoRemovalIsPlain(p: LVParams, y: Pop, dt: real, timeStep: int, period: int, ratio: real)
    requires period != 0
    requires ratio == 0.0 || !Fires(timeStep, period)
    ensures DiscreteLotkaVolterra(p, y, dt, timeStep, period, ratio) == CompetitionDiscrete.DiscreteLotkaVolterra(p, y, dt)
  {
    RemovalIsSubtracted(p, y, dt, Remover(y.z, timeStep, period, ratio));
  }

  /** With `L == 0`, `Z >= 0` and a non-negative ratio the living stay
      extinct, and the zombies are only removed: Z does not grow. A ratio
      above 1 removes more than all zombies, and the clamp then gives 0. */
  lemma ExtinctionStep(p: LVParams, y: Pop, dt: real, timeStep: int, period: int, ratio: real)
    requires period != 0
    requires y.l == 0.0 && y.z >= 0.0 && 0.0 <= ratio
    ensures DiscreteLotkaVolterra(p, y, dt, timeStep, period, ratio).l == 0.0
    ensures 0.0 <= DiscreteLotkaVolterra(p, y, dt, timeStep, period, ratio).z <= y.z
  {
    CompetitionDiscrete.ExtinctionIsFixed(p, y, dt);
    RemovalIsSubtracted(p, y, dt, Remover(y.z, timeStep, period, ratio));
    RemovedShare(ratio, y.z);
  }

  lemma RemovedShare(ratio: real, z: real)
    requires 0.0 <= ratio && z >= 0.0
    ensures 0.0 <= ratio * z
  {
  }

  /** The step that produces entry `k + 1` of the driver's arrays: the driver
      passes `time_step = k + 1`. */
  function StepFrom(p: LVParams, y: Pop, dt: real, k: int, period: int, ratio: real): Pop
    requires period != 0
  {
    DiscreteLotkaVolterra(p, y, dt, k + 1, period, ratio)
  }

  /** `ls` and `zs` hold an orbit of the step with removal: entry `k + 1` is
      the step at time `k + 1` from entry `k`. */
  ghost predicate IsOrbit(p: LVParams, dt: real, period: int, ratio: real, ls: seq<real>, zs: seq<real>)
    requires period != 0
  {
    && |ls| == |zs|
    && forall k {:trigger StepFrom(p, Pop(ls[k], zs[k]), dt, k, period, ratio)} :: 0 <= k < |ls| - 1 ==>
         Pop(ls[k + 1], zs[k + 1]) == StepFrom(p, Pop(ls[k], zs[k]), dt, k, period, ratio)
  }

  /** The driver loop over one parameter set: entry 0 is the initial state
      and each later entry the step with removal from the one before. */
  method Simulate(p: LVParams, init: Pop, dt: real, timeSteps: nat, period: int, ratio: real)
    returns (lValues: array<real>, zValues: array<real>)
    requires timeSteps >= 1 && period != 0
    ensures fresh(lValues) && fresh(zValues)
    ensures lValues.Length == timeSteps && zValues.Length == timeSteps
    ensures lValues[0] == init.l && zValues[0] == init.z
    ensures IsOrbit(p, dt, period, ratio, lValues[..], zValues[..])
    ensures forall t :: 1 <= t < timeSteps ==> lValues[t] >= 0.0 && zValues[t] >= 0.0
  {
    lValues := new real[timeSteps];
    zValues := new real[timeSteps];
    lValues[0] := init.l;
    zValues[0] := init.z;
    for t := 1 to timeSteps
      invariant lValues[0] == init.l && zValues[0] == init.z
      invariant IsOrbit(p, dt, period, ratio, lValues[..t], zValues[..t])
    {
      var next := DiscreteLotkaVolterra(p, Pop(lValues[t - 1], zValues[t - 1]), dt, t, period, ratio);
      assert next == StepFrom(p, Pop(lValues[t - 1], zValues[t - 1]), dt, t - 1, period, ratio);
      lValues[t], zValues[t] := next.l, next.z;
      assert lValues[..t + 1] == lValues[..t] + [next.l];
      assert zValues[..t + 1] == zValues[..t] + [next.z];
    }
    assert lValues[..] == lValues[..timeSteps];
    assert zValues[..] == zValues[..timeSteps];
    OrbitNonNeg(p, dt, period, ratio, lValues[..], zValues[..]);
  }

  /** Every entry of an orbit after the first is non-negative. */
  lemma OrbitNonNeg(p: LVParams, dt: real, period: int, ratio: real, ls: seq<real>, zs: seq<real>)
    requires period != 0
    requires IsOrbit(p, dt, period, ratio, ls, zs)
    ensures forall k :: 1 <= k < |ls| ==> ls[k] >= 0.0 && zs[k] >= 0.0
  {
    forall k | 1 <= k < |ls|
      ensures ls[k] >= 0.0 && zs[k] >= 0.0
    {
      assert Pop(ls[k], zs[k]) == StepFrom(p, Pop(ls[k - 1], zs[k - 1]), dt, k - 1, period, ratio);
    }
  }

  /** The comparison run passes ratio 0 and period 999999; either alone
      (the period as long as the run is shorter than one period) makes its
      orbits exactly the orbits of zombies_competition_discrete.py. */
  lemma UnremovedOrbit(p: LVParams, dt: real, period: int, ratio: real, ls: seq<real>, zs: seq<real>)
    requires period > 0
    requires ratio == 0.0 || |ls| <= period
    ensures IsOrbit(p, dt, period, ratio, ls, zs) <==> CompetitionDiscrete.IsOrbit(p, dt, ls, zs)
  {
    forall k | 0 <= k < |ls| - 1 && |ls| == |zs|
      ensures StepFrom(p, Pop(ls[k], zs[k]), dt, k, period, ratio)
           == CompetitionDiscrete.DiscreteLotkaVolterra(p, Pop(ls[k], zs[k]), dt)
    {
      if ratio != 0.0 {
        NotYetDue(k + 1, period);
      }
      NoRemovalIsPlain(p, Pop(ls[k], zs[k]), dt, k + 1, period, ratio);
    }
  }

  /** The comparison run of the script, with its own constants. */
  lemma ComparisonRunIsUnremoved(p: LVParams, dt: real, ls: seq<real>, zs: seq<real>)
    ensures IsOrbit(p, dt, NoRemovalPeriod, NoRemovalRatio, ls, zs) <==> CompetitionDiscrete.IsOrbit(p, dt, ls, zs)
  {
    UnremovedOrbit(p, dt, NoRemovalPeriod, NoRemovalRatio, ls, zs);
  }

  /** Extinction of the living is permanent, and from then on the zombies
      never increase. */
  lemma {:induction false} ExtinctionIsPermanent(p: LVParams, dt: real, period: int, ratio: real,
                                                 ls: seq<real>, zs: seq<real>, i: nat, j: nat)
    requires period != 0 && 0.0 <= ratio
    requires IsOrbit(p, dt, period, ratio, ls, zs)
    requires i <= j < |ls| && ls[i] == 0.0 && zs[i] >= 0.0
    ensures ls[j] == 0.0 && 0.0 <= zs[j] <= zs[i]
  {
    if i < j {
      ExtinctionIsPermanent(p, dt, period, ratio, ls, zs, i, j - 1);
      ExtinctionStep(p, Pop(ls[j - 1], zs[j - 1]), dt, j, period, ratio);
      assert Pop(ls[j], zs[j]) == StepFrom(p, Pop(ls[j - 1], zs[j - 1]), dt, j - 1, period, ratio);
    }
  }
}
