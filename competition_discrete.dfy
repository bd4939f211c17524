/** zombies_competition_discrete.py: the L/Z model stepped with Euler's
    method, each population clamped at zero, and the driver that fills the
    arrays `L_values` and `Z_values`. */
module CompetitionDiscrete {
  import opened Apocalypse

  /** Python's `max(0, x)`. */
  function Max0(x: real): (r: real)
    ensures r >= 0.0 && r >= x
    ensures r == x || r == 0.0
  {
    if x > 0.0 then x else 0.0
  }

  /** `new_L = L + dL`, before the clamp. */
  function EulerL(p: LVParams, y: Pop, dt: real): real
  {
    y.l + ((p.alpha - p.beta) * y.l - p.gamma * y.l * y.z) * dt
  }

  /** `new_Z = Z + dZ`, before the clamp. */
  function EulerZ(p: LVParams, y: Pop, dt: real): real
  {
    y.z + (p.rho * p.beta * y.l + (p.gamma - p.delta) * y.l * y.z) * dt
  }

  /** discrete_lotka_volterra: one clamped Euler step of length `dt`; both
      populations it returns are non-negative. */
  function DiscreteLotkaVolterra(p: LVParams, y: Pop, dt: real): (r: Pop)
    ensures r.l >= 0.0 && r.z >= 0.0
  {
    Pop(Max0(EulerL(p, y, dt)), Max0(EulerZ(p, y, dt)))
  }

  /** The clamp only acts on a negative Euler value: each population is its
      Euler value when that is not negative, and 0 otherwise. */
  lemma ClampedEuler(p: LVParams, y: Pop, dt: real)
    ensures EulerL(p, y, dt) >= 0.0 ==> DiscreteLotkaVolterra(p, y, dt).l == EulerL(p, y, dt)
    ensures EulerL(p, y, dt) < 0.0 ==> DiscreteLotkaVolterra(p, y, dt).l == 0.0
    ensures EulerZ(p, y, dt) >= 0.0 ==> DiscreteLotkaVolterra(p, y, dt).z == EulerZ(p, y, dt)
    ensures EulerZ(p, y, dt) < 0.0 ==> DiscreteLotkaVolterra(p, y, dt).z == 0.0
  {
  }

  /** The unclamped values are one Euler step of lotka_volterra: the
      population plus `dt` times its derivative, at any time. */
  lemma EulerOfField(t: real, p: LVParams, y: Pop, dt: real)
    ensures EulerL(p, y, dt) == y.l + dt * LotkaVolterra(t, y, p).l
    ensures EulerZ(p, y, dt) == y.z + dt * LotkaVolterra(t, y, p).z
  {
    EulerLOfField(p, y, dt);
    EulerZOfField(p, y, dt);
  }

  lemma EulerLOfField(p: LVParams, y: Pop, dt: real)
    ensures EulerL(p, y, dt) == y.l + dt * LivingRate(p, y)
  {
  }

  lemma EulerZOfField(p: LVParams, y: Pop, dt: real)
    ensures EulerZ(p, y, dt) == y.z + dt * ZombieRate(p, y)
  {
  }

  /** A step of length 0 leaves a non-negative state where it is. */
  lemma ZeroStepIsIdentity(p: LVParams, y: Pop)
    requires y.l >= 0.0 && y.z >= 0.0
    ensures DiscreteLotkaVolterra(p, y, 0.0) == y
  {
    EulerLOfField(p, y, 0.0);
    EulerZOfField(p, y, 0.0);
  }

  /** Once the living are gone the state no longer moves: with `L == 0`
      there are no births, deaths or encounters. */
  lemma ExtinctionIsFixed(p: LVParams, y: Pop, dt: real)
    requires y.l == 0.0 && y.z >= 0.0
    ensures DiscreteLotkaVolterra(p, y, dt) == y
  {
    EulerLOfField(p, y, dt);
    EulerZOfField(p, y, dt);
    LivingRateWithoutLiving(p, y);
    ZombieRateWithoutLiving(p, y);
  }

  /** `ls` and `zs` hold an orbit of the clamped step, as the driver fills
      `L_values` and `Z_values`: entry `k + 1` is the step from entry `k`. */
  ghost predicate IsOrbit(p: LVParams, dt: real, ls: seq<real>, zs: seq<real>)
  {
    && |ls| == |zs|
    && forall k {:trigger DiscreteLotkaVolterra(p, Pop(ls[k], zs[k]), dt)} :: 0 <= k < |ls| - 1 ==>
         Pop(ls[k + 1], zs[k + 1]) == DiscreteLotkaVolterra(p, Pop(ls[k], zs[k]), dt)
  }

  /** The driver loop over one parameter set: `timeSteps` entries, entry 0
      the initial state and every later one the step from the one before, so
      every later entry is non-negative. Python's `L_values[0] = L0` fails
      on an empty array, hence `timeSteps >= 1`. */
  method Simulate(p: LVParams, init: Pop, dt: real, timeSteps: nat) returns (lValues: array<real>, zValues: array<real>)
    requires timeSteps >= 1
    ensures fresh(lValues) && fresh(zValues)
    ensures lValues.Length == timeSteps && zValues.Length == timeSteps
    ensures lValues[0] == init.l && zValues[0] == init.z
    ensures IsOrbit(p, dt, lValues[..], zValues[..])
    ensures forall t :: 1 <= t < timeSteps ==> lValues[t] >= 0.0 && zValues[t] >= 0.0
  {
    lValues := new real[timeSteps];
    zValues := new real[timeSteps];
    lValues[0] := init.l;
    zValues[0] := init.z;
    for t := 1 to timeSteps
      invariant lValues[0] == init.l && zValues[0] == init.z
      invariant IsOrbit(p, dt, lValues[..t], zValues[..t])
    {
      var next := DiscreteLotkaVolterra(p, Pop(lValues[t - 1], zValues[t - 1]), dt);
      lValues[t], zValues[t] := next.l, next.z;
      assert lValues[..t + 1] == lValues[..t] + [next.l];
      assert zValues[..t + 1] == zValues[..t] + [next.z];
    }
    assert lValues[..] == lValues[..timeSteps];
    assert zValues[..] == zValues[..timeSteps];
    OrbitNonNeg(p, dt, lValues[..], zValues[..]);
  }

  /** Every entry of an orbit after the first is non-negative. */
  lemma OrbitNonNeg(p: LVParams, dt: real, ls: seq<real>, zs: seq<real>)
    requires IsOrbit(p, dt, ls, zs)
    ensures forall k :: 1 <= k < |ls| ==> ls[k] >= 0.0 && zs[k] >= 0.0
  {
    forall k | 1 <= k < |ls|
      ensures ls[k] >= 0.0 && zs[k] >= 0.0
    {
      assert Pop(ls[k], zs[k]) == DiscreteLotkaVolterra(p, Pop(ls[k - 1], zs[k - 1]), dt);
    }
  }

  /** Extinction of the living is permanent: from the first entry with
      `L == 0` on, an orbit stays at that entry. */
  lemma {:induction false} ExtinctionIsPermanent(p: LVParams, dt: real, ls: seq<real>, zs: seq<real>, i: nat, j: nat)
    requires IsOrbit(p, dt, ls, zs)
    requires i <= j < |ls| && ls[i] == 0.0 && zs[i] >= 0.0
    ensures ls[j] == 0.0 && zs[j] == zs[i]
  {
    if i < j {
      ExtinctionIsPermanent(p, dt, ls, zs, i, j - 1);
      ExtinctionIsFixed(p, Pop(ls[j - 1], zs[j - 1]), dt);
      assert Pop(ls[j], zs[j]) == DiscreteLotkaVolterra(p, Pop(ls[j - 1], zs[j - 1]), dt);
    }
  }

  /** With `dt = 0` an orbit from a non-negative state is constant. */
  lemma {:induction false} ZeroStepOrbitIsConstant(p: LVParams, ls: seq<real>, zs: seq<real>, j: nat)
    requires IsOrbit(p, 0.0, ls, zs)
    requires j < |ls| && ls[0] >= 0.0 && zs[0] >= 0.0
    ensures ls[j] == ls[0] && zs[j] == zs[0]
  {
    if j > 0 {
      ZeroStepOrbitIsConstant(p, ls, zs, j - 1);
      ZeroStepIsIdentity(p, Pop(ls[j - 1], zs[j - 1]));
      assert Pop(ls[j], zs[j]) == DiscreteLotkaVolterra(p, Pop(ls[j - 1], zs[j - 1]), 0.0);
    }
  }
}
