/** zombies_sistema_final.py: the unforced coexistence model, as a unit-step
    recurrence that aborts on a negative population, and as the vector field
    handed to the ODE solver. */
module SistemaFinal {
  import opened Compartments

  /** `Ct1`: civilians after one pass of the loop body. */
  function NextC(p: Params, s: State): real
  {
    s.c + (p.alpha - p.beta - p.E) * s.c - p.betaCZ * s.c * s.z
  }

  /** `Zt1`: zombies after one pass of the loop body. */
  function NextZ(p: Params, s: State): real
  {
    s.z + (p.betaCZ - p.epsilonCZ) * s.c * s.z + p.rho * p.beta * (s.c + s.m) + (p.betaMZ - p.gammaMZ) * s.z * s.m
  }

  /** `Mt1`: military after one pass of the loop body. */
  function NextM(p: Params, s: State): real
  {
    s.m + p.E * s.c - p.beta * s.m - p.betaMZ * s.z * s.m
  }

  /** `Dt1`: dead after one pass of the loop body. */
  function NextD(p: Params, s: State): real
  {
    s.d + (1.0 - p.rho) * p.beta * (s.c + s.m) + p.epsilonCZ * s.c * s.z + p.gammaMZ * s.z * s.m
  }

  /** One pass of the loop body: `[Ct1, Zt1, Mt1, Dt1]` from `[C, Z, M, D]`,
      every component computed from the old state. */
  function Step(p: Params, s: State): State
  {
    State(NextC(p, s), NextZ(p, s), NextM(p, s), NextD(p, s))
  }

  /** `states` is a run of the recurrence from `init`: it starts at `init`
      and each state is the step from the one before. */
  ghost predicate IsRun(p: Params, init: State, states: seq<State>)
  {
    && |states| >= 1
    && states[0] == init
    && forall k {:trigger Step(p, states[k])} :: 0 <= k < |states| - 1 ==> states[k + 1] == Step(p, states[k])
  }

  /** Every state after the first is non-negative. */
  ghost predicate StepsNonNeg(states: seq<State>)
  {
    forall k :: 1 <= k < |states| ==> NonNeg(states[k])
  }

  /** simulate_discrete, with the script's globals `init_discrete` and
      `t_max` as parameters. On success it returns the run of `tMax` steps
      (`tMax + 1` states starting with `init`), every computed state
      non-negative. It returns `None` only with a witness: a run of fewer
      than `tMax` steps, non-negative so far, whose next step has a negative
      component. Runs are unique (RunsAgree), so the two outcomes exclude
      each other. */
  method SimulateDiscrete(p: Params, init: State, tMax: nat) returns (result: Option<seq<State>>)
    ensures result.Some? ==> |result.value| == tMax + 1 && IsRun(p, init, result.value)
    ensures result.Some? ==> StepsNonNeg(result.value)
    ensures result.None? <==>
      exists states :: |states| <= tMax && IsRun(p, init, states) && StepsNonNeg(states)
                       && !NonNeg(Step(p, states[|states| - 1]))
  {
    var s := init;
    var states := [s];
    var step := 0;
    while step < tMax
      invariant 0 <= step <= tMax
      invariant |states| == step + 1 && s == states[step]
      invariant IsRun(p, init, states) && StepsNonNeg(states)
    {
      var next := Step(p, s);
      if !NonNeg(next) {
        return None;
      }
      s := next;
      states := states + [s];
      step := step + 1;
    }
    result := Some(states);
    forall other | |other| <= tMax && IsRun(p, init, other) && StepsNonNeg(other)
      ensures NonNeg(Step(p, other[|other| - 1]))
    {
      RunsAgree(p, init, other, states);
      assert Step(p, other[|other| - 1]) == states[|other|];
    }
  }

  /** The recurrence is deterministic: two runs from the same start agree
      wherever both are defined. */
  lemma {:induction false} RunsAgree(p: Params, init: State, a: seq<State>, b: seq<State>)
    requires IsRun(p, init, a) && IsRun(p, init, b) && |a| <= |b|
    ensures a == b[..|a|]
  {
    if |a| > 1 {
      var n := |a| - 1;
      assert IsRun(p, init, a[..n]) && IsRun(p, init, b[..n]);
      RunsAgree(p, init, a[..n], b[..n]);
      assert a[n] == Step(p, a[n - 1]) && b[n] == Step(p, b[n - 1]);
      assert a == a[..n] + [a[n]] && b[..|a|] == b[..n] + [b[n]];
    }
  }

  /** continuous_model: the right-hand side given to the ODE solver. Its
      value at `y` is the increment the discrete step makes from `y`, so the
      two schemes share one update rule. */
  function ContinuousModel(t: real, y: State, p: Params): (r: State)
    ensures r == Increment(Step(p, y), y)
  {
    CivilianChange(p, y);
    ZombieChange(p, y);
    MilitaryChange(p, y);
    DeadChange(p, y);
    State(
      (p.alpha - p.beta - p.E) * y.c - p.betaCZ * y.c * y.z,
      (p.betaCZ - p.epsilonCZ) * y.c * y.z + p.rho * p.beta * (y.c + y.m) + (p.betaMZ - p.gammaMZ) * y.z * y.m,
      p.E * y.c - p.beta * y.m - p.betaMZ * y.z * y.m,
      (1.0 - p.rho) * p.beta * (y.c + y.m) + p.epsilonCZ * y.c * y.z + p.gammaMZ * y.z * y.m)
  }

  // The change each component undergoes in one step, one component per
  // lemma so that each proof deals with a single polynomial.

  lemma CivilianChange(p: Params, y: State)
    ensures NextC(p, y) - y.c == (p.alpha - p.beta - p.E) * y.c - p.betaCZ * y.c * y.z
  {
  }

  lemma ZombieChange(p: Params, y: State)
    ensures NextZ(p, y) - y.z
         == (p.betaCZ - p.epsilonCZ) * y.c * y.z + p.rho * p.beta * (y.c + y.m) + (p.betaMZ - p.gammaMZ) * y.z * y.m
  {
  }

  lemma MilitaryChange(p: Params, y: State)
    ensures NextM(p, y) - y.m == p.E * y.c - p.beta * y.m - p.betaMZ * y.z * y.m
  {
  }

  lemma DeadChange(p: Params, y: State)
    ensures NextD(p, y) - y.d == (1.0 - p.rho) * p.beta * (y.c + y.m) + p.epsilonCZ * y.c * y.z + p.gammaMZ * y.z * y.m
  {
  }

  // The same changes written as flows between compartments, each flow one
  // product of a rate and populations: births `alpha C`; attrition `beta C`
  // and `beta M`, of which the share `rho` rises as zombies; enlistment
  // `E C`; infection `betaCZ C Z`; zombies destroyed by civilians
  // `epsilonCZ C Z`; soldiers turned `betaMZ Z M`; zombies destroyed by the
  // military `gammaMZ Z M`.

  lemma CivilianFlows(p: Params, s: State)
    ensures NextC(p, s) == s.c + p.alpha * s.c - p.beta * s.c - p.E * s.c - p.betaCZ * s.c * s.z
  {
  }

  lemma ZombieFlows(p: Params, s: State)
    ensures NextZ(p, s)
         == s.z + p.betaCZ * s.c * s.z - p.epsilonCZ * s.c * s.z + p.rho * p.beta * s.c + p.rho * p.beta * s.m
            + p.betaMZ * s.z * s.m - p.gammaMZ * s.z * s.m
  {
  }

  lemma MilitaryFlows(p: Params, s: State)
    ensures NextM(p, s) == s.m + p.E * s.c - p.beta * s.m - p.betaMZ * s.z * s.m
  {
  }

  lemma DeadFlows(p: Params, s: State)
    ensures NextD(p, s)
         == s.d + p.beta * s.c + p.beta * s.m - p.rho * p.beta * s.c - p.rho * p.beta * s.m
            + p.epsilonCZ * s.c * s.z + p.gammaMZ * s.z * s.m
  {
  }

  /** With rate coefficients and rho <= 1, the Dead compartment never
      shrinks in one step from a non-negative state. */
  lemma DeadNonDecreasing(p: Params, s: State)
    requires Admissible(p) && NonNeg(s)
    ensures Step(p, s).d >= s.d
  {
    DeadChange(p, s);
    DeathFlowsNonNeg(p.rho, p.beta, p.epsilonCZ, p.gammaMZ, s.c, s.z, s.m);
  }

  /** The three flows into D (attrition, kills by civilians, kills by the
      military) are non-negative for rates, rho <= 1 and populations. */
  lemma DeathFlowsNonNeg(rho: real, beta: real, epsilonCZ: real, gammaMZ: real, c: real, z: real, m: real)
    requires rho <= 1.0 && beta >= 0.0 && epsilonCZ >= 0.0 && gammaMZ >= 0.0
    requires c >= 0.0 && z >= 0.0 && m >= 0.0
    ensures (1.0 - rho) * beta * (c + m) + epsilonCZ * c * z + gammaMZ * z * m >= 0.0
  {
    RealProductNonNeg(1.0 - rho, beta);
    RealProductNonNeg((1.0 - rho) * beta, c + m);
    RealProductNonNeg(epsilonCZ, c);
    RealProductNonNeg(epsilonCZ * c, z);
    RealProductNonNeg(gammaMZ, z);
    RealProductNonNeg(gammaMZ * z, m);
  }

  lemma RealProductNonNeg(x: real, y: real)
    requires x >= 0.0 && y >= 0.0
    ensures x * y >= 0.0
  {
  }

  /** Along a run whose states are all non-negative (what a successful
      SimulateDiscrete returns, given a non-negative start), D never
      decreases. */
  lemma {:induction false} DeadMonotone(p: Params, init: State, states: seq<State>, i: nat, j: nat)
    requires Admissible(p) && NonNeg(init)
    requires IsRun(p, init, states) && StepsNonNeg(states)
    requires i <= j < |states|
    ensures states[i].d <= states[j].d
  {
    if i < j {
      DeadMonotone(p, init, states, i, j - 1);
      DeadNonDecreasing(p, states[j - 1]);
    }
  }

  /** The parameters and initial state both scripts use meet the conditions
      above: along any successful run from them the dead never decrease. */
  lemma CoexistenceDeadMonotone(states: seq<State>, i: nat, j: nat)
    requires IsRun(CoexistenceParams, InitialState, states) && StepsNonNeg(states)
    requires i <= j < |states|
    ensures states[i].d <= states[j].d
  {
    DeadMonotone(CoexistenceParams, InitialState, states, i, j);
  }

  /** The conservation law of one step: the four-compartment total grows by
      exactly the births `alpha * C`, since every other flow moves
      population from one compartment to another. */
  lemma StepGrowth(p: Params, s: State)
    ensures Total(Step(p, s)) == Total(s) + p.alpha * s.c
  {
    CivilianFlows(p, s);
    ZombieFlows(p, s);
    MilitaryFlows(p, s);
    DeadFlows(p, s);
  }

  /** Civilians summed over the first `n` states of `states`. */
  function CivilianSum(states: seq<State>, n: nat): real
    requires n <= |states|
  {
    if n == 0 then 0.0 else CivilianSum(states, n - 1) + states[n - 1].c
  }

  /** After `n` steps of a run the total population has grown by `alpha`
      times the civilians summed over the states the steps started from. */
  lemma {:induction false} TotalAfter(p: Params, init: State, states: seq<State>, n: nat)
    requires IsRun(p, init, states) && n < |states|
    ensures Total(states[n]) == Total(init) + p.alpha * CivilianSum(states, n)
  {
    if n > 0 {
      TotalAfter(p, init, states, n - 1);
      RunStepGrowth(p, init, states, n);
      Distribute(p.alpha, CivilianSum(states, n - 1), states[n - 1].c);
    }
  }

  /** StepGrowth at step `n` of a run. */
  lemma RunStepGrowth(p: Params, init: State, states: seq<State>, n: nat)
    requires IsRun(p, init, states) && 0 < n < |states|
    ensures Total(states[n]) == Total(states[n - 1]) + p.alpha * states[n - 1].c
  {
    assert states[n] == Step(p, states[n - 1]);
    StepGrowth(p, states[n - 1]);
  }

  lemma Distribute(a: real, x: real, y: real)
    ensures a * (x + y) == a * x + a * y
  {
  }
}
