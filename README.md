# Zombie population models in Dafny

This project models the population-update engine of a set of zombie-outbreak
scripts. The models use exact reals.

**The four-compartment coexistence model.** Its compartments are Civilians C,
Zombies Z, Military M and Dead D.
- `simulate_discrete` is a unit-step recurrence. It builds the list of states
  starting from the initial one, and gives up (`None`) as soon as a component
  of the next state would be negative.
- `continuous_model` is the vector field that the scripts hand to the ODE
  solver.
- One variant adds a periodic Military pulse (`military_pulse`) to both of
  them.

**The two-compartment L/Z model.** L is the living, Z the zombies.
- `lotka_volterra` is its vector field.
- Three Euler steps clamp both populations at zero: the plain step, a
  "vaccine" step that lowers gamma periodically, and a step that periodically
  removes a share of the zombies.
- Each step has a driver loop that fills `L_values` and `Z_values` index by
  index from entry 0.

Modules:
- `Schedule`: the firing rule `t % k == 0 and t > 0` that all three periodic
  forcings share, and Python's `int()`.
- `Compartments`: the parameters, the `(C, Z, M, D)` state and the scripts'
  constants.
- `SistemaFinal`: `zombies_sistema_final.py`.
- `EntradaExogena`: `zombies_final_entrada_exogena.py`.
- `Apocalypse`: `zombies_apocalypse.py`.
- `CompetitionDiscrete`: `zombies_competition_discrete.py`.
- `ApocalypseVaccine`: `zombies_apocalypse_vaccine.py`.
- `ApocalypseVaccineNormal`: `zombies_apocalypse_vaccine_normal.py`.

How the source's structure is modelled:
- Each `simulate_discrete` is a method with a `while` loop that appends to a
  sequence. It is proved against a run predicate: state `k + 1` is the step
  from state `k`.
- Each driver is a method that allocates arrays and fills them in a `for`
  loop. It is proved against an orbit predicate.
- The step functions and vector fields are functions. Their properties are
  lemmas.

Points where the model follows the code's exact behaviour:
- **Pulse rule.** `MilitaryPulse` fires for a negative interval too, because
  the code tests only `t % interval == 0 and t > 0`. A zero interval makes
  Python's `%` raise, so the model states a nonzero interval as a
  precondition.
- **Time of the pulse in the continuous model.** `continuous_model` reads the
  pulse at `int(t)`, which truncates toward zero (`Schedule.Trunc`). For
  `t >= 0` this is the floor.
- **Where rho goes.** rho is the share of attrition that rises as zombies:
  `rho * beta * (C + M)` goes into `Zt1` and `(1 - rho) * beta * (C + M)`
  into `Dt1`.
- **Sign of the coefficients.** The code never checks the signs of the
  coefficients or of the removal ratio. The members that need signs state
  them as preconditions:
  - `SistemaFinal.DeadNonDecreasing` and `SistemaFinal.DeadMonotone` require
    `Compartments.Admissible` (every rate non-negative, `0 <= rho <= 1`) and
    non-negative populations. `SistemaFinal.CoexistenceDeadMonotone`
    discharges them for the scripts' own values.
  - `SistemaFinal.DeathFlowsNonNeg` requires `rho <= 1`, `beta >= 0`,
    `epsilon_CZ >= 0`, `gamma_MZ >= 0` and `C, Z, M >= 0` directly.
  - `ApocalypseVaccineNormal.ExtinctionStep` and
    `ApocalypseVaccineNormal.ExtinctionIsPermanent` require
    `zombie_removal_ratio >= 0`.

## Model

| member | source | states |
|---|---|---|
| Schedule.Fires | zombies_final_entrada_exogena.py:28 | The firing rule `t % interval == 0 and t > 0` that the pulse, the vaccine and the removal share. It has no ensures: its meaning is stated by `Schedule.FiresIffPositiveMultiple` and `Schedule.NotYetDue`. |
| Schedule.FiresIffPositiveMultiple | zombies_final_entrada_exogena.py:28 | The rule `t % k == 0 and t > 0` holds exactly when t is a positive integer multiple of k, for any nonzero k. |
| Schedule.NotYetDue | zombies_apocalypse_vaccine.py:29 | For a positive period k, no time strictly between 0 and k fires, so the first firing is at k itself. |
| Schedule.Trunc | zombies_final_entrada_exogena.py:52 | Python's `int()` on a real: for x >= 0 it is the floor (0 <= n <= x < n + 1); for x < 0 it rounds up toward zero (n - 1 < x <= n <= 0). |
| Compartments.NonNeg | zombies_sistema_final.py:36 | The validity test `not any(x < 0 ...)` on a state. It has no ensures; it is the abort condition in both `SimulateDiscrete` contracts. |
| SistemaFinal.NextC | zombies_sistema_final.py:32 | Its body is the `Ct1` formula. Its increment is stated by `SistemaFinal.CivilianChange` and `SistemaFinal.ContinuousModel`. |
| SistemaFinal.NextZ | zombies_sistema_final.py:33 | Its body is the `Zt1` formula. Its increment is stated by `SistemaFinal.ZombieChange` and `SistemaFinal.ContinuousModel`. |
| SistemaFinal.NextM | zombies_sistema_final.py:34 | Its body is the `Mt1` formula. Its increment is stated by `SistemaFinal.MilitaryChange` and `SistemaFinal.ContinuousModel`. |
| SistemaFinal.NextD | zombies_sistema_final.py:35 | Its body is the `Dt1` formula. That it does not decrease under sign conditions is `SistemaFinal.DeadNonDecreasing`. |
| SistemaFinal.Step | zombies_sistema_final.py:32-35 | One pass of the loop body. It has no ensures; its properties are `SistemaFinal.StepGrowth`, `SistemaFinal.ContinuousModel` and `SistemaFinal.DeadNonDecreasing`. |
| SistemaFinal.SimulateDiscrete | zombies_sistema_final.py:27-41 | On success, the result holds exactly `t_max + 1` states, starts at the initial state, and each state is the step from the one before. Every computed state is non-negative. The result is `None` exactly when some non-negative run shorter than `t_max` steps has a next step with a negative component. |
| SistemaFinal.RunsAgree | zombies_sistema_final.py:31-40 | The recurrence is deterministic: of two runs from the same initial state, the shorter is a prefix of the longer. |
| SistemaFinal.ContinuousModel | zombies_sistema_final.py:44-51 | The vector field `[dC, dZ, dM, dD]` equals, component by component, the increment `next - y` of one discrete step from y. |
| SistemaFinal.StepGrowth | zombies_sistema_final.py:32-35 | One step changes the total C+Z+M+D by exactly `alpha * C`: every transfer between compartments cancels. |
| SistemaFinal.TotalAfter | zombies_sistema_final.py:27-41 | Along a run, the total of state n is the initial total plus alpha times the sum of the civilians in states 0..n-1. |
| SistemaFinal.DeadNonDecreasing | zombies_sistema_final.py:35 | With non-negative rates, `rho <= 1` and a non-negative state, the dead never decrease in one step (`Dt1 >= D`). |
| SistemaFinal.DeathFlowsNonNeg | zombies_sistema_final.py:35 | The dead's inflow `(1 - rho) * beta * (C + M) + epsilon_CZ * C * Z + gamma_MZ * Z * M` is non-negative under those sign conditions. |
| SistemaFinal.DeadMonotone | zombies_sistema_final.py:27-41 | Along a run whose states are non-negative, with admissible parameters, D is non-decreasing: `states[i].d <= states[j].d` for i <= j. |
| SistemaFinal.CoexistenceDeadMonotone | zombies_sistema_final.py:5-41 | With the scripts' own parameters and initial state (`48, 2, 50, 0`), D is non-decreasing along every successful run. |
| EntradaExogena.MilitaryPulse | zombies_final_entrada_exogena.py:26-28 | `military_pulse` returns either the magnitude or 0, and 0 at every t <= 0 (in particular at t = 0). When it returns the magnitude is `EntradaExogena.PulseAtPositiveMultiples`. |
| EntradaExogena.PulseAtPositiveMultiples | zombies_final_entrada_exogena.py:26-28 | `military_pulse(t, m, k)` is m exactly at the positive multiples of k and 0 elsewhere, in particular at t = 0. |
| EntradaExogena.DefaultPulseTimes | zombies_final_entrada_exogena.py:26-36 | With the defaults (10, 300), over steps 1..1500 the pulse is nonzero exactly at 300, 600, 900, 1200 and 1500. |
| EntradaExogena.StepIsUnforcedPlusPulse | zombies_final_entrada_exogena.py:37-40 | The pulse enters only the Military update: the forced step is the unforced step of zombies_sistema_final.py with `pulse` added to M, and with pulse 0 the two steps coincide. |
| EntradaExogena.Step | zombies_final_entrada_exogena.py:37-40 | One pass of the forced loop body. It has no ensures; `EntradaExogena.StepIsUnforcedPlusPulse` relates it to the unforced step and `EntradaExogena.StepGrowth` states its conservation law. |
| EntradaExogena.SimulateDiscrete | zombies_final_entrada_exogena.py:31-46 | On success, the result holds exactly `t_max + 1` states, starts at the initial state, and state k+1 is the forced step from state k with the pulse of step k+1. Every computed state is non-negative. The result is `None` exactly when some non-negative run shorter than `t_max` steps has a negative next step. |
| EntradaExogena.RunsAgree | zombies_final_entrada_exogena.py:35-45 | The forced recurrence is deterministic: of two runs from the same initial state, the shorter is a prefix of the longer. |
| EntradaExogena.UnforcedWithoutPulse | zombies_final_entrada_exogena.py:35-40 | With magnitude 0, or a run of fewer than `interval` steps, the forced runs are exactly the runs of zombies_sistema_final.py. |
| EntradaExogena.ContinuousModel | zombies_final_entrada_exogena.py:49-57 | The forced vector field equals the increment of one forced discrete step whose pulse is taken at `int(t)`. |
| EntradaExogena.StepGrowth | zombies_final_entrada_exogena.py:37-40 | One forced step changes the total by exactly `alpha * C + pulse`. |
| EntradaExogena.PulseSumClosedForm | zombies_final_entrada_exogena.py:26-28 | Over steps 1..n, for a positive interval k, the pulses add up to `magnitude * (n / k)`: one pulse per completed interval. |
| EntradaExogena.TotalAfter | zombies_final_entrada_exogena.py:31-46 | Along a forced run, the total of state n is the initial total, plus alpha times the civilians of states 0..n-1, plus the pulses of steps 1..n. |
| Apocalypse.LotkaVolterra | zombies_apocalypse.py:6-10 | Its body is `[dLdt, dZdt]`. It has no ensures; its properties are `Apocalypse.Autonomous`, `Apocalypse.NoLivingNoChange`, `Apocalypse.NoZombiesNoEncounters` and `CompetitionDiscrete.EulerOfField`. |
| Apocalypse.Autonomous | zombies_apocalypse.py:6-10 | `lotka_volterra` does not depend on its time argument. |
| Apocalypse.NoLivingNoChange | zombies_apocalypse.py:8-9 | With L = 0 both derivatives are 0. |
| Apocalypse.NoZombiesNoEncounters | zombies_apocalypse.py:8-9 | With Z = 0, `dLdt = (alpha - beta) * L` and `dZdt = rho * beta * L`. |
| CompetitionDiscrete.Max0 | zombies_competition_discrete.py:18 | `max(0, x)` is at least 0 and at least x, and is one of the two. |
| CompetitionDiscrete.EulerL | zombies_competition_discrete.py:11-12 | `new_L` before the clamp. It has no ensures; `CompetitionDiscrete.EulerOfField` proves it is `L + dt * dLdt`, and `CompetitionDiscrete.ClampedEuler` relates it to the step's result. |
| CompetitionDiscrete.EulerZ | zombies_competition_discrete.py:15-16 | `new_Z` before the clamp. It has no ensures; `CompetitionDiscrete.EulerOfField` proves it is `Z + dt * dZdt`, and `CompetitionDiscrete.ClampedEuler` relates it to the step's result. |
| CompetitionDiscrete.DiscreteLotkaVolterra | zombies_competition_discrete.py:5-18 | Both populations returned by the plain step are non-negative. |
| CompetitionDiscrete.ClampedEuler | zombies_competition_discrete.py:11-18 | Each new population is its Euler value `L + dL` (resp. `Z + dZ`) when that is not negative, and 0 when it is. |
| CompetitionDiscrete.EulerOfField | zombies_competition_discrete.py:11-16 | The unclamped values are `L + dt * dLdt` and `Z + dt * dZdt` of the vector field of zombies_apocalypse.py, at any time. |
| CompetitionDiscrete.ZeroStepIsIdentity | zombies_competition_discrete.py:11-18 | With dt = 0, the step leaves a non-negative state unchanged. |
| CompetitionDiscrete.ExtinctionIsFixed | zombies_competition_discrete.py:11-18 | A state with L = 0 and Z >= 0 is a fixed point of the step. |
| CompetitionDiscrete.Simulate | zombies_competition_discrete.py:54-72 | The driver returns two arrays of length `time_steps`. Entry 0 holds the initial state, each later entry is the step from the one before, and every later entry is non-negative. |
| CompetitionDiscrete.OrbitNonNeg | zombies_competition_discrete.py:62-72 | In any orbit of the step, every entry after the first is non-negative. |
| CompetitionDiscrete.ExtinctionIsPermanent | zombies_competition_discrete.py:62-72 | Once an orbit reaches L = 0 with Z >= 0, it stays at that state forever. |
| CompetitionDiscrete.ZeroStepOrbitIsConstant | zombies_competition_discrete.py:62-72 | With dt = 0, an orbit from a non-negative state is constant. |
| ApocalypseVaccine.EffectiveGamma | zombies_apocalypse_vaccine.py:28-32 | The effective gamma is either gamma or `gamma * (1 - efficacy)`. It is gamma at every time step <= 0 and whenever the efficacy is 0. When it is reduced is `ApocalypseVaccine.EffectiveGammaAtMultiples`. |
| ApocalypseVaccine.EffectiveGammaAtMultiples | zombies_apocalypse_vaccine.py:28-32 | The effective gamma is `gamma * (1 - efficacy)` exactly at the positive multiples of the period, and gamma otherwise. |
| ApocalypseVaccine.DiscreteLotkaVolterra | zombies_apocalypse_vaccine.py:7-42 | Both populations returned by the vaccine step are non-negative. |
| ApocalypseVaccine.NoEfficacyIsPlain | zombies_apocalypse_vaccine.py:30-31 | With efficacy 0 the vaccine step equals the plain step, for every period and time. |
| ApocalypseVaccine.OffScheduleIsPlain | zombies_apocalypse_vaccine.py:28-42 | Away from the vaccination times the vaccine step equals the plain step. |
| ApocalypseVaccine.ExtinctionIsFixed | zombies_apocalypse_vaccine.py:35-42 | With L = 0 and Z >= 0, the vaccine step returns `(0, Z)`. |
| ApocalypseVaccine.RecordedGamma | zombies_apocalypse_vaccine.py:94-97 | The driver's own formula for the gamma it records. It has no ensures; `ApocalypseVaccine.RecordedGammaIsEffective` proves it equals the step's effective gamma from step 1 on. |
| ApocalypseVaccine.RecordedGammaIsEffective | zombies_apocalypse_vaccine.py:94-98 | From step 1 on, the gamma the driver records (which tests only `t % period == 0`) equals the effective gamma that the step uses. |
| ApocalypseVaccine.Simulate | zombies_apocalypse_vaccine.py:82-112 | The driver returns three arrays of length `time_steps`. Entry 0 holds the initial state, each later entry is the vaccine step at that time from the one before, every later entry is non-negative, and every `gamma_effective[t]` is the step's effective gamma at time t. |
| ApocalypseVaccine.OrbitNonNeg | zombies_apocalypse_vaccine.py:92-112 | In any orbit of the vaccine step, every entry after the first is non-negative. |
| ApocalypseVaccine.UnvaccinatedOrbit | zombies_apocalypse_vaccine.py:141-154 | With efficacy 0, or a run of fewer than `period` steps, the vaccine orbits are exactly the orbits of the plain step. |
| ApocalypseVaccine.ComparisonRunIsUnvaccinated | zombies_apocalypse_vaccine.py:141-154 | The comparison run (period 999999, efficacy 0) computes exactly the plain orbit. |
| ApocalypseVaccine.ExtinctionIsPermanent | zombies_apocalypse_vaccine.py:92-112 | Once a vaccine orbit reaches L = 0 with Z >= 0, it stays there. |
| ApocalypseVaccineNormal.Remover | zombies_apocalypse_vaccine_normal.py:24-26 | The removal term is either `ratio * Z` or 0. It is 0 at every time step <= 0 and whenever the ratio is 0. When it is `ratio * Z` is `ApocalypseVaccineNormal.RemoverAtMultiples`. |
| ApocalypseVaccineNormal.RemoverAtMultiples | zombies_apocalypse_vaccine_normal.py:24-26 | The removal term is `ratio * Z` exactly at the positive multiples of the period, and 0 otherwise. |
| ApocalypseVaccineNormal.EulerZ | zombies_apocalypse_vaccine_normal.py:31-32 | `new_Z` before the clamp, with the removal. It has no ensures; `ApocalypseVaccineNormal.RemovalIsSubtracted` and `ApocalypseVaccineNormal.RemovalStep` relate it to the plain step. |
| ApocalypseVaccineNormal.RemovalIsSubtracted | zombies_apocalypse_vaccine_normal.py:31-32 | The unclamped Z with removal is the plain step's Euler value of Z minus the removal term. |
| ApocalypseVaccineNormal.DiscreteLotkaVolterra | zombies_apocalypse_vaccine_normal.py:5-34 | Both populations returned by the removal step are non-negative. |
| ApocalypseVaccineNormal.LivingIgnoresRemoval | zombies_apocalypse_vaccine_normal.py:28-29 | The new L of the removal step is the plain step's new L, whatever the time and the ratio. |
| ApocalypseVaccineNormal.RemovalStep | zombies_apocalypse_vaccine_normal.py:24-32 | At a removal time the unclamped Z is the plain Euler value minus `ratio * Z`. At any other time it is the plain Euler value. |
| ApocalypseVaccineNormal.NoRemovalIsPlain | zombies_apocalypse_vaccine_normal.py:24-32 | With ratio 0, or off the removal times, the removal step equals the plain step. |
| ApocalypseVaccineNormal.ExtinctionStep | zombies_apocalypse_vaccine_normal.py:24-34 | With L = 0, Z >= 0 and a non-negative ratio, the step keeps L = 0, and the new Z lies between 0 and Z (a ratio above 1 is clamped to 0). |
| ApocalypseVaccineNormal.Simulate | zombies_apocalypse_vaccine_normal.py:73-92 | The driver returns two arrays of length `time_steps`. Entry 0 holds the initial state, each later entry is the removal step at that time from the one before, and every later entry is non-negative. |
| ApocalypseVaccineNormal.OrbitNonNeg | zombies_apocalypse_vaccine_normal.py:79-92 | In any orbit of the removal step, every entry after the first is non-negative. |
| ApocalypseVaccineNormal.UnremovedOrbit | zombies_apocalypse_vaccine_normal.py:110-123 | With ratio 0, or a run of fewer than `period` steps, the removal orbits are exactly the orbits of the plain step. |
| ApocalypseVaccineNormal.ComparisonRunIsUnremoved | zombies_apocalypse_vaccine_normal.py:110-123 | The comparison run (period 999999, ratio 0) computes exactly the plain orbit. |
| ApocalypseVaccineNormal.ExtinctionIsPermanent | zombies_apocalypse_vaccine_normal.py:79-92 | Once a removal orbit reaches L = 0 with Z >= 0 (ratio >= 0), L stays 0 and Z never exceeds its value at that point. |

## Left out

- Plotting (matplotlib figures, `savefig`, `show`, file names derived from `__file__`) is presentation only.
- The `solve_ivp` integration is a foreign library with adaptive Runge-Kutta steps. Only the vector field it receives is modelled, so the continuous trajectories and their post-hoc `np.any(sol.y < 0)` check are not modelled.
- The `print` and `exit()` reporting paths are side effects. The discrete abort is modelled as the `None` result.
- `trayectorias_2d.py` and `trayectorias_3d.py` are not part of this model. They only evaluate the same fields on grids for plotting.
- Floating-point rounding is not modelled: all arithmetic is on exact reals, so no claim is made about numerical accuracy or about discrete-vs-continuous agreement.
- The scripts' globals (`params`, `init_discrete`, `t_max`, the parameter sets, `dt`, `time_steps`, the pulse, vaccine and removal settings) become parameters. Only the values that a lemma uses are kept as constants: the coexistence parameters and initial state, `t_max`, the pulse defaults and the comparison runs' settings. The L/Z parameter sets, `dt`, `time_steps` and the vaccine and removal defaults are not.
- A zero interval or period makes Python's `%` raise `ZeroDivisionError`. The model states a nonzero interval or period as a precondition instead of modelling the exception.
- A driver with `time_steps = 0` fails in Python at `L_values[0] = ...` with an `IndexError`. The drivers require `time_steps >= 1` instead.
- The drivers' initial `np.zeros` contents are not modelled. Every entry is written before it is read.
- The drivers take every value as a real. The integer initial values of the scripts (`init_discrete` is an integer numpy array) are written as the equal reals.
- The comparison runs of the vaccine and removal scripts are the same driver with other arguments. They are covered by `ComparisonRunIsUnvaccinated` and `ComparisonRunIsUnremoved` rather than by separate methods.
