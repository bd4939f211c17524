/** zombies_apocalypse.py: the two-compartment predator-prey model of living
    people L and zombies Z, as the vector field handed to the ODE solver.
    The discrete scripts step the same field with Euler's method. */
module Apocalypse {

  /** The keyword parameters `alpha, beta, rho, gamma, delta` of the L/Z
      scripts. */
  datatype LVParams = LVParams(
    alpha: real,  // growth of the living
    beta: real,   // deaths among the living
    rho: real,    // share of those deaths that rise as zombies
    gamma: real,  // living lost per L-Z encounter (and zombies gained)
    delta: real)  // zombies destroyed per L-Z encounter

  /** One state `(L, Z)`. */
  datatype Pop = Pop(l: real, z: real)

  /** `dLdt`. */
  function LivingRate(p: LVParams, y: Pop): real
  {
    (p.alpha - p.beta) * y.l - p.gamma * y.l * y.z
  }

  /** `dZdt`. */
  function ZombieRate(p: LVParams, y: Pop): real
  {
    p.rho * p.beta * y.l + (p.gamma - p.delta) * y.l * y.z
  }

  /** lotka_volterra: `[dLdt, dZdt]` at `y`; the time argument is unused. */
  function LotkaVolterra(t: real, y: Pop, p: LVParams): Pop
  {
    Pop(LivingRate(p, y), ZombieRate(p, y))
  }

  /** The field is autonomous: it does not depend on the time. */
  lemma Autonomous(t1: real, t2: real, y: Pop, p: LVParams)
    ensures LotkaVolterra(t1, y, p) == LotkaVolterra(t2, y, p)
  {
  }

  /** With no living left nothing changes: both derivatives vanish. */
  lemma NoLivingNoChange(t: real, y: Pop, p: LVParams)
    requires y.l == 0.0
    ensures LotkaVolterra(t, y, p) == Pop(0.0, 0.0)
  {
    LivingRateWithoutLiving(p, y);
    ZombieRateWithoutLiving(p, y);
  }

  lemma LivingRateWithoutLiving(p: LVParams, y: Pop)
    requires y.l == 0.0
    ensures LivingRate(p, y) == 0.0
  {
  }

  lemma ZombieRateWithoutLiving(p: LVParams, y: Pop)
    requires y.l == 0.0
    ensures ZombieRate(p, y) == 0.0
  {
  }

  /** With no zombies there are no encounters: the living grow at
      `alpha - beta`, and zombies only rise from the share `rho` of deaths. */
  lemma NoZombiesNoEncounters(t: real, y: Pop, p: LVParams)
    requires y.z == 0.0
    ensures LotkaVolterra(t, y, p) == Pop((p.alpha - p.beta) * y.l, p.rho * p.beta * y.l)
  {
    LivingRateWithoutZombies(p, y);
    ZombieRateWithoutZombies(p, y);
  }

  lemma LivingRateWithoutZombies(p: LVParams, y: Pop)
    requires y.z == 0.0
    ensures LivingRate(p, y) == (p.alpha - p.beta) * y.l
  {
  }

  lemma ZombieRateWithoutZombies(p: LVParams, y: Pop)
    requires y.z == 0.0
    ensures ZombieRate(p, y) == p.rho * p.beta * y.l
  {
  }
}
