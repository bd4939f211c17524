/** The four-compartment coexistence model shared by zombies_sistema_final.py
    and zombies_final_entrada_exogena.py: Civilians, Zombies, Military, Dead,
    and the eight rate coefficients. Populations are exact reals. */
module Compartments {

  /** `None` is the early `return None` of simulate_discrete. */
  datatype Option<T> = None | Some(value: T)

  /** The parameter list `[alpha, beta, beta_CZ, epsilon_CZ, beta_MZ,
      gamma_MZ, E, rho]`. */
  datatype Params = Params(
    alpha: real,      // civilian growth
    beta: real,       // baseline attrition
    betaCZ: real,     // civilian-to-zombie infection through C-Z contact
    epsilonCZ: real,  // zombies destroyed through C-Z contact
    betaMZ: real,     // zombies made through M-Z contact
    gammaMZ: real,    // zombies destroyed through M-Z contact
    E: real,          // enlistment of civilians into the military
    rho: real)        // share of attrition that turns into zombies

  /** One state `[C, Z, M, D]`. */
  datatype State = State(c: real, z: real, m: real, d: real)

  /** The scripts' validity test: no component below zero. */
  predicate NonNeg(s: State)
  {
    s.c >= 0.0 && s.z >= 0.0 && s.m >= 0.0 && s.d >= 0.0
  }

  function Total(s: State): real
  {
    s.c + s.z + s.m + s.d
  }

  /** Component-wise difference `a - b`: the increment from `b` to `a`. */
  function Increment(a: State, b: State): State
  {
    State(a.c - b.c, a.z - b.z, a.m - b.m, a.d - b.d)
  }

  /** Coefficients that are rates (non-negative), with rho a fraction. */
  predicate Admissible(p: Params)
  {
    && p.alpha >= 0.0 && p.beta >= 0.0 && p.betaCZ >= 0.0 && p.epsilonCZ >= 0.0
    && p.betaMZ >= 0.0 && p.gammaMZ >= 0.0 && p.E >= 0.0
    && 0.0 <= p.rho <= 1.0
  }

  /** The fixed coexistence parameters both scripts use. */
  const CoexistenceParams := Params(0.033, 0.009, 0.009, 0.006, 0.0009, 0.022, 0.0015, 0.009)

  /** `C0, Z0, M0, D0 = 48, 2, 50, 0`. */
  const InitialState := State(48.0, 2.0, 50.0, 0.0)

  /** `t_max = 1500`. */
  const TMax := 1500
}
