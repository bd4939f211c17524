/** Time-index helpers shared by every script: the periodic firing rule used by
    the Military pulse, the gamma-reducing vaccine and the zombie removal, and
    Python's int() conversion of a continuous time to a step index. */
module Schedule {

  /** `t % interval == 0 and t > 0`, the rule every periodic forcing uses.
      Python raises ZeroDivisionError for a zero interval, hence the
      precondition. A zero remainder means the same thing under Python's
      floored `%` and Dafny's Euclidean `%`, whatever the divisor's sign. */
  predicate Fires(t: int, interval: int)
    requires interval != 0
  {
    t % interval == 0 && t > 0
  }

  /** Reference definition: `t` is a positive integer multiple of `interval`. */
  ghost predicate IsPositiveMultiple(t: int, interval: int)
  {
    t > 0 && exists q: int :: t == q * interval
  }

  lemma ProductOfNonNegatives(x: int, y: int)
    requires 0 <= x && 0 <= y
    ensures 0 <= x * y
  {
  }

  /** A nonzero multiple of `k` is at least `|k|` away from zero. */
  lemma NonzeroMultipleIsLarge(a: int, k: int)
    requires a != 0 && k != 0
    ensures Abs(a * k) >= Abs(k)
  {
    if a > 0 && k > 0 {
      ProductOfNonNegatives(a - 1, k);
      assert a * k == (a - 1) * k + k;
    } else if a > 0 {
      ProductOfNonNegatives(a - 1, -k);
      assert a * k == -((a - 1) * -k) + k;
    } else if k > 0 {
      ProductOfNonNegatives(-a - 1, k);
      assert a * k == -((-a - 1) * k) - k;
    } else {
      ProductOfNonNegatives(-a - 1, -k);
      assert a * k == (-a - 1) * -k - k;
    }
  }

  function Abs(x: int): int { if x < 0 then -x else x }

  lemma MultipleHasNoRemainder(q: int, k: int)
    requires k != 0
    ensures (q * k) % k == 0
  {
    var d, r := (q * k) / k, (q * k) % k;
    assert q * k == d * k + r;
    assert (q - d) * k == r by {
      assert (q - d) * k == q * k - d * k;
    }
    if q != d {
      NonzeroMultipleIsLarge(q - d, k);
    }
  }

  /** The firing rule fires exactly at the positive multiples of the interval. */
  lemma FiresIffPositiveMultiple(t: int, interval: int)
    requires interval != 0
    ensures Fires(t, interval) <==> IsPositiveMultiple(t, interval)
  {
    if Fires(t, interval) {
      assert t == (t / interval) * interval;
    }
    if IsPositiveMultiple(t, interval) {
      var q :| t == q * interval;
      MultipleHasNoRemainder(q, interval);
    }
  }

  /** Nothing fires strictly between 0 and a positive interval: the first
      firing is at the interval itself. */
  lemma NotYetDue(t: int, interval: int)
    requires 0 < t < interval
    ensures !Fires(t, interval)
  {
    DivModUnique(t, interval, 0, t);
  }

  /** Euclidean division is determined by its defining equation. */
  lemma DivModUnique(n: int, k: int, q: int, r: int)
    requires k > 0 && n == q * k + r && 0 <= r < k
    ensures n / k == q && n % k == r
  {
    var q', r' := n / k, n % k;
    assert (q - q') * k == r' - r;
    if q != q' {
      NonzeroMultipleIsLarge(q - q', k);
    }
  }

  /** Python's int() on a float: truncation toward zero. */
  function Trunc(x: real): (n: int)
    ensures 0.0 <= x ==> 0 <= n && n as real <= x < n as real + 1.0
    ensures x < 0.0 ==> n <= 0 && n as real - 1.0 < x <= n as real
  {
    if x >= 0.0 then x.Floor else -((-x).Floor)
  }
}
