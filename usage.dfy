/** The share of an allocation that a consumption represents, as both reports compute it. */
module Usage {

  /**
   * `used / allocation * 100`, or 0 when there is no allocation. The
   * summary guards with `allocation != 0` and the detailed view with
   * `allocation > 0`; on the non-negative amounts a billing token yields
   * the two guards agree. The exact quotient stands for the float.
   */
  function Percent(used: nat, allocation: nat): (p: real)
    ensures p >= 0.0
    ensures allocation == 0 ==> p == 0.0
  {
    if allocation > 0 then (used as real / allocation as real) * 100.0 else 0.0
  }

  /**
   * With an allocation, the percentage is the number that, applied to the
   * allocation, gives back the usage, and it exceeds 100 exactly when the
   * usage exceeds the allocation.
   */
  lemma PercentOfAllocation(used: nat, allocation: nat)
    requires allocation > 0
    ensures Percent(used, allocation) * allocation as real == 100.0 * used as real
    ensures Percent(used, allocation) <= 100.0 <==> used <= allocation
  {
    var a, u := allocation as real, used as real;
    var q := u / a;
    assert q * a == u;
    var p := Percent(used, allocation);
    assert p == q * 100.0;
    assert p * a == 100.0 * (q * a);
    // p - 100 has the sign of u - a, because a is positive
    assert (p - 100.0) * a == 100.0 * (u - a);
    SignOfProduct(p - 100.0, a);
  }

  /** Multiplying by a positive number keeps the sign. */
  lemma SignOfProduct(x: real, a: real)
    requires a > 0.0
    ensures x <= 0.0 <==> x * a <= 0.0
  {
  }
}
