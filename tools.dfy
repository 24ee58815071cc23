/**
 * The integer power helper pow_i of src/tools.c. The codec builds every mask
 * from pow_i(2, n) - 1.
 */
module Tools {

  /** x raised to the n-th power, over the unbounded integers. */
  function Power(x: int, n: nat): int
  {
    if n == 0 then 1 else Power(x, n - 1) * x
  }

  /** The values of a C int on the targets of the codec: 32 bits, two's complement. */
  predicate IsInt(v: int)
  {
    -0x8000_0000 <= v < 0x8000_0000
  }

  function Abs(v: int): nat
  {
    if v < 0 then -v else v
  }

  /** The magnitude of a product is the product of the magnitudes. */
  lemma AbsMul(p: int, x: int)
    ensures Abs(p * x) == Abs(p) * Abs(x)
  {
    if p < 0 && x < 0 {
      assert p * x == (-p) * (-x);
    } else if p < 0 {
      assert p * x == -((-p) * x);
    } else if x < 0 {
      assert p * x == -(p * (-x));
    }
  }

  /** A base of magnitude at most one keeps every power at magnitude at most one. */
  lemma {:induction false} SmallBasePower(x: int, n: nat)
    requires Abs(x) <= 1
    ensures Abs(Power(x, n)) <= 1
  {
    if n > 0 {
      SmallBasePower(x, n - 1);
      var p := Power(x, n - 1);
      AbsMul(p, x);
      assert Abs(p) * Abs(x) <= 1 * 1 by {
        assert Abs(p) * Abs(x) <= Abs(p) * 1;
      }
    }
  }

  /** Multiplying by a base of magnitude at least two at least doubles the magnitude. */
  lemma Doubling(p: int, x: int)
    requires Abs(x) >= 2
    ensures 2 * Abs(p) <= Abs(p * x)
  {
    AbsMul(p, x);
    var a, b := Abs(p), Abs(x);
    assert a * b == 2 * a + a * (b - 2);
    assert a * (b - 2) >= 0;
  }

  /** Once x^n fits in an int, so does every lower power x^m: no step of pow_i overflows. */
  lemma {:induction false} LowerPowersFit(x: int, m: nat, n: nat)
    requires m <= n && IsInt(Power(x, n))
    ensures IsInt(Power(x, m))
    decreases n - m
  {
    if Abs(x) <= 1 {
      SmallBasePower(x, m);
    } else if m < n {
      LowerPowersFit(x, m + 1, n);
      Doubling(Power(x, m), x);
    }
  }

  /**
   * pow_i: multiplies an accumulator that starts at 1 by x, n times, counting n
   * down to zero. A negative n never reaches zero, and a power that does not fit
   * in an int overflows, which C leaves undefined; both are excluded here.
   */
  method PowI(x: int, n: int) returns (r: int)
    requires n >= 0
    requires IsInt(x) && IsInt(Power(x, n))
    ensures r == Power(x, n)
    ensures IsInt(r)
  {
    r := 1;
    var left := n;
    while left != 0
      invariant 0 <= left <= n
      invariant r == Power(x, n - left)
      invariant IsInt(r)
    {
      LowerPowersFit(x, n - left + 1, n);
      left := left - 1;
      r := r * x;
    }
  }
}
