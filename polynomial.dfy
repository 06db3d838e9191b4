/**
 * Evaluation of a polynomial given by its coefficients in descending power
 * order, as `np.polyval` does: the coefficient list `[c_n, ..., c_1, c_0]`
 * stands for `c_n*x^n + ... + c_1*x + c_0`. Arithmetic is exact (`real`).
 */
module Polynomial {

  /** `x` raised to the natural power `n`. */
  function Pow(x: real, n: nat): real
  {
    if n == 0 then 1.0 else x * Pow(x, n - 1)
  }

  /**
   * Horner's rule as `np.polyval` runs it: starting from 0, for every
   * coefficient in order the accumulator becomes `acc * x + c`. The recursion
   * peels off the LAST coefficient, so `Horner(cs, x)` is the accumulator
   * after the whole list has been consumed. An empty list evaluates to 0.
   */
  function Horner(cs: seq<real>, x: real): real
    decreases |cs|
  {
    if |cs| == 0 then 0.0 else Horner(cs[..|cs| - 1], x) * x + cs[|cs| - 1]
  }

  /**
   * The reference definition: the explicit sum of terms, where the
   * coefficient at position `i` multiplies `x` to the power `|cs| - 1 - i`.
   */
  function PolySum(cs: seq<real>, x: real): real
    decreases |cs|
  {
    if |cs| == 0 then 0.0 else cs[0] * Pow(x, |cs| - 1) + PolySum(cs[1..], x)
  }

  /** Appending a constant term multiplies the explicit sum by `x` and adds it. */
  lemma {:induction false} PolySumSnoc(cs: seq<real>, c: real, x: real)
    ensures PolySum(cs + [c], x) == PolySum(cs, x) * x + c
    decreases |cs|
  {
    if |cs| == 0 {
      assert cs + [c] == [c];
    } else {
      var n := |cs|;
      assert (cs + [c])[1..] == cs[1..] + [c];
      PolySumSnoc(cs[1..], c, x);
      calc {
        PolySum(cs + [c], x);
        cs[0] * Pow(x, n) + PolySum(cs[1..] + [c], x);
        cs[0] * (x * Pow(x, n - 1)) + (PolySum(cs[1..], x) * x + c);
        (cs[0] * Pow(x, n - 1) + PolySum(cs[1..], x)) * x + c;
        PolySum(cs, x) * x + c;
      }
    }
  }

  /**
   * Horner's rule computes the explicit sum of terms exactly, for a
   * coefficient list of any length.
   */
  lemma {:induction false} HornerIsSum(cs: seq<real>, x: real)
    ensures Horner(cs, x) == PolySum(cs, x)
    decreases |cs|
  {
    if |cs| > 0 {
      var init := cs[..|cs| - 1];
      HornerIsSum(init, x);
      PolySumSnoc(init, cs[|cs| - 1], x);
      assert init + [cs[|cs| - 1]] == cs;
    }
  }

  /**
   * The degree-4 case the calculator uses: `[c4, c3, c2, c1, c0]` evaluates
   * to `c4*x^4 + c3*x^3 + c2*x^2 + c1*x + c0`.
   */
  lemma HornerDegree4(c4: real, c3: real, c2: real, c1: real, c0: real, x: real)
    ensures Horner([c4, c3, c2, c1, c0], x)
         == c4 * Pow(x, 4) + c3 * Pow(x, 3) + c2 * Pow(x, 2) + c1 * x + c0
  {
    var cs := [c4, c3, c2, c1, c0];
    HornerIsSum(cs, x);
    assert Pow(x, 1) == x;
    assert [c0][1..] == [];
    assert PolySum([c0], x) == c0;
    assert [c1, c0][1..] == [c0];
    assert [c2, c1, c0][1..] == [c1, c0];
    assert [c3, c2, c1, c0][1..] == [c2, c1, c0];
    assert cs[1..] == [c3, c2, c1, c0];
    assert PolySum([c1, c0], x) == c1 * x + c0;
    assert PolySum([c2, c1, c0], x) == c2 * Pow(x, 2) + (c1 * x + c0);
    assert PolySum([c3, c2, c1, c0], x) == c3 * Pow(x, 3) + (c2 * Pow(x, 2) + (c1 * x + c0));
    assert PolySum(cs, x) == c4 * Pow(x, 4) + (c3 * Pow(x, 3) + (c2 * Pow(x, 2) + (c1 * x + c0)));
  }

  /** Every coefficient before the last one is zero. */
  predicate ConstantOnly(cs: seq<real>)
  {
    forall i :: 0 <= i < |cs| - 1 ==> cs[i] == 0.0
  }

  /**
   * A coefficient list whose only possibly nonzero entry is the last one
   * evaluates to that entry at every point.
   */
  lemma {:induction false} HornerConstant(cs: seq<real>, x: real)
    requires |cs| > 0 && ConstantOnly(cs)
    ensures Horner(cs, x) == cs[|cs| - 1]
    decreases |cs|
  {
    var init := cs[..|cs| - 1];
    if |init| > 0 {
      HornerConstant(init, x);
      assert init[|init| - 1] == 0.0;
    }
  }
}
