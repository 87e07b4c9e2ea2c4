/** Division of 128-bit integers by repeated subtraction of shifted divisors
    (base/pcg-random/pcg_uint128.hpp). */
module Uint128Divide {
  import opened Arith
  import opened Uint128
  import opened Uint128Shift

  /** floor(log2(v)) of a word. */
  function WordLog(v: nat): (n: nat)
    requires v > 0
    ensures Pow2(n) <= v < Pow2(n + 1)
  {
    if v == 1 then 0 else 1 + WordLog(v / 2)
  }

  /** n is floor(log2(v)). */
  predicate IsLog(n: nat, v: nat) {
    Pow2(n) <= v < Pow2(n + 1)
  }

  lemma LogBound(n: nat, v: nat, w: nat)
    requires IsLog(n, v) && v < Pow2(w)
    ensures n < w
  {
    hide Pow2;
    if n >= w {
      Pow2Monotone(w, n);
    }
  }

  /** The highest word that is not zero decides. */
  lemma LogByWord(w: int, low: int, i: nat, n: nat)
    requires w > 0 && IsLog(n, w) && 0 <= low < Place(i)
    ensures low + w * Place(i) >= 0 && IsLog(n + 32 * i, low + w * Place(i))
  {
    hide Pow2;
    var p := Place(i);
    Pow2Add(n, 32 * i);
    Pow2Add(n + 1, 32 * i);
    MulMonotone(Pow2(n), w, p);
    MulMonotone(w + 1, Pow2(n + 1), p);
    MulSub(w, 1, p);
  }

  lemma LowOne(wa: seq<Word>)
    requires |wa| == 4
    ensures Low(wa, 1) == wa[0]
  {
    hide Place;
    PlaceZero();
    assert Low(wa, 0) == 0;
  }

  lemma LowNext(wa: seq<Word>, i: nat)
    requires i < |wa|
    ensures Low(wa, i + 1) == Low(wa, i) + wa[i] * Place(i)
  {
  }

  method FLog2(v: Wide) returns (n: nat)
    requires v.Value() != 0
    ensures IsLog(n, v.Value()) && n < 128
  {
    hide Low, Place, Pow2, IsLog, Wide.Value, WordLog;
    var wa := v.Words();
    ValueLow(v);
    LowOne(wa);
    var i := 3;
    while wa[i] == 0
      invariant 0 <= i <= 3 && Low(wa, i + 1) == v.Value()
      decreases i
    {
      LowNext(wa, i);
      i := i - 1;
    }
    n := WordLog(wa[i]) + 32 * i;
    IsWordLog(wa[i]);
    LowNext(wa, i);
    LowBound(wa, i);
    LogByWord(wa[i], Low(wa, i), i, WordLog(wa[i]));
    WordSizes();
    LogBound(n, v.Value(), 128);
  }

  lemma IsWordLog(w: nat)
    requires w > 0
    ensures IsLog(WordLog(w), w)
  {
  }

  // ----- Exact steps

  lemma ExactMinus(a: Wide, b: Wide)
    requires b.Value() <= a.Value()
    ensures Minus(a, b).Value() == a.Value() - b.Value()
  {
    hide Mod, Div, Minus, Wide.Value;
    MinusValue(a, b);
    ModSmall(a.Value() - b.Value(), W4);
  }

  lemma ExactPlus(a: Wide, b: Wide)
    requires a.Value() + b.Value() < W4
    ensures Plus(a, b).Value() == a.Value() + b.Value()
  {
    hide Mod, Div, Plus, Wide.Value;
    PlusValue(a, b);
    ModSmall(a.Value() + b.Value(), W4);
  }

  lemma HalfOf(x: nat)
    ensures Div(x, Pow2(1)) == x / 2
  {
    hide Pow2;
    Pow2Small();
  }

  /** The divisor and one, both shifted left by k. */
  ghost predicate Scaled(factor: nat, qfactor: nat, d: nat, k: nat) {
    factor == d * Pow2(k) && qfactor == Pow2(k)
  }

  lemma Unscaled(factor: nat, qfactor: nat, d: nat, k: nat)
    requires Scaled(factor, qfactor, d, k) && factor > d
    ensures k > 0 && Scaled(factor / 2, qfactor / 2, d, k - 1)
  {
    if k > 0 {
      MulAssoc(2, Pow2(k - 1), d);
      var half := d * Pow2(k - 1);
      assert factor == 2 * half;
    }
  }

  /** One subtraction keeps the division equation. */
  lemma Subtracted(n: nat, q: nat, r: nat, factor: nat, qfactor: nat, d: nat, k: nat)
    requires n == q * d + r && Scaled(factor, qfactor, d, k) && factor <= r && d > 0
    ensures n == (q + qfactor) * d + (r - factor) && factor > 0 && q + qfactor <= n
  {
    hide Pow2;
    MulSub(q, qfactor, d);
    MulPositive(d, Pow2(k));
    MulMonotone(1, d, q + qfactor);
  }

  /** The first factor does not exceed the dividend: it is a power short. */
  lemma FirstFactor(n: nat, d: nat, logN: nat, logD: nat)
    requires IsLog(logN, n) && IsLog(logD, d) && logD < logN
    ensures d * Pow2(logN - logD - 1) <= n
  {
    hide Pow2;
    var k := logN - logD - 1;
    Pow2Add(logD + 1, k);
    MulMonotone(d, Pow2(logD + 1), Pow2(k));
  }

  lemma SameLog(n: nat, d: nat, log: nat)
    requires IsLog(log, n) && IsLog(log, d) && d <= n
    ensures n - d < d
  {
  }

  lemma LogMonotone(n: nat, d: nat, logN: nat, logD: nat)
    requires IsLog(logN, n) && IsLog(logD, d) && d <= n
    ensures logD <= logN
  {
    hide Pow2;
    if logN < logD {
      Pow2Monotone(logN + 1, logD);
    }
  }

  const ONE: Wide := Wide(0, 0, 0, 1)
  const ZERO: Wide := Wide(0, 0, 0, 0)

  /** Quotient and remainder of any number by any number but zero. */
  method DivMod128(origDividend: Wide, divisor: Wide) returns (quotient: Wide, dividend: Wide)
    requires divisor.Value() != 0
    ensures origDividend.Value() == quotient.Value() * divisor.Value() + dividend.Value()
    ensures dividend.Value() < divisor.Value()
  {
    hide Mod, Div, Pow2, Place, Wide.Value, IsLog, Plus, Minus, Scaled;
    SmallValues();
    if Less(origDividend, divisor) {
      return ZERO, origDividend;
    }
    dividend := origDividend;
    var logDivisor := FLog2(divisor);
    var logDividend := FLog2(dividend);
    LogMonotone(dividend.Value(), divisor.Value(), logDividend, logDivisor);
    var logdiff := logDividend - logDivisor;
    if logdiff == 0 {
      ExactMinus(dividend, divisor);
      SameLog(dividend.Value(), divisor.Value(), logDividend);
      return ONE, Minus(dividend, divisor);
    }
    logdiff := logdiff - 1;
    quotient := ZERO;
    FirstFactor(dividend.Value(), divisor.Value(), logDividend, logDivisor);
    var factor, qfactor := FirstShift(divisor, logdiff, dividend.Value());
    quotient, dividend := Subtract(origDividend, divisor, factor, qfactor, logdiff);
  }

  lemma SmallValues()
    ensures ZERO.Value() == 0 && ONE.Value() == 1
  {
  }

  /** The two starting shifts are exact. */
  method FirstShift(divisor: Wide, k: nat, ghost n: nat) returns (factor: Wide, qfactor: Wide)
    requires k < 128 && divisor.Value() != 0 && divisor.Value() * Pow2(k) <= n < W4
    ensures Scaled(factor.Value(), qfactor.Value(), divisor.Value(), k) && factor.Value() <= n
  {
    hide Mod, Div, Pow2, Wide.Value;
    SmallValues();
    qfactor := ShiftLeft(ONE, k);
    factor := ShiftLeft(divisor, k);
    MulMonotone(1, divisor.Value(), Pow2(k));
    ModSmall(divisor.Value() * Pow2(k), W4);
    ModSmall(1 * Pow2(k), W4);
  }

  /** The nested loops: subtract, then halve the factor until it fits again. */
  method Subtract(n: Wide, divisor: Wide, factor0: Wide, qfactor0: Wide, ghost k0: nat)
    returns (quotient: Wide, dividend: Wide)
    requires divisor.Value() != 0 && factor0.Value() <= n.Value()
    requires Scaled(factor0.Value(), qfactor0.Value(), divisor.Value(), k0)
    ensures n.Value() == quotient.Value() * divisor.Value() + dividend.Value()
    ensures dividend.Value() < divisor.Value()
  {
    hide Mod, Div, Pow2, Wide.Value, Plus, Minus, Scaled;
    SmallValues();
    quotient, dividend := ZERO, n;
    var factor, qfactor := factor0, qfactor0;
    ghost var k := k0;
    var more := true;
    while more
      invariant n.Value() == quotient.Value() * divisor.Value() + dividend.Value()
      invariant !more ==> dividend.Value() < divisor.Value()
      invariant more ==> Scaled(factor.Value(), qfactor.Value(), divisor.Value(), k) && factor.Value() <= dividend.Value()
      decreases dividend.Value()
    {
      Subtracted(n.Value(), quotient.Value(), dividend.Value(), factor.Value(), qfactor.Value(), divisor.Value(), k);
      ExactMinus(dividend, factor);
      ExactPlus(quotient, qfactor);
      dividend := Minus(dividend, factor);
      quotient := Plus(quotient, qfactor);
      factor, qfactor, k := Refit(dividend, divisor, factor, qfactor, k);
      more := !Less(dividend, divisor);
    }
  }

  /** The inner loop. */
  method Refit(dividend: Wide, divisor: Wide, factor0: Wide, qfactor0: Wide, ghost k0: nat)
    returns (factor: Wide, qfactor: Wide, ghost k: nat)
    requires divisor.Value() != 0 && Scaled(factor0.Value(), qfactor0.Value(), divisor.Value(), k0)
    ensures factor.Value() <= dividend.Value()
    ensures dividend.Value() >= divisor.Value() ==> Scaled(factor.Value(), qfactor.Value(), divisor.Value(), k)
  {
    hide Mod, Div, Pow2, Wide.Value, Scaled;
    factor, qfactor, k := factor0, qfactor0, k0;
    while Less(dividend, factor)
      invariant dividend.Value() >= divisor.Value() ==> Scaled(factor.Value(), qfactor.Value(), divisor.Value(), k)
      decreases factor.Value()
    {
      HalfOf(factor.Value());
      HalfOf(qfactor.Value());
      if dividend.Value() >= divisor.Value() {
        Unscaled(factor.Value(), qfactor.Value(), divisor.Value(), k);
        k := k - 1;
      }
      factor := ShiftRight(factor, 1);
      qfactor := ShiftRight(qfactor, 1);
    }
  }
}
