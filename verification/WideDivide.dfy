/** `divide` (base/common/wide_integer_impl.h): bit-by-bit division, for any number of limbs and
    both signednesses. */
module WideDivide {
  import opened Arith
  import opened Bits
  import opened WideValue
  import opened WideOps
  import opened WideShift
  import opened SignedPasses

  datatype Division = DivideByZero | Divided(quotient: seq<Limb>, remainder: seq<Limb>)

  /** The bit test of the first loop: (d >> (Bits - 1)) & 1. */
  method TopBit(d: seq<Limb>, signed: bool) returns (b: bool)
    requires |d| > 0
    ensures b <==> 2 * Val(d) >= Cap(|d|)
  {
    hide Val, Cap, And, Mod, Div, Pow2;
    var s := ShiftRight(d, 64 * |d| - 1, signed);
    var a := OperatorAmp(s, [1]);
    var z := OperatorEq(a, [0]);
    ValSingle(1);
    ValSingle(0);
    AndOne(Val(s));
    b := !z;
  }

  lemma AndOne(x: nat)
    ensures And(x, 1) == x % 2
  {
    hide Mod, Div, Bit, And;
    Pow2Small();
    AndPow2(x, 0);
    BitZero(x);
  }

  /** The largest doubling of d below s. */
  function TopMultiple(d: nat, s: nat): nat
    requires d > 0
    decreases if d < s then s - d else 0
  {
    if 2 * d >= s then d else TopMultiple(2 * d, s)
  }

  /** The operands whose signed division is right: while doubling, the divisor stops below the
      sign bit, or both operands have it. Operands are taken as absolute values, so the most
      negative number counts as half the capacity. */
  predicate SignedDivisible(n: nat, d: nat, half: nat)
    requires d > 0
  {
    if n < half && d < half then n < TopMultiple(d, half) else n >= half && d >= half
  }

  /** Division by one of a value in the upper quarter. See EndlessPasses. */
  predicate Endless(n: nat, d: nat, half: nat) {
    d == 1 && half <= 2 * n && n < half
  }

  /** The operands whose signed remainder is right: those, and the divisor that is a quarter of the
      capacity. */
  predicate SignedRemains(n: nat, d: nat, half: nat)
    requires d > 0
  {
    SignedDivisible(n, d, half) || (2 * d == half && d <= n < half)
  }

  lemma ValueIsReading(s: seq<Limb>, signed: bool)
    requires |s| > 0
    ensures Value(s, signed) == Reading(Val(s), signed, Cap(|s|) / 2)
    ensures Cap(|s|) == 2 * (Cap(|s|) / 2) && Cap(|s|) / 2 > 1
  {
    hide Val, Cap;
    NegativeIff(s);
    CapSucc(|s| - 1);
    HalfCap(Cap(|s| - 1), Cap(|s|));
  }

  lemma HalfCap(c: nat, cap: nat)
    requires c > 0 && cap == BASE * c
    ensures cap == 2 * (cap / 2) && cap / 2 > 1
  {
    assert cap == 2 * (0x8000_0000_0000_0000 * c);
  }

  /** Where the first loop leaves the divisor. */
  ghost predicate DoubledUp(n: nat, D: nat, j: nat, signed: bool, half: nat) {
    && D * Pow2(j) < 2 * half
    && (j > 0 ==> D * Pow2(j - 1) < half)
    && (j > 0 ==> Reading(D * Pow2(j - 1), signed, half) <= Reading(n, signed, half))
    && (D * Pow2(j) >= half || Reading(D * Pow2(j), signed, half) > Reading(n, signed, half))
  }

  /** How the operands stand during the second loop when the result will be right. */
  ghost predicate Good(n: nat, d: nat, x: nat, signed: bool, half: nat) {
    n < 2 * d && (signed ==> (n < half && d < half) || (n >= half && d >= half && x == 1))
  }

  method Divide(numerator: seq<Limb>, denominator: seq<Limb>, signed: bool) returns (r: Division)
    requires |numerator| == |denominator| > 0
    requires signed ==> !Endless(Val(numerator), Val(denominator), Cap(|numerator|) / 2)
    ensures r.DivideByZero? <==> Val(denominator) == 0
    ensures r.Divided? ==> |r.quotient| == |r.remainder| == |numerator|
    ensures r.Divided? && (signed ==> SignedDivisible(Val(numerator), Val(denominator), Cap(|numerator|) / 2)) ==>
      Val(numerator) == Val(r.quotient) * Val(denominator) + Val(r.remainder) && Val(r.remainder) < Val(denominator)
    ensures r.Divided? && signed && !SignedDivisible(Val(numerator), Val(denominator), Cap(|numerator|) / 2) ==>
      Val(r.quotient) != Div(Val(numerator), Val(denominator))
    ensures r.Divided? ==> (Val(r.remainder) == Mod(Val(numerator), Val(denominator)) <==>
      (signed ==> SignedRemains(Val(numerator), Val(denominator), Cap(|numerator|) / 2)))
  {
    hide Val, Cap, Pow2, Mod, Div, Reading, DoubledUp, Good, SignedDivisible, Endless, Rest;
    var zero := OperatorEq(denominator, [0]);
    ValSingle(0);
    if zero {
      return DivideByZero;
    }
    var x, d, j := DoubleUp(numerator, denominator, signed);
    ghost var n, D, half := Val(numerator), Val(denominator), Cap(|numerator|) / 2;
    ValueIsReading(numerator, signed);
    ValBound(numerator);
    ValBound(denominator);
    Mode(n, D, j, signed, half);
    var quotient, rest := Reduce(numerator, d, x, signed, D, j);
    if signed && !SignedDivisible(n, D, half) {
      SignedWrong(n, D, Val(quotient), j, half);
      CapIsPow2(|numerator|);
      Pow2Doubles(64 * |numerator| - 1);
      ValBound(rest);
      SignedRemainder(n, D, j, Val(rest), half, 64 * |numerator| - 1);
    } else {
      DivModUnique(n, Val(quotient), Val(rest), D);
    }
    return Divided(quotient, rest);
  }

  /** In the excluded case x reaches the sign bit, and halving a negative x never gives zero: after
      any number of passes the second loop goes on. */
  method EndlessPasses(numerator: seq<Limb>, denominator: seq<Limb>, passes: nat) returns (x: seq<Limb>)
    requires |numerator| == |denominator| > 0
    requires Endless(Val(numerator), Val(denominator), Cap(|numerator|) / 2)
    ensures |x| == |numerator| && Val(x) != 0
  {
    hide Val, Cap, Pow2, Mod, Div, DoubledUp;
    var d;
    ghost var j;
    x, d, j := DoubleUp(numerator, denominator, true);
    CapIsPow2(|numerator|);
    Pow2Doubles(64 * |numerator| - 1);
    ReachesSign(Val(numerator), j, 64 * |numerator| - 1);
    NegativeIff(x);
    ValBound(x);
    for i := 0 to passes
      invariant |x| == |numerator| && Value(x, true) < 0
    {
      HalfOfNegative(Value(x, true));
      x := ShiftRight(x, 1, true);
    }
    NegativeIff(x);
    ValBound(x);
  }

  lemma ReachesSign(n: nat, j: nat, m: nat)
    requires DoubledUp(n, 1, j, true, Pow2(m)) && Endless(n, 1, Pow2(m))
    ensures Pow2(j) >= Pow2(m)
  {
    hide Pow2;
    if j < m {
      Pow2Monotone(j, m);
    } else {
      Pow2Monotone(m, j);
    }
  }

  lemma HalfOfNegative(v: int)
    requires v < 0
    ensures Div(v, Pow2(1)) < 0
  {
    hide Pow2;
    Pow2Small();
  }

  /** The first loop: shifts divisor and quotient bit left together. */
  method DoubleUp(n: seq<Limb>, denominator: seq<Limb>, signed: bool)
    returns (x: seq<Limb>, d: seq<Limb>, ghost j: nat)
    requires |n| == |denominator| > 0 && Val(denominator) > 0
    ensures |x| == |d| == |n|
    ensures Val(x) == Pow2(j) && Val(d) == Val(denominator) * Pow2(j)
    ensures DoubledUp(Val(n), Val(denominator), j, signed, Cap(|n|) / 2)
  {
    hide Val, Cap, Mod, Div, Pow2, Reading, Value;
    ghost var D, half := Val(denominator), Cap(|n|) / 2;
    x := Extend([1], |n|);
    ExtendValue([1], |n|);
    ValSingle(1);
    d := denominator;
    j := 0;
    Pow2Small();
    ValueIsReading(n, signed);
    var more := OperatorMore(d, n, signed);
    var top := TopBit(d, signed);
    ValueIsReading(d, signed);
    ValBound(d);
    while !more && !top
      invariant |x| == |d| == |n|
      invariant Val(x) == Pow2(j) && Val(d) == D * Pow2(j) && Val(d) < Cap(|n|)
      invariant j > 0 ==> D * Pow2(j - 1) < half
      invariant j > 0 ==> Reading(D * Pow2(j - 1), signed, half) <= Reading(Val(n), signed, half)
      invariant more <==> Reading(Val(d), signed, half) > Reading(Val(n), signed, half)
      invariant top <==> 2 * Val(d) >= Cap(|n|)
      decreases Cap(|n|) - Val(d)
    {
      DoubleStep(D, j, Cap(|n|));
      x := ShiftLeft(x, 1);
      d := ShiftLeft(d, 1);
      j := j + 1;
      more := OperatorMore(d, n, signed);
      top := TopBit(d, signed);
      ValueIsReading(d, signed);
      ValBound(d);
    }
  }

  lemma DoubleStep(D: nat, j: nat, cap: nat)
    requires D > 0 && 2 * (D * Pow2(j)) < cap
    ensures Pow2(1) == 2 && Pow2(j + 1) == Pow2(j) * 2 && D * Pow2(j + 1) == (D * Pow2(j)) * 2
    ensures Mod(Pow2(j) * 2, cap) == Pow2(j + 1) && Mod((D * Pow2(j)) * 2, cap) == D * Pow2(j + 1)
    ensures D * Pow2(j + 1) > D * Pow2(j)
  {
    hide Mod, Div, Pow2;
    Pow2Small();
    Pow2Doubles(j);
    MulAssoc(D, Pow2(j), 2);
    MulMonotone(1, D, Pow2(j));
    ModSmall(2 * Pow2(j), cap);
    ModSmall(2 * (D * Pow2(j)), cap);
  }

  // ----- What the first loop leaves, by signedness

  lemma {:induction false} TopMultipleBounds(d: nat, s: nat, i: nat)
    requires d > 0
    ensures 2 * TopMultiple(d, s) >= s
    ensures d * Pow2(i) < s ==> TopMultiple(d, s) >= d * Pow2(i)
    ensures d * Pow2(i) < s <= 2 * (d * Pow2(i)) ==> TopMultiple(d, s) == d * Pow2(i)
    decreases if d < s then s - d else 0
  {
    hide Pow2, TopMultiple;
    TopMultipleStep(d, s);
    PowerSteps(d, i);
    if 2 * d < s {
      TopMultipleBounds(2 * d, s, if i == 0 then 0 else i - 1);
    }
  }

  lemma TopMultipleStep(d: nat, s: nat)
    requires d > 0
    ensures TopMultiple(d, s) == if 2 * d >= s then d else TopMultiple(2 * d, s)
  {
  }

  /** d * 2^i by its first doubling. */
  lemma PowerSteps(d: nat, i: nat)
    requires d > 0
    ensures if i == 0 then d * Pow2(i) == d && (2 * d) * Pow2(0) == 2 * d
            else d * Pow2(i) == (2 * d) * Pow2(i - 1) && d * Pow2(i) >= 2 * d
  {
    hide Pow2;
    Pow2Small();
    if i > 0 {
      Pow2Doubles(i - 1);
      MulAssoc(d, 2, Pow2(i - 1));
      MulMonotone(1, Pow2(i - 1), 2 * d);
    }
  }

  lemma Mode(n: nat, D: nat, j: nat, signed: bool, half: nat)
    requires D > 0 && half > 1 && n < 2 * half && D < 2 * half && DoubledUp(n, D, j, signed, half)
    requires signed ==> !Endless(n, D, half)
    ensures (signed ==> SignedDivisible(n, D, half)) ==> Good(n, D * Pow2(j), Pow2(j), signed, half)
    ensures signed ==> Pow2(j) < half
    ensures signed && !SignedDivisible(n, D, half) && n < half ==>
      D * Pow2(j) >= half && Reading(D * Pow2(j), signed, half) <= Reading(n, signed, half)
    ensures signed && !SignedDivisible(n, D, half) && n >= half ==>
      j == 0 && Reading(D * Pow2(j), signed, half) > Reading(n, signed, half)
  {
    hide Pow2, TopMultiple, Good, SignedDivisible, Reading, Endless;
    TopMultipleBounds(D, half, j);
    DoubledProduct(D, j);
    BitBelow(D, Pow2(j), half);
    if j == 0 {
      ModeNumbers(n, D, j, D * Pow2(j), 0, Pow2(j), signed, half);
    } else {
      TopMultipleBounds(D, half, j - 1);
      ModeNumbers(n, D, j, D * Pow2(j), D * Pow2(j - 1), Pow2(j), signed, half);
    }
  }

  lemma DoubledProduct(D: nat, j: nat)
    ensures j == 0 ==> Pow2(j) == 1 && D * Pow2(j) == D
    ensures j > 0 ==> D * Pow2(j) == 2 * (D * Pow2(j - 1)) && D <= D * Pow2(j - 1)
  {
    hide Pow2;
    Pow2Small();
    if j > 0 {
      Pow2Doubles(j - 1);
      MulAssoc(D, Pow2(j - 1), 2);
      MulMonotone(1, Pow2(j - 1), D);
    }
  }

  /** The same with the products as plain numbers: d = D * 2^j, before = D * 2^(j-1), p = 2^j. */
  lemma ModeNumbers(n: nat, D: nat, j: nat, d: nat, before: nat, p: nat, signed: bool, half: nat)
    requires half > 1 && n < 2 * half && D > 0 && d < 2 * half && (j == 0 ==> d == D && p == 1)
    requires j > 0 ==> d == 2 * before && D <= before < half
    requires j > 0 ==> Reading(before, signed, half) <= Reading(n, signed, half)
    requires d >= half || Reading(d, signed, half) > Reading(n, signed, half)
    requires signed ==> !Endless(n, D, half)
    requires 2 * TopMultiple(D, half) >= half && (d < half ==> TopMultiple(D, half) >= d)
    requires (D > 1 ==> p < half) && (D == 1 ==> p == d)
    requires j > 0 && before < half <= 2 * before ==> TopMultiple(D, half) == before
    ensures (signed ==> SignedDivisible(n, D, half)) ==> Good(n, d, p, signed, half)
    ensures signed ==> p < half
    ensures signed && !SignedDivisible(n, D, half) && n < half ==>
      d >= half && Reading(d, signed, half) <= Reading(n, signed, half)
    ensures signed && !SignedDivisible(n, D, half) && n >= half ==>
      j == 0 && Reading(d, signed, half) > Reading(n, signed, half)
  {
    hide TopMultiple;
  }

  lemma BitBelow(D: nat, p: nat, half: nat)
    requires D > 0 && D * p < 2 * half
    ensures D > 1 ==> p < half
    ensures D == 1 ==> D * p == p
  {
    if D > 1 {
      MulMonotone(2, D, p);
    }
  }

  lemma SignedWrong(n: nat, D: nat, q: nat, j: nat, half: nat)
    requires D > 0 && half > 0 && n < 2 * half && !SignedDivisible(n, D, half)
    requires n < half ==> D * Pow2(j) >= half && q >= Pow2(j)
    requires n >= half ==> q == 0
    ensures q != Div(n, D)
  {
    hide Mod, Div, Pow2;
    DivMod(n, D);
    if q == Div(n, D) {
      if n < half {
        MulMonotone(Pow2(j), q, D);
      }
    }
  }

  /** v is what so many passes leave of n, as signed readings. */
  ghost predicate LeftBy(n: nat, d: nat, passes: nat, v: nat, half: nat)
    requires half > 0
  {
    Reading(v, true, half) == Rest(Reading(n, true, half), Reading(d, true, half), passes, half)
  }

  /** Beyond the condition the remainder is right for one divisor only. */
  lemma SignedRemainder(n: nat, D: nat, j: nat, v: nat, half: nat, m: nat)
    requires D > 0 && half == Pow2(m) && half > 1 && n < 2 * half && D < 2 * half && v < 2 * half
    requires !SignedDivisible(n, D, half) && DoubledUp(n, D, j, true, half)
    requires n < half ==> D * Pow2(j) >= half
    requires n >= half ==> j == 0 && Reading(D * Pow2(j), true, half) > Reading(n, true, half)
    requires LeftBy(n, D * Pow2(j), j + 1, v, half)
    ensures v == Mod(n, D) <==> 2 * D == half && D <= n < half
  {
    hide Pow2, Mod, Div, Rest, TopMultiple, Wrap;
    DoubledProduct(D, j);
    if n >= half {
      OnePass(Reading(n, true, half), D, half);
    } else if D >= half {
      OnePass(n, Reading(D, true, half), half);
      WrapSmall(n - (D - 2 * half), half);
      ModSmall(n, D);
    } else {
      SignedRest(n, D, j, half, m);
      if 2 * D == half {
        Pow2Small();
      }
    }
  }

  lemma OnePass(n: int, d: int, half: nat)
    requires half > 0
    ensures Rest(n, d, 1, half) == Passed(n, d, half)
  {
    hide Wrap, Div;
  }

  // ----- The second loop

  /** The numbers after one pass: n and q in terms of the divisor multiple D * 2^i. */
  lemma PassNumbers(n0: nat, q: nat, n: nat, D: nat, i: nat, k: nat)
    requires D > 0 && n0 == q * D + n && q == k * Pow2(i + 1) && n < 2 * (D * Pow2(i))
    ensures D * Pow2(i) <= n ==> n0 == (q + Pow2(i)) * D + (n - D * Pow2(i)) && n - D * Pow2(i) < D * Pow2(i)
    ensures Or(q, Pow2(i)) == q + Pow2(i)
    ensures q == (2 * k) * Pow2(i) && q + Pow2(i) == (2 * k + 1) * Pow2(i)
  {
    hide Pow2, Or;
    Pow2Doubles(i);
    OrDisjoint(Pow2(i), k, i + 1);
    MulSub(q, Pow2(i), D);
    MulAssoc(k, 2, Pow2(i));
    MulSub(2 * k, 1, Pow2(i));
  }

  lemma HalvePower(D: nat, i: nat)
    ensures i > 0 ==> Div(Pow2(i), 2) == Pow2(i - 1) && Div(D * Pow2(i), 2) == D * Pow2(i - 1)
    ensures i > 0 ==> D * Pow2(i) == 2 * (D * Pow2(i - 1))
    ensures Div(1, 2) == 0 && Pow2(0) == 1 && Pow2(1) == 2
  {
    hide Mod, Div, Pow2;
    Pow2Small();
    ModSmall(1, 2);
    if i > 0 {
      Pow2Doubles(i - 1);
      MulAssoc(D, Pow2(i - 1), 2);
      DivModUnique(Pow2(i), Pow2(i - 1), 0, 2);
      DivModUnique(D * Pow2(i), D * Pow2(i - 1), 0, 2);
    }
  }

  lemma {:induction false} OrGrows(x: nat, y: nat)
    ensures Or(x, y) >= x && Or(x, y) >= y
    decreases x + y
  {
    if x != 0 && y != 0 {
      OrGrows(x / 2, y / 2);
    }
  }

  /** The state of the second loop before the pass for bit i, when the result will be right. */
  ghost predicate OnCourse(n0: nat, q: nat, n: nat, d: nat, D: nat, i: int, k: nat, signed: bool, half: nat) {
    && n0 == q * D + n
    && (i >= 0 ==> d == D * Pow2(i) && q == k * Pow2(i + 1) && Good(n, d, Pow2(i), signed, half))
    && (i < 0 ==> n < D)
  }

  /** One pass, on numbers: taken is whether the divisor was subtracted. */
  lemma Pass(n0: nat, q: nat, n: nat, d: nat, D: nat, i: nat, k: nat, signed: bool, half: nat)
    requires D > 0 && half > 0 && OnCourse(n0, q, n, d, D, i, k, signed, half)
    ensures Reading(d, signed, half) <= Reading(n, signed, half) <==> d <= n
    ensures d <= n ==> OnCourse(n0, Or(q, Pow2(i)), n - d, Div(d, 2), D, i - 1, 2 * k + 1, signed, half)
    ensures d > n ==> OnCourse(n0, q, n, Div(d, 2), D, i - 1, 2 * k, signed, half)
    ensures i > 0 ==> !(signed && d >= half)
  {
    hide Mod, Div, Pow2, Or;
    PassNumbers(n0, q, n, D, i, k);
    HalvePower(D, i);
    if i > 0 {
      Pow2Monotone(1, i);
    }
  }

  /** What one pass does: subtract and set the bit when the divisor is not more, then halve divisor
      and bit. */
  ghost predicate PassOf(q: seq<Limb>, n: seq<Limb>, d: seq<Limb>, x: seq<Limb>, signed: bool,
                         q': seq<Limb>, n': seq<Limb>, d': seq<Limb>, x': seq<Limb>)
  {
    && |q'| == |n'| == |d'| == |x'| == |n|
    && (if Value(d, signed) <= Value(n, signed)
        then Val(n') == Mod(Val(n) - Val(d), Cap(|n|)) && Val(q') == Or(Val(q), Val(x))
        else n' == n && q' == q)
    && Value(d', signed) == Div(Value(d, signed), 2)
    && Value(x', signed) == Div(Value(x, signed), 2)
  }

  /** One pass of the second loop. */
  method ReducePass(q: seq<Limb>, n: seq<Limb>, d: seq<Limb>, x: seq<Limb>, signed: bool)
    returns (q': seq<Limb>, n': seq<Limb>, d': seq<Limb>, x': seq<Limb>)
    requires |q| == |n| == |d| == |x| > 0
    ensures PassOf(q, n, d, x, signed, q', n', d', x')
  {
    hide Val, Cap, Pow2, Mod, Div, Or, Value, IsNegative;
    q', n' := q, n;
    Pow2Small();
    var more := OperatorMore(d, n, signed);
    if !more {
      n' := Minus(n, d);
      q' := OperatorPipe(q, x);
    }
    x' := ShiftRight(x, 1, signed);
    d' := ShiftRight(d, 1, signed);
  }

  /** The quotient bit moves down, and out after the last pass. */
  lemma BitMoves(x: nat, i: nat, signed: bool, half: nat)
    requires half > 0 && x < 2 * half && (signed ==> Pow2(i) < half)
    requires Reading(x, signed, half) == Div(Reading(Pow2(i), signed, half), 2)
    ensures x == if i > 0 then Pow2(i - 1) else 0
  {
    hide Pow2, Div;
    HalvePower(1, i);
  }

  /** A pass on course stays on course. */
  lemma PassOnCourse(n0: nat, q: nat, n: nat, d: nat, D: nat, i: nat, k: nat, signed: bool, half: nat, d': nat)
    requires D > 0 && half > 0 && n < 2 * half && d' < 2 * half && OnCourse(n0, q, n, d, D, i, k, signed, half)
    requires Reading(d', signed, half) == Div(Reading(d, signed, half), 2)
    ensures if Reading(d, signed, half) <= Reading(n, signed, half)
            then OnCourse(n0, Or(q, Pow2(i)), Mod(n - d, 2 * half), d', D, i - 1, 2 * k + 1, signed, half)
            else OnCourse(n0, q, n, d', D, i - 1, 2 * k, signed, half)
  {
    hide Pow2, Mod, Div, Or, OnCourse;
    Pass(n0, q, n, d, D, i, k, signed, half);
    SubtractNumbers(n, d, 2 * half);
    if i > 0 {
      assert d' == Div(d, 2);
    } else if d <= n {
      LastPass(n0, Or(q, Pow2(i)), n - d, Div(d, 2), d', D, 2 * k + 1, signed, half);
    } else {
      LastPass(n0, q, n, Div(d, 2), d', D, 2 * k, signed, half);
    }
  }

  /** What the second loop makes of num, starting from D * 2^j: quotient and remainder when the
      operands stand well, and in any case what its passes leave and the first bit set or not. */
  ghost predicate Reduced(num: nat, d0: nat, D: nat, j: nat, signed: bool, half: nat, q: nat, n: nat) {
    && half > 0
    && (Good(num, d0, Pow2(j), signed, half) ==> num == q * D + n && n < D)
    && (Reading(d0, signed, half) <= Reading(num, signed, half) ==> q >= Pow2(j))
    && (Reading(d0, signed, half) > Reading(num, signed, half) && j == 0 ==> q == 0)
    && (signed ==> LeftBy(num, d0, j + 1, n, half))
  }

  /** The second loop. */
  method Reduce(numerator: seq<Limb>, d0: seq<Limb>, x0: seq<Limb>, signed: bool, ghost D: nat, ghost j: nat)
    returns (quotient: seq<Limb>, n: seq<Limb>)
    requires |numerator| == |d0| == |x0| > 0 && D > 0
    requires Val(x0) == Pow2(j) && Val(d0) == D * Pow2(j)
    requires signed ==> Pow2(j) < Cap(|numerator|) / 2
    ensures |quotient| == |n| == |numerator|
    ensures Reduced(Val(numerator), Val(d0), D, j, signed, Cap(|n|) / 2, Val(quotient), Val(n))
  {
    hide Val, Cap, Pow2, Mod, Div, Or, Reading, OnCourse, Good, Extend, Rest, Wrap, Value, IsNegative;
    n := numerator;
    var d, x := d0, x0;
    quotient := Extend([0], |n|);
    ExtendValue([0], |n|);
    ValSingle(0);
    ghost var half := Cap(|n|) / 2;
    ValueIsReading(n, signed);
    ghost var good := Good(Val(n), Val(d), Pow2(j), signed, half);
    ghost var first := Reading(Val(d), signed, half) <= Reading(Val(n), signed, half);
    ghost var i: int, k: nat := j, 0;
    ghost var last := if signed then Rest(Reading(Val(n), true, half), Reading(Val(d), true, half), j + 1, half) else 0;
    StartPass(Val(n), Val(d), D, j, signed, half);
    var done := OperatorEq(x, [0]);
    while !done
      invariant |quotient| == |n| == |d| == |x| == |numerator|
      invariant -1 <= i <= j && Val(x) == (if i >= 0 then Pow2(i) else 0) && (done <==> i < 0)
      invariant good ==> OnCourse(Val(numerator), Val(quotient), Val(n), Val(d), D, i, k, signed, half)
      invariant i == j ==> n == numerator && d == d0 && Val(quotient) == 0
      invariant i < j && first ==> Val(quotient) >= Pow2(j)
      invariant i < j && j == 0 && !first ==> Val(quotient) == 0
      invariant signed ==> Rest(Reading(Val(n), true, half), Reading(Val(d), true, half), i + 1, half) == last
      decreases i
    {
      var q', n', d', x' := ReducePass(quotient, n, d, x, signed);
      ValueIsReading(n, signed);
      ValueIsReading(d, signed);
      ValueIsReading(x, signed);
      ValueIsReading(d', signed);
      ValueIsReading(x', signed);
      ValBound(n);
      ValBound(d');
      ValBound(x');
      Pow2Monotone(i, j);
      BitMoves(Val(x'), i, signed, half);
      if good {
        PassOnCourse(Val(numerator), Val(quotient), Val(n), Val(d), D, i, k, signed, half, Val(d'));
      }
      WrapReadings(Val(n), Val(d), half);
      RestStep(Reading(Val(n), true, half), Reading(Val(d), true, half), i + 1, half);
      OrGrows(Val(quotient), Val(x));
      k := if Reading(Val(d), signed, half) <= Reading(Val(n), signed, half) then 2 * k + 1 else 2 * k;
      quotient, n, d, x := q', n', d', x';
      i := i - 1;
      done := OperatorEq(x, [0]);
    }
    RestEnd(Reading(Val(n), true, half), Reading(Val(d), true, half), half);
    if good {
      Finished(Val(numerator), Val(quotient), Val(n), Val(d), D, k, signed, half);
    }
  }

  lemma Finished(n0: nat, q: nat, n: nat, d: nat, D: nat, k: nat, signed: bool, half: nat)
    requires OnCourse(n0, q, n, d, D, -1, k, signed, half)
    ensures n0 == q * D + n && n < D
  {
  }

  lemma LastPass(n0: nat, q: nat, n: nat, d: nat, d': nat, D: nat, k: nat, signed: bool, half: nat)
    requires OnCourse(n0, q, n, d, D, -1, k, signed, half)
    ensures OnCourse(n0, q, n, d', D, -1, k, signed, half)
  {
  }

  lemma StartPass(n: nat, d: nat, D: nat, j: nat, signed: bool, half: nat)
    requires d == D * Pow2(j)
    ensures Good(n, d, Pow2(j), signed, half) ==> OnCourse(n, 0, n, d, D, j, 0, signed, half)
  {
    hide Pow2;
  }

  lemma SubtractNumbers(n: nat, d: nat, cap: nat)
    requires n < cap
    ensures d <= n ==> Mod(n - d, cap) == n - d
  {
    hide Mod, Div;
    if d <= n {
      ModSmall(n - d, cap);
    }
  }
}
