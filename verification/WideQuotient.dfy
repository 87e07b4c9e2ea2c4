/** The signed operators built on `divide` (base/common/wide_integer_impl.h). */
module WideQuotient {
  import opened Arith
  import opened WideValue
  import opened WideOps
  import opened WideDivide
  import opened SignedPasses
  import opened WideHalves

  function Abs(v: int): nat {
    if v < 0 then -v else v
  }

  /** Division that truncates toward zero. */
  function Quotient(a: int, b: int): int
    requires b != 0
  {
    if (a < 0) == (b < 0) then Div(Abs(a), Abs(b)) else 0 - Div(Abs(a), Abs(b))
  }

  /** The operands that `divide` gets right. */
  predicate Divisible(a: int, b: int, signed: bool, half: nat)
    requires b != 0
  {
    signed ==> SignedDivisible(Abs(a), Abs(b), half)
  }

  /** The operands whose remainder `divide` gets right. */
  predicate Remains(a: int, b: int, signed: bool, half: nat)
    requires b != 0
  {
    signed ==> SignedRemains(Abs(a), Abs(b), half)
  }

  /** The absolute value, as an unsigned number: the most negative value keeps its bits. */
  method MakePositive(x: seq<Limb>, signed: bool) returns (p: seq<Limb>)
    requires |x| > 0
    ensures |p| == |x| && Val(p) == Abs(Value(x, signed))
  {
    hide Val, Cap, Mod, Div, Reading;
    ValueIsReading(x, signed);
    ValBound(x);
    ReadingOf(Val(x), signed, Cap(|x|) / 2);
    SignOf(x, signed);
    if IsNegative(x, signed) {
      p := OperatorUnaryMinus(x);
      Negation(Val(x), Cap(|x|));
    } else {
      p := x;
    }
  }

  lemma SignOf(x: seq<Limb>, signed: bool)
    requires |x| > 0
    ensures IsNegative(x, signed) <==> Value(x, signed) < 0
  {
    hide Val, Cap;
    NegativeIff(x);
    ValBound(x);
  }

  lemma ReadingOf(v: nat, signed: bool, half: nat)
    requires v < 2 * half
    ensures Reading(v, signed, half) == if signed && v >= half then v - 2 * half else v
  {
  }

  /** `operator_slash`: the truncated quotient exactly when `divide` gets the absolute values right. */
  method OperatorSlash(lhs: seq<Limb>, rhs: seq<Limb>, signed: bool) returns (r: Division)
    requires |lhs| == |rhs| > 0
    requires signed ==> !Endless(Abs(Value(lhs, signed)), Abs(Value(rhs, signed)), Cap(|lhs|) / 2)
    ensures r.DivideByZero? <==> Value(rhs, signed) == 0
    ensures r.Divided? ==> |r.quotient| == |lhs|
    ensures r.Divided? ==> var a, b := Value(lhs, signed), Value(rhs, signed);
      Value(r.quotient, signed) == Quotient(a, b) <==> Divisible(a, b, signed, Cap(|lhs|) / 2)
  {
    hide Val, Cap, Mod, Div, Reading, SignedDivisible, Endless, Value, IsNegative;
    var n := MakePositive(lhs, signed);
    var d := MakePositive(rhs, signed);
    r := Divide(n, d, signed);
    if r.Divided? {
      ghost var a, b, v, half := Value(lhs, signed), Value(rhs, signed), Val(r.quotient), Cap(|lhs|) / 2;
      ghost var t := Div(Abs(a), Abs(b));
      var negate := signed && IsNegative(rhs, signed) != IsNegative(lhs, signed);
      ValBound(r.quotient);
      Sign(lhs, signed);
      Sign(rhs, signed);
      if Divisible(a, b, signed, half) {
        DivModUnique(Abs(a), v, Val(r.remainder), Abs(b));
      }
      QuotientFits(Abs(a), Abs(b), signed, half);
      if negate {
        var q := OperatorUnaryMinus(r.quotient);
        Negation(v, Cap(|lhs|));
        r := Divided(q, r.remainder);
      }
      ValueIsReading(r.quotient, signed);
      SignPut(t, v, Val(r.quotient), negate, signed, half);
    }
  }

  /** `operator_percent`: the remainder of the truncated division, exactly under the condition on
      the absolute values. */
  method OperatorPercent(lhs: seq<Limb>, rhs: seq<Limb>, signed: bool) returns (r: Division)
    requires |lhs| == |rhs| > 0
    requires signed ==> !Endless(Abs(Value(lhs, signed)), Abs(Value(rhs, signed)), Cap(|lhs|) / 2)
    ensures r.DivideByZero? <==> Value(rhs, signed) == 0
    ensures r.Divided? ==> |r.remainder| == |lhs|
    ensures r.Divided? ==> var a, b := Value(lhs, signed), Value(rhs, signed);
      Value(r.remainder, signed) == a - Quotient(a, b) * b <==> Remains(a, b, signed, Cap(|lhs|) / 2)
  {
    hide Val, Cap, Mod, Div, Reading, SignedRemains, Endless, Value, IsNegative, Quotient;
    var n := MakePositive(lhs, signed);
    var d := MakePositive(rhs, signed);
    r := Divide(n, d, signed);
    if r.Divided? {
      ghost var a, b, v, half := Value(lhs, signed), Value(rhs, signed), Val(r.remainder), Cap(|lhs|) / 2;
      ghost var t := Mod(Abs(a), Abs(b));
      ValBound(r.remainder);
      Sign(lhs, signed);
      Sign(rhs, signed);
      if signed && IsNegative(lhs, signed) {
        var m := OperatorUnaryMinus(r.remainder);
        Negation(v, Cap(|lhs|));
        r := Divided(r.quotient, m);
      }
      ValueIsReading(r.remainder, signed);
      RemainderSign(a, b);
      SignPut(t, v, Val(r.remainder), signed && a < 0, signed, half);
    }
  }

  lemma Sign(x: seq<Limb>, signed: bool)
    requires |x| > 0
    ensures IsNegative(x, signed) <==> Value(x, signed) < 0
    ensures var half := Cap(|x|) / 2;
      && Cap(|x|) == 2 * half && half > 1
      && (if signed then 0 - half <= Value(x, signed) < half else 0 <= Value(x, signed) < 2 * half)
  {
    hide Val, Cap;
    ValueIsReading(x, signed);
    SignOf(x, signed);
    ValBound(x);
  }

  /** A right signed quotient is below the sign bit. */
  lemma QuotientFits(n: nat, d: nat, signed: bool, half: nat)
    requires d > 0 && half > 1 && n < 2 * half && (signed ==> n <= half)
    ensures Div(n, d) < 2 * half
    ensures signed ==> Div(n, d) <= half
    ensures signed && SignedDivisible(n, d, half) ==> Div(n, d) < half
  {
    hide Div, Mod;
    DivMod(n, d);
    MulMonotone(1, d, Div(n, d));
    if signed && n >= half && d >= half {
      MulMonotone(2, half, Div(n, d));
      MulMonotone(half, d, Div(n, d));
    }
  }

  /** The sign put back on w: right exactly when the unsigned v was. */
  lemma SignPut(t: nat, v: nat, w: nat, negate: bool, signed: bool, half: nat)
    requires half > 1 && v < 2 * half && (negate ==> signed)
    requires signed && v == t && !negate ==> t < half
    requires signed ==> t <= half
    requires w == if negate && v != 0 then 2 * half - v else v
    ensures Reading(w, signed, half) == (if negate then 0 - t else t) <==> v == t
  {
  }

  lemma RemainderSign(a: int, b: int)
    requires b != 0
    ensures var t := Mod(Abs(a), Abs(b)); a - Quotient(a, b) * b == if a < 0 then 0 - t else t
  {
    hide Div, Mod;
    var q := Div(Abs(a), Abs(b));
    DivMod(Abs(a), Abs(b));
    assert (0 - q) * b == 0 - q * b && q * (0 - b) == 0 - q * b;
  }

  // ----- Operands beyond the conditions, with 256 bits

  const TOP: Limb := 0x4000_0000_0000_0000

  lemma LargeValue(c: Limb)
    ensures Cap(4) / 2 == Pow2(255) == 2 * Pow2(254) && Pow2(254) == 2 * Pow2(253) && Pow2(253) > 8
    ensures Value([c, 0, 0, TOP], true) == Pow2(254) + c
  {
    hide Val, Cap, Pow2;
    ValFour([c, 0, 0, TOP]);
    CapFour();
    CapIsPow2(4);
    Pow2Doubles(255); Pow2Doubles(254); Pow2Doubles(253);
    Pow2Small();
    Pow2Monotone(2, 252);
    Pow2Doubles(252);
  }

  lemma SmallValue(c: Limb)
    requires c < TOP
    ensures Value([c, 0, 0, 0], true) == c
  {
    hide Val, Cap;
    ValFour([c, 0, 0, 0]);
  }

  /** Both divisors double to 2^254 and then to the sign bit. */
  lemma FarDoublings()
    ensures TopMultiple(2, Pow2(255)) == Pow2(254) == TopMultiple(Pow2(254), Pow2(255))
  {
    hide Pow2, TopMultiple;
    LargeValue(0);
    TopMultipleBounds(2, Pow2(255), 253);
    TopMultipleBounds(Pow2(254), Pow2(255), 0);
    Pow2Small();
  }

  /** What the divisions should give. */
  lemma FarResults()
    ensures Quotient(Pow2(254), 2) == Pow2(253)
    ensures Quotient(Pow2(254) + 5, Pow2(254)) == 1
    ensures (Pow2(254) + 5) - Quotient(Pow2(254) + 5, Pow2(254)) * Pow2(254) == 5
    ensures (Pow2(254) + 5) - Quotient(Pow2(254) + 5, 2) * 2 == 1
  {
    hide Pow2, Mod, Div;
    LargeValue(0);
    DivModUnique(Pow2(254), Pow2(253), 0, 2);
    DivModUnique(Pow2(254) + 5, 1, 5, Pow2(254));
    DivModUnique(Pow2(254) + 5, Pow2(253) + 2, 1, 2);
  }

  /** 2^254 / 2 does not give 2^253. */
  method SignedDivisionFails() returns (r: Division)
    ensures r.Divided? && Value(r.quotient, true) != Pow2(253)
  {
    hide Val, Cap, Mod, Div, Pow2, Quotient, TopMultiple, Value;
    LargeValue(0);
    SmallValue(2);
    FarDoublings();
    FarResults();
    r := OperatorSlash([0, 0, 0, TOP], [2, 0, 0, 0], true);
  }

  /** (2^254 + 5) % 2 does not give 1. */
  method SignedRemainderFails() returns (r: Division)
    ensures r.Divided? && Value(r.remainder, true) != 1
  {
    hide Val, Cap, Mod, Div, Pow2, Quotient, TopMultiple, Value;
    LargeValue(5);
    SmallValue(2);
    FarDoublings();
    FarResults();
    r := OperatorPercent([5, 0, 0, TOP], [2, 0, 0, 0], true);
  }

  /** (2^254 + 5) % 2^254 gives 5, beside a quotient that is not 1. */
  method RightBesideWrong() returns (q: Division, r: Division)
    ensures q.Divided? && Value(q.quotient, true) != 1
    ensures r.Divided? && Value(r.remainder, true) == 5
  {
    hide Val, Cap, Mod, Div, Pow2, Quotient, TopMultiple, Value;
    LargeValue(0);
    LargeValue(5);
    FarDoublings();
    FarResults();
    q := OperatorSlash([5, 0, 0, TOP], [0, 0, 0, TOP], true);
    r := OperatorPercent([5, 0, 0, TOP], [0, 0, 0, TOP], true);
  }
}
