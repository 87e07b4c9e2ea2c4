/** Decimal printing (base/common/wide_integer_to_string.h) and parsing
    (`from_str` in base/common/wide_integer_impl.h) of wide integers. */
module WideText {
  import opened Arith
  import opened DecimalText
  import opened WideValue
  import opened WideOps
  import opened WideMultiply
  import opened WideDivide

  method ToString(n: seq<Limb>, signed: bool) returns (res: string)
    requires |n| > 0
    ensures res == DecimalInt(Value(n, signed))
  {
    hide Val, Cap, Mod, Div, Extend, Decimal;
    var zero := OperatorEq(n, [0]);
    ValSingle(0);
    ValBound(n);
    if zero {
      NegativeIff(n);
      DecimalZero();
      return "0";
    }
    var isNeg := IsNegative(n, signed);
    var t := n;
    if isNeg {
      t := OperatorUnaryMinus(n);
      Negation(Val(n), Cap(|n|));
    }
    DigitsMean(Val(n), Val(t), n, signed);
    res := Digits(t);
    if isNeg {
      res := "-" + res;
    }
  }

  lemma DigitsMean(v: nat, t: nat, n: seq<Limb>, signed: bool)
    requires |n| > 0 && v == Val(n) && 0 < v < Cap(|n|)
    requires t == if IsNegative(n, signed) then Cap(|n|) - v else v
    ensures t > 0 && DecimalInt(Value(n, signed)) == (if IsNegative(n, signed) then "-" else "") + Decimal(t)
  {
    hide Val, Cap, Decimal;
    assert "" + Decimal(t) == Decimal(t);
  }

  /** The digits that make up a number; none for zero. */
  function DigitsOf(v: nat): string {
    if v == 0 then "" else Decimal(v)
  }

  lemma OneDigitMore(v: nat, res: string)
    requires v > 0
    ensures DigitsOf(v) + res == DigitsOf(v / 10) + ([DigitChar(v % 10)] + res)
  {
    hide Decimal, DigitChar;
    DecimalStep(v);
    assert (DigitsOf(v / 10) + [DigitChar(v % 10)]) + res == DigitsOf(v / 10) + ([DigitChar(v % 10)] + res);
  }

  /** The loop of `to_string`: digits from the lowest up. */
  method Digits(t0: seq<Limb>) returns (res: string)
    requires |t0| > 0
    ensures res == DigitsOf(Val(t0))
  {
    hide Val, Cap, Mod, Div, Extend, DigitsOf;
    var t := t0;
    res := "";
    ValSingle(0);
    var done := OperatorEq(t, [0]);
    assert DigitsOf(Val(t0)) == DigitsOf(Val(t)) + "";
    while !done
      invariant |t| == |t0| && (done <==> Val(t) == 0)
      invariant DigitsOf(Val(t0)) == DigitsOf(Val(t)) + res
      decreases Val(t)
    {
      OneDigitMore(Val(t), res);
      var q, r := DivideByTen(t);
      LowLimb(r);
      res := [DigitChar(r[0])] + res;
      t := q;
      done := OperatorEq(t, [0]);
    }
    NoDigits();
  }

  lemma NoDigits()
    ensures DigitsOf(0) == ""
  {
  }

  /** A value below one limb is its lowest limb. */
  lemma LowLimb(r: seq<Limb>)
    requires |r| > 0 && Val(r) < BASE
    ensures Val(r) == r[0]
  {
  }

  /** `operator_slash` and `operator_percent` by 10U. */
  method DivideByTen(t: seq<Limb>) returns (q: seq<Limb>, r: seq<Limb>)
    requires |t| > 0
    ensures |q| == |r| == |t| && Val(q) == Val(t) / 10 && Val(r) == Val(t) % 10
  {
    hide Val, Cap, Mod, Div, Extend;
    var ten := Extend([10], |t|);
    ExtendValue([10], |t|);
    ValSingle(10);
    var d := Divide(t, ten, false);
    q, r := d.quotient, d.remainder;
  }

  // ----- Parsing

  datatype Number = NotANumber | Number(value: nat)
  datatype Parsed = InvalidChar | Parsed(value: seq<Limb>)

  function DigitValue(c: char, hex: bool): Number {
    if '0' <= c <= '9' then Number(c as nat - 48)
    else if hex && 'a' <= c <= 'f' then Number(c as nat - 97 + 10)
    else if hex && 'A' <= c <= 'F' then Number(c as nat - 65 + 10)
    else NotANumber
  }

  function Radix(hex: bool): nat {
    if hex then 16 else 10
  }

  /** The number a digit string denotes, after the digits read so far gave acc. */
  function NumberOf(s: string, hex: bool, acc: nat): Number {
    if s == "" then Number(acc)
    else
      match DigitValue(s[0], hex)
      case NotANumber => NotANumber
      case Number(d) => NumberOf(s[1..], hex, acc * Radix(hex) + d)
  }

  predicate HasMinus(s: string, signed: bool) {
    signed && |s| > 0 && s[0] == '-'
  }

  function Unsigned(s: string, signed: bool): string {
    if HasMinus(s, signed) then s[1..] else s
  }

  predicate IsHex(s: string) {
    |s| > 1 && s[0] == '0' && (s[1] == 'x' || s[1] == 'X')
  }

  /** What the text denotes, before reduction to the type. */
  function Denoted(s: string, signed: bool): Number {
    var u := Unsigned(s, signed);
    if IsHex(u) then NumberOf(u[2..], true, 0) else NumberOf(u, false, 0)
  }

  /** A C string: its characters before the terminator. */
  type CString = s: string | '\0' !in s witness ""

  /** The character at i; the terminator from the end on. */
  function At(s: CString, i: nat): char {
    if i < |s| then s[i] else '\0'
  }

  method FromStr(s: CString, signed: bool, limbs: nat) returns (r: Parsed)
    requires limbs > 0
    ensures r.InvalidChar? <==> Denoted(s, signed).NotANumber?
    ensures r.Parsed? ==> |r.value| == limbs
    ensures r.Parsed? ==>
      var v := Denoted(s, signed).value;
      Val(r.value) == Mod(if HasMinus(s, signed) then 0 - v else v, Cap(limbs))
  {
    hide Val, Cap, Mod, Div, NumberOf;
    var isNeg := signed && At(s, 0) == '-';
    var start := if isNeg then 1 else 0;
    var hex := At(s, start) == '0' && (At(s, start + 1) == 'x' || At(s, start + 1) == 'X');
    assert Unsigned(s, signed) == s[start..];
    if hex {
      assert s[start..][2..] == s[start + 2..];
      start := start + 2;
    }
    r := ReadDigits(s, start, hex, limbs);
    if r.Parsed? && isNeg {
      ghost var v := NumberOf(s[start..], hex, 0).value;
      CongruentMod(v, Cap(limbs));
      CongruentAdd(0, 0, Mod(v, Cap(limbs)), v, Cap(limbs));
      var m := OperatorUnaryMinus(r.value);
      r := Parsed(m);
    }
  }

  /** The two digit loops. */
  method ReadDigits(s: CString, start: nat, hex: bool, limbs: nat) returns (r: Parsed)
    requires start <= |s| && limbs > 0
    ensures r.InvalidChar? <==> NumberOf(s[start..], hex, 0).NotANumber?
    ensures r.Parsed? ==> |r.value| == limbs
    ensures r.Parsed? ==> Val(r.value) == Mod(NumberOf(s[start..], hex, 0).value, Cap(limbs))
  {
    hide Val, Cap, Mod, Div, NumberOf, Extend;
    var res := Extend([0], limbs);
    ExtendValue([0], limbs);
    ValSingle(0);
    ModSmall(0, Cap(limbs));
    ghost var acc: nat := 0;
    var i := start;
    while At(s, i) != '\0'
      invariant start <= i <= |s| && |res| == limbs
      invariant Val(res) == Mod(acc, Cap(limbs))
      invariant NumberOf(s[i..], hex, acc) == NumberOf(s[start..], hex, 0)
      decreases |s| - i
    {
      NumberStep(s, i, hex, acc);
      var d := DigitValue(s[i], hex);
      if d.NotANumber? {
        return InvalidChar;
      }
      ghost var v := Val(res);
      res := Multiply(res, Radix(hex));
      ghost var scaled := Val(res);
      res := Plus(res, [d.value]);
      ValSingle(d.value);
      Accumulate(acc, v, scaled, Radix(hex), d.value, Cap(limbs));
      acc := acc * Radix(hex) + d.value;
      i := i + 1;
    }
    NumberEnd(s, i, hex, acc);
    return Parsed(res);
  }

  lemma NumberStep(s: CString, i: nat, hex: bool, acc: nat)
    requires i < |s|
    ensures DigitValue(s[i], hex).NotANumber? ==> NumberOf(s[i..], hex, acc).NotANumber?
    ensures DigitValue(s[i], hex).Number? ==>
      NumberOf(s[i..], hex, acc) == NumberOf(s[i + 1..], hex, acc * Radix(hex) + DigitValue(s[i], hex).value)
  {
    assert s[i..][1..] == s[i + 1..];
  }

  lemma NumberEnd(s: CString, i: nat, hex: bool, acc: nat)
    requires i <= |s| && At(s, i) == '\0'
    ensures NumberOf(s[i..], hex, acc) == Number(acc)
  {
    assert s[i..] == "";
  }

  lemma Accumulate(acc: nat, v: nat, scaled: nat, radix: nat, d: nat, cap: nat)
    requires cap > 0 && v == Mod(acc, cap) && scaled == Mod(v * radix, cap)
    ensures Mod(scaled + d, cap) == Mod(acc * radix + d, cap)
  {
    hide Mod, Div;
    CongruentMod(acc, cap);
    CongruentMul(v, acc, radix, radix, cap);
    CongruentMod(v * radix, cap);
    CongruentAdd(scaled, acc * radix, d, d, cap);
  }

  // ----- Round trip

  lemma {:induction false} NumberAppend(s: string, c: char, acc: nat)
    requires NumberOf(s, false, acc).Number? && '0' <= c <= '9'
    ensures NumberOf(s + [c], false, acc) == Number(NumberOf(s, false, acc).value * 10 + (c as nat - 48))
    decreases |s|
  {
    if s == "" {
      assert s + [c] == [c] && [c][1..] == "";
    } else {
      assert (s + [c])[1..] == s[1..] + [c];
      NumberAppend(s[1..], c, acc * 10 + (s[0] as nat - 48));
    }
  }

  /** The decimal text denotes its number, and cannot be taken for a sign or a hexadecimal prefix. */
  lemma {:induction false} DecimalDenotes(v: nat)
    ensures NumberOf(Decimal(v), false, 0) == Number(v)
    ensures forall c :: c in Decimal(v) ==> '0' <= c <= '9'
    decreases v
  {
    if v < 10 {
      assert Decimal(v)[1..] == "";
    } else {
      DecimalDenotes(v / 10);
      NumberAppend(Decimal(v / 10), DigitChar(v % 10), 0);
    }
  }

  lemma DecimalIntDenotes(v: int, signed: bool)
    requires v < 0 ==> signed
    ensures '\0' !in DecimalInt(v)
    ensures Denoted(DecimalInt(v), signed) == Number(if v < 0 then -v else v)
    ensures HasMinus(DecimalInt(v), signed) <==> v < 0
  {
    hide NumberOf, Decimal;
    var a := if v < 0 then -v else v;
    DecimalDenotes(a);
    DecimalNotEmpty(a);
    assert ("-" + Decimal(a))[1..] == Decimal(a);
    var u := Unsigned(DecimalInt(v), signed);
    assert u == Decimal(a) by {
      assert Decimal(a)[0] in Decimal(a);
    }
    if |u| > 1 {
      assert u[1] in Decimal(a);
    }
  }

  /** Printing and parsing back gives the number, for every value of either signedness and
      any width, the most negative one included. */
  method RoundTrip(n: seq<Limb>, signed: bool) returns (text: string, r: Parsed)
    requires |n| > 0
    ensures r == Parsed(n)
  {
    hide Val, Cap, Mod, Div, Decimal, NumberOf, Denoted, DecimalInt;
    text := ToString(n, signed);
    var v := Value(n, signed);
    DecimalIntDenotes(v, signed);
    r := FromStr(text, signed, |n|);
    ValBound(n);
    ValueModulo(Val(n), v, Cap(|n|));
    ValInjective(r.value, n);
  }

  lemma ValueModulo(x: nat, v: int, cap: nat)
    requires x < cap && (v == x || v == x - cap)
    ensures Mod(v, cap) == x
  {
    hide Mod, Div;
    DivModUnique(v, if v == x then 0 else -1, x, cap);
  }
}
