/** `shift_right` in full (base/common/wide_integer_impl.h), with the sign filling, and exactly
    when it is an arithmetic shift. */
module WideShift {
  import opened Arith
  import opened Bits
  import opened WideValue
  import opened WideOps

  /** The result is the rounded-down quotient of the signed value exactly when the value is
      not negative or the shift stays within one limb: for longer shifts of negative values the
      filling loop stops below the top limb, which is left at zero. */
  method ShiftRight(rhs: seq<Limb>, n: nat, signed: bool) returns (lhs: seq<Limb>)
    requires n < 64 * |rhs|
    ensures |lhs| == |rhs|
    ensures !IsNegative(rhs, signed) ==> Val(lhs) == Div(Val(rhs), Pow2(n))
    ensures Value(lhs, signed) == Div(Value(rhs, signed), Pow2(n)) <==> !IsNegative(rhs, signed) || n < 64
    ensures n + 1 == 64 * |rhs| ==> Val(lhs) % 2 == (if 2 * Val(rhs) >= Cap(|rhs|) then 1 else 0)
  {
    hide Mod, Div, Val, Cap, Pow2, ShrLimb, Shl64, OrLimb;
    var count := |rhs|;
    var items := ShiftRightLimbs(rhs, n);
    var itemsShift, bitShift := n / 64, n % 64;
    ghost var plain := items[..];
    ShiftRightValue(rhs, itemsShift, bitShift, plain);
    if IsNegative(rhs, signed) {
      if bitShift != 0 {
        items[count - 1 - itemsShift] := OrLimb(items[count - 1 - itemsShift], Shl64(BASE - 1, 64 - bitShift));
      }
      ghost var topLimb := items[count - 1];
      ghost var lowLimb := items[0];
      var i := count - itemsShift;
      while i < itemsShift
        invariant i > 0 && items[count - 1] == topLimb && items[0] == lowLimb
        invariant itemsShift == 0 ==> items[..count - 1] == plain[..count - 1]
      {
        items[i] := BASE - 1;
        i := i + 1;
      }
      lhs := items[..];
      if itemsShift == 0 {
        ShiftedNegative(rhs, n, plain, lhs);
      } else {
        TopLimbZero(rhs, n, lhs);
      }
      if n + 1 == 64 * count {
        assert plain[0] == ShrLimb(rhs, itemsShift, 63, 0);
        SignBitLow(rhs, lhs);
      }
    } else {
      var i := count - itemsShift;
      while i < itemsShift
        invariant i >= count - itemsShift && items[..] == plain
      {
        items[i] := 0;
        i := i + 1;
      }
      lhs := items[..];
      ShiftedPlain(rhs, n, signed, lhs);
      if n + 1 == 64 * count {
        TopBitQuotient(rhs);
      }
    }
  }

  /** For instance the most negative 256-bit value shifted by 64. */
  method ShiftRightFails() returns (x: seq<Limb>, lhs: seq<Limb>)
    ensures x == [0, 0, 0, 0x8000_0000_0000_0000]
    ensures Value(lhs, true) != Div(Value(x, true), Pow2(64))
  {
    hide Val, Cap, Div, Pow2;
    x := [0, 0, 0, 0x8000_0000_0000_0000];
    lhs := ShiftRight(x, 64, true);
  }

  lemma ShiftedPlain(x: seq<Limb>, n: nat, signed: bool, r: seq<Limb>)
    requires n < 64 * |x| && !IsNegative(x, signed)
    requires ShiftedRight(x, n / 64, n % 64, r) && Val(r) == Div(Val(x), Pow2(n))
    ensures Value(r, signed) == Div(Value(x, signed), Pow2(n))
  {
    hide Mod, Div, Val, Cap, Pow2, ShrLimb;
    NegativeIff(x);
    NegativeIff(r);
    ShrBound(Val(x), Pow2(n));
  }

  lemma TopZeroBound(r: seq<Limb>)
    requires |r| > 0 && r[|r| - 1] == 0
    ensures 2 * Val(r) < Cap(|r|)
  {
    hide Val, Cap;
    var k := |r| - 1;
    ValTop(r);
    ValBound(r[..k]);
    CapSucc(k);
  }

  lemma TopLimbZero(x: seq<Limb>, n: nat, r: seq<Limb>)
    requires 64 <= n < 64 * |x| == 64 * |r| && IsNegative(x, true) && r[|r| - 1] == 0
    ensures Value(r, true) != Div(Value(x, true), Pow2(n))
  {
    hide Mod, Div, Val, Cap, Pow2;
    TopZeroBound(r);
    NegativeIff(r);
    ValBound(x);
    DivMod(Value(x, true), Pow2(n));
    if Div(Value(x, true), Pow2(n)) >= 0 {
      MulMonotone(0, Div(Value(x, true), Pow2(n)), Pow2(n));
    }
  }

  /** Within one limb the filled bits are the missing sign. */
  lemma ShiftedNegative(x: seq<Limb>, n: nat, plain: seq<Limb>, r: seq<Limb>)
    requires n < 64 && |x| == |r| && |x| > 0 && IsNegative(x, true)
    requires ShiftedRight(x, 0, n, plain) && Val(plain) == Div(Val(x), Pow2(n))
    requires r[..|x| - 1] == plain[..|x| - 1]
    requires n == 0 ==> r[|x| - 1] == plain[|x| - 1]
    requires n != 0 ==> r[|x| - 1] == OrLimb(plain[|x| - 1], Shl64(BASE - 1, 64 - n))
    ensures Value(r, true) == Div(Value(x, true), Pow2(n))
  {
    hide *;
    FilledValue(x, n, plain, r);
    FloorOfNegative(Val(x), Cap(|x|), Pow2(n), Pow2(64 - n) * Cap(|x| - 1));
    SignedValues(x, r);
  }

  lemma SignedValues(x: seq<Limb>, r: seq<Limb>)
    requires |x| == |r| && IsNegative(x, true) && IsNegative(r, true)
    ensures Value(x, true) == Val(x) - Cap(|x|) && Value(r, true) == Val(r) - Cap(|x|)
  {
  }

  lemma FilledValue(x: seq<Limb>, n: nat, plain: seq<Limb>, r: seq<Limb>)
    requires n < 64 && |x| == |r| && |x| > 0 && IsNegative(x, true)
    requires ShiftedRight(x, 0, n, plain) && r[..|x| - 1] == plain[..|x| - 1]
    requires n == 0 ==> r[|x| - 1] == plain[|x| - 1]
    requires n != 0 ==> r[|x| - 1] == OrLimb(plain[|x| - 1], Shl64(BASE - 1, 64 - n))
    ensures IsNegative(r, true)
    ensures Val(r) == Val(plain) + Cap(|x|) - Pow2(64 - n) * Cap(|x| - 1)
    ensures (Pow2(64 - n) * Cap(|x| - 1)) * Pow2(n) == Cap(|x|)
  {
    hide Val, Cap, Pow2, ShrLimb, OrLimb, Shl64;
    var k := |x| - 1;
    assert plain[k] == ShrLimb(x, 0, n, k);
    ValTop(r);
    ValTop(plain);
    FilledTop(x, n, r[k]);
    CapSucc(k);
    WordSizes();
    Pow2Add(n, 64 - n);
    FillAlgebra(Cap(k), Pow2(n), Pow2(64 - n), r[k], plain[k]);
  }

  lemma FloorOfNegative(v: nat, c: nat, p: nat, e: nat)
    requires p > 0 && e * p == c
    ensures Div(v - c, p) == Div(v, p) - e
  {
    hide Mod, Div;
    DivMod(v, p);
    MulSub(Div(v, p), e, p);
    DivModUnique(v - c, Div(v, p) - e, Mod(v, p), p);
  }

  lemma FillAlgebra(c: int, p: int, q: int, top: int, plain: int)
    requires p * q == BASE && top == plain + (BASE - q)
    ensures c * top == c * plain + BASE * c - q * c
    ensures (q * c) * p == BASE * c
  {
    assert c * (plain + (BASE - q)) == c * plain + BASE * c - q * c;
    MulAssoc(p, q, c);
  }

  lemma FilledTop(x: seq<Limb>, n: nat, top: Limb)
    requires n < 64 && |x| > 0 && IsNegative(x, true)
    requires n == 0 ==> top == ShrLimb(x, 0, n, |x| - 1)
    requires n != 0 ==> top == OrLimb(ShrLimb(x, 0, n, |x| - 1), Shl64(BASE - 1, 64 - n))
    ensures top == ShrLimb(x, 0, n, |x| - 1) + (BASE - Pow2(64 - n))
    ensures top >= 0x8000_0000_0000_0000
  {
    hide Mod, Div, Pow2, Or;
    var t := x[|x| - 1];
    WordSizes();
    if n == 0 {
    } else {
      var p, q := Pow2(n), Pow2(64 - n);
      Pow2Add(n, 64 - n);
      LimbShift(t, q, p);
      LimbShift(BASE - 1, q, p);
      OnesMod(p, q);
      OrDisjoint(Div(t, p), p - 1, 64 - n);
      Pow2Monotone(n, 63);
      Pow2Monotone(64 - n, 63);
      Pow2Doubles(63);
      MulSub(p, 1, q);
    }
  }

  lemma OnesMod(p: nat, q: nat)
    requires p > 0 && q > 0 && p * q == BASE
    ensures Mod(BASE - 1, p) == p - 1
  {
    hide Mod, Div;
    MulSub(q, 1, p);
    DivModUnique(BASE - 1, q - 1, p - 1, p);
  }

  /** Shifting all the way down leaves the top bit. */
  lemma TopBitQuotient(x: seq<Limb>)
    requires |x| > 0
    ensures Div(Val(x), Pow2(64 * |x| - 1)) == (if 2 * Val(x) >= Cap(|x|) then 1 else 0)
  {
    hide Mod, Div, Val, Cap, Pow2;
    var h := Pow2(64 * |x| - 1);
    CapIsPow2(|x|);
    Pow2Doubles(64 * |x| - 1);
    ValBound(x);
    if 2 * Val(x) >= Cap(|x|) {
      DivModUnique(Val(x), 1, Val(x) - h, h);
    } else {
      ModSmall(Val(x), h);
    }
  }

  /** For a negative value the low bit is still the sign bit, whatever was filled in. */
  lemma SignBitLow(x: seq<Limb>, r: seq<Limb>)
    requires |x| == |r| > 0 && IsNegative(x, true)
    requires r[0] == OrLimb(ShrLimb(x, |x| - 1, 63, 0), Shl64(BASE - 1, 1))
    ensures Val(r) % 2 == 1 && 2 * Val(x) >= Cap(|x|)
  {
    NegativeIff(x);
    SignLimb(x[|x| - 1]);
    LowParity(r);
  }

  lemma SignLimb(t: Limb)
    requires t >= 0x8000_0000_0000_0000
    ensures OrLimb(Shr64(t, 63), Shl64(BASE - 1, 1)) % 2 == 1
  {
    hide Mod, Div, Pow2, Or;
    WordSizes();
    Pow2Doubles(63);
    Pow2Small();
    DivModUnique(t, 1, t - 0x8000_0000_0000_0000, 0x8000_0000_0000_0000);
    DivModUnique((BASE - 1) * 2, 1, BASE - 2, BASE);
    OrDisjoint(1, 0x7fff_ffff_ffff_ffff, 1);
  }

  lemma LowParity(r: seq<Limb>)
    requires |r| > 0
    ensures Val(r) % 2 == r[0] % 2
  {
  }
}
