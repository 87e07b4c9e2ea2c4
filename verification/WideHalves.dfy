/** The half-word version of `multiply` used for 256 bits (base/common/wide_integer_impl.h). */
module WideHalves {
  import opened Arith
  import opened WideValue
  import opened WideOps

  const HALF: nat := 0x1_0000_0000_0000_0000_0000_0000_0000_0000

  /** The multiplier the half-word code works with. A built-in one has one or two limbs. A wide
      one has four, of which the conversion to a 128-bit word keeps only the lowest, so limb 1
      is lost. */
  function Effective(rhs: seq<Limb>): nat
    requires |rhs| in {1, 2, 4}
  {
    if |rhs| == 4 then rhs[0] + HALF * (rhs[2] + BASE * rhs[3]) else Val(rhs)
  }

  method MultiplyHalves(lhs: seq<Limb>, rhs: seq<Limb>) returns (res: seq<Limb>)
    requires |lhs| == 4 && |rhs| in {1, 2, 4}
    ensures |res| == 4 && Val(res) == Mod(Val(lhs) * Effective(rhs), Cap(4))
  {
    hide Mod, Div, Val, Cap, Effective;
    var a01: nat, a23: nat := BASE * lhs[1] + lhs[0], BASE * lhs[3] + lhs[2];
    var a0: nat, a1: nat := lhs[0], lhs[1];
    var b01: nat := if |rhs| == 2 then BASE * rhs[1] + rhs[0] else rhs[0];
    var b0: nat, b1: nat, b23: nat := rhs[0], 0, 0;
    if |rhs| > 1 {
      b1 := b01 / BASE;
    }
    if |rhs| > 2 {
      b23 := BASE * rhs[3] + rhs[2];
    }
    HalvesOf(lhs, rhs, a01, a23, b01, b0, b1, b23);
    res := PartialProducts(a0, a1, a01, a23, b0, b1, b01, b23, |rhs| > 1);
    CapFour();
  }

  method PartialProducts(a0: Limb, a1: Limb, a01: nat, a23: nat, b0: Limb, b1: Limb, b01: nat, b23: nat, wide: bool)
    returns (res: seq<Limb>)
    requires a01 == a0 + BASE * a1 && b01 == b0 + BASE * b1 && (!wide ==> b1 == 0)
    ensures |res| == 4 && Val(res) == Mod((a01 + HALF * a23) * (b01 + HALF * b23), HALF * HALF)
  {
    hide Mod, Div, Val, Cap, Congruent;
    var cross := a23 * b01 + a01 * b23 + a1 * b1;
    var r23 := Mod(cross, HALF);
    DivMod(cross, HALF);
    LimbProduct(a0, b0);
    LimbProduct(a1, b0);
    LimbProduct(a0, b1);
    res := Combine(a0 * b0, r23, a1 * b0, a0 * b1, wide);
    ghost var low, e := ProductOfHalves(a0, a1, a23, b0, b1, b23, r23, Div(cross, HALF));
    ValBound(res);
    CapFour();
    Reduced(Val(res), low, (a01 + HALF * a23) * (b01 + HALF * b23), e, HALF * HALF);
  }

  lemma Reduced(v: nat, low: int, product: int, e: int, m: nat)
    requires v < m && Congruent(v, low, m) && product == low + e * m
    ensures v == Mod(product, m)
  {
    hide Mod, Div;
    CongruentBy(product, low, e, m);
    IsMod(v, product, m);
  }

  /** The partial products put together: x and y straddle the middle. */
  method Combine(r01: nat, r23: nat, x: nat, y: nat, wide: bool) returns (res: seq<Limb>)
    requires r01 < HALF && r23 < HALF && x < HALF && y < HALF && (!wide ==> y == 0)
    ensures |res| == 4 && Congruent(Val(res), r01 + BASE * (x + y) + HALF * r23, HALF * HALF)
  {
    hide Val, Congruent, WrapHalf, Low, High;
    var r12 := High(r01) + BASE * Low(r23);   // (r01 >> 64) + (r23 << 64)
    var x' := x;
    var item3 := High(r23);
    ghost var c1, c2 := 0, 0;
    SplitHalf(r01);
    SplitHalf(r23);
    AddHalf(x, y);
    if wide {
      x' := WrapHalf(x + y);
      if x' < y {
        item3, c1 := WrapAdd(item3, 1), 1;
      }
    }
    AddHalf(r12, x');
    var r12' := WrapHalf(r12 + x');
    if r12' < x' {
      item3, c2 := WrapAdd(item3, 1), 1;
    }
    SplitHalf(r12');
    res := [Low(r01), Low(r12'), High(r12'), item3];
    Assemble(res, r01, r23, x, y, x', r12, r12', c1, c2);
  }

  function WrapHalf(x: nat): nat {
    x % HALF
  }

  function Low(x: nat): Limb {
    x % BASE
  }

  function High(x: nat): Limb
    requires x < HALF
  {
    x / BASE
  }

  lemma SplitHalf(x: nat)
    requires x < HALF
    ensures x == Low(x) + BASE * High(x)
  {
  }

  /** The carry shows as a sum below a summand. */
  lemma AddHalf(x: nat, y: nat)
    requires x < HALF && y < HALF
    ensures WrapHalf(x + y) < HALF
    ensures x + y == WrapHalf(x + y) + (if WrapHalf(x + y) < y then HALF else 0)
  {
  }

  lemma CapFour()
    ensures Cap(4) == HALF * HALF
  {
  }

  lemma LimbProduct(a: Limb, b: Limb)
    ensures 0 <= a * b < HALF
  {
    MulMonotone(a, BASE - 1, b);
  }

  lemma ValFour(s: seq<Limb>)
    requires |s| == 4
    ensures Val(s) == s[0] + BASE * s[1] + HALF * (s[2] + BASE * s[3])
  {
    assert s[1..][1..] == s[2..] && s[2..][1..] == s[3..] && s[3..][1..] == [];
    assert Val(s[3..]) == s[3] && Val(s[2..]) == s[2] + BASE * s[3];
    assert Val(s[1..]) == s[1] + BASE * Val(s[2..]);
  }

  lemma HalvesOf(lhs: seq<Limb>, rhs: seq<Limb>, a01: nat, a23: nat, b01: nat, b0: nat, b1: nat, b23: nat)
    requires |lhs| == 4 && |rhs| in {1, 2, 4}
    requires a01 == BASE * lhs[1] + lhs[0] && a23 == BASE * lhs[3] + lhs[2]
    requires b01 == (if |rhs| == 2 then BASE * rhs[1] + rhs[0] else rhs[0])
    requires b0 == rhs[0] && b1 == (if |rhs| > 1 then b01 / BASE else 0)
    requires b23 == if |rhs| > 2 then BASE * rhs[3] + rhs[2] else 0
    ensures Val(lhs) == a01 + HALF * a23 && Effective(rhs) == b01 + HALF * b23
    ensures b01 == b0 + BASE * b1 && b1 < BASE
  {
    hide Val;
    ValFour(lhs);
    if |rhs| == 1 {
      ValSingle(rhs[0]);
      assert rhs == [rhs[0]];
    } else if |rhs| == 2 {
      assert rhs == [rhs[0]] + [rhs[1]];
      ValAppend([rhs[0]], [rhs[1]]);
      ValSingle(rhs[0]);
      ValSingle(rhs[1]);
      CapSucc(0);
    }
  }

  /** The product of the halves, up to a multiple e of the capacity that falls off the top. */
  lemma ProductOfHalves(a0: int, a1: int, a23: int, b0: int, b1: int, b23: int, r23: int, k: int)
    returns (low: int, e: int)
    requires a23 * (b0 + BASE * b1) + (a0 + BASE * a1) * b23 + a1 * b1 == k * HALF + r23
    ensures low == a0 * b0 + BASE * (a1 * b0 + a0 * b1) + HALF * r23
    ensures ((a0 + BASE * a1) + HALF * a23) * ((b0 + BASE * b1) + HALF * b23) == low + e * (HALF * HALF)
  {
    LowHalf(a0, a1, b0, b1);
    HighHalf(a0 + BASE * a1, a23, b0 + BASE * b1, b23);
    low, e := a0 * b0 + BASE * (a1 * b0 + a0 * b1) + HALF * r23, k + a23 * b23;
  }

  lemma LowHalf(a0: int, a1: int, b0: int, b1: int)
    ensures (a0 + BASE * a1) * (b0 + BASE * b1) == a0 * b0 + BASE * (a1 * b0 + a0 * b1) + HALF * (a1 * b1)
  {
    assert (a0 + BASE * a1) * (b0 + BASE * b1) == a0 * b0 + a0 * (BASE * b1) + (BASE * a1) * b0 + (BASE * a1) * (BASE * b1);
    assert a0 * (BASE * b1) == BASE * (a0 * b1);
    assert (BASE * a1) * b0 == BASE * (a1 * b0);
    assert (BASE * a1) * (BASE * b1) == HALF * (a1 * b1);
  }

  lemma HighHalf(a01: int, a23: int, b01: int, b23: int)
    ensures (a01 + HALF * a23) * (b01 + HALF * b23)
         == a01 * b01 + HALF * (a23 * b01 + a01 * b23) + (HALF * HALF) * (a23 * b23)
  {
    assert (a01 + HALF * a23) * (b01 + HALF * b23)
        == a01 * b01 + a01 * (HALF * b23) + (HALF * a23) * b01 + (HALF * a23) * (HALF * b23);
    assert a01 * (HALF * b23) == HALF * (a01 * b23);
    assert (HALF * a23) * b01 == HALF * (a23 * b01);
    assert (HALF * a23) * (HALF * b23) == (HALF * HALF) * (a23 * b23);
  }

  /** The limbs put together: carries go to limb 3, what overflows it is dropped. */
  lemma Assemble(res: seq<Limb>, r01: nat, r23: nat, x: nat, y: nat, x': nat, r12: nat, r12': nat, c1: nat, c2: nat)
    requires |res| == 4 && r01 < HALF && r23 < HALF && r12' < HALF && c1 <= 1 && c2 <= 1
    requires r12 == High(r01) + BASE * Low(r23) && x + y == x' + HALF * c1 && r12 + x' == r12' + HALF * c2
    requires res[0] == Low(r01) && res[1] == Low(r12') && res[2] == High(r12')
    requires res[3] == Top(High(r23), c1, c2)
    ensures Congruent(Val(res), r01 + BASE * (x + y) + HALF * r23, HALF * HALF)
  {
    hide Val, Mod, Div, Low, High, Top;
    ValFour(res);
    SplitHalf(r01);
    SplitHalf(r23);
    SplitHalf(r12');
    var e := TopExcess(High(r23), c1, c2);
    CongruentBy(r01 + BASE * (x + y) + HALF * r23, Val(res), e, HALF * HALF);
  }

  /** Limb 3 after the increments. */
  function Top(u: Limb, c1: nat, c2: nat): Limb {
    var t := if c1 == 1 then WrapAdd(u, 1) else u;
    if c2 == 1 then WrapAdd(t, 1) else t
  }

  lemma TopExcess(u: Limb, c1: nat, c2: nat) returns (e: nat)
    requires c1 <= 1 && c2 <= 1
    ensures u + c1 + c2 == Top(u, c1, c2) + BASE * e
  {
    e := (u + c1 + c2) / BASE;
  }

  /** With a wide multiplier the product is right exactly when limb 1 does not matter. */
  lemma WideMultiplierIff(lhs: seq<Limb>, rhs: seq<Limb>)
    requires |lhs| == |rhs| == 4
    ensures Mod(Val(lhs) * Effective(rhs), Cap(4)) == Mod(Val(lhs) * Val(rhs), Cap(4))
       <==> Mod(Val(lhs) * rhs[1], Cap(3)) == 0
  {
    hide Val, Mod, Div, Cap;
    var L, y := Val(lhs), Val(lhs) * rhs[1];
    ValFour(rhs);
    CapSucc(3);
    assert L * Val(rhs) == L * Effective(rhs) + BASE * y by {
      assert L * (Effective(rhs) + BASE * rhs[1]) == L * Effective(rhs) + L * (BASE * rhs[1]);
      assert L * (BASE * rhs[1]) == BASE * y;
    }
    if Congruent(L * Effective(rhs), L * Val(rhs), Cap(4)) {
      var k := CongruentWitness(L * Val(rhs), L * Effective(rhs), Cap(4));
      assert k * (BASE * Cap(3)) == BASE * (k * Cap(3));
      DivModUnique(y, k, 0, Cap(3));
    }
    if Mod(y, Cap(3)) == 0 {
      DivMod(y, Cap(3));
      var k := Div(y, Cap(3));
      assert BASE * (k * Cap(3)) == k * (BASE * Cap(3));
      CongruentBy(L * Val(rhs), L * Effective(rhs), k, Cap(4));
    }
  }

  /** For instance 1 * 2^64 gives 0. */
  method WideMultiplierFails() returns (res: seq<Limb>)
    ensures |res| == 4 && Val(res) == 0 && Val([1, 0, 0, 0]) * Val([0, 1, 0, 0]) == BASE
  {
    hide Val, Cap, Mod, Div;
    ValFour([1, 0, 0, 0]);
    ValFour([0, 1, 0, 0]);
    CapFour();
    ModSmall(0, HALF * HALF);
    res := MultiplyHalves([1, 0, 0, 0], [0, 1, 0, 0]);
  }
}
