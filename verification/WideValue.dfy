/** Wide integers (base/common/wide_integer_impl.h) are arrays of 64-bit limbs, least significant
    first. This module gives them their value and relates limb-by-limb recurrences to it. */
module WideValue {
  import opened Arith
  import opened Bits

  const BASE_BITS: nat := 64
  const BASE: nat := 0x1_0000_0000_0000_0000

  type Limb = x: nat | x < BASE

  /** The unsigned value. */
  function Val(s: seq<Limb>): nat {
    if |s| == 0 then 0 else s[0] + BASE * Val(s[1..])
  }

  /** The number of values n limbs can hold. */
  function Cap(n: nat): (c: nat)
    ensures c > 0
  {
    if n == 0 then 1 else BASE * Cap(n - 1)
  }

  predicate IsNegative(s: seq<Limb>, signed: bool) {
    signed && |s| > 0 && s[|s| - 1] >= 0x8000_0000_0000_0000
  }

  /** The value under the type's own signedness (two's complement). */
  function Value(s: seq<Limb>, signed: bool): int {
    if IsNegative(s, signed) then Val(s) - Cap(|s|) else Val(s)
  }

  lemma {:induction false} CapIsPow2(n: nat)
    ensures Cap(n) == Pow2(64 * n)
    decreases n
  {
    hide Pow2;
    Pow2Small();
    if n > 0 {
      CapIsPow2(n - 1);
      WordSizes();
      Pow2Add(64, 64 * (n - 1));
    }
  }

  lemma {:induction false} ValBound(s: seq<Limb>)
    ensures Val(s) < Cap(|s|)
    decreases |s|
  {
    if |s| > 0 {
      ValBound(s[1..]);
    }
  }

  lemma {:induction false} ValAppend(a: seq<Limb>, b: seq<Limb>)
    ensures Val(a + b) == Val(a) + Cap(|a|) * Val(b)
    decreases |a|
  {
    if |a| == 0 {
      assert a + b == b;
    } else {
      assert (a + b)[1..] == a[1..] + b;
      ValAppend(a[1..], b);
      MulAssoc(BASE, Cap(|a| - 1), Val(b));
    }
  }

  lemma {:induction false} ValZeros(s: seq<Limb>)
    requires forall i :: 0 <= i < |s| ==> s[i] == 0
    ensures Val(s) == 0
    decreases |s|
  {
    if |s| > 0 {
      ValZeros(s[1..]);
    }
  }

  /** Equal values of equal length have equal limbs. */
  lemma {:induction false} ValInjective(a: seq<Limb>, b: seq<Limb>)
    requires |a| == |b| && Val(a) == Val(b)
    ensures a == b
    decreases |a|
  {
    if |a| > 0 {
      ValInjective(a[1..], b[1..]);
      assert a == [a[0]] + a[1..] && b == [b[0]] + b[1..];
    }
  }

  /** Comparing from the top: the first differing limb decides. */
  lemma {:induction false} ValCompare(a: seq<Limb>, b: seq<Limb>, k: nat)
    requires |a| == |b| && k < |a| && a[k + 1..] == b[k + 1..] && a[k] < b[k]
    ensures Val(a) < Val(b)
    decreases |a|
  {
    if k > 0 {
      assert a[1..][k..] == a[k + 1..] && b[1..][k..] == b[k + 1..];
      ValCompare(a[1..], b[1..], k - 1);
    }
  }

  function One(carry: bool): nat {
    if carry then 1 else 0
  }

  /** a + b + carry in, as a limb r and a carry out. */
  predicate AddsTo(a: int, b: int, carryIn: bool, r: int, carryOut: bool) {
    r + BASE * One(carryOut) == a + b + One(carryIn)
  }

  ghost predicate AddChain(a: seq<Limb>, b: seq<Limb>, c: seq<bool>, r: seq<Limb>) {
    && |a| == |b| == |r| && |c| == |a| + 1
    && forall i :: 0 <= i < |a| ==> AddsTo(a[i], b[i], c[i], r[i], c[i + 1])
  }

  /** Limb sums linked by carries are the sum of the values. */
  lemma {:induction false} AddChainValue(a: seq<Limb>, b: seq<Limb>, c: seq<bool>, r: seq<Limb>)
    requires AddChain(a, b, c, r)
    ensures Val(r) + (if c[|a|] then Cap(|a|) else 0) == Val(a) + Val(b) + One(c[0])
    decreases |a|
  {
    if |a| > 0 {
      AddChainValue(a[1..], b[1..], c[1..], r[1..]);
    }
  }

  /** r is a - b - borrow in: adding back b and the borrow gives a. */
  ghost predicate SubChain(a: seq<Limb>, b: seq<Limb>, c: seq<bool>, r: seq<Limb>) {
    && |a| == |b| == |r| && |c| == |a| + 1
    && forall i :: 0 <= i < |a| ==> AddsTo(r[i], b[i], c[i], a[i], c[i + 1])
  }

  lemma {:induction false} SubChainValue(a: seq<Limb>, b: seq<Limb>, c: seq<bool>, r: seq<Limb>)
    requires SubChain(a, b, c, r)
    ensures Val(r) - (if c[|a|] then Cap(|a|) else 0) == Val(a) - Val(b) - One(c[0])
    decreases |a|
  {
    if |a| > 0 {
      SubChainValue(a[1..], b[1..], c[1..], r[1..]);
    }
  }

  ghost predicate ScaleChain(a: seq<Limb>, p: nat, h: seq<nat>, r: seq<Limb>) {
    && |a| == |r| && |h| == |a| + 1
    && forall i :: 0 <= i < |a| ==> r[i] + BASE * h[i + 1] == a[i] * p + h[i]
  }

  /** Limb products by p linked by what they pass upwards are the product of the value. */
  lemma {:induction false} ScaleChainValue(a: seq<Limb>, p: nat, h: seq<nat>, r: seq<Limb>)
    requires ScaleChain(a, p, h, r)
    ensures Val(r) + Cap(|a|) * h[|a|] == Val(a) * p + h[0]
    decreases |a|
  {
    if |a| > 0 {
      var t := a[1..];
      ScaleChainValue(t, p, h[1..], r[1..]);
      assert h[1..][|t|] == h[|a|];
      MulAssoc(BASE, Cap(|t|), h[|a|]);
      ScaleStep(a[0], Val(t), p);
      assert r[0] + BASE * h[1] == a[0] * p + h[0];
    }
  }

  lemma ScaleStep(x: int, v: int, p: int)
    ensures (x + BASE * v) * p == x * p + BASE * (v * p)
  {
    MulSub(x, BASE * v, p);
    MulAssoc(BASE, v, p);
  }

  function DivideLimb(a: seq<Limb>, p: nat, q: nat, i: nat): nat
    requires p > 0 && i < |a|
  {
    Div(a[i], p) + (if i + 1 < |a| then Mod(a[i + 1], p) * q else 0)
  }

  ghost predicate DivideChain(a: seq<Limb>, p: nat, q: nat, r: seq<Limb>)
    requires p > 0
  {
    && |a| == |r|
    && forall i :: 0 <= i < |a| ==>
         r[i] == DivideLimb(a, p, q, i)
  }

  /** Limb quotients by p, each taking in the remainder of the limb above, are the quotient. */
  lemma {:induction false} DivideChainValue(a: seq<Limb>, p: nat, q: nat, r: seq<Limb>)
    requires p > 0 && p * q == BASE && DivideChain(a, p, q, r)
    ensures Val(a) == p * Val(r) + (if |a| > 0 then Mod(a[0], p) else 0)
    decreases |a|
  {
    hide Mod, Div;
    if |a| > 0 {
      var t := a[1..];
      forall i | 0 <= i < |t| ensures r[1..][i] == DivideLimb(t, p, q, i) {
        assert r[i + 1] == DivideLimb(a, p, q, i + 1);
      }
      DivideChainValue(t, p, q, r[1..]);
      assert r[0] == DivideLimb(a, p, q, 0);
      var m := if |a| > 1 then Mod(a[1], p) else 0;
      DivMod(a[0], p);
      DivideStep(Div(a[0], p), m, Val(r[1..]), p, q);
    }
  }

  lemma DivideStep(d: int, m: int, v: int, p: int, q: int)
    requires p * q == BASE
    ensures p * (d + m * q + BASE * v) == d * p + BASE * (m + p * v)
  {
    assert p * (m * q) == m * (p * q);
    assert p * (BASE * v) == BASE * (p * v);
  }

  /** What a left shift of one limb keeps and what it passes to the next limb. */
  lemma LimbShift(x: Limb, p: nat, q: nat)
    requires p > 0 && q > 0 && p * q == BASE
    ensures Mod(x * p, BASE) == Mod(x, q) * p && Div(x, q) < p
    ensures Mod(x * p, BASE) + BASE * Div(x, q) == x * p
  {
    hide Mod, Div;
    var h, r := Div(x, q), Mod(x, q);
    DivMod(x, q);
    assert x * p == h * BASE + r * p by {
      MulSub(h * q, r, p);
      MulAssoc(h, q, p);
    }
    MulMonotone(r + 1, q, p);
    MulSub(r, 1, p);
    DivModUnique(x * p, h, r * p, BASE);
    if h >= p {
      MulMonotone(p, h, q);
    }
  }

  // ----- Limb-wise bit operations act on the value

  lemma {:induction false} OrSplit(a: nat, b: nat, A: nat, B: nat, i: nat)
    requires a < Pow2(i) && b < Pow2(i)
    ensures Or(a + Pow2(i) * A, b + Pow2(i) * B) == Or(a, b) + Pow2(i) * Or(A, B)
    decreases i
  {
    hide Or, Pow2;
    if i == 0 {
      Pow2Small();
      OrZeroZero();
    } else {
      Pow2Doubles(i - 1);
      var p := Pow2(i - 1);
      OrSplit(a / 2, b / 2, A, B, i - 1);
      OrStep(a, 0, b, 0);
      OrStep(a, p * A, b, p * B);
      MulAssoc(2, p, A);
      MulAssoc(2, p, B);
      MulAssoc(2, p, Or(A, B));
    }
  }

  lemma HalfPlus(a: nat, k: nat)
    ensures (a + 2 * k) / 2 == a / 2 + k && (a + 2 * k) % 2 == a % 2
  {
  }

  lemma {:induction false} OrStep(x: nat, k: nat, y: nat, l: nat)
    ensures Or(x + 2 * k, y + 2 * l)
         == (if x % 2 == 1 || y % 2 == 1 then 1 else 0) + 2 * Or(x / 2 + k, y / 2 + l)
  {
    HalfPlus(x, k);
    HalfPlus(y, l);
  }

  lemma {:induction false} AndSplit(a: nat, b: nat, A: nat, B: nat, i: nat)
    requires a < Pow2(i) && b < Pow2(i)
    ensures And(a + Pow2(i) * A, b + Pow2(i) * B) == And(a, b) + Pow2(i) * And(A, B)
    decreases i
  {
    hide And, Pow2;
    if i == 0 {
      Pow2Small();
      AndZeroZero();
    } else {
      Pow2Doubles(i - 1);
      var p := Pow2(i - 1);
      AndSplit(a / 2, b / 2, A, B, i - 1);
      AndStep(a, 0, b, 0);
      AndStep(a, p * A, b, p * B);
      MulAssoc(2, p, A);
      MulAssoc(2, p, B);
      MulAssoc(2, p, And(A, B));
    }
  }

  lemma {:induction false} AndStep(x: nat, k: nat, y: nat, l: nat)
    ensures And(x + 2 * k, y + 2 * l)
         == (if x % 2 == 1 && y % 2 == 1 then 1 else 0) + 2 * And(x / 2 + k, y / 2 + l)
  {
    HalfPlus(x, k);
    HalfPlus(y, l);
  }

  lemma {:induction false} ValOr(a: seq<Limb>, b: seq<Limb>, r: seq<Limb>)
    requires |a| == |b| == |r| && forall i :: 0 <= i < |a| ==> r[i] == Or(a[i], b[i])
    ensures Val(r) == Or(Val(a), Val(b))
    decreases |a|
  {
    hide Or, Pow2;
    if |a| == 0 {
      OrZeroZero();
    } else {
      WordSizes();
      ValOr(a[1..], b[1..], r[1..]);
      OrSplit(a[0], b[0], Val(a[1..]), Val(b[1..]), 64);
    }
  }

  lemma {:induction false} ValAnd(a: seq<Limb>, b: seq<Limb>, r: seq<Limb>)
    requires |a| == |b| == |r| && forall i :: 0 <= i < |a| ==> r[i] == And(a[i], b[i])
    ensures Val(r) == And(Val(a), Val(b))
    decreases |a|
  {
    hide And, Pow2;
    if |a| == 0 {
      AndZeroZero();
    } else {
      WordSizes();
      ValAnd(a[1..], b[1..], r[1..]);
      AndSplit(a[0], b[0], Val(a[1..]), Val(b[1..]), 64);
    }
  }

  lemma AndZeroZero()
    ensures And(0, 0) == 0
  {
  }

  lemma OrZeroZero()
    ensures Or(0, 0) == 0
  {
  }

  lemma {:induction false} OrBound(x: nat, y: nat, w: nat)
    requires x < Pow2(w) && y < Pow2(w)
    ensures Or(x, y) < Pow2(w)
    decreases w
  {
    if x != 0 && y != 0 {
      OrBound(x / 2, y / 2, w - 1);
    }
  }

  lemma {:induction false} AndBound(x: nat, y: nat)
    ensures And(x, y) <= x
    decreases x
  {
    if x != 0 && y != 0 {
      AndBound(x / 2, y / 2);
    }
  }

  /** The sign limb decides whether the value is in the upper half. */
  lemma NegativeIff(s: seq<Limb>)
    requires |s| > 0
    ensures IsNegative(s, true) <==> 2 * Val(s) >= Cap(|s|)
  {
    hide Val, Cap;
    var n := |s| - 1;
    ValTop(s);
    ValBound(s[..n]);
    CapSucc(n);
    UpperHalf(Val(s[..n]), s[n], Cap(n));
  }

  lemma ValSingle(x: Limb)
    ensures Val([x]) == x
  {
    assert [x][1..] == [];
  }

  /** The value split at the top limb. */
  lemma ValTop(s: seq<Limb>)
    requires |s| > 0
    ensures Val(s) == Val(s[..|s| - 1]) + Cap(|s| - 1) * s[|s| - 1]
  {
    hide Val, Cap;
    var n := |s| - 1;
    assert s == s[..n] + [s[n]];
    ValAppend(s[..n], [s[n]]);
    ValSingle(s[n]);
  }

  lemma CapSucc(n: nat)
    ensures Cap(n + 1) == BASE * Cap(n)
  {
  }

  lemma UpperHalf(lo: nat, top: Limb, c: nat)
    requires lo < c
    ensures top >= 0x8000_0000_0000_0000 <==> 2 * (lo + c * top) >= BASE * c
  {
    if top >= 0x8000_0000_0000_0000 {
      MulMonotone(0x8000_0000_0000_0000, top, c);
    } else {
      MulMonotone(top, 0x7fff_ffff_ffff_ffff, c);
    }
  }
}
