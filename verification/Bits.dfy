/** Bitwise operators on unsigned words, as functions on natural numbers.
    A word of width w is a natural number below Pow2(w); x >> k is x / Pow2(k). */
module Bits {
  import opened Arith

  predicate Bit(x: nat, i: nat) {
    Div(x, Pow2(i)) % 2 == 1
  }

  function And(x: nat, y: nat): nat
    decreases x
  {
    if x == 0 || y == 0 then 0 else (if x % 2 == 1 && y % 2 == 1 then 1 else 0) + 2 * And(x / 2, y / 2)
  }

  function Or(x: nat, y: nat): nat
    decreases x + y
  {
    if x == 0 then y else if y == 0 then x
    else (if x % 2 == 1 || y % 2 == 1 then 1 else 0) + 2 * Or(x / 2, y / 2)
  }

  function Xor(x: nat, y: nat): nat
    decreases x + y
  {
    if x == 0 then y else if y == 0 then x
    else (if x % 2 != y % 2 then 1 else 0) + 2 * Xor(x / 2, y / 2)
  }

  function Shr(x: nat, k: nat): nat {
    Div(x, Pow2(k))
  }

  /** Bitwise complement within a word of width w. */
  function Not(x: nat, w: nat): nat
    requires x < Pow2(w)
  {
    Pow2(w) - 1 - x
  }

  lemma BitZero(x: nat)
    ensures Bit(x, 0) <==> x % 2 == 1
  {
    hide Div;
    DivModUnique(x, x, 0, 1);
  }

  lemma HalfDiv(x: nat, p: nat)
    requires p > 0
    ensures Div(x, 2 * p) == Div(x / 2, p)
    ensures Mod(x, 2 * p) == 2 * Mod(x / 2, p) + x % 2
  {
    hide Div, Mod;
    var q, r := Div(x / 2, p), Mod(x / 2, p);
    DivMod(x / 2, p);
    assert 2 * (q * p) == q * (2 * p);
    DivModUnique(x, q, 2 * r + x % 2, 2 * p);
  }

  lemma BitHalf(x: nat, i: nat)
    requires i > 0
    ensures Bit(x, i) == Bit(x / 2, i - 1)
  {
    hide Div, Mod;
    HalfDiv(x, Pow2(i - 1));
  }

  lemma BitOfZero(i: nat)
    ensures !Bit(0, i)
  {
    hide Div, Mod;
    ModSmall(0, Pow2(i));
  }

  lemma {:induction false} BitAnd(x: nat, y: nat, i: nat)
    ensures Bit(And(x, y), i) == (Bit(x, i) && Bit(y, i))
    decreases x
  {
    hide Bit, Pow2;
    BitOfZero(i);
    if x != 0 && y != 0 {
      BitZero(x); BitZero(y); BitZero(And(x, y));
      if i > 0 {
        BitHalf(x, i); BitHalf(y, i); BitHalf(And(x, y), i);
        BitAnd(x / 2, y / 2, i - 1);
      }
    }
  }

  lemma {:induction false} BitOr(x: nat, y: nat, i: nat)
    ensures Bit(Or(x, y), i) == (Bit(x, i) || Bit(y, i))
    decreases x
  {
    hide Bit, Pow2;
    BitOfZero(i);
    if x != 0 && y != 0 {
      BitZero(x); BitZero(y); BitZero(Or(x, y));
      if i > 0 {
        BitHalf(x, i); BitHalf(y, i); BitHalf(Or(x, y), i);
        BitOr(x / 2, y / 2, i - 1);
      }
    }
  }

  lemma {:induction false} BitXor(x: nat, y: nat, i: nat)
    ensures Bit(Xor(x, y), i) == (Bit(x, i) != Bit(y, i))
    decreases x
  {
    hide Bit, Pow2;
    BitOfZero(i);
    if x != 0 && y != 0 {
      BitZero(x); BitZero(y); BitZero(Xor(x, y));
      if i > 0 {
        BitHalf(x, i); BitHalf(y, i); BitHalf(Xor(x, y), i);
        BitXor(x / 2, y / 2, i - 1);
      }
    }
  }

  lemma {:induction false} BitShr(x: nat, k: nat, i: nat)
    ensures Bit(Shr(x, k), i) == Bit(x, i + k)
    decreases k
  {
    hide Div, Mod, Bit;
    if k == 0 {
      DivModUnique(x, x, 0, 1);
    } else {
      HalfDiv(x, Pow2(k - 1));
      BitShr(x / 2, k - 1, i);
      BitHalf(x, i + k);
    }
  }

  /** A word of width w has no bits at or above position w. */
  lemma BitAbove(x: nat, w: nat, i: nat)
    requires x < Pow2(w) && w <= i
    ensures !Bit(x, i)
  {
    hide Div, Mod, Pow2;
    Pow2Monotone(w, i);
    ModSmall(x, Pow2(i));
  }

  /** The mask (1 << n) - 1 has exactly the n low bits. */
  lemma {:induction false} BitMask(n: nat, i: nat)
    ensures Bit(Pow2(n) - 1, i) == (i < n)
    decreases n
  {
    hide Bit;
    if n == 0 {
      BitOfZero(i);
    } else {
      var x := Pow2(n) - 1;
      assert x / 2 == Pow2(n - 1) - 1 && x % 2 == 1;
      BitZero(x);
      if i > 0 {
        BitHalf(x, i);
        BitMask(n - 1, i - 1);
      }
    }
  }

  lemma {:induction false} BitNot(x: nat, w: nat, i: nat)
    requires x < Pow2(w)
    ensures Bit(Not(x, w), i) == (i < w && !Bit(x, i))
    decreases w
  {
    hide Bit;
    if w == 0 {
      BitOfZero(i);
    } else {
      var y := Not(x, w);
      assert y % 2 == 1 - x % 2 && y / 2 == Not(x / 2, w - 1);
      BitZero(x); BitZero(y);
      if i > 0 {
        BitHalf(x, i); BitHalf(y, i);
        BitNot(x / 2, w - 1, i - 1);
      }
    }
  }

  ghost predicate SameBits(x: nat, y: nat) {
    forall i: nat :: Bit(x, i) == Bit(y, i)
  }

  /** Words are determined by their bits. */
  lemma {:induction false} BitsDetermine(x: nat, y: nat)
    requires SameBits(x, y)
    ensures x == y
    decreases x + y
  {
    hide Bit, Pow2;
    if x != 0 || y != 0 {
      BitZero(x); BitZero(y);
      assert Bit(x, 0) == Bit(y, 0);
      if x / 2 + y / 2 < x + y {
        forall i: nat ensures Bit(x / 2, i) == Bit(y / 2, i) {
          BitHalf(x, i + 1); BitHalf(y, i + 1);
          assert Bit(x, i + 1) == Bit(y, i + 1);
        }
        BitsDetermine(x / 2, y / 2);
      }
    }
  }

  /** Bit i is what separates the remainders modulo Pow2(i) and Pow2(i + 1). */
  lemma BitSplit(x: nat, i: nat)
    ensures Mod(x, Pow2(i + 1)) == Mod(x, Pow2(i)) + (if Bit(x, i) then Pow2(i) else 0)
  {
    hide Div, Mod;
    var p := Pow2(i);
    var q, r := Div(x, p), Mod(x, p);
    DivMod(x, p);
    var b := q % 2;
    assert q * p == (q / 2) * (2 * p) + b * p;
    DivModUnique(x, q / 2, b * p + r, 2 * p);
  }

  lemma {:induction false} AndPow2(x: nat, i: nat)
    ensures And(x, Pow2(i)) == if Bit(x, i) then Pow2(i) else 0
    decreases i
  {
    hide Bit;
    BitZero(x);
    if x == 0 {
      BitOfZero(i);
    } else if i == 0 {
      assert And(x / 2, 1 / 2) == 0;
    } else {
      assert Pow2(i) / 2 == Pow2(i - 1) && Pow2(i) % 2 == 0;
      AndPow2(x / 2, i - 1);
      BitHalf(x, i);
    }
  }

  /** Setting bits above the top of x adds them. */
  lemma {:induction false} OrDisjoint(x: nat, k: nat, i: nat)
    requires x < Pow2(i)
    ensures Or(x, k * Pow2(i)) == x + k * Pow2(i)
    ensures Or(k * Pow2(i), x) == x + k * Pow2(i)
    decreases i
  {
    hide Or;
    if x == 0 || k == 0 {
      OrZero(x, k * Pow2(i));
    } else {
      assert k * Pow2(i) == 2 * (k * Pow2(i - 1)) by { MulAssoc(2, Pow2(i - 1), k); }
      OrDisjoint(x / 2, k, i - 1);
      MulPositive(k, Pow2(i));
      OrHalves(x, k * Pow2(i), k * Pow2(i - 1));
    }
  }

  lemma {:induction false} OrZero(x: nat, y: nat)
    requires x == 0 || y == 0
    ensures Or(x, y) == x + y && Or(y, x) == x + y
  {
  }

  lemma {:induction false} OrHalves(x: nat, y: nat, h: nat)
    requires y == 2 * h && x > 0 && y > 0
    requires Or(x / 2, h) == x / 2 + h && Or(h, x / 2) == x / 2 + h
    ensures Or(x, y) == x + y && Or(y, x) == x + y
  {
  }

  lemma {:induction false} AndMask(x: nat, n: nat)
    ensures And(x, Pow2(n) - 1) == Mod(x, Pow2(n))
    decreases n
  {
    hide Div, Mod;
    if n == 0 {
    } else if x == 0 {
      ModSmall(0, Pow2(n));
    } else {
      var y := Pow2(n) - 1;
      assert y / 2 == Pow2(n - 1) - 1 && y % 2 == 1;
      AndMask(x / 2, n - 1);
      HalfDiv(x, Pow2(n - 1));
    }
  }

  lemma {:induction false} XorBound(x: nat, y: nat, w: nat)
    requires x < Pow2(w) && y < Pow2(w)
    ensures Xor(x, y) < Pow2(w)
    decreases w
  {
    if x != 0 && y != 0 {
      XorBound(x / 2, y / 2, w - 1);
    }
  }
}
