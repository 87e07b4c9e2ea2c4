/** The output permutation of the PCG engine and its inverse
    (base/pcg-random/pcg_extras.hpp, base/pcg-random/pcg_random.hpp). */
module PcgOutput {
  import opened Arith
  import opened Bits

  function XorShift(x: nat, k: nat): nat {
    Xor(x, Shr(x, k))
  }

  /** `unxorshift`, for an integer type of `width` bits of which the low `bits` are in use. */
  function Unxorshift(x: nat, bits: nat, shift: nat, width: nat): nat
    requires 1 <= shift && bits <= width
    decreases bits
  {
    if 2 * shift >= bits then
      Xor(x, Shr(x, shift))
    else
      Pow2Monotone(bits - 2 * shift, width);
      var lowmask1 := Pow2(bits - 2 * shift) - 1;
      var highmask1 := Not(lowmask1, width);
      var bottom1 := And(x, lowmask1);
      var top1 := And(Xor(x, Shr(x, shift)), highmask1);
      var x' := Or(top1, bottom1);
      var lowmask2 := Pow2(bits - shift) - 1;
      var bottom2 := And(x', lowmask2);
      Or(top1, And(Unxorshift(bottom2, bits - shift, shift, width), lowmask1))
  }

  /** Undoing a xorshift, for every width and every positive shift. */
  lemma {:induction false} UnxorshiftInverts(y: nat, bits: nat, shift: nat, width: nat)
    requires 1 <= shift && bits <= width && y < Pow2(bits)
    ensures Unxorshift(XorShift(y, shift), bits, shift, width) == y
    decreases bits
  {
    hide Bit, And, Or, Xor, Shr, Not, Pow2;
    var x := XorShift(y, shift);
    var r := Unxorshift(x, bits, shift, width);
    if 2 * shift >= bits {
      forall i: nat ensures Bit(r, i) == Bit(y, i) {
        TwiceShifted(y, shift, i);
        BitAbove(y, bits, i + 2 * shift);
      }
    } else {
      var n1, n2 := bits - 2 * shift, bits - shift;
      Pow2Monotone(n1, width);
      var top1 := And(Xor(x, Shr(x, shift)), Not(Pow2(n1) - 1, width));
      var x' := Or(top1, And(x, Pow2(n1) - 1));
      var bottom2 := And(x', Pow2(n2) - 1);
      var y' := And(y, Pow2(n2) - 1);
      AndMask(y, n2);
      forall i: nat ensures Bit(bottom2, i) == Bit(XorShift(y', shift), i) {
        BottomBits(y, shift, bits, width, i);
      }
      BitsDetermine(bottom2, XorShift(y', shift));
      UnxorshiftInverts(y', n2, shift, width);
      assert r == Or(top1, And(y', Pow2(n1) - 1));
      forall i: nat ensures Bit(r, i) == Bit(y, i) {
        TopBits(y, shift, n1, bits, width, i);
        BitOr(top1, And(y', Pow2(n1) - 1), i);
        BitAnd(y', Pow2(n1) - 1, i);
        BitMask(n1, i);
        LowBits(y, n2, i);
      }
    }
    BitsDetermine(r, y);
  }

  /** The low part, with its top bits repaired, is a xorshift of the low part of the original. */
  lemma BottomBits(y: nat, k: nat, bits: nat, width: nat, i: nat)
    requires 2 * k < bits <= width && y < Pow2(bits) && Pow2(bits - 2 * k) - 1 < Pow2(width)
    ensures var x := XorShift(y, k);
      var lowmask1 := Pow2(bits - 2 * k) - 1;
      var x' := Or(And(XorShift(x, k), Not(lowmask1, width)), And(x, lowmask1));
      Bit(And(x', Pow2(bits - k) - 1), i) == Bit(XorShift(And(y, Pow2(bits - k) - 1), k), i)
  {
    hide Bit, And, Or, XorShift, Not, Pow2;
    var x, n1, n2 := XorShift(y, k), bits - 2 * k, bits - k;
    var top1 := And(XorShift(x, k), Not(Pow2(n1) - 1, width));
    TopBits(y, k, n1, bits, width, i);
    LowBits(Or(top1, And(x, Pow2(n1) - 1)), n2, i);
    BitOr(top1, And(x, Pow2(n1) - 1), i);
    LowBits(x, n1, i);
    BitXorShift(y, k, i);
    BitXorShift(And(y, Pow2(n2) - 1), k, i);
    LowBits(y, n2, i);
    LowBits(y, n2, i + k);
    if i >= n2 {
      BitAbove(y, bits, i + k);
    }
  }

  lemma BitXorShift(y: nat, k: nat, i: nat)
    ensures Bit(XorShift(y, k), i) == (Bit(y, i) != Bit(y, i + k))
  {
    hide Bit, Xor, Shr;
    BitXor(y, Shr(y, k), i);
    BitShr(y, k, i);
  }

  /** Xorshifting twice by k is one xorshift by 2k. */
  lemma TwiceShifted(y: nat, k: nat, i: nat)
    ensures Bit(XorShift(XorShift(y, k), k), i) == (Bit(y, i) != Bit(y, i + 2 * k))
  {
    hide Bit, XorShift;
    BitXorShift(XorShift(y, k), k, i);
    BitXorShift(y, k, i);
    BitXorShift(y, k, i + k);
  }

  lemma LowBits(y: nat, n: nat, i: nat)
    ensures Bit(And(y, Pow2(n) - 1), i) == (i < n && Bit(y, i))
  {
    hide Bit, And;
    BitAnd(y, Pow2(n) - 1, i);
    BitMask(n, i);
  }

  /** The masked double xorshift already holds the top bits of the original. */
  lemma TopBits(y: nat, k: nat, n1: nat, bits: nat, width: nat, i: nat)
    requires y < Pow2(bits) && bits <= width && n1 + 2 * k >= bits
    requires Pow2(n1) - 1 < Pow2(width)
    ensures Bit(And(XorShift(XorShift(y, k), k), Not(Pow2(n1) - 1, width)), i) == (i >= n1 && Bit(y, i))
  {
    hide Bit, And, XorShift, Not, Pow2;
    BitAnd(XorShift(XorShift(y, k), k), Not(Pow2(n1) - 1, width), i);
    BitNot(Pow2(n1) - 1, width, i);
    BitMask(n1, i);
    TwiceShifted(y, k, i);
    if i >= n1 {
      BitAbove(y, bits, i + 2 * k);
    }
    if i >= width {
      BitAbove(y, bits, i);
    }
  }

  /** The bits of the state that select the random shift. */
  function OpBits(bits: nat): nat {
    if bits >= 128 then 6 else if bits >= 64 then 5 else if bits >= 32 then 4 else if bits >= 16 then 3 else 2
  }

  function FinalShift(bits: nat): nat {
    (2 * bits + 2) / 3
  }

  /** The top `opbits` bits, as the shift amount. */
  function RandomShift(s: nat, bits: nat): nat
    requires bits >= OpBits(bits)
  {
    And(Shr(s, bits - OpBits(bits)), Pow2(OpBits(bits)) - 1)
  }

  /** `rxs_m_xs_mixin::output` for equal state and result types. */
  function Output(s: nat, mult: nat, bits: nat): nat
    requires bits >= 2
  {
    var s1 := XorShift(s, OpBits(bits) + RandomShift(s, bits));
    var s2 := Mod(s1 * mult, Pow2(bits));
    XorShift(s2, FinalShift(bits))
  }

  /** `rxs_m_xs_mixin::unoutput`. */
  function Unoutput(r: nat, unmult: nat, bits: nat): nat
    requires bits >= 2
  {
    var s2 := Unxorshift(r, bits, FinalShift(bits), bits);
    var s1 := Mod(s2 * unmult, Pow2(bits));
    Unxorshift(s1, bits, OpBits(bits) + RandomShift(s1, bits), bits)
  }

  /** `unoutput` inverts `output` on every state, for every width and every pair of mutually
      inverse multipliers. */
  lemma UnoutputInvertsOutput(s: nat, mult: nat, unmult: nat, bits: nat)
    requires bits >= 2 && s < Pow2(bits) && Congruent(mult * unmult, 1, Pow2(bits))
    ensures Unoutput(Output(s, mult, bits), unmult, bits) == s
  {
    hide Bit, And, Or, Xor, XorShift, Unxorshift, RandomShift, Pow2, Mod, Div;
    var k := OpBits(bits) + RandomShift(s, bits);
    var s1 := XorShift(s, k);
    var s2 := Mod(s1 * mult, Pow2(bits));
    UnxorshiftInverts(s2, bits, FinalShift(bits), bits);
    XorShiftBound(s, k, bits);
    UndoMultiply(s1, mult, unmult, bits);
    RandomShiftKept(s, k, bits);
    UnxorshiftInverts(s, bits, k, bits);
  }

  lemma UndoMultiply(s1: nat, mult: nat, unmult: nat, bits: nat)
    requires s1 < Pow2(bits) && Congruent(mult * unmult, 1, Pow2(bits))
    ensures Mod(Mod(s1 * mult, Pow2(bits)) * unmult, Pow2(bits)) == s1
  {
    hide Mod, Div, Pow2;
    var M := Pow2(bits);
    CongruentMod(s1 * mult, M);
    CongruentMul(Mod(s1 * mult, M), s1 * mult, unmult, unmult, M);
    MulAssoc(s1, mult, unmult);
    CongruentMul(s1, s1, mult * unmult, 1, M);
    ModSmall(s1, M);
  }

  lemma XorShiftBound(y: nat, k: nat, bits: nat)
    requires y < Pow2(bits)
    ensures XorShift(y, k) < Pow2(bits)
  {
    hide Xor, Pow2, Shr;
    ShrBelow(y, k);
    XorBound(y, Shr(y, k), bits);
  }

  lemma ShrBelow(y: nat, k: nat)
    ensures Shr(y, k) <= y
  {
    hide Pow2, Div, Mod;
    DivMod(y, Pow2(k));
    MulMonotone(1, Pow2(k), Shr(y, k));
  }

  /** A shift of at least `opbits` leaves the selecting bits alone. */
  lemma RandomShiftKept(s: nat, k: nat, bits: nat)
    requires bits >= 2 && s < Pow2(bits) && k >= OpBits(bits)
    ensures RandomShift(XorShift(s, k), bits) == RandomShift(s, bits)
  {
    hide Bit, And, XorShift, Shr, Pow2;
    var op := OpBits(bits);
    var t := XorShift(s, k);
    forall i: nat ensures Bit(RandomShift(t, bits), i) == Bit(RandomShift(s, bits), i) {
      LowBits(Shr(t, bits - op), op, i);
      LowBits(Shr(s, bits - op), op, i);
      BitShr(t, bits - op, i);
      BitShr(s, bits - op, i);
      BitXorShift(s, k, i + bits - op);
      BitAbove(s, bits, i + bits - op + k);
    }
    BitsDetermine(RandomShift(t, bits), RandomShift(s, bits));
  }

  /** The multiplier pairs of the source, by width. */
  function McgMultiplier(bits: nat): nat {
    if bits == 8 then 217 else if bits == 16 then 62169 else if bits == 32 then 277803737
    else if bits == 64 then 12605985483714917081
    else 17766728186571221404 * 0x1_0000_0000_0000_0000 + 12605985483714917081
  }

  function McgUnmultiplier(bits: nat): nat {
    if bits == 8 then 105 else if bits == 16 then 28009 else if bits == 32 then 2897767785
    else if bits == 64 then 15009553638781119849
    else 14422606686972528997 * 0x1_0000_0000_0000_0000 + 15009553638781119849
  }

  lemma MultiplierPairs(bits: nat)
    requires bits in {8, 16, 32, 64, 128}
    ensures Congruent(McgMultiplier(bits) * McgUnmultiplier(bits), 1, Pow2(bits))
  {
    hide Pow2, Congruent;
    WordSizes();
    CongruentBy(McgMultiplier(bits) * McgUnmultiplier(bits), 1,
                if bits == 8 then 89 else if bits == 16 then 26570 else if bits == 32 then 187431164
                else if bits == 64 then 10257106323558699623 else 256242532749265411604086694698165912274,
                Pow2(bits));
  }

  /** The round trip for the types the source defines constants for. */
  lemma OutputRoundTrip(s: nat, bits: nat)
    requires bits in {8, 16, 32, 64, 128} && s < Pow2(bits)
    ensures Unoutput(Output(s, McgMultiplier(bits), bits), McgUnmultiplier(bits), bits) == s
  {
    hide *;
    MultiplierPairs(bits);
    UnoutputInvertsOutput(s, McgMultiplier(bits), McgUnmultiplier(bits), bits);
  }

  // ----- What the permutation does to the bits

  /** Number of selecting bits, final shift and multiplier of each width. */
  ghost predicate Published(bits: nat, op: nat, last: nat, mult: nat) {
    || (bits == 8 && op == 2 && last == 6 && mult == 217)
    || (bits == 16 && op == 3 && last == 11 && mult == 62169)
    || (bits == 32 && op == 4 && last == 22 && mult == 277803737)
    || (bits == 64 && op == 5 && last == 43 && mult == 12605985483714917081)
    || (bits == 128 && op == 6 && last == 86 && mult == 327738287884841127335028083622016905945)
  }

  /** Bit i of y is bit i of x flipped by the bit k places higher. */
  ghost predicate Folded(x: nat, k: nat, y: nat) {
    forall i: nat :: Bit(y, i) == (Bit(x, i) != Bit(x, i + k))
  }

  lemma XorShiftFolds(x: nat, k: nat)
    ensures Folded(x, k, XorShift(x, k))
  {
    hide Bit, XorShift;
    forall i: nat ensures Bit(XorShift(x, k), i) == (Bit(x, i) != Bit(x, i + k)) {
      BitXorShift(x, k, i);
    }
  }

  /** There is one such number. */
  lemma FoldedUnique(x: nat, k: nat, y: nat, y': nat)
    requires Folded(x, k, y) && Folded(x, k, y')
    ensures y == y'
  {
    hide Bit;
    forall i: nat ensures Bit(y, i) == Bit(y', i) {
      assert Bit(y, i) == (Bit(x, i) != Bit(x, i + k));
    }
    BitsDetermine(y, y');
  }

  /** The selecting bits, read as a number, are the state divided by 2^(bits - op). */
  lemma SelectedShift(s: nat, bits: nat)
    requires bits >= 2 && s < Pow2(bits)
    ensures RandomShift(s, bits) == Div(s, Pow2(bits - OpBits(bits)))
  {
    hide And, Mod, Div, Pow2;
    var op := OpBits(bits);
    var q := Shr(s, bits - op);
    AndMask(q, op);
    Pow2Add(op, bits - op);
    DivMod(s, Pow2(bits - op));
    BelowProduct(q, Pow2(op), Pow2(bits - op), Mod(s, Pow2(bits - op)));
    ModSmall(q, Pow2(op));
  }

  lemma BelowProduct(q: nat, a: nat, b: nat, r: nat)
    requires b > 0 && q * b + r < a * b
    ensures q < a
  {
    if q >= a {
      MulMonotone(a, q, b);
    }
  }

  /** `output`, for the five widths: the state is folded by a shift its top bits select, multiplied
      modulo the word, and folded by two thirds of the width. */
  lemma OutputBits(s: nat, bits: nat, op: nat, last: nat, mult: nat) returns (x: nat, p: nat)
    requires Published(bits, op, last, mult) && s < Pow2(bits)
    ensures Folded(s, op + Div(s, Pow2(bits - op)), x)
    ensures p == Mod(x * mult, Pow2(bits))
    ensures Folded(p, last, Output(s, McgMultiplier(bits), bits))
  {
    hide Folded, Mod, Div, Pow2, XorShift, RandomShift;
    SelectedShift(s, bits);
    x := XorShift(s, op + Div(s, Pow2(bits - op)));
    XorShiftFolds(s, op + Div(s, Pow2(bits - op)));
    p := Mod(x * mult, Pow2(bits));
    XorShiftFolds(p, last);
  }

  /** The multipliers are truncations of the one of 128 bits. */
  lemma MultipliersTruncate(bits: nat)
    requires bits in {8, 16, 32, 64, 128}
    ensures McgMultiplier(bits) == Mod(327738287884841127335028083622016905945, Pow2(bits))
  {
    hide Mod, Div, Pow2;
    WordSizes();
    var whole := 327738287884841127335028083622016905945;
    var q := if bits == 8 then 1280227687050160653652453451648503538
             else if bits == 16 then 5000889402539690053329896295501966
             else if bits == 32 then 76307516518244782307890263298
             else if bits == 64 then 17766728186571221404 else 0;
    DivModUnique(whole, q, McgMultiplier(bits), Pow2(bits));
  }

  // ----- bounded_rand

  /** `threshold`: (max - min + 1 - bound) % bound, where max - min + 1 wraps to 0. */
  function Threshold(bound: nat, w: nat): nat
    requires 1 <= bound < Pow2(w)
  {
    Mod(Pow2(w) - bound, bound)
  }

  /** The generator outputs that are accepted and mapped to v. */
  ghost function Preimages(v: nat, bound: nat, w: nat): set<nat>
    requires 1 <= bound < Pow2(w)
  {
    set r: nat | r < Pow2(w) && Threshold(bound, w) <= r && Mod(r, bound) == v
  }

  /** `bounded_rand`: takes draws from the generator until one is accepted. The loop ends on every
      stream that has an acceptable draw, and only on those. */
  method BoundedRand(draws: nat -> nat, bound: nat, w: nat, ghost accepted: nat) returns (r: nat, used: nat)
    requires 1 <= bound < Pow2(w) && forall i: nat :: draws(i) < Pow2(w)
    requires draws(accepted) >= Threshold(bound, w)
    ensures used >= 1 && r < bound && draws(used - 1) in Preimages(r, bound, w)
    ensures forall i: nat :: i < used - 1 ==> draws(i) < Threshold(bound, w)
  {
    hide Mod, Div, Pow2;
    var threshold := Mod(Pow2(w) - bound, bound);
    used := 0;
    while true
      invariant used <= accepted && forall i: nat :: i < used ==> draws(i) < threshold
      decreases accepted - used
    {
      var x := draws(used);
      used := used + 1;
      if x >= threshold {
        return Mod(x, bound), used;
      }
    }
  }

  /** Every value below the bound is hit by the same number of generator outputs. */
  lemma BoundedRandUnbiased(v: nat, bound: nat, w: nat)
    requires 1 <= bound < Pow2(w) && v < bound
    ensures |Preimages(v, bound, w)| == Div(Pow2(w), bound)
  {
    hide Mod, Div, Pow2;
    var M, q := Pow2(w), Div(Pow2(w), bound);
    var th := Threshold(bound, w);
    DivMod(M, bound);
    MulSub(q, 1, bound);
    DivModUnique(M - bound, q - 1, Mod(M, bound), bound);
    var s := Arithmetic(th, v, bound, q);
    forall r: nat
      ensures r in Preimages(v, bound, w) <==> r in s
    {
      InBlocks(r, th, v, bound, q);
    }
    assert Preimages(v, bound, w) == s;
  }

  ghost predicate InClass(r: nat, th: nat, v: nat, bound: nat, q: nat)
    requires bound > 0
  {
    th <= r < th + q * bound && Mod(r, bound) == v
  }

  lemma InBlocks(r: nat, th: nat, v: nat, bound: nat, q: nat)
    requires bound > 0
    ensures InClass(r, th, v, bound, q) <==> th <= r < q * bound + th && Mod(r, bound) == v
  {
  }

  /** q blocks of `bound` consecutive numbers hold each residue exactly q times. */
  lemma {:induction false} Arithmetic(th: nat, v: nat, bound: nat, q: nat) returns (s: set<nat>)
    requires v < bound
    ensures |s| == q
    ensures forall r: nat :: r in s <==> InClass(r, th, v, bound, q)
    decreases q
  {
    hide Mod, Div;
    if q == 0 {
      s := {};
    } else {
      var s' := Arithmetic(th, v, bound, q - 1);
      MulSub(q, 1, bound);
      var x := InBlock(th + (q - 1) * bound, v, bound);
      s := s' + {x};
      forall r: nat
        ensures r in s <==> InClass(r, th, v, bound, q)
      {
        if r >= th + (q - 1) * bound && InClass(r, th, v, bound, q) {
          OneInBlock(th + (q - 1) * bound, r, x, bound);
        }
      }
    }
  }

  lemma InBlock(start: nat, v: nat, bound: nat) returns (x: nat)
    requires v < bound
    ensures start <= x < start + bound && Mod(x, bound) == v
  {
    hide Mod, Div;
    var q, r := Div(start, bound), Mod(start, bound);
    DivMod(start, bound);
    if r <= v {
      x := start + (v - r);
      DivModUnique(x, q, v, bound);
    } else {
      x := start + (v - r) + bound;
      MulSub(q, 1, bound);
      DivModUnique(x, q + 1, v, bound);
    }
  }

  lemma OneInBlock(start: nat, x: nat, y: nat, bound: nat)
    requires bound > 0 && start <= x < start + bound && start <= y < start + bound
    requires Mod(x, bound) == Mod(y, bound)
    ensures x == y
  {
    hide Mod, Div;
    DivMod(x, bound);
    DivMod(y, bound);
    MulSub(Div(x, bound), Div(y, bound), bound);
    SmallMultiple(Div(x, bound) - Div(y, bound), bound, x - y);
  }
}
