/** The word-by-word shifts of 128-bit integers (base/pcg-random/pcg_uint128.hpp). */
module Uint128Shift {
  import opened Arith
  import opened Bits
  import opened Uint128

  function Place(n: nat): (p: nat)
    ensures p > 0
  {
    Pow2(32 * n)
  }

  /** The number in the n lowest words. */
  ghost function Low(w: seq<Word>, n: nat): int
    requires n <= |w|
  {
    if n == 0 then 0 else Low(w, n - 1) + w[n - 1] * Place(n - 1)
  }

  /** The number in the words from i up. */
  ghost function High(w: seq<Word>, i: nat): int
    requires i <= |w|
    decreases |w| - i
  {
    if i == |w| then 0 else w[i] + W * High(w, i + 1)
  }

  lemma PlaceNext(n: nat)
    ensures Place(n + 1) == W * Place(n)
  {
    hide Pow2;
    WordSizes();
    Pow2Add(32, 32 * n);
  }

  lemma PlaceSum(m: nat, n: nat)
    ensures Place(m + n) == Place(m) * Place(n)
  {
    hide Pow2;
    Pow2Add(32 * m, 32 * n);
  }

  lemma Places()
    ensures Place(0) == 1 && Place(1) == W && Place(2) == W2 && Place(3) == W3 && Place(4) == W4
  {
    hide Place;
    PlaceZero();
    PlaceNext(0); PlaceNext(1); PlaceNext(2); PlaceNext(3);
  }

  lemma PlaceZero()
    ensures Place(0) == 1
  {
  }

  lemma ValueLow(v: Wide)
    ensures v.Value() == Low(v.Words(), 4)
  {
    hide Place;
    Places();
    var w := v.Words();
    assert Low(w, 0) == 0;
    assert Low(w, 1) == v.v0;
    assert Low(w, 2) == Low(w, 1) + v.v1 * W;
    assert Low(w, 3) == Low(w, 2) + v.v2 * W2;
  }

  function FromWords(w: seq<Word>): (r: Wide)
    requires |w| == 4
    ensures r.Words() == w
  {
    Wide(w[3], w[2], w[1], w[0])
  }

  lemma {:induction false} LowFrame(w: seq<Word>, i: nat, x: Word, n: nat)
    requires n <= i < |w|
    ensures Low(w[i := x], n) == Low(w, n)
  {
    hide Place;
    if n > 0 {
      LowFrame(w, i, x, n - 1);
    }
  }

  lemma DigitBelow(x: int, p: int)
    requires 0 <= x < W && p > 0
    ensures 0 <= x * p <= W * p - p
  {
    MulMonotone(0, x, p);
    MulMonotone(x, W - 1, p);
  }

  lemma {:induction false} LowBound(w: seq<Word>, n: nat)
    requires n <= |w|
    ensures 0 <= Low(w, n) < Place(n)
  {
    hide Place;
    if n == 0 {
      PlaceZero();
    } else {
      LowBound(w, n - 1);
      PlaceNext(n - 1);
      DigitBelow(w[n - 1], Place(n - 1));
    }
  }

  lemma {:induction false} LowHigh(w: seq<Word>, n: nat)
    requires n <= |w|
    ensures Low(w, |w|) == Low(w, n) + High(w, n) * Place(n)
    decreases |w| - n
  {
    hide Place;
    if n < |w| {
      LowHigh(w, n + 1);
      PlaceNext(n);
      var p, h := Place(n), High(w, n + 1);
      MulSub(w[n], W * h, p);
      MulAssoc(W, h, p);
      MulAssoc(h, W, p);
    }
  }

  // ----- One word

  /** x << s in a 32-bit word. */
  function ShiftWord(x: Word, s: nat): Word {
    Mod(x * Pow2(s), W)
  }

  /** A word shifted left loses its s high bits, and keeps the others at their new place. */
  lemma SplitWord(w: Word, s: nat) returns (hi: nat, lo: nat)
    requires 0 < s < 32
    ensures Pow2(s) * Pow2(32 - s) == W
    ensures w == hi * Pow2(32 - s) + lo && lo < Pow2(32 - s) && hi < Pow2(s)
    ensures Shr(w, 32 - s) == hi && ShiftWord(w, s) == lo * Pow2(s)
  {
    hide Mod, Div, Pow2;
    var p, q := Pow2(s), Pow2(32 - s);
    WordSizes();
    Pow2Add(s, 32 - s);
    DivMod(w, q);
    hi, lo := Div(w, q), Mod(w, q);
    if hi >= p {
      MulMonotone(p, hi, q);
    }
    LowPart(w, hi, lo, p, q);
    DivModUnique(w * p, hi, lo * p, W);
  }

  lemma LowPart(w: int, hi: int, lo: int, p: int, q: int)
    requires w == hi * q + lo && 0 <= lo < q && p > 0 && p * q == W
    ensures w * p == hi * W + lo * p && 0 <= lo * p <= W - p
  {
    MulSub(hi * q, lo, p);
    MulAssoc(hi, q, p);
    assert q * p == W;
    MulMonotone(lo, q - 1, p);
    MulSub(q, 1, p);
  }

  /** One word of a left shift: what goes out is what the next word takes in. */
  lemma LeftWord(w: Word, s: nat, carry: nat)
    requires 0 < s < 32 && carry < Pow2(s)
    ensures Or(ShiftWord(w, s), carry) == w * Pow2(s) + carry - W * Shr(w, 32 - s)
    ensures 0 <= Or(ShiftWord(w, s), carry) < W && Shr(w, 32 - s) < Pow2(s)
  {
    hide Mod, Div, Pow2, Or, Shr, ShiftWord;
    var hi, lo := SplitWord(w, s);
    LowPart(w, hi, lo, Pow2(s), Pow2(32 - s));
    OrDisjoint(carry, lo, s);
  }

  // ----- Left shift

  ghost predicate Shifted(ra: seq<Word>, wa: seq<Word>, shiftdiv: nat, p: nat, at: nat, carry: nat) {
    && |ra| == 4 && |wa| == 4 && shiftdiv + at <= 4
    && Low(ra, shiftdiv + at) + carry * Place(shiftdiv + at) == Low(wa, at) * (p * Place(shiftdiv))
  }

  lemma LeftAlgebra(low: int, c: int, c': int, x: int, w: int, p: int, q: int, r: int, below: int)
    requires x == w * p + c - W * c'
    requires low + c * (q * r) == below * (p * q)
    ensures low + x * (q * r) + c' * (W * (q * r)) == (below + w * r) * (p * q)
  {
    var m := q * r;
    MulSub(w * p + c, W * c', m);
    MulSub(w * p, c, m);
    MulAssoc(W, c', m);
    MulAssoc(c', W, m);
    MulSub(below, w * r, p * q);
    calc {
      (w * p) * m;
      { MulAssoc(w, p, m); MulAssoc(p, q, r); }
      w * ((p * q) * r);
      { MulAssoc(w, r, p * q); }
      (w * r) * (p * q);
    }
  }

  lemma LeftStep(ra: seq<Word>, wa: seq<Word>, shiftdiv: nat, p: nat, at: nat, c: nat, x: Word, c': nat)
    requires Shifted(ra, wa, shiftdiv, p, at, c) && shiftdiv + at < 4
    requires x == wa[at] * p + c - W * c'
    ensures Shifted(ra[shiftdiv + at := x], wa, shiftdiv, p, at + 1, c')
  {
    hide Place;
    var out := shiftdiv + at;
    LowFrame(ra, out, x, out);
    PlaceNext(out);
    PlaceSum(shiftdiv, at);
    LeftAlgebra(Low(ra, out), c, c', x, wa[at], p, Place(shiftdiv), Place(at), Low(wa, at));
  }

  lemma LeftEnd(ra: seq<Word>, wa: seq<Word>, shiftdiv: nat, p: nat, c: nat)
    requires shiftdiv <= 4 && Shifted(ra, wa, shiftdiv, p, 4 - shiftdiv, c)
    ensures Low(ra, 4) == Mod(Low(wa, 4) * (p * Place(shiftdiv)), W4)
  {
    hide Place, Mod, Div;
    var at := 4 - shiftdiv;
    LowHigh(wa, at);
    PlaceSum(at, shiftdiv);
    Places();
    LowBound(ra, 4);
    var h, q := High(wa, at), Place(shiftdiv);
    MulSub(Low(wa, at), h * Place(at), p * q);
    calc {
      (h * Place(at)) * (p * q);
      { MulAssoc(h, Place(at), p * q); MulAssoc(Place(at), p, q); MulAssoc(p, Place(at), q); }
      h * (p * W4);
      { MulAssoc(h, p, W4); }
      (h * p) * W4;
    }
    MulSub(c, h * p, W4);
    DivModUnique(Low(wa, 4) * (p * q), c + h * p, Low(ra, 4), W4);
  }

  const ZEROS: seq<Word> := [0, 0, 0, 0]

  lemma {:induction false} LowZeros(n: nat)
    requires n <= 4
    ensures Low(ZEROS, n) == 0
  {
    hide Place;
    if n > 0 {
      LowZeros(n - 1);
    }
  }

  lemma LeftStart(wa: seq<Word>, shiftdiv: nat, p: nat)
    requires |wa| == 4 && shiftdiv <= 4
    ensures Shifted(ZEROS, wa, shiftdiv, p, 0, 0)
  {
    hide Place;
    LowZeros(shiftdiv);
  }

  /** The shift is a multiplication modulo 2^128, also past the width. */
  method ShiftLeft(v: Wide, shift: nat) returns (r: Wide)
    requires shift < 256
    ensures r.Value() == Mod(v.Value() * Pow2(shift), W4)
  {
    hide Place, Pow2, Mod, Div, Shifted, Or, Shr, ShiftWord, Low, High;
    var shiftdiv, shiftmod := shift / 32, shift % 32;
    var wa: seq<Word>, ra: seq<Word> := v.Words(), ZEROS;
    var out, at := shiftdiv, 0;
    ghost var p := Pow2(shiftmod);
    if shiftdiv <= 4 {
      LeftStart(wa, shiftdiv, p);
    }
    var carry := 0;
    if shiftmod != 0 {
      while out < 4
        invariant out == shiftdiv + at && (shiftdiv <= 4 ==> out <= 4) && |ra| == 4 && carry < p
        invariant if shiftdiv <= 4 then Shifted(ra, wa, shiftdiv, p, at, carry) else ra == ZEROS
      {
        LeftWord(wa[at], shiftmod, carry);
        var x: Word := Or(ShiftWord(wa[at], shiftmod), carry);
        LeftStep(ra, wa, shiftdiv, p, at, carry, x, Shr(wa[at], 32 - shiftmod));
        ra := ra[out := x];
        carry := Shr(wa[at], 32 - shiftmod);
        out, at := out + 1, at + 1;
      }
    } else {
      PowZero();
      while out < 4
        invariant out == shiftdiv + at && (shiftdiv <= 4 ==> out <= 4) && |ra| == 4
        invariant if shiftdiv <= 4 then Shifted(ra, wa, shiftdiv, p, at, 0) else ra == ZEROS
      {
        LeftStep(ra, wa, shiftdiv, p, at, 0, wa[at], 0);
        ra := ra[out := wa[at]];
        out, at := out + 1, at + 1;
      }
    }
    r := FromWords(ra);
    ValueLow(v);
    ValueLow(r);
    ShiftParts(shiftdiv, shiftmod);
    if shiftdiv <= 4 {
      LeftEnd(ra, wa, shiftdiv, p, carry);
    } else {
      LowZeros(4);
      ShiftedOut(v.Value(), shift);
    }
  }

  lemma PowZero()
    ensures Pow2(0) == 1
  {
  }

  lemma ShiftParts(shiftdiv: nat, shiftmod: nat)
    ensures Pow2(shiftmod) * Place(shiftdiv) == Pow2(32 * shiftdiv + shiftmod)
  {
    hide Pow2;
    Pow2Add(shiftmod, 32 * shiftdiv);
  }

  lemma ShiftedOut(v: nat, shift: nat)
    requires shift >= 128
    ensures Mod(v * Pow2(shift), W4) == 0
  {
    hide Pow2, Mod, Div;
    WordSizes();
    Pow2Add(shift - 128, 128);
    MulAssoc(v, Pow2(shift - 128), W4);
    DivModUnique(v * Pow2(shift), v * Pow2(shift - 128), 0, W4);
  }

  // ----- Right shift

  /** The words from at up hold p times what has been written, with l still to be passed down. */
  ghost predicate Dropped(ra: seq<Word>, wa: seq<Word>, out: nat, at: nat, p: nat, l: nat) {
    && |ra| == 4 && |wa| == 4 && out <= 4 && at <= 4 && l < p
    && High(wa, at) == High(ra, out) * p + l
  }

  lemma {:induction false} HighFrame(w: seq<Word>, i: nat, x: Word, k: nat)
    requires i < k <= |w|
    ensures High(w[i := x], k) == High(w, k)
    decreases |w| - k
  {
    if k < |w| {
      HighFrame(w, i, x, k + 1);
    }
  }

  lemma {:induction false} HighZeros(i: nat)
    requires i <= 4
    ensures High(ZEROS, i) == 0
    decreases 4 - i
  {
    if i < 4 {
      HighZeros(i + 1);
    }
  }

  lemma RightAlgebra(w: int, above: int, written: int, hi: int, lo: int, l: int, p: int, q: int, x: int)
    requires w == hi * p + lo && above == written * p + l && x == hi + l * q && q * p == W
    ensures w + W * above == (x + W * written) * p + lo
  {
    MulSub(hi + l * q, W * written, p);
    MulSub(hi, l * q, p);
    MulAssoc(l, q, p);
    MulAssoc(W, written, p);
  }

  lemma RightStep(ra: seq<Word>, wa: seq<Word>, out: nat, at: nat, p: nat, q: nat, l: nat, hi: nat, lo: nat, x: Word)
    requires Dropped(ra, wa, out, at, p, l) && out > 0 && at > 0
    requires wa[at - 1] == hi * p + lo && lo < p && q * p == W && x == hi + l * q
    ensures Dropped(ra[out - 1 := x], wa, out - 1, at - 1, p, lo)
  {
    HighFrame(ra, out - 1, x, out);
    RightAlgebra(wa[at - 1], High(wa, at), High(ra, out), hi, lo, l, p, q, x);
  }

  lemma RightEnd(ra: seq<Word>, wa: seq<Word>, shiftdiv: nat, p: nat, l: nat)
    requires shiftdiv <= 4 && Dropped(ra, wa, 0, shiftdiv, p, l)
    ensures Low(ra, 4) == Div(Low(wa, 4), p * Place(shiftdiv))
  {
    hide Place, Mod, Div;
    LowHigh(ra, 0);
    PlaceZero();
    LowHigh(wa, shiftdiv);
    LowBound(wa, shiftdiv);
    var r, low, q := Low(ra, 4), Low(wa, shiftdiv), Place(shiftdiv);
    assert Low(ra, 0) == 0;
    MulSub(r * p, l, q);
    MulAssoc(r, p, q);
    MulMonotone(l + 1, p, q);
    MulMonotone(0, l, q);
    MulSub(l, 1, q);
    MulPositive(p, q);
    DivModUnique(Low(wa, 4), r, l * q + low, p * q);
  }

  /** One word of a right shift: hi is kept, lo is passed down to the next word. */
  lemma RightWord(w: Word, s: nat, l: nat) returns (hi: nat, lo: nat)
    requires 0 < s < 32 && l < Pow2(s)
    ensures w == hi * Pow2(s) + lo && lo < Pow2(s)
    ensures Or(Shr(w, s), l * Pow2(32 - s)) == hi + l * Pow2(32 - s) < W
    ensures ShiftWord(w, 32 - s) == lo * Pow2(32 - s) && Pow2(32 - s) * Pow2(s) == W
  {
    hide Mod, Div, Pow2, Or, Shr, ShiftWord;
    assert 32 - (32 - s) == s;
    hi, lo := SplitWord(w, 32 - s);
    OrDisjoint(hi, l, 32 - s);
    Fitted(hi, l, Pow2(s), Pow2(32 - s));
  }

  lemma Fitted(hi: int, l: int, p: int, q: int)
    requires 0 <= hi < q && 0 <= l < p && p * q == W
    ensures 0 <= l * q && hi + l * q < W && q * p == W
  {
    MulMonotone(0, l, q);
    MulMonotone(l, p - 1, q);
    MulSub(p, 1, q);
  }

  /** The shift is a division; from 160 on the source leaves its array. */
  method ShiftRight(v: Wide, shift: nat) returns (r: Wide)
    requires shift < 160
    ensures r.Value() == Div(v.Value(), Pow2(shift))
  {
    hide Place, Pow2, Mod, Div, Dropped, Or, Shr, ShiftWord, Low, High;
    var shiftdiv, shiftmod := shift / 32, shift % 32;
    var wa: seq<Word>, ra: seq<Word> := v.Words(), ZEROS;
    var out, at := 4 - shiftdiv, 4;
    ghost var p, l := Pow2(shiftmod), 0;
    RightStart(wa, out, p);
    if shiftmod != 0 {
      var carry := 0;
      while out != 0
        invariant at == out + shiftdiv && 0 <= out <= 4 && |ra| == 4
        invariant l < p && carry == l * Pow2(32 - shiftmod)
        invariant Dropped(ra, wa, out, at, p, l)
        decreases out
      {
        out, at := out - 1, at - 1;
        ghost var hi, lo := RightWord(wa[at], shiftmod, l);
        var x: Word := Or(Shr(wa[at], shiftmod), carry);
        RightStep(ra, wa, out + 1, at + 1, p, Pow2(32 - shiftmod), l, hi, lo, x);
        ra := ra[out := x];
        carry := ShiftWord(wa[at], 32 - shiftmod);
        l := lo;
      }
    } else {
      PowZero();
      while out != 0
        invariant at == out + shiftdiv && 0 <= out <= 4 && |ra| == 4 && l == 0
        invariant Dropped(ra, wa, out, at, p, l)
        decreases out
      {
        out, at := out - 1, at - 1;
        RightStep(ra, wa, out + 1, at + 1, p, W, 0, wa[at], 0, wa[at]);
        ra := ra[out := wa[at]];
      }
    }
    r := FromWords(ra);
    ValueLow(v);
    ValueLow(r);
    ShiftParts(shiftdiv, shiftmod);
    RightEnd(ra, wa, shiftdiv, p, l);
  }

  lemma RightStart(wa: seq<Word>, out: nat, p: nat)
    requires |wa| == 4 && out <= 4 && p > 0
    ensures Dropped(ZEROS, wa, out, 4, p, 0)
  {
    HighZeros(out);
  }
}
