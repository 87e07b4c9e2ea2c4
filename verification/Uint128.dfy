/** 128-bit unsigned integers made of four 32-bit words (base/pcg-random/pcg_uint128.hpp), as they
    are used where the compiler has no such type. */
module Uint128 {
  import opened Arith

  const W: nat := 0x1_0000_0000
  const W2: nat := 0x1_0000_0000_0000_0000
  const W3: nat := 0x1_0000_0000_0000_0000_0000_0000
  const W4: nat := 0x1_0000_0000_0000_0000_0000_0000_0000_0000

  type Word = x: int | 0 <= x < W

  datatype Wide = Wide(v3: Word, v2: Word, v1: Word, v0: Word) {
    /** The low and the high half. */
    function V01(): nat { v0 + v1 * W }
    function V23(): nat { v2 + v3 * W }

    function Value(): (n: nat)
      ensures n < W4
    {
      v0 + v1 * W + v2 * W2 + v3 * W3
    }

    function Words(): seq<Word> { [v0, v1, v2, v3] }
  }

  // ----- Words with carries

  function Carry(c: bool): (n: nat)
    ensures n <= 1
  {
    if c then 1 else 0
  }

  lemma NoCarry()
    ensures Carry(false) == 0
  {
  }

  /** The carry is noticed by comparing wrapped results. */
  function AddWithCarry(x: Word, y: Word, carryIn: bool): (r: (Word, bool))
    ensures r.0 + W * Carry(r.1) == x + y + Carry(carryIn)
  {
    var half := (y + Carry(carryIn)) % W;
    var result := (x + half) % W;
    (result, half < y || result < x)
  }

  function SubWithCarry(x: Word, y: Word, carryIn: bool): (r: (Word, bool))
    ensures r.0 - W * Carry(r.1) == x - y - Carry(carryIn)
  {
    var half := (y + Carry(carryIn)) % W;
    var result := (x - half) % W;
    (result, half < y || result > x)
  }

  /** Word sums linked by carries are the sum of the values. */
  lemma ChainedSums(a: Wide, b: Wide, r: Wide, c0: int, c1: int, c2: int, c3: int)
    requires r.v0 + W * c0 == a.v0 + b.v0
    requires r.v1 + W * c1 == a.v1 + b.v1 + c0
    requires r.v2 + W * c2 == a.v2 + b.v2 + c1
    requires r.v3 + W * c3 == a.v3 + b.v3 + c2
    ensures r.Value() + W4 * c3 == a.Value() + b.Value()
  {
  }

  function Plus(a: Wide, b: Wide): Wide {
    var (r0, c0) := AddWithCarry(a.v0, b.v0, false);
    var (r1, c1) := AddWithCarry(a.v1, b.v1, c0);
    var (r2, c2) := AddWithCarry(a.v2, b.v2, c1);
    var (r3, _) := AddWithCarry(a.v3, b.v3, c2);
    Wide(r3, r2, r1, r0)
  }

  lemma PlusValue(a: Wide, b: Wide)
    ensures Plus(a, b).Value() == Mod(a.Value() + b.Value(), W4)
  {
    hide AddWithCarry, Mod, Div, Wide.Value;
    var (_, c0) := AddWithCarry(a.v0, b.v0, false);
    var (_, c1) := AddWithCarry(a.v1, b.v1, c0);
    var (_, c2) := AddWithCarry(a.v2, b.v2, c1);
    var (_, c3) := AddWithCarry(a.v3, b.v3, c2);
    NoCarry();
    var r := Plus(a, b);
    ChainedSums(a, b, r, Carry(c0), Carry(c1), Carry(c2), Carry(c3));
    DivModUnique(a.Value() + b.Value(), Carry(c3), r.Value(), W4);
  }

  function Minus(a: Wide, b: Wide): Wide {
    var (r0, c0) := SubWithCarry(a.v0, b.v0, false);
    var (r1, c1) := SubWithCarry(a.v1, b.v1, c0);
    var (r2, c2) := SubWithCarry(a.v2, b.v2, c1);
    var (r3, _) := SubWithCarry(a.v3, b.v3, c2);
    Wide(r3, r2, r1, r0)
  }

  lemma MinusValue(a: Wide, b: Wide)
    ensures Minus(a, b).Value() == Mod(a.Value() - b.Value(), W4)
  {
    hide SubWithCarry, Mod, Div, Wide.Value;
    var (_, c0) := SubWithCarry(a.v0, b.v0, false);
    var (_, c1) := SubWithCarry(a.v1, b.v1, c0);
    var (_, c2) := SubWithCarry(a.v2, b.v2, c1);
    var (_, c3) := SubWithCarry(a.v3, b.v3, c2);
    NoCarry();
    var r := Minus(a, b);
    ChainedSums(r, b, a, Carry(c0), Carry(c1), Carry(c2), Carry(c3));
    DivModUnique(a.Value() - b.Value(), 0 - Carry(c3), r.Value(), W4);
  }

  /** By halves, the high one first. */
  predicate Less(a: Wide, b: Wide)
    ensures Less(a, b) <==> a.Value() < b.Value()
  {
    a.V23() < b.V23() || (a.V23() == b.V23() && a.V01() < b.V01())
  }

  // ----- Multiplication

  /** The halves of a double word. */
  function Lo(x: nat): Word { x % W }
  function Hi(x: nat): Word
    requires x < W2
  {
    x / W
  }

  lemma ProductFits(x: int, y: int, m: int)
    requires 0 <= x < m && 0 <= y < m
    ensures 0 <= x * y < m * m
  {
    MulMonotone(x, m, y);
    assert m * y < m * m by { MulMonotone(y, m - 1, m); }
  }

  lemma Halves(x: nat)
    requires x < W2
    ensures x == Lo(x) + Hi(x) * W
  {
  }

  /** A product of two words in a double word. */
  function Product(x: Word, y: Word): (p: nat)
    ensures p < W2
  {
    ProductFits(x, y, W);
    x * y
  }

  /** The low halves by words: four products at their places. */
  lemma LowProduct(a: Wide, b: Wide)
    ensures 0 <= a.V01() * b.V01() < W4
    ensures a.V01() * b.V01() == Product(a.v0, b.v0) + (Product(a.v1, b.v0) + Product(a.v0, b.v1)) * W + Product(a.v1, b.v1) * W2
  {
    hide Lo, Hi;
    Cross(a.v0, a.v1, b.v0, b.v1, W);
    ProductFits(a.V01(), b.V01(), W2);
  }

  lemma Cross(x: int, x': int, y: int, y': int, m: int)
    ensures (x + x' * m) * (y + y' * m) == x * y + (x' * y + x * y') * m + (x' * y') * (m * m)
  {
    calc {
      (x + x' * m) * (y + y' * m);
      x * y + x * (y' * m) + (x' * m) * y + (x' * m) * (y' * m);
      { MulAssoc(x, y', m); MulAssoc(x', m, y); MulAssoc(x', y, m); MulAssoc(x', m, y' * m); MulAssoc(m, y', m); }
      { MulAssoc(y', m, m); MulAssoc(x', y', m * m); }
      x * y + (x * y') * m + (x' * y) * m + (x' * y') * (m * m);
      { MulSub(x' * y, x * y', m); }
      x * y + (x' * y + x * y') * m + (x' * y') * (m * m);
    }
  }

  lemma NoWrap(v: int, p: int, k: int)
    requires v == p - k * W4 && 0 <= v < W4 && 0 <= p < W4
    ensures v == p
  {
  }

  /** The two products by the lowest word of b. */
  method StartChain(a0b0: nat, a1b0: nat) returns (r: Wide, ghost k: nat)
    requires a0b0 < W2 && a1b0 < W2
    ensures r.Value() == a0b0 + a1b0 * W - k * W4
  {
    hide AddWithCarry, Lo, Hi;
    Halves(a0b0); Halves(a1b0);
    var r0, r1 := Lo(a0b0), Hi(a0b0);
    var r2: Word, r3: Word := Hi(a1b0), 0;
    var (x1, c1) := AddWithCarry(r1, Lo(a1b0), false);
    var (x2, c2) := AddWithCarry(r2, 0, c1);
    var (x3, c3) := AddWithCarry(r3, 0, c2);
    NoCarry();
    r, k := Wide(x3, x2, x1, r0), Carry(c3);
  }

  /** The product a0 * b1: its high word first, then its low word with a fresh carry. */
  method AddCross(r: Wide, a0b1: nat) returns (s: Wide, ghost k: nat)
    requires a0b1 < W2
    ensures s.Value() == r.Value() + a0b1 * W - k * W4
  {
    hide AddWithCarry, Lo, Hi;
    Halves(a0b1);
    var (x2, c2) := AddWithCarry(r.v2, Hi(a0b1), false);
    var (x3, c3) := AddWithCarry(r.v3, 0, c2);
    var (y1, d1) := AddWithCarry(r.v1, Lo(a0b1), false);
    var (y2, d2) := AddWithCarry(x2, 0, d1);
    var (y3, d3) := AddWithCarry(x3, 0, d2);
    NoCarry();
    s, k := Wide(y3, y2, y1, r.v0), Carry(c3) + Carry(d3);
  }

  method AddHigh(r: Wide, a1b1: nat) returns (s: Wide, ghost k: nat)
    requires a1b1 < W2
    ensures s.Value() == r.Value() + a1b1 * W2 - k * W4
  {
    hide AddWithCarry, Lo, Hi;
    Halves(a1b1);
    var (x2, c2) := AddWithCarry(r.v2, Lo(a1b1), false);
    var (x3, c3) := AddWithCarry(r.v3, Hi(a1b1), c2);
    NoCarry();
    s, k := Wide(x3, x2, r.v1, r.v0), Carry(c3);
  }

  /** The carry chain gives the product of the low halves exactly. */
  method MultiplyLow(a: Wide, b: Wide) returns (r: Wide)
    ensures r.Value() == a.V01() * b.V01()
  {
    hide Product, Wide.Value;
    ghost var k, l, m;
    r, k := StartChain(Product(a.v0, b.v0), Product(a.v1, b.v0));
    r, l := AddCross(r, Product(a.v0, b.v1));
    r, m := AddHigh(r, Product(a.v1, b.v1));
    LowProduct(a, b);
    NoWrap(r.Value(), a.V01() * b.V01(), k + l + m);
  }


  /** Adding the cross products to the high half completes the product modulo 2^128. */
  lemma Completed(low: int, high: int, v23: int, a01: int, a23: int, b01: int, b23: int)
    requires low + high * W2 == a01 * b01
    requires Congruent(v23, high + (a01 * b23 + a23 * b01), W2)
    ensures Congruent(low + v23 * W2, (a01 + a23 * W2) * (b01 + b23 * W2), W4)
  {
    hide Congruent;
    var k := CongruentWitness(v23, high + (a01 * b23 + a23 * b01), W2);
    Cross(a01, a23, b01, b23, W2);
    var s := a23 * b01 + a01 * b23;
    var t := a23 * b23;
    assert low + v23 * W2 == (a01 * b01 + s * W2 + t * W4) + (k - t) * W4;
    CongruentBy(low + v23 * W2, (a01 + a23 * W2) * (b01 + b23 * W2), k - t, W4);
  }

  /** Sums and products of double words wrap. */
  lemma WrappedSum(high: int, x: int, y: int, m: nat)
    requires m > 0
    ensures Congruent(Mod(high + Mod(Mod(x, m) + Mod(y, m), m), m), high + (x + y), m)
  {
    hide Mod, Div;
    CongruentMod(x, m);
    CongruentMod(y, m);
    CongruentAdd(Mod(x, m), x, Mod(y, m), y, m);
    CongruentMod(Mod(x, m) + Mod(y, m), m);
    CongruentAdd(high, high, Mod(Mod(x, m) + Mod(y, m), m), x + y, m);
    CongruentMod(high + Mod(Mod(x, m) + Mod(y, m), m), m);
  }

  lemma ByHalves(a: Wide)
    ensures a.Value() == a.V01() + a.V23() * W2 && a.V01() < W2 && a.V23() < W2
  {
  }

  /** The product modulo 2^128. */
  method Multiply(a: Wide, b: Wide) returns (r: Wide)
    ensures r.Value() == Mod(a.Value() * b.Value(), W4)
  {
    hide Mod, Div, Congruent, Lo, Hi, Wide.Value, Wide.V01, Wide.V23;
    r := MultiplyLow(a, b);
    var cross := Mod(Mod(a.V01() * b.V23(), W2) + Mod(a.V23() * b.V01(), W2), W2);
    var v23 := Mod(r.V23() + cross, W2);
    ghost var was := r;
    r := Wide(Hi(v23), Lo(v23), r.v1, r.v0);
    WrappedSum(was.V23(), a.V01() * b.V23(), a.V23() * b.V01(), W2);
    SetHigh(was, v23);
    ByHalves(a); ByHalves(b); ByHalves(was); ByHalves(r);
    Completed(was.V01(), was.V23(), v23, a.V01(), a.V23(), b.V01(), b.V23());
    Reduced(r.Value(), a.Value() * b.Value());
  }

  lemma SetHigh(r: Wide, v23: nat)
    requires v23 < W2
    ensures Wide(Hi(v23), Lo(v23), r.v1, r.v0).V23() == v23
    ensures Wide(Hi(v23), Lo(v23), r.v1, r.v0).V01() == r.V01()
  {
    Halves(v23);
  }

  lemma Reduced(v: int, p: int)
    requires 0 <= v < W4 && Congruent(v, p, W4)
    ensures v == Mod(p, W4)
  {
    hide Mod, Div;
    ModSmall(v, W4);
  }
}
