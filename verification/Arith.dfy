/** Integer facts shared by the models: powers of two and arithmetic modulo a positive number. */
module Arith {

  function Pow2(n: nat): (p: nat)
    ensures p > 0
    ensures n >= 1 ==> p % 2 == 0
  {
    if n == 0 then 1 else 2 * Pow2(n - 1)
  }

  lemma {:induction false} Pow2Add(m: nat, n: nat)
    ensures Pow2(m + n) == Pow2(m) * Pow2(n)
  {
    if m == 0 {
    } else {
      Pow2Add(m - 1, n);
      MulAssoc(2, Pow2(m - 1), Pow2(n));
    }
  }

  lemma {:induction false} Pow2Monotone(m: nat, n: nat)
    requires m <= n
    ensures Pow2(m) <= Pow2(n)
    ensures m < n ==> 2 * Pow2(m) <= Pow2(n)
  {
    if m < n {
      Pow2Monotone(m, n - 1);
    }
  }

  lemma Pow2Doubles(i: nat)
    ensures Pow2(i + 1) == 2 * Pow2(i)
  {
  }

  lemma Pow2Small()
    ensures Pow2(0) == 1 && Pow2(1) == 2 && Pow2(2) == 4
  {
  }

  lemma Pow2Eight()
    ensures Pow2(8) == 0x100
  {
  }

  lemma WordSizes()
    ensures Pow2(8) == 0x100 && Pow2(16) == 0x1_0000 && Pow2(32) == 0x1_0000_0000
    ensures Pow2(64) == 0x1_0000_0000_0000_0000
    ensures Pow2(128) == 0x1_0000_0000_0000_0000_0000_0000_0000_0000
  {
    hide Pow2;
    Pow2Eight();
    Pow2Add(8, 8);
    Pow2Add(16, 16);
    Pow2Add(32, 32);
    Pow2Add(64, 64);
  }

  lemma MulAssoc(a: int, b: int, c: int)
    ensures (a * b) * c == a * (b * c)
  {
  }

  lemma MulMonotone(a: int, b: int, c: int)
    requires a <= b && 0 <= c
    ensures a * c <= b * c
  {
  }

  lemma MulPositive(a: int, b: int)
    requires a > 0 && b > 0
    ensures a * b > 0
  {
  }

  /** Euclidean quotient and remainder by a number that is not a constant. Proofs that do not
      need to look inside hide these two and use the lemmas below. */
  function Div(a: int, m: nat): (q: int)
    requires m > 0
    ensures a >= 0 ==> 0 <= q
  {
    QuotientSign(a, m);
    a / m
  }

  function Mod(a: int, m: nat): (r: nat)
    requires m > 0
    ensures r < m
  {
    a % m
  }

  lemma QuotientSign(a: int, m: nat)
    requires m > 0
    ensures a >= 0 ==> a / m >= 0
  {
    var q := a / m;
    assert a == q * m + a % m;
    if q <= -1 {
      MulMonotone(q, -1, m);
    }
  }

  lemma DivMod(a: int, m: nat)
    requires m > 0
    ensures a == Div(a, m) * m + Mod(a, m)
  {
  }

  /** A product strictly between -m and m that is a multiple of m is zero. */
  lemma SmallMultiple(k: int, m: int, d: int)
    requires k * m == d && -m < d < m
    ensures k == 0
  {
    if k >= 1 {
      MulMonotone(1, k, m);
    } else if k <= -1 {
      MulMonotone(k, -1, m);
    }
  }

  lemma MulSub(a: int, b: int, m: int)
    ensures (a - b) * m == a * m - b * m
    ensures (a + b) * m == a * m + b * m
  {
  }

  /** Quotient and remainder are the only pair that recombines to the dividend. */
  lemma DivModUnique(a: int, q: int, r: int, m: nat)
    requires 0 <= r < m && a == q * m + r
    ensures Div(a, m) == q && Mod(a, m) == r
  {
    hide *;
    DivMod(a, m);
    MulSub(q, Div(a, m), m);
    SmallMultiple(q - Div(a, m), m, Mod(a, m) - r);
  }

  lemma ModSmall(a: int, m: nat)
    requires 0 <= a < m
    ensures Div(a, m) == 0 && Mod(a, m) == a
  {
    hide *;
    DivModUnique(a, 0, a, m);
  }

  /** a and b leave the same remainder modulo m. */
  predicate Congruent(a: int, b: int, m: nat)
    requires m > 0
  {
    Mod(a, m) == Mod(b, m)
  }

  lemma CongruentBy(a: int, b: int, k: int, m: nat)
    requires m > 0 && a == b + k * m
    ensures Congruent(a, b, m)
  {
    hide Div, Mod;
    DivMod(b, m);
    MulSub(Div(b, m), k, m);
    DivModUnique(a, Div(b, m) + k, Mod(b, m), m);
  }

  lemma CongruentWitness(a: int, b: int, m: nat) returns (k: int)
    requires m > 0 && Congruent(a, b, m)
    ensures a == b + k * m
  {
    hide Div, Mod;
    k := Div(a, m) - Div(b, m);
    DivMod(a, m);
    DivMod(b, m);
    MulSub(Div(a, m), Div(b, m), m);
  }

  lemma CongruentMod(a: int, m: nat)
    requires m > 0
    ensures Congruent(Mod(a, m), a, m)
  {
    hide Div, Mod;
    ModSmall(Mod(a, m), m);
  }

  lemma CongruentAdd(a: int, a': int, b: int, b': int, m: nat)
    requires m > 0 && Congruent(a, a', m) && Congruent(b, b', m)
    ensures Congruent(a + b, a' + b', m)
    ensures Congruent(a - b, a' - b', m)
  {
    hide *;
    var k := CongruentWitness(a, a', m);
    var l := CongruentWitness(b, b', m);
    MulSub(k, l, m);
    CongruentBy(a + b, a' + b', k + l, m);
    CongruentBy(a - b, a' - b', k - l, m);
  }

  lemma MulWitness(a: int, a': int, k: int, b: int, b': int, l: int, m: int)
    requires a == a' + k * m && b == b' + l * m
    ensures a * b == a' * b' + (a' * l + k * b) * m
  {
    calc {
      a * b;
      a' * b + (k * m) * b;
      a' * b' + a' * (l * m) + (k * m) * b;
      { MulAssoc(a', l, m); MulAssoc(k, m, b); MulAssoc(k, b, m); }
      a' * b' + (a' * l) * m + (k * b) * m;
      { MulSub(a' * l, k * b, m); }
      a' * b' + (a' * l + k * b) * m;
    }
  }

  lemma CongruentMul(a: int, a': int, b: int, b': int, m: nat)
    requires m > 0 && Congruent(a, a', m) && Congruent(b, b', m)
    ensures Congruent(a * b, a' * b', m)
  {
    hide *;
    var k := CongruentWitness(a, a', m);
    var l := CongruentWitness(b, b', m);
    MulWitness(a, a', k, b, b', l, m);
    CongruentBy(a * b, a' * b', a' * l + k * b, m);
  }

  lemma CongruentSmall(a: int, b: int, m: nat)
    requires m > 0 && Congruent(a, b, m) && 0 <= a < m && 0 <= b < m
    ensures a == b
  {
    hide Div, Mod;
    ModSmall(a, m);
    ModSmall(b, m);
  }

  /** Congruence modulo a product carries over to each factor. */
  lemma CongruentFactor(a: int, b: int, m: nat, n: nat)
    requires m > 0 && n > 0 && m * n > 0 && Congruent(a, b, m * n)
    ensures Congruent(a, b, m)
  {
    hide *;
    var k := CongruentWitness(a, b, m * n);
    MulAssoc(k, n, m);
    assert n * m == m * n;
    CongruentBy(a, b, k * n, m);
  }

  predicate Odd(x: int) {
    Congruent(x, 1, 2)
  }

  lemma Residues(x: int)
    ensures Odd(x) <==> x % 2 == 1
    ensures !Odd(x) ==> Congruent(x, 0, 2)
    ensures Odd(x) && !Congruent(x, 1, 4) ==> Congruent(x, 3, 4)
    ensures !Congruent(2, 0, 4) && !Congruent(2, 1, 2) && !Congruent(0, 1, 2) && Congruent(2, 0, 2)
  {
  }

  lemma OddTimesOdd(x: int, y: int)
    requires Odd(x) && Odd(y)
    ensures Odd(x * y)
  {
    hide Mod, Div;
    CongruentMul(x, 1, y, 1, 2);
  }

  lemma CongruentHalf(x: int, y: int)
    requires Congruent(x, y, 4)
    ensures Congruent(x, y, 2)
  {
    hide *;
    CongruentFactor(x, y, 2, 2);
  }
}
