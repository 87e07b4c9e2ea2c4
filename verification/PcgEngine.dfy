/** The linear congruential core of the PCG engine (base/pcg-random/pcg_random.hpp): one step,
    jumping by any number of steps in logarithmic time, jumping back, and recovering the
    number of steps between two states. Words are w bits wide for any w; m is the multiplier,
    c the increment. Words are natural numbers below Pow2(w). */
module PcgEngine {
  import opened Arith
  import opened Bits

  function Bump(s: nat, m: nat, c: nat, w: nat): (r: nat)
    ensures r < Pow2(w)
  {
    Mod(s * m + c, Pow2(w))
  }

  /** The reference meaning of advancing by n: n single steps. */
  function Steps(s: nat, n: nat, m: nat, c: nat, w: nat): (r: nat)
    ensures s < Pow2(w) ==> r < Pow2(w)
  {
    if n == 0 then s else Bump(Steps(s, n - 1, m, c, w), m, c, w)
  }

  lemma BumpCongruent(s: nat, s': nat, m: nat, m': nat, c: nat, c': nat, w: nat)
    requires Congruent(s, s', Pow2(w)) && Congruent(m, m', Pow2(w)) && Congruent(c, c', Pow2(w))
    ensures Bump(s, m, c, w) == Bump(s', m', c', w)
  {
    hide Mod, Div;
    CongruentMul(s, s', m, m', Pow2(w));
    CongruentAdd(s * m, s' * m', c, c', Pow2(w));
  }

  lemma {:induction false} StepsCongruent(s: nat, n: nat, m: nat, m': nat, c: nat, c': nat, w: nat)
    requires Congruent(m, m', Pow2(w)) && Congruent(c, c', Pow2(w))
    ensures Steps(s, n, m, c, w) == Steps(s, n, m', c', w)
    decreases n
  {
    hide Bump, Mod, Div;
    if n > 0 {
      StepsCongruent(s, n - 1, m, m', c, c', w);
      var x := Steps(s, n - 1, m, c, w);
      BumpCongruent(x, x, m, m', c, c', w);
    }
  }

  /** Advances compose. */
  lemma {:induction false} StepsCompose(s: nat, a: nat, b: nat, m: nat, c: nat, w: nat)
    ensures Steps(Steps(s, a, m, c, w), b, m, c, w) == Steps(s, a + b, m, c, w)
    decreases b
  {
    hide Bump;
    if b > 0 {
      StepsCompose(s, a, b - 1, m, c, w);
    }
  }

  lemma BumpTwice(x: nat, m: nat, c: nat, w: nat)
    ensures Bump(Bump(x, m, c, w), m, c, w) == Bump(x, m * m, (m + 1) * c, w)
  {
    hide Mod, Div;
    var y := x * m + c;
    CongruentMod(y, Pow2(w));
    BumpCongruent(Mod(y, Pow2(w)), y, m, m, c, c, w);
    TwiceAlgebra(x, m, c);
  }

  lemma TwiceAlgebra(x: int, m: int, c: int)
    ensures (x * m + c) * m + c == x * (m * m) + (m + 1) * c
  {
    MulAssoc(x, m, m);
  }

  lemma {:induction false} StepsDouble(x: nat, k: nat, m: nat, c: nat, w: nat)
    ensures Steps(x, 2 * k, m, c, w) == Steps(x, k, m * m, (m + 1) * c, w)
    decreases k
  {
    hide Bump;
    if k > 0 {
      StepsDouble(x, k - 1, m, c, w);
      BumpTwice(Steps(x, 2 * k - 2, m, c, w), m, c, w);
      assert Steps(x, 2 * k, m, c, w) == Bump(Steps(x, 2 * k - 1, m, c, w), m, c, w);
    }
  }

  /** `advance`: the loop behind every jump (Brown's arbitrary-stride method). */
  method Advance(state: nat, delta: nat, mult: nat, plus: nat, w: nat) returns (r: nat)
    requires state < Pow2(w) && delta < Pow2(w) && mult < Pow2(w) && plus < Pow2(w)
    ensures r == Steps(state, delta, mult, plus, w)
  {
    hide Bump, Steps;
    var accMult, accPlus := Mod(1, Pow2(w)), 0;
    var curMult, curPlus := mult, plus;
    var d := delta;
    BumpIdentity(state, w);
    while d > 0
      invariant Steps(state, delta, mult, plus, w)
             == Steps(Bump(state, accMult, accPlus, w), d, curMult, curPlus, w)
    {
      ghost var at := Bump(state, accMult, accPlus, w);
      if d % 2 == 1 {
        BumpBump(state, accMult, accPlus, curMult, curPlus, w);
        StepsCompose(at, 1, d - 1, curMult, curPlus, w);
        StepsOne(at, curMult, curPlus, w);
        accMult := Mod(accMult * curMult, Pow2(w));
        accPlus := Mod(accPlus * curMult + curPlus, Pow2(w));
        at := Bump(state, accMult, accPlus, w);
      }
      SquareStep(at, d / 2, curMult, curPlus, w);
      curPlus := Mod((curMult + 1) * curPlus, Pow2(w));
      curMult := Mod(curMult * curMult, Pow2(w));
      d := d / 2;
    }
    StepsNone(Bump(state, accMult, accPlus, w), curMult, curPlus, w);
    r := Bump(state, accMult, accPlus, w);
  }

  lemma StepsNone(x: nat, m: nat, c: nat, w: nat)
    ensures Steps(x, 0, m, c, w) == x
  {
  }

  lemma StepsOne(x: nat, m: nat, c: nat, w: nat)
    ensures Steps(x, 1, m, c, w) == Bump(x, m, c, w)
  {
    hide Bump;
    StepsNone(x, m, c, w);
  }

  lemma BumpIdentity(s: nat, w: nat)
    requires s < Pow2(w)
    ensures Bump(s, Mod(1, Pow2(w)), 0, w) == s
  {
    hide Mod, Div;
    CongruentMod(1, Pow2(w));
    BumpCongruent(s, s, Mod(1, Pow2(w)), 1, 0, 0, w);
    ModSmall(s, Pow2(w));
  }

  /** One more step of the generator (m, c) after the accumulated map (am, ap). */
  lemma BumpBump(s: nat, am: nat, ap: nat, m: nat, c: nat, w: nat)
    ensures Bump(s, Mod(am * m, Pow2(w)), Mod(ap * m + c, Pow2(w)), w) == Bump(Bump(s, am, ap, w), m, c, w)
  {
    hide Mod, Div;
    var M := Pow2(w);
    CongruentMod(am * m, M);
    CongruentMod(ap * m + c, M);
    BumpCongruent(s, s, Mod(am * m, M), am * m, Mod(ap * m + c, M), ap * m + c, w);
    CongruentMod(s * am + ap, M);
    BumpCongruent(Mod(s * am + ap, M), s * am + ap, m, m, c, c, w);
    MulAssoc(s, am, m);
    MulSub(s * am, ap, m);
  }

  lemma SquareStep(x: nat, k: nat, m: nat, c: nat, w: nat)
    ensures Steps(x, 2 * k, m, c, w)
         == Steps(x, k, Mod(m * m, Pow2(w)), Mod((m + 1) * c, Pow2(w)), w)
  {
    hide *;
    StepsDouble(x, k, m, c, w);
    CongruentMod(m * m, Pow2(w));
    CongruentMod((m + 1) * c, Pow2(w));
    StepsCongruent(x, k, Mod(m * m, Pow2(w)), m * m, Mod((m + 1) * c, Pow2(w)), (m + 1) * c, w);
  }

  // ----- Repeated squaring, before reduction modulo 2^w

  /** The multiplier after i squarings: m^(2^i). */
  ghost function MultAt(m: nat, i: nat): nat {
    if i == 0 then m else MultAt(m, i - 1) * MultAt(m, i - 1)
  }

  /** The increment that goes with it. */
  ghost function PlusAt(m: nat, c: nat, i: nat): nat {
    if i == 0 then c else (MultAt(m, i - 1) + 1) * PlusAt(m, c, i - 1)
  }

  /** k steps of the i-th squared generator are 2^i * k steps of the generator. */
  lemma {:induction false} StepsByPower(x: nat, k: nat, i: nat, m: nat, c: nat, w: nat)
    ensures Steps(x, Pow2(i) * k, m, c, w) == Steps(x, k, MultAt(m, i), PlusAt(m, c, i), w)
    decreases i
  {
    hide Steps;
    if i > 0 {
      StepsByPower(x, 2 * k, i - 1, m, c, w);
      StepsDouble(x, k, MultAt(m, i - 1), PlusAt(m, c, i - 1), w);
      MulAssoc(Pow2(i - 1), 2, k);
    }
  }

  /** An odd multiplier tends to 1 and the increment to 0, one more bit per squaring. */
  lemma {:induction false} SquaringVanishes(m: nat, c: nat, i: nat) returns (a: int, b: int)
    requires Odd(m)
    ensures MultAt(m, i) == 1 + 2 * Pow2(i) * a && PlusAt(m, c, i) == Pow2(i) * b
    decreases i
  {
    if i == 0 {
      a := CongruentWitness(m, 1, 2);
      b := c;
    } else {
      var a', b' := SquaringVanishes(m, c, i - 1);
      var p := Pow2(i - 1);
      a, b := a' + p * a' * a', (1 + p * a') * b';
      SquareOfOne(2 * p * a');
      VanishAlgebra(p, a', b');
    }
  }

  lemma SquareOfOne(x: int)
    ensures (1 + x) * (1 + x) == 1 + 2 * x + x * x
  {
  }

  lemma VanishAlgebra(p: int, a: int, b: int)
    ensures 1 + 2 * (2 * p * a) + (2 * p * a) * (2 * p * a) == 1 + 2 * (2 * p) * (a + p * a * a)
    ensures (1 + 2 * p * a + 1) * (p * b) == (2 * p) * ((1 + p * a) * b)
  {
    var x := p * a;
    assert (2 * p * a) * (2 * p * a) == 4 * (x * x);
    assert p * (p * a * a) == x * x;
    assert 2 * (2 * p) * (a + p * a * a) == 4 * x + 4 * (x * x);
    assert (1 + 2 * p * a + 1) * (p * b) == 2 * (1 + x) * (p * b);
    assert (1 + x) * (p * b) == p * ((1 + x) * b);
  }

  /** Every odd-multiplier generator returns to its state after 2^w steps. */
  lemma FullCycle(s: nat, m: nat, c: nat, w: nat)
    requires s < Pow2(w) && Odd(m)
    ensures Steps(s, Pow2(w), m, c, w) == s
  {
    hide Steps, Congruent, Div, Mod, Pow2, MultAt, PlusAt;
    var M := Pow2(w);
    StepsByPower(s, 1, w, m, c, w);
    assert Pow2(w) * 1 == Pow2(w);
    var a, b := SquaringVanishes(m, c, w);
    var m', c' := MultAt(m, w), PlusAt(m, c, w);
    assert 2 * M * a == (2 * a) * M && M * b == b * M;
    CongruentBy(m', 1, 2 * a, M);
    CongruentBy(c', 0, b, M);
    StepsOne(s, m', c', w);
    BumpCongruent2(s, m', 1, c', 0, w);
    ModSmall(s, M);
  }

  /** Step by step the reduced constants may be used instead of the unreduced ones. */
  lemma BumpCongruent2(s: nat, m: nat, m': nat, c: nat, c': nat, w: nat)
    requires Congruent(m, m', Pow2(w)) && Congruent(c, c', Pow2(w))
    ensures Bump(s, m, c, w) == Bump(s, m', c', w)
  {
    hide Bump, Mod, Div;
    BumpCongruent(s, s, m, m', c, c', w);
  }

  /** -delta in w-bit arithmetic. */
  function Negate(delta: nat, w: nat): (r: nat)
    requires delta < Pow2(w)
    ensures r < Pow2(w) && (r + delta == Pow2(w) || r + delta == 0)
  {
    if delta == 0 then 0 else Pow2(w) - delta
  }

  /** Jumping back by n undoes jumping forward by n, for every state and every n, exactly
      when the multiplier is odd. */
  lemma BackstepUndoesAdvanceIffOdd(m: nat, c: nat, w: nat)
    requires w >= 1
    ensures Odd(m) <==> forall s: nat, n: nat | s < Pow2(w) && n < Pow2(w) ::
        Steps(Steps(s, n, m, c, w), Negate(n, w), m, c, w) == s
  {
    hide Steps;
    if Odd(m) {
      forall s: nat, n: nat | s < Pow2(w) && n < Pow2(w)
        ensures Steps(Steps(s, n, m, c, w), Negate(n, w), m, c, w) == s
      {
        BackstepUndoesAdvance(s, n, m, c, w);
      }
    } else {
      EvenCollides(m, c, w);
      var h, back := Pow2(w - 1), Negate(1, w);
      assert Steps(Steps(0, 1, m, c, w), back, m, c, w) != 0
          || Steps(Steps(h, 1, m, c, w), back, m, c, w) != h;
    }
  }

  /** With an even multiplier 0 and 2^(w-1) have the same successor. */
  lemma EvenCollides(m: nat, c: nat, w: nat)
    requires w >= 1 && !Odd(m)
    ensures 0 < Pow2(w - 1) < Pow2(w) && Steps(Pow2(w - 1), 1, m, c, w) == Steps(0, 1, m, c, w)
  {
    hide Div, Mod;
    var h := Pow2(w - 1);
    StepsOne(h, m, c, w);
    StepsOne(0, m, c, w);
    Residues(m);
    EvenTimes(h, m);
    CongruentBy(h * m + c, c, m / 2, Pow2(w));
  }

  lemma EvenTimes(h: int, m: int)
    requires m % 2 == 0
    ensures h * m == (m / 2) * (2 * h)
  {
    var k := m / 2;
    assert h * (2 * k) == k * (2 * h);
  }

  lemma BackstepUndoesAdvance(s: nat, n: nat, m: nat, c: nat, w: nat)
    requires s < Pow2(w) && n < Pow2(w) && Odd(m)
    ensures Steps(Steps(s, n, m, c, w), Negate(n, w), m, c, w) == s
  {
    hide Steps;
    StepsCompose(s, n, Negate(n, w), m, c, w);
    StepsNone(s, m, c, w);
    if n > 0 {
      FullCycle(s, m, c, w);
    }
  }

  /** Advances compose by adding their lengths in w-bit arithmetic, for every state and all
      lengths, exactly when the multiplier is odd. */
  lemma AdvancesComposeIffOdd(m: nat, c: nat, w: nat)
    requires w >= 1
    ensures Odd(m) <==> forall s: nat, a: nat, b: nat | s < Pow2(w) && a < Pow2(w) && b < Pow2(w) ::
        Steps(Steps(s, a, m, c, w), b, m, c, w) == Steps(s, Mod(a + b, Pow2(w)), m, c, w)
  {
    hide Steps, Mod, Div, Odd;
    if Odd(m) {
      forall s: nat, a: nat, b: nat | s < Pow2(w) && a < Pow2(w) && b < Pow2(w)
        ensures Steps(Steps(s, a, m, c, w), b, m, c, w) == Steps(s, Mod(a + b, Pow2(w)), m, c, w)
      {
        AdvancesCompose(s, a, b, m, c, w);
      }
    } else {
      EvenCollides(m, c, w);
      var h, b := Pow2(w - 1), Pow2(w) - 1;
      DivModUnique(1 + b, 1, 0, Pow2(w));
      StepsNone(0, m, c, w);
      StepsNone(h, m, c, w);
      assert Steps(Steps(0, 1, m, c, w), b, m, c, w) != Steps(0, Mod(1 + b, Pow2(w)), m, c, w)
          || Steps(Steps(h, 1, m, c, w), b, m, c, w) != Steps(h, Mod(1 + b, Pow2(w)), m, c, w);
    }
  }

  lemma AdvancesCompose(s: nat, a: nat, b: nat, m: nat, c: nat, w: nat)
    requires s < Pow2(w) && a < Pow2(w) && b < Pow2(w) && Odd(m)
    ensures Steps(Steps(s, a, m, c, w), b, m, c, w) == Steps(s, Mod(a + b, Pow2(w)), m, c, w)
  {
    hide Steps, Mod, Div, Odd;
    var M := Pow2(w);
    StepsCompose(s, a, b, m, c, w);
    if a + b < M {
      ModSmall(a + b, M);
    } else {
      DivModUnique(a + b, 1, a + b - M, M);
      FullCycle(s, m, c, w);
      StepsCompose(s, M, a + b - M, m, c, w);
    }
  }

  // ----- Distance

  /** The lowest bit that changes: bit 0, or bit 2 for a multiplicative generator, whose
      increment is 0 and whose two low bits are fixed. */
  function LowBit(mcg: bool): nat {
    if mcg then 2 else 0
  }

  /** What the stream mixins and the default multipliers provide. */
  predicate GoodConstants(mcg: bool, m: nat, c: nat) {
    if mcg then Congruent(m, 5, 8) && c == 0 else Congruent(m, 1, 4) && Odd(c)
  }

  /** The states a multiplicative generator can hold are odd and share their two low bits. */
  predicate SameClass(mcg: bool, s: nat, t: nat) {
    mcg ==> Odd(s) && Congruent(s, t, 4)
  }

  /** One step of the j-th squared generator adds an odd multiple of bit j + LowBit. */
  lemma {:induction false} SquaringFlips(mcg: bool, m: nat, c: nat, j: nat) returns (a: int, b: int)
    requires GoodConstants(mcg, m, c)
    ensures MultAt(m, j) == 1 + 4 * Pow2(j) * a && PlusAt(m, c, j) == Pow2(j) * b
    ensures if mcg then Odd(a) && b == 0 else Odd(b)
    decreases j
  {
    hide Pow2, MultAt, PlusAt, Mod, Div;
    Unfold(m, c, j);
    if j == 0 {
      Pow2Small();
      b := c;
      if mcg {
        var k := CongruentWitness(m, 5, 8);
        a := 1 + 2 * k;
        CongruentBy(a, 1, k, 2);
      } else {
        a := CongruentWitness(m, 1, 4);
      }
    } else {
      var a', b' := SquaringFlips(mcg, m, c, j - 1);
      var p := Pow2(j - 1);
      a, b := a' + 2 * (p * a' * a'), b' + 2 * (p * a' * b');
      SquareOfOne(4 * p * a');
      FlipAlgebra(p, a', b');
      CongruentBy(a, a', p * a' * a', 2);
      CongruentBy(b, b', p * a' * b', 2);
      if mcg {
        assert p * a' * b' == 0;
      }
    }
  }

  lemma Unfold(m: nat, c: nat, j: nat)
    ensures j == 0 ==> MultAt(m, j) == m && PlusAt(m, c, j) == c
    ensures j > 0 ==> MultAt(m, j) == MultAt(m, j - 1) * MultAt(m, j - 1)
    ensures j > 0 ==> PlusAt(m, c, j) == (MultAt(m, j - 1) + 1) * PlusAt(m, c, j - 1)
    ensures j > 0 ==> Pow2(j) == 2 * Pow2(j - 1)
  {
  }

  lemma FlipAlgebra(p: int, a: int, b: int)
    ensures 1 + 2 * (4 * p * a) + (4 * p * a) * (4 * p * a) == 1 + 4 * (2 * p) * (a + 2 * (p * a * a))
    ensures (1 + 4 * p * a + 1) * (p * b) == (2 * p) * (b + 2 * (p * a * b))
  {
    var x := p * a;
    assert (4 * p * a) * (4 * p * a) == 16 * (x * x);
    assert p * (p * a * a) == x * x;
    assert 4 * (2 * p) * (a + 2 * (p * a * a)) == 8 * x + 16 * (x * x);
    assert (1 + 4 * p * a + 1) * (p * b) == 2 * (p * b) + 4 * (x * (p * b));
    assert x * (p * b) == p * (p * a * b);
  }

  lemma FlipsBit(mcg: bool, x: nat, m: nat, c: nat, j: nat, w: nat)
    requires GoodConstants(mcg, m, c) && (mcg ==> Odd(x))
    requires j + LowBit(mcg) < w
    ensures Congruent(Bump(x, MultAt(m, j), PlusAt(m, c, j), w), x + Pow2(j + LowBit(mcg)),
                      Pow2(j + LowBit(mcg) + 1))
  {
    hide Div, Mod, MultAt, PlusAt, Pow2;
    var a, b := SquaringFlips(mcg, m, c, j);
    var m', c' := MultAt(m, j), PlusAt(m, c, j);
    var i := j + LowBit(mcg);
    ReduceTo(x * m' + c', i + 1, w);
    Pow2Doubles(i);
    if mcg {
      Pow2Doubles(j);
      Pow2Doubles(j + 1);
      OddTimesOdd(x, a);
      var k := McgFlip(x, Pow2(j), a);
      CongruentBy(x * m' + c', x + Pow2(i), k, Pow2(i + 1));
    } else {
      var k := LcgFlip(x, Pow2(j), a, b);
      CongruentBy(x * m' + c', x + Pow2(i), k, Pow2(i + 1));
    }
  }

  lemma McgFlip(x: int, p: int, a: int) returns (k: int)
    requires Odd(x * a)
    ensures x * (1 + 4 * p * a) == x + 4 * p + k * (2 * (4 * p))
  {
    hide Mod, Div;
    k := CongruentWitness(x * a, 1, 2);
    var y := x * a;
    assert x * (4 * p * a) == (4 * p) * y;
    assert (4 * p) * (2 * k + 1) == k * (2 * (4 * p)) + 4 * p;
  }

  lemma LcgFlip(x: int, p: int, a: int, b: int) returns (k: int)
    requires Odd(b)
    ensures x * (1 + 4 * p * a) + p * b == x + p + k * (2 * p)
  {
    hide Mod, Div;
    var y := x * a;
    var h := CongruentWitness(b, 1, 2);
    k := 2 * y + h;
    assert x * (4 * p * a) == (2 * y) * (2 * p);
    assert p * b == h * (2 * p) + p;
    MulSub(2 * y, h, 2 * p);
  }

  /** Reducing modulo 2^w keeps the value modulo any smaller power of two. */
  lemma ReduceTo(y: nat, i: nat, w: nat)
    requires i <= w
    ensures Congruent(Mod(y, Pow2(w)), y, Pow2(i))
  {
    hide Mod, Div, Pow2;
    CongruentMod(y, Pow2(w));
    Pow2Add(i, w - i);
    CongruentFactor(Mod(y, Pow2(w)), y, Pow2(i), Pow2(w - i));
  }

  /** `distance`: finds the number of steps one bit at a time. `passes` counts loop passes. */
  method Distance(mcg: bool, state: nat, newstate: nat, mult: nat, plus: nat, mask: nat, w: nat)
    returns (d: nat, ghost passes: nat)
    requires state < Pow2(w) && newstate < Pow2(w) && mult < Pow2(w) && plus < Pow2(w) && mask < Pow2(w)
    requires w >= LowBit(mcg)
    requires GoodConstants(mcg, mult, plus) && SameClass(mcg, state, newstate)
    ensures passes <= w - LowBit(mcg)
    ensures d < Pow2(w - LowBit(mcg))
    ensures And(Steps(state, d, mult, plus, w), mask) == And(newstate, mask)
    ensures mask == Pow2(w) - 1 ==> Steps(state, d, mult, plus, w) == newstate
  {
    hide Mod, Div, Pow2, And, Or, Bump, Steps, MultAt, PlusAt, Congruent;
    var M := Pow2(w);
    var theBit := Mod(if mcg then 4 else 1, M);
    var cur, curMult, curPlus := state, mult, plus;
    var distance := 0;
    ghost var low := LowBit(mcg);
    ghost var n: nat := 0;   // the steps taken so far: distance without its unused low bits
    passes := 0;
    Start(mcg, state, newstate, mult, plus, w);
    while And(cur, mask) != And(newstate, mask)
      invariant passes + low <= w
      invariant theBit == Mod(Pow2(passes + low), M)
      invariant cur < M && cur == Steps(state, n, mult, plus, w)
      invariant Congruent(cur, newstate, Pow2(passes + low))
      invariant SameClass(mcg, cur, newstate)
      invariant n < Pow2(passes) && distance == Pow2(low) * n
      invariant Congruent(curMult, MultAt(mult, passes), M) && Congruent(curPlus, PlusAt(mult, plus, passes), M)
      decreases w - passes
    {
      ghost var i := passes + low;
      NotYetEqual(cur, newstate, mask, i, w);
      TheBit(cur, newstate, i, w);
      assert theBit == Pow2(i);
      if And(cur, theBit) != And(newstate, theBit) {
        JumpBy(state, n, passes, cur, curMult, curPlus, mult, plus, w);
        FixBit(mcg, cur, newstate, passes, curMult, curPlus, mult, plus, w);
        SetBit(distance, n, passes, low);
        cur := Bump(cur, curMult, curPlus, w);
        distance := Or(distance, theBit);
        n := n + Pow2(passes);
      } else {
        BitAgrees(cur, newstate, i);
      }
      Pow2Doubles(passes);
      Aligned(cur, newstate, i);
      assert And(cur, theBit) == And(newstate, theBit);   // the assertion in the source
      theBit := Mod(2 * theBit, M);
      Pow2Doubles(i);
      SquareCongruent(mult, plus, passes, curMult, curPlus, M);
      curPlus := Mod((curMult + 1) * curPlus, M);
      curMult := Mod(curMult * curMult, M);
      passes := passes + 1;
    }
    d := if mcg then distance / 4 else distance;
    Pow2Small();
    Pow2Monotone(passes, w - low);
    FullMask(cur, newstate, mask, w);
  }

  lemma Start(mcg: bool, s: nat, t: nat, m: nat, c: nat, w: nat)
    requires SameClass(mcg, s, t)
    ensures Congruent(s, t, Pow2(LowBit(mcg))) && Pow2(LowBit(mcg)) == (if mcg then 4 else 1)
    ensures Steps(s, 0, m, c, w) == s && Pow2(0) == 1
    ensures MultAt(m, 0) == m && PlusAt(m, c, 0) == c
    ensures Congruent(m, m, Pow2(w)) && Congruent(c, c, Pow2(w))
  {
    assert Pow2(2) == 4;
    hide Mod, Div;
    ModOne(s, t);
  }

  lemma TheBit(cur: nat, t: nat, i: nat, w: nat)
    requires i < w
    ensures Mod(Pow2(i), Pow2(w)) == Pow2(i)
    ensures And(cur, Pow2(i)) == And(t, Pow2(i)) <==> Bit(cur, i) == Bit(t, i)
  {
    hide *;
    Pow2Monotone(i, w);
    ModSmall(Pow2(i), Pow2(w));
    AndPow2(cur, i);
    AndPow2(t, i);
  }

  lemma BitAgrees(x: nat, t: nat, i: nat)
    requires Congruent(x, t, Pow2(i)) && And(x, Pow2(i)) == And(t, Pow2(i))
    ensures Congruent(x, t, Pow2(i + 1))
  {
    hide And, Mod, Div, Bit, Pow2;
    AndPow2(x, i);
    AndPow2(t, i);
    BitSplit(x, i);
    BitSplit(t, i);
  }

  /** What the assertion in the loop says, once the low i + 1 bits agree. */
  lemma Aligned(x: nat, t: nat, i: nat)
    requires Congruent(x, t, Pow2(i + 1))
    ensures And(x, Pow2(i)) == And(t, Pow2(i))
  {
    hide And, Mod, Div, Bit, Pow2;
    Pow2Doubles(i);
    CongruentFactor(x, t, Pow2(i), 2);
    BitSplit(x, i);
    BitSplit(t, i);
    AndPow2(x, i);
    AndPow2(t, i);
  }

  lemma FixBit(mcg: bool, cur: nat, t: nat, j: nat, cm: nat, cp: nat, m: nat, c: nat, w: nat)
    requires GoodConstants(mcg, m, c) && SameClass(mcg, cur, t) && j + LowBit(mcg) < w
    requires Congruent(cm, MultAt(m, j), Pow2(w)) && Congruent(cp, PlusAt(m, c, j), Pow2(w))
    requires Congruent(cur, t, Pow2(j + LowBit(mcg)))
    requires Bit(cur, j + LowBit(mcg)) != Bit(t, j + LowBit(mcg))
    ensures Congruent(Bump(cur, cm, cp, w), t, Pow2(j + LowBit(mcg) + 1))
    ensures SameClass(mcg, Bump(cur, cm, cp, w), t)
  {
    hide Bump, Mod, Div, Bit, MultAt, PlusAt, Pow2;
    if mcg {
      CongruentHalf(cur, t);
    }
    FlipsBit(mcg, cur, m, c, j, w);
    BumpCongruent2(cur, cm, MultAt(m, j), cp, PlusAt(m, c, j), w);
    FlipAligns(cur, Bump(cur, cm, cp, w), t, j + LowBit(mcg));
    ClassKept(mcg, Bump(cur, cm, cp, w), t, j + LowBit(mcg));
  }

  lemma FullMask(x: nat, t: nat, mask: nat, w: nat)
    requires x < Pow2(w) && t < Pow2(w) && And(x, mask) == And(t, mask)
    ensures mask == Pow2(w) - 1 ==> x == t
  {
    hide And, Mod, Div, Pow2;
    if mask == Pow2(w) - 1 {
      AndMask(x, w);
      AndMask(t, w);
      CongruentSmall(x, t, Pow2(w));
    }
  }

  /** While the masked states differ there is a bit left to fix. */
  lemma NotYetEqual(cur: nat, t: nat, mask: nat, i: nat, w: nat)
    requires cur < Pow2(w) && t < Pow2(w) && i <= w
    requires Congruent(cur, t, Pow2(i)) && And(cur, mask) != And(t, mask)
    ensures i < w
  {
    hide Mod, Div, And;
    if i == w {
      CongruentSmall(cur, t, Pow2(w));
      assert false;
    }
  }

  lemma JumpBy(s: nat, n: nat, j: nat, cur: nat, cm: nat, cp: nat, m: nat, c: nat, w: nat)
    requires cur == Steps(s, n, m, c, w)
    requires Congruent(cm, MultAt(m, j), Pow2(w)) && Congruent(cp, PlusAt(m, c, j), Pow2(w))
    ensures Steps(s, n + Pow2(j), m, c, w) == Bump(cur, cm, cp, w)
  {
    hide Steps, Bump, MultAt, PlusAt, Congruent, Pow2;
    StepsCompose(s, n, Pow2(j), m, c, w);
    StepsByPower(cur, 1, j, m, c, w);
    assert Pow2(j) * 1 == Pow2(j);
    StepsCongruent(cur, 1, cm, MultAt(m, j), cp, PlusAt(m, c, j), w);
    StepsOne(cur, cm, cp, w);
  }

  /** Adding 2^i where bit i differs makes the low i + 1 bits agree. */
  lemma FlipAligns(x: nat, x': nat, t: nat, i: nat)
    requires Congruent(x, t, Pow2(i)) && Bit(x, i) != Bit(t, i)
    requires Congruent(x', x + Pow2(i), Pow2(i + 1))
    ensures Congruent(x', t, Pow2(i + 1))
  {
    hide Mod, Div, Bit;
    var P := Pow2(i);
    BitSplit(x, i);
    BitSplit(t, i);
    CongruentMod(x, 2 * P);
    CongruentAdd(Mod(x, 2 * P), x, P, P, 2 * P);
    CongruentMod(t, 2 * P);
    if Bit(x, i) {
      CongruentBy(Mod(x, 2 * P) + P, Mod(t, 2 * P), 1, 2 * P);
    }
  }

  lemma ClassKept(mcg: bool, x: nat, t: nat, i: nat)
    requires Congruent(x, t, Pow2(i + 1)) && i >= LowBit(mcg)
    requires mcg ==> Odd(t)
    ensures SameClass(mcg, x, t)
  {
    hide Div, Mod, Pow2;
    if mcg {
      Pow2Doubles(i);
      Pow2Doubles(i - 1);
      CongruentFactor(x, t, 4, Pow2(i - 1));
      CongruentHalf(x, t);
    }
  }

  lemma SetBit(distance: nat, n: nat, j: nat, low: nat)
    requires n < Pow2(j) && distance == Pow2(low) * n
    ensures Or(distance, Pow2(j + low)) == Pow2(low) * (n + Pow2(j))
  {
    hide Or, Pow2;
    Pow2Add(low, j);
    SetBitAlgebra(Pow2(low), n, Pow2(j));
    OrDisjoint(distance, 1, j + low);
  }

  lemma SetBitAlgebra(p: int, n: int, q: int)
    requires p > 0 && n < q
    ensures p * n < p * q && p * (n + q) == p * n + p * q
  {
    MulMonotone(n + 1, q, p);
  }

  lemma SquareCongruent(m: nat, c: nat, j: nat, cm: nat, cp: nat, M: nat)
    requires M > 0 && Congruent(cm, MultAt(m, j), M) && Congruent(cp, PlusAt(m, c, j), M)
    ensures Congruent(Mod(cm * cm, M), MultAt(m, j + 1), M)
    ensures Congruent(Mod((cm + 1) * cp, M), PlusAt(m, c, j + 1), M)
  {
    hide Mod, Div;
    CongruentMul(cm, MultAt(m, j), cm, MultAt(m, j), M);
    CongruentMod(cm * cm, M);
    CongruentAdd(cm, MultAt(m, j), 1, 1, M);
    CongruentMul(cm + 1, MultAt(m, j) + 1, cp, PlusAt(m, c, j), M);
    CongruentMod((cm + 1) * cp, M);
  }

  // ----- Period

  /** k steps of the j-th squared generator add k times the bit, seen one bit further. */
  lemma {:induction false} StepsFlip(mcg: bool, x: nat, k: nat, m: nat, c: nat, j: nat, w: nat)
    requires GoodConstants(mcg, m, c) && (mcg ==> Odd(x))
    requires j + LowBit(mcg) < w
    ensures var i := j + LowBit(mcg); var y := Steps(x, k, MultAt(m, j), PlusAt(m, c, j), w);
      Congruent(y, x + k * Pow2(i), Pow2(i + 1)) && (mcg ==> Odd(y))
    decreases k
  {
    hide Mod, Div, MultAt, PlusAt, Bump, Pow2;
    var i := j + LowBit(mcg);
    if k > 0 {
      StepsFlip(mcg, x, k - 1, m, c, j, w);
      var y := Steps(x, k - 1, MultAt(m, j), PlusAt(m, c, j), w);
      var y' := Steps(x, k, MultAt(m, j), PlusAt(m, c, j), w);
      FlipsBit(mcg, y, m, c, j, w);
      CongruentAdd(y, x + (k - 1) * Pow2(i), Pow2(i), Pow2(i), Pow2(i + 1));
      MulSub(k, 1, Pow2(i));
      FlipKeepsOdd(mcg, y, y', i);
    }
  }

  lemma FlipKeepsOdd(mcg: bool, y: nat, y': nat, i: nat)
    requires i >= LowBit(mcg) && Congruent(y', y + Pow2(i), Pow2(i + 1))
    requires mcg ==> Odd(y)
    ensures mcg ==> Odd(y')
  {
    hide Mod, Div, Pow2;
    if mcg {
      Pow2Doubles(i);
      CongruentFactor(y', y + Pow2(i), 2, Pow2(i));
      Pow2Doubles(i - 1);
      CongruentBy(y + Pow2(i), y, Pow2(i - 1), 2);
    }
  }

  /** Splits off the factors of two of a positive number. */
  lemma {:induction false} OddPart(n: nat) returns (j: nat, k: nat)
    requires n > 0
    ensures n == Pow2(j) * k && Odd(k)
    decreases n
  {
    hide Mod, Div;
    Residues(n);
    if Odd(n) {
      j, k := 0, n;
    } else {
      j, k := OddPart(n / 2);
      MulAssoc(2, Pow2(j), k);
      j := j + 1;
    }
  }

  /** The period is exactly 2^w, or 2^(w-2) for a multiplicative generator. */
  lemma PeriodExact(mcg: bool, s: nat, n: nat, m: nat, c: nat, w: nat)
    requires s < Pow2(w) && w >= LowBit(mcg)
    requires GoodConstants(mcg, m, c) && (mcg ==> Odd(s))
    ensures Steps(s, n, m, c, w) == s <==> Mod(n, Pow2(w - LowBit(mcg))) == 0
  {
    hide Mod, Div, Pow2, MultAt, PlusAt, Steps, Congruent, Bump;
    var b := w - LowBit(mcg);
    if n == 0 {
      ModSmall(0, Pow2(b));
      StepsNone(s, m, c, w);
    } else {
      var j, k := OddPart(n);
      StepsByPower(s, k, j, m, c, w);
      if j < b {
        OddFlipMoves(mcg, s, k, m, c, j, w);
        NotMultiple(j, k, b);
      } else {
        IsMultiple(n, j, k, b);
        Stays(mcg, s, k, m, c, j, w);
      }
    }
  }

  lemma OddFlipMoves(mcg: bool, s: nat, k: nat, m: nat, c: nat, j: nat, w: nat)
    requires GoodConstants(mcg, m, c) && (mcg ==> Odd(s)) && Odd(k) && j + LowBit(mcg) < w
    ensures Steps(s, k, MultAt(m, j), PlusAt(m, c, j), w) != s
  {
    hide Mod, Div, Pow2, MultAt, PlusAt, Steps;
    StepsFlip(mcg, s, k, m, c, j, w);
    OddMultipleMoves(s, k, j + LowBit(mcg));
  }

  lemma IsMultiple(n: nat, j: nat, k: nat, b: nat)
    requires b <= j && n == Pow2(j) * k
    ensures Mod(n, Pow2(b)) == 0
  {
    hide Mod, Div, Pow2;
    Pow2Add(b, j - b);
    MulAssoc(Pow2(b), Pow2(j - b), k);
    DivModUnique(n, Pow2(j - b) * k, 0, Pow2(b));
  }

  lemma OddMultipleMoves(s: nat, k: nat, i: nat)
    requires Odd(k)
    ensures !Congruent(s + k * Pow2(i), s, Pow2(i + 1))
  {
    hide Congruent, Pow2;
    Pow2Doubles(i);
    if Congruent(s + k * Pow2(i), s, Pow2(i + 1)) {
      var l := CongruentWitness(s + k * Pow2(i), s, Pow2(i + 1));
      CancelFactor(k, 2 * l, Pow2(i));
      NotDouble(k, l);
      assert false;
    }
  }

  lemma CancelFactor(a: int, b: int, p: int)
    requires p > 0 && a * p == b * p
    ensures a == b
  {
    MulSub(a, b, p);
    SmallMultiple(a - b, p, 0);
  }

  lemma NotDouble(k: int, l: int)
    requires Odd(k)
    ensures k != 2 * l
  {
    Residues(k);
  }

  lemma RegroupTwo(q: int, p: int, e: int)
    ensures q * (p * (2 * e)) == (2 * (q * e)) * p
  {
    var x := q * e;
    assert q * (p * (2 * e)) == 2 * (q * (p * e));
    assert q * (p * e) == x * p;
  }

  lemma NotMultiple(j: nat, k: nat, b: nat)
    requires Odd(k) && j < b
    ensures Mod(Pow2(j) * k, Pow2(b)) != 0
  {
    hide Mod, Div, Pow2;
    var p, e := Pow2(j), Pow2(b - j - 1);
    Pow2Add(j, b - j);
    Pow2Doubles(b - j - 1);
    if Mod(p * k, Pow2(b)) == 0 {
      DivMod(p * k, Pow2(b));
      var q := Div(p * k, Pow2(b));
      RegroupTwo(q, p, e);
      CancelFactor(k, 2 * (q * e), p);
      NotDouble(k, q * e);
      assert false;
    }
  }

  /** Past the period length a squared generator does not move at all. */
  lemma {:induction false} Stays(mcg: bool, s: nat, k: nat, m: nat, c: nat, j: nat, w: nat)
    requires s < Pow2(w) && w >= LowBit(mcg) && j >= w - LowBit(mcg)
    requires GoodConstants(mcg, m, c)
    ensures Steps(s, k, MultAt(m, j), PlusAt(m, c, j), w) == s
    decreases k
  {
    hide Mod, Div, Pow2, MultAt, PlusAt, Bump;
    if k > 0 {
      Stays(mcg, s, k - 1, m, c, j, w);
      Vanished(mcg, m, c, j, w);
      BumpCongruent2(s, MultAt(m, j), 1, PlusAt(m, c, j), 0, w);
      BumpOne(s, w);
    }
  }

  lemma BumpOne(s: nat, w: nat)
    requires s < Pow2(w)
    ensures Bump(s, 1, 0, w) == s
  {
    hide Mod, Div;
    ModSmall(s, Pow2(w));
  }

  lemma Vanished(mcg: bool, m: nat, c: nat, j: nat, w: nat)
    requires w >= LowBit(mcg) && j >= w - LowBit(mcg) && GoodConstants(mcg, m, c)
    ensures Congruent(MultAt(m, j), 1, Pow2(w)) && Congruent(PlusAt(m, c, j), 0, Pow2(w))
  {
    hide Congruent, Pow2, MultAt, PlusAt;
    var a, b := SquaringFlips(mcg, m, c, j);
    var e := Pow2(j + LowBit(mcg) - w);
    Pow2Add(j + LowBit(mcg) - w, w);
    if mcg {
      Pow2Doubles(j);
      Pow2Doubles(j + 1);
      RegroupFactor(e, Pow2(w), a);
      CongruentBy(MultAt(m, j), 1, e * a, Pow2(w));
      CongruentBy(PlusAt(m, c, j), 0, 0, Pow2(w));
    } else {
      RegroupFactor(e, Pow2(w), b);
      RegroupFactor(4 * e, Pow2(w), a);
      MulAssoc(4, e, Pow2(w));
      CongruentBy(MultAt(m, j), 1, (4 * e) * a, Pow2(w));
      CongruentBy(PlusAt(m, c, j), 0, e * b, Pow2(w));
    }
  }

  lemma RegroupFactor(e: int, q: int, a: int)
    ensures (e * q) * a == (e * a) * q
  {
    MulAssoc(e, q, a);
    MulAssoc(e, a, q);
  }

  /** Distinct step counts below the period reach distinct states, so the count that
      `distance` returns is the only one. */
  lemma StepsInjective(mcg: bool, s: nat, a: nat, b: nat, m: nat, c: nat, w: nat)
    requires s < Pow2(w) && w >= LowBit(mcg)
    requires GoodConstants(mcg, m, c) && (mcg ==> Odd(s))
    requires a < Pow2(w - LowBit(mcg)) && b < Pow2(w - LowBit(mcg))
    requires Steps(s, a, m, c, w) == Steps(s, b, m, c, w)
    ensures a == b
  {
    hide Mod, Div, Pow2, Steps;
    if a != b {
      var lo, hi := if a < b then a else b, if a < b then b else a;
      var x := Steps(s, lo, m, c, w);
      StepsKeepClass(mcg, s, lo, m, c, w);
      if mcg {
        CongruentHalf(s, x);
      }
      StepsCompose(s, lo, hi - lo, m, c, w);
      PeriodExact(mcg, x, hi - lo, m, c, w);
      ModSmall(hi - lo, Pow2(w - LowBit(mcg)));
      assert false;
    }
  }

  /** Recovering the distance to a state n steps ahead gives back n. */
  method DistanceOfAdvance(mcg: bool, state: nat, n: nat, mult: nat, plus: nat, w: nat) returns (d: nat)
    requires state < Pow2(w) && mult < Pow2(w) && plus < Pow2(w)
    requires w >= LowBit(mcg) && n < Pow2(w - LowBit(mcg))
    requires GoodConstants(mcg, mult, plus) && (mcg ==> Odd(state))
    ensures d == n
  {
    hide Pow2, Steps;
    Pow2Monotone(w - LowBit(mcg), w);
    var target := Advance(state, n, mult, plus, w);
    StepsKeepClass(mcg, state, n, mult, plus, w);
    ghost var passes;
    d, passes := Distance(mcg, state, target, mult, plus, Pow2(w) - 1, w);
    StepsInjective(mcg, state, d, n, mult, plus, w);
  }

  lemma {:induction false} StepsKeepClass(mcg: bool, s: nat, n: nat, m: nat, c: nat, w: nat)
    requires GoodConstants(mcg, m, c) && (mcg ==> Odd(s)) && w >= LowBit(mcg)
    ensures SameClass(mcg, s, Steps(s, n, m, c, w))
    decreases n
  {
    hide Mod, Div, Pow2;
    if n > 0 && mcg {
      StepsKeepClass(mcg, s, n - 1, m, c, w);
      var x := Steps(s, n - 1, m, c, w);
      Pow2Small();
      ReduceTo(x * m + c, 2, w);
      var k := CongruentWitness(m, 5, 8);
      CongruentBy(m, 1, 1 + 2 * k, 4);
      CongruentMul(x, x, m, 1, 4);
      CongruentHalf(x, s);
    }
  }

  /** The conditions on the constants are exactly what makes every state reachable from every
      state (Hull and Dobell's theorem for a power of two). */
  lemma AllReachableIff(m: nat, c: nat, w: nat)
    requires w >= 2 && m < Pow2(w) && c < Pow2(w)
    ensures GoodConstants(false, m, c) <==>
      forall s: nat, t: nat | s < Pow2(w) && t < Pow2(w) :: Reaches(s, t, m, c, w)
  {
    hide Steps, Mod, Div, Pow2;
    if GoodConstants(false, m, c) {
      forall s: nat, t: nat | s < Pow2(w) && t < Pow2(w) ensures Reaches(s, t, m, c, w) {
        ReachesAll(s, t, m, c, w);
      }
    } else {
      Pow2Monotone(2, w);
      Pow2Small();
      Residues(c);
      var s, t := if Odd(c) && !Odd(m) then 1 else 0, if !Odd(c) then 1 else if !Odd(m) then 0 else 2;
      forall n: nat ensures Steps(s, n, m, c, w) != t {
        Confined(n, m, c, w);
        if Odd(c) && Odd(m) && Congruent(2, c, 4) {
          CongruentHalf(2, c);
        }
      }
      assert !Reaches(s, t, m, c, w);
    }
  }

  ghost predicate Reaches(s: nat, t: nat, m: nat, c: nat, w: nat) {
    exists n: nat :: Steps(s, n, m, c, w) == t
  }

  /** The search `distance` performs, as an existence proof. */
  lemma ReachesAll(s: nat, t: nat, m: nat, c: nat, w: nat)
    requires s < Pow2(w) && t < Pow2(w) && GoodConstants(false, m, c)
    ensures Reaches(s, t, m, c, w)
  {
    hide Congruent, Pow2, Steps;
    var n := Align(s, t, m, c, w, w);
    CongruentSmall(Steps(s, n, m, c, w), t, Pow2(w));
  }

  lemma {:induction false} Align(s: nat, t: nat, m: nat, c: nat, i: nat, w: nat) returns (n: nat)
    requires s < Pow2(w) && t < Pow2(w) && i <= w && GoodConstants(false, m, c)
    ensures Congruent(Steps(s, n, m, c, w), t, Pow2(i))
    decreases i
  {
    hide Div, Mod, Bit, Pow2, Steps, Bump, MultAt, PlusAt;
    if i == 0 {
      n := 0;
      Pow2Small();
      ModOne(Steps(s, n, m, c, w), t);
    } else {
      n := Align(s, t, m, c, i - 1, w);
      var x := Steps(s, n, m, c, w);
      if Bit(x, i - 1) != Bit(t, i - 1) {
        JumpBy(s, n, i - 1, x, MultAt(m, i - 1), PlusAt(m, c, i - 1), m, c, w);
        FixBit(false, x, t, i - 1, MultAt(m, i - 1), PlusAt(m, c, i - 1), m, c, w);
        n := n + Pow2(i - 1);
      } else {
        BitSplit(x, i - 1);
        BitSplit(t, i - 1);
      }
    }
  }

  lemma ModOne(x: nat, y: nat)
    ensures Congruent(x, y, 1)
  {
  }

  /** Without the conditions, orbits stay inside a residue class modulo 2 or 4. */
  lemma {:induction false} Confined(n: nat, m: nat, c: nat, w: nat)
    requires w >= 2 && !GoodConstants(false, m, c)
    ensures !Odd(c) ==> Congruent(Steps(0, n, m, c, w), 0, 2)
    ensures Odd(c) && !Odd(m) ==> Congruent(Steps(1, n, m, c, w), 1, 2)
    ensures Odd(c) && Odd(m) ==> Congruent(Steps(0, n, m, c, w), if n % 2 == 0 then 0 else c, 4)
    decreases n
  {
    hide Mod, Div, Pow2, Bump;
    Pow2Small();
    Residues(m);
    Residues(c);
    if n > 0 {
      Confined(n - 1, m, c, w);
      var x, y := Steps(0, n - 1, m, c, w), Steps(1, n - 1, m, c, w);
      if !Odd(c) {
        BumpModulo(x, 0, m, m, c, 0, 1, w);
      } else if !Odd(m) {
        BumpModulo(y, y, m, 0, c, 1, 1, w);
      } else if n % 2 == 1 {
        BumpModulo(x, 0, m, m, c, c, 2, w);
      } else {
        BumpModulo(x, c, m, 3, c, c, 2, w);
        CongruentBy(c * 3 + c, 0, c, 4);
      }
    }
  }

  /** A step modulo a smaller power of two needs its arguments only modulo that power. */
  lemma BumpModulo(x: nat, x': nat, m: nat, m': nat, c: nat, c': nat, i: nat, w: nat)
    requires i <= w
    requires Congruent(x, x', Pow2(i)) && Congruent(m, m', Pow2(i)) && Congruent(c, c', Pow2(i))
    ensures Congruent(Bump(x, m, c, w), x' * m' + c', Pow2(i))
    ensures Pow2(1) == 2 && Pow2(2) == 4
  {
    hide Mod, Div, Pow2;
    Pow2Small();
    ReduceTo(x * m + c, i, w);
    CongruentMul(x, x', m, m', Pow2(i));
    CongruentAdd(x * m, x' * m', c, c', Pow2(i));
  }
}
