/** The second loop of `divide` on signed readings (base/common/wide_integer_impl.h): what it
    leaves of the numerator when the doubled divisor has reached the sign bit. */
module SignedPasses {
  import opened Arith

  /** The signed reading of an unsigned value. */
  function Reading(v: int, signed: bool, half: nat): int {
    if signed && v >= half then v - 2 * half else v
  }

  /** A difference of signed readings, wrapped to the width. */
  function Wrap(v: int, half: nat): int
    requires half > 0
  {
    Reading(Mod(v, 2 * half), true, half)
  }

  /** What is left of n after one pass with divisor d. */
  function Passed(n: int, d: int, half: nat): int
    requires half > 0
  {
    if d <= n then Wrap(n - d, half) else n
  }

  /** What is left of n after the passes, with the divisor halved each time. */
  function Rest(n: int, d: int, passes: nat, half: nat): int
    requires half > 0
    decreases passes
  {
    if passes == 0 then n else Rest(Passed(n, d, half), Div(d, 2), passes - 1, half)
  }

  lemma RestStep(n: int, d: int, passes: nat, half: nat)
    requires half > 0 && passes > 0
    ensures Rest(n, d, passes, half) == Rest(Passed(n, d, half), Div(d, 2), passes - 1, half)
  {
  }

  lemma RestEnd(n: int, d: int, half: nat)
    requires half > 0
    ensures Rest(n, d, 0, half) == n
  {
  }

  lemma WrapSmall(v: int, half: nat)
    requires half > 0 && 0 - half <= v < 2 * half
    ensures Wrap(v, half) == if v < half then v else v - 2 * half
  {
    hide Mod, Div;
    if v >= 0 {
      ModSmall(v, 2 * half);
    } else {
      DivModUnique(v, -1, v + 2 * half, 2 * half);
    }
  }

  /** The wrapped difference of two words reads as the wrapped difference of their readings. */
  lemma WrapReadings(n: nat, d: nat, half: nat)
    requires half > 0
    ensures Reading(Mod(n - d, 2 * half), true, half) == Wrap(Reading(n, true, half) - Reading(d, true, half), half)
  {
    hide Mod, Div;
    var rn, rd := Reading(n, true, half), Reading(d, true, half);
    var k := (if n >= half then 1 else 0) - (if d >= half then 1 else 0);
    CongruentBy(n - d, rn - rd, k, 2 * half);
  }

  lemma HalveScaled(g: int, p: nat)
    requires p > 0
    ensures Div(0 - g * Pow2(p), 2) == 0 - g * Pow2(p - 1) && g * Pow2(p) == 2 * (g * Pow2(p - 1))
  {
    hide Pow2, Mod, Div;
    Pow2Doubles(p - 1);
    MulAssoc(2, Pow2(p - 1), g);
    DivModUnique(0 - g * Pow2(p), 0 - g * Pow2(p - 1), 0, 2);
  }

  /** Below all the negative divisors nothing is subtracted. */
  lemma {:induction false} NoneTaken(n: int, g: nat, p: nat, half: nat)
    requires half > 0 && n < 0 - g * Pow2(p)
    ensures Rest(n, 0 - g * Pow2(p), p + 1, half) == n
    decreases p
  {
    hide Pow2, Wrap, Div;
    if p > 0 {
      HalveScaled(g, p);
      MulMonotone(0, Pow2(p - 1), g);
      NoneTaken(n, g, p - 1, half);
    }
  }

  /** From the first negative divisor that is subtracted on, all are. */
  lemma {:induction false} AllTaken(n: int, g: nat, p: nat, half: nat)
    requires half > 0 && 0 - g * Pow2(p) <= n && n + 2 * (g * Pow2(p)) <= half && g > 0
    ensures Rest(n, 0 - g * Pow2(p), p + 1, half) == n + 2 * (g * Pow2(p)) - g
    decreases p
  {
    hide Pow2, Wrap, Div;
    MulPositive(g, Pow2(p));
    WrapSmall(n + g * Pow2(p), half);
    if p > 0 {
      HalveScaled(g, p);
      MulPositive(g, Pow2(p - 1));
      AllTaken(n + g * Pow2(p), g, p - 1, half);
    } else {
      Pow2Small();
    }
  }

  lemma {:induction false} NotByFive(m: nat)
    ensures Pow2(m) % 5 != 0
  {
    if m > 0 {
      NotByFive(m - 1);
    }
  }

  /** The two results on plain numbers: T = D * P is the doubling of the divisor below the sign
      bit, e = g * P its distance to the sign bit. */
  lemma Remainders(n: int, D: nat, P: nat, T: int, g: int, e: int, rest: int, half: nat, m: nat)
    requires D > 0 && P > 0 && g > 0 && half == Pow2(m)
    requires P != 1 && P != 2 ==> 4 * g <= e && 4 * D <= T
    requires P == 1 ==> T == D && e == g
    requires P == 2 ==> T == 2 * D && e == 2 * g
    requires e > 0 && T + e == half && T <= n < half <= 2 * T
    requires rest == if n - 2 * T < 0 - e then n - 2 * T else n - 2 * T + 2 * e - g
    ensures rest == Mod(n, D) <==> 2 * D == half
  {
    hide Mod, Div, Pow2;
    if P == 1 {
      DivModUnique(n, 1, n - D, D);
    } else if P == 2 {
      NotByFive(m);
      if n < 3 * D {
        DivModUnique(n, 2, n - 2 * D, D);
      } else {
        DivModUnique(n, 3, n - 3 * D, D);
      }
    }
  }

  lemma ScaleBounds(x: nat, j: nat)
    requires j > 0 && x > 0
    ensures var P := Pow2(j - 1);
      && (P == 1 ==> x * P == x) && (P == 2 ==> x * P == 2 * x)
      && (P != 1 && P != 2 ==> 4 * x <= x * P) && x * P > 0
  {
    hide Pow2;
    Pow2Small();
    if j > 2 {
      Pow2Monotone(2, j - 1);
      MulMonotone(4, Pow2(j - 1), x);
    }
    MulPositive(x, Pow2(j - 1));
  }

  /** The loop from a divisor D whose j-th doubling is the first with the sign bit: the remainder
      is right for one divisor only. */
  lemma SignedRest(n: nat, D: nat, j: nat, half: nat, m: nat)
    requires D > 0 && j > 0 && half == Pow2(m)
    requires D * Pow2(j - 1) <= n < half <= 2 * (D * Pow2(j - 1)) && D * Pow2(j - 1) < half
    ensures Rest(n, 2 * (D * Pow2(j - 1)) - 2 * half, j + 1, half) == Mod(n, D) <==> 2 * D == half
  {
    hide Mod, Div, Pow2, Wrap, Rest, Reading;
    var P := Pow2(j - 1);
    var T: int := D * P;
    var g := Distance(D, j, m);
    var e: int := g * P;
    WrapSmall(n - 2 * T + 2 * half, half);
    FirstPass(n, T, j, half);
    ScaleBounds(D, j);
    ScaleBounds(g, j);
    if n - 2 * T < 0 - e {
      NoneTaken(n - 2 * T, g, j - 1, half);
    } else {
      AllTaken(n - 2 * T, g, j - 1, half);
    }
    Remainders(n, D, P, T, g, e, Rest(n - 2 * T, T - half, j, half), half, m);
  }

  lemma FirstPass(n: int, T: int, j: nat, half: nat)
    requires half > 0 && 0 <= n && T < half && Wrap(n - 2 * T + 2 * half, half) == n - 2 * T
    ensures Rest(n, 2 * T - 2 * half, j + 1, half) == Rest(n - 2 * T, T - half, j, half)
  {
    hide Mod, Div, Wrap;
    DivModUnique(2 * T - 2 * half, T - half, 0, 2);
  }

  /** The sign bit is a multiple of the doubling, so the distance to it is one too. */
  lemma Distance(D: nat, j: nat, m: nat) returns (g: nat)
    requires j > 0 && D > 0 && D * Pow2(j - 1) < Pow2(m)
    ensures g > 0 && g * Pow2(j - 1) == Pow2(m) - D * Pow2(j - 1)
  {
    hide Pow2;
    MulMonotone(1, D, Pow2(j - 1));
    if j - 1 > m {
      Pow2Monotone(m, j - 1);
    }
    Pow2Add(m - (j - 1), j - 1);
    MulSub(Pow2(m - (j - 1)), D, Pow2(j - 1));
    if D >= Pow2(m - (j - 1)) {
      MulMonotone(Pow2(m - (j - 1)), D, Pow2(j - 1));
    }
    g := Pow2(m - (j - 1)) - D;
  }
}
