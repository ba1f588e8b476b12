/**
 * The number theory behind increment_fancy: Euclid's gcd, Bezout's identity,
 * the search for a seed that makes the step coprime with the size of the
 * space, and the fact that stepping by a unit modulo n runs through all n
 * residues before it returns.
 */
module Coprime {

  import opened Arith

  function Abs(x: int): nat {
    if x < 0 then -x else x
  }

  /** Euclid's algorithm; Python's math.gcd(a, b) is Gcd(Abs(a), Abs(b)). */
  function Gcd(a: nat, b: nat): (g: nat)
    ensures g == 0 <==> a == 0 && b == 0
    decreases b
  {
    if b == 0 then a else Gcd(b, Mod(a, b))
  }

  /** math.gcd(x, n) == 1, the loop condition of the seed search. */
  predicate IsCoprime(x: int, n: nat) {
    Gcd(Abs(x), n) == 1
  }

  /** The seed t makes the step mini + t coprime with the size of the space. */
  predicate SeedWorks(mini: int, space: nat, t: int) {
    IsCoprime(mini + t, space)
  }

  /** Bezout's identity: the gcd is an integer combination of its arguments. */
  lemma {:induction false} Bezout(a: nat, b: nat) returns (x: int, y: int)
    ensures a * x + b * y == Gcd(a, b)
    decreases b
  {
    if b == 0 {
      x, y := 1, 0;
    } else {
      DivModSpec(a, b);
      var x', y' := Bezout(b, a % b);
      DivMod(a, b);
      x, y := y', x' - (a / b) * y';
      BezoutStep(a, b, a / b, a % b, x', y');
    }
  }

  lemma BezoutStep(a: int, b: int, q: int, r: int, x': int, y': int)
    requires a == q * b + r
    ensures a * y' + b * (x' - q * y') == b * x' + r * y'
  {
    MulAdd(q * b, r, y');
    MulAssoc(q, b, y');
  }

  /** A number congruent to one modulo n is coprime with n. */
  lemma OneModCoprime(x: int, n: nat)
    requires n >= 1 && (1 - x) % n == 0
    ensures IsCoprime(x, n)
  {
    DivMod(1 - x, n);
    var q := (1 - x) / n;
    if n >= 2 {
      if x >= 0 {
        DivModUnique(x, n, -q, 1);
        DivModSpec(x, n);
        assert Gcd(Abs(x), n) == Gcd(n, 1);
      } else {
        DivModUnique(-x, n, q - 1, n - 1);
        DivModSpec(-x, n);
        assert Gcd(Abs(x), n) == Gcd(n, n - 1);
        if n >= 3 {
          DivModUnique(n, n - 1, 1, 1);
          DivModSpec(n, n - 1);
          assert Gcd(n, n - 1) == Gcd(n - 1, 1);
        }
      }
    }
  }

  /**
   * The seed search: the smallest t >= seed with gcd(mini + t, space) == 1.
   * It stops at the latest when mini + t is congruent to one modulo space.
   */
  function CoprimeSeed(mini: int, space: nat, seed: int): (t: int)
    requires space >= 1
    ensures t >= seed && SeedWorks(mini, space, t)
    ensures forall u :: seed <= u < t ==> !SeedWorks(mini, space, u)
    decreases Mod(1 - (mini + seed), space)
  {
    if SeedWorks(mini, space, seed) then
      seed
    else
      SearchProgress(mini + seed, space);
      CoprimeSeed(mini, space, seed + 1)
  }

  /** Every failed probe brings mini + seed one closer to a number congruent to one. */
  lemma SearchProgress(x: int, n: nat)
    requires n >= 1 && !IsCoprime(x, n)
    ensures Mod(1 - (x + 1), n) < Mod(1 - x, n)
  {
    DivModSpec(1 - (x + 1), n);
    DivModSpec(1 - x, n);
    if (1 - x) % n == 0 {
      OneModCoprime(x, n);
    } else {
      DivMod(1 - x, n);
      DivModUnique(1 - (x + 1), n, (1 - x) / n, (1 - x) % n - 1);
    }
  }

  /** The gcd divides both of its arguments (math.gcd(0, 0) == 0 divides nothing). */
  lemma {:induction false} GcdDivides(a: nat, b: nat)
    ensures Gcd(a, b) > 0 ==> a % Gcd(a, b) == 0 && b % Gcd(a, b) == 0
    decreases b
  {
    var g := Gcd(a, b);
    if b == 0 {
      if g > 0 {
        DivModUnique(a, g, 1, 0);
        DivModUnique(0, g, 0, 0);
      }
    } else {
      DivModSpec(a, b);
      GcdDivides(b, a % b);
      if g > 0 {
        DivMod(a, b);
        DivMod(b, g);
        DivMod(a % b, g);
        SumOfMultiples(a, b, a % b, a / b, b / g, (a % b) / g, g);
        DivModUnique(a, g, a / b * (b / g) + (a % b) / g, 0);
      }
    }
  }

  /** a == q * b + r with b and r multiples of g makes a a multiple of g. */
  lemma SumOfMultiples(a: int, b: int, r: int, q: int, x: int, y: int, g: int)
    requires a == q * b + r && b == x * g && r == y * g
    ensures a == (q * x + y) * g
  {
    MulAssoc(q, x, g);
    MulAdd(q * x, y, g);
  }

  /** Every common divisor of a and b divides their gcd: it is the greatest one. */
  lemma CommonDivides(a: nat, b: nat, d: nat)
    requires d >= 1 && a % d == 0 && b % d == 0
    ensures Gcd(a, b) % d == 0
  {
    var x, y := Bezout(a, b);
    DivMod(a, d);
    DivMod(b, d);
    CombineMultiples(a, b, x, y, a / d, b / d, d);
    DivModUnique(Gcd(a, b), d, a / d * x + b / d * y, 0);
  }

  /** a * x + b * y with a and b multiples of d is a multiple of d. */
  lemma CombineMultiples(a: int, b: int, x: int, y: int, ca: int, cb: int, d: int)
    requires a == ca * d && b == cb * d
    ensures a * x + b * y == (ca * x + cb * y) * d
  {
    MulAssoc(ca, d, x);
    MulAssoc(cb, d, y);
    MulAssoc(ca, x, d);
    MulAssoc(cb, y, d);
    MulAdd(ca * x, cb * y, d);
  }

  /** A step k coprime with n has an inverse modulo n. */
  lemma Inverse(k: int, n: nat) returns (x: int, y: int)
    requires IsCoprime(k, n)
    ensures k * x + n * y == 1
  {
    x, y := Bezout(Abs(k), n);
    if k < 0 {
      x := -x;
    }
  }

  /** A multiple of n lies outside (0, n). */
  lemma MultipleOutside(d: int, n: nat, c: int)
    requires n >= 1 && d == c * n
    ensures d <= 0 || d >= n
  {
    if c >= 1 { MulLeq(1, c, n); }
    if c <= 0 { MulLeq(c, 0, n); }
  }

  /** Steps i < j < n of size k, coprime with n, end on different residues. */
  lemma StepsDistinct(u: int, k: int, n: nat, i: nat, j: nat)
    requires n >= 1 && IsCoprime(k, n) && i < j < n
    ensures (u + i * k) % n != (u + j * k) % n
  {
    var a, b := u + i * k, u + j * k;
    if a % n == b % n {
      DivMod(a, n);
      DivMod(b, n);
      var d, m := j - i, b / n - a / n;
      MulSub(j, i, k);
      assert d * k == m * n;
      var x, y := Inverse(k, n);
      MultiplyInverse(d, k, n, m, x, y);
      MultipleOutside(d, n, m * x + d * y);
    }
  }

  /** d == d * (k * x + n * y), rearranged using d * k == m * n. */
  lemma MultiplyInverse(d: int, k: int, n: int, m: int, x: int, y: int)
    requires d * k == m * n && k * x + n * y == 1
    ensures d == (m * x + d * y) * n
  {
    calc {
      d;
      d * (k * x + n * y);
      { MulAdd(k * x, n * y, d); }
      (k * x) * d + (n * y) * d;
      { MulAssoc(k, x, d); MulAssoc(n, y, d); }
      (d * k) * x + (d * y) * n;
      (m * n) * x + (d * y) * n;
      { MulAssoc(m, n, x); }
      (m * x) * n + (d * y) * n;
      { MulAdd(m * x, d * y, n); }
      (m * x + d * y) * n;
    }
  }

  /** Every residue w is reached from u within n steps of a size k coprime with n. */
  lemma StepsCover(u: int, k: int, n: nat, w: int) returns (i: nat)
    requires n >= 1 && IsCoprime(k, n) && 0 <= w < n
    ensures i < n && (u + i * k) % n == w
  {
    var x, y := Inverse(k, n);
    var d := w - u;
    DivMod(d * x, n);
    i := (d * x) % n;
    var q := (d * x) / n;
    var m := -(d * y + q * k);
    CoverArith(u, k, n, w, x, y, q, i);
    assert u + i * k == w + m * n;
    ModAddMultiple(w, m, n);
    DivModUnique(w, n, 0, w);
  }

  lemma CoverArith(u: int, k: int, n: int, w: int, x: int, y: int, q: int, i: int)
    requires k * x + n * y == 1 && (w - u) * x == q * n + i
    ensures u + i * k == w + (-((w - u) * y + q * k)) * n
  {
    var d := w - u;
    calc {
      i * k;
      (d * x - q * n) * k;
      { MulSub(d * x, q * n, k); }
      (d * x) * k - (q * n) * k;
      { MulAssoc(d, x, k); MulAssoc(q, n, k); }
      d * (k * x) - q * (k * n);
      d * (1 - n * y) - q * (k * n);
      d - (d * y + q * k) * n;
    }
  }

  /** One more step of size k moves the residue of u + (i - 1) * k to that of u + i * k. */
  lemma StepOnce(u: int, k: int, n: nat, i: nat, prev: int)
    requires n >= 1 && i >= 1 && prev == (u + (i - 1) * k) % n
    ensures (prev + k) % n == (u + i * k) % n
  {
    ModAddReduce(u + (i - 1) * k, k, n);
    MulAdd(i - 1, 1, k);
  }

  /** One step of size k through the numbers mini .. mini + n - 1, wrapping around. */
  function Move(mini: int, n: nat, k: int, v: int): int
    requires n >= 1
  {
    mini + (v - mini + k) % n
  }

  /** A step lands inside the range again. */
  lemma MoveInRange(mini: int, n: nat, k: int, v: int)
    requires n >= 1
    ensures mini <= Move(mini, n, k, v) < mini + n
  {
    DivMod(v - mini + k, n);
  }

  /**
   * The walk through the numbers mini .. mini + n - 1 that starts at u and
   * moves by k modulo n at every step.
   */
  function Walk(mini: int, n: nat, k: int, u: int, i: nat): int
    requires n >= 1
  {
    if i == 0 then u else Move(mini, n, k, Walk(mini, n, k, u, i - 1))
  }

  /** After i steps the walk stands at offset (u - mini + i * k) % n. */
  lemma {:induction false} WalkOffset(mini: int, n: nat, k: int, u: int, i: nat)
    requires n >= 1 && mini <= u < mini + n
    ensures Walk(mini, n, k, u, i) - mini == (u - mini + i * k) % n
  {
    if i == 0 {
      DivModUnique(u - mini, n, 0, u - mini);
    } else {
      WalkOffset(mini, n, k, u, i - 1);
      StepOnce(u - mini, k, n, i, Walk(mini, n, k, u, i - 1) - mini);
    }
  }

  /** The walk returns to u after n steps. */
  lemma WalkReturns(mini: int, n: nat, k: int, u: int)
    requires n >= 1 && mini <= u < mini + n
    ensures Walk(mini, n, k, u, n) == u
  {
    WalkOffset(mini, n, k, u, n);
    StepsReturn(u - mini, k, n);
    DivModUnique(u - mini, n, 0, u - mini);
  }

  /** With a step coprime with n, the walk visits no number twice within n steps. */
  lemma WalkDistinct(mini: int, n: nat, k: int, u: int, i: nat, j: nat)
    requires n >= 1 && IsCoprime(k, n) && mini <= u < mini + n && i < j < n
    ensures Walk(mini, n, k, u, i) != Walk(mini, n, k, u, j)
  {
    WalkOffset(mini, n, k, u, i);
    WalkOffset(mini, n, k, u, j);
    StepsDistinct(u - mini, k, n, i, j);
  }

  /** With a step coprime with n, the walk reaches every number of the range within n steps. */
  lemma WalkReaches(mini: int, n: nat, k: int, u: int, w: int) returns (i: nat)
    requires n >= 1 && IsCoprime(k, n) && mini <= u < mini + n && mini <= w < mini + n
    ensures i < n && Walk(mini, n, k, u, i) == w
  {
    i := StepsCover(u - mini, k, n, w - mini);
    WalkOffset(mini, n, k, u, i);
  }

  /** After n steps the residue is back where it started. */
  lemma StepsReturn(u: int, k: int, n: nat)
    requires n >= 1
    ensures (u + n * k) % n == u % n
  {
    ModAddMultiple(u, k, n);
  }
}
