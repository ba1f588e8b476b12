/**
 * Small facts of integer arithmetic, stated once so that the proofs about
 * the codec never ask the solver for non-linear reasoning in a large context.
 * Dafny's `/` and `%` are Euclidean; for the positive divisors used here they
 * coincide with Python's floor division and modulo.
 */
module Arith {

  lemma DivMod(x: int, b: nat)
    requires b > 0
    ensures x == x / b * b + x % b && 0 <= x % b < b
  {
  }

  /** Quotient and remainder are determined by x == q * b + r with 0 <= r < b. */
  lemma DivModUnique(x: int, b: nat, q: int, r: int)
    requires b > 0 && 0 <= r < b && x == q * b + r
    ensures x / b == q && x % b == r
  {
    var q', r' := x / b, x % b;
    assert (q' - q) * b == r - r';
    if q' > q { MulLeq(1, q' - q, b); }
    if q' < q { MulLeq(1, q - q', b); }
  }

  /** Adding a multiple of b does not change the remainder modulo b. */
  lemma ModAddMultiple(x: int, m: int, b: nat)
    requires b > 0
    ensures (x + m * b) % b == x % b
  {
    DivMod(x, b);
    MulAdd(x / b, m, b);
    DivModUnique(x + m * b, b, x / b + m, x % b);
  }

  /** Reducing one summand first does not change the remainder. */
  lemma ModAddReduce(x: int, k: int, b: nat)
    requires b > 0
    ensures (x % b + k) % b == (x + k) % b
  {
    DivMod(x, b);
    ModAddMultiple(x % b + k, x / b, b);
  }

  /**
   * Python's floor division a // n for a divisor n > 0, by repeated
   * subtraction; DivModSpec shows it agrees with `/`. Being recursive, it is
   * unfolded only where a proof asks for it.
   */
  function Div(a: int, n: nat): (q: int)
    requires n > 0
    ensures a >= 0 ==> q >= 0
    decreases if a < 0 then n - a else a
  {
    if a < 0 then Div(a + n, n) - 1
    else if a < n then 0
    else Div(a - n, n) + 1
  }

  /** Python's a % n for a divisor n > 0, the remainder that goes with Div. */
  function Mod(a: int, n: nat): (r: int)
    requires n > 0
    ensures 0 <= r < n
    ensures 0 <= a < n ==> r == a
    ensures a == n ==> r == 0
    decreases if a < 0 then n - a else a
  {
    if a < 0 then Mod(a + n, n)
    else if a < n then a
    else Mod(a - n, n)
  }

  /** Div and Mod split a into quotient and remainder. */
  lemma {:induction false} DivModSplit(a: int, n: nat)
    requires n > 0
    ensures a == Div(a, n) * n + Mod(a, n)
    decreases if a < 0 then n - a else a
  {
    if a < 0 {
      DivModSplit(a + n, n);
      MulSub(Div(a + n, n), 1, n);
    } else if a >= n {
      DivModSplit(a - n, n);
      MulAdd(Div(a - n, n), 1, n);
    }
  }

  /** Div and Mod are Dafny's `/` and `%`, which for n > 0 are Python's `//` and `%`. */
  lemma DivModSpec(a: int, n: nat)
    requires n > 0
    ensures Div(a, n) == a / n && Mod(a, n) == a % n
  {
    DivModSplit(a, n);
    DivModUnique(a, n, Div(a, n), Mod(a, n));
  }

  lemma MulLeq(a: int, b: int, c: nat)
    requires a <= b
    ensures a * c <= b * c
  {
  }

  lemma MulSub(x: int, y: int, b: int)
    ensures x * b - y * b == (x - y) * b
  {
  }

  lemma MulAssoc(x: int, y: int, z: int)
    ensures x * y * z == x * (z * y)
  {
  }

  lemma MulAdd(x: int, y: int, b: int)
    ensures (x + y) * b == x * b + y * b
  {
  }
}
