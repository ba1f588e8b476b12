/**
 * The specification of increment_fancy: the identifiers of one length L form
 * a "mod space" of consecutive numbers [mini, maxi], and the next identifier
 * is reached by a fixed step modulo the size of that space. The step is made
 * coprime with the size, so the walk visits every identifier of length L
 * once before it returns to its start.
 */
module Fancy {

  import opened Arith
  import opened Numeration
  import opened Coprime

  /** The numbers whose identifiers have a given length. */
  datatype Space = Space(mini: int, maxi: int, size: int)

  /**
   * The mod space of length `len`: mini is one more than the number of the
   * longest run of the last symbol one shorter, maxi the number of the run of
   * length `len`.
   */
  function ModSpace(alph: string, len: nat): (sp: Space)
    requires WellFormed(alph) && len >= 1
    ensures sp.size == sp.maxi - sp.mini + 1 && 0 <= sp.mini && sp.size >= 1
  {
    var mini := Decode(alph, Repeat(Top(alph), len - 1)) + 1;
    var maxi := Decode(alph, Repeat(Top(alph), len));
    RunsOrdered(alph, len);
    Space(mini, maxi, maxi - mini + 1)
  }

  /** The run of the last symbol one shorter decodes to a smaller number, and not below -1. */
  lemma RunsOrdered(alph: string, len: nat)
    requires WellFormed(alph) && len >= 1
    ensures 0 <= Decode(alph, Repeat(Top(alph), len - 1)) + 1 <= Decode(alph, Repeat(Top(alph), len))
  {
    ValueTopRun(alph, len - 1);
    ValueTopRun(alph, len);
    HiMonotone(|alph|, len - 1, len);
    HiPositive(|alph|, len - 1);
  }

  /** The bounds of the mod space in terms of Hi. */
  lemma SpaceBounds(alph: string, len: nat)
    requires WellFormed(alph) && len >= 1
    ensures ModSpace(alph, len).mini == Hi(|alph|, len - 1)
    ensures ModSpace(alph, len).maxi == Hi(|alph|, len) - 1
  {
    ValueTopRun(alph, len - 1);
    ValueTopRun(alph, len);
  }

  /** An identifier's number lies in the mod space of its length. */
  lemma InSpace(alph: string, s: string)
    requires WellFormed(alph) && IsIdentifier(alph, s)
    ensures ModSpace(alph, |s|).mini <= Decode(alph, s) <= ModSpace(alph, |s|).maxi
  {
    SpaceBounds(alph, |s|);
    ValueRange(alph, s);
  }

  /** The size of the mod space in closed form: (B - OFFSET) * B^(len - 1). */
  lemma SpaceSize(alph: string, len: nat)
    requires WellFormed(alph) && len >= 1
    ensures ModSpace(alph, len).size == (|alph| - OFFSET) * Pow(|alph|, len - 1)
  {
    SpaceBounds(alph, len);
    HiStep(|alph|, len);
  }

  /** The mod space holds exactly the numbers of the identifiers of length `len`. */
  lemma SpaceOfLength(alph: string, len: nat, n: nat)
    requires WellFormed(alph) && len >= 1
    ensures var sp := ModSpace(alph, len);
      |Encode(alph, n)| == len <==> sp.mini <= n <= sp.maxi
  {
    SpaceBounds(alph, len);
    EncodeLength(alph, n, len);
  }

  /** The space sizes of three-symbol identifiers: 25 * 33 * 33 and 20 * 28 * 28. */
  lemma ThreeSymbolSpaces(alph: string)
    requires WellFormed(alph) && (|alph| == 33 || |alph| == 28)
    ensures |alph| == 33 ==> ModSpace(alph, 3).size == 25 * 33 * 33
    ensures |alph| == 28 ==> ModSpace(alph, 3).size == 20 * 28 * 28
  {
    SpaceSize(alph, 3);
    assert Pow(|alph|, 2) == |alph| * |alph|;
  }

  /** The step of the walk: mini plus the first seed >= `seed` coprime with the size. */
  function Step(alph: string, len: nat, seed: int): (k: int)
    requires WellFormed(alph) && len >= 1
    ensures IsCoprime(k, ModSpace(alph, len).size)
    ensures k - ModSpace(alph, len).mini >= seed
  {
    var sp := ModSpace(alph, len);
    sp.mini + CoprimeSeed(sp.mini, sp.size, seed)
  }

  /**
   * increment_fancy on a valid identifier: its number, moved by the step
   * inside the mod space of its length.
   */
  function Next(alph: string, s: string, seed: int): (r: string)
    requires WellFormed(alph) && IsIdentifier(alph, s)
    ensures IsIdentifier(alph, r) && |r| == |s|
    ensures var sp := ModSpace(alph, |s|);
      Decode(alph, r) == Move(sp.mini, sp.size, Step(alph, |s|, seed), Decode(alph, s))
  {
    var sp := ModSpace(alph, |s|);
    var n := Move(sp.mini, sp.size, Step(alph, |s|, seed), Decode(alph, s));
    MoveInRange(sp.mini, sp.size, Step(alph, |s|, seed), Decode(alph, s));
    EncodeInSpace(alph, |s|, n);
    Encode(alph, n)
  }

  /** Next is the encoding of the moved number. */
  lemma NextIs(alph: string, s: string, seed: int, n: int)
    requires WellFormed(alph) && IsIdentifier(alph, s)
    requires n == Move(ModSpace(alph, |s|).mini, ModSpace(alph, |s|).size, Step(alph, |s|, seed), Decode(alph, s))
    ensures Next(alph, s, seed) == Encode(alph, n)
  {
  }

  /** The numbers of the mod space encode to identifiers of its length. */
  lemma EncodeInSpace(alph: string, len: nat, n: int)
    requires WellFormed(alph) && len >= 1
    requires ModSpace(alph, len).mini <= n <= ModSpace(alph, len).maxi
    ensures n >= 0 && |Encode(alph, n)| == len
  {
    SpaceOfLength(alph, len, n);
  }

  /** `i` applications of Next with the same seed. */
  function Orbit(alph: string, s: string, seed: int, i: nat): (r: string)
    requires WellFormed(alph) && IsIdentifier(alph, s)
    ensures IsIdentifier(alph, r) && |r| == |s|
  {
    if i == 0 then s else Next(alph, Orbit(alph, s, seed, i - 1), seed)
  }

  /** Next on a string of length `len`, stated with the mod space of `len`. */
  lemma NextAt(alph: string, o: string, seed: int, len: nat)
    requires WellFormed(alph) && IsIdentifier(alph, o) && |o| == len
    ensures var sp, k := ModSpace(alph, len), Step(alph, len, seed);
      Decode(alph, Next(alph, o, seed)) == Move(sp.mini, sp.size, k, Decode(alph, o))
  {
  }

  /** One more application of Next moves the orbit's number by one step of the walk. */
  lemma OrbitStep(alph: string, s: string, seed: int, j: nat)
    requires WellFormed(alph) && IsIdentifier(alph, s)
    ensures var sp, k := ModSpace(alph, |s|), Step(alph, |s|, seed);
      Decode(alph, Orbit(alph, s, seed, j + 1)) == Move(sp.mini, sp.size, k, Decode(alph, Orbit(alph, s, seed, j)))
  {
    var o := Orbit(alph, s, seed, j);
    assert Orbit(alph, s, seed, j + 1) == Next(alph, o, seed);
    NextAt(alph, o, seed, |s|);
  }

  /** The numbers of the orbit are the walk through the mod space by the step. */
  lemma {:induction false} OrbitWalk(alph: string, s: string, seed: int, i: nat)
    requires WellFormed(alph) && IsIdentifier(alph, s)
    ensures var sp, k := ModSpace(alph, |s|), Step(alph, |s|, seed);
      Decode(alph, Orbit(alph, s, seed, i)) == Walk(sp.mini, sp.size, k, Decode(alph, s), i)
  {
    if i > 0 {
      var j := i - 1;
      OrbitWalk(alph, s, seed, j);
      OrbitStep(alph, s, seed, j);
    }
  }

  /**
   * The full cycle: `size` applications of Next return to the start, no
   * identifier is visited twice before that, and every identifier of the
   * same length is visited.
   */
  lemma FullCycle(alph: string, s: string, seed: int)
    requires WellFormed(alph) && IsIdentifier(alph, s)
    ensures Orbit(alph, s, seed, ModSpace(alph, |s|).size) == s
    ensures forall i, j :: 0 <= i < j < ModSpace(alph, |s|).size ==>
      Orbit(alph, s, seed, i) != Orbit(alph, s, seed, j)
    ensures forall w :: IsIdentifier(alph, w) && |w| == |s| ==> Visited(alph, s, seed, w)
  {
    OrbitReturns(alph, s, seed);
    forall i, j | 0 <= i < j < ModSpace(alph, |s|).size
      ensures Orbit(alph, s, seed, i) != Orbit(alph, s, seed, j)
    {
      OrbitDistinct(alph, s, seed, i, j);
    }
    forall w | IsIdentifier(alph, w) && |w| == |s|
      ensures Visited(alph, s, seed, w)
    {
      var i := OrbitReaches(alph, s, seed, w);
    }
  }

  /** `w` is one of the first `size` identifiers of the orbit of `s`. */
  ghost predicate Visited(alph: string, s: string, seed: int, w: string)
    requires WellFormed(alph) && IsIdentifier(alph, s)
  {
    exists i: nat :: i < ModSpace(alph, |s|).size && Orbit(alph, s, seed, i) == w
  }

  lemma OrbitReturns(alph: string, s: string, seed: int)
    requires WellFormed(alph) && IsIdentifier(alph, s)
    ensures Orbit(alph, s, seed, ModSpace(alph, |s|).size) == s
  {
    var sp, k := ModSpace(alph, |s|), Step(alph, |s|, seed);
    InSpace(alph, s);
    OrbitWalk(alph, s, seed, sp.size);
    WalkReturns(sp.mini, sp.size, k, Decode(alph, s));
    DecodeInjective(alph, Orbit(alph, s, seed, sp.size), s);
  }

  lemma OrbitDistinct(alph: string, s: string, seed: int, i: nat, j: nat)
    requires WellFormed(alph) && IsIdentifier(alph, s) && i < j < ModSpace(alph, |s|).size
    ensures Orbit(alph, s, seed, i) != Orbit(alph, s, seed, j)
  {
    var sp, k := ModSpace(alph, |s|), Step(alph, |s|, seed);
    InSpace(alph, s);
    OrbitWalk(alph, s, seed, i);
    OrbitWalk(alph, s, seed, j);
    WalkDistinct(sp.mini, sp.size, k, Decode(alph, s), i, j);
  }

  lemma OrbitReaches(alph: string, s: string, seed: int, w: string) returns (i: nat)
    requires WellFormed(alph) && IsIdentifier(alph, s)
    requires IsIdentifier(alph, w) && |w| == |s|
    ensures i < ModSpace(alph, |s|).size && Orbit(alph, s, seed, i) == w
  {
    var sp, k := ModSpace(alph, |s|), Step(alph, |s|, seed);
    InSpace(alph, s);
    InSpace(alph, w);
    i := WalkReaches(sp.mini, sp.size, k, Decode(alph, s), Decode(alph, w));
    OrbitWalk(alph, s, seed, i);
    DecodeInjective(alph, Orbit(alph, s, seed, i), w);
  }
}
