/**
 * The loop states of the Erdi8 class and the lemmas that carry them across
 * one turn: increment's cursor and carry, encode_int's pending quotient and
 * remainder, and the step increment_fancy takes.
 */
module Loops {

  import opened Arith
  import opened Numeration
  import opened Coprime
  import Fancy

  /** The step increment_fancy takes, once the seed search stopped at t, is Fancy.Next's. */
  lemma FancyStep(alph: string, current: string, seed: int, mini: int, maxi: int, space: int, t: int, d: int, n: int)
    requires WellFormed(alph) && IsIdentifier(alph, current) && d == Decode(alph, current)
    requires Fancy.Space(mini, maxi, space) == Fancy.ModSpace(alph, |current|)
    requires t == CoprimeSeed(mini, space, seed) && n == mini + Mod(d + t, space)
    ensures n >= 0 && Encode(alph, n) == Fancy.Next(alph, current, seed)
  {
    StepIs(alph, |current|, seed, mini, maxi, space, t);
    MoveShift(mini, space, Fancy.Step(alph, |current|, seed), d, t);
    Fancy.NextIs(alph, current, seed, n);
  }

  /** The step of the walk is mini plus the seed the search found. */
  lemma StepIs(alph: string, len: nat, seed: int, mini: int, maxi: int, space: int, t: int)
    requires WellFormed(alph) && len >= 1
    requires Fancy.Space(mini, maxi, space) == Fancy.ModSpace(alph, len)
    requires t == CoprimeSeed(mini, space, seed)
    ensures mini >= 0 && space >= 1 && Fancy.Step(alph, len, seed) == mini + t
  {
  }

  /** A step of mini + t from d lands on mini plus the remainder of d + t. */
  lemma MoveShift(mini: int, space: nat, k: int, d: int, t: int)
    requires space >= 1 && k == mini + t
    ensures Move(mini, space, k, d) == mini + Mod(d + t, space)
  {
    DivModSpec(d + t, space);
    assert d - mini + k == d + t;
  }

  /**
   * The state of increment's loop while the carry is set: the `count - 1`
   * symbols right of the cursor were the last symbol and are now the first;
   * past the front, the symbol of rank OFFSET - 1 has been inserted.
   */
  ghost predicate Carrying(alph: string, current: string, cur: string, count: nat)
    requires WellFormed(alph)
  {
    && IsIdentifier(alph, current) && 1 <= count <= |current| + 1
    && AllTop(alph, current[|current| - count + 1..])
    && (count <= |current| ==> cur == current[..|current| - count + 1] + Repeat(alph[0], count - 1))
    && (count == |current| + 1 ==> cur == [alph[OFFSET - 1]] + Repeat(alph[0], |current|))
  }

  /** The state of increment's loop once the carry is cleared: the successor is reached. */
  ghost predicate Finished(alph: string, current: string, cur: string)
    requires WellFormed(alph)
  {
    IsIdentifier(alph, cur) && Value(alph, cur) == Value(alph, current) + 1 && Shaped(alph, current, cur)
  }

  /** While the carry is set, the cursor is inside the string, on a symbol the rank map knows. */
  lemma CarryCursor(alph: string, alphMap: map<char, int>, current: string, cur: string, count: nat)
    requires WellFormed(alph) && alphMap == RankMap(alph) && Carrying(alph, current, cur, count)
    ensures 1 <= count <= |cur| && cur[|cur| - count] in alphMap
    ensures alphMap[cur[|cur| - count]] == Find(alph, cur[|cur| - count])
  {
    if count <= |current| {
      assert cur[|cur| - count] == current[|cur| - count];
    }
  }

  /**
   * One turn of increment's loop: the symbol under the cursor is raised one
   * rank, wrapping past the last; a wrap moves the cursor left, and a cursor
   * past the front inserts the symbol of rank OFFSET - 1.
   */
  ghost predicate Turn(alph: string, alphLen: nat, before: string, count: nat,
                       pos: int, mid: string, count': nat, cur: string)
    requires WellFormed(alph) && alphLen == |alph| && 1 <= count <= |before|
  {
    && pos == Find(alph, before[|before| - count]) + 1
    && mid == before[|before| - count := alph[Mod(pos, alphLen)]]
    && count' == (if pos >= alphLen then count + 1 else count)
    && cur == if count' > |mid| then [alph[OFFSET - 1]] + mid else mid
  }

  /** One turn of increment's loop keeps Carrying, or ends in Finished when the carry clears. */
  lemma CarryAdvance(alph: string, alphLen: nat, current: string, before: string, count: nat,
                     pos: int, mid: string, count': nat, cur: string)
    requires WellFormed(alph) && alphLen == |alph| && Carrying(alph, current, before, count) && count <= |before|
    requires Turn(alph, alphLen, before, count, pos, mid, count', cur)
    ensures count' > count ==> Carrying(alph, current, cur, count')
    ensures count' == count ==> Finished(alph, current, cur)
  {
    if count > |current| {
      OverflowStep(alph, alphLen, current, before, pos, mid, count', cur);
    } else if pos >= alphLen {
      WrapStep(alph, alphLen, current, before, count, pos, mid, count', cur);
    } else {
      StopStep(alph, alphLen, current, before, count, pos, mid, count', cur);
    }
  }

  /** A turn that stops: the cursor's symbol was not the last one. */
  lemma StopStep(alph: string, alphLen: nat, current: string, before: string, count: nat,
                 pos: int, mid: string, count': nat, cur: string)
    requires WellFormed(alph) && alphLen == |alph| && Carrying(alph, current, before, count) && count <= |current|
    requires Turn(alph, alphLen, before, count, pos, mid, count', cur)
    requires pos < alphLen
    ensures count' == count && Finished(alph, current, cur)
  {
    var p := |current| - count;
    assert before[p] == current[p];
    assert current[p] in alph;
    assert current[p] != Top(alph) by {
      FindDistinct(alph, |alph| - 1);
    }
    assert cur == StopAt(alph, current, p);
    StopValue(alph, current, p);
    StopIdentifier(alph, current, p);
    StopShape(alph, current, p);
  }

  /** A turn that wraps the last symbol round to the first and moves the cursor left. */
  lemma WrapStep(alph: string, alphLen: nat, current: string, before: string, count: nat,
                 pos: int, mid: string, count': nat, cur: string)
    requires WellFormed(alph) && alphLen == |alph| && Carrying(alph, current, before, count) && count <= |current|
    requires Turn(alph, alphLen, before, count, pos, mid, count', cur)
    requires pos >= alphLen
    ensures count' == count + 1 && Carrying(alph, current, cur, count')
  {
    var p := |current| - count;
    assert current[p] in alph;
    WrapMid(alph, current, before, count, pos, mid);
    TopExtend(alph, current, p);
    WrapCarry(alph, current, count, mid, cur);
  }

  /** After the wrap the run of first symbols is one longer, with the insertion once it covers the string. */
  lemma WrapCarry(alph: string, current: string, count: nat, mid: string, cur: string)
    requires WellFormed(alph) && IsIdentifier(alph, current) && 1 <= count <= |current|
    requires AllTop(alph, current[|current| - count..])
    requires mid == current[..|current| - count] + Repeat(alph[0], count)
    requires cur == if count + 1 > |mid| then [alph[OFFSET - 1]] + mid else mid
    ensures Carrying(alph, current, cur, count + 1)
  {
    if count == |current| {
      WrapAll(alph, current, mid, cur);
    } else {
      WrapInside(alph, current, count, cur);
    }
  }

  lemma WrapAll(alph: string, current: string, mid: string, cur: string)
    requires WellFormed(alph) && IsIdentifier(alph, current) && AllTop(alph, current)
    requires mid == current[..0] + Repeat(alph[0], |current|) && cur == [alph[OFFSET - 1]] + mid
    ensures Carrying(alph, current, cur, |current| + 1)
  {
    assert current[..0] == [];
  }

  lemma WrapInside(alph: string, current: string, count: nat, cur: string)
    requires WellFormed(alph) && IsIdentifier(alph, current) && 1 <= count < |current|
    requires AllTop(alph, current[|current| - count..])
    requires cur == current[..|current| - count] + Repeat(alph[0], count)
    ensures Carrying(alph, current, cur, count + 1)
  {
  }

  /** A last symbol in front of a run of last symbols lengthens the run. */
  lemma TopExtend(alph: string, s: string, p: nat)
    requires alph != [] && p < |s| && s[p] == Top(alph) && AllTop(alph, s[p + 1..])
    ensures AllTop(alph, s[p..])
  {
    forall i | 0 <= i < |s| - p
      ensures s[p..][i] == Top(alph)
    {
      if i > 0 {
        assert s[p..][i] == s[p + 1..][i - 1];
      }
    }
  }

  /** The wrapped symbol was the last one, and the string now ends in `count` first symbols. */
  lemma WrapMid(alph: string, current: string, before: string, count: nat, pos: int, mid: string)
    requires WellFormed(alph) && 1 <= count <= |current| && current[|current| - count] in alph
    requires before == current[..|current| - count + 1] + Repeat(alph[0], count - 1)
    requires pos == Find(alph, before[|before| - count]) + 1 && pos >= |alph|
    requires mid == before[|before| - count := alph[Mod(pos, |alph|)]]
    ensures current[|current| - count] == Top(alph)
    ensures mid == current[..|current| - count] + Repeat(alph[0], count)
  {
    var p := |current| - count;
    var front := current[..p + 1];
    assert before[p] == current[p];
    assert Mod(pos, |alph|) == 0;
    ReplaceLast(front, alph[0], count - 1);
    assert front[..p] == current[..p];
  }

  /** Replacing the last symbol of `front` by x lengthens the run of x behind it. */
  lemma ReplaceLast(front: string, x: char, k: nat)
    requires |front| >= 1
    ensures (front + Repeat(x, k))[|front| - 1 := x] == front[..|front| - 1] + Repeat(x, k + 1)
  {
    var r := Repeat(x, k + 1);
    assert [x] + Repeat(x, k) == r by {
      forall i | 0 <= i < k + 1
        ensures ([x] + Repeat(x, k))[i] == r[i]
      {
      }
    }
  }

  /** The turn after the insertion: the inserted symbol is raised to rank OFFSET. */
  lemma OverflowStep(alph: string, alphLen: nat, current: string, before: string,
                     pos: int, mid: string, count': nat, cur: string)
    requires WellFormed(alph) && alphLen == |alph| && Carrying(alph, current, before, |current| + 1)
    requires Turn(alph, alphLen, before, |current| + 1, pos, mid, count', cur)
    ensures count' == |current| + 1 && Finished(alph, current, cur)
  {
    FindDistinct(alph, OFFSET - 1);
    assert AllTop(alph, current);
    assert cur == [alph[OFFSET]] + Repeat(alph[0], |current|);
    Overflow(alph, current);
  }

  /**
   * Where encode_int stands: `div` is the quotient that still needs symbols
   * in front of the one `mod` selects, for the number m of those symbols.
   */
  ghost predicate Pending(alph: string, alphLen: nat, m: nat, div: int, mod: int)
    requires alphLen == |alph| > 0
  {
    div == Div(m + OFFSET, alphLen) && Mod(mod, alphLen) == Mod(m + OFFSET, alphLen)
  }

  /** Splitting m into quotient and remainder, then adjusting as encode_int does, gives Pending. */
  lemma DigitSplit(alph: string, alphLen: nat, m: nat, q: int, rem: int, div: int, mod: int)
    requires alphLen == |alph| > OFFSET
    requires q == Div(m, alphLen) && rem == Mod(m, alphLen)
    requires div == (if rem + OFFSET > alphLen - 1 then q + 1 else q) && mod == rem + OFFSET
    ensures Pending(alph, alphLen, m, div, mod)
  {
    DivModSpec(m, alphLen);
    DivModSpec(m + OFFSET, alphLen);
    DivModSpec(mod, alphLen);
    SplitDigits(m, alphLen);
  }

  /** Before encode_int's loop: the pending number is n itself, or the loop does not run. */
  lemma EncodeStart(alph: string, alphLen: nat, n: int, m: nat, div: int, mod: int)
    requires WellFormed(alph) && alphLen == |alph| && m == (if n >= 0 then n else 0)
    requires div == (if Mod(n, alphLen) + OFFSET > alphLen - 1 then Div(n, alphLen) + 1 else Div(n, alphLen))
    requires mod == Mod(n, alphLen) + OFFSET
    ensures n >= 0 ==> Pending(alph, alphLen, m, div, mod)
    ensures n < 0 ==> div <= 0
  {
    if n >= 0 {
      DigitSplit(alph, alphLen, m, Div(n, alphLen), Mod(n, alphLen), div, mod);
    } else {
      NegativeSplit(alphLen, n, div);
    }
  }

  /** After encode_int's loop: the symbol of the last remainder completes the encoding. */
  lemma EncodeFinish(alph: string, alphLen: nat, n: int, m: nat, div: int, mod: int, result: string, r: string)
    requires WellFormed(alph) && alphLen == |alph| && div < 1
    requires n >= 0 ==> Pending(alph, alphLen, m, div, mod) && Encode(alph, n) == Encode(alph, m) + result
    requires n < 0 ==> result == [] && mod == Mod(n, alphLen) + OFFSET
    requires r == [alph[Mod(mod, alphLen)]] + result
    ensures n >= 0 ==> IsIdentifier(alph, r) && Decode(alph, r) == n && r == Encode(alph, n)
    ensures n < 0 ==> r == [alph[Mod(Mod(n, alphLen) + OFFSET, alphLen)]]
  {
    if n >= 0 {
      LastDigitOut(alph, alphLen, n, m, div, mod, result);
    }
  }

  /** For a negative number the adjusted quotient is not positive, so the loop does not run. */
  lemma NegativeSplit(alphLen: nat, n: int, div: int)
    requires alphLen > OFFSET && n < 0
    requires div == Div(n, alphLen) || div == Div(n, alphLen) + 1
    ensures div <= 0
  {
    DivModSpec(n, alphLen);
    DivMod(n, alphLen);
    if n / alphLen >= 0 {
      MulLeq(0, n / alphLen, alphLen);
    }
  }

  /**
   * One turn of encode_int's loop: the symbol of the pending remainder goes in
   * front of the result, and m's quotient minus one becomes the pending number.
   */
  lemma EmitDigit(alph: string, alphLen: nat, n: nat, m: nat, div: int, mod: int, result: string,
                  m': nat, div': int, mod': int, result': string)
    requires WellFormed(alph) && alphLen == |alph| && div >= 1
    requires Pending(alph, alphLen, m, div, mod) && Encode(alph, n) == Encode(alph, m) + result
    requires m' == div - 1 && result' == [alph[Mod(mod, alphLen)]] + result
    requires div' == (if Mod(m', alphLen) + OFFSET > alphLen - 1 then Div(m', alphLen) + 1 else Div(m', alphLen))
    requires mod' == Mod(m', alphLen) + OFFSET
    ensures m' < m
    ensures Pending(alph, alphLen, m', div', mod') && Encode(alph, n) == Encode(alph, m') + result'
  {
    EmitFront(alph, alphLen, n, m, div, mod, result, m');
    DigitSplit(alph, alphLen, m', Div(m', alphLen), Mod(m', alphLen), div', mod');
  }

  /** The symbol of the pending remainder, in front of the result, leaves m's quotient minus one to encode. */
  lemma EmitFront(alph: string, alphLen: nat, n: nat, m: nat, div: int, mod: int, result: string, m': nat)
    requires WellFormed(alph) && alphLen == |alph| && div >= 1 && m' == div - 1
    requires Pending(alph, alphLen, m, div, mod) && Encode(alph, n) == Encode(alph, m) + result
    ensures m' < m
    ensures Encode(alph, n) == Encode(alph, m') + ([alph[Mod(mod, alphLen)]] + result)
  {
    QuotientBounds(alphLen, m);
    var i := Mod(mod, alphLen);
    assert i < |alph|;
    EncodeFront(alph, m, m');
    Regroup(Encode(alph, n), Encode(alph, m), Encode(alph, m'), [alph[i]], result);
  }

  /** A string split in front of its last part, regrouped. */
  lemma Regroup(whole: string, front: string, e: string, x: string, result: string)
    requires whole == front + result && front == e + x
    ensures whole == e + (x + result)
  {
  }

  /** A quotient of zero: the selected symbol is all of m's identifier. */
  lemma LastDigitOut(alph: string, alphLen: nat, n: nat, m: nat, div: int, mod: int, result: string)
    requires WellFormed(alph) && alphLen == |alph| && div < 1
    requires Pending(alph, alphLen, m, div, mod) && Encode(alph, n) == Encode(alph, m) + result
    ensures Encode(alph, n) == [alph[Mod(mod, alphLen)]] + result
  {
    QuotientBounds(alphLen, m);
    EncodeSingle(alph, m);
  }

  /** The quotient encode_int continues with is not negative, and smaller than m once decremented. */
  lemma QuotientBounds(b: nat, m: nat)
    requires b > OFFSET
    ensures Div(m + OFFSET, b) >= 0
    ensures Div(m + OFFSET, b) >= 1 ==> Div(m + OFFSET, b) - 1 < m
  {
    DivModSpec(m + OFFSET, b);
    SplitDigits(m, b);
  }

  /** With a positive quotient k + 1, m's identifier is k's followed by the remainder's symbol. */
  lemma EncodeFront(alph: string, m: nat, k: nat)
    requires WellFormed(alph) && k + 1 == Div(m + OFFSET, |alph|)
    ensures Encode(alph, m) == Encode(alph, k) + [alph[Mod(m + OFFSET, |alph|)]]
  {
    EncodeSplit(alph, m);
  }

  /** With a zero quotient, m's identifier is the remainder's symbol alone. */
  lemma EncodeSingle(alph: string, m: nat)
    requires WellFormed(alph) && Div(m + OFFSET, |alph|) == 0
    ensures Encode(alph, m) == [alph[Mod(m + OFFSET, |alph|)]]
  {
    EncodeSplit(alph, m);
  }

  /** A successor whose value is one more is Encode's string for the next number. */
  lemma SuccessorIsEncode(alph: string, current: string, next: string)
    requires WellFormed(alph) && (current == [] || IsIdentifier(alph, current))
    requires IsIdentifier(alph, next) && Decode(alph, next) == Decode(alph, current) + 1
    ensures Decode(alph, current) + 1 >= 0 && next == Encode(alph, Decode(alph, current) + 1)
  {
    DecodeNatural(alph, next);
    DecodeInjective(alph, next, Encode(alph, Decode(alph, current) + 1));
  }
}
