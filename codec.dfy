/**
 * The Erdi8 class of erdi8/erdi8.py: an alphabet fixed at construction (the
 * 33-symbol one, or the 28-symbol safe one without vowels) and its rank map,
 * and the validating codec operations on it, written as the loops the class
 * uses. Every operation is proved against the alphabet-independent
 * numeration, and with the 33-symbol alphabet against the older
 * module-level codec.
 */
module Codec {

  import opened Arith
  import opened Numeration
  import opened Coprime
  import Alphabets
  import Legacy
  import Fancy
  import opened Loops

  /** A result or nothing; None stands for Python's None. */
  datatype Option<T> = None | Some(value: T)

  /** A string in safe mode that holds a vowel is never valid. */
  lemma VowelsRejected(s: string, j: nat)
    requires j < |s| && s[j] in Alphabets.UNSAFE
    ensures !IsIdentifier(Alphabets.Alphabet(true), s)
  {
    Alphabets.SafeHasNoVowels(s[j]);
  }

  class Erdi8 {
    const safe: bool
    const alph: string
    const alphMap: map<char, int>
    const alphLen: nat

    /**
     * What every operation relies on: the rank map and the length belong to
     * the alphabet, its symbols are distinct and more than OFFSET, and the
     * last one is 'z'. The operations are proved for any such alphabet.
     */
    ghost predicate Valid() {
      && alphMap == RankMap(alph) && alphLen == |alph|
      && WellFormed(alph) && Top(alph) == 'z'
    }

    /** Which alphabet the instance holds: the safe one or the full one. */
    ghost predicate Named() {
      alph == Alphabets.Alphabet(safe)
    }

    /** The alphabet drops the vowels in safe mode; the rank map gives each symbol its position. */
    constructor (safe: bool)
      ensures this.safe == safe && Valid() && Named()
    {
      this.safe := safe;
      var a := Alphabets.FULL;
      if safe {
        a := Alphabets.Strip(a);
        Alphabets.StripIsSafe();
      }
      alph := a;
      alphMap := RankMap(a);
      alphLen := |a|;
      Alphabets.AlphabetFacts(safe);
    }

    /** The facts about the instance's alphabet the proofs use. */
    lemma Facts()
      requires Valid() && Named()
      ensures alphLen == if safe then 28 else 33
      ensures !safe ==> alph == Legacy.ALPH
    {
      Alphabets.AlphabetFacts(safe);
    }

    /**
     * check: the empty string passes; any other string passes when its first
     * symbol is not one of the first OFFSET symbols and every symbol belongs
     * to the alphabet.
     */
    method Check(s: string) returns (ok: bool)
      requires Valid()
      ensures ok <==> s == [] || IsIdentifier(alph, s)
    {
      if s == [] {
        return true;
      }
      ok := s[0] !in alph[..OFFSET];
      for i := 0 to |s|
        invariant ok <==> s[0] !in alph[..OFFSET] && Over(alph, s[..i])
      {
        assert s[..i + 1] == s[..i] + [s[i]];
        if s[i] !in alphMap {
          ok := false;
        }
      }
      assert s[..|s|] == s;
      if s[0] in alph {
        LeadingRank(alph, s[0]);
      }
    }

    /**
     * increment: the successor of a valid string, or None for an invalid one.
     * The empty string's successor is the symbol of rank OFFSET. The loop
     * raises the symbol under the cursor by one rank; a symbol past the last
     * wraps to the first and moves the cursor left, and a carry past the
     * front inserts the symbol of rank OFFSET - 1, which the carry then
     * raises to rank OFFSET.
     */
    method Increment(current: string) returns (r: Option<string>)
      requires Valid()
      ensures r == None <==> current != [] && !IsIdentifier(alph, current)
      ensures r.Some? ==> IsIdentifier(alph, r.value) && Decode(alph, r.value) == Decode(alph, current) + 1
      ensures r.Some? ==> Shaped(alph, current, r.value)
      ensures r.Some? ==> Decode(alph, current) >= -1 && r.value == Encode(alph, Decode(alph, current) + 1)
    {
      if current == [] {
        Overflow(alph, current);
        assert [alph[OFFSET]] + Repeat(alph[0], 0) == [alph[OFFSET]];
        r := Some([alph[OFFSET]]);
        SuccessorIsEncode(alph, current, r.value);
        return;
      }
      var ok := Check(current);
      if !ok {
        return None;
      }
      var next := Carry(current);
      r := Some(next);
      SuccessorIsEncode(alph, current, next);
    }

    /**
     * The loop of increment on a valid non-empty string: the cursor starts
     * on the last symbol and moves left while the raised symbol wraps.
     */
    method Carry(current: string) returns (cur: string)
      requires Valid() && IsIdentifier(alph, current)
      ensures Finished(alph, current, cur)
    {
      cur := current;
      var carry := true;
      var count := 1;
      while carry
        invariant carry ==> Carrying(alph, current, cur, count)
        invariant !carry ==> Finished(alph, current, cur)
        decreases if carry then |current| + 2 - count else 0
      {
        ghost var before, counted := cur, count;
        CarryCursor(alph, alphMap, current, cur, count);
        var p := |cur| - count;
        var c := cur[p];
        var pos := alphMap[c] + 1;
        cur := cur[p := alph[Mod(pos, alphLen)]];
        ghost var mid := cur;
        if pos >= alphLen {
          count := count + 1;
        } else {
          carry := false;
        }
        if count > |cur| {
          cur := [alph[OFFSET - 1]] + cur;
        }
        CarryAdvance(alph, alphLen, current, before, counted, pos, mid, count, cur);
      }
    }

    /**
     * encode_int: the last digit is split off first, and every further
     * quotient adds one symbol in front. A negative number yields the single
     * symbol its remainder selects.
     */
    method EncodeInt(n: int) returns (r: string)
      requires Valid()
      ensures n >= 0 ==> IsIdentifier(alph, r) && Decode(alph, r) == n && r == Encode(alph, n)
      ensures n < 0 ==> r == [alph[Mod(Mod(n, alphLen) + OFFSET, alphLen)]]
    {
      var result := "";
      var mod := Mod(n, alphLen);
      var div := Div(n, alphLen);
      if mod + OFFSET > alphLen - 1 {
        div := div + 1;
      }
      mod := mod + OFFSET;
      ghost var m: nat := if n >= 0 then n else 0;
      EncodeStart(alph, alphLen, n, m, div, mod);
      while div >= 1
        invariant div >= 1 ==> n >= 0
        invariant n >= 0 ==> Pending(alph, alphLen, m, div, mod) && Encode(alph, n) == Encode(alph, m) + result
        invariant n < 0 ==> result == [] && mod == Mod(n, alphLen) + OFFSET
        decreases m
      {
        ghost var m0, div0, mod0, result0 := m, div, mod, result;
        div := div - 1;
        result := [alph[Mod(mod, alphLen)]] + result;
        m := div;
        mod := Mod(div, alphLen);
        div := Div(div, alphLen);
        if mod + OFFSET > alphLen - 1 {
          div := div + 1;
        }
        mod := mod + OFFSET;
        EmitDigit(alph, alphLen, n, m0, div0, mod0, result0, m, div, mod, result);
      }
      r := [alph[Mod(mod, alphLen)]] + result;
      EncodeFinish(alph, alphLen, n, m, div, mod, result, r);
    }

    /**
     * decode_int: None for a string check rejects; otherwise each symbol,
     * from the right, adds its digit times alph_len ** counter.
     */
    method DecodeInt(e8: string) returns (r: Option<int>)
      requires Valid()
      ensures r == None <==> e8 != [] && !IsIdentifier(alph, e8)
      ensures r.Some? ==> r.value == Decode(alph, e8)
      ensures r.Some? && e8 != [] ==> r.value >= 0 && Encode(alph, r.value) == e8
    {
      var ok := Check(e8);
      if !ok {
        return None;
      }
      var rest := e8;
      var result := 0;
      var counter: nat := 0;
      while rest != []
        invariant counter <= |e8| && rest == e8[..|e8| - counter]
        invariant result == Value(alph, e8[|e8| - counter..])
      {
        var tail := rest[|rest| - 1];
        DecodeTurn(alph, alphMap, e8, counter, result);
        rest := rest[..|rest| - 1];
        result := result + (alphMap[tail] + 1) * Pow(alphLen, counter) - OFFSET * Pow(alphLen, counter);
        counter := counter + 1;
      }
      assert e8[|e8| - counter..] == e8;
      r := Some(result - 1);
      if e8 != [] {
        EncodeDecode(alph, e8);
      }
    }

    /**
     * increment_fancy: None for a string check rejects. Otherwise the mod
     * space of the identifier's length runs from one past the number of the
     * 'z' run one shorter to the number of the 'z' run as long; the seed is
     * raised until mini + seed is coprime with the size of the space, and the
     * result is the identifier of mini + (number + seed) mod size.
     */
    method IncrementFancy(current: string, seed: int) returns (r: Option<string>)
      requires Valid() && current != []
      ensures r == None <==> !IsIdentifier(alph, current)
      ensures r.Some? ==> r.value == Fancy.Next(alph, current, seed)
    {
      var ok := Check(current);
      if !ok {
        return None;
      }
      var mini, maxi, space := ModSpace(|current|);
      var t := SeedSearch(mini, space, seed);
      var d := DecodeInt(current);
      var number := d.value;
      var n := mini + Mod(number + t, space);
      FancyStep(alph, current, seed, mini, maxi, space, t, number, n);
      var next := EncodeInt(n);
      r := Some(next);
    }

    /**
     * The mod space of increment_fancy for identifiers of `length` symbols,
     * from the numbers of the two runs of 'z'.
     */
    method ModSpace(length: nat) returns (mini: int, maxi: int, space: int)
      requires Valid() && length >= 1
      ensures Fancy.Space(mini, maxi, space) == Fancy.ModSpace(alph, length)
    {
      TopRunIdentifier(alph, length);
      if length > 1 {
        TopRunIdentifier(alph, length - 1);
      }
      var lo := DecodeInt(Repeat('z', length - 1));
      var hi := DecodeInt(Repeat('z', length));
      mini := lo.value + 1;
      maxi := hi.value;
      space := maxi - mini + 1;
    }

    /** The seed search of increment_fancy: raise the seed until mini + seed is coprime with the space. */
    method SeedSearch(mini: int, space: int, seed: int) returns (t: int)
      requires space >= 1
      ensures t == CoprimeSeed(mini, space, seed)
    {
      t := seed;
      while Gcd(Abs(mini + t), space) != 1
        invariant CoprimeSeed(mini, space, t) == CoprimeSeed(mini, space, seed)
        decreases Mod(1 - (mini + t), space)
      {
        SearchProgress(mini + t, space);
        t := t + 1;
      }
    }

    /** With the full alphabet, EncodeInt computes the older module-level encode_int, negative inputs included. */
    lemma EncodeIntIsLegacy(n: int)
      requires Valid() && Named() && !safe
      ensures n >= 0 ==> Legacy.EncodeInt(n) == Encode(alph, n)
      ensures n < 0 ==> Legacy.EncodeInt(n) == [alph[Mod(Mod(n, alphLen) + OFFSET, alphLen)]]
    {
      Facts();
      if n >= 0 {
        Legacy.EncodeIntIsEncode(n);
      }
    }

    /**
     * With the full alphabet, the successor Increment returns is the one the
     * older module-level increment computes.
     */
    lemma IncrementIsLegacy(current: string)
      requires Valid() && Named() && !safe && (current == [] || IsIdentifier(alph, current))
      ensures Over(Legacy.ALPH, current)
      ensures Decode(alph, current) + 1 >= 0 && Encode(alph, Decode(alph, current) + 1) == Legacy.Increment(current)
    {
      Facts();
      Legacy.IncrementIsEncode(current);
    }
  }
}
