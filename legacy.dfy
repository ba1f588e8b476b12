/**
 * The older module-level erdi8 codec (erdi8.py at the repository root): a
 * fixed 33-symbol alphabet, a recursive successor, a recursive encoder and a
 * looping decoder. It has no validation: a symbol outside ALPH makes the
 * lookup in ALPH_MAP fail. The decoder looks up every symbol; the successor
 * looks up only the last symbol and the symbols its carry reaches
 * (CarryReads), and copies the rest unchanged.
 */
module Legacy {

  import opened Arith
  import opened Numeration
  import Alphabets

  /** The 33 symbols "23456789abcdefghijkmnopqrstuvwxyz" (Alphabets.FullSpelledOut). */
  const ALPH: string := Alphabets.FULL
  const ALPH_MAP: map<char, int> := RankMap(ALPH)
  const LEN: nat := |ALPH|

  /** The facts about ALPH the proofs use. */
  lemma AlphabetFacts()
    ensures WellFormed(ALPH) && LEN == 33
    ensures Top(ALPH) == 'z' && ALPH[OFFSET] == 'a' && ALPH[0] == '2'
  {
    Alphabets.AlphabetFacts(false);
    assert ALPH[OFFSET] == Alphabets.Symbol(OFFSET) && ALPH[0] == Alphabets.Symbol(0);
  }

  /** ALPH_MAP gives every symbol of ALPH its position. */
  lemma RankOf(c: char)
    requires c in ALPH
    ensures c in ALPH_MAP && ALPH_MAP[c] == Find(ALPH, c) && 0 <= ALPH_MAP[c] < LEN && ALPH[ALPH_MAP[c]] == c
  {
  }

  /**
   * The symbols increment looks up in ALPH_MAP: the last one, and every one
   * the carry reaches, that is every symbol followed only by 'z's. The
   * symbols left of those are copied without a lookup.
   */
  ghost predicate CarryReads(s: string) {
    forall k :: 0 < k <= |s| && AllTop(ALPH, s[k..]) ==> s[k - 1] in ALPH
  }

  /**
   * Successor: bump the last symbol; a last symbol 'z' wraps to '2' and the
   * carry goes into the prefix, and the empty prefix becomes "a".
   */
  function Increment(current: string): (r: string)
    requires CarryReads(current)
    ensures Value(ALPH, r) == Value(ALPH, current) + 1
    ensures Over(ALPH, current) ==> Over(ALPH, r)
  {
    AlphabetFacts();
    if current == [] then
      OneSymbol();
      [ALPH[OFFSET]]
    else
      var tail := current[|current| - 1];
      var prefix := current[..|current| - 1];
      ReadsSplit(current);
      RankOf(tail);
      LastSplit(current);
      var pos := ALPH_MAP[tail] + 1;
      if pos > |ALPH| - 1 then
        var p := Increment(prefix);
        WrapToFirst(pos);
        OverAppended(p, 0);
        CarryStep(ALPH, prefix, p);
        p + [ALPH[pos % LEN]]
      else
        OverAppended(prefix, pos);
        BumpStep(ALPH, prefix, pos - 1);
        prefix + [ALPH[pos]]
  }

  /**
   * The last symbol of a string the successor accepts is in ALPH, and when it
   * is 'z' the carry's prefix is accepted too.
   */
  lemma ReadsSplit(s: string)
    requires CarryReads(s) && s != []
    ensures s[|s| - 1] in ALPH
    ensures s[|s| - 1] == Top(ALPH) ==> CarryReads(s[..|s| - 1])
    ensures Over(ALPH, s) ==> Over(ALPH, s[..|s| - 1])
  {
    AlphabetFacts();
    assert AllTop(ALPH, s[|s|..]);
    var p := s[..|s| - 1];
    if s[|s| - 1] == Top(ALPH) {
      forall k | 0 < k <= |p| && AllTop(ALPH, p[k..])
        ensures p[k - 1] in ALPH
      {
        assert s[k..] == p[k..] + [s[|s| - 1]];
        assert AllTop(ALPH, s[k..]);
      }
    }
  }

  /** Appending a symbol of ALPH keeps a string over ALPH. */
  lemma OverAppended(p: string, i: nat)
    requires i < |ALPH|
    ensures Over(ALPH, p) ==> Over(ALPH, p + [ALPH[i]])
  {
  }

  /** A string over ALPH is one the successor accepts. */
  lemma OverReads(s: string)
    requires Over(ALPH, s)
    ensures CarryReads(s)
  {
  }

  /**
   * When the last symbol is not 'z', the successor reads that symbol alone:
   * whatever precedes it is copied, in ALPH or not, so for instance
   * increment("1a") is "1b" although '1' is not a symbol.
   */
  lemma ForeignFront(front: string, c: char)
    requires c in ALPH && c != Top(ALPH)
    ensures CarryReads(front + [c])
    ensures Increment(front + [c]) == front + [ALPH[Find(ALPH, c) + 1]]
  {
    var s := front + [c];
    forall k | 0 < k < |s|
      ensures !AllTop(ALPH, s[k..])
    {
      assert s[k..][|s| - 1 - k] == c;
    }
    BumpLast(s);
    assert s[..|s| - 1] == front;
  }

  /** A last symbol other than 'z' is raised by one rank and the rest is copied. */
  lemma BumpLast(s: string)
    requires CarryReads(s) && s != [] && s[|s| - 1] != Top(ALPH)
    ensures Find(ALPH, s[|s| - 1]) + 1 < LEN
    ensures Increment(s) == s[..|s| - 1] + [ALPH[Find(ALPH, s[|s| - 1]) + 1]]
  {
    AlphabetFacts();
    ReadsSplit(s);
    BelowTop(ALPH, s[|s| - 1]);
    BumpAt(s, Find(ALPH, s[|s| - 1]));
  }

  /** A symbol other than the last one of an alphabet has a rank below the last. */
  lemma BelowTop(alph: string, c: char)
    requires alph != [] && c in alph && c != Top(alph)
    ensures Find(alph, c) + 1 < |alph|
  {
  }

  /** BumpLast for the rank i of the last symbol. */
  lemma BumpAt(s: string, i: nat)
    requires CarryReads(s) && s != [] && s[|s| - 1] in ALPH
    requires i == Find(ALPH, s[|s| - 1]) && i + 1 < LEN
    ensures Increment(s) == s[..|s| - 1] + [ALPH[i + 1]]
  {
    RankOf(s[|s| - 1]);
  }

  /** Increment's result for the empty string is "a", worth one. */
  lemma OneSymbol()
    ensures Over(ALPH, [ALPH[OFFSET]]) && IsIdentifier(ALPH, [ALPH[OFFSET]])
    ensures Value(ALPH, [ALPH[OFFSET]]) == 1
  {
    AlphabetFacts();
    SingleSymbol(ALPH, OFFSET);
  }

  /** The position after 'z' wraps round to the first symbol, '2'. */
  lemma WrapToFirst(pos: int)
    requires pos == LEN
    ensures pos % LEN == 0 && ALPH[LEN - 1] == Top(ALPH)
  {
    AlphabetFacts();
    DivModUnique(LEN, LEN, 1, 0);
  }

  /**
   * Encoder: the quotient is bumped when the remainder plus OFFSET does not
   * fit in one symbol, and the rest of the quotient is encoded recursively.
   * A negative input yields a single symbol.
   */
  function EncodeInt(dec: int): (r: string)
    ensures dec >= 0 ==> IsIdentifier(ALPH, r) && Decode(ALPH, r) == dec
    ensures dec < 0 ==> |r| == 1 && r == [ALPH[Mod(Mod(dec, LEN) + OFFSET, LEN)]]
    decreases if dec < 0 then 0 else dec
  {
    AlphabetFacts();
    var div := Adjusted(dec);
    var last := [ALPH[Mod(Mod(dec, LEN) + OFFSET, LEN)]];
    if div >= 1 then
      QuotientBound(dec);
      var p := EncodeInt(div - 1);
      DigitOut(dec, p);
      p + last
    else if dec >= 0 then
      DigitOut(dec, []);
      assert [] + last == last;
      last
    else
      last
  }

  /** The quotient encode_int adjusts: bumped when the remainder plus OFFSET does not fit in one symbol. */
  function Adjusted(dec: int): int {
    AlphabetFacts();
    if Mod(dec, LEN) + OFFSET > LEN - 1 then Div(dec, LEN) + 1 else Div(dec, LEN)
  }

  /** A positive adjusted quotient comes from a non-negative input, and is at most that input. */
  lemma QuotientBound(dec: int)
    ensures Adjusted(dec) >= 1 ==> 0 <= Adjusted(dec) - 1 < dec
  {
    AlphabetFacts();
    DivModSpec(dec, LEN);
    if dec >= 0 {
      SplitDigits(dec, LEN);
    } else {
      DivMod(dec, LEN);
    }
  }

  /** The symbol encode_int selects, after the identifier of the adjusted quotient minus one, gives dec's identifier. */
  lemma DigitOut(dec: nat, p: string)
    requires Adjusted(dec) >= 1 ==> IsIdentifier(ALPH, p) && Value(ALPH, p) == Adjusted(dec)
    requires Adjusted(dec) < 1 ==> p == []
    ensures var r := p + [ALPH[Mod(Mod(dec, LEN) + OFFSET, LEN)]];
      IsIdentifier(ALPH, r) && Decode(ALPH, r) == dec
  {
    AlphabetFacts();
    DivModSpec(dec, LEN);
    DivModSpec(Mod(dec, LEN) + OFFSET, LEN);
    SplitDigits(dec, LEN);
    DivMod(dec + OFFSET, LEN);
    AppendDigit(ALPH, dec, p, (dec + OFFSET) / LEN, (dec + OFFSET) % LEN);
  }

  /** Decoder: accumulates each symbol's digit times LEN^counter, from the right. */
  method DecodeInt(e8: string) returns (r: int)
    requires Over(ALPH, e8)
    ensures r == Decode(ALPH, e8)
  {
    AlphabetFacts();
    var rest := e8;
    var result := 0;
    var counter: nat := 0;
    while rest != []
      invariant counter <= |e8| && rest == e8[..|e8| - counter]
      invariant result == Value(ALPH, e8[|e8| - counter..])
    {
      var tail := rest[|rest| - 1];
      DecodeTurn(ALPH, ALPH_MAP, e8, counter, result);
      rest := rest[..|rest| - 1];
      result := result + (ALPH_MAP[tail] + 1) * Pow(LEN, counter) - OFFSET * Pow(LEN, counter);
      counter := counter + 1;
    }
    assert e8[|e8| - counter..] == e8;
    r := result - 1;
  }

  /** The encoder and the decoder are inverse to each other. */
  lemma RoundTrip(n: nat, s: string)
    requires IsIdentifier(ALPH, s)
    ensures Decode(ALPH, EncodeInt(n)) == n
    ensures Decode(ALPH, s) >= 0 && EncodeInt(Decode(ALPH, s)) == s
  {
    AlphabetFacts();
    DecodeNatural(ALPH, s);
    DecodeInjective(ALPH, EncodeInt(Decode(ALPH, s)), s);
  }

  /** EncodeInt is the generic Encode instantiated with ALPH. */
  lemma EncodeIntIsEncode(n: nat)
    ensures EncodeInt(n) == Encode(ALPH, n)
  {
    AlphabetFacts();
    DecodeInjective(ALPH, EncodeInt(n), Encode(ALPH, n));
  }

  /** The two cases of Increment on a non-empty string. */
  lemma IncrementUnfold(s: string)
    requires Over(ALPH, s) && s != []
    ensures var prefix, tail := s[..|s| - 1], s[|s| - 1];
      && (tail == Top(ALPH) ==> Increment(s) == Increment(prefix) + [ALPH[0]])
      && (tail != Top(ALPH) ==> Find(ALPH, tail) + 1 < LEN && Increment(s) == prefix + [ALPH[Find(ALPH, tail) + 1]])
  {
    AlphabetFacts();
    var tail := s[|s| - 1];
    RankOf(tail);
    FindDistinct(ALPH, LEN - 1);
    if tail == Top(ALPH) {
      WrapToFirst(ALPH_MAP[tail] + 1);
    }
  }

  /** The successor of a string that may start an identifier is an identifier. */
  lemma {:induction false} IncrementIdentifier(s: string)
    requires Over(ALPH, s)
    ensures s == [] || Find(ALPH, s[0]) >= OFFSET ==> IsIdentifier(ALPH, Increment(s))
  {
    if s == [] {
      OneSymbol();
    } else if Find(ALPH, s[0]) >= OFFSET {
      var prefix := s[..|s| - 1];
      OverPrefix(ALPH, s, |s| - 1);
      if s[|s| - 1] == Top(ALPH) {
        IncrementIdentifier(prefix);
        CarryIdentifier(s);
      } else {
        NoCarryIdentifier(s);
      }
    }
  }

  lemma CarryIdentifier(s: string)
    requires Over(ALPH, s) && s != [] && Find(ALPH, s[0]) >= OFFSET && s[|s| - 1] == Top(ALPH)
    requires Over(ALPH, s[..|s| - 1]) && IsIdentifier(ALPH, Increment(s[..|s| - 1]))
    ensures IsIdentifier(ALPH, Increment(s))
  {
    AlphabetFacts();
    IncrementUnfold(s);
    AppendIdentifier(ALPH, Increment(s[..|s| - 1]), ALPH[0]);
  }

  lemma NoCarryIdentifier(s: string)
    requires Over(ALPH, s) && s != [] && Find(ALPH, s[0]) >= OFFSET && s[|s| - 1] != Top(ALPH)
    ensures IsIdentifier(ALPH, Increment(s))
  {
    AlphabetFacts();
    IncrementUnfold(s);
    var prefix, tail := s[..|s| - 1], s[|s| - 1];
    var c := ALPH[Find(ALPH, tail) + 1];
    OverPrefix(ALPH, s, |s| - 1);
    OverAppend(ALPH, prefix, Find(ALPH, tail) + 1);
    if |s| == 1 {
      FindDistinct(ALPH, Find(ALPH, tail) + 1);
      assert prefix + [c] == [c];
    } else {
      assert (prefix + [c])[0] == s[0];
    }
  }

  /**
   * Increment keeps the length unless every symbol is 'z', and keeps every
   * prefix that ends before the trailing run of 'z's and the symbol before it.
   */
  lemma {:induction false} IncrementShape(s: string)
    requires Over(ALPH, s)
    ensures Shaped(ALPH, s, Increment(s))
  {
    if s == [] {
      OneSymbol();
    } else {
      OverPrefix(ALPH, s, |s| - 1);
      if s[|s| - 1] == Top(ALPH) {
        IncrementShape(s[..|s| - 1]);
        CarryShaped(s);
      } else {
        NoCarryShaped(s);
      }
    }
  }

  lemma CarryShaped(s: string)
    requires Over(ALPH, s) && s != [] && s[|s| - 1] == Top(ALPH)
    requires Over(ALPH, s[..|s| - 1]) && Shaped(ALPH, s[..|s| - 1], Increment(s[..|s| - 1]))
    ensures Shaped(ALPH, s, Increment(s))
  {
    IncrementUnfold(s);
    LastSplit(s);
    CarryShape(ALPH, s[..|s| - 1], Increment(s[..|s| - 1]), ALPH[0]);
  }

  lemma NoCarryShaped(s: string)
    requires Over(ALPH, s) && s != [] && s[|s| - 1] != Top(ALPH)
    ensures Shaped(ALPH, s, Increment(s))
  {
    IncrementUnfold(s);
    LastSplit(s);
    NoCarryShape(ALPH, s[..|s| - 1], s[|s| - 1], ALPH[Find(ALPH, s[|s| - 1]) + 1]);
  }

  /** The successor of an identifier decodes to the next number. */
  lemma IncrementDecode(s: string)
    requires IsIdentifier(ALPH, s)
    ensures Decode(ALPH, Increment(s)) == Decode(ALPH, s) + 1
    ensures Increment(s) == EncodeInt(Decode(ALPH, s) + 1)
  {
    AlphabetFacts();
    DecodeNatural(ALPH, s);
    IncrementIdentifier(s);
    DecodeInjective(ALPH, Increment(s), EncodeInt(Decode(ALPH, s) + 1));
  }

  /** Increment gives Encode's string for the next number, the empty string included. */
  lemma IncrementIsEncode(s: string)
    requires s == [] || IsIdentifier(ALPH, s)
    ensures Decode(ALPH, s) >= -1 && Increment(s) == Encode(ALPH, Decode(ALPH, s) + 1)
  {
    AlphabetFacts();
    if s != [] {
      DecodeNatural(ALPH, s);
    }
    IncrementIdentifier(s);
    DecodeInjective(ALPH, Increment(s), Encode(ALPH, Decode(ALPH, s) + 1));
  }

  /** increment("z" * k) == "a" + "2" * k. */
  lemma {:induction false} IncrementTopRun(k: nat)
    ensures Over(ALPH, Repeat('z', k)) && Increment(Repeat('z', k)) == ['a'] + Repeat('2', k)
  {
    AlphabetFacts();
    OverRepeat(ALPH, LEN - 1, k);
    if k == 0 {
      OneSymbol();
    } else {
      IncrementTopRun(k - 1);
      TopRunStep(k);
    }
  }

  lemma TopRunStep(k: nat)
    requires k > 0 && Over(ALPH, Repeat('z', k - 1)) && Increment(Repeat('z', k - 1)) == ['a'] + Repeat('2', k - 1)
    requires Over(ALPH, Repeat('z', k)) && Top(ALPH) == 'z' && ALPH[0] == '2'
    ensures Increment(Repeat('z', k)) == ['a'] + Repeat('2', k)
  {
    TopRunUnfold(k);
    AppendTwo(k);
  }

  lemma AppendTwo(k: nat)
    requires k > 0
    ensures (['a'] + Repeat('2', k - 1)) + ['2'] == ['a'] + Repeat('2', k)
  {
    var twos := Repeat('2', k - 1);
    assert (['a'] + twos) + ['2'] == ['a'] + (twos + ['2']);
  }

  /** A run of 'z' increments to the increment of the shorter run, followed by the first symbol. */
  lemma TopRunUnfold(k: nat)
    requires k > 0 && Over(ALPH, Repeat('z', k)) && Top(ALPH) == 'z'
    ensures Over(ALPH, Repeat('z', k - 1))
    ensures Increment(Repeat('z', k)) == Increment(Repeat('z', k - 1)) + [ALPH[0]]
  {
    var s := Repeat('z', k);
    assert s[..k - 1] == Repeat('z', k - 1);
    IncrementUnfold(s);
  }

  /** `k` successive increments. */
  function IncrementTimes(s: string, k: nat): (r: string)
    requires Over(ALPH, s)
    ensures Over(ALPH, r) && Value(ALPH, r) == Value(ALPH, s) + k
    ensures IsIdentifier(ALPH, s) ==> IsIdentifier(ALPH, r)
  {
    if k == 0 then s
    else
      var p := IncrementTimes(s, k - 1);
      IncrementIdentifier(p);
      Increment(p)
  }

  /** Counting up from "a" visits the identifiers of 0, 1, 2, ... in order. */
  lemma CountingUp(k: nat)
    ensures IncrementTimes(EncodeInt(0), k) == EncodeInt(k)
  {
    AlphabetFacts();
    DecodeInjective(ALPH, IncrementTimes(EncodeInt(0), k), EncodeInt(k));
  }

  /** encode_int(0) is "a". */
  lemma EncodeZero()
    ensures EncodeInt(0) == "a"
  {
    AlphabetFacts();
    SplitDigits(0, LEN);
  }

  /** "ifa" is the identifier of the number 9999. */
  lemma IfaValue()
    ensures Decode(ALPH, "ifa") == 9999
  {
    AlphabetFacts();
    assert ALPH[16] == 'i' && ALPH[13] == 'f' && ALPH[8] == 'a';
    FindDistinct(ALPH, 16);
    FindDistinct(ALPH, 13);
    FindDistinct(ALPH, 8);
    ValueTwo(ALPH, 'i', 'f');
    ValueThree(ALPH, 'i', 'f', 'a');
    assert Value(ALPH, "if") == 9 * 33 + 6;
  }

  lemma IfaIdentifier()
    ensures IsIdentifier(ALPH, "ifa")
  {
    AlphabetFacts();
    IdentifierThree(ALPH, 16, 13, 8);
    assert [ALPH[16], ALPH[13], ALPH[8]] == "ifa";
  }

  /** The known values: "a" is 0 and 9999 increments of "a" give "ifa". */
  lemma KnownValues()
    ensures EncodeInt(0) == "a"
    ensures Over(ALPH, "a") && IncrementTimes("a", 9999) == "ifa"
  {
    AlphabetFacts();
    EncodeZero();
    IfaValue();
    IfaIdentifier();
    CountingUp(9999);
    DecodeInjective(ALPH, EncodeInt(9999), "ifa");
  }
}
