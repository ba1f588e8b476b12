/**
 * The erdi8 numeral system, independent of any particular alphabet.
 *
 * An alphabet of B distinct symbols is given; the first OFFSET = 8 of them
 * (the digit-like ones) may not start an identifier. A symbol of rank r
 * contributes the digit r + 1 - OFFSET, i.e. a digit in [-7, B - 8], to the
 * value of a string read in base B, and decoding subtracts one more. This is
 * a biased variant of bijective base-B numeration: every natural number has
 * exactly one identifier (a non-empty string whose first symbol has rank at
 * least OFFSET), and the identifiers of length L are exactly the numbers in
 * [Hi(B, L - 1), Hi(B, L) - 1].
 */
module Numeration {

  import opened Arith

  /** Number of leading alphabet symbols that may not start an identifier. */
  const OFFSET: nat := 8

  function Pow(b: nat, e: nat): (r: nat)
    ensures b >= 1 ==> r >= 1
  {
    if e == 0 then 1 else b * Pow(b, e - 1)
  }

  /** `n` copies of symbol `c`. */
  function Repeat(c: char, n: nat): (s: string)
    ensures |s| == n && forall i :: 0 <= i < n ==> s[i] == c
  {
    if n == 0 then [] else Repeat(c, n - 1) + [c]
  }

  /** The index of the first occurrence of `c` in `alph`, or -1 when there is none. */
  function Find(alph: string, c: char): (k: int)
    ensures -1 <= k < |alph|
    ensures k >= 0 <==> c in alph
    ensures k >= 0 ==> alph[k] == c && c !in alph[..k]
  {
    if alph == [] then -1
    else if alph[0] == c then 0
    else
      var k := Find(alph[1..], c);
      assert c in alph ==> c in alph[1..] by {
        if c in alph { var i :| 0 <= i < |alph| && alph[i] == c; assert alph[1..][i - 1] == c; }
      }
      if k < 0 then -1
      else
        assert alph[..k + 1] == [alph[0]] + alph[1..][..k];
        k + 1
  }

  predicate Distinct(alph: string) {
    forall i, j :: 0 <= i < j < |alph| ==> alph[i] != alph[j]
  }

  /** An alphabet erdi8 can work with: distinct symbols, more of them than OFFSET. */
  predicate WellFormed(alph: string) {
    |alph| > OFFSET && Distinct(alph)
  }

  /** The rank of every symbol is its position. */
  lemma FindDistinct(alph: string, i: nat)
    requires Distinct(alph) && i < |alph|
    ensures Find(alph, alph[i]) == i
  {
    var k := Find(alph, alph[i]);
  }

  /** The symbol -> rank lookup table built from an alphabet. */
  function RankMap(alph: string): (m: map<char, int>)
    ensures forall c :: c in m <==> c in alph
    ensures forall c :: c in m ==> m[c] == Find(alph, c) && 0 <= m[c] < |alph|
  {
    map c | c in alph :: Find(alph, c)
  }

  /** Every symbol of `s` belongs to `alph`. */
  predicate Over(alph: string, s: string) {
    forall i :: 0 <= i < |s| ==> s[i] in alph
  }

  /** The last (highest-ranked) symbol of the alphabet. */
  function Top(alph: string): char
    requires alph != []
  {
    alph[|alph| - 1]
  }

  /** Every symbol of `s` is the last symbol of the alphabet (vacuously so for the empty string). */
  predicate AllTop(alph: string, s: string)
    requires alph != []
  {
    forall i :: 0 <= i < |s| ==> s[i] == Top(alph)
  }

  /** The digit a symbol contributes: its rank plus one minus OFFSET. */
  function Digit(alph: string, c: char): int {
    Find(alph, c) + 1 - OFFSET
  }

  /** The base-|alph| value of `s` with digits given by Digit, most significant first. */
  function Value(alph: string, s: string): int {
    if s == [] then 0 else Value(alph, s[..|s| - 1]) * |alph| + Digit(alph, s[|s| - 1])
  }

  /** The number an erdi8 string stands for; the empty string decodes to -1. */
  function Decode(alph: string, s: string): int {
    Value(alph, s) - 1
  }

  /** A non-empty string over the alphabet that does not start with one of the first OFFSET symbols. */
  predicate IsIdentifier(alph: string, s: string) {
    |s| >= 1 && Over(alph, s) && Find(alph, s[0]) >= OFFSET
  }

  /**
   * Hi(B, L) is the value of the largest identifier of length L, i.e. the
   * number of identifiers of length at most L.
   */
  function Hi(b: nat, len: nat): int {
    if len == 0 then 0 else Hi(b, len - 1) * b + (b - OFFSET)
  }

  /**
   * The identifier of n, digit by digit: the last symbol has rank
   * (n + OFFSET) % B and the rest is the identifier of (n + OFFSET) / B - 1.
   */
  function Encode(alph: string, n: nat): (s: string)
    requires WellFormed(alph)
    ensures IsIdentifier(alph, s) && Decode(alph, s) == n
    decreases n
  {
    var b := |alph|;
    var q, r := Div(n + OFFSET, b), Mod(n + OFFSET, b);
    if q == 0 then
      LastDigit(alph, n, []);
      [alph[r]]
    else
      assert q - 1 < n by { DivSmaller(n, b); }
      var p := Encode(alph, q - 1);
      LastDigit(alph, n, p);
      p + [alph[r]]
  }

  /**
   * One step of Encode: with n + OFFSET == q * B + r, the symbol of rank r
   * appended to a string worth q gives a string worth n + 1.
   */
  lemma AppendDigit(alph: string, n: nat, p: string, q: int, r: int)
    requires WellFormed(alph) && n + OFFSET == q * |alph| + r && 0 <= r < |alph|
    requires p == [] ==> q == 0
    requires p != [] ==> IsIdentifier(alph, p) && Value(alph, p) == q
    ensures IsIdentifier(alph, p + [alph[r]]) && Decode(alph, p + [alph[r]]) == n
  {
    FindDistinct(alph, r);
    ValueAppend(alph, p, alph[r]);
    if p == [] {
      assert [] + [alph[r]] == [alph[r]];
    } else {
      AppendIdentifier(alph, p, alph[r]);
    }
  }

  /** AppendDigit with the quotient and remainder of Div and Mod. */
  lemma LastDigit(alph: string, n: nat, p: string)
    requires WellFormed(alph)
    requires p == [] ==> Div(n + OFFSET, |alph|) == 0
    requires p != [] ==> IsIdentifier(alph, p) && Value(alph, p) == Div(n + OFFSET, |alph|)
    ensures IsIdentifier(alph, p + [alph[Mod(n + OFFSET, |alph|)]])
    ensures Decode(alph, p + [alph[Mod(n + OFFSET, |alph|)]]) == n
  {
    DivModSplit(n + OFFSET, |alph|);
    AppendDigit(alph, n, p, Div(n + OFFSET, |alph|), Mod(n + OFFSET, |alph|));
  }

  /** Appending a symbol shifts the value one position and adds its digit. */
  lemma ValueAppend(alph: string, p: string, c: char)
    ensures Value(alph, p + [c]) == Value(alph, p) * |alph| + Digit(alph, c)
  {
    assert (p + [c])[..|p|] == p;
  }

  /** Raising the last symbol by one rank adds one to the value. */
  lemma BumpStep(alph: string, prefix: string, i: nat)
    requires WellFormed(alph) && i + 1 < |alph|
    ensures Value(alph, prefix + [alph[i + 1]]) == Value(alph, prefix + [alph[i]]) + 1
  {
    FindDistinct(alph, i);
    FindDistinct(alph, i + 1);
    ValueAppend(alph, prefix, alph[i]);
    ValueAppend(alph, prefix, alph[i + 1]);
  }

  /**
   * Wrapping a last symbol Top round to the first symbol adds one to the
   * value, provided the prefix is replaced by its successor.
   */
  lemma CarryStep(alph: string, prefix: string, p: string)
    requires WellFormed(alph) && Value(alph, p) == Value(alph, prefix) + 1
    ensures Value(alph, p + [alph[0]]) == Value(alph, prefix + [Top(alph)]) + 1
  {
    FindDistinct(alph, 0);
    FindDistinct(alph, |alph| - 1);
    ValueAppend(alph, p, alph[0]);
    ValueAppend(alph, prefix, Top(alph));
    MulAdd(Value(alph, prefix), 1, |alph|);
  }

  /**
   * The shape of a successor without carry: the last symbol changes, the
   * length does not, and every prefix before it is kept.
   */
  lemma NoCarryShape(alph: string, prefix: string, a: char, b: char)
    requires alph != [] && a != Top(alph)
    ensures var cur, r := prefix + [a], prefix + [b];
      && |r| == |cur| + (if AllTop(alph, cur) then 1 else 0)
      && forall k :: 0 <= k <= |cur| && !AllTop(alph, cur[k..]) ==> r[..k] == cur[..k]
  {
    var cur, r := prefix + [a], prefix + [b];
    assert cur[|cur| - 1] == a;
    forall k | 0 <= k <= |cur| && !AllTop(alph, cur[k..])
      ensures r[..k] == cur[..k]
    {
      assert k < |cur|;
      assert r[..k] == prefix[..k] == cur[..k];
    }
  }

  /**
   * The shape of a successor with carry: the last symbol Top wraps, the
   * prefix is replaced by its successor p, and the shape of p carries over.
   */
  lemma CarryShape(alph: string, prefix: string, p: string, b: char)
    requires alph != [] && |p| == |prefix| + (if AllTop(alph, prefix) then 1 else 0)
    requires forall k :: 0 <= k <= |prefix| && !AllTop(alph, prefix[k..]) ==> p[..k] == prefix[..k]
    ensures var cur, r := prefix + [Top(alph)], p + [b];
      && |r| == |cur| + (if AllTop(alph, cur) then 1 else 0)
      && forall k :: 0 <= k <= |cur| && !AllTop(alph, cur[k..]) ==> r[..k] == cur[..k]
  {
    var cur, r := prefix + [Top(alph)], p + [b];
    assert AllTop(alph, cur) <==> AllTop(alph, prefix) by {
      assert cur[..|prefix|] == prefix;
    }
    forall k | 0 <= k <= |cur| && !AllTop(alph, cur[k..])
      ensures r[..k] == cur[..k]
    {
      assert cur[k..] == prefix[k..] + [Top(alph)];
      assert k < |cur|;
      assert !AllTop(alph, prefix[k..]);
      assert r[..k] == p[..k] == prefix[..k] == cur[..k];
    }
  }

  /** A non-empty string is its prefix followed by its last symbol. */
  lemma LastSplit(s: string)
    requires s != []
    ensures s == s[..|s| - 1] + [s[|s| - 1]]
  {
  }

  /** A single symbol of rank i is worth its digit, and is an identifier when i >= OFFSET. */
  lemma SingleSymbol(alph: string, i: nat)
    requires Distinct(alph) && i < |alph|
    ensures Over(alph, [alph[i]]) && Value(alph, [alph[i]]) == i + 1 - OFFSET
    ensures i >= OFFSET ==> IsIdentifier(alph, [alph[i]])
  {
    FindDistinct(alph, i);
    ValueAppend(alph, [], alph[i]);
    assert [] + [alph[i]] == [alph[i]];
  }

  lemma OverRepeat(alph: string, i: nat, n: nat)
    requires i < |alph|
    ensures Over(alph, Repeat(alph[i], n))
  {
  }

  /** The value of a two-symbol string, one symbol at a time. */
  lemma ValueTwo(alph: string, a: char, b: char)
    ensures Value(alph, [a]) == Digit(alph, a)
    ensures Value(alph, [a, b]) == Value(alph, [a]) * |alph| + Digit(alph, b)
  {
    assert [a] == [] + [a];
    ValueAppend(alph, [], a);
    assert [a, b] == [a] + [b];
    ValueAppend(alph, [a], b);
  }

  /** The value of a three-symbol string: its two-symbol front, shifted, plus the last digit. */
  lemma ValueThree(alph: string, a: char, b: char, c: char)
    ensures Value(alph, [a, b, c]) == Value(alph, [a, b]) * |alph| + Digit(alph, c)
  {
    assert [a, b, c] == [a, b] + [c];
    ValueAppend(alph, [a, b], c);
  }

  lemma IdentifierThree(alph: string, i: nat, j: nat, k: nat)
    requires Distinct(alph) && OFFSET <= i < |alph| && j < |alph| && k < |alph|
    ensures IsIdentifier(alph, [alph[i], alph[j], alph[k]])
  {
    FindDistinct(alph, i);
  }

  lemma OverAppend(alph: string, p: string, i: nat)
    requires Over(alph, p) && i < |alph|
    ensures Over(alph, p + [alph[i]])
  {
  }

  lemma OverPrefix(alph: string, s: string, k: nat)
    requires Over(alph, s) && k <= |s|
    ensures Over(alph, s[..k])
  {
  }

  lemma AppendIdentifier(alph: string, p: string, c: char)
    requires IsIdentifier(alph, p) && c in alph
    ensures IsIdentifier(alph, p + [c])
  {
  }

  lemma DivSmaller(n: nat, b: nat)
    requires b > OFFSET && Div(n + OFFSET, b) >= 1
    ensures Div(n + OFFSET, b) - 1 < n
  {
    DivModSpec(n + OFFSET, b);
    var q := (n + OFFSET) / b;
    assert q * b <= n + OFFSET;
    MulLeq(1, q, b);
    MulLeq(OFFSET + 1, b, q);
  }

  /** The prefix of an identifier of length at least two is an identifier. */
  lemma PrefixIdentifier(alph: string, s: string)
    requires IsIdentifier(alph, s) && |s| >= 2
    ensures IsIdentifier(alph, s[..|s| - 1])
  {
  }

  /** Identifiers of length L have values in (Hi(B, L - 1), Hi(B, L)]. */
  lemma {:induction false} ValueRange(alph: string, s: string)
    requires WellFormed(alph) && IsIdentifier(alph, s)
    ensures Hi(|alph|, |s| - 1) < Value(alph, s) <= Hi(|alph|, |s|)
    decreases |s|
  {
    var b := |alph|;
    var p := s[..|s| - 1];
    var d := Digit(alph, s[|s| - 1]);
    if |s| >= 2 {
      PrefixIdentifier(alph, s);
      ValueRange(alph, p);
      StepBounds(Value(alph, p), d, b, Hi(b, |s| - 2), Hi(b, |s| - 1));
    }
  }

  /** Arithmetic core of ValueRange: one more digit scales the bounds. */
  lemma StepBounds(v: int, d: int, b: nat, lo: int, hi: int)
    requires b > OFFSET && lo < v <= hi && 1 - OFFSET <= d <= b - OFFSET
    ensures lo * b + (b - OFFSET) < v * b + d <= hi * b + (b - OFFSET)
  {
    MulLeq(v, hi, b);
    MulLeq(lo + 1, v, b);
  }

  /** Identifiers have a positive value, so they decode to naturals. */
  lemma DecodeNatural(alph: string, s: string)
    requires WellFormed(alph) && IsIdentifier(alph, s)
    ensures Decode(alph, s) >= 0
  {
    ValueRange(alph, s);
    HiPositive(|alph|, |s| - 1);
  }

  lemma {:induction false} HiPositive(b: nat, len: nat)
    requires b > OFFSET
    ensures Hi(b, len) >= 0
  {
    if len > 0 {
      HiPositive(b, len - 1);
      MulLeq(0, Hi(b, len - 1), b);
    }
  }

  /** The number of identifiers of length exactly L is (B - OFFSET) * B^(L-1). */
  lemma {:induction false} HiStep(b: nat, len: nat)
    requires b > OFFSET && len >= 1
    ensures Hi(b, len) - Hi(b, len - 1) == (b - OFFSET) * Pow(b, len - 1)
  {
    if len >= 2 {
      HiStep(b, len - 1);
      var x, y, w := Hi(b, len - 1), Hi(b, len - 2), Pow(b, len - 2);
      MulSub(x, y, b);
      MulAssoc(b - OFFSET, w, b);
    }
  }

  /** Hi grows strictly with the length. */
  lemma HiMonotone(b: nat, l1: nat, l2: nat)
    requires b > OFFSET && l1 < l2
    ensures Hi(b, l1) < Hi(b, l2)
    decreases l2
  {
    HiStep(b, l2);
    MulLeq(1, b - OFFSET, Pow(b, l2 - 1));
    if l1 < l2 - 1 {
      HiMonotone(b, l1, l2 - 1);
    }
  }

  /** Decoding an identifier and encoding the number gives the identifier back. */
  lemma EncodeDecode(alph: string, s: string)
    requires WellFormed(alph) && IsIdentifier(alph, s)
    ensures Decode(alph, s) >= 0 && Encode(alph, Decode(alph, s)) == s
  {
    DecodeNatural(alph, s);
    DecodeInjective(alph, Encode(alph, Decode(alph, s)), s);
  }

  /** The quotient and remainder of an identifier's number plus OFFSET are its prefix and last digit. */
  lemma LastDigitSplit(alph: string, s: string)
    requires WellFormed(alph) && IsIdentifier(alph, s)
    ensures Decode(alph, s) >= 0
    ensures Div(Decode(alph, s) + OFFSET, |alph|) == Value(alph, s[..|s| - 1])
    ensures Mod(Decode(alph, s) + OFFSET, |alph|) == Find(alph, s[|s| - 1])
  {
    DecodeNatural(alph, s);
    var b := |alph|;
    var n := Decode(alph, s);
    var r := Find(alph, s[|s| - 1]);
    var v := Value(alph, s[..|s| - 1]);
    assert n + OFFSET == v * b + r;
    DivModUnique(n + OFFSET, b, v, r);
    DivModSpec(n + OFFSET, b);
  }

  /**
   * Two identifiers that decode to the same number are equal: their last
   * digits are the same remainder and their prefixes the same quotient.
   */
  lemma {:induction false} DecodeInjective(alph: string, s: string, t: string)
    requires WellFormed(alph) && IsIdentifier(alph, s) && IsIdentifier(alph, t)
    requires Decode(alph, s) == Decode(alph, t)
    ensures s == t
    decreases |s|
  {
    SameLastDigit(alph, s, t);
    PrefixesAgree(alph, s, t);
    var p, q := s[..|s| - 1], t[..|t| - 1];
    if |s| >= 2 {
      DecodeInjective(alph, p, q);
    }
    LastSplit(s);
    LastSplit(t);
  }

  /** Prefixes of equal value are both empty, or both identifiers with the same number. */
  lemma PrefixesAgree(alph: string, s: string, t: string)
    requires WellFormed(alph) && IsIdentifier(alph, s) && IsIdentifier(alph, t)
    requires Value(alph, s[..|s| - 1]) == Value(alph, t[..|t| - 1])
    ensures |s| == 1 ==> |t| == 1
    ensures |s| >= 2 ==> IsIdentifier(alph, s[..|s| - 1]) && IsIdentifier(alph, t[..|t| - 1])
    ensures |s| >= 2 ==> Decode(alph, s[..|s| - 1]) == Decode(alph, t[..|t| - 1])
  {
    PrefixValue(alph, s);
    PrefixValue(alph, t);
  }

  /** The prefix of an identifier is empty, worth 0, or an identifier worth at least 1. */
  lemma PrefixValue(alph: string, s: string)
    requires WellFormed(alph) && IsIdentifier(alph, s)
    ensures |s| == 1 ==> s[..|s| - 1] == [] && Value(alph, s[..|s| - 1]) == 0
    ensures |s| >= 2 ==> IsIdentifier(alph, s[..|s| - 1]) && Value(alph, s[..|s| - 1]) >= 1
  {
    if |s| >= 2 {
      PrefixIdentifier(alph, s);
      DecodeNatural(alph, s[..|s| - 1]);
    }
  }

  /** Identifiers with the same number end in the same symbol, and their prefixes have the same value. */
  lemma SameLastDigit(alph: string, s: string, t: string)
    requires WellFormed(alph) && IsIdentifier(alph, s) && IsIdentifier(alph, t)
    requires Decode(alph, s) == Decode(alph, t)
    ensures s[|s| - 1] == t[|t| - 1]
    ensures Value(alph, s[..|s| - 1]) == Value(alph, t[..|t| - 1])
  {
    var n := Decode(alph, s);
    LastDigitOf(alph, s, n);
    LastDigitOf(alph, t, n);
    var x, y := s[|s| - 1], t[|t| - 1];
    assert x in alph && y in alph;
    assert alph[Find(alph, x)] == x && alph[Find(alph, y)] == y;
  }

  /** LastDigitSplit, stated for the number n the identifier decodes to. */
  lemma LastDigitOf(alph: string, s: string, n: int)
    requires WellFormed(alph) && IsIdentifier(alph, s) && n == Decode(alph, s)
    ensures Div(n + OFFSET, |alph|) == Value(alph, s[..|s| - 1])
    ensures Mod(n + OFFSET, |alph|) == Find(alph, s[|s| - 1])
  {
    LastDigitSplit(alph, s);
  }

  /** The identifier of n has length L exactly when Hi(B, L-1) <= n < Hi(B, L). */
  lemma EncodeLength(alph: string, n: nat, len: nat)
    requires WellFormed(alph) && len >= 1
    ensures |Encode(alph, n)| == len <==> Hi(|alph|, len - 1) <= n < Hi(|alph|, len)
  {
    var s := Encode(alph, n);
    ValueRange(alph, s);
    HiSeparates(|alph|, n, |s|, len);
  }

  /** The intervals [Hi(B, L - 1), Hi(B, L)) of different lengths L are disjoint. */
  lemma HiSeparates(b: nat, n: int, k: nat, len: nat)
    requires b > OFFSET && k >= 1 && len >= 1 && Hi(b, k - 1) <= n < Hi(b, k)
    ensures k == len <==> Hi(b, len - 1) <= n < Hi(b, len)
  {
    if k < len - 1 {
      HiMonotone(b, k, len - 1);
    } else if k > len + 1 {
      HiMonotone(b, len, k - 1);
    }
  }

  /** Value of a string with one more symbol in front. */
  lemma {:induction false} ValuePrepend(alph: string, c: char, t: string)
    ensures Value(alph, [c] + t) == Digit(alph, c) * Pow(|alph|, |t|) + Value(alph, t)
    decreases |t|
  {
    var s := [c] + t;
    if t == [] {
      assert s[..0] == [];
    } else {
      var b := |alph|;
      assert s[..|s| - 1] == [c] + t[..|t| - 1];
      ValuePrepend(alph, c, t[..|t| - 1]);
      var dc, w, v := Digit(alph, c), Pow(b, |t| - 1), Value(alph, t[..|t| - 1]);
      MulAdd(dc * w, v, b);
      MulAssoc(dc, w, b);
    }
  }

  /** Leading symbols of rank OFFSET - 1 contribute nothing to the value. */
  lemma PrependNeutral(alph: string, t: string)
    requires WellFormed(alph)
    ensures Value(alph, [alph[OFFSET - 1]] + t) == Value(alph, t)
  {
    var c := alph[OFFSET - 1];
    FindDistinct(alph, OFFSET - 1);
    assert Digit(alph, c) == 0;
    ValuePrepend(alph, c, t);
    var w := Pow(|alph|, |t|);
    assert Digit(alph, c) * w == 0;
  }

  /** A run of the highest symbol is worth Hi. */
  lemma {:induction false} ValueTopRun(alph: string, len: nat)
    requires WellFormed(alph)
    ensures Value(alph, Repeat(Top(alph), len)) == Hi(|alph|, len)
  {
    FindDistinct(alph, |alph| - 1);
    if len > 0 {
      var s := Repeat(Top(alph), len);
      assert s[..len - 1] == Repeat(Top(alph), len - 1);
      ValueTopRun(alph, len - 1);
    }
  }

  /**
   * The length and the kept prefixes of a successor r of s: r is one symbol
   * longer exactly when s is a run of Top, and every prefix of s that ends
   * before its trailing run of Top and the symbol in front of that run is kept.
   */
  ghost predicate Shaped(alph: string, s: string, r: string)
    requires alph != []
  {
    && |r| == |s| + (if AllTop(alph, s) then 1 else 0)
    && forall k :: 0 <= k <= |s| && !AllTop(alph, s[k..]) ==> r[..k] == s[..k]
  }

  lemma AllTopRepeat(alph: string, s: string)
    requires alph != [] && AllTop(alph, s)
    ensures s == Repeat(Top(alph), |s|)
  {
  }

  /** A run of Top replaced by a run of the first symbol, with the carry taken by the prefix. */
  lemma {:induction false} CarryRun(alph: string, prefix: string, p: string, k: nat)
    requires WellFormed(alph) && Value(alph, p) == Value(alph, prefix) + 1
    ensures Value(alph, p + Repeat(alph[0], k)) == Value(alph, prefix + Repeat(Top(alph), k)) + 1
  {
    if k == 0 {
      assert p + Repeat(alph[0], k) == p && prefix + Repeat(Top(alph), k) == prefix;
    } else {
      var j := k - 1;
      CarryRun(alph, prefix, p, j);
      var a, b := p + Repeat(alph[0], j), prefix + Repeat(Top(alph), j);
      CarryStep(alph, b, a);
      RepeatSnoc(p, alph[0], j);
      RepeatSnoc(prefix, Top(alph), j);
    }
  }

  /** One more symbol after a run makes the run one longer. */
  lemma RepeatSnoc(x: string, c: char, j: nat)
    ensures (x + Repeat(c, j)) + [c] == x + Repeat(c, j + 1)
  {
    assert Repeat(c, j + 1) == Repeat(c, j) + [c];
  }

  /**
   * The successor of s when the carry stops at position p: the symbol there
   * is raised by one rank and the run of Top after it becomes a run of the
   * first symbol.
   */
  function StopAt(alph: string, s: string, p: nat): (r: string)
    requires WellFormed(alph) && Over(alph, s) && p < |s| && s[p] != Top(alph)
    ensures |r| == |s| && r[..p] == s[..p]
  {
    var i := Find(alph, s[p]);
    assert s[p] in alph;
    s[..p] + [alph[i + 1]] + Repeat(alph[0], |s| - p - 1)
  }

  lemma StopValue(alph: string, s: string, p: nat)
    requires WellFormed(alph) && Over(alph, s) && p < |s| && s[p] != Top(alph)
    requires AllTop(alph, s[p + 1..])
    ensures Value(alph, StopAt(alph, s, p)) == Value(alph, s) + 1
  {
    var i := Find(alph, s[p]);
    var bumped := s[..p] + [alph[i + 1]];
    BumpStep(alph, s[..p], i);
    assert s[..p] + [alph[i]] == s[..p + 1];
    CarryRun(alph, s[..p + 1], bumped, |s| - p - 1);
    AllTopRepeat(alph, s[p + 1..]);
    assert s[..p + 1] + s[p + 1..] == s;
  }

  lemma StopIdentifier(alph: string, s: string, p: nat)
    requires WellFormed(alph) && IsIdentifier(alph, s) && p < |s| && s[p] != Top(alph)
    ensures IsIdentifier(alph, StopAt(alph, s, p))
  {
    var i := Find(alph, s[p]);
    var r := StopAt(alph, s, p);
    assert r[p] == alph[i + 1];
    forall j | 0 <= j < |r|
      ensures r[j] in alph
    {
      if j < p {
        assert r[j] == r[..p][j] == s[j];
      } else if j > p {
        assert r[j] == alph[0];
      }
    }
    if p == 0 {
      FindDistinct(alph, i + 1);
    } else {
      assert r[0] == r[..p][0] == s[0];
    }
  }

  lemma StopShape(alph: string, s: string, p: nat)
    requires WellFormed(alph) && Over(alph, s) && p < |s| && s[p] != Top(alph)
    requires AllTop(alph, s[p + 1..])
    ensures Shaped(alph, s, StopAt(alph, s, p))
  {
    var r := StopAt(alph, s, p);
    assert !AllTop(alph, s);
    forall k | p < k <= |s|
      ensures AllTop(alph, s[k..])
    {
      TopSuffix(alph, s, p, k);
    }
    forall k | 0 <= k <= |s| && !AllTop(alph, s[k..])
      ensures r[..k] == s[..k]
    {
      assert r[..k] == r[..p][..k];
    }
  }

  /** A suffix of a run of Top is a run of Top. */
  lemma TopSuffix(alph: string, s: string, p: nat, k: nat)
    requires alph != [] && p < k <= |s| && AllTop(alph, s[p + 1..])
    ensures AllTop(alph, s[k..])
  {
    forall j | 0 <= j < |s| - k
      ensures s[k..][j] == Top(alph)
    {
      assert s[k..][j] == s[p + 1..][k - p - 1 + j];
    }
  }

  /** The successor of a run of Top: the symbol of rank OFFSET followed by a run of the first symbol. */
  lemma Overflow(alph: string, s: string)
    requires WellFormed(alph) && AllTop(alph, s)
    ensures var r := [alph[OFFSET]] + Repeat(alph[0], |s|);
      IsIdentifier(alph, r) && Value(alph, r) == Value(alph, s) + 1 && Shaped(alph, s, r)
  {
    var r := [alph[OFFSET]] + Repeat(alph[0], |s|);
    SingleSymbol(alph, OFFSET);
    CarryRun(alph, [], [alph[OFFSET]], |s|);
    AllTopRepeat(alph, s);
    assert [] + Repeat(Top(alph), |s|) == s;
    forall k | 0 <= k <= |s|
      ensures AllTop(alph, s[k..])
    {
      assert forall j :: 0 <= j < |s| - k ==> s[k..][j] == s[k + j];
    }
    assert forall j :: 1 <= j < |r| ==> r[j] == alph[0];
  }

  /** Zero is the symbol of rank OFFSET, which is also the successor of the empty string. */
  lemma ZeroIs(alph: string)
    requires WellFormed(alph)
    ensures Encode(alph, 0) == [alph[OFFSET]]
  {
    SingleSymbol(alph, OFFSET);
    DecodeInjective(alph, Encode(alph, 0), [alph[OFFSET]]);
  }

  /** The identifier after a run of L last symbols is the symbol of rank OFFSET followed by L first symbols. */
  lemma TopRunSuccessor(alph: string, s: string)
    requires WellFormed(alph) && AllTop(alph, s)
    ensures Value(alph, s) >= 0
    ensures Encode(alph, Value(alph, s)) == [alph[OFFSET]] + Repeat(alph[0], |s|)
  {
    var r := [alph[OFFSET]] + Repeat(alph[0], |s|);
    Overflow(alph, s);
    EncodeDecode(alph, r);
  }

  /**
   * The encoders' quotient and remainder step: the quotient by B, bumped when
   * the remainder plus OFFSET does not fit in one symbol, and the remainder
   * plus OFFSET, wrapped, are the quotient and remainder of n + OFFSET.
   */
  lemma SplitDigits(n: nat, b: nat)
    requires b > OFFSET
    ensures (if n % b + OFFSET > b - 1 then n / b + 1 else n / b) == (n + OFFSET) / b
    ensures (n % b + OFFSET) % b == (n + OFFSET) % b
    ensures (n + OFFSET) / b >= 1 ==> (n + OFFSET) / b - 1 < n
  {
    var mod := n % b;
    DivMod(n, b);
    if mod + OFFSET > b - 1 {
      DivModUnique(n + OFFSET, b, n / b + 1, mod + OFFSET - b);
      DivModUnique(mod + OFFSET, b, 1, mod + OFFSET - b);
    } else {
      DivModUnique(n + OFFSET, b, n / b, mod + OFFSET);
      DivModUnique(mod + OFFSET, b, 0, mod + OFFSET);
    }
    if (n + OFFSET) / b >= 1 {
      DivModSpec(n + OFFSET, b);
      DivSmaller(n, b);
    }
  }

  /** Encode, one symbol at a time from the right. */
  lemma EncodeSplit(alph: string, n: nat)
    requires WellFormed(alph)
    ensures var q := Div(n + OFFSET, |alph|);
      Encode(alph, n) == (if q == 0 then [] else Encode(alph, q - 1)) + [alph[Mod(n + OFFSET, |alph|)]]
  {
    assert [] + [alph[Mod(n + OFFSET, |alph|)]] == [alph[Mod(n + OFFSET, |alph|)]];
  }

  /** A non-empty run of the last symbol is an identifier. */
  lemma TopRunIdentifier(alph: string, k: nat)
    requires WellFormed(alph) && k >= 1
    ensures IsIdentifier(alph, Repeat(Top(alph), k))
  {
    FindDistinct(alph, |alph| - 1);
  }

  /** A symbol of the alphabet has rank at least OFFSET exactly when it is not one of the first OFFSET. */
  lemma LeadingRank(alph: string, c: char)
    requires |alph| >= OFFSET && c in alph
    ensures Find(alph, c) >= OFFSET <==> c !in alph[..OFFSET]
  {
    var k := Find(alph, c);
    if k < OFFSET {
      assert alph[..OFFSET][k] == c;
    } else {
      assert alph[..OFFSET] == alph[..k][..OFFSET];
    }
  }

  /** One turn of decode_int: the symbol left of the decoded suffix adds its digit times the weight. */
  lemma DecodeTurn(alph: string, alphMap: map<char, int>, e8: string, counter: nat, result: int)
    requires WellFormed(alph) && alphMap == RankMap(alph) && Over(alph, e8) && counter < |e8|
    requires result == Value(alph, e8[|e8| - counter..])
    ensures e8[|e8| - counter - 1] in alphMap
    ensures var w := Pow(|alph|, counter);
      result + (alphMap[e8[|e8| - counter - 1]] + 1) * w - OFFSET * w == Value(alph, e8[|e8| - counter - 1..])
  {
    var tail, done := e8[|e8| - counter - 1], e8[|e8| - counter..];
    assert tail in alph;
    assert e8[|e8| - counter - 1..] == [tail] + done;
    ValuePrepend(alph, tail, done);
    MulSub(alphMap[tail] + 1, OFFSET, Pow(|alph|, counter));
  }
}
