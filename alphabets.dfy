/**
 * The two erdi8 alphabets: the 33 symbols 2-9, a-k and m-z (0, 1 and l are
 * never used, as they are easily confused), and the 28-symbol "safe" one with
 * the vowels a, e, i, o, u removed, which keeps identifiers from spelling
 * words.
 */
module Alphabets {

  import opened Numeration

  /** The symbol of rank i in the 33-symbol alphabet. */
  function Symbol(i: nat): char
    requires i < 33
  {
    if i < 8 then (50 + i) as char            // '2' .. '9'
    else if i < 19 then (97 + i - 8) as char  // 'a' .. 'k'
    else (109 + i - 19) as char               // 'm' .. 'z'
  }

  /** The 33-symbol alphabet, in rank order. */
  function Full(): string {
    seq(33, i requires 0 <= i < 33 => Symbol(i))
  }

  const FULL: string := Full()

  /** The symbols the safe alphabet leaves out. */
  const UNSAFE: string := "aeiou"

  /** The symbols of `s` that are not in UNSAFE, in their order. */
  function Strip(s: string): (r: string)
    ensures forall c :: c in r <==> c in s && c !in UNSAFE
    ensures |r| <= |s|
  {
    if s == [] then []
    else
      assert s == [s[0]] + s[1..];
      (if s[0] in UNSAFE then [] else [s[0]]) + Strip(s[1..])
  }

  /**
   * The alphabet an instance uses: the safe one is FULL with the vowels
   * stripped, which StripIsSafe proves to be Safe().
   */
  function Alphabet(safe: bool): string {
    if safe then Safe() else FULL
  }

  lemma FullSpelledOut()
    ensures FULL == "23456789abcdefghijkmnopqrstuvwxyz"
  {
  }

  predicate Increasing(s: string) {
    forall i, j :: 0 <= i < j < |s| ==> s[i] < s[j]
  }

  lemma {:induction false} StripIncreasing(s: string)
    requires Increasing(s)
    ensures Increasing(Strip(s))
  {
    if s != [] {
      StripIncreasing(s[1..]);
      var rest := Strip(s[1..]);
      StripBelow(s);
      if s[0] !in UNSAFE {
        assert [s[0]] + rest == Strip(s);
        ConsIncreasing(s[0], rest);
      }
    }
  }

  /** The symbols kept from the tail of an increasing string all lie above its head. */
  lemma StripBelow(s: string)
    requires Increasing(s) && s != []
    ensures forall c :: c in Strip(s[1..]) ==> s[0] < c
  {
    forall c | c in Strip(s[1..])
      ensures s[0] < c
    {
      var j :| 0 <= j < |s[1..]| && s[1..][j] == c;
      assert s[1 + j] == c;
    }
  }

  /** A symbol below every symbol of an increasing string extends it increasingly. */
  lemma ConsIncreasing(c: char, rest: string)
    requires Increasing(rest) && forall d :: d in rest ==> c < d
    ensures Increasing([c] + rest)
  {
    var r := [c] + rest;
    forall i, j | 0 <= i < j < |r|
      ensures r[i] < r[j]
    {
      assert r[j] == rest[j - 1] && r[j] in rest;
    }
  }

  /** Two increasing strings with the same symbols are the same string. */
  lemma {:induction false} IncreasingUnique(a: string, b: string)
    requires Increasing(a) && Increasing(b)
    requires forall c :: c in a <==> c in b
    ensures a == b
  {
    if a == [] || b == [] {
      SameEmpty(a, b);
    } else {
      assert a[0] in b && b[0] in a;
      assert a[0] == b[0];
      forall c
        ensures c in a[1..] <==> c in b[1..]
      {
        assert c in a[1..] <==> c in a && c != a[0];
        assert c in b[1..] <==> c in b && c != b[0];
      }
      IncreasingUnique(a[1..], b[1..]);
      assert a == [a[0]] + a[1..] && b == [b[0]] + b[1..];
    }
  }

  /** Strings with the same symbols are empty together. */
  lemma SameEmpty(a: string, b: string)
    requires forall c :: c in a <==> c in b
    ensures a == [] <==> b == []
  {
    if a != [] {
      assert a[0] in b;
    }
    if b != [] {
      assert b[0] in a;
    }
  }

  lemma FullIncreasing()
    ensures Increasing(FULL)
  {
    forall i, j | 0 <= i < j < 33
      ensures Symbol(i) < Symbol(j)
    {
    }
  }

  lemma IncreasingDistinct(s: string)
    requires Increasing(s)
    ensures Distinct(s)
  {
  }

  /** The symbol of rank i in the 28-symbol safe alphabet. */
  function SafeSymbol(i: nat): char
    requires i < 28
  {
    if i < 8 then (50 + i) as char             // '2' .. '9'
    else if i < 11 then (98 + i - 8) as char   // 'b' .. 'd'
    else if i < 14 then (102 + i - 11) as char // 'f' .. 'h'
    else if i < 16 then (106 + i - 14) as char // 'j' .. 'k'
    else if i < 18 then (109 + i - 16) as char // 'm' .. 'n'
    else if i < 23 then (112 + i - 18) as char // 'p' .. 't'
    else (118 + i - 23) as char                // 'v' .. 'z'
  }

  function Safe(): string {
    seq(28, i requires 0 <= i < 28 => SafeSymbol(i))
  }

  /** The symbols of the 33-symbol alphabet, as character ranges. */
  predicate InFull(c: char) {
    ('2' <= c <= '9') || ('a' <= c <= 'k') || ('m' <= c <= 'z')
  }

  predicate Vowel(c: char) {
    c == 'a' || c == 'e' || c == 'i' || c == 'o' || c == 'u'
  }

  lemma FullMembers(c: char)
    ensures c in FULL <==> InFull(c)
  {
    if InFull(c) {
      var i := if c <= '9' then c as int - 50 else if c <= 'k' then c as int - 89 else c as int - 90;
      assert FULL[i] == c;
    }
    if c in FULL {
      var i :| 0 <= i < 33 && FULL[i] == c;
      assert FULL[i] == Symbol(i);
    }
  }

  lemma SafeMembers(c: char)
    ensures c in Safe() <==> InFull(c) && !Vowel(c)
  {
    if InFull(c) && !Vowel(c) {
      var k := c as int;
      var i := if k <= 57 then k - 50 else if k <= 100 then k - 90 else if k <= 104 then k - 91
        else if k <= 107 then k - 92 else if k <= 110 then k - 93 else if k <= 116 then k - 94 else k - 95;
      assert Safe()[i] == c;
    }
    if c in Safe() {
      var i :| 0 <= i < 28 && Safe()[i] == c;
      assert Safe()[i] == SafeSymbol(i);
    }
  }

  lemma SafeIncreasing()
    ensures Increasing(Safe())
  {
    forall i, j | 0 <= i < j < 28
      ensures SafeSymbol(i) < SafeSymbol(j)
    {
    }
  }

  /** Dropping the vowels from the 33-symbol alphabet leaves Safe(). */
  lemma StripIsSafe()
    ensures Strip(FULL) == Safe()
  {
    FullIncreasing();
    StripIncreasing(FULL);
    SafeIncreasing();
    forall c
      ensures c in Strip(FULL) <==> c in Safe()
    {
      StripMembers(FULL, c);
      FullMembers(c);
      SafeMembers(c);
    }
    IncreasingUnique(Strip(FULL), Safe());
  }

  lemma StripMembers(s: string, c: char)
    ensures c in Strip(s) <==> c in s && !Vowel(c)
  {
    assert c in UNSAFE <==> Vowel(c);
  }

  lemma SafeLiteral()
    ensures Safe() == "23456789bcdfghjkmnpqrstvwxyz"
  {
  }

  lemma SafeSpelledOut()
    ensures Strip(FULL) == "23456789bcdfghjkmnpqrstvwxyz"
  {
    StripIsSafe();
    SafeLiteral();
  }

  /** Both alphabets are well formed, end in 'z', and have 28 and 33 symbols. */
  lemma AlphabetFacts(safe: bool)
    ensures WellFormed(Alphabet(safe)) && Top(Alphabet(safe)) == 'z'
    ensures |Alphabet(safe)| == if safe then 28 else 33
  {
    FullIncreasing();
    IncreasingDistinct(FULL);
    if safe {
      SafeIncreasing();
      IncreasingDistinct(Safe());
      assert Top(Safe()) == SafeSymbol(27);
    } else {
      assert Top(FULL) == Symbol(32);
    }
  }

  /** In safe mode no vowel belongs to the alphabet. */
  lemma SafeHasNoVowels(c: char)
    requires c in UNSAFE
    ensures c !in Alphabet(true) && c in Alphabet(false)
  {
    FullSpelledOut();
    SafeLiteral();
  }
}
