/**
 * The order of identifiers: numbers compare as their identifiers do, a
 * shorter identifier coming first and identifiers of one length comparing
 * by the rank of the first symbol in which they differ.
 */
module Order {

  import opened Arith
  import opened Numeration

  /** Identifier order: shorter first, then by the rank of the first differing symbol. */
  ghost predicate Before(alph: string, s: string, t: string) {
    || |s| < |t|
    || (|s| == |t| && exists k :: 0 <= k < |s| && s[..k] == t[..k] && Find(alph, s[k]) < Find(alph, t[k]))
  }

  /** Numbers and identifiers are ordered alike. */
  lemma OrderMatches(alph: string, s: string, t: string)
    requires WellFormed(alph) && IsIdentifier(alph, s) && IsIdentifier(alph, t)
    ensures Decode(alph, s) < Decode(alph, t) <==> Before(alph, s, t)
  {
    if |s| < |t| {
      LongerIsLarger(alph, s, t);
    } else if |t| < |s| {
      LongerIsLarger(alph, t, s);
    } else {
      var k := FirstDifference(s, t);
      if k == |s| {
        assert s == s[..k] && t == t[..k];
        NoRankBelow(alph, s, t, k);
      } else {
        SameLengthOrder(alph, s, t, k);
        NoRankBelow(alph, s, t, k);
      }
    }
  }

  /** A shorter identifier has a smaller number. */
  lemma LongerIsLarger(alph: string, s: string, t: string)
    requires WellFormed(alph) && IsIdentifier(alph, s) && IsIdentifier(alph, t) && |s| < |t|
    ensures Decode(alph, s) < Decode(alph, t)
  {
    ValueRange(alph, s);
    ValueRange(alph, t);
    if |s| < |t| - 1 {
      HiMonotone(|alph|, |s|, |t| - 1);
    }
  }

  /**
   * Identifiers of the same length that agree before index k and differ at
   * k: the one with the lower-ranked symbol at k has the smaller number.
   */
  lemma SameLengthOrder(alph: string, s: string, t: string, k: nat)
    requires WellFormed(alph) && IsIdentifier(alph, s) && IsIdentifier(alph, t) && |s| == |t|
    requires k < |s| && s[..k] == t[..k] && s[k] != t[k]
    ensures Decode(alph, s) < Decode(alph, t) <==> Find(alph, s[k]) < Find(alph, t[k])
  {
    DifferenceDecides(alph, s, t, k);
  }

  /**
   * For strings over the alphabet of one length, the first differing symbol
   * decides the comparison of their values, whatever follows it.
   */
  lemma {:induction false} DifferenceDecides(alph: string, s: string, t: string, k: nat)
    requires WellFormed(alph) && Over(alph, s) && Over(alph, t) && |s| == |t|
    requires k < |s| && s[..k] == t[..k] && s[k] != t[k]
    ensures Value(alph, s) != Value(alph, t)
    ensures Value(alph, s) < Value(alph, t) <==> Find(alph, s[k]) < Find(alph, t[k])
    decreases |s|
  {
    var n := |s| - 1;
    var s', t' := s[..n], t[..n];
    LastSplit(s);
    LastSplit(t);
    ValueAppend(alph, s', s[n]);
    ValueAppend(alph, t', t[n]);
    assert s[n] in alph && t[n] in alph;
    if k == n {
      assert s' == t';
    } else {
      DropLast(alph, s, t, k);
      DifferenceDecides(alph, s', t', k);
      ShiftOrder(Value(alph, s'), Value(alph, t'), Digit(alph, s[n]), Digit(alph, t[n]), |alph|);
    }
  }

  /** Dropping the last symbols of both strings keeps a first difference that lies before them. */
  lemma DropLast(alph: string, s: string, t: string, k: nat)
    requires Over(alph, s) && Over(alph, t) && |s| == |t|
    requires k < |s| - 1 && s[..k] == t[..k] && s[k] != t[k]
    ensures Over(alph, s[..|s| - 1]) && Over(alph, t[..|t| - 1])
    ensures s[..|s| - 1][..k] == t[..|t| - 1][..k]
    ensures s[..|s| - 1][k] == s[k] && t[..|t| - 1][k] == t[k]
  {
    assert s[..|s| - 1][..k] == s[..k] && t[..|t| - 1][..k] == t[..k];
  }

  /** Appending digits that differ by less than the base keeps the order of two different numbers. */
  lemma ShiftOrder(x: int, y: int, d: int, e: int, b: nat)
    requires x != y && d - e < b && e - d < b
    ensures x * b + d != y * b + e
    ensures x * b + d < y * b + e <==> x < y
  {
    if x < y {
      MulLeq(x, y - 1, b);
      MulSub(y, 1, b);
    } else {
      MulLeq(y, x - 1, b);
      MulSub(x, 1, b);
    }
  }

  /**
   * When s and t agree before k and differ at k (or k is their common
   * length), no other index is the first difference with a lower rank in s.
   */
  lemma NoRankBelow(alph: string, s: string, t: string, k: nat)
    requires |s| == |t| && k <= |s| && s[..k] == t[..k] && (k == |s| || s[k] != t[k])
    ensures (exists j :: 0 <= j < |s| && s[..j] == t[..j] && Find(alph, s[j]) < Find(alph, t[j]))
      <==> k < |s| && Find(alph, s[k]) < Find(alph, t[k])
  {
    forall j | 0 <= j < k
      ensures s[j] == t[j]
    {
      assert s[j] == s[..k][j] && t[j] == t[..k][j];
    }
    forall j | k < j < |s|
      ensures s[..j] != t[..j]
    {
      assert s[k] == s[..j][k] && t[k] == t[..j][k];
    }
  }

  /** The first index at which two strings of one length differ, or their length when they are equal. */
  lemma FirstDifference(s: string, t: string) returns (k: nat)
    requires |s| == |t|
    ensures k <= |s| && s[..k] == t[..k] && (k == |s| || s[k] != t[k])
  {
    k := 0;
    while k < |s| && s[k] == t[k]
      invariant k <= |s| && s[..k] == t[..k]
    {
      assert s[..k + 1] == s[..k] + [s[k]] && t[..k + 1] == t[..k] + [t[k]];
      k := k + 1;
    }
  }

}
