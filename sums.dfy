/**
 * Integer sums as the solver's `lpSum` evaluates them on a solved model, and
 * the facts about sums of 0/1 values that the constraints rely on.
 */
module Sums {

  /** The sum of a sequence, peeling off the last element. */
  function Sum(s: seq<int>): int
  {
    if |s| == 0 then 0 else Sum(s[..|s| - 1]) + s[|s| - 1]
  }

  /** Every entry is a binary value. */
  predicate IsBits(s: seq<int>)
  {
    forall k :: 0 <= k < |s| ==> s[k] == 0 || s[k] == 1
  }

  lemma SumSnoc(s: seq<int>, v: int)
    ensures Sum(s + [v]) == Sum(s) + v
  {
    assert (s + [v])[..|s|] == s;
  }

  /** A prefix sum grows by the next element. */
  lemma SumPrefixSnoc(s: seq<int>, m: nat)
    requires m < |s|
    ensures Sum(s[..m + 1]) == Sum(s[..m]) + s[m]
  {
    assert s[..m + 1][..m] == s[..m];
  }

  /** A sum of bits lies in [0, |s|] and is zero exactly when every bit is. */
  lemma {:induction false} BitsSumBounds(s: seq<int>)
    requires IsBits(s)
    ensures 0 <= Sum(s) <= |s|
    ensures Sum(s) == 0 <==> forall k :: 0 <= k < |s| ==> s[k] == 0
  {
    if |s| > 0 {
      var t := s[..|s| - 1];
      assert IsBits(t);
      BitsSumBounds(t);
      assert forall k :: 0 <= k < |t| ==> t[k] == s[k];
    }
  }

  /** Two different positions holding 1 make the sum at least 2. */
  lemma {:induction false} BitsTwoOnes(s: seq<int>, a: int, b: int)
    requires IsBits(s)
    requires 0 <= a < b < |s| && s[a] == 1 && s[b] == 1
    ensures Sum(s) >= 2
  {
    var t := s[..|s| - 1];
    assert IsBits(t);
    if b == |s| - 1 {
      assert t[a] == 1;
      BitsSumBounds(t);
    } else {
      assert t[a] == 1 && t[b] == 1;
      BitsTwoOnes(t, a, b);
      BitsSumBounds([s[|s| - 1]]);
      assert s == t + [s[|s| - 1]];
    }
  }

  /** A sum of bits that is at most 1 has at most one position holding 1. */
  lemma BitsAtMostOneOne(s: seq<int>)
    requires IsBits(s) && Sum(s) <= 1
    ensures forall a, b :: 0 <= a < |s| && 0 <= b < |s| && s[a] == 1 && s[b] == 1 ==> a == b
  {
    forall a, b | 0 <= a < |s| && 0 <= b < |s| && s[a] == 1 && s[b] == 1
      ensures a == b
    {
      if a < b {
        BitsTwoOnes(s, a, b);
      } else if b < a {
        BitsTwoOnes(s, b, a);
      }
    }
  }

  /** A sum of bits that equals 1 has exactly one position holding 1. */
  lemma BitsOneHot(s: seq<int>)
    requires IsBits(s) && Sum(s) == 1
    ensures exists j :: 0 <= j < |s| && s[j] == 1
    ensures forall a, b :: 0 <= a < |s| && 0 <= b < |s| && s[a] == 1 && s[b] == 1 ==> a == b
  {
    BitsSumBounds(s);
    BitsAtMostOneOne(s);
  }

  /** A sum of bits that is at most 1 is 1 exactly when some bit is 1. */
  lemma BitsIndicator(s: seq<int>)
    requires IsBits(s) && Sum(s) <= 1
    ensures Sum(s) == 0 || Sum(s) == 1
    ensures Sum(s) == 1 <==> exists j :: 0 <= j < |s| && s[j] == 1
  {
    BitsSumBounds(s);
  }
}
