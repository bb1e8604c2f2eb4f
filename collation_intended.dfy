/** The comparison `usort` evidently means to make, beside the one it makes.

    As written, `usort` bounds its loop by one less than the shorter UTF-8
    byte length but indexes characters: a word with two or more multi-byte
    letters compared with an equal or longer word runs past its last
    character and panics, and the last position of the shorter word is never
    compared, so "ab" and "ac" tie. The comparison below looks at every
    character position both words have and then at their character counts;
    it never panics, and it orders words lexicographically by rank. */
module IntendedCollation {
  import opened Errors
  import opened Collation

  /** Ranks compared position by position from `i`, then lengths. */
  function IntendedCompareFrom(order: seq<string>, a: string, b: string, i: nat): (r: Result<int>)
    requires i <= |a| && i <= |b|
    ensures r.Ok? ==> -1 <= r.value <= 1
    ensures r.Err? ==> r.error.InvalidChar? && GetValue(order, r.error.c).Err?
    decreases |a| - i
  {
    if i == |a| || i == |b| then Ok(Sign(|a| - |b|))
    else
      var v1 := GetValue(order, a[i]);
      if v1.Err? then Err(v1.error)
      else
        var v2 := GetValue(order, b[i]);
        if v2.Err? then Err(v2.error)
        else if v1.value < v2.value then Ok(-1)
        else if v1.value > v2.value then Ok(1)
        else IntendedCompareFrom(order, a, b, i + 1)
  }

  function IntendedCompare(order: seq<string>, a: string, b: string): Result<int> {
    IntendedCompareFrom(order, a, b, 0)
  }

  /** Rank of a character known to have one. */
  function Rank(order: seq<string>, c: char): nat
    requires GetValue(order, c).Ok?
  {
    GetValue(order, c).value
  }

  // ------------------------------------------------------------ properties

  lemma {:induction false} IntendedFromReflexive(order: seq<string>, s: string, i: nat)
    requires i <= |s| && Ranked(order, s)
    ensures IntendedCompareFrom(order, s, s, i) == Ok(0)
    decreases |s| - i
  {
    if i < |s| {
      IntendedFromReflexive(order, s, i + 1);
    }
  }

  /** A word whose letters all have ranks compares equal to itself, whatever
      its encoding. */
  lemma IntendedReflexive(order: seq<string>, s: string)
    requires Ranked(order, s)
    ensures IntendedCompare(order, s, s) == Ok(0)
  {
    IntendedFromReflexive(order, s, 0);
  }

  lemma {:induction false} IntendedFromSwap(order: seq<string>, a: string, b: string, i: nat)
    requires i <= |a| && i <= |b|
    ensures IntendedCompareFrom(order, a, b, i).Ok? <==> IntendedCompareFrom(order, b, a, i).Ok?
    ensures IntendedCompareFrom(order, a, b, i).Ok? ==>
              IntendedCompareFrom(order, b, a, i).value == -IntendedCompareFrom(order, a, b, i).value
    decreases |a| - i
  {
    if i < |a| && i < |b| {
      IntendedFromSwap(order, a, b, i + 1);
    }
  }

  /** Swapping the words negates the result, and both orders fail together. */
  lemma IntendedAntisymmetric(order: seq<string>, a: string, b: string)
    ensures IntendedCompare(order, a, b).Ok? <==> IntendedCompare(order, b, a).Ok?
    ensures IntendedCompare(order, a, b).Ok? ==>
              IntendedCompare(order, b, a).value == -IntendedCompare(order, a, b).value
  {
    IntendedFromSwap(order, a, b, 0);
  }

  /** Words of ranked letters always compare. */
  lemma {:induction false} IntendedFromTotal(order: seq<string>, a: string, b: string, i: nat)
    requires i <= |a| && i <= |b| && Ranked(order, a) && Ranked(order, b)
    ensures IntendedCompareFrom(order, a, b, i).Ok?
    decreases |a| - i
  {
    if i < |a| && i < |b| {
      IntendedFromTotal(order, a, b, i + 1);
    }
  }

  /** A tie means the same length and the same rank at every position. */
  lemma {:induction false} IntendedFromTie(order: seq<string>, a: string, b: string, i: nat)
    requires i <= |a| && i <= |b|
    requires IntendedCompareFrom(order, a, b, i) == Ok(0)
    ensures |a| == |b|
    ensures forall j :: i <= j < |a| ==>
              GetValue(order, a[j]).Ok? && GetValue(order, b[j]).Ok? && Rank(order, a[j]) == Rank(order, b[j])
    decreases |a| - i
  {
    if i < |a| && i < |b| {
      IntendedFromTie(order, a, b, i + 1);
    }
  }

  lemma IntendedTie(order: seq<string>, a: string, b: string)
    requires IntendedCompare(order, a, b) == Ok(0)
    ensures |a| == |b|
    ensures forall j :: 0 <= j < |a| ==>
              GetValue(order, a[j]).Ok? && GetValue(order, b[j]).Ok? && Rank(order, a[j]) == Rank(order, b[j])
  {
    IntendedFromTie(order, a, b, 0);
  }

  /** The last letter counts: words that differ only there are ordered by it. */
  lemma IntendedLastCharCounts(order: seq<string>, w: string, x: char, y: char)
    requires Ranked(order, w) && GetValue(order, x).Ok? && GetValue(order, y).Ok?
    requires Rank(order, x) < Rank(order, y)
    ensures IntendedCompare(order, w + [x], w + [y]) == Ok(-1)
  {
    SharedPrefix(order, w + [x], w + [y], 0, |w|);
  }

  lemma {:induction false} SharedPrefix(order: seq<string>, a: string, b: string, i: nat, k: nat)
    requires i <= k < |a| && k < |b|
    requires forall j :: i <= j < k ==> a[j] == b[j] && GetValue(order, a[j]).Ok?
    ensures IntendedCompareFrom(order, a, b, i) == IntendedCompareFrom(order, a, b, k)
    decreases k - i
  {
    if i < k {
      SharedPrefix(order, a, b, i + 1, k);
    }
  }

  /** Not greater, as a predicate on two words that compare. */
  predicate NotAfter(order: seq<string>, a: string, b: string, i: nat)
    requires i <= |a| && i <= |b|
  {
    IntendedCompareFrom(order, a, b, i).Ok? && IntendedCompareFrom(order, a, b, i).value <= 0
  }

  lemma {:induction false} IntendedFromTransitive(order: seq<string>, a: string, b: string, c: string, i: nat)
    requires i <= |a| && i <= |b| && i <= |c|
    requires NotAfter(order, a, b, i) && NotAfter(order, b, c, i)
    requires Ranked(order, a) && Ranked(order, c)
    ensures NotAfter(order, a, c, i)
    decreases |a| - i
  {
    IntendedFromTotal(order, a, c, i);
    if i < |a| && i < |b| && i < |c| {
      if Rank(order, a[i]) == Rank(order, b[i]) && Rank(order, b[i]) == Rank(order, c[i]) {
        IntendedFromTransitive(order, a, b, c, i + 1);
      }
    }
  }

  /** Not greater is transitive: with `IntendedAntisymmetric`, the corrected
      comparison is a total preorder on ranked words. */
  lemma IntendedTransitive(order: seq<string>, a: string, b: string, c: string)
    requires Ranked(order, a) && Ranked(order, c)
    requires IntendedCompare(order, a, b).Ok? && IntendedCompare(order, a, b).value <= 0
    requires IntendedCompare(order, b, c).Ok? && IntendedCompare(order, b, c).value <= 0
    ensures IntendedCompare(order, a, c).Ok? && IntendedCompare(order, a, c).value <= 0
  {
    IntendedFromTransitive(order, a, b, c, 0);
  }
}
