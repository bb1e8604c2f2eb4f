/** Alphabetic sorting in the older crate: the same ranks, comparison and
    bubble sort as `Collation`, except that a character missing from the
    alphabet table panics instead of being reported, and `sort` runs the
    two rewritings through the utility crate's `replace_pairs`. */
module LegacyCollation {
  import opened Errors
  import opened Text
  import opened Collation
  import BubbleSort
  import KorrektorUtils

  /** The panic message of `get_value` for a character without a rank. */
  function NotFound(c: char): string {
    "Error in usort: char " + [c] + " is not found and can not be sorted"
  }

  /** An outcome of the newer crate with its error turned into the older
      crate's panic. */
  function PanicOnError<T>(o: Outcome<T>): Outcome<T>
    requires o.Fails? ==> o.error.InvalidChar?
  {
    if o.Fails? then Panics(NotFound(o.error.c)) else o
  }

  /** `get_value` of the older crate. */
  function GetValue(order: seq<string>, c: char): (r: Outcome<nat>)
    ensures !r.Fails?
    ensures r.Returns? <==> Collation.GetValue(order, c).Ok?
    ensures r.Returns? ==> r.value == Collation.GetValue(order, c).value
    ensures r.Panics? ==> r.message == NotFound(c) && !IsExceptioned(c) && [c] !in order
  {
    if IsExceptioned(c) then Returns(ExceptionedValue(c))
    else
      var k := Position(order, c);
      if k < |order| then Returns(k)
      else Panics(NotFound(c))
  }

  /** The comparison loop of the older `usort` from index `i` on. */
  function CompareFrom(order: seq<string>, s1: string, s2: string, i: nat, length: nat): (r: Outcome<int>)
    ensures r == PanicOnError(Collation.CompareFrom(order, s1, s2, i, length))
    decreases length - i
  {
    if i >= length then Returns(Sign(ByteLen(s1) - ByteLen(s2)))
    else if i >= |s1| then Panics(NoChar(i, s1))
    else if i >= |s2| then Panics(NoChar(i, s2))
    else
      var v1 := GetValue(order, s1[i]);
      if v1.Panics? then Panics(v1.message)
      else
        var v2 := GetValue(order, s2[i]);
        if v2.Panics? then Panics(v2.message)
        else if v1.value < v2.value then Returns(-1)
        else if v1.value > v2.value then Returns(1)
        else CompareFrom(order, s1, s2, i + 1, length)
  }

  /** `usort` of the older crate: it returns what the newer one returns,
      panics where the newer one panics, and panics where the newer one
      reports a character without a rank. */
  function Compare(order: seq<string>, s1: string, s2: string): (r: Outcome<int>)
    ensures r == PanicOnError(Collation.Compare(order, s1, s2))
    ensures !r.Fails?
  {
    if ByteLen(s1) == 0 || ByteLen(s2) == 0 then Panics(SubtractOverflow)
    else CompareFrom(order, s1, s2, 0, Min(ByteLen(s1) - 1, ByteLen(s2) - 1))
  }

  /** Antisymmetry carries over: whenever the older `usort` returns,
      swapping the words negates the result. */
  lemma CompareAntisymmetric(order: seq<string>, a: string, b: string)
    ensures Compare(order, a, b).Returns? <==> Compare(order, b, a).Returns?
    ensures Compare(order, a, b).Returns? ==> Compare(order, b, a).value == -Compare(order, a, b).value
  {
    Collation.CompareAntisymmetric(order, a, b);
  }

  /** `usort` of the older crate, the loop with early returns. */
  method USort(order: seq<string>, s1: string, s2: string) returns (r: Outcome<int>)
    ensures r == Compare(order, s1, s2)
  {
    var len1: int, len2: int := ByteLen(s1), ByteLen(s2);
    if len1 == 0 || len2 == 0 {
      return Panics(SubtractOverflow);
    }
    var length := Min(len1 - 1, len2 - 1);
    var i := 0;
    while i < length
      invariant 0 <= i <= length
      invariant CompareFrom(order, s1, s2, i, length) == Compare(order, s1, s2)
    {
      if i >= |s1| {
        return Panics(NoChar(i, s1));
      }
      if i >= |s2| {
        return Panics(NoChar(i, s2));
      }
      var v1 := GetValue(order, s1[i]);
      if v1.Panics? {
        return Panics(v1.message);
      }
      var v2 := GetValue(order, s2[i]);
      if v2.Panics? {
        return Panics(v2.message);
      }
      if v1.value < v2.value {
        return Returns(-1);
      }
      if v1.value > v2.value {
        return Returns(1);
      }
      i := i + 1;
    }
    r := Returns(Sign(len1 - len2));
  }

  /** The older `usort` as the comparison the bubble sort is given. */
  function LegacyUsort(order: seq<string>): BubbleSort.Comparison {
    (a, b) => Compare(order, a, b)
  }

  /** A pass of the older crate's bubble sort is the newer crate's pass with
      its error, always a character without a rank, turned into a panic. */
  lemma PassPanicsOnError(order: seq<string>, s: seq<string>, i: nat, len: nat, done: bool)
    requires i < len <= |s|
    ensures var p := BubbleSort.Pass(Usort(order), s, i, len, done);
            (p.Fails? ==> p.error.InvalidChar?)
            && BubbleSort.Pass(LegacyUsort(order), s, i, len, done) == PanicOnError(p)
  {
    forall a, b
      ensures LegacyUsort(order)(a, b) == BubbleSort.PanicOnInvalid(NotFound, Usort(order)(a, b))
    {
      assert Compare(order, a, b) == PanicOnError(Collation.Compare(order, a, b));
    }
    BubbleSort.PassPanicsOnInvalid(Usort(order), LegacyUsort(order), NotFound, s, i, len, done);
    if BubbleSort.Pass(Usort(order), s, i, len, done).Fails? {
      PassFailing(order, s, i, len, done);
    }
  }

  /** One pass of the older crate's bubble sort over `a[..len]`, in place:
      the pass that `BubbleSort.Pass` describes for the older `usort`, with
      its result flag (nothing swapped) returned. */
  method BubblePass(order: seq<string>, a: array<string>, len: nat) returns (r: Outcome<bool>)
    requires 1 <= len <= a.Length
    modifies a
    ensures a[len..] == old(a[len..])
    ensures !r.Fails?
    ensures r.Returns? ==> BubbleSort.Pass(LegacyUsort(order), old(a[..]), 0, len, true) == Returns((a[..], r.value))
    ensures r.Panics? ==> BubbleSort.Pass(LegacyUsort(order), old(a[..]), 0, len, true) == Panics(r.message)
  {
    ghost var pass := BubbleSort.Pass(LegacyUsort(order), a[..], 0, len, true);
    var done := true;
    var i := 0;
    while i < len - 1
      invariant 0 <= i <= len - 1
      invariant a[len..] == old(a[len..])
      invariant pass == BubbleSort.Pass(LegacyUsort(order), a[..], i, len, done)
    {
      var c := USort(order, a[i], a[i + 1]);
      if c.Panics? {
        return Panics(c.message);
      }
      ghost var s := a[..];
      if c.value == 1 {
        BubbleSort.PassSwap(LegacyUsort(order), s, i, len, done);
        a[i], a[i + 1] := a[i + 1], a[i];
        assert a[..] == s[i := s[i + 1]][i + 1 := s[i]];
        done := false;
      } else {
        BubbleSort.PassKeep(LegacyUsort(order), s, i, len, done);
      }
      i := i + 1;
    }
    r := Returns(done);
  }

  /** `sort_sortable` of the older crate: the same bubble sort, which never
      reports an error; a character without a rank panics. */
  method SortSortable(order: seq<string>, text: string) returns (r: Outcome<string>, ghost sorted: seq<string>)
    ensures !r.Fails?
    ensures SplitWhitespace(text) == [] ==> r == Panics(SubtractOverflow)
    ensures r.Returns? ==> multiset(sorted) == multiset(SplitWhitespace(text)) && InOrder(order, sorted)
    ensures r.Returns? ==> r.value == JoinSpaces(sorted) && SplitWhitespace(r.value) == sorted
    ensures SplitWhitespace(text) != [] && InOrder(order, SplitWhitespace(text)) ==>
              r == Returns(JoinSpaces(SplitWhitespace(text)))
  {
    var words := SplitWhitespace(text);
    sorted := words;
    if |words| == 0 {
      return Panics(SubtractOverflow), sorted;
    }
    var a := new string[|words|](i requires 0 <= i < |words| => words[i]);
    assert a[..] == words;
    BubbleSort.SortStart(Usort(order), words);
    ghost var presorted := InOrder(order, words);
    var len := a.Length;
    var done := false;
    while !done
      invariant 0 <= len <= a.Length
      invariant !done ==> len >= 1 && BubbleSort.Settled(Usort(order), a[..], len)
      invariant done ==> InOrder(order, a[..])
      invariant AllWords(a[..]) && multiset(a[..]) == multiset(words)
      invariant presorted ==> a[..] == words && (done || len == a.Length)
      decreases len
    {
      ghost var before := a[..];
      PassPanicsOnError(order, before, 0, len, true);
      if presorted {
        BubbleSort.PassOfSorted(Usort(order), before, len);
      }
      var pass := BubblePass(order, a, len);
      if pass.Panics? {
        return Panics(pass.message), a[..];
      }
      ghost var bound := len;
      done := pass.value;
      len := len - 1;
      SortRound(order, words, presorted, before, bound, len, a[..], done);
    }
    var result := PushWords(a);
    sorted := a[..];
    TrimSpaceTerminated(sorted);
    SplitJoinSpaces(sorted);
    r := Returns(Trim(result));
  }

  /** `sort` of the older crate: the text rewritten by the `toSort` table,
      its words sorted, and the result rewritten by the `fromSort` table. */
  method Sort(order: seq<string>, toSort: seq<KorrektorUtils.Rule>, fromSort: seq<KorrektorUtils.Rule>, text: string)
    returns (r: Outcome<string>, ghost sorted: seq<string>)
    ensures !r.Fails?
    ensures r.Returns? ==>
              r.value == KorrektorUtils.ApplyRules(JoinSpaces(sorted), fromSort)
              && multiset(sorted) == multiset(SplitWhitespace(KorrektorUtils.ApplyRules(text, toSort)))
    ensures r.Returns? ==> InOrder(order, sorted)
    ensures SplitWhitespace(KorrektorUtils.ApplyRules(text, toSort)) == [] ==> r == Panics(SubtractOverflow)
    ensures var words := SplitWhitespace(KorrektorUtils.ApplyRules(text, toSort));
            words != [] && InOrder(order, words) ==>
              r == Returns(KorrektorUtils.ApplyRules(JoinSpaces(words), fromSort))
  {
    var sortable := KorrektorUtils.ReplacePairs(text, toSort);
    var intermediate;
    intermediate, sorted := SortSortable(order, sortable);
    if intermediate.Panics? {
      return intermediate, sorted;
    }
    var output := KorrektorUtils.ReplacePairs(intermediate.value, fromSort);
    r := Returns(output);
  }
}
