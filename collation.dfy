/** Alphabetic sorting of Uzbek words, as the newer crate does it: every
    character has a rank (its position in the alphabet table, or one of two
    fixed ranks for 'Ö' and 'Ü', which `to_sortable` puts in place of the
    upper-case digraphs "SH" and "CH"), `usort`
    compares two words by those ranks, and a bubble sort orders the words
    of a text.

    The alphabet table is a parameter `order`: its entries are the strings
    a character is looked up as. Rust's `str::len` counts UTF-8 bytes while
    `chars().nth` counts characters; both are modelled, and a panic is an
    outcome of its own. */
module Collation {
  import opened Errors
  import BubbleSort
  import opened Text
  import Numerals

  // ------------------------------------------------------------------ ranks

  /** The two letters whose rank does not come from the table. */
  predicate IsExceptioned(c: char)
    ensures IsExceptioned(c) ==> ByteLen([c]) == 2
  {
    c == 'Ö' || c == 'Ü'
  }

  /** `get_exceptioned_value`: 55 and 56 for the two exceptions, 0 otherwise. */
  function ExceptionedValue(c: char): (r: nat)
    ensures r != 0 <==> IsExceptioned(c)
    ensures IsExceptioned(c) ==> 55 <= r <= 56
  {
    if c == 'Ö' then 55 else if c == 'Ü' then 56 else 0
  }

  /** `position`: the first index whose entry is the one-character string `c`,
      or `|order|` when there is none. */
  function Position(order: seq<string>, c: char): (k: nat)
    ensures k <= |order|
    ensures forall j :: 0 <= j < k ==> order[j] != [c]
    ensures k < |order| ==> order[k] == [c]
    ensures k == |order| <==> [c] !in order
  {
    if order == [] then 0
    else if order[0] == [c] then 0
    else 1 + Position(order[1..], c)
  }

  /** `get_value`: the rank of a character. */
  function GetValue(order: seq<string>, c: char): (r: Result<nat>)
    ensures IsExceptioned(c) ==> r.Ok?
    ensures !IsExceptioned(c) ==> (r.Ok? <==> [c] in order)
    ensures !IsExceptioned(c) && r.Ok? ==>
              r.value < |order| && order[r.value] == [c] && forall j :: 0 <= j < r.value ==> order[j] != [c]
    ensures r.Err? ==> r.error == InvalidChar(c)
  {
    if IsExceptioned(c) then Ok(ExceptionedValue(c))
    else
      var k := Position(order, c);
      if k < |order| then Ok(k) else Err(InvalidChar(c))
  }

  /** The two exceptions have fixed ranks whatever the table holds, even when
      the table lists them too, while every other character ranks by its
      place in the table; so with a table of at most 55 entries they sort
      after every other letter. */
  lemma ExceptionRanks(order: seq<string>)
    ensures GetValue(order, 'Ö') == Ok(55)
    ensures GetValue(order, 'Ü') == Ok(56)
    ensures forall c :: !IsExceptioned(c) && GetValue(order, c).Ok? ==> GetValue(order, c).value < |order|
  {
  }

  /** Two characters with the same rank from the table are the same character. */
  lemma TableRankInjective(order: seq<string>, c: char, d: char)
    requires !IsExceptioned(c) && !IsExceptioned(d)
    requires GetValue(order, c).Ok? && GetValue(order, d).Ok?
    requires GetValue(order, c).value == GetValue(order, d).value
    ensures c == d
  {
    assert [c] == order[GetValue(order, c).value] == [d];
    assert [c][0] == [d][0];
  }

  // ------------------------------------------------------------------ usort

  function Sign(x: int): (s: int)
    ensures -1 <= s <= 1
    ensures s < 0 <==> x < 0
    ensures s > 0 <==> x > 0
  {
    if x < 0 then -1 else if x > 0 then 1 else 0
  }

  function Min(a: int, b: int): int {
    if a < b then a else b
  }

  /** The message of Rust's overflow check on `usize` subtraction. */
  const SubtractOverflow := "attempt to subtract with overflow"

  /** The panic message when a word has no character at an index. */
  function NoChar(i: nat, s: string): string {
    "Error in usort: no char at the index " + Numerals.Decimal(i) + " in &str: " + s
  }

  /** The comparison loop of `usort` from index `i` on: at each index both
      characters are fetched (a missing one panics), then both ranks are
      looked up (a missing one is an error); the first differing rank
      decides, and when none does, the byte lengths decide. */
  function CompareFrom(order: seq<string>, s1: string, s2: string, i: nat, length: nat): (r: Outcome<int>)
    ensures r.Returns? ==> -1 <= r.value <= 1
    ensures r.Fails? ==> r.error.InvalidChar? && GetValue(order, r.error.c).Err?
    ensures r.Fails? ==> r.error.c in s1 || r.error.c in s2
    decreases length - i
  {
    if i >= length then Returns(Sign(ByteLen(s1) - ByteLen(s2)))
    else if i >= |s1| then Panics(NoChar(i, s1))
    else if i >= |s2| then Panics(NoChar(i, s2))
    else
      var v1 := GetValue(order, s1[i]);
      if v1.Err? then Fails(v1.error)
      else
        var v2 := GetValue(order, s2[i]);
        if v2.Err? then Fails(v2.error)
        else if v1.value < v2.value then Returns(-1)
        else if v1.value > v2.value then Returns(1)
        else CompareFrom(order, s1, s2, i + 1, length)
  }

  /** `usort`: the number of compared positions is one less than the shorter
      byte length; an empty word makes that subtraction overflow. */
  function Compare(order: seq<string>, s1: string, s2: string): (r: Outcome<int>)
    ensures r.Returns? ==> -1 <= r.value <= 1
    ensures r.Fails? ==> r.error.InvalidChar? && GetValue(order, r.error.c).Err?
    ensures r.Fails? ==> r.error.c in s1 || r.error.c in s2
  {
    if ByteLen(s1) == 0 || ByteLen(s2) == 0 then Panics(SubtractOverflow)
    else CompareFrom(order, s1, s2, 0, Min(ByteLen(s1) - 1, ByteLen(s2) - 1))
  }

  /** `usort`, the loop with early returns. */
  method USort(order: seq<string>, s1: string, s2: string) returns (r: Outcome<int>)
    ensures r == Compare(order, s1, s2)
  {
    var len1: int, len2: int := ByteLen(s1), ByteLen(s2);
    if len1 == 0 || len2 == 0 {
      return Panics(SubtractOverflow);
    }
    var length := Min(len1 - 1, len2 - 1);
    var i := 0;
    while i < length
      invariant 0 <= i <= length
      invariant CompareFrom(order, s1, s2, i, length) == Compare(order, s1, s2)
    {
      if i >= |s1| {
        return Panics(NoChar(i, s1));
      }
      if i >= |s2| {
        return Panics(NoChar(i, s2));
      }
      var v1 := GetValue(order, s1[i]);
      if v1.Err? {
        return Fails(v1.error);
      }
      var v2 := GetValue(order, s2[i]);
      if v2.Err? {
        return Fails(v2.error);
      }
      if v1.value < v2.value {
        return Returns(-1);
      }
      if v1.value > v2.value {
        return Returns(1);
      }
      i := i + 1;
    }
    r := Returns(Sign(len1 - len2));
  }

  /** Swapping the words negates a result and keeps the kind of outcome:
      both succeed, both fail, or both panic. */
  lemma {:induction false} CompareFromSwap(order: seq<string>, s1: string, s2: string, i: nat, length: nat)
    ensures CompareFrom(order, s1, s2, i, length).Returns? <==> CompareFrom(order, s2, s1, i, length).Returns?
    ensures CompareFrom(order, s1, s2, i, length).Fails? <==> CompareFrom(order, s2, s1, i, length).Fails?
    ensures CompareFrom(order, s1, s2, i, length).Returns? ==>
              CompareFrom(order, s2, s1, i, length).value == -CompareFrom(order, s1, s2, i, length).value
    decreases length - i
  {
    if i < length && i < |s1| && i < |s2| {
      CompareFromSwap(order, s1, s2, i + 1, length);
    }
  }

  /** `usort` is antisymmetric: whenever it returns, swapping the words
      negates the result; and it fails or panics on one order exactly when
      it does on the other. */
  lemma CompareAntisymmetric(order: seq<string>, a: string, b: string)
    ensures Compare(order, a, b).Returns? <==> Compare(order, b, a).Returns?
    ensures Compare(order, a, b).Fails? <==> Compare(order, b, a).Fails?
    ensures Compare(order, a, b).Returns? ==> Compare(order, b, a).value == -Compare(order, a, b).value
  {
    if ByteLen(a) > 0 && ByteLen(b) > 0 {
      var length := Min(ByteLen(a) - 1, ByteLen(b) - 1);
      assert length == Min(ByteLen(b) - 1, ByteLen(a) - 1);
      CompareFromSwap(order, a, b, 0, length);
    }
  }

  /** Every character of `s` has a rank. */
  predicate Ranked(order: seq<string>, s: string) {
    forall i :: 0 <= i < |s| ==> GetValue(order, s[i]).Ok?
  }

  /** A word compared with itself: positions up to `length` that exist all
      compare equal; the first missing one panics. */
  lemma {:induction false} CompareFromSelf(order: seq<string>, s: string, i: nat, length: nat)
    requires Ranked(order, s)
    ensures length <= |s| ==> CompareFrom(order, s, s, i, length) == Returns(0)
    ensures |s| < length && i <= |s| ==> CompareFrom(order, s, s, i, length) == Panics(NoChar(|s|, s))
    decreases length - i
  {
    if i < length && i < |s| {
      CompareFromSelf(order, s, i + 1, length);
    }
  }

  /** A word compared with itself gives 0 exactly when its byte length is at
      most one more than its number of characters; otherwise the loop runs
      past its last character and panics. */
  lemma CompareSelf(order: seq<string>, s: string)
    requires s != [] && Ranked(order, s)
    ensures ByteLen(s) <= |s| + 1 ==> Compare(order, s, s) == Returns(0)
    ensures ByteLen(s) > |s| + 1 ==> Compare(order, s, s) == Panics(NoChar(|s|, s))
  {
    var length := CompareWithSelf(order, s);
    CompareFromSelf(order, s, 0, length);
  }

  /** A non-empty word compared with itself runs the loop up to one less
      than its byte length. */
  lemma CompareWithSelf(order: seq<string>, s: string) returns (length: nat)
    requires s != []
    ensures length == ByteLen(s) - 1
    ensures Compare(order, s, s) == CompareFrom(order, s, s, 0, length)
  {
    length := ByteLen(s) - 1;
  }

  /** "ÖÖ" (the sortable form of "SHSH") compared with itself: four bytes,
      so three positions are compared, but it has only two characters. */
  lemma DoubleExceptionPanics(order: seq<string>)
    ensures Compare(order, "ÖÖ", "ÖÖ") == Panics(NoChar(2, "ÖÖ"))
  {
    assert ByteLen("ÖÖ") == 4;
    CompareSelf(order, "ÖÖ");
  }

  /** Words of ASCII letters compare equal when they differ only in their
      last letter: the loop stops one position short of it. */
  lemma LastCharIgnored(order: seq<string>, w: string, x: char, y: char)
    requires IsAscii(w + [x]) && IsAscii(w + [y]) && Ranked(order, w)
    ensures Compare(order, w + [x], w + [y]) == Returns(0)
  {
    var a, b := w + [x], w + [y];
    assert ByteLen(a) == |w| + 1 && ByteLen(b) == |w| + 1;
    SamePrefixEqual(order, a, b, 0, |w|);
  }

  lemma {:induction false} SamePrefixEqual(order: seq<string>, a: string, b: string, i: nat, length: nat)
    requires i <= length <= |a| && length <= |b| && ByteLen(a) == ByteLen(b)
    requires forall j :: i <= j < length ==> a[j] == b[j] && GetValue(order, a[j]).Ok?
    ensures CompareFrom(order, a, b, i, length) == Returns(0)
    decreases length - i
  {
    if i < length {
      SamePrefixEqual(order, a, b, i + 1, length);
    }
  }

  /** When every compared position has equal ranks, the byte lengths decide,
      whatever the characters are. */
  lemma {:induction false} TieByByteLength(order: seq<string>, a: string, b: string, i: nat, length: nat)
    requires i <= length <= |a| && length <= |b|
    requires forall j :: i <= j < length ==>
               GetValue(order, a[j]).Ok? && GetValue(order, b[j]).Ok?
               && GetValue(order, a[j]).value == GetValue(order, b[j]).value
    ensures CompareFrom(order, a, b, i, length) == Returns(Sign(ByteLen(a) - ByteLen(b)))
    decreases length - i
  {
    if i < length {
      TieByByteLength(order, a, b, i + 1, length);
    }
  }

  /** The first position where the ranks differ decides, provided it lies
      inside the compared range and both words reach it. */
  lemma {:induction false} FirstDifferenceDecides(order: seq<string>, a: string, b: string, i: nat, k: nat, length: nat)
    requires i <= k < length && k < |a| && k < |b|
    requires forall j :: i <= j <= k ==> GetValue(order, a[j]).Ok? && GetValue(order, b[j]).Ok?
    requires forall j :: i <= j < k ==> GetValue(order, a[j]).value == GetValue(order, b[j]).value
    requires GetValue(order, a[k]).value != GetValue(order, b[k]).value
    ensures CompareFrom(order, a, b, i, length)
         == Returns(if GetValue(order, a[k]).value < GetValue(order, b[k]).value then -1 else 1)
    decreases k - i
  {
    if i < k {
      FirstDifferenceDecides(order, a, b, i + 1, k, length);
    }
  }

  /** The comparisons `usort`'s own tests make, for any table that ranks the
      letters of "čiroyli" and "čilonzor" with 'l' before 'r'. */
  lemma USortExamples(order: seq<string>)
    requires Ranked(order, "čiroyli") && Ranked(order, "čilonzor")
    requires GetValue(order, 'l').Ok? && GetValue(order, 'r').Ok?
    requires GetValue(order, 'l').value < GetValue(order, 'r').value
    ensures Compare(order, "čiroyli", "čilonzor") == Returns(1)
    ensures Compare(order, "čiroyli", "čiroyli") == Returns(0)
    ensures Compare(order, "čilonzor", "čiroyli") == Returns(-1)
  {
    ExampleWords();
    USortExampleAfter(order, "čiroyli", "čilonzor");
    USortExampleBefore(order, "čilonzor", "čiroyli");
    CompareSelf(order, "čiroyli");
  }

  /** The two words of the examples: the same first two letters, then 'r'
      against 'l'; "č" takes two bytes. */
  lemma ExampleWords()
    ensures |"čiroyli"| == 7 && ByteLen("čiroyli") == 8
    ensures |"čilonzor"| == 8 && ByteLen("čilonzor") == 9
    ensures "čiroyli"[0] == "čilonzor"[0] && "čiroyli"[1] == "čilonzor"[1]
    ensures "čiroyli"[2] == 'r' && "čilonzor"[2] == 'l'
  {
  }

  lemma USortExampleAfter(order: seq<string>, a: string, b: string)
    requires |a| == 7 && ByteLen(a) == 8 && |b| == 8 && ByteLen(b) == 9
    requires a[0] == b[0] && a[1] == b[1] && a[2] == 'r' && b[2] == 'l'
    requires Ranked(order, a) && Ranked(order, b)
    requires GetValue(order, 'l').Ok? && GetValue(order, 'r').Ok?
    requires GetValue(order, 'l').value < GetValue(order, 'r').value
    ensures Compare(order, a, b) == Returns(1)
  {
    assert GetValue(order, a[0]).Ok? && GetValue(order, a[1]).Ok?;
    FirstDifferenceDecides(order, a, b, 0, 2, 7);
  }

  lemma USortExampleBefore(order: seq<string>, a: string, b: string)
    requires |a| == 8 && ByteLen(a) == 9 && |b| == 7 && ByteLen(b) == 8
    requires a[0] == b[0] && a[1] == b[1] && a[2] == 'l' && b[2] == 'r'
    requires Ranked(order, a) && Ranked(order, b)
    requires GetValue(order, 'l').Ok? && GetValue(order, 'r').Ok?
    requires GetValue(order, 'l').value < GetValue(order, 'r').value
    ensures Compare(order, a, b) == Returns(-1)
  {
    assert GetValue(order, a[0]).Ok? && GetValue(order, a[1]).Ok?;
    FirstDifferenceDecides(order, a, b, 0, 2, 7);
  }

  /** `usort` as the comparison the bubble sort is given. */
  function Usort(order: seq<string>): BubbleSort.Comparison {
    (a, b) => Compare(order, a, b)
  }

  /** The comparison loops of three words, run in step: when the first word
      is not after the second and the second not after the third, the first
      is not after the third. */
  lemma {:induction false} CompareFromTransitive(order: seq<string>, a: string, b: string, c: string,
                                                 i: nat, lab: nat, lbc: nat, lac: nat)
    requires ByteLen(a) > 0 && ByteLen(b) > 0 && ByteLen(c) > 0
    requires lab == Min(ByteLen(a) - 1, ByteLen(b) - 1)
    requires lbc == Min(ByteLen(b) - 1, ByteLen(c) - 1)
    requires lac == Min(ByteLen(a) - 1, ByteLen(c) - 1)
    requires i <= lab && i <= lbc && i <= lac
    requires CompareFrom(order, a, b, i, lab).Returns? && CompareFrom(order, a, b, i, lab).value != 1
    requires CompareFrom(order, b, c, i, lbc).Returns? && CompareFrom(order, b, c, i, lbc).value != 1
    ensures CompareFrom(order, a, c, i, lac).Returns? && CompareFrom(order, a, c, i, lac).value != 1
    decreases lac - i
  {
    if i < lab && i < lbc && i < lac {
      var ra, rb, rc := GetValue(order, a[i]), GetValue(order, b[i]), GetValue(order, c[i]);
      if ra.value == rb.value && rb.value == rc.value {
        CompareFromTransitive(order, a, b, c, i + 1, lab, lbc, lac);
      }
    }
  }

  /** `usort` as written orders words transitively: a tie or a -1 between
      the first and second word, and between the second and third, gives a
      tie or a -1 between the first and third, with no error and no panic. */
  lemma CompareTransitive(order: seq<string>, a: string, b: string, c: string)
    requires BubbleSort.OrderedBy(Usort(order), a, b) && BubbleSort.OrderedBy(Usort(order), b, c)
    ensures BubbleSort.OrderedBy(Usort(order), a, c)
  {
    CompareFromTransitive(order, a, b, c, 0, Min(ByteLen(a) - 1, ByteLen(b) - 1),
                          Min(ByteLen(b) - 1, ByteLen(c) - 1), Min(ByteLen(a) - 1, ByteLen(c) - 1));
  }

  /** So `usort` meets both laws the bubble sort needs: it is transitive,
      and a pair it answers 1 for may stay in place once swapped. */
  lemma UsortLaws(order: seq<string>)
    ensures BubbleSort.Transitive(Usort(order)) && BubbleSort.Flips(Usort(order))
  {
    forall a, b, c | BubbleSort.OrderedBy(Usort(order), a, b) && BubbleSort.OrderedBy(Usort(order), b, c)
      ensures BubbleSort.OrderedBy(Usort(order), a, c)
    {
      CompareTransitive(order, a, b, c);
    }
    forall a, b | Usort(order)(a, b) == Returns(1)
      ensures BubbleSort.OrderedBy(Usort(order), b, a)
    {
      CompareAntisymmetric(order, a, b);
    }
  }

  // ------------------------------------------------------------ bubble sort

  /** Words already in order: every adjacent pair compares without error and
      the left one is not greater. */
  predicate InOrder(order: seq<string>, ws: seq<string>) {
    BubbleSort.Sorted(Usort(order), ws)
  }

  predicate AllWords(ws: seq<string>) {
    forall i :: 0 <= i < |ws| ==> IsWord(ws[i])
  }

  lemma MemberOfPermutation(x: string, s: seq<string>, ws: seq<string>)
    requires x in s && multiset(s) == multiset(ws)
    ensures exists k :: 0 <= k < |ws| && ws[k] == x
  {
    assert x in multiset(ws);
    var k :| 0 <= k < |ws| && ws[k] == x;
  }

  /** A pass of the bubble sort by `usort` that stops on an error stops on
      a character without a rank, found in one of the words it was given,
      at or after position `i` and below its bound. */
  lemma PassFailing(order: seq<string>, s: seq<string>, i: nat, len: nat, done: bool)
    requires i < len <= |s|
    requires BubbleSort.Pass(Usort(order), s, i, len, done).Fails?
    ensures var e := BubbleSort.Pass(Usort(order), s, i, len, done).error;
            e.InvalidChar? && GetValue(order, e.c).Err? && exists k :: i <= k < len && e.c in s[k]
  {
    var e := BubbleSort.Pass(Usort(order), s, i, len, done).error;
    BubbleSort.PassFailing(Usort(order), s, i, len, done);
    var j, k :| i <= j < len && i <= k < len && Usort(order)(s[j], s[k]) == Fails(e);
    assert Compare(order, s[j], s[k]) == Fails(e);
    if e.c in s[j] {
      assert i <= j < len && e.c in s[j];
    } else {
      assert i <= k < len && e.c in s[k];
    }
  }

  /** One round of `sort_sortable`'s outer loop with `usort`: a pass with
      bound `len` that returns keeps the words a permutation of the text's
      words, moves the settled suffix one place down to the next bound
      `next`, ends the sort with the words in order when it swapped nothing
      (always so at bound 1), and leaves words that were already in order
      (`presorted`) as they were. */
  lemma SortRound(order: seq<string>, words: seq<string>, presorted: bool, s: seq<string>, len: nat, next: nat,
                  t: seq<string>, d: bool)
    requires 1 <= len <= |s| && next + 1 == len
    requires BubbleSort.Pass(Usort(order), s, 0, len, true) == Returns((t, d))
    requires AllWords(s) && multiset(s) == multiset(words)
    requires BubbleSort.Settled(Usort(order), s, len)
    requires presorted == InOrder(order, words)
    requires presorted ==> s == words && len == |s|
    ensures AllWords(t) && multiset(t) == multiset(words)
    ensures !d ==> next >= 1 && BubbleSort.Settled(Usort(order), t, next)
    ensures d ==> InOrder(order, t)
    ensures presorted ==> t == words && d
  {
    UsortLaws(order);
    BubbleSort.SortRound(Usort(order), words, s, len, next, t, d);
    forall j | 0 <= j < |t|
      ensures IsWord(t[j])
    {
      assert t[j] in multiset(s);
      var k :| 0 <= k < |s| && s[k] == t[j];
    }
  }

  /** One pass of the bubble sort over `a[..len]`, in place: the pass that
      `BubbleSort.Pass` describes for `usort`, with its result flag (nothing
      swapped) returned. `BubbleSort.PassFrame` and `PassFailing` say what
      that leaves in `a`. */
  method BubblePass(order: seq<string>, a: array<string>, len: nat) returns (r: Outcome<bool>)
    requires 1 <= len <= a.Length
    modifies a
    ensures a[len..] == old(a[len..])
    ensures r.Returns? ==> BubbleSort.Pass(Usort(order), old(a[..]), 0, len, true) == Returns((a[..], r.value))
    ensures r.Fails? ==> BubbleSort.Pass(Usort(order), old(a[..]), 0, len, true) == Fails(r.error)
    ensures r.Panics? ==> BubbleSort.Pass(Usort(order), old(a[..]), 0, len, true) == Panics(r.message)
  {
    ghost var pass := BubbleSort.Pass(Usort(order), a[..], 0, len, true);
    var done := true;
    var i := 0;
    while i < len - 1
      invariant 0 <= i <= len - 1
      invariant a[len..] == old(a[len..])
      invariant pass == BubbleSort.Pass(Usort(order), a[..], i, len, done)
    {
      var c := USort(order, a[i], a[i + 1]);
      if c.Fails? {
        return Fails(c.error);
      }
      if c.Panics? {
        return Panics(c.message);
      }
      ghost var s := a[..];
      if c.value == 1 {
        BubbleSort.PassSwap(Usort(order), s, i, len, done);
        a[i], a[i + 1] := a[i + 1], a[i];
        assert a[..] == s[i := s[i + 1]][i + 1 := s[i]];
        done := false;
      } else {
        BubbleSort.PassKeep(Usort(order), s, i, len, done);
      }
      i := i + 1;
    }
    r := Returns(done);
  }

  /** The words of `a`, each followed by one space. */
  method PushWords(a: array<string>) returns (result: string)
    ensures result == SpaceTerminated(a[..])
  {
    result := "";
    for k := 0 to a.Length
      invariant result == SpaceTerminated(a[..k])
    {
      assert a[..k + 1][..k] == a[..k];
      result := result + a[k] + " ";
    }
    assert a[..a.Length] == a[..];
  }

  /** `sort_sortable`: the words of the text, bubble sorted in place with a
      pass bound that shrinks after every pass, joined by single spaces.
      `sorted` is the final order of the words. */
  method SortSortable(order: seq<string>, text: string) returns (r: Outcome<string>, ghost sorted: seq<string>)
    ensures SplitWhitespace(text) == [] ==> r == Panics(SubtractOverflow)
    ensures r.Returns? ==> multiset(sorted) == multiset(SplitWhitespace(text)) && InOrder(order, sorted)
    ensures r.Returns? ==> r.value == JoinSpaces(sorted) && SplitWhitespace(r.value) == sorted
    ensures r.Fails? ==> r.error.InvalidChar? && GetValue(order, r.error.c).Err?
    ensures r.Fails? ==>
              exists k :: 0 <= k < |SplitWhitespace(text)| && r.error.c in SplitWhitespace(text)[k]
    ensures SplitWhitespace(text) != [] && InOrder(order, SplitWhitespace(text)) ==>
              r == Returns(JoinSpaces(SplitWhitespace(text)))
  {
    var words := SplitWhitespace(text);
    sorted := words;
    if |words| == 0 {
      return Panics(SubtractOverflow), sorted;
    }
    var a := new string[|words|](i requires 0 <= i < |words| => words[i]);
    assert a[..] == words;
    BubbleSort.SortStart(Usort(order), words);
    ghost var presorted := InOrder(order, words);
    var len := a.Length;
    var done := false;
    while !done
      invariant 0 <= len <= a.Length
      invariant !done ==> len >= 1 && BubbleSort.Settled(Usort(order), a[..], len)
      invariant done ==> InOrder(order, a[..])
      invariant AllWords(a[..]) && multiset(a[..]) == multiset(words)
      invariant presorted ==> a[..] == words && (done || len == a.Length)
      decreases len
    {
      ghost var before := a[..];
      if presorted {
        BubbleSort.PassOfSorted(Usort(order), before, len);
      }
      var pass := BubblePass(order, a, len);
      if pass.Fails? {
        PassFailing(order, before, 0, len, true);
        ghost var k :| 0 <= k < len && pass.error.c in before[k];
        MemberOfPermutation(before[k], before, words);
        return Fails(pass.error), a[..];
      } else if pass.Panics? {
        return Panics(pass.message), a[..];
      }
      ghost var bound := len;
      done := pass.value;
      len := len - 1;
      SortRound(order, words, presorted, before, bound, len, a[..], done);
    }
    var result := PushWords(a);
    sorted := a[..];
    TrimSpaceTerminated(sorted);
    SplitJoinSpaces(sorted);
    r := Returns(Trim(result));
  }

  /** `sort`: the text rewritten into sortable form, its words sorted, and
      the result rewritten back. The two rewritings are parameters. */
  method Sort(order: seq<string>, toSortable: string -> string, fromSortable: string -> string, text: string)
    returns (r: Outcome<string>, ghost sorted: seq<string>)
    ensures r.Returns? ==>
              r.value == fromSortable(JoinSpaces(sorted))
              && multiset(sorted) == multiset(SplitWhitespace(toSortable(text)))
    ensures r.Returns? ==> InOrder(order, sorted)
    ensures r.Fails? ==> r.error.InvalidChar? && GetValue(order, r.error.c).Err?
    ensures SplitWhitespace(toSortable(text)) == [] ==> r == Panics(SubtractOverflow)
    ensures SplitWhitespace(toSortable(text)) != [] && InOrder(order, SplitWhitespace(toSortable(text))) ==>
              r == Returns(fromSortable(JoinSpaces(SplitWhitespace(toSortable(text)))))
  {
    var sortable := toSortable(text);
    var intermediate;
    intermediate, sorted := SortSortable(order, sortable);
    if !intermediate.Returns? {
      return intermediate, sorted;
    }
    r := Returns(fromSortable(intermediate.value));
  }
}
