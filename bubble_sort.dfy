/** The bubble sort that `sort_sortable` runs over the words of a text, in
    both crates, stated over the comparison it is given: a comparison
    answers -1, 0 or 1, or reports an error, or panics, as `usort` does.
    A pass stops at the first error or panic of the comparison; the sort
    itself (passes with a bound that shrinks by one until a pass swaps
    nothing) is the method `SortSortable` of each crate. */
module BubbleSort {
  import opened Errors

  /** A comparison of two words, in the shape of `usort`. */
  type Comparison = (string, string) -> Outcome<int>

  /** `a` may stay before `b`: the comparison returns and does not answer 1. */
  predicate OrderedBy(cmp: Comparison, a: string, b: string) {
    cmp(a, b).Returns? && cmp(a, b).value != 1
  }

  /** Words in order: every adjacent pair may stay where it is. */
  predicate Sorted(cmp: Comparison, ws: seq<string>) {
    forall i :: 0 <= i < |ws| - 1 ==> OrderedBy(cmp, ws[i], ws[i + 1])
  }

  /** The first law the sort needs of its comparison. */
  ghost predicate Transitive(cmp: Comparison) {
    forall a, b, c :: OrderedBy(cmp, a, b) && OrderedBy(cmp, b, c) ==> OrderedBy(cmp, a, c)
  }

  /** The second law: a pair the comparison answers 1 for may stay in place
      once swapped. */
  ghost predicate Flips(cmp: Comparison) {
    forall a, b :: cmp(a, b) == Returns(1) ==> OrderedBy(cmp, b, a)
  }

  /** What one pass does to the words `s`, from position `i` up to the
      bound `len`: each adjacent pair the comparison answers 1 for is
      swapped and clears `done`; an error or a panic of the comparison ends
      the pass. The result is the new words and whether nothing was swapped. */
  function Pass(cmp: Comparison, s: seq<string>, i: nat, len: nat, done: bool): (r: Outcome<(seq<string>, bool)>)
    requires i < len <= |s|
    ensures r.Returns? ==> |r.value.0| == |s|
    ensures r.Returns? && r.value.1 ==> done && r.value.0 == s
    decreases len - i
  {
    if i + 1 == len then Returns((s, done))
    else
      var c := cmp(s[i], s[i + 1]);
      if c.Fails? then Fails(c.error)
      else if c.Panics? then Panics(c.message)
      else if c.value == 1 then Pass(cmp, s[i := s[i + 1]][i + 1 := s[i]], i + 1, len, false)
      else Pass(cmp, s, i + 1, len, done)
  }

  /** One step of a pass that keeps the pair at `i` in place. */
  lemma PassKeep(cmp: Comparison, s: seq<string>, i: nat, len: nat, done: bool)
    requires i + 1 < len <= |s|
    requires OrderedBy(cmp, s[i], s[i + 1])
    ensures Pass(cmp, s, i, len, done) == Pass(cmp, s, i + 1, len, done)
  {
  }

  /** One step of a pass that swaps the pair at `i`. */
  lemma PassSwap(cmp: Comparison, s: seq<string>, i: nat, len: nat, done: bool)
    requires i + 1 < len <= |s|
    requires cmp(s[i], s[i + 1]) == Returns(1)
    ensures Pass(cmp, s, i, len, done) == Pass(cmp, s[i := s[i + 1]][i + 1 := s[i]], i + 1, len, false)
  {
  }

  /** A pass only permutes the words below its bound and leaves the rest
      where they are. */
  lemma {:induction false} PassFrame(cmp: Comparison, s: seq<string>, i: nat, len: nat, done: bool)
    requires i < len <= |s|
    requires Pass(cmp, s, i, len, done).Returns?
    ensures var t := Pass(cmp, s, i, len, done).value.0;
            |t| == |s| && t[len..] == s[len..] && multiset(t[..len]) == multiset(s[..len])
    decreases len - i
  {
    if i + 1 < len {
      if cmp(s[i], s[i + 1]).value == 1 {
        var swapped := s[i := s[i + 1]][i + 1 := s[i]];
        PassFrame(cmp, swapped, i + 1, len, false);
        assert swapped[..len] == s[..len][i := s[i + 1]][i + 1 := s[i]];
        assert swapped[len..] == s[len..];
      } else {
        PassFrame(cmp, s, i + 1, len, done);
      }
    }
  }

  /** So a whole pass leaves a permutation of its words. */
  lemma PassPermutes(cmp: Comparison, s: seq<string>, len: nat)
    requires 1 <= len <= |s|
    requires Pass(cmp, s, 0, len, true).Returns?
    ensures multiset(Pass(cmp, s, 0, len, true).value.0) == multiset(s)
  {
    var t := Pass(cmp, s, 0, len, true).value.0;
    PassFrame(cmp, s, 0, len, true);
    assert t == t[..len] + t[len..];
    assert s == s[..len] + s[len..];
  }

  /** A pass that reports an error got it from comparing two of the words
      it was given, at or after position `i` and below its bound. */
  lemma {:induction false} PassFailing(cmp: Comparison, s: seq<string>, i: nat, len: nat, done: bool)
    requires i < len <= |s|
    requires Pass(cmp, s, i, len, done).Fails?
    ensures exists j, k :: i <= j < len && i <= k < len && cmp(s[j], s[k]) == Fails(Pass(cmp, s, i, len, done).error)
    decreases len - i
  {
    var e := Pass(cmp, s, i, len, done).error;
    if cmp(s[i], s[i + 1]).Fails? {
      assert cmp(s[i], s[i + 1]) == Fails(e);
    } else if cmp(s[i], s[i + 1]).value == 1 {
      var swapped := s[i := s[i + 1]][i + 1 := s[i]];
      PassFailing(cmp, swapped, i + 1, len, false);
      var j, k :| i + 1 <= j < len && i + 1 <= k < len && cmp(swapped[j], swapped[k]) == Fails(e);
      var j', k' := if j == i + 1 then i else j, if k == i + 1 then i else k;
      assert swapped[j] == s[j'] && swapped[k] == s[k'];
    } else {
      PassFailing(cmp, s, i + 1, len, done);
    }
  }

  /** `o` with a character-without-rank error turned into a panic whose
      message names the character. */
  function PanicOnInvalid<T>(message: char -> string, o: Outcome<T>): Outcome<T> {
    if o.Fails? && o.error.InvalidChar? then Panics(message(o.error.c)) else o
  }

  /** A comparison that panics wherever another one reports a character
      without a rank, and otherwise agrees with it, makes every pass panic
      where the other one's pass reports that error, and agree otherwise. */
  lemma {:induction false} PassPanicsOnInvalid(cmp: Comparison, panicking: Comparison, message: char -> string,
                                               s: seq<string>, i: nat, len: nat, done: bool)
    requires forall a, b :: panicking(a, b) == PanicOnInvalid(message, cmp(a, b))
    requires i < len <= |s|
    ensures Pass(panicking, s, i, len, done) == PanicOnInvalid(message, Pass(cmp, s, i, len, done))
    decreases len - i
  {
    if i + 1 < len {
      var c := cmp(s[i], s[i + 1]);
      assert panicking(s[i], s[i + 1]) == PanicOnInvalid(message, c);
      if c.Returns? && c.value == 1 {
        PassPanicsOnInvalid(cmp, panicking, message, s[i := s[i + 1]][i + 1 := s[i]], i + 1, len, false);
      } else if c.Returns? {
        PassPanicsOnInvalid(cmp, panicking, message, s, i + 1, len, done);
      }
    }
  }

  /** A pass carries the greatest word it meets to the last place below its
      bound: when every word before position `i` may stay before the word
      at `i`, every word before the bound ends before the last one. */
  lemma {:induction false} PassMax(cmp: Comparison, s: seq<string>, i: nat, len: nat, done: bool)
    requires Transitive(cmp) && Flips(cmp)
    requires i < len <= |s|
    requires forall j :: 0 <= j < i ==> OrderedBy(cmp, s[j], s[i])
    requires Pass(cmp, s, i, len, done).Returns?
    ensures var t := Pass(cmp, s, i, len, done).value.0;
            |t| == |s| && forall j :: 0 <= j < len - 1 ==> OrderedBy(cmp, t[j], t[len - 1])
    decreases len - i
  {
    PassFrame(cmp, s, i, len, done);
    if i + 1 < len {
      if cmp(s[i], s[i + 1]).value == 1 {
        var swapped := s[i := s[i + 1]][i + 1 := s[i]];
        forall j | 0 <= j < i + 1
          ensures OrderedBy(cmp, swapped[j], swapped[i + 1])
        {
          if j == i {
            assert cmp(s[i], s[i + 1]) == Returns(1);
          } else {
            assert swapped[j] == s[j] && swapped[i + 1] == s[i];
          }
        }
        PassMax(cmp, swapped, i + 1, len, false);
      } else {
        assert OrderedBy(cmp, s[i], s[i + 1]);
        forall j | 0 <= j < i + 1
          ensures OrderedBy(cmp, s[j], s[i + 1])
        {
          if j < i {
            assert OrderedBy(cmp, s[j], s[i]);
          }
        }
        PassMax(cmp, s, i + 1, len, done);
      }
    }
  }

  /** The adjacent words from position `i` up to the bound `len` are in
      order, pair by pair. */
  predicate OrderedBelow(cmp: Comparison, s: seq<string>, i: nat, len: nat)
    requires i <= len <= |s|
    decreases len - i
  {
    i + 1 >= len || (OrderedBy(cmp, s[i], s[i + 1]) && OrderedBelow(cmp, s, i + 1, len))
  }

  /** Sorted words are ordered below any bound. */
  lemma {:induction false} OrderedBelowOfSorted(cmp: Comparison, s: seq<string>, i: nat, len: nat)
    requires i <= len <= |s|
    requires Sorted(cmp, s)
    ensures OrderedBelow(cmp, s, i, len)
    decreases len - i
  {
    if i + 1 < len {
      OrderedBelowOfSorted(cmp, s, i + 1, len);
    }
  }

  /** Words ordered below a bound have each adjacent pair below it in order. */
  lemma {:induction false} OrderedPairBelow(cmp: Comparison, s: seq<string>, i: nat, len: nat, j: nat)
    requires i <= j && j + 1 < len <= |s|
    requires OrderedBelow(cmp, s, i, len)
    ensures OrderedBy(cmp, s[j], s[j + 1])
    decreases j - i
  {
    if i < j {
      OrderedPairBelow(cmp, s, i + 1, len, j);
    }
  }

  /** A pass over words already ordered below its bound swaps nothing: it
      returns the words unchanged with `done` as it was. */
  lemma {:induction false} PassOrdered(cmp: Comparison, s: seq<string>, i: nat, len: nat, done: bool)
    requires i < len <= |s|
    requires OrderedBelow(cmp, s, i, len)
    ensures Pass(cmp, s, i, len, done) == Returns((s, done))
    decreases len - i
  {
    if i + 1 < len {
      PassKeep(cmp, s, i, len, done);
      PassOrdered(cmp, s, i + 1, len, done);
    }
  }

  /** So a pass over sorted words returns them unchanged, reporting nothing
      swapped. */
  lemma PassOfSorted(cmp: Comparison, s: seq<string>, len: nat)
    requires 1 <= len <= |s| && Sorted(cmp, s)
    ensures Pass(cmp, s, 0, len, true) == Returns((s, true))
  {
    OrderedBelowOfSorted(cmp, s, 0, len);
    PassOrdered(cmp, s, 0, len, true);
  }

  /** A pass that reports nothing swapped started with `done` set, returned
      its words unchanged, and found them ordered below its bound. */
  lemma {:induction false} PassUnswapped(cmp: Comparison, s: seq<string>, i: nat, len: nat, done: bool)
    requires i < len <= |s|
    requires Pass(cmp, s, i, len, done).Returns? && Pass(cmp, s, i, len, done).value.1
    ensures done && Pass(cmp, s, i, len, done).value.0 == s
    ensures OrderedBelow(cmp, s, i, len)
    decreases len - i
  {
    if i + 1 < len {
      if cmp(s[i], s[i + 1]).value == 1 {
        assert false;
      } else {
        PassKeep(cmp, s, i, len, done);
        PassUnswapped(cmp, s, i + 1, len, done);
      }
    }
  }

  /** The words from position `k` on are in order. */
  predicate SortedFrom(cmp: Comparison, s: seq<string>, k: nat) {
    forall j :: k <= j < |s| - 1 ==> OrderedBy(cmp, s[j], s[j + 1])
  }

  /** Every word before position `k` may stay before the word at `k`. */
  predicate Bounded(cmp: Comparison, s: seq<string>, k: nat) {
    k < |s| ==> forall j :: 0 <= j < k ==> OrderedBy(cmp, s[j], s[k])
  }

  /** The words from position `k` on are in their final places: they are
      in order, and no word before `k` belongs after the word at `k`. */
  predicate Settled(cmp: Comparison, s: seq<string>, k: nat) {
    SortedFrom(cmp, s, k) && Bounded(cmp, s, k)
  }

  /** Before the first pass nothing is settled, so both facts hold
      trivially at the full length. */
  lemma SortStart(cmp: Comparison, s: seq<string>)
    ensures Settled(cmp, s, |s|)
  {
  }

  /** Words in order below a bound and in order from one place before it
      are sorted. */
  lemma SortedOfParts(cmp: Comparison, s: seq<string>, len: nat)
    requires 1 <= len <= |s|
    requires OrderedBelow(cmp, s, 0, len) && SortedFrom(cmp, s, len - 1)
    ensures Sorted(cmp, s)
  {
    forall j | 0 <= j < len - 1
      ensures OrderedBy(cmp, s[j], s[j + 1])
    {
      OrderedPairBelow(cmp, s, 0, len, j);
    }
  }

  /** The bubble sort's progress: when the words from the bound on are in
      order and no word below it belongs after the word at the bound, a pass
      extends both facts one place down, and a pass that swapped nothing
      leaves the words sorted. */
  lemma PassSettles(cmp: Comparison, s: seq<string>, len: nat)
    requires Transitive(cmp) && Flips(cmp)
    requires 1 <= len <= |s|
    requires Settled(cmp, s, len)
    requires Pass(cmp, s, 0, len, true).Returns?
    ensures var t := Pass(cmp, s, 0, len, true).value.0;
            Settled(cmp, t, len - 1)
            && (Pass(cmp, s, 0, len, true).value.1 ==> Sorted(cmp, t))
  {
    var t := Pass(cmp, s, 0, len, true).value.0;
    PassFrame(cmp, s, 0, len, true);
    PassMax(cmp, s, 0, len, true);
    forall j | len - 1 <= j < |t| - 1
      ensures OrderedBy(cmp, t[j], t[j + 1])
    {
      assert t[j + 1] == t[len..][j + 1 - len] == s[len..][j + 1 - len] == s[j + 1];
      if j == len - 1 {
        assert t[j] in multiset(s[..len]) by {
          assert t[j] == t[..len][j];
        }
        var k :| 0 <= k < len && s[..len][k] == t[j];
        assert s[k] == t[j];
      } else {
        assert t[j] == t[len..][j - len] == s[len..][j - len] == s[j];
      }
    }
    if Pass(cmp, s, 0, len, true).value.1 {
      PassUnswapped(cmp, s, 0, len, true);
      SortedOfParts(cmp, t, len);
    }
  }

  /** One round of the sort's outer loop: a pass with bound `len` that
      returns keeps the words a permutation of the original `words`, moves
      the settled suffix one place down to the next bound `next`, ends the
      sort with the words sorted when it swapped nothing (always so at bound
      1), and leaves words that were sorted from the start as they were. */
  lemma SortRound(cmp: Comparison, words: seq<string>, s: seq<string>, len: nat, next: nat, t: seq<string>, d: bool)
    requires Transitive(cmp) && Flips(cmp)
    requires 1 <= len <= |s| && next + 1 == len
    requires Pass(cmp, s, 0, len, true) == Returns((t, d))
    requires multiset(s) == multiset(words)
    requires Settled(cmp, s, len)
    requires Sorted(cmp, words) ==> s == words && len == |s|
    ensures multiset(t) == multiset(words)
    ensures !d ==> next >= 1 && Settled(cmp, t, next)
    ensures d ==> Sorted(cmp, t)
    ensures Sorted(cmp, words) ==> t == words && d
  {
    PassPermutes(cmp, s, len);
    PassSettles(cmp, s, len);
    if Sorted(cmp, words) {
      PassOfSorted(cmp, s, len);
    }
  }
}
