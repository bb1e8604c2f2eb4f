/** The utility crate: ordered substitution tables and the bracket markers
    that protect spans of text (emails, URLs, handles, phone numbers, IP
    addresses) from the library's rewrites.

    Regular expressions are not modelled: a substitution pattern is a
    literal string, and the spans a detector found are given as the
    sequence of captured texts, in the order the detector reported them. */
module KorrektorUtils {

  /** The marker characters that open and close a protected span. */
  const Open: char := '〈'
  const Close: char := '〉'

  predicate IsBracket(c: char) {
    c == Open || c == Close
  }

  predicate BracketFree(s: string) {
    forall i :: 0 <= i < |s| ==> !IsBracket(s[i])
  }

  /** `str::replace`: every non-overlapping occurrence of `pat`, leftmost
      first, replaced by `rep`. An empty pattern matches at every character
      boundary, before the first character and after the last. */
  function ReplaceAll(s: string, pat: string, rep: string): (r: string)
    ensures pat == rep ==> r == s
    ensures pat != [] && |rep| == |pat| ==> |r| == |s|
    decreases |s|
  {
    if pat == [] then
      if s == [] then rep else rep + [s[0]] + ReplaceAll(s[1..], pat, rep)
    else if |s| < |pat| then s
    else if s[..|pat|] == pat then rep + ReplaceAll(s[|pat|..], pat, rep)
    else [s[0]] + ReplaceAll(s[1..], pat, rep)
  }

  predicate OccursAt(pat: string, s: string, i: int) {
    0 <= i && i + |pat| <= |s| && s[i..i + |pat|] == pat
  }

  ghost predicate Occurs(pat: string, s: string) {
    exists i :: OccursAt(pat, s, i)
  }

  /** A non-empty pattern that does not occur leaves the text as it is. */
  lemma {:induction false} ReplaceAbsent(s: string, pat: string, rep: string)
    requires pat != [] && !Occurs(pat, s)
    ensures ReplaceAll(s, pat, rep) == s
    decreases |s|
  {
    if |s| >= |pat| {
      assert s[0..|pat|] == s[..|pat|];
      assert !OccursAt(pat, s, 0);
      forall i | 0 <= i && i + |pat| <= |s| - 1
        ensures !OccursAt(pat, s[1..], i)
      {
        assert s[1..][i..i + |pat|] == s[i + 1..i + 1 + |pat|];
        assert !OccursAt(pat, s, i + 1);
      }
      ReplaceAbsent(s[1..], pat, rep);
    }
  }

  // ---------------------------------------------------------------- unwrap

  /** `unwrap_text`: every bracket character deleted. */
  function UnwrapText(t: string): (r: string)
    ensures BracketFree(r)
    ensures |r| <= |t|
  {
    if t == [] then []
    else (if IsBracket(t[0]) then [] else [t[0]]) + UnwrapText(t[1..])
  }

  /** Unwrapping works piece by piece, so the characters it keeps stay in order. */
  lemma {:induction false} UnwrapAppend(a: string, b: string)
    ensures UnwrapText(a + b) == UnwrapText(a) + UnwrapText(b)
  {
    if a != [] {
      var head := if IsBracket(a[0]) then [] else [a[0]];
      assert (a + b)[0] == a[0];
      assert (a + b)[1..] == a[1..] + b;
      UnwrapAppend(a[1..], b);
      calc {
        UnwrapText(a + b);
        head + UnwrapText(a[1..] + b);
        head + (UnwrapText(a[1..]) + UnwrapText(b));
        (head + UnwrapText(a[1..])) + UnwrapText(b);
        UnwrapText(a) + UnwrapText(b);
      }
    } else {
      assert a + b == b;
    }
  }

  /** Text without brackets is left as it is. */
  lemma {:induction false} UnwrapBracketFree(t: string)
    requires BracketFree(t)
    ensures UnwrapText(t) == t
  {
    if t != [] {
      UnwrapBracketFree(t[1..]);
    }
  }

  /** Every character other than a bracket keeps its number of occurrences. */
  lemma {:induction false} UnwrapKeepsOthers(t: string, c: char)
    requires !IsBracket(c)
    ensures multiset(UnwrapText(t))[c] == multiset(t)[c]
  {
    if t != [] {
      UnwrapKeepsOthers(t[1..], c);
      assert t == [t[0]] + t[1..];
    }
  }

  lemma UnwrapIdempotent(t: string)
    ensures UnwrapText(UnwrapText(t)) == UnwrapText(t)
  {
    UnwrapBracketFree(UnwrapText(t));
  }

  /** Spans wrapped twice (a handle detector matching inside a wrapped
      email) collapse to the original text in one pass. */
  lemma UnwrapNested(x: string)
    ensures UnwrapText([Open, Open] + x + [Close, Close]) == UnwrapText(x)
  {
    UnwrapAppend([Open, Open] + x, [Close, Close]);
    UnwrapAppend([Open, Open], x);
    assert UnwrapText([Open, Open]) == [];
    assert UnwrapText([Close, Close]) == [];
  }

  // ------------------------------------------------------------------ wrap

  function Wrapped(captured: string): string {
    [Open] + captured + [Close]
  }

  /** Unwrapping treats pieces with the same unwrapped text alike. */
  lemma UnwrapCongruent(x: string, y: string, x': string, y': string)
    requires UnwrapText(x) == UnwrapText(x') && UnwrapText(y) == UnwrapText(y')
    ensures UnwrapText(x + y) == UnwrapText(x' + y')
  {
    UnwrapAppend(x, y);
    UnwrapAppend(x', y');
  }

  lemma UnwrapOfWrapped(captured: string)
    ensures UnwrapText(Wrapped(captured)) == UnwrapText(captured)
  {
    UnwrapAppend([Open] + captured, [Close]);
    UnwrapAppend([Open], captured);
  }

  /** Unwrapping undoes one wrapping pass, whatever the captured text. */
  lemma {:induction false} WrapOneRoundTrip(s: string, captured: string)
    ensures UnwrapText(ReplaceAll(s, captured, Wrapped(captured))) == UnwrapText(s)
    decreases |s|
  {
    var w := Wrapped(captured);
    UnwrapOfWrapped(captured);
    if captured == [] {
      if s != [] {
        WrapOneRoundTrip(s[1..], captured);
        UnwrapCongruent(w, [s[0]], [], [s[0]]);
        assert [] + [s[0]] == [s[0]];
        UnwrapCongruent(w + [s[0]], ReplaceAll(s[1..], captured, w), [s[0]], s[1..]);
        assert s == [s[0]] + s[1..];
      }
    } else if |s| < |captured| {
    } else if s[..|captured|] == captured {
      WrapOneRoundTrip(s[|captured|..], captured);
      UnwrapCongruent(w, ReplaceAll(s[|captured|..], captured, w), captured, s[|captured|..]);
      assert s == captured + s[|captured|..];
    } else {
      WrapOneRoundTrip(s[1..], captured);
      UnwrapCongruent([s[0]], ReplaceAll(s[1..], captured, w), [s[0]], s[1..]);
      assert s == [s[0]] + s[1..];
    }
  }

  /** The text after wrapping the captures one after the other. */
  function WrapAll(text: string, matches: seq<string>): string
  {
    if matches == [] then text
    else
      var last := matches[|matches| - 1];
      ReplaceAll(WrapAll(text, matches[..|matches| - 1]), last, Wrapped(last))
  }

  /** Stripping the markers after any sequence of wrapping passes restores
      the text as it was before wrapping, with its own brackets stripped. */
  lemma {:induction false} WrapAllRoundTrip(text: string, matches: seq<string>)
    ensures UnwrapText(WrapAll(text, matches)) == UnwrapText(text)
  {
    if matches != [] {
      var last := matches[|matches| - 1];
      WrapAllRoundTrip(text, matches[..|matches| - 1]);
      WrapOneRoundTrip(WrapAll(text, matches[..|matches| - 1]), last);
    }
  }

  /** `wrap_matches`: for each capture in turn, every occurrence of it in
      the current text is enclosed in the markers. */
  method WrapMatches(text: string, matches: seq<string>) returns (result: string)
    ensures result == WrapAll(text, matches)
    ensures UnwrapText(result) == UnwrapText(text)
    ensures matches == [] ==> result == text
  {
    result := text;
    for k := 0 to |matches|
      invariant result == WrapAll(text, matches[..k])
      invariant UnwrapText(result) == UnwrapText(text)
    {
      var captured := matches[k];
      var replacement := [Open] + captured + [Close];
      WrapOneRoundTrip(result, captured);
      result := ReplaceAll(result, captured, replacement);
      assert matches[..k + 1][..k] == matches[..k];
    }
    assert matches[..|matches|] == matches;
  }

  // ------------------------------------------------------- substitution table

  /** One entry of a substitution table: `pattern` is replaced by `replacement`. */
  datatype Rule = Rule(pattern: string, replacement: string)

  /** The text after applying the rules in order, each to the output of the
      previous one. */
  function ApplyRules(input: string, rules: seq<Rule>): string
  {
    if rules == [] then input
    else
      var last := rules[|rules| - 1];
      ReplaceAll(ApplyRules(input, rules[..|rules| - 1]), last.pattern, last.replacement)
  }

  /** Applying two tables one after the other is applying their concatenation. */
  lemma {:induction false} ApplyRulesConcat(input: string, first: seq<Rule>, second: seq<Rule>)
    ensures ApplyRules(input, first + second) == ApplyRules(ApplyRules(input, first), second)
    decreases |second|
  {
    if second == [] {
      assert first + second == first;
    } else {
      var all := first + second;
      assert all[..|all| - 1] == first + second[..|second| - 1];
      assert all[|all| - 1] == second[|second| - 1];
      ApplyRulesConcat(input, first, second[..|second| - 1]);
    }
  }

  /** A table whose patterns never occur leaves the text as it is. */
  lemma {:induction false} ApplyRulesAbsent(input: string, rules: seq<Rule>)
    requires forall k :: 0 <= k < |rules| ==> rules[k].pattern != [] && !Occurs(rules[k].pattern, input)
    ensures ApplyRules(input, rules) == input
  {
    if rules != [] {
      ApplyRulesAbsent(input, rules[..|rules| - 1]);
      ReplaceAbsent(input, rules[|rules| - 1].pattern, rules[|rules| - 1].replacement);
    }
  }

  /** The order of a table matters: a later rule sees the output of an
      earlier one, so swapping two rules can change the result. */
  lemma RuleOrderMatters()
    ensures ApplyRules("sh", [Rule("s", "z"), Rule("sh", "ş")]) == "zh"
    ensures ApplyRules("sh", [Rule("sh", "ş"), Rule("s", "z")]) == "ş"
  {
    var r1, r2 := Rule("s", "z"), Rule("sh", "ş");
    assert [r1, r2][..1] == [r1] && [r1][..0] == [];
    assert [r2, r1][..1] == [r2] && [r2][..0] == [];
    assert ReplaceAll("h", "s", "z") == "h";
    assert ReplaceAll("sh", "s", "z") == "zh";
    assert ReplaceAll("zh", "sh", "ş") == "zh";
    assert ReplaceAll("sh", "sh", "ş") == "ş";
    assert ReplaceAll("ş", "s", "z") == "ş";
  }

  /** `replace_pairs`: the rules of the table applied in order. */
  method ReplacePairs(input: string, rules: seq<Rule>) returns (output: string)
    ensures output == ApplyRules(input, rules)
    ensures rules == [] ==> output == input
  {
    output := input;
    for k := 0 to |rules|
      invariant output == ApplyRules(input, rules[..k])
    {
      var rule := rules[k];
      output := ReplaceAll(output, rule.pattern, rule.replacement);
      assert rules[..k + 1][..k] == rules[..k];
    }
    assert rules[..|rules|] == rules;
  }

  lemma UnwrapWrapped(x: string)
    requires BracketFree(x)
    ensures UnwrapText(Wrapped(x)) == x
    ensures UnwrapText(Wrapped(Wrapped(x))) == x
  {
    UnwrapAppend([Open] + x, [Close]);
    UnwrapAppend([Open], x);
    UnwrapBracketFree(x);
    UnwrapAppend([Open] + Wrapped(x), [Close]);
    UnwrapAppend([Open], Wrapped(x));
  }
}
