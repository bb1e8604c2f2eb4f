/** Facts about Rust strings the collation code depends on: the UTF-8
    length `str::len` reports, Unicode whitespace as `char::is_whitespace`
    sees it, `split_whitespace`, `trim`, and joining words with spaces. */
module Text {

  /** Rust's `char::is_whitespace`: the Unicode White_Space property. */
  predicate IsWhitespace(c: char) {
    || ('\t' <= c <= '\r')
    || c == ' '
    || c == '\U{0085}'
    || c == '\U{00A0}'
    || c == '\U{1680}'
    || ('\U{2000}' <= c <= '\U{200A}')
    || c == '\U{2028}'
    || c == '\U{2029}'
    || c == '\U{202F}'
    || c == '\U{205F}'
    || c == '\U{3000}'
  }

  /** A word as `split_whitespace` yields it: non-empty, no whitespace. */
  predicate IsWord(w: string) {
    |w| > 0 && forall i :: 0 <= i < |w| ==> !IsWhitespace(w[i])
  }

  predicate IsAscii(s: string) {
    forall i :: 0 <= i < |s| ==> s[i] as int < 0x80
  }

  /** Number of bytes the UTF-8 encoding of `c` takes. */
  function Utf8Width(c: char): (w: nat)
    ensures 1 <= w <= 4
    ensures w == 1 <==> c as int < 0x80
  {
    if c as int < 0x80 then 1
    else if c as int < 0x800 then 2
    else if c as int < 0x10000 then 3
    else 4
  }

  /** `str::len`: the length of the UTF-8 encoding, in bytes. */
  function ByteLen(s: string): (n: nat)
    ensures n >= |s|
    ensures n == |s| <==> IsAscii(s)
    ensures n == 0 <==> s == []
  {
    if s == [] then 0
    else
      var rest := ByteLen(s[1..]);
      assert IsAscii(s) <==> s[0] as int < 0x80 && IsAscii(s[1..]) by {
        if s[0] as int < 0x80 && IsAscii(s[1..]) {
          forall i | 0 <= i < |s| ensures s[i] as int < 0x80 {
            if i > 0 { assert s[i] == s[1..][i - 1]; }
          }
        }
      }
      Utf8Width(s[0]) + rest
  }

  /** Number of leading characters of `s` that are not whitespace. */
  function LeadingWordLength(s: string): (k: nat)
    ensures k <= |s|
    ensures forall i :: 0 <= i < k ==> !IsWhitespace(s[i])
    ensures k < |s| ==> IsWhitespace(s[k])
  {
    if s == [] || IsWhitespace(s[0]) then 0 else 1 + LeadingWordLength(s[1..])
  }

  /** `str::split_whitespace`: the maximal runs of non-whitespace, in order. */
  function SplitWhitespace(s: string): (ws: seq<string>)
    ensures forall i :: 0 <= i < |ws| ==> IsWord(ws[i])
    decreases |s|
  {
    if s == [] then []
    else if IsWhitespace(s[0]) then SplitWhitespace(s[1..])
    else
      var k := LeadingWordLength(s);
      [s[..k]] + SplitWhitespace(s[k..])
  }

  /** Words joined by single spaces. */
  function JoinSpaces(ws: seq<string>): string
  {
    if |ws| == 0 then ""
    else if |ws| == 1 then ws[0]
    else JoinSpaces(ws[..|ws| - 1]) + " " + ws[|ws| - 1]
  }

  /** What pushing each word followed by one space onto an empty string gives. */
  function SpaceTerminated(ws: seq<string>): string
  {
    if ws == [] then "" else SpaceTerminated(ws[..|ws| - 1]) + ws[|ws| - 1] + " "
  }

  function TrimStart(s: string): (r: string)
    ensures |r| <= |s| && r == s[|s| - |r|..]
    ensures r == [] || !IsWhitespace(r[0])
  {
    if s != [] && IsWhitespace(s[0]) then TrimStart(s[1..]) else s
  }

  function TrimEnd(s: string): (r: string)
    ensures |r| <= |s| && r == s[..|r|]
    ensures r == [] || !IsWhitespace(r[|r| - 1])
  {
    if s != [] && IsWhitespace(s[|s| - 1]) then TrimEnd(s[..|s| - 1]) else s
  }

  /** `str::trim`: leading and trailing whitespace removed. */
  function Trim(s: string): string {
    TrimStart(TrimEnd(s))
  }

  lemma {:induction false} LeadingWordLengthAppend(a: string, t: string)
    requires t == [] || IsWhitespace(t[0])
    ensures LeadingWordLength(a + t) == LeadingWordLength(a)
  {
    if a == [] {
    } else if IsWhitespace(a[0]) {
    } else {
      assert (a + t)[1..] == a[1..] + t;
      LeadingWordLengthAppend(a[1..], t);
    }
  }

  /** A whitespace character is always a word boundary. */
  lemma {:induction false} SplitAtWhitespace(a: string, c: char, b: string)
    requires IsWhitespace(c)
    ensures SplitWhitespace(a + [c] + b) == SplitWhitespace(a) + SplitWhitespace(b)
    decreases |a|
  {
    var s := a + [c] + b;
    if a == [] {
      assert s[1..] == b;
    } else if IsWhitespace(a[0]) {
      assert s[1..] == a[1..] + [c] + b;
      SplitAtWhitespace(a[1..], c, b);
    } else {
      LeadingWordLengthAppend(a, [c] + b);
      assert s == a + ([c] + b);
      var k := LeadingWordLength(a);
      assert s[..k] == a[..k];
      assert s[k..] == a[k..] + [c] + b;
      SplitAtWhitespace(a[k..], c, b);
    }
  }

  lemma SplitWord(w: string)
    requires IsWord(w)
    ensures SplitWhitespace(w) == [w]
  {
    var k := LeadingWordLength(w);
    assert !IsWhitespace(w[0]);
    assert w[..k] == w && w[k..] == [];
  }

  /** Splitting the space-joined words gives the words back. */
  lemma {:induction false} SplitJoinSpaces(ws: seq<string>)
    requires forall i :: 0 <= i < |ws| ==> IsWord(ws[i])
    ensures SplitWhitespace(JoinSpaces(ws)) == ws
    decreases |ws|
  {
    if |ws| == 0 {
    } else if |ws| == 1 {
      SplitWord(ws[0]);
    } else {
      var init, last := ws[..|ws| - 1], ws[|ws| - 1];
      SplitJoinSpaces(init);
      SplitAtWhitespace(JoinSpaces(init), ' ', last);
      SplitWord(last);
      assert JoinSpaces(init) + " " + last == JoinSpaces(init) + [' '] + last;
      assert init + [last] == ws;
    }
  }

  lemma {:induction false} JoinSpacesEnds(ws: seq<string>)
    requires |ws| > 0
    requires forall i :: 0 <= i < |ws| ==> IsWord(ws[i])
    ensures |JoinSpaces(ws)| > 0
    ensures !IsWhitespace(JoinSpaces(ws)[0])
    ensures !IsWhitespace(JoinSpaces(ws)[|JoinSpaces(ws)| - 1])
    decreases |ws|
  {
    assert IsWord(ws[0]) && IsWord(ws[|ws| - 1]);
    if |ws| > 1 {
      JoinSpacesEnds(ws[..|ws| - 1]);
    }
  }

  lemma {:induction false} SpaceTerminatedIsJoinPlusSpace(ws: seq<string>)
    requires |ws| > 0
    ensures SpaceTerminated(ws) == JoinSpaces(ws) + " "
    decreases |ws|
  {
    if |ws| > 1 {
      SpaceTerminatedIsJoinPlusSpace(ws[..|ws| - 1]);
    }
  }

  /** Trimming the space-terminated concatenation of words gives the words
      joined by single spaces: no leading and no trailing space. */
  lemma TrimSpaceTerminated(ws: seq<string>)
    requires |ws| > 0
    requires forall i :: 0 <= i < |ws| ==> IsWord(ws[i])
    ensures Trim(SpaceTerminated(ws)) == JoinSpaces(ws)
  {
    SpaceTerminatedIsJoinPlusSpace(ws);
    JoinSpacesEnds(ws);
    TrimEndOneSpace(JoinSpaces(ws));
  }

  /** One trailing space comes off a text that ends and starts with
      something other than whitespace, and nothing else does. */
  lemma TrimEndOneSpace(j: string)
    requires j != [] && !IsWhitespace(j[0]) && !IsWhitespace(j[|j| - 1])
    ensures Trim(j + " ") == j
  {
    assert (j + " ")[..|j + " "| - 1] == j;
    assert TrimEnd(j + " ") == TrimEnd(j);
  }
}
