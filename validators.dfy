/** The two validators the numeral converter runs before parsing:
    `^(\d+)$` for integers and `^(\d+\.\d+)$` for decimal fractions.
    A digit here is an ASCII digit (see README, "Left out"). */
module NumberHelper {

  predicate IsDigit(c: char) {
    '0' <= c <= '9'
  }

  predicate AllDigits(s: string) {
    forall i :: 0 <= i < |s| ==> IsDigit(s[i])
  }

  /** `is_valid_integer`: one or more digits and nothing else. */
  predicate IsValidInteger(s: string)
    ensures IsValidInteger(s) ==> FindDot(s) == |s|
    ensures IsValidInteger(s) ==> |s| > 0 && IsDigit(s[0]) && IsDigit(s[|s| - 1])
  {
    |s| > 0 && AllDigits(s)
  }

  /** Index of the first '.' in `s`, or `|s|` when there is none. */
  function FindDot(s: string): (k: nat)
    ensures k <= |s|
    ensures forall i :: 0 <= i < k ==> s[i] != '.'
    ensures k < |s| ==> s[k] == '.'
  {
    if s == [] || s[0] == '.' then 0 else 1 + FindDot(s[1..])
  }

  /** `is_valid_float`: digits, one '.', digits. */
  predicate IsValidFloat(s: string)
    ensures IsValidFloat(s) ==> 3 <= |s| && IsDigit(s[0]) && IsDigit(s[|s| - 1])
  {
    var k := FindDot(s);
    k < |s| && IsValidInteger(s[..k]) && IsValidInteger(s[k + 1..])
  }

  /** `str::split` on one character: the pieces between the separators,
      empty pieces included, so there is always at least one. */
  function SplitOn(s: string, sep: char): (parts: seq<string>)
    ensures |parts| >= 1
    decreases |s|
  {
    var k := FindChar(s, sep);
    if k == |s| then [s] else [s[..k]] + SplitOn(s[k + 1..], sep)
  }

  function FindChar(s: string, c: char): (k: nat)
    ensures k <= |s|
    ensures forall i :: 0 <= i < k ==> s[i] != c
    ensures k < |s| ==> s[k] == c
  {
    if s == [] || s[0] == c then 0 else 1 + FindChar(s[1..], c)
  }

  /** Integer part and fractional part of a valid decimal fraction. */
  function IntegerPart(s: string): string
    requires IsValidFloat(s)
  {
    s[..FindDot(s)]
  }

  function FractionPart(s: string): string
    requires IsValidFloat(s)
  {
    s[FindDot(s) + 1..]
  }

  lemma FindCharDot(s: string)
    ensures FindChar(s, '.') == FindDot(s)
  {
  }

  /** A valid decimal fraction is exactly two digit runs around one point,
      and splitting it on '.' gives those two runs and nothing more. */
  lemma FloatParts(s: string)
    requires IsValidFloat(s)
    ensures s == IntegerPart(s) + "." + FractionPart(s)
    ensures IsValidInteger(IntegerPart(s)) && IsValidInteger(FractionPart(s))
    ensures SplitOn(s, '.') == [IntegerPart(s), FractionPart(s)]
  {
    var k := FindDot(s);
    FindCharDot(s);
    var rest := s[k + 1..];
    assert FindChar(rest, '.') == |rest|;
  }

  /** The validator accepts exactly the texts built from two digit runs
      around a point. */
  lemma FloatOfParts(a: string, b: string)
    ensures IsValidFloat(a + "." + b) <==> IsValidInteger(a) && IsValidInteger(b)
  {
    var s := a + "." + b;
    if IsValidInteger(a) {
      assert FindDot(s) == |a| by {
        var k := FindDot(s);
        assert forall i :: 0 <= i < |a| ==> s[i] == a[i] && IsDigit(a[i]);
        assert s[|a|] == '.';
      }
      assert s[..|a|] == a && s[|a| + 1..] == b;
    } else {
      var k := FindDot(s);
      assert s[|a|] == '.';
      if k < |a| {
        // A point inside `a`: the run after it still holds the point `a + "."` ends with.
        assert s[k + 1..][|a| - k - 1] == '.';
      } else {
        assert k == |a|;
        assert s[..k] == a;
      }
    }
  }

  /** The parts of a decimal fraction built from two digit runs are those runs. */
  lemma PartsOfFloat(a: string, b: string)
    requires IsValidInteger(a) && IsValidInteger(b)
    ensures IsValidFloat(a + "." + b)
    ensures IntegerPart(a + "." + b) == a && FractionPart(a + "." + b) == b
    ensures SplitOn(a + "." + b, '.') == [a, b]
  {
    var s := a + "." + b;
    FloatOfParts(a, b);
    FloatParts(s);
    assert FindDot(s) == |a| by {
      assert s[|a|] == '.';
      assert forall i :: 0 <= i < |a| ==> s[i] == a[i] && IsDigit(a[i]);
    }
    assert s[..|a|] == a && s[|a| + 1..] == b;
  }

  /** The empty string is neither an integer nor a floating-point number. */
  lemma EmptyIsNeither()
    ensures !IsValidInteger("") && !IsValidFloat("")
  {
  }

  /** No text is both a valid integer and a valid decimal fraction. */
  lemma IntegerIsNotFloat(s: string)
    ensures !(IsValidInteger(s) && IsValidFloat(s))
  {
    if IsValidFloat(s) {
      var k := FindDot(s);
      assert !IsDigit(s[k]);
    }
  }

  /** Digits followed by digits are digits; a point is never a digit. */
  lemma IntegerConcat(a: string, b: string)
    requires IsValidInteger(a) && IsValidInteger(b)
    ensures IsValidInteger(a + b)
    ensures !IsValidInteger(a + "." + b)
  {
    assert (a + "." + b)[|a|] == '.';
  }
}
