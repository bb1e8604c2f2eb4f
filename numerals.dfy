/** The numeral converter of the `korrektor` crate: a run of decimal digits,
    or two runs around a point, spoken as Uzbek words.

    The word tables (`NUM_1_TO_19`, `TEEN`, `MULT`, `FLOAT_PREFIX`) are not
    part of this model: they are a `Lexicon` value every operation takes, of
    the subset type `Tables`, whose predicate `WellFormed` states the shape
    the code relies on (19 words for one to nineteen, 8 tens words from
    twenty to ninety, a scale word for each power the code looks up, 18
    fraction prefixes, none of them empty). */
module Numerals {
  import opened Errors
  import opened NumberHelper
  import Text

  datatype Option<T> = None | Some(value: T)

  datatype Lexicon = Lexicon(
    ones: seq<string>,
    tens: seq<string>,
    scales: seq<(int, string)>,
    fractionPrefixes: seq<string>)

  /** The powers of ten the converter asks `MULT` for: hundred, thousand,
      million, billion, trillion, quadrillion. */
  predicate IsScalePower(p: int) {
    p == 2 || p == 3 || p == 6 || p == 9 || p == 12 || p == 15
  }

  /** `MULT.iter().find(|x| x.0 == power)`: the first entry with that power. */
  function FindScale(scales: seq<(int, string)>, p: int): (r: Option<string>)
    ensures r.Some? ==> (p, r.value) in scales
    ensures r.None? ==> forall i :: 0 <= i < |scales| ==> scales[i].0 != p
  {
    if scales == [] then None
    else if scales[0].0 == p then Some(scales[0].1)
    else FindScale(scales[1..], p)
  }

  predicate WellFormed(lex: Lexicon) {
    && |lex.ones| == 19
    && |lex.tens| == 8
    && |lex.fractionPrefixes| == 18
    && (forall i :: 0 <= i < 19 ==> lex.ones[i] != [])
    && (forall i :: 0 <= i < 8 ==> lex.tens[i] != [])
    && (forall p :: 0 <= p <= 15 && IsScalePower(p) ==> FindScale(lex.scales, p).Some? && FindScale(lex.scales, p).value != [])
  }

  /** A lexicon whose tables have that shape. */
  type Tables = lex: Lexicon | WellFormed(lex)
    witness Lexicon(seq(19, _ => "a"), seq(8, _ => "a"),
                    [(2, "a"), (3, "a"), (6, "a"), (9, "a"), (12, "a"), (15, "a")], seq(18, _ => "a"))

  /** The scale word for power `p`; the code panics when it is missing,
      which a well-formed lexicon rules out. */
  function Scale(lex: Tables, p: int): string
    requires IsScalePower(p)
  {
    FindScale(lex.scales, p).value
  }

  // -------------------------------------------------------------- arithmetic

  function Pow10(i: nat): (r: nat)
    ensures r >= 1
  {
    if i == 0 then 1 else 10 * Pow10(i - 1)
  }

  /** The largest `i64`. */
  const I64Max: nat := 0x7FFF_FFFF_FFFF_FFFF

  lemma {:induction false} Pow10Monotone(i: nat, j: nat)
    requires i <= j
    ensures Pow10(i) <= Pow10(j)
    decreases j - i
  {
    if i < j {
      Pow10Monotone(i, j - 1);
    }
  }

  lemma Pow10Values()
    ensures Pow10(2) == 100 && Pow10(3) == 1000 && Pow10(4) == 10000
    ensures Pow10(18) == 1_000_000_000_000_000_000
    ensures Pow10(18) < I64Max
  {
  }

  /** Euclidean division is determined by its quotient and remainder. */
  lemma DivModUnique(n: nat, d: nat, q: nat, r: nat)
    requires d > 0 && n == q * d + r && r < d
    ensures n / d == q && n % d == r
  {
    var q', r' := n / d, n % d;
    assert n == q' * d + r';
    if q' < q {
      MulAtLeast(q - q', d);
      assert false;
    } else if q' > q {
      MulAtLeast(q' - q, d);
      assert false;
    }
  }

  lemma MulMonotone(a: nat, b: nat, d: nat)
    requires a <= b
    ensures a * d <= b * d
  {
  }

  lemma MulAtLeast(a: nat, d: nat)
    requires a >= 1
    ensures a * d >= d
  {
  }

  lemma DivLess(n: nat, d: nat)
    requires d >= 2
    ensures n / d <= n && n % d <= n
    ensures n >= 1 ==> n / d < n
    ensures n >= d ==> n % d < n
    ensures n < d ==> n % d == n && n / d == 0
  {
    if n < d {
      DivModUnique(n, d, 0, n);
    }
  }

  lemma DivPow10(n: nat, p: nat, k: nat)
    requires n < Pow10(p + k)
    ensures n / Pow10(p) < Pow10(k)
  {
    Pow10Split(p, k);
    var q, r := n / Pow10(p), n % Pow10(p);
    assert n == q * Pow10(p) + r;
    if q >= Pow10(k) {
      MulMonotone(Pow10(k), q, Pow10(p));
      assert false;
    }
  }

  lemma {:induction false} Pow10Split(p: nat, k: nat)
    ensures Pow10(p + k) == Pow10(k) * Pow10(p)
    decreases k
  {
    if k > 0 {
      Pow10Split(p, k - 1);
      assert Pow10(p + k) == 10 * Pow10(p + k - 1);
    }
  }

  // --------------------------------------------------- parsing and printing

  /** `str::parse::<i64>` on a run of ASCII digits: its decimal value. */
  function DigitsValue(s: string): (v: nat)
    requires AllDigits(s)
    ensures v < Pow10(|s|)
  {
    if s == [] then 0
    else DigitsValue(s[..|s| - 1]) * 10 + (s[|s| - 1] as int - '0' as int)
  }

  function DigitChar(d: nat): (c: char)
    requires d < 10
    ensures IsDigit(c) && c as int - '0' as int == d
  {
    ('0' as int + d) as char
  }

  /** `i64::to_string` for a non-negative value: its digits, no leading zero. */
  function Decimal(n: nat): (s: string)
    ensures IsValidInteger(s)
    ensures s[0] == '0' ==> n == 0
  {
    if n < 10 then [DigitChar(n)] else Decimal(n / 10) + [DigitChar(n % 10)]
  }

  /** Printing and then parsing gives the value back. */
  lemma {:induction false} DecimalRoundTrip(n: nat)
    ensures DigitsValue(Decimal(n)) == n
  {
    if n >= 10 {
      var s := Decimal(n);
      assert s[..|s| - 1] == Decimal(n / 10);
      DecimalRoundTrip(n / 10);
    }
  }

  /** A value below `10^k` prints with at most `k` digits. */
  lemma {:induction false} DecimalLength(n: nat, k: nat)
    requires k >= 1 && n < Pow10(k)
    ensures |Decimal(n)| <= k
  {
    if n >= 10 {
      if k == 1 {
        assert false;
      } else {
        DivPow10(n, 1, k - 1);
        DecimalLength(n / 10, k - 1);
      }
    }
  }

  /** A leading zero does not change the value `parse` reads. */
  lemma {:induction false} DigitsValueLeadingZero(s: string)
    requires AllDigits(s)
    ensures AllDigits("0" + s) && DigitsValue("0" + s) == DigitsValue(s)
  {
    var t := "0" + s;
    if s != [] {
      assert t[..|t| - 1] == "0" + s[..|s| - 1];
      DigitsValueLeadingZero(s[..|s| - 1]);
    }
  }

  // ------------------------------------------------------- scale exponents

  /** The `while i < 27` scan of `integer_to_word`, from `i` on: the first
      exponent whose power of ten exceeds `n`. */
  function ExponentFrom(n: nat, i: nat): (r: nat)
    ensures r >= i
    ensures r < 27 ==> n < Pow10(r)
    ensures forall j :: i <= j < r ==> Pow10(j) <= n
    decreases 27 - i
  {
    if i >= 27 then i
    else if n < Pow10(i) then i
    else ExponentFrom(n, i + 1)
  }

  function Exponent(n: nat): nat {
    ExponentFrom(n, 4)
  }

  /** The scan stops at the number of digits of `n`, which is at most 18,
      so no power it computes leaves the `i64` range. */
  lemma ExponentIsDigitCount(n: nat)
    requires 1000 <= n < Pow10(18)
    ensures 4 <= Exponent(n) <= 18
    ensures Pow10(Exponent(n) - 1) <= n < Pow10(Exponent(n))
    ensures Pow10(Exponent(n)) <= Pow10(18) < I64Max
  {
    var i := Exponent(n);
    Pow10Values();
    if i > 18 {
      assert false;
    }
    if i == 4 {
      assert Pow10(3) == 1000;
    }
    Pow10Monotone(i, 18);
  }

  /** `integer_to_word`'s exponent loop, as written. */
  method FindExponent(n: nat) returns (i: nat)
    ensures i == Exponent(n)
    ensures 1000 <= n < Pow10(18) ==> Pow10(i - 1) <= n < Pow10(i) && i <= 18
  {
    i := 4;
    while i < 27
      invariant 4 <= i <= 27
      invariant ExponentFrom(n, i) == Exponent(n)
      decreases 27 - i
    {
      if n < Pow10(i) {
        break;
      }
      i := i + 1;
    }
    if 1000 <= n < Pow10(18) {
      ExponentIsDigitCount(n);
    }
  }

  /** The power `integer_to_word` hands to `hundred` (when the exponent is
      not a multiple of three) or to `one` (when it is) for n >= 1000. */
  function GroupPower(n: nat): int {
    var i := Exponent(n);
    if i % 3 != 0 then i - i % 3 else i - 3
  }

  lemma PowerOfExponent(i: int)
    requires 4 <= i <= 18
    ensures var p := if i % 3 != 0 then i - i % 3 else i - 3;
      IsScalePower(p) && 3 <= p <= i - 1 && i <= p + 3
  {
  }

  lemma QuotientPositive(n: nat, d: nat)
    requires 0 < d <= n
    ensures n / d >= 1
  {
  }

  /** That power is a thousands power, and `n` holds between one and 999
      units of it. */
  lemma GroupPowerFacts(n: nat)
    requires 1000 <= n < Pow10(18)
    ensures IsScalePower(GroupPower(n)) && GroupPower(n) >= 3
    ensures Pow10(GroupPower(n)) <= n < Pow10(GroupPower(n) + 3)
    ensures 1 <= n / Pow10(GroupPower(n)) <= 999
  {
    var i := Exponent(n);
    ExponentIsDigitCount(n);
    PowerOfExponent(i);
    WithinGroup(n, i, GroupPower(n));
    QuotientBelowThousand(n, GroupPower(n));
  }

  lemma WithinGroup(n: nat, i: nat, p: nat)
    requires 1 <= i && Pow10(i - 1) <= n < Pow10(i)
    requires p <= i - 1 && i <= p + 3
    ensures Pow10(p) <= n < Pow10(p + 3)
  {
    Pow10Monotone(p, i - 1);
    Pow10Monotone(i, p + 3);
  }

  lemma QuotientBelowThousand(n: nat, p: nat)
    requires Pow10(p) <= n < Pow10(p + 3)
    ensures 1 <= n / Pow10(p) <= 999
  {
    DivPow10(n, p, 3);
    QuotientPositive(n, Pow10(p));
    assert Pow10(3) == 1000;
  }

  /** The power is determined by where `n` lies: between `10^p` and `10^(p+3)`. */
  lemma GroupPowerUnique(n: nat, p: nat)
    requires p == 3 || p == 6 || p == 9 || p == 12 || p == 15
    requires Pow10(p) <= n < Pow10(p + 3)
    ensures GroupPower(n) == p
  {
    var i := ExponentInGroup(n, p);
    PowerOfGroupExponent(i, p);
  }

  /** The digit count of such an `n` lies between `p + 1` and `p + 3`. */
  lemma ExponentInGroup(n: nat, p: nat) returns (i: nat)
    requires p == 3 || p == 6 || p == 9 || p == 12 || p == 15
    requires Pow10(p) <= n < Pow10(p + 3)
    ensures i == Exponent(n) && p + 1 <= i <= p + 3
  {
    Pow10Monotone(3, p);
    Pow10Monotone(p + 3, 18);
    assert Pow10(3) == 1000;
    ExponentIsDigitCount(n);
    i := Exponent(n);
    ExponentBetween(n, i, p);
  }

  lemma ExponentBetween(n: nat, i: nat, p: nat)
    requires 1 <= i && Pow10(i - 1) <= n < Pow10(i)
    requires Pow10(p) <= n < Pow10(p + 3)
    ensures p + 1 <= i <= p + 3
  {
    if i <= p {
      Pow10Monotone(i, p);
      assert false;
    }
    if i - 1 >= p + 3 {
      Pow10Monotone(p + 3, i - 1);
      assert false;
    }
  }

  lemma PowerOfGroupExponent(i: int, p: int)
    requires p == 3 || p == 6 || p == 9 || p == 12 || p == 15
    requires p + 1 <= i <= p + 3
    ensures (if i % 3 != 0 then i - i % 3 else i - 3) == p
  {
  }

  // ---------------------------------------------------------------- words

  /** What `integer_to_word` returns for the value it parsed, as written. A
      call `integer_to_word(&m.to_string())?` is `Words(lex, m)` here: the
      printed value always passes the checks (`IntegerToWordOfDecimal`), so
      the `?` never returns early. */
  function Words(lex: Tables, n: nat): (r: string)
    requires n < Pow10(18)
    ensures |r| > 0
    decreases n, 2
  {
    if n == 0 then "nol"
    else if n < 20 then lex.ones[n - 1]
    else if n < 100 then
      DivLess(n, 10);
      lex.tens[n / 10 - 2] + " " + Words(lex, n % 10)
    else if n < 1000 then
      Pow10Values();
      One(lex, n, 2)
    else
      GroupPowerFacts(n);
      var p := GroupPower(n);
      assert n != 0 && Pow10(p) <= n;
      if Exponent(n) % 3 != 0 then Hundred(lex, n, p) else One(lex, n, p)
  }

  /** `base`: the words for how many whole `10^p` there are, then the
      scale word. */
  function Base(lex: Tables, n: nat, p: nat): (r: string)
    requires n < Pow10(18) && IsScalePower(p)
    ensures |r| > 0
    decreases n, if n == 0 then 3 else 0
  {
    Pow10Monotone(2, p);
    Pow10Values();
    DivLess(n, Pow10(p));
    Words(lex, n / Pow10(p)) + " " + Scale(lex, p)
  }

  /** `one`: `base`, a separator, and the words for the remainder below
      `10^p`; for hundreds the separator is a space whenever the remainder's
      words are not empty. */
  function One(lex: Tables, n: nat, p: nat): (r: string)
    requires n < Pow10(18) && IsScalePower(p)
    ensures |r| > 0
    decreases n, if n == 0 then 4 else if n < Pow10(p) then 3 else 1
  {
    Pow10Monotone(2, p);
    Pow10Values();
    DivLess(n, Pow10(p));
    var y := n % Pow10(p);
    var s := Words(lex, y);
    var separator :=
      if p == 2 && s != [] then " "
      else if y < 100 then (if y == 0 then "" else " ")
      else " ";
    Base(lex, n, p) + separator + s
  }

  /** `hundred`: like `one` without the rule for hundreds. */
  function Hundred(lex: Tables, n: nat, p: nat): (r: string)
    requires n < Pow10(18) && IsScalePower(p)
    ensures |r| > 0
    decreases n, if n == 0 then 4 else if n < Pow10(p) then 3 else 1
  {
    Pow10Monotone(2, p);
    Pow10Values();
    DivLess(n, Pow10(p));
    var y := n % Pow10(p);
    var sep := if y < 100 then (if y == 0 then "" else " ") else " ";
    Base(lex, n, p) + sep + Words(lex, y)
  }

  /** `integer_to_word` of the newer crate: the two checks, in this order,
      then the words of the parsed value. */
  function IntegerToWord(lex: Tables, number: string): (r: Result<string>)
    ensures r.Ok? <==> IsValidInteger(number) && |number| <= 18
    ensures r.Err? ==>
              r.error == InvalidNumber(number, if IsValidInteger(number) then "Integer should not contain more than 18 digits"
                                               else "Not a valid integer")
  {
    if !IsValidInteger(number) then
      Err(InvalidNumber(number, "Not a valid integer"))
    else if |number| > 18 then
      Err(InvalidNumber(number, "Integer should not contain more than 18 digits"))
    else
      Pow10Monotone(|number|, 18);
      Ok(Words(lex, DigitsValue(number)))
  }

  /** `get_fraction_prefix`: the prefix is chosen by the digit count alone. */
  function FractionPrefix(lex: Tables, fraction: string): (r: string)
    requires 1 <= |fraction| <= 18
    ensures r in lex.fractionPrefixes
    ensures AllDigits(fraction) ==> r == lex.fractionPrefixes[Text.ByteLen(fraction) - 1]
  {
    lex.fractionPrefixes[|fraction| - 1]
  }

  /** `float_to_word` of the newer crate. The precision part is checked
      before the integer part is converted, so when both are too long the
      error names the precision part. */
  function FloatToWord(lex: Tables, number: string): (r: Result<string>)
    ensures r.Ok? <==> IsValidFloat(number) && |IntegerPart(number)| <= 18 && |FractionPart(number)| <= 18
  {
    if !IsValidFloat(number) then
      Err(InvalidNumber(number, "Not a valid floating-point number"))
    else
      FloatParts(number);
      var parts := SplitOn(number, '.');
      var fraction := parts[1];
      if |fraction| > 18 then
        Err(InvalidNumber(fraction, "Precision part should not contain more than 18 digits"))
      else
        var prefix := FractionPrefix(lex, fraction);
        match IntegerToWord(lex, parts[0])
        case Err(e) => Err(e)
        case Ok(integer) =>
          var fractionWords := IntegerToWord(lex, parts[1]).value;
          Ok(integer + " butun " + prefix + " " + fractionWords)
  }

  // ---------------------------------------------------------------- lemmas

  /** The recursive calls through `to_string` never fail: converting the
      printed value gives the words of the value. */
  lemma IntegerToWordOfDecimal(lex: Tables, n: nat)
    requires n < Pow10(18)
    ensures IntegerToWord(lex, Decimal(n)) == Ok(Words(lex, n))
  {
    DecimalLength(n, 18);
    DecimalRoundTrip(n);
  }

  /** The parsed value always fits in an `i64`. */
  lemma IntegerFitsI64(number: string)
    requires IsValidInteger(number) && |number| <= 18
    ensures DigitsValue(number) < Pow10(18) < I64Max
  {
    Pow10Monotone(|number|, 18);
    Pow10Values();
  }

  /** Leading zeros do not change the words, as long as the text stays within
      18 digits; one digit more is an error even when it is a zero. */
  lemma IntegerToWordLeadingZero(lex: Tables, number: string)
    requires IsValidInteger(number)
    ensures |number| < 18 ==> IntegerToWord(lex, "0" + number) == IntegerToWord(lex, number)
    ensures |number| == 18 ==> IntegerToWord(lex, "0" + number).Err?
  {
    DigitsValueLeadingZero(number);
  }

  /** A decimal fraction is spoken as the integer part's words, "butun", the
      prefix chosen by the precision part's digit count, and the precision
      part's words; the errors name the part that is too long, the precision
      part first. */
  lemma FloatToWordParts(lex: Tables, a: string, b: string)
    requires IsValidInteger(a) && IsValidInteger(b)
    ensures |b| > 18 ==>
              FloatToWord(lex, a + "." + b)
              == Err(InvalidNumber(b, "Precision part should not contain more than 18 digits"))
    ensures |b| <= 18 && |a| > 18 ==>
              FloatToWord(lex, a + "." + b)
              == Err(InvalidNumber(a, "Integer should not contain more than 18 digits"))
    ensures |a| <= 18 && |b| <= 18 ==>
              FloatToWord(lex, a + "." + b)
              == Ok(IntegerToWord(lex, a).value + " butun " + lex.fractionPrefixes[|b| - 1] + " "
                    + IntegerToWord(lex, b).value)
  {
    var s := a + "." + b;
    FloatOfParts(a, b);
    FloatParts(s);
    var k := FindDot(s);
    assert k == |a| by {
      assert s[|a|] == '.';
      assert forall i :: 0 <= i < |a| ==> s[i] == a[i] && IsDigit(a[i]);
    }
    assert IntegerPart(s) == a && FractionPart(s) == b;
  }

  /** Non-decimal input is refused with the whole text named. */
  lemma FloatToWordInvalid(lex: Tables, number: string)
    requires !IsValidFloat(number)
    ensures FloatToWord(lex, number) == Err(InvalidNumber(number, "Not a valid floating-point number"))
  {
  }

  /** Powers of thousand: `n` is `q` units of `10^p` and a remainder below
      `10^p`, and its words are those of `q`, the scale word, and the
      remainder's words, a space between them unless the remainder is zero. */
  lemma WordsGroups(lex: Tables, n: nat)
    requires 1000 <= n < Pow10(18)
    ensures var p := GroupPower(n);
      && IsScalePower(p) && 1 <= n / Pow10(p) <= 999
      && Words(lex, n) == Words(lex, n / Pow10(p)) + " " + Scale(lex, p)
           + (if n % Pow10(p) == 0 then "" else " ") + Words(lex, n % Pow10(p))
  {
    GroupPowerFacts(n);
    var p := GroupPower(n);
    var split := WordsAboveThousand(lex, n);
    if split {
      var q, y := HundredShape(lex, n, p);
    } else {
      var q, y := OneShape(lex, n, p);
    }
  }

  /** From a thousand on, `integer_to_word` takes the `hundred` branch or
      the `one` branch at the group's power. */
  lemma WordsAboveThousand(lex: Tables, n: nat) returns (hundred: bool)
    requires 1000 <= n < Pow10(18)
    ensures IsScalePower(GroupPower(n)) && GroupPower(n) != 2
    ensures hundred == (Exponent(n) % 3 != 0)
    ensures hundred ==> Words(lex, n) == Hundred(lex, n, GroupPower(n))
    ensures !hundred ==> Words(lex, n) == One(lex, n, GroupPower(n))
  {
    GroupPowerFacts(n);
    hundred := Exponent(n) % 3 != 0;
  }

  /** Above the hundreds, the separator rules of `one` and `hundred` both
      come to: nothing before a zero remainder, a space otherwise. */
  lemma OneShape(lex: Tables, n: nat, p: nat) returns (q: nat, y: nat)
    requires n < Pow10(18) && IsScalePower(p) && p != 2
    ensures q == n / Pow10(p) && y == n % Pow10(p) && q < Pow10(18) && y < Pow10(18)
    ensures One(lex, n, p) == Words(lex, q) + " " + Scale(lex, p) + (if y == 0 then "" else " ") + Words(lex, y)
  {
    Pow10Monotone(2, p);
    Pow10Values();
    DivLess(n, Pow10(p));
    q, y := n / Pow10(p), n % Pow10(p);
    assert Base(lex, n, p) == Words(lex, q) + " " + Scale(lex, p);
  }

  lemma HundredShape(lex: Tables, n: nat, p: nat) returns (q: nat, y: nat)
    requires n < Pow10(18) && IsScalePower(p)
    ensures q == n / Pow10(p) && y == n % Pow10(p) && q < Pow10(18) && y < Pow10(18)
    ensures Hundred(lex, n, p) == Words(lex, q) + " " + Scale(lex, p) + (if y == 0 then "" else " ") + Words(lex, y)
  {
    Pow10Monotone(2, p);
    Pow10Values();
    DivLess(n, Pow10(p));
    q, y := n / Pow10(p), n % Pow10(p);
    assert Base(lex, n, p) == Words(lex, q) + " " + Scale(lex, p);
  }

  /** Above the hundreds `one` and `hundred` say the same words. */
  lemma OneIsHundred(lex: Tables, n: nat, p: nat)
    requires n < Pow10(18) && IsScalePower(p) && p != 2
    ensures One(lex, n, p) == Hundred(lex, n, p)
  {
    var q, y := OneShape(lex, n, p);
    var q', y' := HundredShape(lex, n, p);
  }

  /** For hundreds the words of the remainder are never empty, so `one`
      always puts a space before them, even before "nol". */
  lemma OneOfHundreds(lex: Tables, n: nat)
    requires n < 1000
    ensures One(lex, n, 2) == Base(lex, n, 2) + " " + Words(lex, n % 100)
  {
    Pow10Values();
    Pow10Monotone(3, 18);
  }

  // ------------------------------------------------------- the examples

  /** The table words the examples use, at the positions the code reads
      them from. */
  predicate HasExampleWords(lex: Tables) {
    && |lex.ones| == 19 && |lex.tens| == 8 && |lex.fractionPrefixes| == 18
    && lex.ones[0] == "bir" && lex.ones[1] == "ikki" && lex.ones[2] == "uch"
    && lex.ones[3] == "to‘rt" && lex.ones[4] == "besh" && lex.ones[5] == "olti"
    && lex.ones[6] == "yetti" && lex.ones[7] == "sakkiz" && lex.ones[8] == "to‘qqiz"
    && lex.tens[0] == "yigirma" && lex.tens[1] == "o‘ttiz" && lex.tens[2] == "qirq"
    && lex.tens[3] == "ellik" && lex.tens[5] == "yetmish"
    && FindScale(lex.scales, 2) == Some("yuz") && FindScale(lex.scales, 3) == Some("ming")
    && lex.fractionPrefixes[0] == "o‘ndan" && lex.fractionPrefixes[1] == "yuzdan"
    && lex.fractionPrefixes[2] == "mingdan" && lex.fractionPrefixes[3] == "o‘n mingdan"
  }

  lemma SmallExamples(lex: Tables)
    requires HasExampleWords(lex)
    ensures Words(lex, 0) == "nol"
    ensures Words(lex, 9) == "to‘qqiz"
    ensures Words(lex, 32) == "o‘ttiz ikki"
    ensures Words(lex, 56) == "ellik olti"
    ensures Words(lex, 48) == "qirq sakkiz"
    ensures Words(lex, 75) == "yetmish besh"
    ensures Words(lex, 54) == "ellik to‘rt"
    ensures Words(lex, 24) == "yigirma to‘rt"
  {
  }

  /** `base(532, 2)` and `one(532, 2)`. */
  lemma BaseOneExamples(lex: Tables)
    requires HasExampleWords(lex)
    ensures Base(lex, 532, 2) == "besh yuz"
    ensures One(lex, 532, 2) == "besh yuz o‘ttiz ikki"
  {
    SmallExamples(lex);
    HundredsBase(lex, 532, 5, "besh");
    HundredsOne(lex, 532, "besh yuz", "o‘ttiz ikki");
    Spelled532();
  }

  /** `base(n, 2)` for `n` with `d` hundreds. */
  lemma HundredsBase(lex: Tables, n: nat, d: nat, w: string)
    requires HasExampleWords(lex)
    requires 1 <= d <= 9 && 100 * d <= n < 100 * d + 100 && lex.ones[d - 1] == w
    ensures Base(lex, n, 2) == w + " yuz"
  {
    assert Pow10(2) == 100;
    DivModUnique(n, 100, d, n - 100 * d);
  }

  /** `one(n, 2)` once `base` and the remainder's words are known. */
  lemma HundredsOne(lex: Tables, n: nat, b: string, s: string)
    requires 100 <= n < 1000
    requires Base(lex, n, 2) == b && Words(lex, n % 100) == s
    ensures One(lex, n, 2) == b + " " + s
    ensures Words(lex, n) == b + " " + s
  {
    assert Pow10(2) == 100;
  }

  /** A three-digit number with `d` hundreds and a non-zero remainder. */
  lemma HundredsWords(lex: Tables, n: nat, d: nat, w: string, s: string)
    requires HasExampleWords(lex)
    requires 1 <= d <= 9 && 100 * d < n < 100 * d + 100 && lex.ones[d - 1] == w
    requires Words(lex, n - 100 * d) == s
    ensures Words(lex, n) == w + " yuz" + " " + s
  {
    HundredsBase(lex, n, d, w);
    DivModUnique(n, 100, d, n - 100 * d);
    HundredsOne(lex, n, w + " yuz", s);
  }

  lemma Example456(lex: Tables)
    requires HasExampleWords(lex)
    ensures Words(lex, 456) == "to‘rt yuz ellik olti"
  {
    SmallExamples(lex);
    HundredsWords(lex, 456, 4, "to‘rt", "ellik olti");
    Spelled456();
  }

  lemma Example548(lex: Tables)
    requires HasExampleWords(lex)
    ensures Words(lex, 548) == "besh yuz qirq sakkiz"
  {
    SmallExamples(lex);
    HundredsWords(lex, 548, 5, "besh", "qirq sakkiz");
    Spelled548();
  }

  lemma Example754(lex: Tables)
    requires HasExampleWords(lex)
    ensures Words(lex, 754) == "yetti yuz ellik to‘rt"
  {
    SmallExamples(lex);
    HundredsWords(lex, 754, 7, "yetti", "ellik to‘rt");
    Spelled754();
  }

  /** `integer_to_word("104")`: a zero tens digit is skipped. */
  lemma Example104(lex: Tables)
    requires HasExampleWords(lex)
    ensures Words(lex, 104) == "bir yuz to‘rt"
  {
    assert Words(lex, 4) == "to‘rt";
    HundredsWords(lex, 104, 1, "bir", "to‘rt");
    Spelled104();
  }

  /** `base(n, 3)` for `n` with `d` thousands, `d` below ten. */
  lemma ThousandsBase(lex: Tables, n: nat, d: nat, w: string)
    requires HasExampleWords(lex)
    requires 1 <= d <= 9 && 1000 * d <= n < 1000 * d + 1000 && lex.ones[d - 1] == w
    ensures Base(lex, n, 3) == w + " ming"
  {
    assert Pow10(3) == 1000;
    DivModUnique(n, 1000, d, n - 1000 * d);
  }

  /** `hundred(n, 3)` once `base` and the remainder's words are known. */
  lemma ThousandsHundred(lex: Tables, n: nat, b: string, s: string)
    requires 1000 <= n < 10000 && n % 1000 != 0
    requires Base(lex, n, 3) == b && Words(lex, n % 1000) == s
    ensures Hundred(lex, n, 3) == b + " " + s
    ensures Words(lex, n) == b + " " + s
  {
    assert Pow10(3) == 1000;
    FourDigits(lex, n);
  }

  /** A four-digit number goes to `hundred` with power 3. */
  lemma FourDigits(lex: Tables, n: nat)
    requires 1000 <= n < 10000
    ensures Words(lex, n) == Hundred(lex, n, 3)
  {
    assert Pow10(4) == 10000 && Pow10(18) > 10000;
    assert Exponent(n) == 4;
    assert GroupPower(n) == 3;
  }

  /** A four-digit number with `d` thousands and a non-zero remainder. */
  lemma ThousandsWords(lex: Tables, n: nat, d: nat, w: string, s: string)
    requires HasExampleWords(lex)
    requires 1 <= d <= 9 && 1000 * d < n < 1000 * d + 1000 && lex.ones[d - 1] == w
    requires Words(lex, n - 1000 * d) == s
    ensures Hundred(lex, n, 3) == w + " ming" + " " + s
    ensures Words(lex, n) == w + " ming" + " " + s
  {
    ThousandsBase(lex, n, d, w);
    DivModUnique(n, 1000, d, n - 1000 * d);
    ThousandsHundred(lex, n, w + " ming", s);
  }

  /** `hundred(3456, 3)`. */
  lemma HundredExample(lex: Tables)
    requires HasExampleWords(lex)
    ensures Hundred(lex, 3456, 3) == "uch ming to‘rt yuz ellik olti"
    ensures Words(lex, 3456) == "uch ming to‘rt yuz ellik olti"
  {
    Example456(lex);
    ThousandsWords(lex, 3456, 3, "uch", "to‘rt yuz ellik olti");
    Spelled3456();
  }

  lemma Example1024(lex: Tables)
    requires HasExampleWords(lex)
    ensures Words(lex, 1024) == "bir ming yigirma to‘rt"
  {
    SmallExamples(lex);
    ThousandsWords(lex, 1024, 1, "bir", "yigirma to‘rt");
    Spelled1024();
  }

  lemma Example7548(lex: Tables)
    requires HasExampleWords(lex)
    ensures Words(lex, 7548) == "yetti ming besh yuz qirq sakkiz"
  {
    Example548(lex);
    ThousandsWords(lex, 7548, 7, "yetti", "besh yuz qirq sakkiz");
    Spelled7548();
  }

  /** The value of a text that is some value's printed form. */
  lemma DigitsOf(n: nat, s: string)
    requires Decimal(n) == s
    ensures AllDigits(s) && DigitsValue(s) == n
  {
    DecimalRoundTrip(n);
  }

  /** `integer_to_word` of the printed form of a value whose words are known. */
  lemma IntegerOfKnownWords(lex: Tables, number: string, n: nat, w: string)
    requires n < 1_000_000 && Decimal(n) == number && Words(lex, n) == w
    ensures IntegerToWord(lex, number) == Ok(w)
  {
    Pow10Values();
    IntegerToWordOfDecimal(lex, n);
  }

  /** The integer examples: "0", "9", "32", "104", "1024" and "3456". */
  lemma IntegerToWordExamples(lex: Tables)
    requires HasExampleWords(lex)
    ensures IntegerToWord(lex, "0") == Ok("nol")
    ensures IntegerToWord(lex, "9") == Ok("to‘qqiz")
    ensures IntegerToWord(lex, "32") == Ok("o‘ttiz ikki")
    ensures IntegerToWord(lex, "104") == Ok("bir yuz to‘rt")
    ensures IntegerToWord(lex, "1024") == Ok("bir ming yigirma to‘rt")
    ensures IntegerToWord(lex, "3456") == Ok("uch ming to‘rt yuz ellik olti")
  {
    IntegerExampleSmall(lex);
    IntegerExample104(lex);
    IntegerExample1024(lex);
    IntegerExample3456(lex);
  }

  lemma IntegerExampleSmall(lex: Tables)
    requires HasExampleWords(lex)
    ensures IntegerToWord(lex, "0") == Ok("nol")
    ensures IntegerToWord(lex, "9") == Ok("to‘qqiz")
    ensures IntegerToWord(lex, "32") == Ok("o‘ttiz ikki")
  {
    SmallExamples(lex);
    Printed();
    IntegerOfKnownWords(lex, "0", 0, "nol");
    IntegerOfKnownWords(lex, "9", 9, "to‘qqiz");
    IntegerOfKnownWords(lex, "32", 32, "o‘ttiz ikki");
  }

  lemma IntegerExample104(lex: Tables)
    requires HasExampleWords(lex)
    ensures IntegerToWord(lex, "104") == Ok("bir yuz to‘rt")
  {
    Example104(lex);
    Printed();
    IntegerOfKnownWords(lex, "104", 104, "bir yuz to‘rt");
  }

  lemma IntegerExample1024(lex: Tables)
    requires HasExampleWords(lex)
    ensures IntegerToWord(lex, "1024") == Ok("bir ming yigirma to‘rt")
  {
    Example1024(lex);
    Printed();
    IntegerOfKnownWords(lex, "1024", 1024, "bir ming yigirma to‘rt");
  }

  lemma IntegerExample3456(lex: Tables)
    requires HasExampleWords(lex)
    ensures IntegerToWord(lex, "3456") == Ok("uch ming to‘rt yuz ellik olti")
  {
    HundredExample(lex);
    Printed();
    IntegerOfKnownWords(lex, "3456", 3456, "uch ming to‘rt yuz ellik olti");
  }

  /** The printed forms of the values in the examples. */
  lemma Printed()
    ensures Decimal(0) == "0" && Decimal(9) == "9" && Decimal(32) == "32"
    ensures Decimal(104) == "104" && Decimal(1024) == "1024" && Decimal(3456) == "3456"
    ensures Decimal(3) == "3" && Decimal(75) == "75" && Decimal(754) == "754" && Decimal(7548) == "7548"
  {
  }

  /** `float_to_word` of an integer part and a precision part whose words
      are known. */
  lemma FloatOfKnownParts(lex: Tables, a: string, b: string, m: nat, k: nat, wa: string, wb: string)
    requires Decimal(m) == a && Decimal(k) == b && |a| <= 18 && |b| <= 18
    requires m < 1_000_000 && k < 1_000_000
    requires Words(lex, m) == wa && Words(lex, k) == wb
    ensures FloatToWord(lex, a + "." + b) == Ok(wa + " butun " + lex.fractionPrefixes[|b| - 1] + " " + wb)
  {
    Pow10Values();
    DigitsOf(m, a);
    DigitsOf(k, b);
    FloatToWordParts(lex, a, b);
  }

  /** `float_to_word("3.0")`: one fractional digit, and zero is spoken. */
  lemma FloatExampleTenths(lex: Tables)
    requires HasExampleWords(lex)
    ensures FloatToWord(lex, "3.0") == Ok("uch butun o‘ndan nol")
  {
    SmallExamples(lex);
    assert Words(lex, 3) == "uch";
    Printed();
    FloatOfKnownParts(lex, "3", "0", 3, 0, "uch", "nol");
    Pointed30();
    SpelledFloat30();
  }

  /** `float_to_word("3.75")`. */
  lemma FloatExampleHundredths(lex: Tables)
    requires HasExampleWords(lex)
    ensures FloatToWord(lex, "3.75") == Ok("uch butun yuzdan yetmish besh")
  {
    SmallExamples(lex);
    assert Words(lex, 3) == "uch";
    Printed();
    FloatOfKnownParts(lex, "3", "75", 3, 75, "uch", "yetmish besh");
    Pointed375();
    SpelledFloat375();
  }

  /** `float_to_word("3.754")`. */
  lemma FloatExampleThousandths(lex: Tables)
    requires HasExampleWords(lex)
    ensures FloatToWord(lex, "3.754") == Ok("uch butun mingdan yetti yuz ellik to‘rt")
  {
    Example754(lex);
    assert Words(lex, 3) == "uch";
    Printed();
    FloatOfKnownParts(lex, "3", "754", 3, 754, "uch", "yetti yuz ellik to‘rt");
    Pointed3754();
    SpelledFloat3754();
  }

  /** `float_to_word("3.7548")`. */
  lemma FloatExampleTenThousandths(lex: Tables)
    requires HasExampleWords(lex)
    ensures FloatToWord(lex, "3.7548") == Ok("uch butun o‘n mingdan yetti ming besh yuz qirq sakkiz")
  {
    Example7548(lex);
    assert Words(lex, 3) == "uch";
    Printed();
    FloatOfKnownParts(lex, "3", "7548", 3, 7548, "uch", "yetti ming besh yuz qirq sakkiz");
    Pointed37548();
    SpelledFloat37548();
  }

  // The literal phrases the examples are made of. These helpers state no
  // property of the converter: each joins two literals on its own, without
  // the rest of an example in view, which keeps the examples' proofs cheap.

  lemma Spelled532()
    ensures "besh yuz" + " " + "o‘ttiz ikki" == "besh yuz o‘ttiz ikki"
  {
  }

  lemma Spelled456()
    ensures "to‘rt yuz" + " " + "ellik olti" == "to‘rt yuz ellik olti"
  {
  }

  lemma Spelled548()
    ensures "besh yuz" + " " + "qirq sakkiz" == "besh yuz qirq sakkiz"
  {
  }

  lemma Spelled754()
    ensures "yetti yuz" + " " + "ellik to‘rt" == "yetti yuz ellik to‘rt"
  {
  }

  lemma Spelled104()
    ensures "bir yuz" + " " + "to‘rt" == "bir yuz to‘rt"
  {
  }

  lemma Spelled3456()
    ensures "uch ming" + " " + "to‘rt yuz ellik olti" == "uch ming to‘rt yuz ellik olti"
  {
  }

  lemma Spelled1024()
    ensures "bir ming" + " " + "yigirma to‘rt" == "bir ming yigirma to‘rt"
  {
  }

  lemma Spelled7548()
    ensures "yetti ming" + " " + "besh yuz qirq sakkiz" == "yetti ming besh yuz qirq sakkiz"
  {
  }

  lemma SpelledFloat30()
    ensures "uch" + " butun " + "o‘ndan" + " " + "nol" == "uch butun o‘ndan nol"
  {
  }

  lemma SpelledFloat375()
    ensures "uch" + " butun " + "yuzdan" + " " + "yetmish besh" == "uch butun yuzdan yetmish besh"
  {
  }

  lemma SpelledFloat3754()
    ensures "uch" + " butun " + "mingdan" + " " + "yetti yuz ellik to‘rt" == "uch butun mingdan yetti yuz ellik to‘rt"
  {
  }

  lemma SpelledFloat37548()
    ensures "uch" + " butun " + "o‘n mingdan" + " " + "yetti ming besh yuz qirq sakkiz"
         == "uch butun o‘n mingdan yetti ming besh yuz qirq sakkiz"
  {
    assert "uch" + " butun " + "o‘n mingdan" == "uch butun o‘n mingdan";
  }

  lemma Pointed30()
    ensures "3" + "." + "0" == "3.0"
  {
  }

  lemma Pointed375()
    ensures "3" + "." + "75" == "3.75"
  {
  }

  lemma Pointed3754()
    ensures "3" + "." + "754" == "3.754"
  {
  }

  lemma Pointed37548()
    ensures "3" + "." + "7548" == "3.7548"
  {
  }
}
