/** How the numeral converter treats a zero remainder, and the evidently
    intended reading.

    As written, `integer_to_word` speaks every remainder with a recursive
    call, and the call for zero returns "nol": twenty comes out as
    "yigirma nol", one hundred as "bir yuz nol" and one thousand as
    "bir mingnol" (`hundred`, and `one` above the hundreds, leave the
    separator out before a zero remainder but still append its words; `one`
    for the hundreds keeps the space). The separator rule shows the
    intent: a zero remainder is not spoken at all. `IntendedWords` is that
    reading, and it is proved equal to an independent definition that speaks
    each non-zero group of three digits followed by its scale word. */
module IntendedNumerals {
  import opened Errors
  import opened NumberHelper
  import opened Numerals

  predicate EndsWith(s: string, suffix: string) {
    |s| >= |suffix| && s[|s| - |suffix|..] == suffix
  }

  lemma EndsWithAppend(a: string, s: string, suffix: string)
    requires EndsWith(s, suffix)
    ensures EndsWith(a + s, suffix)
  {
    assert (a + s)[|a + s| - |suffix|..] == s[|s| - |suffix|..];
  }

  // ----------------------------------------------------- as written

  lemma Mod10OfMod100(x: nat)
    ensures (x % 100) % 10 == x % 10
  {
    DivModUnique(x, 10, (x / 100) * 10 + (x % 100) / 10, (x % 100) % 10);
  }

  lemma ModOfMultiple(n: nat, a: nat, b: nat)
    requires a > 0 && b > 0
    ensures (n % (a * b)) % b == n % b
  {
    var m := a * b;
    var q, y := n / m, n % m;
    var y1, r := y / b, y % b;
    assert n == q * m + y;
    assert y == y1 * b + r;
    MulAssoc(q, a, b);
    MulDistrib(q * a, y1, b);
    assert n == (q * a + y1) * b + r;
    DivModUnique(n, b, q * a + y1, r);
  }

  lemma MulAssoc(x: nat, y: nat, z: nat)
    ensures x * (y * z) == (x * y) * z
  {
  }

  lemma MulDistrib(x: nat, y: nat, z: nat)
    ensures (x + y) * z == x * z + y * z
  {
  }

  /** Taking the remainder below `10^p`, p >= 2, keeps the last two digits. */
  lemma ModPow10KeepsLastTwo(n: nat, p: nat)
    requires p >= 2
    ensures (n % Pow10(p)) % 100 == n % 100
  {
    Pow10Split(2, p - 2);
    assert Pow10(2) == 100;
    assert p - 2 + 2 == p;
    ModOfMultiple(n, Pow10(p - 2), 100);
  }

  /** As written, every number whose last two digits are 00, 20, 30, ...,
      90 ends with the word for zero, because its last remainder is zero. */
  lemma {:induction false} EndsWithZeroWord(lex: Tables, n: nat)
    requires 0 < n < Pow10(18)
    requires n % 10 == 0 && n % 100 != 10
    ensures EndsWith(Words(lex, n), "nol")
    decreases n
  {
    if n < 100 {
      EndsWithAppend(lex.tens[n / 10 - 2] + " ", "nol", "nol");
    } else {
      var head, y := LastRemainder(lex, n);
      if y == 0 {
        EndsWithAppend(head, "nol", "nol");
      } else {
        Mod10OfMod100(n);
        Mod10OfMod100(y);
        EndsWithZeroWord(lex, y);
        EndsWithAppend(head, Words(lex, y), "nol");
      }
    }
  }

  /** From a hundred on, the words end with the remainder's words, and the
      remainder keeps the last two digits. */
  lemma LastRemainder(lex: Tables, n: nat) returns (head: string, y: nat)
    requires 100 <= n < Pow10(18)
    ensures y < n && y % 100 == n % 100
    ensures Words(lex, n) == head + Words(lex, y)
  {
    if n < 1000 {
      WordsOfHundreds(lex, n);
      y := n % 100;
      head := lex.ones[n / 100 - 1] + " " + Scale(lex, 2) + " ";
      assert Pow10(2) == 100;
      ModPow10KeepsLastTwo(n, 2);
    } else {
      head, y := TopRemainder(lex, n);
    }
  }

  /** The same from a thousand on, where the remainder is below the top group. */
  lemma TopRemainder(lex: Tables, n: nat) returns (head: string, y: nat)
    requires 1000 <= n < Pow10(18)
    ensures y < n && y % 100 == n % 100
    ensures Words(lex, n) == head + Words(lex, y)
  {
    GroupPowerFacts(n);
    WordsGroups(lex, n);
    var p := GroupPower(n);
    y := n % Pow10(p);
    head := Words(lex, n / Pow10(p)) + " " + Scale(lex, p) + (if y == 0 then "" else " ");
    DivLess(n, Pow10(p));
    ModPow10KeepsLastTwo(n, p);
  }

  /** As written, a whole number of a scale's units is spoken with "nol"
      glued to the scale word. */
  lemma WordsScaleMultiple(lex: Tables, q: nat, p: nat, n: nat)
    requires 1 <= q <= 999
    requires p == 3 || p == 6 || p == 9 || p == 12 || p == 15
    requires n == q * Pow10(p)
    ensures 1000 <= n < Pow10(18)
    ensures Words(lex, n) == Words(lex, q) + " " + Scale(lex, p) + "nol"
  {
    ScaleMultipleFacts(q, p, n);
    WordsOfMultiple(lex, n, q, p);
  }

  lemma WordsOfMultiple(lex: Tables, n: nat, q: nat, p: nat)
    requires 1000 <= n < Pow10(18) && IsScalePower(p) && 1 <= q <= 999
    requires GroupPower(n) == p && n / Pow10(p) == q && n % Pow10(p) == 0
    ensures Words(lex, n) == Words(lex, q) + " " + Scale(lex, p) + "nol"
  {
    WordsGroups(lex, n);
    var head := Words(lex, q) + " " + Scale(lex, p);
    assert Words(lex, n) == head + "" + Words(lex, 0);
    assert head + "" == head;
  }

  /** The facts about `n == q * 10^p` both readings need. */
  lemma ScaleMultipleFacts(q: nat, p: nat, n: nat)
    requires 1 <= q <= 999
    requires p == 3 || p == 6 || p == 9 || p == 12 || p == 15
    requires n == q * Pow10(p)
    ensures 1000 <= n < Pow10(18)
    ensures GroupPower(n) == p && n / Pow10(p) == q && n % Pow10(p) == 0
  {
    DivModUnique(n, Pow10(p), q, 0);
    MultipleInGroup(q, p, n);
    GroupPowerUnique(n, p);
  }

  /** Such an `n` lies in the group of `10^p`, within the `i64` range. */
  lemma MultipleInGroup(q: nat, p: nat, n: nat)
    requires 1 <= q <= 999
    requires p == 3 || p == 6 || p == 9 || p == 12 || p == 15
    requires n == q * Pow10(p)
    ensures Pow10(p) <= n < Pow10(p + 3)
    ensures 1000 <= n < Pow10(18)
  {
    MultipleBounds(q, Pow10(p));
    Pow10Split(p, 3);
    Pow10Monotone(3, p);
    Pow10Monotone(p + 3, 18);
    assert Pow10(3) == 1000;
  }

  lemma MultipleBounds(q: nat, d: nat)
    requires 1 <= q <= 999 && d > 0
    ensures d <= q * d < 1000 * d
  {
    MulAtLeast(q, d);
    MulMonotone(q, 999, d);
  }

  /** The three shapes of the discrepancy on the source's own words. */
  lemma ZeroRemainderExamples(lex: Tables)
    requires HasExampleWords(lex)
    ensures Words(lex, 20) == "yigirma nol"
    ensures Words(lex, 100) == "bir yuz nol"
    ensures Words(lex, 1000) == "bir mingnol"
  {
    ZeroRemainderTwenty(lex);
    ZeroRemainderHundred(lex);
    ZeroRemainderThousand(lex);
  }

  lemma ZeroRemainderTwenty(lex: Tables)
    requires HasExampleWords(lex)
    ensures Words(lex, 20) == "yigirma nol"
  {
    assert Words(lex, 20) == "yigirma" + " " + "nol";
    SpelledTwenty();
  }

  lemma ZeroRemainderHundred(lex: Tables)
    requires HasExampleWords(lex)
    ensures Words(lex, 100) == "bir yuz nol"
  {
    HundredsBase(lex, 100, 1, "bir");
    HundredsOne(lex, 100, "bir yuz", "nol");
    SpelledHundred();
  }

  lemma ZeroRemainderThousand(lex: Tables)
    requires HasExampleWords(lex)
    ensures Words(lex, 1000) == "bir mingnol"
  {
    assert Words(lex, 1) == "bir";
    WordsScaleMultiple(lex, 1, 3, 1000);
    assert Pow10(3) == 1000;
    SpelledThousand();
  }

  // Literal joins used by the examples above. These helpers state no property
  // of the conversion; they only keep the examples' proofs cheap.

  lemma SpelledTwenty()
    ensures "yigirma" + " " + "nol" == "yigirma nol"
  {
  }

  lemma SpelledHundred()
    ensures "bir yuz" + " " + "nol" == "bir yuz nol"
  {
  }

  lemma SpelledThousand()
    ensures "bir" + " " + "ming" + "nol" == "bir mingnol"
  {
  }

  // ------------------------------------------------------- as intended

  /** The power a number of at least a hundred is split at. */
  function SplitPower(n: nat): nat
    requires 100 <= n < Pow10(18)
  {
    if n < 1000 then 2 else GroupPowerFacts(n); GroupPower(n)
  }

  lemma SplitPowerFacts(n: nat)
    requires 100 <= n < Pow10(18)
    ensures IsScalePower(SplitPower(n)) && 2 <= SplitPower(n) <= 15
    ensures Pow10(SplitPower(n)) <= n
    ensures 1 <= n / Pow10(SplitPower(n)) <= 999
  {
    if n < 1000 {
      assert Pow10(2) == 100;
      DivLess(n, 100);
    } else {
      GroupPowerFacts(n);
    }
  }

  /** `integer_to_word` with a zero remainder left unspoken. */
  function IntendedWords(lex: Tables, n: nat): (r: string)
    requires n < Pow10(18)
    ensures |r| > 0
    decreases n
  {
    if n == 0 then "nol"
    else if n < 20 then lex.ones[n - 1]
    else if n < 100 then
      lex.tens[n / 10 - 2] + (if n % 10 == 0 then "" else " " + IntendedWords(lex, n % 10))
    else
      SplitPowerFacts(n);
      var p := SplitPower(n);
      DivLess(n, Pow10(p));
      var y := n % Pow10(p);
      IntendedWords(lex, n / Pow10(p)) + " " + Scale(lex, p)
        + (if y == 0 then "" else " " + IntendedWords(lex, y))
  }

  /** The intended reading of a whole number of a scale's units: the units
      and the scale word, nothing after it. */
  lemma IntendedScaleMultiple(lex: Tables, q: nat, p: nat, n: nat)
    requires 1 <= q <= 999
    requires p == 3 || p == 6 || p == 9 || p == 12 || p == 15
    requires n == q * Pow10(p)
    ensures 1000 <= n < Pow10(18)
    ensures IntendedWords(lex, n) == IntendedWords(lex, q) + " " + Scale(lex, p)
  {
    ScaleMultipleFacts(q, p, n);
    assert SplitPower(n) == p;
  }

  /** Below a hundred, the two readings differ only on multiples of ten
      from twenty on; below a thousand, also on the remainders that do. */
  lemma IntendedAgreesBelowThousand(lex: Tables, n: nat)
    requires n < 1000 && Pow10(18) > 1000
    requires n % 10 != 0 || n % 100 == 10 || n == 0
    ensures Words(lex, n) == IntendedWords(lex, n)
  {
    if n < 100 {
      DivLess(n, 100);
      AgreesBelowHundred(lex, n);
    } else {
      var y := n % 100;
      Mod10OfMod100(n);
      assert y != 0;
      AgreesBelowHundred(lex, y);
      HundredsAgree(lex, n);
    }
  }

  /** Three-digit numbers read the same both ways when their non-zero
      remainder does. */
  lemma HundredsAgree(lex: Tables, n: nat)
    requires 100 <= n < 1000 && n % 100 != 0 && Pow10(18) > 1000
    requires Words(lex, n % 100) == IntendedWords(lex, n % 100)
    ensures Words(lex, n) == IntendedWords(lex, n)
  {
    WordsOfHundreds(lex, n);
    IntendedOfHundreds(lex, n);
  }

  lemma AgreesBelowHundred(lex: Tables, t: nat)
    requires t < 100 && Pow10(18) > 100
    requires t % 10 != 0 || t == 10 || t == 0
    ensures Words(lex, t) == IntendedWords(lex, t)
  {
    if t >= 20 {
      var u := t % 10;
      assert Words(lex, u) == lex.ones[u - 1] == IntendedWords(lex, u);
      assert Words(lex, t) == lex.tens[t / 10 - 2] + " " + Words(lex, u);
      assert IntendedWords(lex, t) == lex.tens[t / 10 - 2] + " " + IntendedWords(lex, u);
    }
  }

  /** As written, a three-digit number is its hundreds, a space and the
      remainder's words, "nol" included. */
  lemma WordsOfHundreds(lex: Tables, n: nat)
    requires 100 <= n < 1000
    ensures 1 <= n / 100 <= 9 && n < Pow10(18)
    ensures Words(lex, n) == lex.ones[n / 100 - 1] + " " + Scale(lex, 2) + " " + Words(lex, n % 100)
  {
    Pow10Values();
    assert Words(lex, n) == One(lex, n, 2);
    assert Base(lex, n, 2) == Words(lex, n / 100) + " " + Scale(lex, 2);
  }

  /** As intended, a three-digit number is its hundreds, then the
      remainder's words unless it is zero. */
  lemma IntendedOfHundreds(lex: Tables, n: nat)
    requires 100 <= n < 1000
    ensures 1 <= n / 100 <= 9 && n < Pow10(18)
    ensures IntendedWords(lex, n) == lex.ones[n / 100 - 1] + " " + Scale(lex, 2)
              + (if n % 100 == 0 then "" else " " + IntendedWords(lex, n % 100))
  {
    Pow10Values();
    assert SplitPower(n) == 2;
  }

  // --------------------------------- the reference: groups of three digits

  /** Joins two phrases with a space, leaving out the empty ones. */
  function Join(a: string, b: string): (r: string)
    ensures a != [] || b != [] ==> r != []
  {
    if a == [] then b else if b == [] then a else a + " " + b
  }

  /** The words below a hundred, zero being the empty phrase. */
  function TensWords(lex: Tables, t: nat): (r: string)
    requires t < 100
    ensures r == [] <==> t == 0
  {
    if t == 0 then ""
    else if t < 20 then lex.ones[t - 1]
    else Join(lex.tens[t / 10 - 2], if t % 10 == 0 then "" else lex.ones[t % 10 - 1])
  }

  /** A group of three digits: hundreds with the hundred word, then tens. */
  function GroupWords(lex: Tables, g: nat): (r: string)
    requires 1 <= g <= 999
    ensures r != []
  {
    var h, t := g / 100, g % 100;
    Join(if h == 0 then "" else lex.ones[h - 1] + " " + Scale(lex, 2), TensWords(lex, t))
  }

  /** The `k`-th group of three digits of `n`, counting from zero at the
      units. */
  function GroupAt(n: nat, k: nat): (g: nat)
    ensures g <= 999
  {
    (n / Pow10(3 * k)) % 1000
  }

  /** The groups of `n` from the `k`-th down to the units, each non-zero one
      followed by its scale word, the units group by none. */
  function GroupsWords(lex: Tables, n: nat, k: nat): string
    requires k <= 5
  {
    var g := GroupAt(n, k);
    if k == 0 then (if g == 0 then "" else GroupWords(lex, g))
    else
      assert IsScalePower(3 * k);
      Join(if g == 0 then "" else GroupWords(lex, g) + " " + Scale(lex, 3 * k), GroupsWords(lex, n, k - 1))
  }

  lemma ModBelow(n: nat, d: nat)
    requires d > 0
    ensures n % d < d
  {
  }

  /** A number spoken group by group; zero is "nol". */
  function ReferenceWords(lex: Tables, n: nat): string
    requires n < Pow10(18)
  {
    if n == 0 then "nol" else GroupsWords(lex, n, 5)
  }

  /** Below a thousand, the intended reading is the group's words. */
  lemma IntendedGroup(lex: Tables, g: nat)
    requires 1 <= g <= 999 && Pow10(18) > 1000
    ensures IntendedWords(lex, g) == GroupWords(lex, g)
  {
    if g < 100 {
      IntendedTens(lex, g);
    } else {
      IntendedOfHundreds(lex, g);
      GroupOfHundreds(lex, g);
      if g % 100 != 0 {
        IntendedTens(lex, g % 100);
      }
    }
  }

  /** A group of a hundred or more: the hundreds, then the tens if any. */
  lemma GroupOfHundreds(lex: Tables, g: nat)
    requires 100 <= g <= 999
    ensures 1 <= g / 100 <= 9
    ensures GroupWords(lex, g) == lex.ones[g / 100 - 1] + " " + Scale(lex, 2)
              + (if g % 100 == 0 then "" else " " + TensWords(lex, g % 100))
  {
    var hundreds, t := lex.ones[g / 100 - 1] + " " + Scale(lex, 2), g % 100;
    if t != 0 {
      assert hundreds + (" " + TensWords(lex, t)) == hundreds + " " + TensWords(lex, t);
    }
  }

  lemma IntendedTens(lex: Tables, t: nat)
    requires 1 <= t < 100 && Pow10(18) > 100
    ensures IntendedWords(lex, t) == TensWords(lex, t)
  {
  }

  /** A group above the number's digits is zero. */
  lemma GroupAbove(n: nat, k: nat)
    requires n < Pow10(3 * k)
    ensures GroupAt(n, k) == 0
  {
    DivModUnique(n, Pow10(3 * k), 0, n);
  }

  /** The highest group of a number below `10^(3k+3)` is its quotient by
      `10^(3k)`. */
  lemma GroupOfTop(n: nat, k: nat)
    requires n < Pow10(3 * k + 3)
    ensures GroupAt(n, k) == n / Pow10(3 * k) <= 999
  {
    var q := n / Pow10(3 * k);
    DivPow10(n, 3 * k, 3);
    assert Pow10(3) == 1000;
    BelowThousand(q);
  }

  lemma BelowThousand(q: nat)
    requires q < 1000
    ensures q % 1000 == q
  {
  }

  /** The groups below the `k`-th are those of the remainder below
      `10^(3k)`. */
  lemma GroupOfRemainder(n: nat, k: nat, i: nat)
    requires i < k
    ensures GroupAt(n % Pow10(3 * k), i) == GroupAt(n, i)
  {
    var d := Pow10(3 * i);
    var e := Pow10(3 * (k - i));
    Pow10Split(3 * i, 3 * (k - i));
    assert 3 * i + 3 * (k - i) == 3 * k;
    Pow10Split(3, 3 * (k - i) - 3);
    assert 3 + (3 * (k - i) - 3) == 3 * (k - i);
    assert Pow10(3) == 1000;
    DivOfRemainder(n, d, Pow10(3 * (k - i) - 3));
  }

  /** `((n % (d * e)) / d) % 1000 == (n / d) % 1000` when `e` is a multiple
      of a thousand, written with `e == f * 1000`. */
  lemma DivOfRemainder(n: nat, d: nat, f: nat)
    requires d > 0 && f > 0
    ensures ((n % ((f * 1000) * d)) / d) % 1000 == (n / d) % 1000
  {
    var e := f * 1000;
    var Q, a := DivSplit(n, d, e);
    assert Q * e == (Q * f) * 1000 by { MulAssoc(Q, f, 1000); }
    ModOfShifted(Q * f, a);
  }

  /** Dividing by `d` a number split at `e * d`. */
  lemma DivSplit(n: nat, d: nat, e: nat) returns (Q: nat, a: nat)
    requires d > 0 && e > 0
    ensures Q == n / (e * d) && a == (n % (e * d)) / d
    ensures n / d == Q * e + a
  {
    var m := e * d;
    assert m > 0 by { MulAtLeast(e, d); }
    var y := n % m;
    Q, a := n / m, y / d;
    var b := y % d;
    assert n == Q * m + y;
    assert y == a * d + b;
    assert Q * m == (Q * e) * d by { MulAssoc(Q, e, d); }
    MulDistrib(Q * e, a, d);
    ModBelow(y, d);
    DivModUnique(n, d, Q * e + a, b);
  }

  lemma ModOfShifted(x: nat, a: nat)
    ensures (x * 1000 + a) % 1000 == a % 1000
  {
    var a1, a0 := a / 1000, a % 1000;
    assert x * 1000 + a == (x + a1) * 1000 + a0;
    DivModUnique(x * 1000 + a, 1000, x + a1, a0);
  }

  /** The groups below the `k`-th speak the same for `n` and its remainder
      below `10^(3k)`. */
  lemma RemainderGroupsWords(lex: Tables, n: nat, k: nat, j: nat, m: nat)
    requires j < k <= 5 && m == n % Pow10(3 * k)
    ensures GroupsWords(lex, m, j) == GroupsWords(lex, n, j)
  {
    forall i | 0 <= i <= j
      ensures GroupAt(m, i) == GroupAt(n, i)
    {
      GroupOfRemainder(n, k, i);
    }
    GroupsAgree(lex, m, n, j);
  }

  /** The words depend only on the groups. */
  lemma {:induction false} GroupsAgree(lex: Tables, m: nat, n: nat, j: nat)
    requires j <= 5
    requires forall i :: 0 <= i <= j ==> GroupAt(m, i) == GroupAt(n, i)
    ensures GroupsWords(lex, m, j) == GroupsWords(lex, n, j)
    decreases j
  {
    if j > 0 {
      GroupsAgree(lex, m, n, j - 1);
    }
  }

  /** Only zero has no groups to speak. */
  lemma {:induction false} GroupsWordsEmpty(lex: Tables, n: nat, k: nat)
    requires k <= 5 && n < Pow10(3 * k + 3)
    ensures GroupsWords(lex, n, k) == [] <==> n == 0
    decreases k
  {
    GroupOfTop(n, k);
    var q := GroupAt(n, k);
    if k == 0 {
      assert Pow10(0) == 1;
    } else if q == 0 {
      var i: nat := k - 1;
      assert 3 * i + 3 == 3 * k;
      QuotientZero(n, Pow10(3 * k));
      ModBelow(n, Pow10(3 * k));
      GroupsWordsEmpty(lex, n, i);
    } else if n == 0 {
      DivModUnique(0, Pow10(3 * k), 0, 0);
    }
  }

  lemma QuotientZero(n: nat, d: nat)
    requires d > 0 && n / d == 0
    ensures n % d == n
  {
    assert n == (n / d) * d + n % d;
  }

  /** Leading zero groups are not spoken. */
  lemma {:induction false} GroupsWordsLeadingZeros(lex: Tables, n: nat, j: nat, k: nat)
    requires j <= k <= 5 && n < Pow10(3 * j + 3)
    ensures GroupsWords(lex, n, k) == GroupsWords(lex, n, j)
    decreases k
  {
    if j < k {
      Pow10Monotone(3 * j + 3, 3 * k);
      GroupAbove(n, k);
      GroupsWordsLeadingZeros(lex, n, j, k - 1);
    }
  }

  /** One step of `IntendedWords` from a thousand on. */
  lemma IntendedStep(lex: Tables, n: nat) returns (k: nat, q: nat, y: nat)
    requires 1000 <= n < Pow10(18)
    ensures 1 <= k <= 5 && 1 <= q <= 999 && y < n
    ensures n < Pow10(3 * k + 3) && y < Pow10(3 * k)
    ensures q == n / Pow10(3 * k) && y == n % Pow10(3 * k)
    ensures IsScalePower(3 * k)
    ensures IntendedWords(lex, n)
         == IntendedWords(lex, q) + " " + Scale(lex, 3 * k)
            + (if y == 0 then "" else " " + IntendedWords(lex, y))
  {
    GroupPowerFacts(n);
    var p;
    p, q, y := IntendedSplit(lex, n);
    k := ScaleIndex(p);
    ModBelow(n, Pow10(p));
    DivLess(n, Pow10(p));
  }

  /** The index of a scale power among the groups above the units. */
  lemma ScaleIndex(p: nat) returns (k: nat)
    requires IsScalePower(p) && p >= 3
    ensures 1 <= k <= 5 && 3 * k == p
  {
    k := p / 3;
  }

  /** From a hundred on, the corrected reading speaks the units of the
      split power, its scale word, and the non-zero remainder. */
  lemma IntendedSplit(lex: Tables, n: nat) returns (p: nat, q: nat, y: nat)
    requires 100 <= n < Pow10(18)
    ensures p == SplitPower(n) && q == n / Pow10(p) && y == n % Pow10(p)
    ensures IsScalePower(p) && q < Pow10(18) && y < Pow10(18)
    ensures IntendedWords(lex, n)
            == IntendedWords(lex, q) + " " + Scale(lex, p) + (if y == 0 then "" else " " + IntendedWords(lex, y))
  {
    SplitPowerFacts(n);
    p := SplitPower(n);
    DivLess(n, Pow10(p));
    q, y := n / Pow10(p), n % Pow10(p);
  }

  /** The intended reading speaks each non-zero group of three digits with
      its scale word, highest group first. */
  lemma {:induction false} IntendedIsReference(lex: Tables, n: nat)
    requires n < Pow10(18)
    ensures IntendedWords(lex, n) == ReferenceWords(lex, n)
    decreases n
  {
    Pow10Values();
    if n == 0 {
    } else if n < 1000 {
      IntendedGroup(lex, n);
      GroupsWordsLeadingZeros(lex, n, 0, 5);
      GroupOfTop(n, 0);
    } else {
      var k, q, y := IntendedStep(lex, n);
      if y != 0 {
        IntendedIsReference(lex, y);
      }
      IntendedGroup(lex, q);
      var q', y' := ReferenceTop(lex, n, k);
      var j: nat := k - 1;
      assert 3 * j + 3 == 3 * k;
      TopThenRemainder(lex, GroupWords(lex, q) + " " + Scale(lex, 3 * k), j, y, ReferenceWords(lex, n));
    }
  }

  /** A reading made of a top group with its scale word and the groups of
      the remainder below it: the top group, then a space and the
      remainder's reference reading unless the remainder is zero. */
  lemma TopThenRemainder(lex: Tables, top: string, j: nat, y: nat, whole: string)
    requires top != [] && j <= 4 && y < Pow10(3 * j + 3) && y < Pow10(18)
    requires whole == Join(top, GroupsWords(lex, y, j))
    ensures whole == top + (if y == 0 then "" else " " + ReferenceWords(lex, y))
  {
    var rest := GroupsWords(lex, y, j);
    JoinTop(top, rest);
    RemainderGroups(lex, y, j);
  }

  /** The reference reading of a number whose highest non-zero group is the
      `k`-th: that group with its scale word, then the groups of the
      remainder. */
  lemma ReferenceTop(lex: Tables, n: nat, k: nat) returns (q: nat, y: nat)
    requires 1000 <= n < Pow10(18)
    requires 1 <= k <= 5 && n < Pow10(3 * k + 3) && 1 <= n / Pow10(3 * k)
    ensures q == n / Pow10(3 * k) && y == n % Pow10(3 * k)
    ensures 1 <= q <= 999 && y < Pow10(3 * (k - 1) + 3) && IsScalePower(3 * k)
    ensures ReferenceWords(lex, n)
         == Join(GroupWords(lex, q) + " " + Scale(lex, 3 * k), GroupsWords(lex, y, k - 1))
  {
    q, y := TopGroup(lex, n, k, 5);
  }

  /** The groups of a number whose highest non-zero group is the `k`-th:
      that group with its scale word, then the groups of the remainder. */
  lemma TopGroup(lex: Tables, n: nat, k: nat, t: nat) returns (q: nat, y: nat)
    requires 1 <= k <= t <= 5 && n < Pow10(3 * k + 3) && 1 <= n / Pow10(3 * k)
    ensures q == n / Pow10(3 * k) && y == n % Pow10(3 * k)
    ensures 1 <= q <= 999 && y <= n && y < Pow10(3 * (k - 1) + 3) && IsScalePower(3 * k)
    ensures GroupsWords(lex, n, t)
         == Join(GroupWords(lex, q) + " " + Scale(lex, 3 * k), GroupsWords(lex, y, k - 1))
  {
    GroupScale(k);
    q, y := TopArithmetic(n, k);
    TopGroupWords(lex, n, k, t, q, y);
  }

  /** The same on the words, with the top group and the remainder given. */
  lemma TopGroupWords(lex: Tables, n: nat, k: nat, t: nat, q: nat, y: nat)
    requires 1 <= k <= t <= 5 && n < Pow10(3 * k + 3)
    requires GroupAt(n, k) == q && 1 <= q && y == n % Pow10(3 * k)
    ensures IsScalePower(3 * k)
    ensures GroupsWords(lex, n, t)
         == Join(GroupWords(lex, q) + " " + Scale(lex, 3 * k), GroupsWords(lex, y, k - 1))
  {
    GroupScale(k);
    var top := GroupWords(lex, q) + " " + Scale(lex, 3 * k);
    var whole, upper := GroupsWords(lex, n, t), GroupsWords(lex, n, k);
    var lower, rest := GroupsWords(lex, n, k - 1), GroupsWords(lex, y, k - 1);
    assert whole == upper by {
      GroupsWordsLeadingZeros(lex, n, k, t);
    }
    assert rest == lower by {
      RemainderGroupsWords(lex, n, k, k - 1, y);
    }
    assert upper == Join(top, lower) by {
      var g := GroupsUnfold(lex, n, k);
    }
  }

  /** The top group and the remainder below it, as numbers. */
  lemma TopArithmetic(n: nat, k: nat) returns (q: nat, y: nat)
    requires 1 <= k && n < Pow10(3 * k + 3) && 1 <= n / Pow10(3 * k)
    ensures q == n / Pow10(3 * k) && y == n % Pow10(3 * k) && GroupAt(n, k) == q
    ensures 1 <= q <= 999 && y <= n && y < Pow10(3 * (k - 1) + 3)
  {
    q, y := n / Pow10(3 * k), n % Pow10(3 * k);
    GroupOfTop(n, k);
    var j: nat := k - 1;
    assert 3 * j + 3 == 3 * k;
    ModBelow(n, Pow10(3 * k));
    DivLess(n, Pow10(3 * k));
  }

  /** One step of `GroupsWords` above the units group. */
  lemma GroupsUnfold(lex: Tables, n: nat, k: nat) returns (g: nat)
    requires 1 <= k <= 5
    ensures g == GroupAt(n, k) && IsScalePower(3 * k)
    ensures GroupsWords(lex, n, k)
         == Join(if g == 0 then "" else GroupWords(lex, g) + " " + Scale(lex, 3 * k), GroupsWords(lex, n, k - 1))
  {
    g := GroupAt(n, k);
  }

  lemma GroupScale(k: nat)
    requires 1 <= k <= 5
    ensures IsScalePower(3 * k)
  {
  }

  lemma JoinTop(top: string, rest: string)
    requires top != []
    ensures Join(top, rest) == top + (if rest == [] then "" else " " + rest)
  {
  }

  /** The groups of a remainder, after the top group: nothing for zero,
      otherwise a space and its reference reading. */
  lemma RemainderGroups(lex: Tables, y: nat, j: nat)
    requires j <= 4 && y < Pow10(3 * j + 3)
    ensures y < Pow10(18)
    ensures var rest := GroupsWords(lex, y, j);
      (if rest == [] then "" else " " + rest) == (if y == 0 then "" else " " + ReferenceWords(lex, y))
  {
    Pow10Monotone(3 * j + 3, 18);
    GroupsWordsEmpty(lex, y, j);
    if y != 0 {
      GroupsWordsLeadingZeros(lex, y, j, 5);
    }
  }

  /** `integer_to_word` as evidently intended: the same input checks and the
      same errors, and for a valid number the intended reading. */
  function IntendedIntegerToWord(lex: Tables, number: string): (r: Result<string>)
    ensures r.Ok? <==> Numerals.IntegerToWord(lex, number).Ok?
    ensures r.Err? ==> r == Numerals.IntegerToWord(lex, number)
  {
    match Numerals.IntegerToWord(lex, number)
    case Err(e) => Err(e)
    case Ok(_) =>
      IntegerFitsI64(number);
      Ok(IntendedWords(lex, DigitsValue(number)))
  }

  /** For every valid number the corrected converter speaks each non-zero
      group of three digits with its scale word and nothing else. */
  lemma IntendedIntegerToWordIsReference(lex: Tables, number: string)
    requires IsValidInteger(number) && |number| <= 18
    ensures DigitsValue(number) < Pow10(18)
    ensures IntendedIntegerToWord(lex, number) == Ok(ReferenceWords(lex, DigitsValue(number)))
  {
    IntegerFitsI64(number);
    IntendedIsReference(lex, DigitsValue(number));
  }

  /** The corrected reading of the numbers the code speaks with a trailing
      "nol". */
  lemma IntendedZeroRemainderExamples(lex: Tables)
    requires HasExampleWords(lex)
    ensures IntendedWords(lex, 20) == "yigirma"
    ensures IntendedWords(lex, 100) == "bir yuz"
    ensures IntendedWords(lex, 1000) == "bir ming"
  {
    Pow10Values();
    IntendedOfHundreds(lex, 100);
    IntendedScaleMultiple(lex, 1, 3, 1000);
  }
}
