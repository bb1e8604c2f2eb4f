/** The numeral converter of the older crate. It speaks numbers with the
    same words and the same recursion as the newer one (its `base`, `one`
    and `hundred` are those of `Numerals`), but it panics where the newer
    crate returns an error. */
module LegacyNumerals {
  import opened Errors
  import opened NumberHelper
  import opened Numerals

  /** `integer_to_word` of the older crate. */
  function IntegerToWord(lex: Tables, number: string): (r: Outcome<string>)
    ensures !r.Fails?
    ensures r.Returns? <==> Numerals.IntegerToWord(lex, number).Ok?
    ensures r.Returns? ==> r.value == Numerals.IntegerToWord(lex, number).value
    ensures r.Panics? ==>
              r.message == if IsValidInteger(number)
                           then "Invalid integer: " + number + ". Overflow, only numbers under 19 digits are allowed."
                           else "Not an integer: " + number
  {
    if !IsValidInteger(number) then
      Panics("Not an integer: " + number)
    else if |number| > 18 then
      Panics("Invalid integer: " + number + ". Overflow, only numbers under 19 digits are allowed.")
    else
      Pow10Monotone(|number|, 18);
      Returns(Words(lex, DigitsValue(number)))
  }

  /** `get_fraction_prefix` of the older crate: the entry for the digit count. */
  function FractionPrefix(lex: Tables, fraction: string): (r: string)
    requires 1 <= |fraction| <= 18
    ensures r == Numerals.FractionPrefix(lex, fraction)
  {
    lex.fractionPrefixes[|fraction| - 1]
  }

  /** `float_to_word` of the older crate. The precision part is checked
      first; a too long integer part panics inside the integer conversion. */
  function FloatToWord(lex: Tables, number: string): (r: Outcome<string>)
    ensures !r.Fails?
    ensures r.Returns? <==> Numerals.FloatToWord(lex, number).Ok?
    ensures r.Returns? ==> r.value == Numerals.FloatToWord(lex, number).value
    ensures !IsValidFloat(number) ==> r == Panics("Invalid floating-point number: " + number)
  {
    if !IsValidFloat(number) then
      Panics("Invalid floating-point number: " + number)
    else
      FloatParts(number);
      var parts := SplitOn(number, '.');
      var fraction := parts[1];
      if |fraction| > 18 then
        Panics("Invalid fraction: " + fraction + ". Overflow, only numbers under 19 digits are allowed.")
      else
        var prefix := FractionPrefix(lex, fraction);
        var integer := IntegerToWord(lex, parts[0]);
        if integer.Panics? then integer
        else
          var fractionWords := IntegerToWord(lex, parts[1]).value;
          Returns(integer.value + " butun " + prefix + " " + fractionWords)
  }

  /** The panics of `float_to_word`, in the order the checks are made. */
  lemma FloatToWordPanics(lex: Tables, a: string, b: string)
    requires IsValidInteger(a) && IsValidInteger(b)
    ensures |b| > 18 ==>
              FloatToWord(lex, a + "." + b)
              == Panics("Invalid fraction: " + b + ". Overflow, only numbers under 19 digits are allowed.")
    ensures |b| <= 18 < |a| ==>
              FloatToWord(lex, a + "." + b)
              == Panics("Invalid integer: " + a + ". Overflow, only numbers under 19 digits are allowed.")
  {
    PartsOfFloat(a, b);
  }

  /** The older crate's test vectors give the same words as the newer one's. */
  lemma IntegerToWordExamples(lex: Tables)
    requires HasExampleWords(lex)
    ensures IntegerToWord(lex, "0") == Returns("nol")
    ensures IntegerToWord(lex, "9") == Returns("to‘qqiz")
    ensures IntegerToWord(lex, "32") == Returns("o‘ttiz ikki")
    ensures IntegerToWord(lex, "104") == Returns("bir yuz to‘rt")
    ensures IntegerToWord(lex, "1024") == Returns("bir ming yigirma to‘rt")
    ensures IntegerToWord(lex, "3456") == Returns("uch ming to‘rt yuz ellik olti")
  {
    Numerals.IntegerToWordExamples(lex);
  }

  lemma FloatToWordExamples(lex: Tables)
    requires HasExampleWords(lex)
    ensures FloatToWord(lex, "3.0") == Returns("uch butun o‘ndan nol")
    ensures FloatToWord(lex, "3.75") == Returns("uch butun yuzdan yetmish besh")
    ensures FloatToWord(lex, "3.754") == Returns("uch butun mingdan yetti yuz ellik to‘rt")
    ensures FloatToWord(lex, "3.7548") == Returns("uch butun o‘n mingdan yetti ming besh yuz qirq sakkiz")
  {
    FloatExampleTenths(lex);
    FloatExampleHundredths(lex);
    FloatExampleThousandths(lex);
    FloatExampleTenThousandths(lex);
  }
}
