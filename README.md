# korrektor: numerals, collation and protected spans in Dafny

korrektor is a text toolkit for Uzbek. This project models the parts of it
that are plain algorithms and proves what they promise. It models the two
copies of the library: the newer `src/` crate, which reports failures as
`KorrektorError` values, and the older `korrektor/` crate, which panics.

- **Numerals** (`numerals.dfy`, `numerals_legacy.dfy`, `validators.dfy`).
  `integer_to_word` speaks a run of at most 18 decimal digits as Uzbek words.
  `float_to_word` speaks `a.b` as the words of `a`, "butun", a prefix chosen
  by the digit count of `b`, and the words of `b`. The helpers are `base`,
  `one`, `hundred` and `get_fraction_prefix`, and the input guards are
  `is_valid_integer` and `is_valid_float`. The word tables `NUM_1_TO_19`,
  `TEEN`, `MULT` and `FLOAT_PREFIX` are a `Lexicon` parameter. Its subset
  type `Tables` states the shape the code indexes: 19 words, 8 words, a
  scale word for each power in {2, 3, 6, 9, 12, 15}, and 18 prefixes. The
  recursion is `Words`, with `Base`, `One` and `Hundred` beside it. The
  `while i < 27` search for the digit count is the method `FindExponent`.
  The older crate's panics are the `Panics` outcome of `Outcome`.
- **Alphabetic sorting** (`collation.dfy`, `collation_legacy.dfy`).
  `get_value` ranks a character: 55 for 'Ö', 56 for 'Ü', and otherwise its
  first index in the alphabet table `CHAR_ORDER`, which is a parameter
  `order`. `usort` compares two words by rank. It bounds the comparison by
  the UTF-8 byte length minus one but indexes by character. `sort_sortable`
  is an in-place bubble sort over an `array` of the whitespace-separated
  words, with a shrinking bound and a `sorted` flag. The older crate panics
  where the newer one reports `InvalidChar`.
- **Bubble sort** (`bubble_sort.dfy`). One pass of `sort_sortable`'s inner
  loop is the function `BubbleSort.Pass`, written once for any comparison
  that returns an `Outcome`. Its lemmas prove what a pass does and what the
  outer loop keeps. They hold for every comparison that is transitive and
  lets a swapped pair stand. `Collation.UsortLaws` proves that `usort` as
  written is such a comparison, even though it can tie distinct words. So
  both crates' `sort_sortable` return their words in order.
- **Protected spans** (`utils.dfy`, `text.dfy`). `unwrap_text` deletes every
  '〈' and '〉'. `wrap_matches` replaces each captured text with itself in
  brackets, and `replace_pairs` applies a table of substitutions in order.
  `text.dfy` holds the string functions of Rust's standard library that
  these use: `split_whitespace`, `trim` and `len` in bytes. `str::replace`
  is `KorrektorUtils.ReplaceAll` in `utils.dfy`.
- **As intended** (`numerals_intended.dfy`, `collation_intended.dfy`). These
  hold the corrected definitions for the defects listed under Findings.

## Model

| member | source | states |
|---|---|---|
| NumberHelper.EmptyIsNeither | korrektor/src/uzbek/number/helper.rs:1-11 | the empty string is neither a valid integer nor a valid float |
| NumberHelper.IsValidInteger | korrektor/src/uzbek/number/helper.rs:1-5 | `^(\d+)$`: an accepted text is non-empty, starts and ends with a digit, and has no '.' |
| NumberHelper.IsValidFloat | korrektor/src/uzbek/number/helper.rs:7-11 | `^(\d+\.\d+)$`: an accepted text has at least three characters and starts and ends with a digit |
| NumberHelper.FloatOfParts | korrektor/src/uzbek/number/helper.rs:7-11 | `a.b` is a valid float if and only if `a` and `b` are both valid integers |
| NumberHelper.FloatParts | korrektor/src/uzbek/number/helper.rs:7-11 | a valid float is its integer part, one '.', and its fraction part; both parts are valid integers, and splitting on '.' yields exactly those two pieces |
| NumberHelper.PartsOfFloat | korrektor/src/uzbek/number/helper.rs:7-11 | joining two valid integers with '.' makes a valid float whose split gives them back |
| NumberHelper.IntegerIsNotFloat | korrektor/src/uzbek/number/helper.rs:1-11 | no string is both a valid integer and a valid float |
| NumberHelper.IntegerConcat | korrektor/src/uzbek/number/helper.rs:1-5 | two digit runs concatenated are a valid integer; with a '.' between them they are not |
| Numerals.FindScale | src/uzbek/number/mod.rs:145-149 | the scale word found belongs to an entry with the requested power; nothing is found only when no entry has that power |
| Numerals.DecimalRoundTrip | src/uzbek/number/mod.rs:38 | parsing the decimal printing of `n` (`to_string` then `parse`) gives back `n` |
| Numerals.IntegerFitsI64 | src/uzbek/number/mod.rs:32-38 | a valid integer of at most 18 digits is below 10^18, inside the `i64` range, so the `parse().unwrap()` cannot fail |
| Numerals.FindExponent | src/uzbek/number/mod.rs:51-57 | the search loop stops at the digit count `i` of `n`: 10^(i-1) <= n < 10^i and i <= 18 whenever 1000 <= n < 10^18 |
| Numerals.ExponentIsDigitCount | src/uzbek/number/mod.rs:51-57 | for 1000 <= n < 10^18 the exponent the loop finds lies in 4..18, is the digit count of n, and every power it computes is below `i64::MAX` |
| Numerals.GroupPowerFacts | src/uzbek/number/mod.rs:58-62 | the power passed to `hundred` or `one` is in {3, 6, 9, 12, 15}, so the `MULT` lookup never panics, and n / 10^p is between 1 and 999 |
| Numerals.Words | src/uzbek/number/mod.rs:40-62 | the recursion of `integer_to_word` on the parsed value; its words are never empty, so the `!s.is_empty()` test of `one` always holds |
| Numerals.Base | src/uzbek/number/mod.rs:143-152 | `base(n, p)` is never empty; `OneShape` and `HundredShape` state its words: those of n / 10^p, a space, and the `MULT` word for p |
| Numerals.One | src/uzbek/number/mod.rs:154-163 | `one(n, p)` is never empty; `OneShape`, `OneOfHundreds` and `OneIsHundred` state its words |
| Numerals.Hundred | src/uzbek/number/mod.rs:165-172 | `hundred(n, p)` is never empty; `HundredShape` states its words |
| Numerals.WordsGroups | src/uzbek/number/mod.rs:51-62 | from 1000 on, a number is spoken as the words of its quotient by 10^p, the scale word, a separator that is empty exactly when the remainder is zero, and the words of the remainder |
| Numerals.OneShape | src/uzbek/number/mod.rs:154-163 | `one(n, p)` for p != 2 is `base(n, p)`, then "" when n % 10^p is zero and " " otherwise, then the words of n % 10^p |
| Numerals.HundredShape | src/uzbek/number/mod.rs:165-172 | `hundred(n, p)` is `base(n, p)`, then "" when n % 10^p is zero and " " otherwise, then the words of n % 10^p |
| Numerals.OneIsHundred | src/uzbek/number/mod.rs:154-172 | for every power other than 2, `one` and `hundred` give the same words |
| Numerals.OneOfHundreds | src/uzbek/number/mod.rs:154-163 | for a number below 1000, `one(n, 2)` always puts a space between `base(n, 2)` and the words of n % 100, even when those are "nol" |
| Numerals.IntegerToWord | src/uzbek/number/mod.rs:26-65 | succeeds if and only if the input is a non-empty digit run of at most 18 characters; otherwise it is `InvalidNumber(number, "Not a valid integer")`, or `InvalidNumber(number, "Integer should not contain more than 18 digits")` for a valid but longer input |
| Numerals.IntegerToWordOfDecimal | src/uzbek/number/mod.rs:38-62 | converting the printing of any n < 10^18 gives `Words(n)`, so every recursive call on `(number / 10^p).to_string()` or `y.to_string()` speaks that number |
| Numerals.IntegerToWordLeadingZero | src/uzbek/number/mod.rs:27-38 | a leading zero does not change the words, unless it pushes the input past 18 characters, which is then an error |
| Numerals.SmallExamples | src/uzbek/number/mod.rs:40-49 | 0 is "nol", 9 is `NUM_1_TO_19[8]`, and 20..99 is the tens word, a space and the units word (32, 56, 48, 75, 54, 24) |
| Numerals.BaseOneExamples | src/uzbek/number/mod.rs:185-193 | `base(532, 2)` is "besh yuz" and `one(532, 2)` is "besh yuz o‘ttiz ikki" |
| Numerals.HundredExample | src/uzbek/number/mod.rs:195-198 | `hundred(3456, 3)` is "uch ming to‘rt yuz ellik olti" |
| Numerals.IntegerToWordExamples | src/uzbek/number/mod.rs:200-208 | "0", "9", "32", "104", "1024" and "3456" are spoken as in the crate's tests |
| Numerals.FloatToWord | src/uzbek/number/mod.rs:83-107 | succeeds if and only if the input is a valid float whose integer and fraction parts each have at most 18 digits |
| Numerals.FloatToWordInvalid | src/uzbek/number/mod.rs:84-88 | an input that is not a valid float gives `InvalidNumber(number, "Not a valid floating-point number")` |
| Numerals.FloatToWordParts | src/uzbek/number/mod.rs:90-106 | for `a.b`: a fraction longer than 18 digits is reported first, naming `b`; then an integer part longer than 18, naming `a`; otherwise the result is words(a) + " butun " + `FLOAT_PREFIX[len(b) - 1]` + " " + words(b) |
| Numerals.FractionPrefix | src/uzbek/number/mod.rs:174-178 | `get_fraction_prefix` returns an entry of `FLOAT_PREFIX`; for a digit run it is the entry at its UTF-8 byte length (`number.len()`) minus one |
| Numerals.FloatExampleTenths | src/uzbek/number/mod.rs:212 | "3.0" is "uch butun o‘ndan nol" |
| Numerals.FloatExampleHundredths | src/uzbek/number/mod.rs:213 | "3.75" is "uch butun yuzdan yetmish besh" |
| Numerals.FloatExampleThousandths | src/uzbek/number/mod.rs:214 | "3.754" is "uch butun mingdan yetti yuz ellik to‘rt" |
| Numerals.FloatExampleTenThousandths | src/uzbek/number/mod.rs:215 | "3.7548" is "uch butun o‘n mingdan yetti ming besh yuz qirq sakkiz" |
| LegacyNumerals.IntegerToWord | korrektor/src/uzbek/number/mod.rs:27-65 | never reports an error; returns exactly when the newer crate succeeds, with the same words, and otherwise panics with "Not an integer: …" or "Invalid integer: … Overflow …" |
| LegacyNumerals.FloatToWord | korrektor/src/uzbek/number/mod.rs:83-103 | never reports an error; returns exactly when the newer crate succeeds, with the same words; an input that is not a valid float panics with "Invalid floating-point number: …", and other failures panic too |
| LegacyNumerals.FloatToWordPanics | korrektor/src/uzbek/number/mod.rs:88-97 | for `a.b` a too long fraction panics with "Invalid fraction: b. …" before a too long integer part panics with "Invalid integer: a. …" |
| LegacyNumerals.FractionPrefix | korrektor/src/uzbek/number/mod.rs:156-160 | the older crate's `get_fraction_prefix` chooses the same prefix as the newer one |
| LegacyNumerals.IntegerToWordExamples | korrektor/src/uzbek/number/mod.rs:182-190 | the older crate's integer test vectors |
| LegacyNumerals.FloatToWordExamples | korrektor/src/uzbek/number/mod.rs:192-198 | the older crate's fraction test vectors |
| IntendedNumerals.EndsWithZeroWord | src/uzbek/number/mod.rs:46-62 | every non-zero number whose last digit is 0, other than the teens, is spoken ending in "nol" |
| IntendedNumerals.ZeroRemainderExamples | src/uzbek/number/mod.rs:46-49 | 20 is "yigirma nol", 100 is "bir yuz nol" and 1000 is "bir mingnol" |
| IntendedNumerals.WordsScaleMultiple | src/uzbek/number/mod.rs:165-172 | n = q·10^p, for 1 <= q <= 999 and a scale power p >= 3, lies in 1000..10^18 and is spoken as words(q), " ", the scale word, and "nol" with no space before it |
| IntendedNumerals.IntendedScaleMultiple | src/uzbek/number/mod.rs:165-172 | the corrected reading of n = q·10^p is words(q), " ", and the scale word, with nothing after it |
| IntendedNumerals.IntendedAgreesBelowThousand | src/uzbek/number/mod.rs:40-50 | below 1000 the corrected reading equals the code's reading except for numbers with a spoken zero remainder |
| IntendedNumerals.IntendedIsReference | src/uzbek/number/mod.rs:40-62 | the corrected recursion equals an independent reading that speaks each non-zero group of three digits with its scale word, highest group first |
| IntendedNumerals.IntendedIntegerToWord | src/uzbek/number/mod.rs:26-65 | the corrected converter has the same checks and the same errors as `integer_to_word` |
| IntendedNumerals.IntendedIntegerToWordIsReference | src/uzbek/number/mod.rs:26-65 | for every valid input of at most 18 digits the corrected converter gives the group-by-group reading |
| IntendedNumerals.IntendedZeroRemainderExamples | src/uzbek/number/mod.rs:46-49 | corrected, 20 is "yigirma", 100 is "bir yuz" and 1000 is "bir ming" |
| Text.ByteLen | src/uzbek/alphabetic/mod.rs:48 | the UTF-8 length is at least the character count, equals it exactly for ASCII text, and is zero only for the empty string |
| Text.SplitJoinSpaces | src/uzbek/alphabetic/mod.rs:79 | splitting words joined by single spaces on whitespace gives back the words |
| Text.TrimSpaceTerminated | src/uzbek/alphabetic/mod.rs:97-103 | pushing each word and a space, then trimming, is the words joined by single spaces, with no leading or trailing space |
| Collation.ExceptionRanks | src/uzbek/alphabetic/mod.rs:106-137 | 'Ö' ranks 55 and 'Ü' 56 whatever the table, even when it lists them; every other character that ranks ranks below the table's length |
| Collation.IsExceptioned | src/uzbek/alphabetic/mod.rs:106-112 | `is_exceptioned`: every character it accepts takes two UTF-8 bytes, which is why "ÖÖ" reaches the panic of `usort` |
| Collation.ExceptionedValue | src/uzbek/alphabetic/mod.rs:114-123 | `get_exceptioned_value` is non-zero exactly for the two exceptions, and then 55 or 56 |
| Collation.Position | src/uzbek/alphabetic/mod.rs:129-132 | the first index whose entry is the character, or the table length when it is absent |
| Collation.GetValue | src/uzbek/alphabetic/mod.rs:125-137 | the two exceptions always rank; any other character ranks exactly when it is in the table, at its first index; otherwise the error is `InvalidChar(c)` |
| Collation.TableRankInjective | src/uzbek/alphabetic/mod.rs:129-135 | two table characters with the same rank are the same character |
| Collation.CompareFrom | src/uzbek/alphabetic/mod.rs:50-75 | the loop returns -1, 0 or 1; an error is an `InvalidChar` for a character of one of the two words that has no rank |
| Collation.Compare | src/uzbek/alphabetic/mod.rs:47-76 | `usort` returns -1, 0 or 1; an error is an `InvalidChar` for an unranked character of either word |
| Collation.USort | src/uzbek/alphabetic/mod.rs:47-76 | the loop with early returns gives exactly `Compare`, panics included |
| Collation.CompareAntisymmetric | src/uzbek/alphabetic/mod.rs:47-76 | swapping the words neither changes whether `usort` returns or fails, and negates what it returns |
| Collation.SamePrefixEqual | src/uzbek/alphabetic/mod.rs:50-75 | words of equal byte length whose compared characters agree and are ranked compare as 0 |
| Collation.TieByByteLength | src/uzbek/alphabetic/mod.rs:50-75 | when every compared position has equal ranks, the loop returns the sign of the difference of the byte lengths, whatever the characters |
| Collation.FirstDifferenceDecides | src/uzbek/alphabetic/mod.rs:50-68 | the first compared position whose ranks differ decides: -1 when the first word's rank is lower, 1 otherwise |
| Collation.CompareSelf | src/uzbek/alphabetic/mod.rs:48-58 | a ranked word compared with itself gives 0 when its byte length is at most its character count plus one, and otherwise panics for the missing character at index `len(chars)` |
| Collation.DoubleExceptionPanics | src/uzbek/alphabetic/mod.rs:48-57 | `usort("ÖÖ", "ÖÖ")` panics: there is no character at index 2 |
| Collation.LastCharIgnored | src/uzbek/alphabetic/mod.rs:48-50 | two ASCII words of the same length that differ only in their last character compare as 0 |
| Collation.USortExamples | src/uzbek/alphabetic/mod.rs:168-172 | "čiroyli" after "čilonzor", "čiroyli" equal to itself, "čilonzor" before "čiroyli", for any table that ranks 'l' below 'r' |
| Collation.CompareFromTransitive | src/uzbek/alphabetic/mod.rs:50-75 | the loops of three ranked words run in step: "not after" from the first to the second and from the second to the third gives "not after" from the first to the third, with no error or panic |
| Collation.CompareTransitive | src/uzbek/alphabetic/mod.rs:47-76 | `usort` as written is transitive on "not after" (a result of -1 or 0), even though it ties distinct words |
| Collation.UsortLaws | src/uzbek/alphabetic/mod.rs:47-94 | `usort` meets the two laws the bubble sort needs: it is transitive, and a pair it answers 1 for may stay in place once swapped |
| Collation.PassFailing | src/uzbek/alphabetic/mod.rs:86 | a pass that stops on an error (the `?`) stops on an `InvalidChar` for an unranked character found in one of the words below the bound |
| Collation.SortRound | src/uzbek/alphabetic/mod.rs:83-95 | one round of the outer loop keeps a permutation of the words, settles one more word at the top, ends with the words in order when nothing was swapped, and leaves words already in order as they are |
| Collation.BubblePass | src/uzbek/alphabetic/mod.rs:85-93 | the loop leaves the words beyond the bound unchanged and does exactly what `BubbleSort.Pass` describes for `usort`: the same new words and flag when it returns, the same error or panic otherwise |
| Collation.PushWords | src/uzbek/alphabetic/mod.rs:97-101 | the loop yields each word followed by one space |
| Collation.SortSortable | src/uzbek/alphabetic/mod.rs:78-104 | a returned result is a permutation of the whitespace-separated words, in order by `usort`, joined by single spaces; text already in order comes back as its words joined by spaces; an error is an `InvalidChar` for an unranked character of one of the words; text with no words panics on `len - 1` |
| Collation.Sort | src/uzbek/alphabetic/mod.rs:21-29 | a returned result is `from_sortable` of the sortable text's words, permuted and in order by `usort`; errors are unranked characters; no words panics; words already in order are kept as they are |
| LegacyCollation.GetValue | korrektor/src/uzbek/alphabetic/mod.rs:118-127 | never reports an error; returns the newer crate's rank when there is one and panics with "Error in usort: char … is not found …" otherwise |
| LegacyCollation.CompareFrom | korrektor/src/uzbek/alphabetic/mod.rs:49-74 | equals the newer loop with each `InvalidChar` turned into that panic |
| LegacyCollation.Compare | korrektor/src/uzbek/alphabetic/mod.rs:46-75 | equals the newer `usort` with each `InvalidChar` turned into a panic, and never reports an error |
| LegacyCollation.CompareAntisymmetric | korrektor/src/uzbek/alphabetic/mod.rs:46-75 | whenever `usort` returns, swapping the words negates the result |
| LegacyCollation.USort | korrektor/src/uzbek/alphabetic/mod.rs:46-75 | the loop gives exactly `Compare` |
| LegacyCollation.PassPanicsOnError | korrektor/src/uzbek/alphabetic/mod.rs:84-92 | a pass of the older sort is the newer crate's pass with its error, always an `InvalidChar`, turned into the "not found" panic |
| LegacyCollation.BubblePass | korrektor/src/uzbek/alphabetic/mod.rs:84-92 | the loop leaves the words beyond the bound unchanged, never reports an error, and does exactly what `BubbleSort.Pass` describes for the older `usort` |
| LegacyCollation.SortSortable | korrektor/src/uzbek/alphabetic/mod.rs:77-103 | a returned result is a permutation of the words, in order by `usort`, joined by single spaces; ordered text comes back as its words; no words panics on `len - 1`; nothing is reported as an error |
| LegacyCollation.Sort | korrektor/src/uzbek/alphabetic/mod.rs:20-44 | a returned result is the `FROM_SORT` rewriting of the words of the `TO_SORT` rewriting, permuted and in order by `usort`; nothing is reported as an error; words already in order are kept |
| BubbleSort.Pass | src/uzbek/alphabetic/mod.rs:85-93 | one pass of the inner loop: on a return the words keep their number, and a `sorted` flag still true means the flag was true before and the words are unchanged |
| BubbleSort.PassKeep | src/uzbek/alphabetic/mod.rs:86-92 | a pair the comparison does not answer 1 for stays in place and the pass goes on with the flag unchanged |
| BubbleSort.PassSwap | src/uzbek/alphabetic/mod.rs:86-90 | a pair the comparison answers 1 for is swapped, the flag cleared, and the pass goes on |
| BubbleSort.PassFrame | src/uzbek/alphabetic/mod.rs:85-93 | a pass that returns leaves the words beyond the bound alone and only permutes the words below it |
| BubbleSort.PassPermutes | src/uzbek/alphabetic/mod.rs:85-93 | after a pass the words are a permutation of the words before it |
| BubbleSort.PassFailing | src/uzbek/alphabetic/mod.rs:86 | a pass that reports an error reports one the comparison gave for two of the words below the bound |
| BubbleSort.PassPanicsOnInvalid | korrektor/src/uzbek/alphabetic/mod.rs:84-92 | a comparison that panics where another reports an unranked character makes each pass panic where the other pass reports that error, and agree otherwise |
| BubbleSort.PassMax | src/uzbek/alphabetic/mod.rs:85-93 | for a transitive comparison that lets a swapped pair stand, a pass that returns leaves at `len - 1` a word that no word below it belongs after |
| BubbleSort.PassOrdered | src/uzbek/alphabetic/mod.rs:85-93 | a pass over words in order below the bound swaps nothing and returns them with the flag unchanged |
| BubbleSort.PassOfSorted | src/uzbek/alphabetic/mod.rs:83-93 | the first pass over words already in order returns them unchanged with `sorted` still true |
| BubbleSort.PassUnswapped | src/uzbek/alphabetic/mod.rs:84-93 | a pass that ends with `sorted` true swapped nothing: the words are unchanged and in order below the bound |
| BubbleSort.PassSettles | src/uzbek/alphabetic/mod.rs:83-95 | a pass that returns keeps every word from `len - 1` on in order and in its final place, and when it swapped nothing the whole sequence is in order |
| BubbleSort.SortRound | src/uzbek/alphabetic/mod.rs:83-95 | one round of the outer loop keeps the permutation, lowers the bound with the words above it settled, ends with the words in order, and leaves sorted words alone |
| IntendedCollation.IntendedCompareFrom | src/uzbek/alphabetic/mod.rs:47-76 | the corrected comparison returns -1, 0 or 1, and its only error is an unranked character |
| IntendedCollation.IntendedReflexive | src/uzbek/alphabetic/mod.rs:168-172 | corrected, every ranked word compares equal to itself, Cyrillic words included |
| IntendedCollation.IntendedAntisymmetric | src/uzbek/alphabetic/mod.rs:47-76 | corrected, swapping the words negates the result |
| IntendedCollation.IntendedLastCharCounts | src/uzbek/alphabetic/mod.rs:48-50 | corrected, words that differ only in their last character are ordered by its rank |
| IntendedCollation.IntendedTie | src/uzbek/alphabetic/mod.rs:71-75 | corrected, a result of 0 means equal length and equal ranks at every position |
| IntendedCollation.IntendedTransitive | src/uzbek/alphabetic/mod.rs:47-76 | corrected, "not after" (a result of -1 or 0) is transitive over ranked words |
| KorrektorUtils.ReplaceAbsent | korrektor-utils/src/lib.rs:11-14 | a non-empty pattern that does not occur leaves the text unchanged |
| KorrektorUtils.ReplaceAll | korrektor-utils/src/lib.rs:40 | `str::replace`: replacing a pattern by itself changes nothing, and a non-empty pattern replaced by text of the same length keeps the length |
| KorrektorUtils.UnwrapText | korrektor-utils/src/lib.rs:48-52 | the output contains no '〈' or '〉' and is no longer than the input |
| KorrektorUtils.UnwrapAppend | korrektor-utils/src/lib.rs:48-52 | unwrapping distributes over concatenation |
| KorrektorUtils.UnwrapBracketFree | korrektor-utils/src/lib.rs:48-52 | text without brackets is left unchanged |
| KorrektorUtils.UnwrapKeepsOthers | korrektor-utils/src/lib.rs:48-52 | every character other than the brackets keeps its number of occurrences |
| KorrektorUtils.UnwrapIdempotent | korrektor-utils/src/lib.rs:48-52 | unwrapping twice is unwrapping once |
| KorrektorUtils.UnwrapNested | korrektor-utils/src/lib.rs:58-64 | a doubly bracketed span such as 〈〈nyan@mail.uz〉〉 unwraps to the span |
| KorrektorUtils.UnwrapWrapped | korrektor-utils/src/lib.rs:38-52 | a bracket-free capture wrapped once or twice unwraps to itself |
| KorrektorUtils.WrapOneRoundTrip | korrektor-utils/src/lib.rs:38-52 | replacing every occurrence of a capture by the bracketed capture, then unwrapping, gives the unwrapped original, for any capture including the empty one |
| KorrektorUtils.WrapAllRoundTrip | korrektor-utils/src/lib.rs:34-52 | unwrapping after wrapping any sequence of captures gives the unwrapped original |
| KorrektorUtils.WrapMatches | korrektor-utils/src/lib.rs:34-44 | the loop wraps the captures one after another, `unwrap_text` undoes it, and no captures leaves the text unchanged |
| KorrektorUtils.ApplyRulesConcat | korrektor-utils/src/lib.rs:8-17 | applying two tables one after the other is applying their concatenation |
| KorrektorUtils.ApplyRulesAbsent | korrektor-utils/src/lib.rs:8-17 | a table whose non-empty patterns all do not occur leaves the text unchanged |
| KorrektorUtils.RuleOrderMatters | korrektor-utils/src/lib.rs:11-14 | the pairs apply in table order: ["s"→"z", "sh"→"ş"] turns "sh" into "zh", the reverse order into "ş" |
| KorrektorUtils.ReplacePairs | korrektor-utils/src/lib.rs:8-17 | the loop applies each pair to the previous output in table order, and an empty table is the identity |


## Left out

- Regular expressions are not modelled. `replace_pairs` patterns are literal strings, replaced with `str::replace` semantics. `wrap_matches` takes its captures as a given sequence of strings. `wrap_regex` and the PCRE engine are not part of this model.
- KorrektorUtils.ReplacePairs: proved for literal patterns only; a regex pattern's matches, and a replacement's `$` group references, are not modelled.
- NumberHelper.IsValidInteger, NumberHelper.IsValidFloat: `\d` in Rust's `regex` crate matches every Unicode decimal digit, but the model accepts only ASCII '0'..'9'. `parse` into `i64` accepts only ASCII digits, so the code panics at `unwrap` on a non-ASCII digit. The model does not capture that panic.
- `numbers_to_word` and `all_numbers_to_word`, with `wrap_ips`, `wrap_phones`, `convert_floats` and `convert_integers`: they are regex-driven and their helpers are not part of this model.
- The transliterator, the corrector, the tokenizer constants, and `Display` for `KorrektorError` are not part of this model.
- The tables `NUM_1_TO_19`, `TEEN`, `MULT`, `FLOAT_PREFIX`, `CHAR_ORDER`, `TO_SORT` and `FROM_SORT` are not part of this model. The word tables are the `Tables` parameter, with the shape the code relies on. `CHAR_ORDER` is the `order` parameter. The test vectors are proved for every table that holds the words they use.
- Collation.Sort: `to_sortable` and `from_sortable` of the newer crate go through a PCRE `replace_pairs` that is not part of this model. They are function parameters, so the sorting scenario "G‘ozal estafeta chilonzor o'zbek chiroyli" is not proved.
- LegacyCollation.Sort: the scenario is not proved either, because `TO_SORT`, `FROM_SORT` and `CHAR_ORDER` are parameters.
- `usort` as written is not a total order: it can tie distinct words (Collation.LastCharIgnored) and can panic on equal ones (Collation.CompareSelf). The sorts are proved to return their words in order by `usort` (a result of -1 or 0 between neighbours), which is all its laws allow. That the sort is stable, keeping tied words in their input order, is not stated.
- The `len - 1` of `usort` and `sort_sortable` underflows on an empty word or an empty word list. This is modelled as the panic of a debug build ("attempt to subtract with overflow"). The wrap-around of a release build is not modelled.
- Numerals.Base, Numerals.One, Numerals.Hundred: their own contracts state only that the words are not empty. The words they give are stated by the lemmas OneShape, HundredShape, OneOfHundreds and OneIsHundred, because the three functions and `Words` are mutually recursive. A contract naming the others would need a termination measure that orders them differently.
- KorrektorUtils.UnwrapNested: the `unwrap_text` test vector is proved for the doubly bracketed shape it exercises, not for its literal text.
- I/O, allocation, and the distinction between `&str` and `String` are not modelled.

## Findings

| source | as written | input that shows it | evidently intended | confidence | as-written member | corrected member |
|---|---|---|---|---|---|---|
| src/uzbek/number/mod.rs:46-49 | a zero remainder is spoken by the recursive call, which returns "nol"; `hundred`, and `one` above the hundreds, leave out the separator before a zero remainder; `one` for the hundreds keeps the space (the same holds in korrektor/src/uzbek/number/mod.rs:45-47) | "20" gives "yigirma nol", "100" gives "bir yuz nol", "1000" gives "bir mingnol" | a zero remainder is not spoken: "yigirma", "bir yuz", "bir ming" | not executed | IntendedNumerals.ZeroRemainderExamples | IntendedNumerals.IntendedIntegerToWordIsReference |
| src/uzbek/alphabetic/mod.rs:48-57 | the loop bound is the UTF-8 byte length minus one, but characters are fetched by index with `chars().nth`, which panics past the last character (the same holds in korrektor/src/uzbek/alphabetic/mod.rs:47-56) | `usort("ÖÖ", "ÖÖ")` panics: there is no character at index 2 | compare character by character up to the shorter character count | not executed | Collation.DoubleExceptionPanics | IntendedCollation.IntendedReflexive |
| src/uzbek/alphabetic/mod.rs:48-50 | the last character of the shorter word is never compared, because the bound is `len - 1` | `usort("ab", "ac")` is 0 | "ab" sorts before "ac" whenever 'b' ranks below 'c' | not executed | Collation.LastCharIgnored | IntendedCollation.IntendedLastCharCounts |
