# Arabic amount rendering (new-lira `src/utils.ts`), modelled in Dafny

The new-lira calculator shows amounts in two Arabic forms. This project models
and proves the part of `src/utils.ts` that produces them:

- `toIndicDigits` rewrites every Western digit `0`-`9` in a string as the
  Eastern Arabic-Indic digit of the same value (`٠`-`٩`). Every other
  character is kept.
- `numberToArabicText` spells out a whole amount in Arabic words ("tafqeet").
  It walks a fixed scale table from the largest row to the smallest:
  trillion, billion, million, thousand, unit. Each row whose count is
  positive contributes one part, and parts are separated by the conjunction
  `" و"`. A count is spelled by `convertGroup` from four word tables (ones,
  tens, teens, hundreds). The scale word depends on the count:
  - 1 takes the singular alone;
  - 2 takes the dual alone;
  - 3-10 take the count in words and the plural;
  - 11 and up take the count in words and the singular.

Modules:

- `IndicDigits` (`indic_digits.dfy`) holds the digit transcoder.
  - Its partner is an inverse reading, `FromIndicDigits`.
  - The round trip is proved for text that has no Eastern digits.
- `Tafqeet` (`tafqeet.dfy`) holds the word tables and `ConvertGroup`.
  - `ConvertGroup` is checked against a non-recursive digit-by-digit reading, `GroupWords`.
  - The scale table is `Parts`.
  - The amount's decomposition into groups is `Decompose`. It is proved to sum back to the amount and to produce exactly the non-zero base-1000 digits, in descending order.
  - `Render` joins the group texts, and `ArabicText` is the loop-free specification of the output.
  - The loop itself is the method `NumberToArabicText`. It is proved equal to `ArabicText` with loop invariants.
- `Arith` (`arith.dfy`) holds the division and remainder facts the proofs need.

The source works on JavaScript numbers. The model takes a natural number below
10^15, which is the range the scale table can spell (see "Left out").

## Model

| member | source | states |
|---|---|---|
| IndicDigits.IsAsciiDigit | src/utils.ts:3 | a character matches the pattern `\d` exactly when it is one of the ten characters "0123456789" |
| IndicDigits.DigitValue | src/utils.ts:3 | the value `parseInt` reads from an ASCII digit is below 10 and is the digit's position in "0123456789" |
| IndicDigits.TranscodeChar | src/utils.ts:3 | an ASCII digit becomes an Eastern digit whose code point minus U+0660 is the digit's value; any other character is returned unchanged |
| IndicDigits.ToIndicDigits | src/utils.ts:2-4 | the output has the input's length; position i holds the glyph for the digit at i, or the input character when it is not an ASCII digit |
| IndicDigits.NoAsciiDigitsRemain | src/utils.ts:2-4 | no ASCII digit is left anywhere in the output |
| IndicDigits.Idempotent | src/utils.ts:2-4 | applying the transcoding twice gives the same text as applying it once |
| IndicDigits.RoundTrip | src/utils.ts:2-4 | for text without Eastern digits, reading the output back with the inverse mapping recovers the input exactly |
| IndicDigits.Concat | src/utils.ts:2-4 | the transcoding of a concatenation is the concatenation of the transcodings (the replace is global and per character) |
| IndicDigits.Examples | src/utils.ts:2-4 | "" maps to "", and "12,345" maps to "١٢,٣٤٥" with the comma kept |
| Tafqeet.TablesAreWords | src/utils.ts:7-10 | the four tables have 10 entries each; index 0 of ones, tens and hundreds is empty; every other entry, and every teen, is a phrase with no space at either end |
| Tafqeet.ConvertGroup | src/utils.ts:12-24 | a count below 1000 has empty words exactly when it is 0 |
| Tafqeet.ConvertGroupIsWord | src/utils.ts:12-24 | every count 1..999 has non-empty words with no leading or trailing space; the proof follows the recursive call for the remainder below 100 |
| Tafqeet.TwoDigitsByDigits | src/utils.ts:13-19 | below 100, convertGroup agrees with the reading from the tens and units digits: units alone, a teen, a tens word alone, or units, conjunction, tens |
| Tafqeet.ConvertGroupByDigits | src/utils.ts:12-24 | for every count below 1000, convertGroup agrees with the digit-by-digit reading: hundreds word, then the conjunction and the two-digit reading when those digits are not both 0 |
| Tafqeet.ConvertGroupExample | src/utils.ts:21-23 | 234 reads hundreds word, conjunction, units word, conjunction, tens word |
| Tafqeet.PartsWellFormed | src/utils.ts:32-38 | the table has five rows whose values are successive powers of 1000 ending at 1; every row but the unit row has three non-empty labels |
| Tafqeet.GroupText | src/utils.ts:51-62 | the text of one group, with the label chosen by the count, is a non-empty phrase with no space at either end |
| Tafqeet.Decompose | src/utils.ts:43-48 | the peel-off loop's groups, one pass over the rows: at most one group per row |
| Tafqeet.DecomposeMembers | src/utils.ts:43-48 | every emitted group comes from a table row and has a positive count, so rows whose count is 0 are skipped |
| Tafqeet.DecomposeTotal | src/utils.ts:43-48 | the sum of count * value over the emitted groups equals the amount |
| Tafqeet.DecomposeCounts | src/utils.ts:43-48 | below 1000 of the largest row, every count is in 1..999 |
| Tafqeet.DecomposeDescending | src/utils.ts:43-48 | groups are emitted in strictly descending magnitude |
| Tafqeet.DecomposeCountsAreDigits | src/utils.ts:43-48 | every group's count is the base-1000 digit of the amount at that row |
| Tafqeet.DecomposeCoversDigits | src/utils.ts:43-48 | every row at which the amount has a non-zero base-1000 digit yields a group with that count; with the lemma above, a row is skipped exactly when its digit is 0 |
| Tafqeet.DecomposeSkip | src/utils.ts:45 | a row worth more than what remains is skipped and leaves the amount unchanged |
| Tafqeet.DecomposeTake | src/utils.ts:45-47 | a row worth at most what remains yields its count and leaves the remainder |
| Tafqeet.DecomposeZero | src/utils.ts:43-48 | the amount 0 yields no group |
| Tafqeet.DecomposeSingle | src/utils.ts:43-48 | a count of one row alone yields exactly that one group |
| Tafqeet.DecomposeAppendUnits | src/utils.ts:43-48 | adding 1..999 units to a multiple of 1000 appends exactly the unit group after the groups of the multiple |
| Tafqeet.Render | src/utils.ts:49 | joining no groups gives the empty text and only then; otherwise the text does not start or end with a space, so there is no leading conjunction |
| Tafqeet.RenderAppend | src/utils.ts:49 | appending a group adds the conjunction before it unless it is the first |
| Tafqeet.ArabicText | src/utils.ts:26-68 | the text for any amount below 10^15 is non-empty and has no leading or trailing space |
| Tafqeet.ArabicTextOfPositive | src/utils.ts:40-67 | for a positive amount, the text is the rendering of its decomposition, and every group in it is valid |
| Tafqeet.LabelForms | src/utils.ts:49-62 | an amount made of one row alone reads: unit row, the count in words; count 1, the singular alone; 2, the dual alone; 3..10, count and plural; 11 and up, count and singular |
| Tafqeet.UnitsFollowWithConjunction | src/utils.ts:49-52 | for a positive multiple x of 1000 and u in 1..999, the text of x + u is the text of x, the conjunction, and the words for u |
| Tafqeet.ZeroExample | src/utils.ts:27 | 0 reads "صفر" |
| Tafqeet.ThousandExample | src/utils.ts:54-55 | 1000 reads "ألف" |
| Tafqeet.TwoThousandExample | src/utils.ts:56-57 | 2000 reads "ألفان" |
| Tafqeet.FiveThousandExample | src/utils.ts:58-59 | 5000 reads "خمسة آلاف" |
| Tafqeet.FiftyThousandExample | src/utils.ts:60-61 | 50000 reads "خمسون ألف" |
| Tafqeet.MixedExample | src/utils.ts:43-67 | 1234 reads "ألف ومئتان وأربعة وثلاثون" |
| Tafqeet.AppendPart | src/utils.ts:49-62 | one turn of the loop's output adds the conjunction when text has been written, then the count's words with the label the count selects |
| Tafqeet.NumberToArabicText | src/utils.ts:26-68 | the loop over the scale table returns exactly the loop-free text of the amount; the invariants tie the text written so far to the groups emitted so far and to the decomposition of what remains |

## Left out

- `src/App.tsx` is not part of this model. That covers the React state and rendering, the clipboard and share calls, and user-agent sniffing.
- The amount input formatting is left out. It relies on `Intl.NumberFormat` and `BigInt` library calls.
- The denomination breakdown and price conversion in `src/App.tsx` are left out. They are floating-point arithmetic on IEEE doubles.
- Tafqeet.NumberToArabicText: amounts of 10^15 and above are excluded by a precondition.
  - From there on the trillion count has four digits.
  - `convertGroup` then indexes the hundreds table past its end (src/utils.ts:21-23), and JavaScript produces the text "undefined".
- Tafqeet.NumberToArabicText: negative and fractional JavaScript numbers are not modelled. The parameter is a natural number, as the amounts from the calculator are.
  - For a negative number the source returns the empty string.
  - A fractional part is dropped by the unit row's floor, and an amount between 0 and 1 reads as the empty string.
- IndicDigits.ToIndicDigits: strings are sequences of code points, not UTF-16 code units. All digits involved lie in the Basic Multilingual Plane, where the two agree.
- The grammar of the Arabic is not judged. The "11 and up" branch uses the singular label, as the code does.
