# Gradient descent practice page — the computational core in Dafny

The page (`main.js`) shows practice questions about one step of gradient
descent on a surface f(x, y). Each question carries a gradient function, a
learning rate alpha and a starting point (x0, y0). Revealing the answer
evaluates the gradient at the start and moves one step against it. Every
value of a question and of its step is displayed through the formatter
`fmt`; the question number is not. On load the page
shuffles the catalog of nine questions and shows ten of them.

This project models the parts of that script that compute something:

- `decimal.dfy`, module `Decimal`: decimal digit strings and the values
  they denote. These are the pieces `toFixed` writes digits with.
- `format.dfy`, module `Format`: `fmt`.
  - `Math.round(n * 10000) / 10000`, then `toFixed(4)`, then the two
    regular-expression replacements `\.0+$` -> `""` and
    `(\.[0-9]*?)0+$` -> `"$1"`.
  - A reader's parse of the rendered string, as the inverse that `fmt` is
    proved against.
- `format_examples.dfy`, module `FormatExamples`: `fmt` evaluated on the
  numbers the catalog makes the page display.
- `step.dfy`, module `Step`: the question record and `computeStep`.
- `selection.dfy`, module `Selection`: `shuffled` and the choice of the ten
  questions shown.
  - `shuffled` tags each item with a random key, stable-sorts by key and
    drops the keys.
  - The choice takes the first ten of one shuffled pass, or of two passes
    laid end to end when the catalog is smaller than ten.
- `catalog.dfy`, module `Catalog`: the nine questions of `QUESTIONS`,
  `chooseQuestion`, and what the catalog's data make true.

What is proved, in short:

- `toFixed(4)` writes the sign, the integer digits without superfluous
  leading zeros, the point and four digits, and reads back as the value.
- `fmt` is exactly "the rounded value to four decimals without trailing
  fraction zeros".
- The string `fmt` writes reads back as the rounded value.
- `fmt` writes a point exactly when that value is not whole.
- `fmt` never ends in a point or, after a point, in a zero.
- Applying the trim again changes nothing.
- One step moves each coordinate against its gradient component, and
  stays put exactly where the gradient vanishes.
- `shuffled` returns a permutation, in the order of the keys drawn for the
  items.
- The selection has the length the code gives it and draws only catalog
  entries. With the nine shipped questions, every question is shown once
  or twice, and at least one of them twice.

Numbers are exact reals: an IEEE-754 double computation that rounds is not
modelled.

The function the page runs on load, `renderTenQuestions` (main.js:169,
called from `init`, main.js:180-184), promises ten questions by its name. The code keeps that promise only for catalogs of at least five entries:

- It concatenates only two shuffled passes, so a catalog of n < 10 entries
  gives `min(10, 2n)` items.
- The model follows the code. See `Selection.Select` and
  `Selection.SelectTiny`. With the nine shipped questions, 2n = 18, so the
  page does show ten.

## Model

| member | source | states |
|---|---|---|
| Decimal.DigitsValueOfDecimalDigits | main.js:10 | the decimal digits toFixed writes for a whole number denote that number |
| Format.RoundHalfUp | main.js:10 | Math.round gives the integer k with k - 1/2 <= x < k + 1/2, so a half rounds toward +infinity |
| Format.PaddedDigits | main.js:10 | toFixed's digit string for the scaled magnitude has at least five digits, all decimal, and denotes that magnitude; padding stops at five, so a longer string has no leading zero |
| Format.ToFixed4Parts | main.js:10 | IntDigits and FracDigits, the two digit groups toFixed(4) writes: at least one integer digit with no superfluous leading zero and exactly four fraction digits, denoting the quotient and the remainder of the magnitude by 10000 |
| Format.ToFixed4Sign | main.js:10 | Sign, as toFixed(4) writes it: the string starts with "-" exactly when the value is negative |
| Format.ToFixed4ReadsBack | main.js:10 | ToFixed4, the whole toFixed(4) string: read back it denotes exactly k / 10000, and its point is followed by four digits |
| Format.WholeIffZeroFraction | main.js:10 | the four fraction digits of toFixed(4) are all zeros exactly when the rounded value is a whole number |
| Format.StripDotZeros | main.js:11 | the first replacement `\.0+$` -> "" only removes an end of its input |
| Format.StripDotZerosIsReplace | main.js:11 | StripDotZeros is the first replacement: it keeps the text before a match of `\.0+$` and leaves a string with no match unchanged |
| Format.FracZerosMatches | main.js:11 | `(\.[0-9]*?)0+$` can match only at the last point, when only digits follow it and the string ends in a zero, and the match covers at least the trailing zeros |
| Format.StripFractionZeros | main.js:11 | the second replacement `(\.[0-9]*?)0+$` -> "$1" only removes an end of its input |
| Format.StripFractionZerosIsReplace | main.js:11 | StripFractionZeros is the second replacement: it keeps the text before the match followed by the lazy group with the fewest digits, and leaves a string with no match unchanged |
| Format.Trim | main.js:11 | the two replacements in the source's order only remove an end of their input |
| Format.TrimPointDigits | main.js:11 | Trim, on "sign and integer digits . fraction digits" the two replacements drop an all-zero fraction with its point, and otherwise drop only the fraction's trailing zeros |
| Format.FmtCases | main.js:8-12 | Fmt, fmt of the rounded value k / 10000, equals the direct description: sign and integer digits of toFixed(4), then, unless the fraction is all zeros, the point and the fraction up to its last nonzero digit |
| Format.FmtPrefixOfFixed | main.js:8-12 | fmt's result is a prefix of the toFixed(4) string that keeps the sign and every integer digit |
| Format.FmtNoTrailingPoint | main.js:8-12 | fmt's result is nonempty and never ends in a point |
| Format.FmtEndsInNonzeroDigit | main.js:8-12 | when fmt writes a point, its last character is a digit 1-9 |
| Format.FmtPointIffFraction | main.js:8-12 | fmt writes a point exactly when the rounded value is not whole, and then one to four digits follow the point |
| Format.FmtIdempotent | main.js:11 | applying the two replacements to fmt's result again changes nothing |
| Format.FmtReadsBack | main.js:8-12 | read back, the string fmt writes for k / 10000 denotes exactly k / 10000 |
| Format.FmtRealReadsBack | main.js:8-12 | FmtReal, fmt of any number n: FmtReal(n) reads back as the multiple of 10^-4 nearest to n, within 0.00005 of n |
| FormatExamples.FmtThree | main.js:8-12 | fmt(3) is "3" |
| FormatExamples.FmtMinusFour | main.js:8-12 | fmt(-4) is "-4" |
| FormatExamples.FmtTen | main.js:8-12 | fmt(10) is "10" |
| FormatExamples.FmtOneTenth | main.js:8-12 | fmt(0.1) is "0.1" |
| FormatExamples.FmtTwoThirds | main.js:8-12 | fmt(2/3) is "0.6667", rounded at the fourth decimal |
| FormatExamples.FmtTwoPointFour | main.js:8-12 | fmt(2.4) is "2.4" |
| FormatExamples.FmtMinusThreePointTwo | main.js:8-12 | fmt(-3.2) is "-3.2" |
| FormatExamples.FmtEightHundredths | main.js:8-12 | fmt(0.08) is "0.08", keeping the zero after the point |
| FormatExamples.FmtMinusTwoTenths | main.js:8-12 | fmt(-0.2) is "-0.2", the sign before the integer part's zero |
| FormatExamples.FmtOne | main.js:8-12 | fmt(1) is "1" |
| Step.ComputeStep | main.js:147-152 | the returned gradient is the question's gradient function at (x0, y0), and the new point plus alpha times the gradient gives back (x0, y0) |
| Step.StepMovesAgainstGradient | main.js:149-150 | with alpha > 0 each coordinate decreases where its gradient component is positive, increases where it is negative and stays where it is zero |
| Step.StepFixedPoint | main.js:149-150 | with alpha nonzero the step stays at (x0, y0) exactly when both gradient components are zero |
| Selection.Tag | main.js:167 | the first map: item i is paired with the key drawn for it, keys[i], and dropping the keys gives the items back in order |
| Selection.Values | main.js:167 | the last map: the i-th result is the value of the i-th tagged item |
| Selection.InsertByKeySorted | main.js:167 | InsertByKey, inserting before the first item with a key no smaller, keeps a key-sorted sequence sorted |
| Selection.InsertByKeyPermutes | main.js:167 | InsertByKey adds exactly the new item's value and keeps every other value |
| Selection.InsertByKeyPermutesTagged | main.js:167 | InsertByKey adds exactly the new tagged item, key included, and keeps every other tagged item |
| Selection.SortByKey | main.js:167 | the sort by key returns the tagged items in nondecreasing key order, as a permutation of the tagged items, so each value keeps its key |
| Selection.ShuffledIsPermutation | main.js:167 | Shuffled, the model of shuffled, returns the same items, each as often as in its input, for any keys drawn |
| Selection.ShuffledFollowsKeys | main.js:167 | Shuffled lists the items in the order of their keys: its result is the values of a key-sorted rearrangement of the items paired with the keys drawn for them |
| Selection.Take | main.js:173 | slice(0, n) is a prefix of length min(n, length) |
| Selection.Select | main.js:172-173 | the selection has 10 items when the catalog has at least ten, and min(10, 2n) otherwise |
| Selection.SelectLarge | main.js:172-173 | with at least ten catalog entries, the ten selected repeat no entry more often than the catalog holds it |
| Selection.SelectSmall | main.js:172-173 | with fewer than ten entries, every entry is selected at least as often as the catalog holds it and at most twice as often |
| Selection.SelectTiny | main.js:172-173 | with fewer than five entries, both passes are shown whole: 2n items, each entry twice as often |
| Selection.SelectFromCatalog | main.js:172-173 | every selected item is a catalog entry |
| Selection.SelectLargeDistinct | main.js:172-173 | ten selected from at least ten distinct entries are distinct |
| Selection.SelectSmallCounts | main.js:172-173 | from fewer than ten distinct entries, each entry is selected once or twice |
| Selection.SelectSmallRepeats | main.js:172-173 | from five to nine distinct entries, some entry is selected twice |
| Catalog.Questions | main.js:16-103 | the catalog holds nine questions, each with a positive learning rate |
| Catalog.RevealedAnswers | main.js:16-103 | the gradient and the point one step on that each of the nine questions reveals |
| Catalog.EveryStepMovesAgainstGradient | main.js:16-103 | for every catalog question, each coordinate of the step moves against its gradient component |
| Catalog.QuestionsDistinct | main.js:16-103 | no two catalog questions are the same |
| Catalog.AnswersDisplayed | main.js:135-140 | the first question's answer is displayed as (2.4, -3.2), the second's as (-0.2, 1), and the seventh's x1 as 0.08 |
| Catalog.ChooseQuestion | main.js:105-108 | the index drawn is floor(u * 9) for the random u in [0, 1), so it is below 9, and the question returned is the one at that index |
| Catalog.EveryQuestionChoosable | main.js:105-108 | every index 0-8 is drawn for some random number |
| Catalog.Shown | main.js:172-173 | the page shows ten questions |
| Catalog.ShownCounts | main.js:172-173 | with the nine shipped questions, every question is shown once or twice, and at least one of them twice |

## Left out

- DOM work is not modelled: the `$` helper, `colVec`, `renderQuestionCard`, `renderAnswer`, `init` and the event listener (main.js:7, 110-145, 154-165, 174-184). They only build HTML from the values modelled here.
- Math.random is a parameter. The shuffle keys are any sequence of reals, one per item, and `chooseQuestion`'s draw is any u in [0, 1).
- Math.cos and Math.sin, called by the sinusoidal question's gradient, are parameters of the catalog.
- Format.FmtReal: NaN and the infinities are not modelled. For them toFixed returns the number's ToString, so fmt writes "NaN", "Infinity" or "-Infinity"; the model's reals have no such values.
- Format.RoundHalfUp, Format.FmtReal: numbers are exact reals, so the IEEE-754 rounding of `n * 10000`, of the division by 10000 and of the step arithmetic is not modelled. toFixed is applied to the exact value k / 10000.
- Format.FmtReal: toFixed switches to exponent notation for magnitudes of 10^21 and more; the model always writes positional digits.
- Format.Sign: the model has no negative zero, so toFixed's output for -0 is not a separate case. toFixed writes no sign for -0 either, so the output is the same.
- Step.StepMovesAgainstGradient: descent is stated per coordinate, as the sign of the movement. That f decreases is not stated, because f is only a display string in the source.
- Catalog.Questions: nothing ties a question's display strings (fStr, gxStr, gyStr) to its gradient function. They are independent data in the source.
- Selection.SortByKey: its contract states key order and that the tagged items are permuted, not stability. Stability (items with equal keys keep their input order) comes from the insertion order of the definition itself, which is the ECMAScript sort's stable behaviour.
- Catalog.Shown: questions are compared as values (their start points differ), not by object identity as in the source.
