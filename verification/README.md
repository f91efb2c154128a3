# Arithmetic coding, modelled in Dafny

This project models the arithmetic-coding engine of `arithmetic.py` (lines
17-78) and proves what it promises. The engine works in four stages:

1. **Frequency model.** It counts every character of the input, lists the
   distinct characters in ascending order with their counts, and turns each
   count into the exact fraction count / length.
2. **Partition of [0, 1].** It walks that list with a running cumulative
   bound and gives each character a sub-interval as wide as its probability.
3. **Interval narrowing.** It starts from [0, 1) and, for each input
   character with sub-interval [a, b], maps the working interval [lo, hi)
   onto [lo + a·w, lo + b·w) with w = hi - lo. It yields every
   intermediate interval; the last one identifies the whole string.
4. **Binary code search.** It greedily builds bits 0.b1b2… at weights
   2^-1, 2^-2, …. A bit is 1 when adding its weight keeps the sum strictly
   below the upper bound. The search stops as soon as the sum lies in the
   half-open interval.

Rationals are Dafny `real` values, which are exact. Characters are `char`
and strings are `string`.

The modules follow the stages:
- `Types`: `Span` intervals, the per-symbol `Assignment` and `Table`, and the `Error`, `Result` and `Option` outcomes.
- `FrequencyModel`: stage 1.
- `IntervalPartition`: stage 2.
- `IntervalNarrowing`: stage 3.
- `BinaryEncoder`: stage 4.
- `Scenarios`: worked examples on small inputs.
- `Arith`: one-step facts about real products.

Each loop of the source is a method proved against a specification
function:
- `CharOccurrences` against `Occurrences`;
- `GetCharIntervals` and `LayOut` against `PartitionOf` and `Assign`;
- `NarrowAll`, `CalculateIntervals` and `CalculateInterval` against `Narrowings` and `Final`;
- `Encode` against `Value`, `Greedy` and `NoneShorter`.

Lemmas then prove the laws of those functions.

Edge cases, as the code handles them:
- **Empty input.** `char_probabilities("")` returns an empty list. The empty string then fails at `arithmetic.py:34`, where `get_char_intervals` reads the first entry of that list. This is `Err(EmptyInput)`.
- **Half-open interval in the encoder.** The interval handed to `encode` is the half-open one built at line 63, so `contains` at line 70 rejects a value equal to the upper bound. `Encode` uses `HalfOpenContains`.
- **Empty table.** `if not char_intervals` also rebuilds the partition when the given table is an empty dictionary. `TableFor` covers both the missing and the empty table.
- **Empty string with a table.** `calculate_interval` on the empty string with a table fails because `last` is never bound. This is `Err(NoInterval)`.

## Model

| member | source | states |
|---|---|---|
| FrequencyModel.Count | arithmetic.py:20-24 | the count of a character is at most the length of the string, and is positive exactly when the character occurs |
| FrequencyModel.InsertSorted | arithmetic.py:25 | adding a character to an ascending repeat-free list keeps it ascending and repeat-free, and its elements are the old ones plus that character |
| FrequencyModel.SortedSymbols | arithmetic.py:25 | the distinct characters of a string, strictly ascending, containing exactly the characters of the string |
| FrequencyModel.Occurrences | arithmetic.py:17-25 | the occurrence list has strictly ascending (so distinct) characters, exactly those of the string, each with a positive count equal to its occurrences; it is empty exactly for the empty string |
| FrequencyModel.CharOccurrences | arithmetic.py:17-25 | the dictionary-counting loop followed by sorting yields sorted distinct characters, exactly those of the string, each with its true count, and equals the occurrence list |
| FrequencyModel.SortedUnique | arithmetic.py:25 | two strictly ascending lists with the same elements are equal, so the sorted key list is unique |
| FrequencyModel.OccurrencesTotal | arithmetic.py:17-25 | the counts of the occurrence list add up to the length of the string |
| FrequencyModel.CountAtMostOnce | arithmetic.py:19-25 | in a list without repeats, a character occurs once or not at all |
| FrequencyModel.TallyAppend | arithmetic.py:20-24 | counting one more character raises the tally of the listed characters by its number of occurrences among them |
| FrequencyModel.TallyTotal | arithmetic.py:19-25 | tallying against a repeat-free list holding every character of the string accounts for each character exactly once |
| FrequencyModel.Cumulative | arithmetic.py:38-40 | reference definition of the running bound `current_interval[0]` after k steps: the sum of the first k probabilities |
| FrequencyModel.Fraction | arithmetic.py:29 | the exact fraction count / n: times n it gives back the count, it is positive for a positive count and at most 1 when the count is at most n |
| FrequencyModel.CharProbabilities | arithmetic.py:27-29 | keeps the order and characters of the occurrence list and gives each the fraction count / length, strictly between 0 and at most 1 |
| FrequencyModel.CumulativeOfFractions | arithmetic.py:29 | the running sum of such fractions is the fraction of the running sum of counts |
| FrequencyModel.CumulativeOfProbabilities | arithmetic.py:27-29 | the first k probabilities add up to the first k counts over the length |
| FrequencyModel.ProbabilitiesSumToOne | arithmetic.py:27-29 | for a non-empty string the probabilities add up to exactly 1 |
| IntervalPartition.Entry | arithmetic.py:36-40 | the i-th entry has the i-th probability as its P and as its width, and starts at the sum of the probabilities before it |
| IntervalPartition.Assign | arithmetic.py:36-40 | reference definition of the `intervals` dictionary after k loop steps: the first k entries stored in order, each overriding any earlier entry for its character |
| IntervalPartition.AssignKeys | arithmetic.py:36-39 | after k steps the dictionary holds exactly the first k characters |
| IntervalPartition.PartitionOf | arithmetic.py:31-42 | the partition is an error (`EmptyInput`) exactly for the empty string, and otherwise has exactly the characters of the string as keys |
| IntervalPartition.GetCharIntervals | arithmetic.py:31-42 | the method builds exactly the partition of the string, and fails exactly for the empty string (the first-entry read at line 34) |
| IntervalPartition.LayOut | arithmetic.py:33-40 | the loop with the running bounds stores, for every character, its probability and the interval between the cumulative sums before and after it |
| IntervalPartition.AssignAt | arithmetic.py:39 | since the characters are distinct, a later step never overwrites an earlier entry |
| IntervalPartition.CumulativeClimbs | arithmetic.py:38-40 | with positive probabilities the running bound strictly increases from 0 up to the total |
| IntervalPartition.AssignEntries | arithmetic.py:36-40 | every character keeps its own entry, a non-empty part of [0, 1] |
| IntervalPartition.AssignLayout | arithmetic.py:34-40 | over distinct characters with positive probabilities summing to 1, the first interval starts at 0, each later one starts where the previous ends, the last ends at 1, and every entry is a non-empty part of [0, 1] as wide as its P |
| IntervalPartition.PartitionLayout | arithmetic.py:31-42 | the same layout laws for the partition of every non-empty string, entry by entry in ascending character order |
| IntervalPartition.SingleSymbolPartition | arithmetic.py:31-42 | a string over one character gives that character probability 1 and the whole interval [0, 1] |
| IntervalNarrowing.TableFor | arithmetic.py:46-47 | without a table the string's own partition is used; a table in use is never empty |
| IntervalNarrowing.Step | arithmetic.py:59-62 | reference definition of one narrowing step: [lo, hi) becomes [lo + a·w, lo + b·w) for the character's sub-interval [a, b] and w = hi - lo |
| IntervalNarrowing.Final | arithmetic.py:57-62 | reference definition of the working interval after reading a string: [0, 1) followed by one `Step` per character, in input order |
| IntervalNarrowing.StepNarrows | arithmetic.py:59-62 | onto an entry as wide as its P: a step onto a non-empty sub-interval of [0, 1] lands inside the working interval, keeps it non-empty and scales its width by the probability |
| IntervalNarrowing.WidthStep | arithmetic.py:59-62 | onto an entry as wide as its P: a step multiplies the width by that P |
| IntervalNarrowing.FinalNonEmpty | arithmetic.py:57-62 | over a valid table the working interval is always a non-empty part of [0, 1] |
| IntervalNarrowing.FinalWidth | arithmetic.py:57-62 | over a valid table (every entry a non-empty part of [0, 1] as wide as its P): the width of the working interval is the product of the probabilities of the characters read |
| IntervalNarrowing.FinalInUnit | arithmetic.py:57-62 | over a valid table: the working interval is a non-empty part of [0, 1] and its width is the product of the probabilities read; a caller table whose P differs from its width keeps neither promise for the width |
| IntervalNarrowing.StepWithin | arithmetic.py:59-62 | a step onto any sub-interval [a, b] with 0 <= a <= b <= 1, empty ones included, lands inside the working interval and keeps its bounds in order; `P` plays no part |
| IntervalNarrowing.FinalOrdered | arithmetic.py:57-62 | over any table whose entries lie in [0, 1], every working interval lies in [0, 1] with its bounds in order |
| IntervalNarrowing.NarrowingNests | arithmetic.py:57-63 | over any table whose entries lie in [0, 1] with lower bound at most upper bound (not only valid partitions), each working interval lies inside the one before it |
| IntervalNarrowing.SingleSymbolStaysUnit | arithmetic.py:57-62 | when every character owns the whole of [0, 1], the working interval stays [0, 1) |
| IntervalNarrowing.Narrowings | arithmetic.py:57-63 | exactly one yielded interval per input character |
| IntervalNarrowing.NarrowingsLaws | arithmetic.py:57-63 | the k-th yielded interval is the interval after k + 1 characters; over a valid table each is a non-empty part of [0, 1] as wide as the product of the probabilities read so far; over any table whose entries lie in [0, 1] each lies inside the previous one |
| IntervalNarrowing.NarrowStep | arithmetic.py:59-62 | saving the lower bound and width and then moving both bounds computes exactly one narrowing step |
| IntervalNarrowing.ExtendPrefix | arithmetic.py:58-63 | reading one more character extends the yielded list by the next working interval |
| IntervalNarrowing.NarrowAll | arithmetic.py:57-63 | when every character has an entry, the loop yields exactly the narrowing sequence; otherwise it fails with the first character that has no entry (the `KeyError` at line 61) |
| IntervalNarrowing.CalculateIntervals | arithmetic.py:52-63 | the partition error for an empty string without a table, the narrowing sequence over the table in use, or the first unknown character; without a table it succeeds exactly on non-empty strings |
| IntervalNarrowing.CalculateInterval | arithmetic.py:44-50 | the last yielded interval, which is the final interval of the whole string; the empty string yields none and fails; otherwise it fails with the first character of the string that has no entry (the `KeyError` at line 61) |
| IntervalNarrowing.OwnPartitionNarrows | arithmetic.py:44-50 | over its own partition a non-empty string is fully covered and narrows to a non-empty part of [0, 1] as wide as the product of its probabilities |
| BinaryEncoder.Weight | arithmetic.py:71-72 | the weight 2^-k of the k-th bit is positive |
| BinaryEncoder.WeightAtMostOne | arithmetic.py:71-72 | no bit weighs more than 1 |
| BinaryEncoder.Value | arithmetic.py:65-78 | reference definition of reading a code as the binary fraction 0.b1b2…bn, bit i weighing 2^-i |
| BinaryEncoder.ValueBelowOne | arithmetic.py:65-78 | an n-bit code is worth between 0 and 1 - 2^-n |
| BinaryEncoder.GridGap | arithmetic.py:70-76 | two n-bit codes of different values are at least 2^-n apart |
| BinaryEncoder.StepsToFit | arithmetic.py:70 | every positive width is at least some 2^-k, which bounds the number of iterations |
| BinaryEncoder.GreedyAppend | arithmetic.py:71-75 | appending the bit chosen by the rule at line 71 keeps the whole code greedy |
| BinaryEncoder.NoneShorterStep | arithmetic.py:70-76 | a miss at n bits with the sum within 2^-n of the clipped upper bound means no code of n bits is in the interval either |
| BinaryEncoder.AtMostStepsStep | arithmetic.py:70-76 | a miss at n bits means 2^-n is still wider than the clipped interval |
| BinaryEncoder.Encode | arithmetic.py:65-78 | the code is made of bits; its value lies in the half-open interval; no shorter code and no proper prefix of it does; bit j is 1 exactly when adding 2^-(j+1) keeps the sum below the upper bound; its length is at most every k with 2^-k not wider than the interval clipped to [0, 1); it is empty when the lower bound is at most 0 |
| Scenarios.OccurrencesOfAab | arithmetic.py:17-25 | "aab" has the occurrence list [('a', 2), ('b', 1)] |
| Scenarios.SymbolsOfAab | arithmetic.py:25 | the sorted distinct characters of "aab" are "ab" |
| Scenarios.CountsOfAab | arithmetic.py:20-24 | "aab" holds two a's and one b |
| Scenarios.ProbabilitiesOfAb | arithmetic.py:27-29 | "ab" gives each of its two characters probability 1/2 |
| Scenarios.PartitionOfAb | arithmetic.py:31-42 | "ab" gives 'a' the lower half [0, 1/2] and 'b' the upper half [1/2, 1] |
| Scenarios.NarrowA | arithmetic.py:57-63 | reading "a" over those halves narrows [0, 1) to [0, 1/2) |
| Scenarios.NarrowAb | arithmetic.py:57-63 | reading "ab" narrows [0, 1) to [1/4, 1/2) |
| Scenarios.CodeOfAb | arithmetic.py:65-78 | the code "01" is worth 1/4, lies in [1/4, 1/2) and follows the greedy rule for upper bound 1/2 |
| Scenarios.OnlyCodeOfAb | arithmetic.py:65-78 | the greedy rule, containment and the shortest-length law leave "01" as the only code for [1/4, 1/2) |
| Scenarios.EncodeAb | arithmetic.py:44-78 | narrowing "ab" without a table and encoding the result yields exactly "01" |
| Scenarios.ErrorsOfNarrowing | arithmetic.py:44-63 | `""` without a table fails as an empty input, `""` with a table yields no interval, and "acc" over a table without 'c' fails on 'c' |
| Scenarios.SkewedStillNests | arithmetic.py:57-63 | a caller table with an empty entry and a `P` unequal to its width is not a valid partition, yet narrowing over it still nests |

## Left out

- **Command-line tool.** The command-line front end, argument parsing, column-option parsing, input line loops and printing are I/O plumbing and are not modelled.
- **Table rendering.** `generate_interval_table_rows` and `create_table` render tables through a foreign library, so they are not modelled.
- **Decimal display.** `fraction_to_decimal` and the float formatting of table cells only affect display, so they are not modelled.
- **`split_every_nth`.** It only groups output for display, so it is not modelled.
- **Interval objects.** The `intervals` library objects are replaced by `Span`, a plain pair of bounds. Closed intervals (line 39) and half-open ones (line 63) share this type. Each reader decides containment: only the encoder tests containment, and it uses the half-open test.
- **Lazy yielding.** `calculate_intervals` is a generator. A caller that stops at a missing character still receives the intervals before it. `NarrowAll` instead returns the error without that prefix, because the model returns one `Result` for the whole run.
- BinaryEncoder.Encode: the source computes the bit weight with `math.pow(2, exponent)`, a float, so its running sum becomes a float after the first 1 bit. The model uses the exact weight 2^-k, which is what the code evidently intends. Float rounding and underflow at very small exponents are not modelled.
- BinaryEncoder.Encode: requires lower < upper, 0 < upper and lower < 1. These are exactly the inputs on which the loop ends in exact arithmetic; on any other interval the exact loop runs forever. Every interval that narrowing produces over a valid table meets them (`FinalInUnit`).
- **Numbers and strings.** Python's unbounded integers and `Fraction` are modelled exactly by `nat` and `real`. Characters are compared by code point, as `sorted` does for one-character strings. Dafny's `char` is a Unicode scalar value, so the model covers only strings of Unicode scalar values; Python strings holding lone surrogates are not modelled.
