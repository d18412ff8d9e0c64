# A verified model of a character-level Markov language model

`LanguageModel` is an order-k character model. Training slides a window of
`windowLength` characters over a corpus. For every window it counts which
characters follow it, in a map from windows to lists of character records
(`CharDataMap`). After each update it recomputes that list's probabilities:
each record's `p` is its count's share of the total, and its `cp` is the
running sum of the `p` values. Sampling takes a draw `r` and returns the
first record whose `cp` exceeds `r`; when none does, it falls back to the
last record. Generation starts from an initial text. It repeatedly looks up
the last window, appends a sampled character and slides the window. It stops
at `textLength + windowLength` characters, or at the first window the map
does not hold.

The model has five modules, one per file:

- `chardata.dfy` (`CharLists`)
  - A distribution is a `seq<CharData>` in first-seen order.
  - It defines `Update` (the list's `update`), the recomputed `Probabilities`
    and the draw-to-record selection `Sample`.
  - It holds the lemmas about counts, cumulative probabilities and sampling.
- `training.dfy` (`Training`)
  - The table is a `map<string, seq<CharData>>`.
  - Training is a function of the old table, the corpus and the number of
    steps taken (`Trained`).
  - It states the table invariant and proves key shape, count conservation
    and invariant preservation.
- `generation.dfy` (`Generation`)
  - `IsGeneration` is a relational specification of what generation returns,
    as a function of the draws.
  - It proves that the result is unique and that every added character is
    backed by the corpus.
- `languagemodel.dfy` (`Markov`)
  - The class `LanguageModel` has the fields `charDataMap` and
    `windowLength`.
  - Its methods `Train`, `CalculateProbabilities`, `GetRandomChar` and
    `Generate` keep the source's loops, and each is proved against the
    functions above.
- `scenarios.dfy` (`Scenarios`) proves concrete runs:
  - Training on a corpus of one repeated character.
  - Generation on the "aaaa" corpus.
  - Generation from a window that was never seen.

Probabilities are exact reals. This makes the last cumulative probability
exactly 1, and makes a draw in [0, 1) never reach the fallback branch. The
random number generator becomes a stream `draws: nat -> real`: the n-th
character that `Generate` appends uses `draws(n)`. Training takes the corpus
as a string.

The Javadoc of `generate` calls `textLength` "the size of text to generate"
(LanguageModel.java:81), but the loop does not stop at that size, and the
model follows the loop. Take a model trained on "aaaa" with windows of one
character, and generate from "a" with length 4. The loop at
LanguageModel.java:92 runs while `gentxt.length() - windowLength < textLength`.
The text therefore grows to `textLength + windowLength` = 5 characters, and
the result is "aaaaa", not "aaaa" (`Scenarios.AaaaGeneratesFiveLetters`).

## Model

| member | source | states |
|---|---|---|
| Markov.LanguageModel.constructor | LanguageModel.java:28-32 | a new model has the given window length and an empty table, and satisfies the table invariant |
| Markov.LanguageModel.Train | LanguageModel.java:38-45 | the table after the loop is `Trained(old table, txt, windowLength, Positions)`, the invariant is kept, and a corpus no longer than a window changes nothing |
| Markov.LanguageModel.CalculateProbabilities | LanguageModel.java:50-62 | the two accumulator loops compute exactly `Probabilities(probs)`: the counts are summed, each `p` is count/total, each `cp` is the running sum of the `p`s, and the last `cp` is exactly 1 |
| Markov.LanguageModel.GetRandomChar | LanguageModel.java:68-74 | the scan returns `Sample(probs, r)`, which is the first record with `cp > r` or else the last record, and the result is a character recorded in the list |
| Markov.LanguageModel.Generate | LanguageModel.java:84-103 | the result satisfies `IsGeneration`: both guards return the initial text; otherwise it extends the initial text, each added character is sampled with the next draw from its window, the length never exceeds `textLength + windowLength`, and it stops at that length or at an unknown window |
| CharLists.Update | LanguageModel.java:43 | `List.update`, as a value: its behaviour is stated by `UpdateCounts` (one more `c`, every other count unchanged), `UpdateTotal` (one more in total) and `UpdateShape` (records kept in place, a new one last with count 1) |
| CharLists.IndexOf | LanguageModel.java:43 | the record `update` finds for `c` is the first with that character, and `|l|` means there is none |
| CharLists.UpdateCounts | LanguageModel.java:43 | `update(c)` adds one to the count of `c` and leaves every other character's count unchanged |
| CharLists.UpdateTotal | LanguageModel.java:43 | `update(c)` adds exactly one to the list's total |
| CharLists.UpdateShape | LanguageModel.java:43 | `update(c)` keeps existing records in place, adds `c` to the characters (a new record goes last with count 1), and keeps characters distinct and counts positive |
| CharLists.Probabilities | LanguageModel.java:50-62 | the list with `p` and `cp` recomputed; its contract keeps the length, and `ProbabilitiesAt`, `ProbabilitiesKeepCounts`, `CumulativeIsPrefixSum`, `LastCumulativeIsOne` and `SumOfProbabilitiesIsOne` state what the values are |
| CharLists.ProbabilitiesKeepCounts | LanguageModel.java:57-62 | recomputing probabilities keeps the length, the characters, the total and every character's count |
| CharLists.ProbabilitiesIdempotent | LanguageModel.java:50-62 | recomputing the probabilities of an already recomputed list changes nothing |
| CharLists.ProbabilitiesAt | LanguageModel.java:59-61 | record `i` keeps `chr` and `count`, has `p == count/total`, and has `cp` equal to the share of the first `i + 1` counts |
| CharLists.CurrentIsFixpoint | LanguageModel.java:50-62 | a list holds current probabilities exactly when recomputing them leaves it unchanged |
| CharLists.CumulativeIsPrefixSum | LanguageModel.java:60-61 | each `cp` is the inclusive prefix sum of the `p`s: the first equals its `p`, and each later one is the previous `cp` plus its `p` |
| CharLists.CumulativeMonotone | LanguageModel.java:60-61 | cumulative probabilities never decrease along the list |
| CharLists.ProbabilitiesInUnitInterval | LanguageModel.java:59-61 | every `p` and every `cp` lies in [0, 1] |
| CharLists.LastCumulativeIsOne | LanguageModel.java:56-62 | the last cumulative probability is exactly 1 |
| CharLists.SumOfProbabilitiesIsOne | LanguageModel.java:59-60 | the `p`s of a recomputed non-empty distribution sum to exactly 1 |
| CharLists.SumPPrefix | LanguageModel.java:59-60 | the `p`s of the first `i` records sum to the share of the first `i` counts |
| CharLists.FirstAbove | LanguageModel.java:68-73 | the scan's stopping point is the first record with `cp > r`, or `|l|` when no record has one |
| CharLists.SampleIndex | LanguageModel.java:68-74 | the selected record is in range; before the last it has `cp > r`; and every earlier record has `cp <= r` |
| CharLists.SampleNeverFallsBack | LanguageModel.java:74 | with exact probabilities and a draw in [0, 1), some record has `cp > r`, so the fallback is never needed |
| CharLists.SampleFallsInSlice | LanguageModel.java:68-72 | a draw in [0, 1) selects the record whose slice `[cp - p, cp)` of the unit interval holds it |
| CharLists.Sample | LanguageModel.java:66-75 | the character a draw selects: the character of record `SampleIndex` (see `FirstAbove`, `SampleIndex`), and its contract states it is a character that has a record in the list |
| CharLists.CountOfPositive | LanguageModel.java:43 | in a list of positive counts, a character has a record exactly when its count is positive |
| Training.PutIfAbsent | LanguageModel.java:40-42 | after the put of an empty list for a new window, the window is a key holding its old list or the empty list |
| Training.PutIfAbsentFrame | LanguageModel.java:40-42 | the put gains only the key `w`, and every existing entry, `w`'s included, keeps its list |
| Training.Observe | LanguageModel.java:39-44 | one pass of the loop body; `ObserveByPut` shows it is the source's put, update and recompute, and `ObserveFrame`, `ObserveCounts`, `ObserveTotals` and `ObserveInvariant` state its effect |
| Training.ObserveFrame | LanguageModel.java:39-44 | one step gains only the key `w`, and every other window keeps its list |
| Training.ObserveByPut | LanguageModel.java:40-44 | the put, then the update, then the recompute of the stored list, is one `Observe` step |
| Training.ObserveCounts | LanguageModel.java:43-44 | one step adds one to the count of `c` after `w` and changes no other count |
| Training.ObserveTotals | LanguageModel.java:43-44 | one step adds one to the total of `w` and changes no other total |
| Training.ProbabilitiesWellFormed | LanguageModel.java:44 | recomputing a non-empty list with positive distinct counts gives a well-formed distribution |
| Training.UpdatedListInvariant | LanguageModel.java:40-44 | updating an empty or well-formed list and then recomputing it gives a well-formed distribution |
| Training.ObserveInvariant | LanguageModel.java:39-44 | one step with a window of length `windowLength` keeps every key a window of that length, with a well-formed distribution |
| Training.TableSampleFallsInSlice | LanguageModel.java:66-75 | in a trained table, a draw in [0, 1) selects, without falling back, the record whose slice holds it, and the slice's width is that record's share of the counts |
| Training.Trained | LanguageModel.java:38-45 | the table after the first `n` passes of the loop; `TrainedKeys`, `TrainedCounts`, `TrainedTotals` and `TrainedInvariant` state what it holds |
| Training.TrainedKeys | LanguageModel.java:38-42 | after training, the keys are the old keys together with the windows `t[i..i+k]` for `0 <= i < |t| - k` |
| Training.TrainedCounts | LanguageModel.java:38-44 | count conservation: the count of `c` under `w` grows by the number of positions where window `w` is followed by `c` |
| Training.TrainedStepCounts | LanguageModel.java:43-44 | step `n` adds one to the count of the character after window `n - 1`, and nothing else |
| Training.TrainedTotals | LanguageModel.java:38-44 | count conservation: the total under `w` grows by the number of positions of `w` that have a character after them |
| Training.TrainedStepTotals | LanguageModel.java:43-44 | step `n` adds one to the total of window `n - 1`, and nothing else |
| Training.TrainedInvariant | LanguageModel.java:38-44 | training keeps the table well formed |
| Training.TrainedStepInvariant | LanguageModel.java:39-44 | one step of the scan keeps the table well formed |
| Training.ShortCorpusTrainsNothing | LanguageModel.java:38 | a corpus no longer than the window makes no step and leaves the table unchanged |
| Training.TrainedFromEmpty | LanguageModel.java:38-44 | for a fresh model: the keys are exactly the windows with a following character, each key has length `k`, each count of `c` under `w` equals how often `w` is followed by `c`, each total equals how often `w` occurs, and `c` has a record exactly when it follows `w` |
| Training.FollowersWitness | LanguageModel.java:38-43 | a positive follower count names a corpus position where `w` is followed by `c` |
| Generation.IsGeneration | LanguageModel.java:84-103 | the relation between the inputs, the draws and the returned text; its contract states that the result always begins with the initial text, and is either that text or longer than it and at most `textLength + windowLength` long |
| Generation.ExtendSampled | LanguageModel.java:93-96 | appending the character drawn from the last window keeps every added character sampled from the window before it |
| Generation.AgreeOnPrefix | LanguageModel.java:91-96 | two runs with the same table, initial text and draws agree on every common prefix |
| Generation.SampledWindowIsKey | LanguageModel.java:93-94 | the window before each added character is a key of the table |
| Generation.GenerationIsUnique | LanguageModel.java:84-103 | with the same table, initial text, length and draws, generation has exactly one result (the basis of the seeded determinism) |
| Generation.GeneratedCharsAreRecorded | LanguageModel.java:93-96 | every added character has a record in the distribution of the window it was drawn from |
| Generation.GeneratedTransitionsOccurInCorpus | LanguageModel.java:93-96 | after training a fresh model, every added character follows its window somewhere in the corpus |
| Scenarios.ObserveFirst | LanguageModel.java:40-44 | the first observation of `c` after a new window gives it count 1 and probability 1 |
| Scenarios.ObserveAgain | LanguageModel.java:43-44 | observing again the only character of a window adds one to its count and keeps its probability at 1 |
| Scenarios.RepeatedCorpusTrainsOneRecord | LanguageModel.java:38-44 | a corpus of one repeated character trains one window, with one record whose count is the number of steps and whose probability is 1 |
| Scenarios.RepeatedWindow | LanguageModel.java:39 | in a corpus of one repeated character, every window is the first one |
| Scenarios.AaaaTrainsOneCertainRecord | LanguageModel.java:38-44 | "aaaa" with windows of one character trains key "a" with the single record ('a', count 3, p 1, cp 1) |
| Scenarios.SingleRecordSample | LanguageModel.java:68-74 | a one-record list is always sampled to that record |
| Scenarios.AaaaGeneratesFiveLetters | LanguageModel.java:92-101 | on that table, generating from "a" with length 4 returns "aaaaa" whatever the draws |
| Scenarios.UnseenWindowGeneratesNothing | LanguageModel.java:93-98 | when the corpus never shows the initial text's last window followed by a character, generation returns the initial text |
| Scenarios.AbcFromXyzGeneratesNothing | LanguageModel.java:93-98 | trained on "abcabcabc" with windows of three, generating from "xyz" returns "xyz" |

## Left out

- File reading (`In`, `readAll`, LanguageModel.java:36-37) is I/O. `Train` takes the corpus as a string.
- `java.util.Random` and `nextDouble` (LanguageModel.java:14, 21, 30, 67) are a foreign generator. `GetRandomChar` takes the draw as a parameter, and `Generate` takes the stream of draws.
  - The constructor's seed parameter is therefore not modelled, and one constructor stands for both.
  - Seeded determinism is stated as `GenerationIsUnique`.
- Double-precision rounding is not modelled; `p` and `cp` are exact reals.
  - As a result, `SampleNeverFallsBack` shows that the fallback at LanguageModel.java:74 is unreachable for a draw in [0, 1).
  - The fallback is still modelled in `GetRandomChar` and `SampleIndex`.
- `toString` (LanguageModel.java:106-113) is left out. Its output depends on `HashMap` iteration order and on the list's string form.
- `main` (LanguageModel.java:115-129) is left out. It is argument parsing and printing.
- `List.java` and `CharData.java` are not part of this model. `update` is taken to increment the existing record or to append a new record with count 1 and probabilities 0.
- In-place mutation of the list objects is not modelled: the map holds list objects that `update` and `calculateProbabilities` change through aliasing. In the model, `CalculateProbabilities` returns the recomputed list, and `Train` stores it back under its key. Every list has exactly one holder, so no other state can observe the difference.
- Markov.LanguageModel.GetRandomChar: requires a non-empty list. On an empty list the source reads index -1 and throws. A list in a trained table is never empty.
- Markov.LanguageModel.CalculateProbabilities: requires a positive total for a non-empty list. With all counts 0 the source divides 0 by 0 and stores NaN. No trained list has a zero count.
- Markov.LanguageModel.Generate: with a window length of 0, it requires that the empty window is not a key. Otherwise the source slides the empty window with `substring(1)` and throws.
- Text is modelled as a sequence of Unicode scalar values, and Java strings are sequences of UTF-16 code units (`charAt`, `substring` at LanguageModel.java:39, 43, 91, 96). The model covers text made of Basic Multilingual Plane characters only. A window that splits a surrogate pair is not modelled.
- Negative window lengths are excluded by the type `nat`; the source throws on them in `substring`.
- 32-bit overflow of the counts, the total and `textLength + windowLength` is not modelled; integers are unbounded.
