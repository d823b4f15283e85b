# Quiz engine of the "多少錢？" listening drill, in Dafny

This project models the engine behind the number-listening drill of a Mandarin phrasebook for travel in Taiwan (`app/quiz/quizUtils.ts`). The engine has two jobs. It spells an integer as Mandarin numeral text, Taiwan style: 兩百 for the two hundreds, and 零 where the tens are skipped. It also builds a quiz set: distinct answers drawn from a tier's pool of numbers, each offered with four distinct choices, and decoys that resemble the answer more closely as the tier gets harder.

Modules, one per part of the engine:

- `Numerals` (`numerals.dfy`): `NumberToChinese` follows `numberToChinese` step by step. `Reading` states the same text position by position, and `ChineseToNumber` reads such text back.
- `Pools` (`pools.dfy`): `GetNumberRange` and its nested loops (`MediumRange`, `HardRange`), proved against a digit-level description of each tier's pool (`InPool`).
- `Shuffle` (`shuffle.dfy`): `shuffleArray`, which pairs each element with a random key, sorts the pairs by key and keeps the elements.
- `QuizSet` (`quiz_set.dfy`): `generateQuizSet`. It holds answer sampling against the `used` set and the easy, medium and hard decoy loops.
- `Sequences` (`sequences.dfy`): `Array.prototype.filter`, duplicate-freedom, and the counting facts that guarantee an unused element can always be drawn.

Randomness is modelled as choice. Each `Math.floor(Math.random() * len)` becomes a nondeterministic choice (`:|`) of an index in `[0, len)`. A draw the source rejects changes nothing: the answer is already used, or the choice is already present. So in each loop iteration the model picks one of the draws that would be accepted. Each `Math.random()` sort key becomes an integer `k` in `[0, 2^53)`, which stands for the double `k / 2^53`. Only the order of the keys matters.

Three consequences of the code that shape the model:

- The answer loop's guard `pool.length > 0` (`app/quiz/quizUtils.ts:102`) never changes inside the loop. When more answers are asked for than the pool holds, the loop never ends. `GenerateQuizSet` therefore requires `count <= PoolSize(level)`.
- The medium and hard decoy loops (`app/quiz/quizUtils.ts:124` and `:150`) also stop when the sub-pool has no unused member left. `FillFromSubPool` states that case. With these pools it never arises: `MediumSubPoolHoldsFour` and `HardSubPoolHoldsFour` prove each sub-pool holds at least four numbers, so every item has exactly four choices.
- `numberToChinese` also accepts negative numbers and returns the empty text for them (`app/quiz/quizUtils.ts:48-66`). The model does the same.

## Model

| member | source | states |
|---|---|---|
| `Numerals.NumberToChinese` | app/quiz/quizUtils.ts:4-67 | The text is at most five glyphs long. It is empty exactly when the number is 0 or negative. |
| `Numerals.ZeroMarker` | app/quiz/quizUtils.ts:54-56 | The same insertion as lines 10-12. For 0 ≤ rest < 100 it is 零 exactly when the tens digit is 0 and the units digit is not. Otherwise it is empty. |
| `Numerals.AppendTensAndUnits` | app/quiz/quizUtils.ts:58-64 | The same steps as lines 13-43. For 0 ≤ num < 100 it appends exactly the reading of the tens and units. For a negative num it appends nothing. |
| `Numerals.NumberToChineseIsReading` | app/quiz/quizUtils.ts:4-67 | For every n ≤ 999 the text equals the positional reading. That reading is: the hundreds glyph (兩 for 2, else the digit) then 百; 零 when hundreds are followed by units with no tens; `<digit>十` for nonzero tens; the units digit when nonzero. For n ≤ 0 the text is empty. |
| `Numerals.ReadBack` | app/quiz/quizUtils.ts:4-67 | For 0 ≤ n ≤ 999, reading the text back with `ChineseToNumber` gives n (round trip). |
| `Numerals.NumberToChineseInjective` | app/quiz/quizUtils.ts:4-67 | Two different numbers in 0..999 get different texts, so each spoken answer names exactly one number. |
| `Numerals.HundredsLead` | app/quiz/quizUtils.ts:5-7 | For 200–299 the text starts with 兩百. For other n ≥ 100 it starts with the hundreds digit and 百 (lines 50-51). No text ever contains 二百. |
| `Numerals.ZeroPlacement` | app/quiz/quizUtils.ts:9-12 | 零 occurs iff n ≥ 100 and n % 100 is in 1..9 (also lines 53-56). It then sits right after 百, at index 2, and nowhere else. The text never ends in 零. |
| `Numerals.TensAndUnitsNeverEndInZero` | app/quiz/quizUtils.ts:58-65 | Appending tens and units after a prefix that ends in 零 only when units follow leaves no trailing 零. So the strip at lines 44 and 65 never removes anything. |
| `Numerals.StripTrailingZero` | app/quiz/quizUtils.ts:65 | Removes exactly one trailing 零 whenever the text ends in 零. Otherwise it returns the text unchanged. |
| `Numerals.TensThenUnits` | app/quiz/quizUtils.ts:58-64 | When the tens digit t is nonzero, `<t>十` sits just before the units, or ends the text when there are no units. A nonzero units digit is the last glyph. An exact hundred is two glyphs long. |
| `Numerals.ExampleOneHundredOne` | app/quiz/quizUtils.ts:48-66 | 101 is read 一百零一. |
| `Numerals.ExampleTwoHundredFive` | app/quiz/quizUtils.ts:6-45 | 205 is read 兩百零五. |
| `Numerals.ExampleTwoHundredFifty` | app/quiz/quizUtils.ts:6-45 | 250 is read 兩百五十. |
| `Numerals.ExampleTwoHundred` | app/quiz/quizUtils.ts:6-45 | 200 is read 兩百. |
| `Numerals.ExampleOneHundredTen` | app/quiz/quizUtils.ts:48-66 | 110 is read 一百一十. |
| `Numerals.ExampleNineHundredNinetyNine` | app/quiz/quizUtils.ts:48-66 | 999 is read 九百九十九. |
| `Numerals.ExampleFifteen` | app/quiz/quizUtils.ts:58-66 | 15 is read 一十五. |
| `Numerals.ExampleZero` | app/quiz/quizUtils.ts:58-66 | Nothing is read for 0. |
| `Pools.GetNumberRange` | app/quiz/quizUtils.ts:70-95 | The pool is strictly ascending (hence duplicate-free). It has 9, 90 or 819 elements for easy, medium, hard. Its members are exactly: easy, the hundreds 100..900; medium, the multiples of 10 in 100..990; hard, the numbers in 100..999 that are an exact hundred or have a nonzero units digit. |
| `Pools.MediumRange` | app/quiz/quizUtils.ts:74-83 | The nested loops push 90 values in strictly ascending order, namely exactly the multiples of 10 from 100 to 990. |
| `Pools.HardRange` | app/quiz/quizUtils.ts:84-93 | The triple loop pushes 819 values in strictly ascending order, namely exactly the hard pool, all at most 999. |
| `Sequences.FilterKeepsAll` | app/quiz/quizUtils.ts:94 | A filter that every element passes returns its input unchanged, so the final `n <= 999` filter is a no-op. |
| `Sequences.Filter` | app/quiz/quizUtils.ts:120-123 | `pool.filter(p)` holds exactly the pool members satisfying p, and is no longer than the pool. |
| `Sequences.FilterKeepsDistinct` | app/quiz/quizUtils.ts:145-152 | Filtering a duplicate-free pool gives a duplicate-free sub-pool. |
| `Sequences.FreshElementExists` | app/quiz/quizUtils.ts:102-106 | While fewer values are used than a duplicate-free pool holds, some pool element is still unused, so an accepted draw exists. |
| `Shuffle.Insert` | app/quiz/quizUtils.ts:174 | One insertion step of the stable sort by key. The result holds the inserted pair and the input pairs, nothing more and nothing less. |
| `Shuffle.Values` | app/quiz/quizUtils.ts:175 | The final `.map`: same length as the pairs, and element i is the value of pair i. |
| `Shuffle.SortByKey` | app/quiz/quizUtils.ts:174 | The sort by key returns pairs in nondecreasing key order. They are a permutation of the input pairs, and their elements a permutation of the input elements. |
| `Shuffle.InsertKeepsSorted` | app/quiz/quizUtils.ts:174 | Inserting a pair into a key-sorted sequence keeps it sorted. |
| `Shuffle.ShuffleArray` | app/quiz/quizUtils.ts:171-176 | For any random keys, the result is a permutation of the input: same multiset, same length. |
| `QuizSet.FillFromSubPool` | app/quiz/quizUtils.ts:124-128 | The decoy loop of the medium tier, repeated at lines 150-153 for hard. It returns min(4, sub-pool size) distinct sub-pool members, the answer among them. |
| `QuizSet.DrawNewChoice` | app/quiz/quizUtils.ts:124-127 | An accepted draw of a decoy loop is a candidate not yet among the choices. |
| `QuizSet.EasyChoices` | app/quiz/quizUtils.ts:157-161 | Easy choices are 4 distinct pool members that include the answer. |
| `QuizSet.MediumChoices` | app/quiz/quizUtils.ts:109-128 | Medium choices are 4 distinct pool members that include the answer. Their hundreds digits take at most one value other than the answer's. |
| `QuizSet.MediumSubPoolHoldsFour` | app/quiz/quizUtils.ts:120-124 | The two-hundreds sub-pool contains the answer and at least 4 numbers, so the loop always reaches 4 choices. |
| `QuizSet.HardChoices` | app/quiz/quizUtils.ts:129-156 | Hard choices are 4 distinct pool members that include the answer. Their hundreds digits take at most one value other than the answer's, and so do their tens digits. |
| `QuizSet.HardSubPoolHoldsFour` | app/quiz/quizUtils.ts:145-153 | The two-hundreds, two-tens sub-pool contains the answer and at least 4 numbers. |
| `QuizSet.BuildChoices` | app/quiz/quizUtils.ts:107-162 | Dispatches on the tier; the choices fit that tier's policy. |
| `QuizSet.PermutedChoicesFit` | app/quiz/quizUtils.ts:163-166 | Shuffling keeps the choices fitting: count 4, answer present, no duplicates, pool members, digit restrictions. |
| `QuizSet.AnswerExactlyOnce` | app/quiz/quizUtils.ts:108 | In choices that fit, the answer occurs exactly once. |
| `QuizSet.GenerateQuizSet` | app/quiz/quizUtils.ts:98-169 | Given count ≤ the pool size, exactly max(count, 0) items are returned. Their answers are pool members and pairwise distinct. Every item's choices fit the tier: 4 distinct pool members with the answer among them, plus the medium/hard digit restrictions. |

## Left out

- Probabilities are not modelled: the uniformity of `Math.random()`, of the index picks and of the shuffle. Draws are nondeterministic choices, so every possible outcome is covered, but not its likelihood.
- Rejected draws are not modelled as separate loop iterations. An answer already in `used`, or a decoy already in `choices`, changes no state. Whether the rejection loops end with probability 1 is out of reach.
- `GenerateQuizSet`: tier names other than easy, medium and hard are not modelled. The quiz page casts its `level` query parameter unchecked (`app/quiz/page.tsx:24-25`) and passes it to `generateQuizSet` (`:38`). For any other name, `getNumberRange` returns the hard pool and the decoys come from the unconstrained easy loop (`app/quiz/quizUtils.ts:157-161`). `Level` has only the three named tiers, so that combination is outside the model.
- `GenerateQuizSet`: asking for more answers than the tier's pool holds makes the source loop forever, so that input is excluded by the precondition instead of being modelled.
- `secondHundred` and `secondTen` are chosen from the set of other digits present in the pool. The source picks an index into the de-duplicated array of those digits; the possible values are the same.
- `ShuffleArray`: the floating-point keys are modelled as integers `k` standing for `k / 2^53`. Only their order matters. The sort is modelled as a stable insertion sort by key.
- `NumberToChinese` above 999: the source indexes past its digit table there, so the model requires `num <= 999`. Non-integer input is not modelled.
- `NumberToChinese`: the `num === 200` branch (line 47) is kept but can never be reached, because 200 is handled by the first branch.
- JavaScript numbers are modelled as unbounded integers. Every value here is at most 999, so no rounding or overflow arises.
- Not part of this model, because they are rendering, browser speech, timing, network or mail I/O: the pages under `app/`, `components/ui/play-button.tsx`, `components/ui/ProgressBar.tsx`, the text-to-speech routes and clients (`app/api/tts/route.ts`, `lib/googleTTS.ts`, `utils/tts.ts`), and the summary mail senders (`pages/api/send-summary.ts`, `app/api/send-summary/route.ts`). Recording answers and counting the score on the quiz and result pages is also left out.
