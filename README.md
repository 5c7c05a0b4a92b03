# Smart-Study-Buddy quiz generation, in Dafny

Smart-Study-Buddy is a Flask back end that stores study notes. It turns a note
into quiz material in two ways, both in `Backend/app.py`:

- **plain questions** (`generate_normal`): the note's content is cut into
  sentences on `.`. The first five become lines `Q1: …` to `Q5: …` under a
  `Note: {title}` header.
- **multiple-choice questions** (`generate_mcq`): each of the first five
  sentences gives one item. The item holds:
  - a correct answer, which is the text before a `:` or else the first word;
  - up to three distractors sampled from the sentence's other words;
  - `Option {n}` padding up to four options;
  - a shuffle of the options;
  - the letter `a` to `d` of the first option that equals the answer.

A standalone helper, `extract_correct_option`, gives a different answer rule:
a `:`, then a `-`, then the first three words. No route calls it.

This project models these text-processing bodies without their HTTP and
database handling.

The modules:

- `PyStr` (`pystr.dfy`) holds the Python string built-ins the code relies on:
  - `strip()` and `strip(chars)`;
  - `lstrip`;
  - `split(sep)` and `split()`;
  - `join`, `lower`, `startswith`;
  - `f"{n}"` for a natural number;
  - `s[:n]`.

  It proves what each of them gives.
- `Segmenter` (`segmenter.dfy`) holds the two sentence comprehensions, for the
  MCQ path (line 200) and the plain path (line 167). It also holds the one-dash
  cleaning of lines 172-174.
- `Extract` (`extract.dfy`) holds `extract_correct_option`.
- `PlainFormatter` (`plain.dfy`) holds the plain generator.
  - The `+=` loop is a method.
  - The method is proved equal to a function that states the output's shape.
- `McqOptions` (`options.dfy`) covers one item's options:
  - the sample;
  - the `while len(options) < 4` padding loop, as a method;
  - `random.shuffle`, in place on an array;
  - `list.index`.
- `McqBuilder` (`mcq.dfy`) holds:
  - the per-sentence steps;
  - the loop over the first five sentences, as a method;
  - the response, with the quiz-level guarantees.
- `Scenarios` (`scenarios.dfy`) works small notes through the definitions. It
  covers the empty note, a lone bullet, and a sentence whose distractor equals
  its answer.

**Randomness is an input.** A `Draw` holds two things:

- **The sample**: the positions `random.sample` picks, in the order it returns
  them. `IsSampleOf` says these are `min(3, n)` distinct positions below `n`.
- **The shuffle**: for each position `i`, the index `randbelow(i + 1)` returns.
  `IsShuffleChoice` says each index is at most `i`. `random.shuffle` swaps
  position `i` with that index, from the last position down to position 1.

The requires clauses `DrawFits` and `DrawsFit` say exactly this about the
draws. Every MCQ property holds for every such draw.

**The model follows the code on these points:**

- In the MCQ path the blank test runs before `lstrip('-')`. A fragment such as
  `" - "` is therefore kept as the empty sentence. `s.split()[0]` then raises
  `IndexError`, and the request fails. The model returns `Err(IndexError)` for
  the whole quiz.
- In the plain path that fragment gives the line `Q1: ` with no text.
- `lstrip('-')` stops at whitespace, so `"- -x"` gives the MCQ sentence `-x`.
- The plain path removes only one leading `-`.
- `w.strip(",.")` removes commas and periods at both ends of a word.
- The length test and the case-insensitive comparison look at the word before
  stripping.
- Because of this, a distractor can equal the answer. In `Sun Sun, hot` the
  word `Sun,` passes both tests and then becomes `Sun`. When that happens, the
  answer letter goes to the first option that equals the answer.
- A pool keeps one candidate per eligible word, in word order, so a repeated
  word gives a repeated candidate.
- An item's fields `question`, `options` and `answer` carry the code's key
  names. The response's `noteTitle` and `mcqQuestions` stand for the code's
  `note_title` and `mcq_questions`.

## Model

| member | source | states |
|---|---|---|
| PyStr.Trim | Backend/app.py:200 | `strip(chars)` leaves no character of `chars` at either end, adds no length, and is empty exactly when every character is in `chars` |
| PyStr.TrimIdempotent | Backend/app.py:172 | stripping an already stripped sentence again changes nothing |
| PyStr.Split | Backend/app.py:167 | `split(sep)` gives at least one piece, no piece holds the separator, and the first piece is the longest separator-free prefix |
| PyStr.SplitJoin | Backend/app.py:167 | joining the pieces of `split(sep)` with the separator gives back the original text |
| PyStr.JoinSplit | Backend/app.py:167 | splitting a separator-joined list of separator-free pieces gives back the pieces |
| PyStr.SplitAppend | Backend/app.py:167 | the pieces of `a + sep + b` are the pieces of `a` followed by those of `b` |
| PyStr.SplitHeadPrefix | Backend/app.py:208 | when `s` holds `c`, `s.split(c)[0]` is exactly the text before the first `c` |
| PyStr.SplitWs | Backend/app.py:210 | `split()` gives non-empty whitespace-free words, and gives none exactly when the text is all whitespace |
| PyStr.SplitWsHead | Backend/app.py:210 | `s.split()[0]` is the first maximal run of non-whitespace characters, after only whitespace |
| PyStr.JoinSpaceSplit | Backend/app.py:58 | `split()` of words joined by single spaces gives back the words |
| PyStr.Lower | Backend/app.py:214 | `lower()` keeps the length and maps each character on its own |
| PyStr.NatToStringValue | Backend/app.py:176 | the digits `f"{n}"` prints read back as `n` |
| PyStr.NatToString | Backend/app.py:220 | `f"{n}"` is a non-empty string of decimal digits without a leading zero |
| Segmenter.McqClean | Backend/app.py:200 | `s.strip().lstrip('-').strip()` has no whitespace at either end |
| Segmenter.McqSentences | Backend/app.py:200 | every MCQ sentence is stripped and holds no `.` |
| Segmenter.McqSentencesJoin | Backend/app.py:200 | the MCQ sentences of `c1 + "." + c2` are those of `c1` followed by those of `c2`, in order |
| Segmenter.McqSentencesOneFragment | Backend/app.py:200 | a text without `.` gives no sentence if blank, otherwise its one cleaned fragment |
| Segmenter.McqCleanEmpty | Backend/app.py:200 | a kept fragment cleans to the empty sentence exactly when, once stripped, it is made of dashes only |
| Segmenter.ComprehensionAppend | Backend/app.py:167 | a comprehension over two runs of fragments is the two comprehensions, one after the other |
| Segmenter.PlainSentences | Backend/app.py:167 | every plain sentence is non-empty and stripped |
| Segmenter.PlainSentencesJoin | Backend/app.py:167 | the plain sentences of `c1 + "." + c2` are those of `c1` followed by those of `c2` |
| Segmenter.PlainSentencesOneFragment | Backend/app.py:167 | a text without `.` gives nothing if blank, otherwise its stripped text |
| Segmenter.PlainClean | Backend/app.py:172-174 | the question text is stripped at both ends (it may be empty, and may still start with `-`) |
| Segmenter.PlainCleanSpec | Backend/app.py:172-174 | a stripped sentence without a leading `-` is its own question text; one with a leading `-` (once stripped) becomes strictly shorter; stripping the sentence first changes nothing |
| Extract.ExtractCorrectOption | Backend/app.py:41-58 | the helper's answer never contains `:` |
| Extract.ExtractPrecedence | Backend/app.py:50-58 | after one bullet is dropped: with a `:`, the stripped text before the first `:`; else with a `-`, the stripped text before the first `-`, which holds no `-`; else the first three words (fewer if there are fewer), joined by single spaces |
| PlainFormatter.LinesAppend | Backend/app.py:170-176 | the lines for two runs of texts are those of the first, then those of the second, numbered on |
| PlainFormatter.GenerateNormal | Backend/app.py:166-176 | the `+=` loop produces exactly `PlainText`: the header, then one numbered line for each of the first five sentences |
| PlainFormatter.PlainTextEmpty | Backend/app.py:169 | a note with no non-blank fragment gives exactly `Note: {title}` and a blank line |
| PlainFormatter.PlainTextLine | Backend/app.py:170-176 | for each i below min(5, n), the output holds `Q{i+1}: ` and the i-th sentence with one leading dash removed, after the header and the earlier lines and before the later ones |
| PlainFormatter.PlainTextCap | Backend/app.py:170 | once a note has five sentences, text after the next period does not change the output |
| McqOptions.PickSubMultiset | Backend/app.py:215 | a sample without replacement is a sub-multiset of the pool, and all of it when every position is picked |
| McqOptions.PigeonholeAll | Backend/app.py:215 | n distinct positions below n are all of them |
| McqOptions.Padded | Backend/app.py:219-220 | padding gives four options, leaves the first ones in place, and puts `Option {k}` at each new position k |
| McqOptions.PadOptions | Backend/app.py:219-220 | the `while len(options) < 4` loop gives the same list as `Padded`, with the same guarantees |
| McqOptions.ShuffledPermutes | Backend/app.py:222 | whatever the draws, the shuffle is a permutation of its input |
| McqOptions.Shuffle | Backend/app.py:222 | the in-place swaps on the array, from the last position down, leave it holding `Shuffled` of its old contents |
| McqOptions.FirstIndex | Backend/app.py:224 | `list.index` finds nothing exactly when the value is absent; otherwise it gives a position holding the value with no earlier one |
| McqBuilder.CorrectAnswer | Backend/app.py:207-210 | the answer fails, with IndexError, exactly when the sentence has no `:` and is all whitespace; an answer never holds `:` |
| McqBuilder.CorrectAnswerColon | Backend/app.py:207-208 | with a `:`, the answer is the stripped text before the first `:` |
| McqBuilder.CorrectAnswerFirstWord | Backend/app.py:209-210 | without a `:`, the answer is the sentence's first whitespace-delimited word |
| McqBuilder.CorrectAnswerOfSentence | Backend/app.py:200-210 | on a stripped sentence, the only failing case is the empty sentence |
| McqBuilder.PoolSound | Backend/app.py:214 | every candidate is an eligible word of the sentence (case-insensitively not the answer, longer than 2 before stripping), with `,` and `.` stripped from both ends |
| McqBuilder.PoolComplete | Backend/app.py:214 | every eligible word gives a candidate; PoolInOrder adds that each gives exactly one, in word order |
| McqBuilder.PoolInOrder | Backend/app.py:214 | one candidate per eligible word, in word order: with the eligible positions listed in increasing order, candidate k is the word at the k-th of them, stripped of `,` and `.`, and there are exactly as many candidates as eligible words |
| McqBuilder.EligibleFromSpec | Backend/app.py:214 | the listed positions are increasing and are exactly the positions of the eligible words |
| McqBuilder.PoolEmpty | Backend/app.py:214-215 | the pool is empty exactly when no word is eligible |
| McqBuilder.PoolUnpunctuated | Backend/app.py:214 | no candidate begins or ends with `,` or `.` |
| McqBuilder.DistractorsFromPool | Backend/app.py:215 | the drawn distractors are a sub-multiset of the pool, and all of it when the pool has at most three candidates |
| McqBuilder.OptionsFor | Backend/app.py:218-220 | before the shuffle there are four options, with the answer first |
| McqBuilder.PaddingOnlyForSmallPool | Backend/app.py:215-220 | padding happens exactly when the pool has one or two candidates, and then fills the positions after the drawn ones, up to 3, with `Option {k}` |
| McqBuilder.FinishCorrect | Backend/app.py:223-230 | whenever the answer is among the four options, the item asks the sentence, its letter's option is the answer and no earlier letter's is, and its option values are the options in order |
| McqBuilder.ItemCorrect | Backend/app.py:205-230 | for every fitting draw, a sentence with an answer gives an item whose letter's option is the answer, the first such letter, with the four options the correct answer, the distractors and the padding in some order |
| McqBuilder.ItemFails | Backend/app.py:207-224 | an item fails exactly when its sentence has no answer, and then with IndexError, never the ValueError of `list.index` |
| McqBuilder.DrawOptions | Backend/app.py:214-220 | the pool, sample and padding steps give `OptionsFor` |
| McqBuilder.ShuffleOptions | Backend/app.py:222-224 | shuffling a fresh array of the options gives `Shuffled` |
| McqBuilder.BuildItem | Backend/app.py:205-230 | one pass of the loop body gives `ItemOf`: the error, or the item |
| McqBuilder.CollectSpec | Backend/app.py:205-230 | the loop fails, with the first error, exactly when some sentence fails; otherwise it yields one item per sentence, in order |
| McqBuilder.CollectErrPersists | Backend/app.py:205-230 | once a sentence has failed, later sentences do not change the result |
| McqBuilder.ItemsOfSpec | Backend/app.py:205-230 | the items fail exactly when some sentence has no answer, always with IndexError; otherwise item i is the item of sentence i |
| McqBuilder.ItemsAnswer | Backend/app.py:205-230 | when no sentence fails, item i asks sentence i and its answer letter is the first whose option is that sentence's answer |
| McqBuilder.FirstFiveFail | Backend/app.py:200-210 | among the first five MCQ sentences, those whose answer fails are the empty ones |
| McqBuilder.QuizCorrect | Backend/app.py:199-232 | the request fails, with IndexError, exactly when one of the first five sentences is empty; otherwise the quiz has the note's title and min(5, n) items, and item i asks sentence i, is keyed a to d, and its letter is the first whose option is the sentence's answer |
| McqBuilder.BuildItems | Backend/app.py:203-230 | the loop appending to `mcqs` gives `ItemsOf`, stopping at the first error |
| McqBuilder.GenerateMcq | Backend/app.py:199-232 | the whole generator gives `QuizOf` |
| Scenarios.EmptyNote | Backend/app.py:167-169 | an empty note gives no sentence on either path, and plain text that is only the header |
| Scenarios.BulletNoteSentences | Backend/app.py:167 | `" - "` is one empty MCQ sentence and one plain sentence `-` |
| Scenarios.BulletNoteMcqFails | Backend/app.py:200-210 | the MCQ request on `" - "` fails with IndexError, whatever the draws |
| Scenarios.BulletNotePlain | Backend/app.py:169-176 | the plain text for `" - "` is the header and `Q1: ` with no text |
| Scenarios.DashAfterBullet | Backend/app.py:200 | `"- -x"` cleans to `-x` |
| Scenarios.SunIsHotAnswer | Backend/app.py:210 | the answer to `Sun is hot` is `Sun` |
| Scenarios.SunIsHotPool | Backend/app.py:214 | its pool is `hot`, since `is` is too short |
| Scenarios.SunIsHotOptions | Backend/app.py:218-220 | with `hot` drawn, the options before the shuffle are `Sun`, `hot`, `Option 2`, `Option 3` |
| Scenarios.LoneWordPool | Backend/app.py:210-214 | a one-word sentence is its own answer and has no candidate |
| Scenarios.LoneWordPlaceholders | Backend/app.py:215-218 | the options are then the answer and `Option 1` to `Option 3` |
| Scenarios.ColonAnswer | Backend/app.py:207-208 | the answer to `Sun: hot` is `Sun` |
| Scenarios.DistractorEqualsAnswer | Backend/app.py:214 | the pool of `Sun Sun, hot` is `Sun`, `hot`: one candidate equals the answer |
| Scenarios.RepeatAnswer | Backend/app.py:210 | the answer to `Sun Sun, hot` is `Sun` |
| Scenarios.RepeatOptions | Backend/app.py:215-220 | drawing both candidates of the pool `Sun`, `hot` gives the options `Sun`, `Sun`, `hot`, `Option 3` |
| Scenarios.RepeatShuffled | Backend/app.py:222 | the draw that swaps every position with itself leaves those options in place |
| Scenarios.ShuffleDownIdentity | Backend/app.py:222 | a draw that picks every position itself leaves any list of options as it is |
| Scenarios.RepeatFinish | Backend/app.py:223-224 | on those options the item's letter is `a`, and `a` and `b` both hold `Sun` |
| Scenarios.DuplicateAnswerLetter | Backend/app.py:210-224 | for a sentence whose answer is `Sun` and whose pool is `Sun`, `hot` (as for `Sun Sun, hot`), drawing both candidates and swapping nothing gives an item whose letter is `a`, with `Sun` at both `a` and `b` |

## Left out

- Flask routing, request parsing and the JSON responses are not modelled. This includes the 400 and 404 replies and `jsonify`. The result is `Result<McqQuiz>` or a string.
- The 500 response Flask sends when an exception escapes is not modelled. An uncaught `IndexError` is the `Err(IndexError)` result.
- The sqlite reads and writes, password hashing, and the other routes are not modelled. They are persistence and foreign library code.
- `Backend/static/dashboard.js` is not part of this model. It is browser UI code.
- The `random` module's generator is not modelled. Its outputs are the `Draw` inputs, and `DrawFits` states what they can be.
- `random.sample` and `random.shuffle` are proved correct only as a function of those outputs. Uniformity is not modelled.
- PyStr.Lower: case mapping is modelled on ASCII letters only. Python's `lower()` also maps non-ASCII letters, so the candidate filter is exact only for ASCII words.
- Strings are sequences of Unicode code points, as Python's are. Surrogates, normalisation and encodings are not modelled.
- The model stops at the response value. `option_dict` is a map from letters to options, and key order in the JSON output is not modelled.
