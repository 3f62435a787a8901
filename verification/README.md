# Quiz session core — a Dafny model

This project models the quiz-session logic of `quiz.js`, a browser quiz. For a
chosen section the quiz first fetches the JSON bank of questions and offers a
list of question counts built from its size. Once the user picks a count, it
fetches the same file a second time, shuffles that bank, truncates it to the
count, and runs a question-by-question loop.
Each answer is checked against the question's accepted answer (or list of
accepted answers) after text normalisation. Correct answers are counted, and
wrong ones go to a log shown on the result screen.

The model has five modules:

- `Text` (`text.dfy`) covers `normalizeText`: trim, Unicode NFKC folding,
  lower-casing, and collapsing every whitespace run to one space. NFKC and
  lower-casing are table-driven runtime services, so they are kept abstract as
  a `Folding` parameter. Trimming and collapsing use the ECMAScript whitespace
  set and are modelled concretely.
- `Answers` (`answers.dfy`) covers `isCorrect` and the text a wrong-answer
  record shows for the correct answer, `answer.join(" / ")`.
- `Shuffle` (`shuffle.dfy`) covers the Fisher–Yates `shuffle`. The random
  numbers become an explicit sequence of draws: `draws[i]` is the index chosen
  when position `i` is swapped, with `draws[i] <= i`. `Walk` is a functional
  reference definition, and the method `Shuffle` is the loop of the source.
- `Counts` (`counts.dfy`) covers the list of offered question counts and the
  truncation of the shuffled bank to the chosen count.
- `Session` (`session.dfy`) covers one attempt. The global variables become one
  immutable `Session` value. `Start`, `Submit` (the answer handler), `Next`
  (the "next" button), `ScreenOf` (the end-of-list test), `ProgressOf` (the
  header counter) and `ReportOf` (the result screen) are pure functions of it.
  The session is parameterised by a `Judge`. The quiz uses
  `Checker(f) = IsCorrect(·, ·, f)`, and the session proofs hold for any judge.

Three behaviours of the code are worth stating plainly:

- `normalizeText` trims before NFKC folding, although its own comment
  (quiz.js:22) lists folding first. As a result it is not idempotent: NFKC
  can produce a leading space after the trim. `Text.NormalizeNotIdempotent`
  shows this with U+00A8 DIAERESIS, whose compatibility decomposition is
  U+0020 U+0308.
- The offered counts form a list that can hold duplicates. When the bank has
  exactly 5, 10 or 20 questions, that number is offered twice
  (`Counts.DuplicateOption`).
- `checkAnswer` and the "next" handler have no guard of their own. The page
  makes them unreachable once an answer is given or the list is exhausted,
  because inputs are disabled and the buttons are replaced. The model states
  this as "nothing changes" outside the state where each is live.

## Model

| member | source | states |
|---|---|---|
| `Text.SkipSpaces` | quiz.js:27 | the start of `trim`'s result: every skipped character is whitespace and the first kept one is not |
| `Text.BackSpaces` | quiz.js:27 | the end of `trim`'s result: every dropped trailing character is whitespace and the last kept one is not |
| `Text.TrimShape` | quiz.js:27 | `trim(s)` is a contiguous slice of `s` with only whitespace before and after it, and neither starts nor ends with whitespace |
| `Text.TrimPadding` | quiz.js:27 | whitespace added on either side of a string never changes what `trim` returns |
| `Text.CollapseShape` | quiz.js:30 | replacing whitespace runs yields single plain spaces only, keeps every non-space character in order, and is empty or space-led exactly when the input is |
| `Text.CollapseRun` | quiz.js:30 | a non-empty run made only of whitespace becomes exactly one plain space |
| `Text.CollapseVisible` | quiz.js:30 | a character that is not whitespace is kept unchanged |
| `Text.CollapseSplit` | quiz.js:30 | collapsing works piece by piece across any boundary that follows a visible character |
| `Text.CollapseGap` | quiz.js:30 | every whitespace run between two visible parts becomes exactly one space in the same place, so `"a  b"` gives `"a b"` and never `"ab"` |
| `Text.CollapseIdempotent` | quiz.js:30 | collapsing whitespace a second time changes nothing |
| `Text.NormalizeShape` | quiz.js:23-31 | a missing value normalises to the empty string; every normal form has only single plain spaces and is fixed by collapsing |
| `Text.NormalizePadding` | quiz.js:23-31 | surrounding whitespace never changes the normal form, whatever the Unicode mappings are |
| `Text.NormalizeNotIdempotent` | quiz.js:25-30 | a string whose normal form differs from the normal form of that normal form |
| `Answers.AnyMatchesMeaning` | quiz.js:36 | `some` over the accepted answers is true exactly when some accepted answer normalises to the user's normal form |
| `Answers.IsCorrectMeaning` | quiz.js:33-39 | an answer is correct exactly when its normal form equals the normal form of the answer field, or of one element of an answer list |
| `Answers.EmptyAcceptsNothing` | quiz.js:35-36 | an empty list of accepted answers accepts nothing |
| `Answers.AcceptedTextsAreCorrect` | quiz.js:33-39 | typing any accepted answer verbatim is judged correct |
| `Answers.SingletonAgrees` | quiz.js:35-38 | a one-element answer list judges exactly like the same single answer |
| `Answers.AcceptedOrderIrrelevant` | quiz.js:36 | two accepted lists holding the same strings give the same verdict, whatever their order and however often each string is listed |
| `Answers.PaddingIrrelevant` | quiz.js:33-39 | whitespace typed around an answer never changes the verdict |
| `Answers.JoinLength` | quiz.js:276-277 | a joined string is as long as its parts plus one separator between each pair |
| `Answers.JoinLayout` | quiz.js:276-277 | each part of a joined string sits at its offset, followed by exactly one separator before the next part |
| `Answers.Display` | quiz.js:276-278 | the logged correct answer is the single answer (empty when missing), the only element of a one-element list, or empty for an empty list |
| `Shuffle.Swap` | quiz.js:17 | swapping two positions exchanges their elements, keeps the rest and the multiset |
| `Shuffle.Walk` | quiz.js:15-18 | the swap walk keeps length and multiset and never touches positions at or above its bound |
| `Shuffle.Shuffle` | quiz.js:13-20 | the loop returns the reference walk's result, a permutation of the input |
| `Shuffle.IdentityDraws` | quiz.js:15-17 | when every draw picks its own position the order is unchanged |
| `Shuffle.ShuffleReachesEveryPermutation` | quiz.js:13-20 | every permutation of the input is produced by some sequence of draws |
| `Shuffle.ShuffleDeterminesDraws` | quiz.js:13-20 | on distinct elements, draw sequences that differ at some swapped position (`draws[1..]`) give different orders, so each order fixes exactly one choice at every swapped position |
| `Counts.CountOptions` | quiz.js:124-129 | the offered counts are the presets not exceeding the bank size, in increasing order, followed by the bank size itself |
| `Counts.OptionsWithinBank` | quiz.js:124-129 | no offered count exceeds the bank size |
| `Counts.DuplicateOption` | quiz.js:126-129 | a bank of exactly 5, 10 or 20 questions offers that count twice |
| `Counts.Take` | quiz.js:167-169 | the active list is a prefix of the bank, of the chosen size when it is non-zero and fits, otherwise the whole bank |
| `Counts.OptionGivesThatMany` | quiz.js:124-169 | choosing any offered count gives an attempt of exactly that many questions |
| `Session.FindFrom` | quiz.js:161 | `find` returns the first catalog position with the wanted id, or nothing when there is none |
| `Session.SectionName` | quiz.js:161-162 | `currentSectionName` is the first matching section's name, or empty when no section matches |
| `Session.Title` | quiz.js:196 | the header title is never blank: it is the section name, or the default title when the name is empty |
| `Session.StartTitle` | quiz.js:161-162 | a new attempt's header shows the default title when no section matches, and the first matching section's name when that name is not empty |
| `Session.ScreenOf` | quiz.js:206-209 | the result screen is shown exactly when the position has reached the end of the list, which in a valid attempt means it equals the list length; an answered question only waits for "next" |
| `Session.Record` | quiz.js:273-280 | a wrong-answer record logs a missing prompt or explanation as empty, the submitted text as typed, and the single answer (empty when missing) or the only accepted answer as the correct answer |
| `Session.RecordShowsEveryAnswer` | quiz.js:276-277 | the logged correct answer of a list question shows every accepted answer at its offset, each but the last followed by `" / "` and the last ending the text |
| `Session.CheckerScores` | quiz.js:256-280 | with `isCorrect` as the judge, a waiting question is scored exactly when `isCorrect` accepts the submission and logged exactly when it does not |
| `Session.Start` | quiz.js:165-174 | a new attempt is valid and unanswered, with position, score and log reset; its questions are a prefix and sub-multiset of the shuffled bank, of the chosen size, and the whole bank when not truncated |
| `Session.Submit` | quiz.js:254-306 | answering a waiting question scores it exactly when it is correct, logs one record exactly when it is wrong, and disables it; in any other state nothing changes |
| `Session.AnswerOnce` | quiz.js:295-303 | a second answer to an already answered question is ignored |
| `Session.Next` | quiz.js:289-292 | after an answer, "next" advances one position and reaches the result screen exactly after the last question; in any other state nothing changes |
| `Session.ProgressOf` | quiz.js:193-197 | the counter's total is the list length (or the chosen count for an empty list); it shows the current question's number while asking and the total at the end |
| `Session.ReportOf` | quiz.js:315 | on the result screen of a valid attempt the score never exceeds the total, and correct plus logged answers equal the total |
| `Session.PlayAdvances` | quiz.js:254-292 | answering and pressing "next" repeatedly keeps the attempt valid and advances one position per answer |
| `Session.PlayScores` | quiz.js:262-265 | over the rest of an attempt the score grows by the number of correct answers |
| `Session.PlayLogs` | quiz.js:266-281 | over the rest of an attempt the log grows by one record per wrong answer, in question order |
| `Session.AttemptReport` | quiz.js:309-315 | a full attempt ends on the result screen with the reference score and wrong-answer list, and they add up to the question count |
| `Session.AllCorrect` | quiz.js:262-265 | when every answer is correct the score is the question count and nothing is logged |

## Left out

- Rendering, the DOM, `fetch` and JSON decoding are out of scope. A failed load shows an error and starts no attempt; the model starts from the decoded bank.
- The asynchronous race between overlapping section loads is not modelled.
- `Math.random` is out of scope: its outcomes are the `draws` parameter, so the model states which orders can occur but not their probabilities.
- The progress-bar percentage (quiz.js:198) is floating point and left out. The counter text is modelled.
- The feedback message (quiz.js:263-269) is presentation only, including its use of `answer[0]` for lists.
- Every question is assumed to offer an input. A question with `type: "multiple_choice"` and an empty `choices` array renders neither a choice button nor a text field (quiz.js:216-239), so `checkAnswer` can never run and the attempt never reaches the result screen; the model's `Session.Submit` accepts an answer for every question, and `Session.AttemptReport` covers only attempts in which every question can be answered.
- Otherwise the question kind, choices and image only shape rendering. A chosen option's text goes through `encodeURIComponent`/`decodeURIComponent` and is assumed to come back unchanged, so it is submitted like typed text.
- `toString()` on a non-string answer field is not modelled: answers are strings or lists of strings.
- Mode selection, the section catalog loader and the result screen's card rendering are screen glue around the modelled state.
- NFKC and lower-casing are abstract parameters, because their Unicode tables are not modelled. Only the properties that hold for every such mapping are proved.
- Text.NormalizeShape: claims no idempotence, because `normalizeText` is not idempotent (see `Text.NormalizeNotIdempotent`).
- Counts.OptionGivesThatMany: assumes that the two fetches of the question file return the same bank. One fetch builds the offered counts (quiz.js:112-114) and another builds the attempt (quiz.js:156-158). If the file shrinks between them, an offered count can exceed the new bank, and the attempt is then shorter than the count chosen.
- Strings are sequences of Unicode code points, while JavaScript strings are UTF-16 code units and may hold lone surrogates. Lengths such as those in `Answers.JoinLength` therefore count code points. No modelled decision depends on this, because every whitespace character lies in the Basic Multilingual Plane.
