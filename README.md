# Animal quiz engine

A model of the quiz engine of the animal quiz web page (`script.js`),
separated from its DOM calls. It covers four parts:

- **CSV ingestion.** `parseCSVLine` is a character-by-character splitter
  with a quote-toggle flag: a quote flips the flag and is dropped, and a
  comma outside quotes closes the current field, trimmed. `parseCSV` trims
  the text, splits it into lines, and takes the first line as the header,
  split on plain commas. It keeps every later line whose field count equals
  the header's, in order. The JavaScript built-ins it relies on,
  `String.prototype.trim` and a one-character `String.prototype.split`, are
  modelled with their own contracts: `Trim` keeps the longest trimmed infix,
  and `Join` inverts `SplitOn`.
- **The fallback questions** used when fetching the CSV file fails.
- **Session selection.** `startQuiz` filters the loaded questions by
  difficulty. It then shuffles them in place with the Fisher-Yates loop of
  `shuffleArray` and keeps at most the first ten. The random index drawn at
  each step is an oracle: a caller-supplied sequence `choices` with
  `choices[i] <= i`.
- **The session state machine**, a class `QuizGame`. Its fields are the
  module globals: loaded questions, current question set, index, score,
  selected answer and difficulty. Two more fields hold the `disabled` flag
  of the Next button and the active screen. A ghost field records the answer
  given to each question. The invariant `Valid` ties the pieces together:
  - the score counts the correct recorded answers and never exceeds the
    number of questions answered;
  - on the quiz screen the current question exists, and Next is enabled
    exactly when it has been answered;
  - the results screen shows the final outcome.
- **Scoring.** `showResults` rounds the percentage half up, computed on
  integers. It picks one of six performance tiers, named after the message
  keys of the translation table.

Modules: `Wrappers` (Option), `Questions` (records, labels, difficulty
filter, fallback data), `Csv`, `Shuffle`, `Scoring` and `Session`.

At its edges the code behaves as follows, and so does the model:
- A session without questions divides 0 by 0. The code gets `NaN` (the
  model's `None`) and the "keep practicing" tier, not a percentage of 0.
- The code falls back to the built-in questions only when loading throws.
  A CSV text that yields no records leaves the quiz with no questions.
- Three questions answered right, right, wrong give 67%. The code's
  thresholds put that in the "not bad" tier.

## Model

| member | source | states |
|---|---|---|
| Questions.OptionText | script.js:198-205 | The text on the button of each label; the scoring partner is `Session.CorrectCountAppend` |
| Questions.IsCorrect | script.js:206 | An answer is correct when its option text strictly equals the recorded correct answer; used by `Session.CorrectCountAppend` and `Session.QuizGame.SelectOption` |
| Questions.MatchingDifficulty | script.js:147 | Every question kept has difficulty exactly `d`; the result is no longer than the input |
| Questions.MatchingDifficultyCount | script.js:147 | The filter keeps each question of difficulty `d` exactly as often as it occurs in the input and drops every other question (multiset count) |
| Questions.FallbackData | script.js:98-137 | The built-in set holds four records |
| Questions.FallbackWellFormed | script.js:98-137 | Every built-in record has a defined correct answer equal to the text of one of its four options |
| Questions.FallbackCoversDifficulties | script.js:98-137 | Each of `Easy`, `Normal` and `Hard` finds at least one built-in record, so no fallback session starts empty |
| Csv.TrimStart | script.js:86 | The result is no longer than the input and does not start with a space character |
| Csv.TrimEnd | script.js:86 | The result is no longer than the input and does not end with a space character |
| Csv.Trim | script.js:86 | The result neither starts nor ends with a space character |
| Csv.TrimIsInfix | script.js:86 | The trimmed text is an infix of the input, and everything cut off on either side is space |
| Csv.TrimKeeps | script.js:86 | Trimming introduces no character that the input lacks |
| Csv.SplitOn | script.js:51-52 | `split` on one character gives one more piece than there are separators |
| Csv.SplitOnPieces | script.js:51-52 | No piece of a split contains the separator, so the pieces are the maximal separator-free runs |
| Csv.JoinSplitOn | script.js:51-52 | Joining the pieces with the separator gives back the text |
| Csv.SplitOnJoin | script.js:51-52 | Splitting the join of separator-free pieces gives back the pieces |
| Csv.SplitOnPlain | script.js:51-52 | A text without the separator is a single piece |
| Csv.SplitOnAppend | script.js:51-52 | Appending separator-free text extends only the last piece |
| Csv.Step | script.js:83-90 | One loop iteration of `parseCSVLine`; its properties are stated by `Csv.StepShape` |
| Csv.StepShape | script.js:83-90 | One character keeps the fields quote-free and trimmed, flips the flag exactly on a quote, and closes a field exactly on a comma outside quotes |
| Csv.Scan | script.js:80-91 | The loop state after the whole line; its properties are stated by `Csv.ScanShape`, and `Csv.ParseLine` is proved equal to it |
| Csv.ScanShape | script.js:80-91 | After the loop, the quote flag is the parity of the quotes read; there is one finished field per comma read outside quotes; no field holds a quote; every finished field is trimmed |
| Csv.Fields | script.js:75-95 | The function form of `parseCSVLine`; its properties are stated by `Csv.FieldsShape` and `Csv.FieldsOfPlainLine` |
| Csv.FieldsShape | script.js:75-95 | `parseCSVLine` returns one more field than there are commas read outside quotes; no field contains a quote and every field is trimmed |
| Csv.MapTrim | script.js:86 | Trims every piece, keeping the count and the order |
| Csv.ScanPlain | script.js:80-91 | On a line without quotes the flag stays off, the finished fields are the trimmed pieces of `split(',')` but the last, and the current field is the last piece |
| Csv.FieldsOfPlainLine | script.js:75-95 | On a line without quotes, the splitter is `split(',')` with every piece trimmed |
| Csv.DoubledQuoteVanishes | script.js:83-84 | A doubled quote toggles the flag twice and disappears (`a""b` gives `ab`) |
| Csv.ParseLine | script.js:75-95 | The loop computes the fields of the line; its result has the count, quote-freedom and trimming properties above |
| Csv.Lines | script.js:51 | The trimmed text split on newlines; always at least one line, the header |
| Csv.Header | script.js:52 | The header's fields, split on plain commas; `Csv.CsvRecordsOrigin` states how its count selects rows |
| Csv.ToQuestion | script.js:58-66 | The record built from a row, `undefined` past its end; used by `Csv.KeptIndicesSound` and `Csv.CsvRecordsOrigin` |
| Csv.MapFields | script.js:56 | One field list per line, in order, each that line's fields |
| Csv.KeptRows | script.js:55-69 | Never more records than rows |
| Csv.KeptIndices | script.js:55-69 | Every position it lists is a row of the input |
| Csv.KeptIndicesCount | script.js:55-69 | There are as many records as matching rows |
| Csv.KeptIndicesSound | script.js:57-67 | The k-th record is built from the k-th matching row, whose field count is the header's |
| Csv.KeptIndicesIncreasing | script.js:55-69 | Matching rows are taken in input order, each once |
| Csv.KeptIndicesComplete | script.js:55-69 | No row with the header's field count is skipped |
| Csv.CsvRecords | script.js:50-71 | What `parseCSV` returns; its properties are stated by `Csv.CsvRecordsOrigin`, and `Csv.ParseCsv` is proved equal to it |
| Csv.KeptRowsStep | script.js:55-69 | Reading one more line adds its record exactly when its field count equals the header's |
| Csv.CsvRecordsOrigin | script.js:50-71 | The header line is never a record; each record comes from a later line whose field count equals the header's plain-comma field count; the lines are taken in order; every such line is taken |
| Csv.ParseCsv | script.js:50-72 | The loop returns the records described above, at most one per line after the header |
| Shuffle.Swap | script.js:305 | Exchanges two positions and leaves every other position as it was |
| Shuffle.SwapPermutes | script.js:305 | A swap keeps the multiset of elements |
| Shuffle.ShuffleDown | script.js:303-306 | The loop steps from position `i` down to 1; kept a permutation by `Shuffle.ShuffleDownPermutes` |
| Shuffle.Shuffled | script.js:302-307 | What `shuffleArray` leaves in the array; a permutation by `Shuffle.ShuffledPermutes`, and `Shuffle.ShuffleArray` is proved to compute it |
| Shuffle.ShuffleDownPermutes | script.js:303-306 | The loop steps from any position down to 1 keep the length and the multiset |
| Shuffle.ShuffledPermutes | script.js:302-307 | For every valid oracle, the shuffle is a permutation of its input: same length, same multiset |
| Shuffle.ShuffleArray | script.js:302-307 | The in-place loop leaves the array holding the shuffle of its old contents, a permutation of them |
| Shuffle.Truncate | script.js:153-155 | Keeps the first `min(10, n)` elements, a prefix and sub-multiset of the input |
| Scoring.Percentage | script.js:243-244 | Undefined (`NaN`) exactly when there are no questions |
| Scoring.PercentageRounds | script.js:244 | The percentage is `100 * score / total` rounded half up |
| Scoring.PercentageUnique | script.js:244 | Rounding half up determines the percentage: any value within one half of `100 * score / total`, ties going up, is it |
| Scoring.PercentageAtMost100 | script.js:244 | With `score <= total` and `total > 0`, the percentage is defined and at most 100 |
| Scoring.PercentageMonotone | script.js:244 | More correct answers never lower the percentage |
| Scoring.TierFor | script.js:251-263 | The tier is the first threshold met among 90, 80, 70, 60 and 50, else "keep practicing"; `NaN` meets none (both directions for every tier) |
| Scoring.TierMonotone | script.js:251-263 | A higher percentage never earns a worse tier |
| Scoring.Finalize | script.js:242-263 | The outcome carries score and total, the percentage and its tier; no questions gives `NaN` and "keep practicing"; all correct gives 100 and "excellent"; none correct gives 0 and "keep practicing"; the percentage is at most 100 |
| Scoring.ExampleOutcomes | script.js:242-263 | 2 of 3 gives 67% and "not bad"; 0 of 1 gives 0% and "keep practicing"; 10 of 10 gives 100% and "excellent" |
| Session.CorrectCount | script.js:206-210 | The score after a run of answers never exceeds the number of answers |
| Session.CorrectCountAppend | script.js:206-210 | One more answer adds exactly 1 when its option text equals the correct answer, else 0 |
| Session.Selection | script.js:147-155 | The matching questions, shuffled by the oracle, at most the first ten; its properties are stated by `Session.SelectionBounds` |
| Session.SelectionBounds | script.js:147-155 | The question set has at most ten questions and no more than match; every question has difficulty `d`; the set is a sub-multiset of the matching questions and of the loaded questions |
| Session.SelectQuestions | script.js:146-155 | Filtering into a fresh array, shuffling it in place and keeping the first ten gives the selection |
| Session.QuizGame.Valid | script.js:2-6 | The session invariant every method keeps: one recorded answer per question passed plus the current one once answered; the score counts the correct ones and is at most `index + answered`; on the quiz screen the current question exists and Next is enabled exactly when it has been answered; the results screen shows the final outcome |
| Session.QuizGame.constructor | script.js:1-7 | The initial state: nothing loaded, the welcome screen, the invariant holds |
| Session.QuizGame.LoadQuizData | script.js:36-47 | The loaded questions are the CSV records of the fetched text, or the built-in set when fetching failed |
| Session.QuizGame.StartQuiz | script.js:140-160 | Resets index, score and selection; the question set is the selection for `d`; an empty set goes straight to the results with `NaN`; otherwise the quiz screen with Next disabled; the invariant holds |
| Session.QuizGame.DisplayQuestion | script.js:163-187 | Past the last question, shows the results; otherwise clears the selection and disables Next |
| Session.QuizGame.SelectOption | script.js:190-233 | A second answer changes nothing; a first answer is recorded, adds exactly 1 to the score when its option text equals the correct answer, and enables Next; nothing else changes; the invariant `score <= index + answered` is kept |
| Session.QuizGame.NextQuestion | script.js:236-239 | Moves to the next question with the selection cleared and Next disabled, or, after the last, to the results with selection and flag untouched; only index, screen, selection and flag change |
| Session.QuizGame.Advance | script.js:313-335 | The Enter key advances as `nextQuestion` does only on the quiz screen while Next is enabled; otherwise nothing changes; only index, screen, selection and flag ever change |
| Session.QuizGame.ShowResults | script.js:242-268 | The results screen shows the outcome of the score out of the question count |
| Session.QuizGame.PlayAgain | script.js:271-273 | A new session with the same difficulty and a fresh selection: reset, then the results with `NaN` when it is empty, else the quiz screen with Next disabled |
| Session.PlayThrough | script.js:310-337 | Starting a session and then, for every question, an option key and Enter, ends on the results screen with every question answered once and the outcome of the score out of the question count |
| Session.QuizGame.ChangeDifficulty | script.js:276-278 | Back to the welcome screen; the invariant holds |

## Left out

- Presentation is not modelled: screen switching, text assignments and the option-button painting at script.js:213-226. The painting marks every option whose text equals the answer, so duplicate option texts would all show as correct. Only the active screen is kept, as a field.
- `updateProgress` (script.js:292-299) is not modelled. It computes a floating-point progress-bar width and display strings.
- The `fetch`, `async` and `console` calls of `loadQuizData` are I/O. The fetched text is a parameter, `None` when loading throws.
- `Math.random` is replaced by the oracle `choices`. The model proves that every oracle gives a permutation. It does not prove that the shuffle is uniform.
- Scoring.Percentage: computed on the exact rational with integers, not on the float of `Math.round`. They agree because totals never exceed ten.
- Strings are sequences of `char`, where JavaScript indexes UTF-16 code units.
- Quoted newlines are not supported: the text is split into lines before any quote is seen, as in the code.
- The keyboard wiring and the ripple effect (script.js:310-389) are left out, except the screen check and the `nextBtn.disabled` guard, which `Advance` keeps. `translations.js` is a static message table; only its tier keys name the `Tier` values.
- Session.QuizGame.NextQuestion: requires the quiz screen with Next enabled. Its only callers are the Next button, which is enabled only then, and the guarded Enter key.
- Session.QuizGame.SelectOption: requires the quiz screen, where the option buttons and the keyboard handler live.
- The initial `disabled` state of the Next button comes from the page's markup, which is not part of this model; the constructor sets it.
