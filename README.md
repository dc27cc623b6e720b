# Flag Explorer: a Dafny model of its view logic

Flag Explorer is a web front end for browsing world flags and taking a quiz
about them. This project models the logic in its three stateful views, and
proves properties of that model:

- **The quiz session** (`components/QuizMode.tsx`). It is a state machine
  over `idle`, `loading`, `playing` and `finished`. Its fields are the
  question list, the current index, the score, the recorded answer and its
  verdict, the error message, and the flag explanation with its loading flag.
  The class `QuizMode.QuizSession` has one method per handler. Each handler
  that awaits a service call is split into two events: its synchronous part,
  and a later completion event. The completion takes a `Settled` value, which
  is either a resolved value or a thrown error. `Valid()` is kept by every
  handler, and `ScoreBounded()` by every handler except `HandleAnswerSelect`
  after a recorded empty answer. Neither proof relies on which buttons the
  screen shows.
- **The markdown-lite explanation formatter** (`Explanation`). It splits the
  text on new lines. Each line becomes a heading (`#`, `##` or `###` and a
  space), a list item (`* `), or a paragraph. The quiz view drops lines that
  are blank after trimming. The detail overlay keeps every line.
- **The browsing view** (`LearnMode`). It filters the country catalog by a
  case-insensitive substring search, and records which country's detail
  overlay is open. The overlay itself (`FlagDetailModal`) tracks the status of
  its explanation fetch and shows exactly one of a spinner, an error or the
  body.

The catalog, the generated questions and the explanation texts are inputs.
The model does not produce them.

Modules: `Types` (records and settled values), `Text` (trim, lowercase,
includes, split), `Seqs` (filter, subsequence), `Explanation`, `QuizMode`,
`LearnMode`, `FlagDetailModal`.

Three things about the code worth noting:

- Restarting a quiz does not reset the score. It also keeps the index, the
  recorded answer, the verdict and the error. The next start clears the
  error, and the next successful start resets the index, the score, the
  answer and the verdict.
- Nothing checks that a question has four distinct options, or that one of
  them is the correct answer. Neither is assumed.
- The explanation service catches its own errors. Even so, both views handle
  a thrown error, so the model accepts a failed completion too.

## Model

| member | source | states |
|---|---|---|
| `Seqs.Filter` | components/LearnMode.tsx:13-15 | an element is kept exactly when it is in the input and passes the test; the result is no longer than the input |
| `Seqs.FilterIsSubsequence` | components/LearnMode.tsx:13 | the kept elements are a subsequence of the input, in the input's order |
| `Seqs.FilterCounts` | components/LearnMode.tsx:13-15 | a passing element is kept as many times as it occurs; a failing one is never kept |
| `Seqs.Map` | components/FlagDetailModal.tsx:39-47 | one output per input, in order: output `i` is the function applied to input `i` |
| `Seqs.FilterKeepsAll` | components/LearnMode.tsx:13-15 | a test that every element passes keeps the whole sequence |
| `Text.TrimStart` | components/QuizMode.tsx:11 | the result is a suffix of the input; only white space was removed; it does not start with white space |
| `Text.TrimEnd` | components/QuizMode.tsx:11 | the result is a prefix of the input; only white space was removed; it does not end with white space |
| `Text.Trim` | components/QuizMode.tsx:11 | the input is the result with white space before it and white space after it; a non-empty result starts and ends with a character that is not white space |
| `Text.TrimEmptyIffBlank` | components/QuizMode.tsx:11 | a line trims to the empty string exactly when all of its characters are white space |
| `Text.LowerChar` | components/LearnMode.tsx:14 | ASCII capitals move to lower case; every other character is kept; the result is never an ASCII capital |
| `Text.Lower` | components/LearnMode.tsx:14 | the length is kept, and each character is lowercased on its own by `LowerChar` |
| `Text.Contains` | components/LearnMode.tsx:14 | the search is true exactly when the needle occurs at some index of the haystack |
| `Text.Split` | components/FlagDetailModal.tsx:37-38 | there is one more piece than there are separators, and no piece holds a separator |
| `Text.JoinSplit` | components/FlagDetailModal.tsx:37-38 | joining the pieces with the separator gives back the original text |
| `Text.SplitJoin` | components/FlagDetailModal.tsx:37-38 | splitting a join of separator-free pieces gives the pieces back |
| `Explanation.HasHeadingMarker` | components/FlagDetailModal.tsx:40 | the three prefix tests hold exactly when the line's leading run of `#` has one to three characters and a space follows it |
| `Explanation.HashRunEnd` | components/FlagDetailModal.tsx:41 | the result is where the run of `#` starting at the given index ends |
| `Explanation.FirstHashSpace` | components/FlagDetailModal.tsx:41 | the result is the leftmost match of `#+\s` (one or more `#` and one white-space character); the match that starts there is unique; "no match" means no index starts one |
| `Explanation.StripHashSpace` | components/FlagDetailModal.tsx:41 | the line is unchanged exactly when it holds no match of `#+\s`; the result is never longer than the line |
| `Explanation.StripCutsLeftmostMatch` | components/QuizMode.tsx:13 | the replacement cuts out the leftmost match and keeps the text on either side of it |
| `Explanation.StripHeadingMarker` | components/QuizMode.tsx:12-13 | on a line that starts with one to three `#` and a space, the replacement removes exactly that prefix |
| `Explanation.HeadingRestores` | components/FlagDetailModal.tsx:40-41 | putting the heading marker back in front of the stripped text gives the line |
| `Explanation.ClassifyLine` | components/FlagDetailModal.tsx:40-46 | heading iff the line starts with `# `, `## ` or `### `, and then the line is that marker plus the text; item iff the line is not a heading and starts with `* `, and then the line is `* ` plus the text; otherwise a paragraph with the line unchanged |
| `Explanation.BlankLineIsBlankPara` | components/QuizMode.tsx:11-18 | a line becomes a blank paragraph exactly when the line is blank |
| `Explanation.FormattedExplanation` | components/FlagDetailModal.tsx:37-47 | one block for every line, empty lines included, so there is one block more than there are new lines; block `i` classifies line `i` |
| `Explanation.FormatExplanation` | components/QuizMode.tsx:9-20 | there are no more blocks than lines, and no block is a blank paragraph |
| `Explanation.QuizFormatDropsBlankParagraphs` | components/QuizMode.tsx:11-18 | the quiz rendering equals the overlay rendering with its blank paragraphs removed, so each non-blank line gives one block, in order |
| `Explanation.NoBlankLinesSameRendering` | components/QuizMode.tsx:11 | a text without blank lines renders the same in both views |
| `Explanation.FourHashesIsParagraph` | components/FlagDetailModal.tsx:40-46 | a line starting with four `#` is a paragraph, kept unchanged |
| `QuizMode.Truthy` | components/QuizMode.tsx:56 | `null` and the empty string are the only falsy answers; the same test gates the buttons (lines 97, 162) and the explanation panel (line 170) |
| `QuizMode.StartFailureMessage` | components/QuizMode.tsx:38-51 | there is no message exactly when a non-empty question list came back; an empty list gives "No questions were generated."; a thrown `Error` gives its own message; any other thrown value gives "An unknown error occurred." |
| `QuizMode.ExplanationText` | components/QuizMode.tsx:69-76 | a resolved fetch gives its own text; a thrown one gives "Could not load flag explanation." |
| `QuizMode.QuizSession.NextQuestionOffered` | components/QuizMode.tsx:170-195 | the next-question control is shown only during play, after a truthy answer, once loading is over; in a valid session it then sits over a question in range that has a verdict |
| `QuizMode.QuizSession.constructor` | components/QuizMode.tsx:23-32 | the session starts idle, with no questions, index 0, score 0, no answer, no verdict, no error, no explanation, and nothing loading |
| `QuizMode.QuizSession.BeginStartQuiz` | components/QuizMode.tsx:34-36 | the state becomes loading and the error is cleared; nothing else changes |
| `QuizMode.QuizSession.CompleteStartQuiz` | components/QuizMode.tsx:37-52 | a non-empty list starts play at index 0 with score 0, those questions, and answer, verdict and explanation cleared; an empty list or a thrown error returns to idle with a non-null error message, old questions kept and nothing else changed |
| `QuizMode.QuizSession.RecordAnswer` | components/QuizMode.tsx:58-68 | records the answer and its verdict; the score rises by one exactly when the answer is correct; loading starts with no explanation; the explanation is requested for the correct answer, not the chosen option |
| `QuizMode.QuizSession.HandleAnswerSelect` | components/QuizMode.tsx:55-77 | with a truthy recorded answer the call changes nothing and requests nothing; otherwise it behaves as `RecordAnswer` |
| `QuizMode.QuizSession.HandleAnswerSelectOnce` | components/QuizMode.tsx:56 | the corrected guard: after any recorded answer, the empty string included, a call changes nothing; the score bound is preserved |
| `QuizMode.QuizSession.CompleteExplanation` | components/QuizMode.tsx:69-76 | the explanation becomes the fetched text, or the fixed fallback text on failure; loading stops; nothing else changes; during play with an answer, the next-question control is offered |
| `QuizMode.QuizSession.HandleNextQuestion` | components/QuizMode.tsx:79-88 | before the last question, the index rises by exactly one and answer, verdict and explanation are cleared; otherwise the state becomes finished and index and score are kept; the index never reaches the number of questions |
| `QuizMode.QuizSession.RestartQuiz` | components/QuizMode.tsx:90-94 | the state becomes idle, the question list empty and the explanation cleared; index, score, answer, verdict and error are kept |
| `QuizMode.QuizSession.ButtonClass` | components/QuizMode.tsx:96-106 | the style is neutral iff no answer is recorded; once one is, the correct option is highlighted, a wrong chosen option is marked wrong, and the rest are dimmed |
| `QuizMode.ScoreAtMostQuestions` | components/QuizMode.tsx:55-88 | the score is at most the current index, plus one once the current question is answered; with any questions, it is at most their number |
| `QuizMode.WrongMarkMatchesVerdict` | components/QuizMode.tsx:96-106 | during play, an option is marked wrong exactly when it is the chosen answer and the recorded verdict is "incorrect" |
| `QuizMode.EmptyAnswerScoredTwice` | components/QuizMode.tsx:55-65 | with the guard as written, selecting an empty correct answer twice scores 2 at index 0 |
| `QuizMode.EmptyWrongAnswerThenCorrect` | components/QuizMode.tsx:55-65 | with the guard as written, a wrong selection of an empty option can be followed by the correct option, which is scored |
| `QuizMode.EmptyAnswerScoredOnce` | components/QuizMode.tsx:56 | with the corrected guard, the same two selections score 1 |
| `LearnMode.FilterCountries` | components/LearnMode.tsx:12-16 | every shown country's lowercased name contains the lowercased term; every catalog country that matches is shown; nothing else is shown; the catalog order is kept |
| `LearnMode.EmptyTermKeepsCatalog` | components/LearnMode.tsx:13-15 | an empty search term shows the whole catalog |
| `LearnMode.CaseInsensitiveSearch` | components/LearnMode.tsx:14 | terms that differ only in letter case show the same countries |
| `LearnMode.NarrowingSearch` | components/LearnMode.tsx:13-15 | extending the term never adds a country |
| `LearnMode.LearnView.constructor` | components/LearnMode.tsx:9-10 | the view starts with an empty search and no selected country |
| `LearnMode.LearnView.Shown` | components/LearnMode.tsx:12-16 | the grid shows exactly the catalog countries whose lowercased name contains the lowercased search term, in catalog order |
| `LearnMode.LearnView.ModalOpen` | components/LearnMode.tsx:49-51 | the overlay is mounted exactly when a country is selected, since a country record is always truthy |
| `LearnMode.LearnView.SetSearchTerm` | components/LearnMode.tsx:38 | the search term becomes the typed text and the selection is kept; the grid then shows the catalog filtered by the new term |
| `LearnMode.LearnView.SelectCountry` | components/LearnMode.tsx:18-20 | the selected country becomes the given one, and the overlay is open; the search and the grid are unchanged |
| `LearnMode.LearnView.CloseModal` | components/LearnMode.tsx:22-24 | no country is selected, and the overlay is closed; the search and the grid are unchanged |
| `FlagDetailModal.FlagDetail.constructor` | components/FlagDetailModal.tsx:13-15 | the overlay starts with an empty explanation, loading, and no error |
| `FlagDetailModal.FlagDetail.BeginFetch` | components/FlagDetailModal.tsx:17-21 | loading starts, the error is cleared, and the request is for the country's name |
| `FlagDetailModal.FlagDetail.CompleteFetch` | components/FlagDetailModal.tsx:20-27 | success stores the text; failure sets the error to "Failed to fetch flag details." and keeps the old text; either way loading ends |
| `FlagDetailModal.FlagDetail.Panes` | components/FlagDetailModal.tsx:71-79 | in every valid state exactly one pane is shown: the spinner iff loading, the error iff one is set, the formatted body iff neither |

The invariants the session keeps are `QuizSession.Valid()` and
`QuizSession.ScoreBounded()`:

- During play there is at least one question.
- With any questions, the index points into them.
- A verdict is recorded exactly when an answer is.
- While the answered question is current, the verdict says whether the
  answer equals its correct answer.
- The score is the number of correct verdicts since the last successful start.
- `ScoreBounded()`: there have been at most as many verdicts as questions
  reached.

## Left out

- `services/geminiService.ts` is not part of this model. That covers the
  client, the prompts, the JSON parsing, the credential check and the random
  shuffle of options. Its results are the `Settled` inputs of the completion
  events.
- The percentage shown on the results screen (components/QuizMode.tsx:134)
  uses floating-point rounding.
- JSX, the Tailwind class strings, the image URL templates and the React
  hook wiring are left out. `ButtonClass` returns a style tag instead of a
  class string, and the formatters return tagged blocks instead of elements.
- `Header`, `FlagCard`, `Button` and `App` are presentation only.
- Concurrency: a completion is a discrete event that the model accepts in
  any state. This covers a late result after a restart or a close. The model
  does not capture which of two overlapping fetches finishes last.
- `Text.LowerChar`: lowercases ASCII letters only. JavaScript's
  `toLowerCase` also maps other Unicode letters. White space is the full
  ECMAScript set. JavaScript strings are UTF-16, and Dafny strings are
  sequences of Unicode scalar values.
- `QuizMode.QuizSession.HandleAnswerSelect`: preserves `ScoreBounded()` only
  from a state with no recorded answer. An empty recorded answer does not
  lock the question (see Findings).
- `QuizMode.ScoreAtMostQuestions`: bounds the score by the number of
  questions only when there are any. "Next" after a restart reaches
  `finished` with no questions and the old score. Only the screen's gating
  rules this out, and the model does not rely on that gating.

## Findings

| source | as written | input that shows it | evidently intended | confidence | as-written member | corrected member |
|---|---|---|---|---|---|---|
| components/QuizMode.tsx:56 | the once-only guard tests the recorded answer for truthiness, so a recorded empty string does not lock the question; the option buttons stay enabled for the same reason | a generated question with an empty option: if it is the correct answer, selecting it twice scores 2 on one question; if it is wrong, selecting it and then the correct option scores 1 after a wrong answer | the first selection locks the question whatever it was (a null test) | low: needs a generated empty option; not executed | `QuizMode.EmptyAnswerScoredTwice` | `QuizMode.QuizSession.HandleAnswerSelectOnce` |
