# Exam session model

This project models the exam logic of a single-page quiz application, `public/main.js`. The user loads a JSON exam file. The page checks that the exam is well formed and builds an answer key from it. It then asks the questions one at a time, scores each confirmed answer, and finally shows a results table. Two buttons reset the page: "do another exam" and "cancel this exam".

Modules:

- `Wrappers`: `Option`, which stands for a JavaScript value that may be `null` or `undefined`, and `Outcome`, which stands for a check that either passes or throws an error.
- `JsText`: the whitespace set and `String.prototype.trim` as ECMAScript defines them. It proves that trimming leaves nothing exactly when the string is blank.
- `ExamFormat`: the exam and question records, `validateImportedJsonFormat` with its error messages in check order, and the proofs that validation accepts exactly the well-formed exams and reports the first failing question.
- `AnswerKeys`: the entries `loadCorrectTemplate` writes, numbered from 1.
- `Results`: the rows `loadFinally` displays and the score counted over answers and key.
- `ExamSession`: the page's global state as a class `Session`, with its fields `exam`, `userAnswers`, `correctTemplate`, `userPoints` and `cursor`.
  - `cursor` is the `question-number` attribute of the question title.
  - The handlers are methods of `Session`: load a file, build the key, show a question, answer it, show the results, and the two resets.
  - Two invariants are proved to be preserved:
    - `ScoreConsistent`: the score equals the number of questions before the cursor that were answered with the key's option.
    - `InSession`: the key belongs to the loaded exam, and exactly the questions before the cursor have answers.
  - `TakeExam` runs a whole exam from a fresh page.

Where the code's behaviour may be unexpected, the model follows the code:

- A question needs at least five alternatives (`length < 5` is rejected), not exactly five. Only the first five are shown.
- The check on `correctAnswer` rejects only values `<= 0`, although its message says "a number from 1 to 5". A larger value passes validation, and the key then has no text for it (`CorrectAnswerUnbounded`, `ValidatedKeyMayLackText`).
- Cancelling an exam clears the answers, the key, the exam and the score, but not the question cursor. The next exam therefore starts at the cancelled exam's cursor (`CancelThenLoad`).
- A file that fails validation still replaces the current exam, because `globalExam` is assigned before `main` validates it. The key is then left as it was.
- Past the last question there is no "no current question" error: `loadQuestion` switches to the results view.
- An answer is stored as given, with no range check. An unanswered question reads back as `undefined` (`None`) and counts as wrong.
- `loadCorrectTemplate` writes into the existing key without clearing it first, so the new key is merged over whatever the key already held.

## Model

| member | source | states |
|---|---|---|
| JsText.TrimStartDropsBlank | public/main.js:61 | `trim` removes only leading whitespace: the result is a suffix of the input, the removed prefix is all whitespace, and the result does not start with whitespace |
| JsText.TrimEndDropsBlank | public/main.js:64 | the mirror image for trailing whitespace: the result is a prefix of the input, the removed suffix is all whitespace, and the result does not end with whitespace |
| JsText.TrimEmptyIffBlank | public/main.js:61-64 | `s.trim().length === 0` holds exactly when every character of `s` is whitespace |
| ExamFormat.HasBlankAlternative | public/main.js:63-65 | the alternatives check fails exactly when some alternative is blank |
| ExamFormat.ValidateQuestion | public/main.js:61-66 | a question that passes has its title, alternatives and correct answer present; a failing question never reports the "no questions" error |
| ExamFormat.QuestionCheckOrder | public/main.js:61-66 | the checks run in source order: a missing or blank title is reported first, then fewer than five alternatives, then a blank alternative, then a missing or non-positive correct answer; a question passes exactly when all four conditions hold |
| ExamFormat.ValidateQuestions | public/main.js:60-67 | a pass means every question has all three fields present; a failure is never "no questions" |
| ExamFormat.QuestionsChecked | public/main.js:60-67 | the list passes exactly when every question is well formed; a failure is the error of a question that is the first failing one |
| ExamFormat.Validate | public/main.js:58-68 | "no questions" is reported exactly when `questions` is missing or empty; a pass means every question has all its fields |
| ExamFormat.ValidateAcceptsExactlyWellFormed | public/main.js:58-68 | validation passes exactly when the exam is well formed: it has at least one question, and each question has a non-blank title, at least five alternatives, none of them blank, and a positive correct answer |
| ExamFormat.ValidatedQuestionOk | public/main.js:58-68 | every question of an exam that passed validation is well formed |
| ExamFormat.ErrorComesFromFirstFailing | public/main.js:60-67 | a rejected exam with questions reports the error of its first ill-formed question |
| ExamFormat.FirstFailureWins | public/main.js:60-67 | when question `i` fails and every earlier one passes, the exam's error is question `i`'s error |
| ExamFormat.FirstFailureWinsFrom | public/main.js:60-67 | the same fact for the loop over the question list |
| ExamFormat.CorrectAnswerUnbounded | public/main.js:66 | a question with five alternatives and correct answer 6 passes validation |
| AnswerKeys.AnswerKey | public/main.js:136-145 | the key has exactly the numbers 1 to N; entry k is built from question k-1 |
| AnswerKeys.AnswerKeyEntries | public/main.js:139-142 | entry k's option is question k's correct answer; its text is the alternative at that 1-based position when one exists, and absent otherwise |
| AnswerKeys.AnswerKeyExtend | public/main.js:137-144 | one loop step adds entry i+1 for question i to the key of the first i questions |
| AnswerKeys.ValidatedKeyBuildable | public/main.js:47-49 | after validation passes, every question has alternatives and a correct answer, and every key option is at least 1 |
| AnswerKeys.ValidatedKeyMayLackText | public/main.js:140 | a validated question with correct answer 6 gets a key entry without text |
| Results.CountCorrect | public/main.js:177 | the score over questions 1..n is at most n, and equals n exactly when every one of them was answered with the key's option |
| Results.Report | public/main.js:100-125 | one row per question, in order; row i shows number i+1, the stored answer or none, whether that answer equals the key's option, and the key's option and text |
| Results.CountCorrectRows | public/main.js:112-116 | the number of rows marked correct is at most the number of rows |
| Results.ReportCountsCorrect | public/main.js:100-132 | the rows marked correct are exactly as many as the score counts |
| Results.CountCorrectIgnoresLater | public/main.js:175-177 | storing an answer for a later question leaves the score over the earlier ones unchanged |
| Results.ScoreAfterAnswer | public/main.js:175-177 | answering question n adds one to the score over the first n-1 questions exactly when the answer equals the key's option |
| Results.CountCorrectNoAnswers | public/main.js:148-156 | with no stored answers the score is 0, whatever the key |
| ExamSession.Session.constructor | public/main.js:37-43 | the page starts with no exam, no answers, an empty key, score 0 and question 1 |
| ExamSession.Session.Load | public/main.js:219-222 | the parsed exam replaces the current one; the outcome is validation's; the key is merged with the new exam's key only on a pass; answers, score and cursor are unchanged; an empty score stays consistent |
| ExamSession.Session.LoadCorrectTemplate | public/main.js:136-145 | the key becomes the old key with the exam's entries written over it |
| ExamSession.Session.LoadQuestion | public/main.js:70-94 | the results view appears exactly when the cursor is past the last question; otherwise the screen shows the question under the cursor, its title (which is not blank) and its first five alternatives (none of them blank) |
| ExamSession.Session.Answer | public/main.js:169-184 | the answer is stored under the cursor; the score rises by one exactly when the answer matches the key; the cursor advances; the results view follows exactly when the cursor has passed the last question; both invariants are preserved |
| ExamSession.Session.Finally | public/main.js:96-133 | the rows are the report over the stored answers and key; the points are the score; when the score is consistent and every question is answered, the points equal the rows marked correct |
| ExamSession.Session.DoAnotherExam | public/main.js:147-157 | answers, key, exam and score are cleared and the cursor returns to 1 |
| ExamSession.Session.CancelCurrentExam | public/main.js:159-167 | answers, key, exam and score are cleared, and the cursor keeps its value |
| ExamSession.ScoreBounded | public/main.js:177 | during an exam the score is between 0 and the number of answered questions, which is at most the number of questions |
| ExamSession.MatchCount | public/main.js:177 | the number of choices equal to their question's correct answer is at most the number of choices |
| ExamSession.AnswersOf | public/main.js:175 | the answer map after answering questions 1..n in order holds exactly keys 1..n, each with its choice |
| ExamSession.ChoiceStep | public/main.js:175-177 | one more answer extends the answer map and the match count by that answer |
| ExamSession.Start | public/main.js:219-222 | loading a valid file into a fresh page leaves a session at question 1 whose invariants hold |
| ExamSession.AnswerEach | public/main.js:169-184 | answering every question in order reaches the results view only after the last answer; the score is the match count and equals the rows marked correct |
| ExamSession.RowsOfChoices | public/main.js:100-124 | after every question is answered, row i shows choice i, the correct answer of question i, and "correct" exactly when they are equal |
| ExamSession.TakeExam | public/main.js:45-56 | a whole exam on a fresh page: the outcome is validation's; a rejected file produces no answers; for a valid one only the last answer finishes, and the score equals both the match count and the rows marked correct |
| ExamSession.CancelThenLoad | public/main.js:159-167 | after cancelling, a valid new exam resumes at the old cursor, or goes to the results when it has fewer questions |
| ExamSession.TwoQuestionExample | public/main.js:169-184 | two questions with keys 2 and 4, answered 2 then 1: only the second answer finishes, the score is 1, row 1 is correct and row 2 is wrong with correct option 4 |

## Left out

- Rendering and the DOM are not modelled: hiding and showing sections, filling spans, creating and removing result rows, and resetting the file input. Only the values written into them are modelled (`Screen`, `ResultRow`).
- The confirmation modal and its dispatch on the `action` attribute are not modelled. Each confirmed action is modelled as the direct call of its handler.
- File selection and the 5 MiB size check are not modelled. The file reader is not modelled. `JSON.parse` is not modelled: a parsed file is the `Exam` value it yields, with `Option` for fields that are missing or `null`. `alert` and `console.log` are not modelled either: a thrown validation error is the `Outcome` value, and `Message` gives its text.
- JavaScript's dynamic typing is not modelled. The model does not cover a `questions` that is `null` or not an array, a title or alternative that is not a string, or a `correctAnswer` that is a string or a number that is not an integer: in the source these throw a `TypeError` or compare loosely. A non-integer `correctAnswer` such as 2.5, or `1e400` (which parses to `Infinity`), passes the `<= 0` test at line 66. Its key entry then has `undefined` text at line 140, and no answer read from a radio button can equal it at line 177. The model gives `correctAnswer` the type `int`, so it does not cover these values.
- Answer: requires the cursor to have a key entry. In the source, line 175 stores the answer first, and then line 177 reads `.option` of a missing entry, which throws a `TypeError` after the answer is stored and before the cursor moves. That path is left out. It is unreachable from the page: the confirm button is only shown while a question with a key entry is on screen.
- Reading the selected radio button is not modelled. The answer is a parameter of `Answer`. If no radio is checked, the source throws a `TypeError`, and that case is not modelled.
- The `question-number` attribute is the integer `cursor`. Its initial value comes from the HTML page, which is not part of this model; it is taken to be 1.
- `CountCorrectRows`: this only bounds the count. Its link to the score is stated by `ReportCountsCorrect`.
