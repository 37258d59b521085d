/** The exam file as the validator sees it once parsed, and the validator
    itself (`validateImportedJsonFormat`). */
module ExamFormat {
  import opened Wrappers
  import opened JsText

  /** One question of the exam file; `None` stands for a field that is
      `null` or `undefined`. */
  datatype Question = Question(
    title: Option<string>,
    alternatives: Option<seq<string>>,
    correctAnswer: Option<int>)

  /** The parsed exam file; `questions` is `None` when the field is absent. */
  datatype Exam = Exam(questions: Option<seq<Question>>)

  /** The value `{}` that the reset handlers assign to the exam. */
  const EmptyExam: Exam := Exam(None)

  /** The least number of alternatives a question must have. */
  const MinAlternatives: nat := 5

  /** The four checks of the validator, one error each. */
  datatype ValidationError =
    | NoQuestions
    | MissingTitle
    | TooFewAlternatives
    | BlankAlternative
    | BadCorrectAnswer

  /** The text of the `Error` thrown for each failure. */
  function Message(e: ValidationError): string
  {
    match e
    case NoQuestions => "Invalid JSON Format: The exam file must have at least one question."
    case MissingTitle => "Invalid JSON Format: All questions must have a title."
    case TooFewAlternatives => "Invalid JSON Format: All questions must have five alternatives."
    case BlankAlternative => "Invalid JSON Format: All alternatives must be writen down."
    case BadCorrectAnswer => "Invalid JSON Format: All questions correct answer's must be a number from 1 to 5."
  }

  // What a well-formed question is, stated independently of the order in
  // which the validator looks at it.

  /** Title, alternatives and correct answer are all present. */
  predicate FieldsPresent(q: Question)
  {
    q.title.Some? && q.alternatives.Some? && q.correctAnswer.Some?
  }

  ghost predicate TitleOk(q: Question)
  {
    q.title.Some? && !Blank(q.title.value)
  }

  ghost predicate EnoughAlternatives(q: Question)
  {
    q.alternatives.Some? && |q.alternatives.value| >= MinAlternatives
  }

  ghost predicate AlternativesWritten(q: Question)
    requires q.alternatives.Some?
  {
    forall i :: 0 <= i < |q.alternatives.value| ==> !Blank(q.alternatives.value[i])
  }

  ghost predicate CorrectAnswerPositive(q: Question)
  {
    q.correctAnswer.Some? && q.correctAnswer.value > 0
  }

  ghost predicate QuestionOk(q: Question)
  {
    TitleOk(q) && EnoughAlternatives(q) && AlternativesWritten(q) && CorrectAnswerPositive(q)
  }

  ghost predicate ExamOk(exam: Exam)
  {
    && exam.questions.Some?
    && |exam.questions.value| > 0
    && forall i :: 0 <= i < |exam.questions.value| ==> QuestionOk(exam.questions.value[i])
  }

  /** The inner `forEach` over the alternatives: true when some alternative
      trims to the empty string. */
  function HasBlankAlternative(alternatives: seq<string>): (b: bool)
    ensures b <==> exists i :: 0 <= i < |alternatives| && Blank(alternatives[i])
  {
    if alternatives == [] then false
    else if TrimEmptyIffBlank(alternatives[0]); |Trim(alternatives[0])| == 0 then true
    else
      var b := HasBlankAlternative(alternatives[1..]);
      assert forall i :: 1 <= i < |alternatives| ==> alternatives[i] == alternatives[1..][i - 1];
      b
  }

  /** The checks on one question, in the source's order: title, number of
      alternatives, each alternative, then the correct answer (see
      `QuestionCheckOrder`). A passing question has all its fields. */
  function ValidateQuestion(q: Question): (r: Outcome<ValidationError>)
    ensures r.Pass? ==> FieldsPresent(q)
    ensures r.Fail? ==> r.error != NoQuestions
  {
    if q.title.None? || |Trim(q.title.value)| == 0 then Fail(MissingTitle)
    else if q.alternatives.None? || |q.alternatives.value| < MinAlternatives then Fail(TooFewAlternatives)
    else if HasBlankAlternative(q.alternatives.value) then Fail(BlankAlternative)
    else if q.correctAnswer.None? || q.correctAnswer.value <= 0 then Fail(BadCorrectAnswer)
    else Pass
  }

  /** A question passes exactly when it is well formed, and each error is
      reported exactly when its check is the first one to fail. */
  lemma QuestionCheckOrder(q: Question)
    ensures ValidateQuestion(q).Pass? <==> QuestionOk(q)
    ensures ValidateQuestion(q) == Fail(MissingTitle) <==> !TitleOk(q)
    ensures ValidateQuestion(q) == Fail(TooFewAlternatives) <==> TitleOk(q) && !EnoughAlternatives(q)
    ensures ValidateQuestion(q) == Fail(BlankAlternative) <==>
      TitleOk(q) && EnoughAlternatives(q) && !AlternativesWritten(q)
    ensures ValidateQuestion(q) == Fail(BadCorrectAnswer) <==>
      TitleOk(q) && EnoughAlternatives(q) && AlternativesWritten(q) && !CorrectAnswerPositive(q)
  {
    if q.title.Some? {
      TrimEmptyIffBlank(q.title.value);
    }
  }

  /** The outer `forEach`: questions are checked in order and the first
      failing question decides the error (see `QuestionsChecked`). */
  function ValidateQuestions(qs: seq<Question>): (r: Outcome<ValidationError>)
    ensures r.Fail? ==> r.error != NoQuestions
    ensures r.Pass? ==> forall i :: 0 <= i < |qs| ==> FieldsPresent(qs[i])
  {
    if qs == [] then Pass
    else
      var head := ValidateQuestion(qs[0]);
      if head.Fail? then head
      else
        var r := ValidateQuestions(qs[1..]);
        assert forall i :: 1 <= i < |qs| ==> qs[i] == qs[1..][i - 1];
        r
  }

  /** The question checks pass exactly when every question is well formed,
      and a failure is the failure of the first question that is not. */
  lemma {:induction false} QuestionsChecked(qs: seq<Question>)
    ensures ValidateQuestions(qs).Pass? <==> forall i :: 0 <= i < |qs| ==> QuestionOk(qs[i])
    ensures ValidateQuestions(qs).Fail? ==>
      exists i :: FirstFailing(qs, i) && ValidateQuestions(qs) == ValidateQuestion(qs[i])
  {
    if qs != [] {
      QuestionCheckOrder(qs[0]);
      if ValidateQuestion(qs[0]).Fail? {
        assert FirstFailing(qs, 0);
      } else {
        QuestionsChecked(qs[1..]);
        var r := ValidateQuestions(qs[1..]);
        assert r == ValidateQuestions(qs);
        if r.Fail? {
          var j :| FirstFailing(qs[1..], j) && r == ValidateQuestion(qs[1..][j]);
          assert FirstFailing(qs, j + 1);
        } else {
          forall i | 0 <= i < |qs| ensures QuestionOk(qs[i]) {
            if i > 0 { assert qs[i] == qs[1..][i - 1]; }
          }
        }
      }
    }
  }

  /** Question `i` is the first one that is not well formed. */
  ghost predicate FirstFailing(qs: seq<Question>, i: int)
  {
    && 0 <= i < |qs|
    && !QuestionOk(qs[i])
    && forall j :: 0 <= j < i ==> QuestionOk(qs[j])
  }

  /** `validateImportedJsonFormat`: a missing or empty question list is
      reported before anything else (see `ValidateAcceptsExactlyWellFormed`
      for what passes). */
  function Validate(exam: Exam): (r: Outcome<ValidationError>)
    ensures r == Fail(NoQuestions) <==> exam.questions.None? || exam.questions.value == []
    ensures r.Pass? ==> forall i :: 0 <= i < |exam.questions.value| ==> FieldsPresent(exam.questions.value[i])
  {
    if exam.questions.None? || |exam.questions.value| == 0 then Fail(NoQuestions)
    else ValidateQuestions(exam.questions.value)
  }

  /** Validation passes exactly on well-formed exams. */
  lemma ValidateAcceptsExactlyWellFormed(exam: Exam)
    ensures Validate(exam).Pass? <==> ExamOk(exam)
  {
    if exam.questions.Some? {
      QuestionsChecked(exam.questions.value);
    }
  }

  /** Each question of a validated exam is well formed. */
  lemma ValidatedQuestionOk(exam: Exam, i: int)
    requires Validate(exam).Pass? && 0 <= i < |exam.questions.value|
    ensures QuestionOk(exam.questions.value[i])
  {
    ValidateAcceptsExactlyWellFormed(exam);
  }

  /** Any error other than a missing question list is the error of the
      first question that is not well formed. */
  lemma ErrorComesFromFirstFailing(exam: Exam)
    requires Validate(exam).Fail? && Validate(exam).error != NoQuestions
    ensures exists i :: FirstFailing(exam.questions.value, i) && Validate(exam) == ValidateQuestion(exam.questions.value[i])
  {
    QuestionsChecked(exam.questions.value);
  }

  /** Conversely, the first question that is not well formed determines the
      error, whatever the questions after it hold. */
  lemma FirstFailureWins(exam: Exam, i: int)
    requires exam.questions.Some? && FirstFailing(exam.questions.value, i)
    ensures Validate(exam) == ValidateQuestion(exam.questions.value[i])
  {
    FirstFailureWinsFrom(exam.questions.value, i);
  }

  lemma {:induction false} FirstFailureWinsFrom(qs: seq<Question>, i: int)
    requires FirstFailing(qs, i)
    ensures ValidateQuestions(qs) == ValidateQuestion(qs[i])
  {
    QuestionCheckOrder(qs[0]);
    if i > 0 {
      assert FirstFailing(qs[1..], i - 1);
      FirstFailureWinsFrom(qs[1..], i - 1);
    }
  }

  /** Validation imposes no upper bound on the correct answer: a question
      with `correctAnswer` beyond its alternatives passes. */
  lemma CorrectAnswerUnbounded()
    ensures Validate(Exam(Some([Question(Some("Q"), Some(["a", "b", "c", "d", "e"]), Some(6))]))).Pass?
  {
    var alternatives := ["a", "b", "c", "d", "e"];
    var q := Question(Some("Q"), Some(alternatives), Some(6));
    assert !Blank("Q") by { assert !IsWhiteSpace("Q"[0]); }
    forall i | 0 <= i < |alternatives| ensures !Blank(alternatives[i]) {
      assert !IsWhiteSpace(alternatives[i][0]);
    }
    assert QuestionOk(q);
    assert ExamOk(Exam(Some([q])));
    ValidateAcceptsExactlyWellFormed(Exam(Some([q])));
  }
}
