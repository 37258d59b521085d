/** The exam session: the global state of the page (exam, answers, answer
    key, score and the question cursor) and the handlers that change it. */
module ExamSession {
  import opened Wrappers
  import opened JsText
  import opened ExamFormat
  import opened AnswerKeys
  import opened Results

  /** What `loadQuestion` puts on screen: question `number` with its title
      and the five alternatives it shows, or the results view. */
  datatype Screen =
    | Ask(number: int, title: string, shown: seq<string>)
    | ShowResults

  /** The number of alternatives the question view displays. */
  const ShownAlternatives: nat := 5

  class Session {
    var exam: Exam
    var userAnswers: map<int, int>
    var correctTemplate: map<int, KeyEntry>
    var userPoints: int
    /** The `question-number` attribute of the question title: the 1-based
        number of the question awaiting an answer. */
    var cursor: int

    ghost predicate Valid()
      reads this
    {
      cursor >= 1
    }

    /** The score is the number of questions before the cursor answered with
        the key's option. */
    ghost predicate ScoreConsistent()
      reads this
    {
      cursor >= 1 && userPoints == CountCorrect(userAnswers, correctTemplate, cursor - 1)
    }

    /** An exam in progress: the key is the one built from the exam,
        exactly the questions before the cursor have answers, and the
        cursor is at most one past the last question. */
    ghost predicate InSession()
      reads this
    {
      && cursor >= 1
      && exam.questions.Some?
      && KeyBuildable(exam.questions.value)
      && correctTemplate == AnswerKey(exam.questions.value)
      && cursor <= |exam.questions.value| + 1
      && forall k :: k in userAnswers <==> 1 <= k < cursor
    }

    /** The page as first loaded: no exam, no answers, score 0, question 1. */
    constructor ()
      ensures exam == EmptyExam && userAnswers == map[] && correctTemplate == map[]
      ensures userPoints == 0 && cursor == 1
      ensures Valid() && ScoreConsistent()
    {
      exam := EmptyExam;
      userAnswers := map[];
      correctTemplate := map[];
      userPoints := 0;
      cursor := 1;
    }

    /** The file reader's `onload` followed by `main`: the parsed exam
        replaces the current one whether or not it validates, and only a
        valid exam has its key built. */
    method Load(parsed: Exam) returns (outcome: Outcome<ValidationError>)
      requires Valid()
      modifies this
      ensures Valid()
      ensures exam == parsed && outcome == Validate(parsed)
      ensures outcome.Pass? ==> correctTemplate == old(correctTemplate) + AnswerKey(parsed.questions.value)
      ensures outcome.Fail? ==> correctTemplate == old(correctTemplate)
      ensures userAnswers == old(userAnswers) && userPoints == old(userPoints) && cursor == old(cursor)
      ensures old(userAnswers) == map[] && old(userPoints) == 0 ==> ScoreConsistent()
    {
      exam := parsed;
      outcome := Validate(exam);
      if outcome.Pass? {
        ValidatedKeyBuildable(exam);
        LoadCorrectTemplate();
      }
      if userAnswers == map[] && userPoints == 0 {
        CountCorrectNoAnswers(correctTemplate, cursor - 1);
      }
    }

    /** `loadCorrectTemplate`: one entry per question is written into the
        existing key, numbered from 1. */
    method LoadCorrectTemplate()
      requires exam.questions.Some? && KeyBuildable(exam.questions.value)
      modifies this`correctTemplate
      ensures correctTemplate == old(correctTemplate) + AnswerKey(exam.questions.value)
    {
      var qs := exam.questions.value;
      var i := 0;
      while i < |qs|
        invariant 0 <= i <= |qs|
        invariant KeyBuildable(qs[..i])
        invariant correctTemplate == old(correctTemplate) + AnswerKey(qs[..i])
      {
        AnswerKeyExtend(qs, i);
        MergeThenSet(old(correctTemplate), AnswerKey(qs[..i]), i + 1, EntryFor(qs[i]));
        correctTemplate := correctTemplate[i + 1 := EntryFor(qs[i])];
        i := i + 1;
      }
      assert qs[..i] == qs;
    }

    /** The finish test and the question view of `loadQuestion`: past the
        last question it shows the results, otherwise the current question
        with its first five alternatives, none of them blank. */
    function LoadQuestion(): (screen: Screen)
      reads this
      requires Valid() && Validate(exam).Pass?
      ensures screen.ShowResults? <==> cursor > |exam.questions.value|
      ensures screen.Ask? ==>
        var q := exam.questions.value[cursor - 1];
        && screen.number == cursor
        && screen.title == q.title.value && !Blank(screen.title)
        && |screen.shown| == ShownAlternatives && screen.shown <= q.alternatives.value
        && forall i :: 0 <= i < |screen.shown| ==> !Blank(screen.shown[i])
    {
      var qs := exam.questions.value;
      if cursor > |qs| then ShowResults
      else
        ValidatedQuestionOk(exam, cursor - 1);
        Ask(cursor, qs[cursor - 1].title.value, qs[cursor - 1].alternatives.value[..ShownAlternatives])
    }

    /** `handleUserAnswer`: records the answer for the current question,
        scores it against the key, moves the cursor on, and reports whether
        `loadQuestion` now shows the results. */
    method Answer(option: int) returns (finished: bool)
      requires Valid() && exam.questions.Some? && cursor in correctTemplate
      modifies this`userAnswers, this`userPoints, this`cursor
      ensures Valid()
      ensures userAnswers == old(userAnswers)[old(cursor) := option]
      ensures userPoints == old(userPoints) + if option == correctTemplate[old(cursor)].option then 1 else 0
      ensures cursor == old(cursor) + 1
      ensures finished <==> cursor > |exam.questions.value|
      ensures old(ScoreConsistent()) ==> ScoreConsistent()
      ensures old(InSession()) ==> InSession()
    {
      var n := cursor;
      ghost var wasInSession := InSession();
      ghost var answered := userAnswers;
      ScoreAfterAnswer(userAnswers, correctTemplate, n, option);
      userAnswers := userAnswers[n := option];
      if correctTemplate[n].option == option {
        userPoints := userPoints + 1;
      }
      cursor := n + 1;
      finished := cursor > |exam.questions.value|;
      if wasInSession {
        assert n <= |exam.questions.value|;
        assert forall k :: k in userAnswers <==> k in answered || k == n;
      }
    }

    /** The data of `loadFinally`: one row per question, the score and the
        number of questions. When the cursor has passed the last question
        the score equals the number of rows marked correct. */
    method Finally() returns (rows: seq<ResultRow>, points: int, total: nat)
      requires exam.questions.Some? && Covers(correctTemplate, |exam.questions.value|)
      ensures total == |exam.questions.value| && points == userPoints
      ensures rows == Report(total, userAnswers, correctTemplate)
      ensures ScoreConsistent() && cursor == total + 1 ==> points == CountCorrectRows(rows)
    {
      total := |exam.questions.value|;
      rows := [];
      var i := 0;
      while i < total
        invariant 0 <= i <= total
        invariant rows == Report(i, userAnswers, correctTemplate)
      {
        rows := rows + [RowFor(userAnswers, correctTemplate, i + 1)];
        i := i + 1;
      }
      points := userPoints;
      ReportCountsCorrect(total, userAnswers, correctTemplate);
    }

    /** `handleDoAnotherExam`: everything is cleared and the cursor goes
        back to question 1. */
    method DoAnotherExam()
      modifies this
      ensures exam == EmptyExam && userAnswers == map[] && correctTemplate == map[]
      ensures userPoints == 0 && cursor == 1
      ensures Valid() && ScoreConsistent()
    {
      userAnswers := map[];
      correctTemplate := map[];
      exam := EmptyExam;
      cursor := 1;
      userPoints := 0;
    }

    /** `handleCancelCurrentExam`: everything is cleared except the cursor,
        which keeps its value. */
    method CancelCurrentExam()
      requires Valid()
      modifies this
      ensures exam == EmptyExam && userAnswers == map[] && correctTemplate == map[]
      ensures userPoints == 0 && cursor == old(cursor)
      ensures Valid() && ScoreConsistent()
    {
      userAnswers := map[];
      correctTemplate := map[];
      exam := EmptyExam;
      userPoints := 0;
      CountCorrectNoAnswers(correctTemplate, cursor - 1);
    }
  }

  /** The score never exceeds the number of questions answered, nor, during
      an exam, the number of questions. */
  lemma ScoreBounded(s: Session)
    requires s.ScoreConsistent() && s.InSession()
    ensures 0 <= s.userPoints <= s.cursor - 1 <= |s.exam.questions.value|
  {
  }

  /** How many of the choices equal the correct answer of the question at
      the same position. */
  function MatchCount(qs: seq<Question>, choices: seq<int>): (c: nat)
    requires |choices| <= |qs|
    ensures c <= |choices|
  {
    if choices == [] then 0
    else
      var last := |choices| - 1;
      MatchCount(qs, choices[..last]) + if qs[last].correctAnswer == Some(choices[last]) then 1 else 0
  }

  /** The answers recorded after giving `choices` in order from question 1:
      question k holds the k-th choice, and no other question has one. */
  function AnswersOf(choices: seq<int>): (answers: map<int, int>)
    ensures forall k :: k in answers <==> 1 <= k <= |choices|
    ensures forall k :: 1 <= k <= |choices| ==> answers[k] == choices[k - 1]
  {
    if choices == [] then map[]
    else
      var last := |choices| - 1;
      var answers := AnswersOf(choices[..last]);
      assert forall i :: 0 <= i < last ==> choices[..last][i] == choices[i];
      answers[|choices| := choices[last]]
  }

  /** One more choice records one more answer, and adds one to the match
      count exactly when it is the question's correct answer. */
  lemma ChoiceStep(qs: seq<Question>, choices: seq<int>, i: nat)
    requires i < |choices| <= |qs|
    ensures AnswersOf(choices[..i + 1]) == AnswersOf(choices[..i])[i + 1 := choices[i]]
    ensures MatchCount(qs, choices[..i + 1])
      == MatchCount(qs, choices[..i]) + if qs[i].correctAnswer == Some(choices[i]) then 1 else 0
  {
    assert choices[..i + 1][..i] == choices[..i];
  }

  /** The user confirming one answer per question, in order, from the
      first question, and the results computed at the end. */
  method AnswerEach(s: Session, qs: seq<Question>, choices: seq<int>)
    returns (finishedAfter: seq<bool>, rows: seq<ResultRow>, points: int)
    requires s.InSession() && s.ScoreConsistent() && s.cursor == 1
    requires s.exam.questions == Some(qs) && |choices| == |qs|
    modifies s
    ensures KeyBuildable(qs)
    ensures |finishedAfter| == |choices|
    ensures forall i :: 0 <= i < |choices| ==> (finishedAfter[i] <==> i == |choices| - 1)
    ensures points == MatchCount(qs, choices)
    ensures points == CountCorrectRows(rows)
    ensures rows == Report(|choices|, AnswersOf(choices), AnswerKey(qs))
  {
    assert s.userAnswers == map[];
    finishedAfter := [];
    var i := 0;
    while i < |choices|
      invariant 0 <= i <= |choices|
      invariant s.exam == old(s.exam) && s.correctTemplate == old(s.correctTemplate)
      invariant s.ScoreConsistent() && s.cursor == i + 1
      invariant s.userAnswers == AnswersOf(choices[..i])
      invariant s.userPoints == MatchCount(qs, choices[..i])
      invariant |finishedAfter| == i
      invariant forall j :: 0 <= j < i ==> (finishedAfter[j] <==> j == |choices| - 1)
    {
      assert s.correctTemplate[i + 1] == EntryFor(qs[i]);
      ChoiceStep(qs, choices, i);
      var done := s.Answer(choices[i]);
      finishedAfter := finishedAfter + [done];
      i := i + 1;
    }
    assert choices[..i] == choices;
    assert s.correctTemplate == AnswerKey(qs);
    var total;
    rows, points, total := s.Finally();
  }

  /** The rows reported after answering every question with `choices`. */
  lemma RowsOfChoices(qs: seq<Question>, choices: seq<int>, rows: seq<ResultRow>)
    requires KeyBuildable(qs) && |choices| == |qs|
    requires rows == Report(|qs|, AnswersOf(choices), AnswerKey(qs))
    ensures |rows| == |qs|
    ensures forall i :: 0 <= i < |rows| ==>
      && rows[i].number == i + 1
      && rows[i].userAnswer == Some(choices[i])
      && rows[i].correctOption == qs[i].correctAnswer.value
      && (rows[i].correct <==> qs[i].correctAnswer == Some(choices[i]))
  {
    forall i | 0 <= i < |rows|
      ensures rows[i].correctOption == qs[i].correctAnswer.value
    {
      assert AnswerKey(qs)[i + 1] == EntryFor(qs[i]);
    }
  }

  /** A fresh page loading `parsed`: when it validates, the session is
      ready for its first answer. */
  method Start(parsed: Exam) returns (s: Session, outcome: Outcome<ValidationError>)
    ensures fresh(s) && outcome == Validate(parsed) && s.exam == parsed
    ensures outcome.Pass? ==> s.InSession() && s.ScoreConsistent() && s.cursor == 1
  {
    s := new Session();
    outcome := s.Load(parsed);
    if outcome.Pass? {
      ValidatedKeyBuildable(parsed);
      IntoEmpty(AnswerKey(parsed.questions.value));
    }
  }

  /** A whole exam on a fresh page: the file is loaded and, when it is
      valid, one answer per question is given in order and the results are
      computed. Only the last answer reaches the results view; the score is
      the number of choices equal to the correct answer, and it equals the
      number of rows marked correct. */
  method TakeExam(parsed: Exam, choices: seq<int>)
    returns (outcome: Outcome<ValidationError>, finishedAfter: seq<bool>, rows: seq<ResultRow>, points: int)
    requires Validate(parsed).Pass? ==> |choices| == |parsed.questions.value|
    ensures outcome == Validate(parsed)
    ensures outcome.Fail? ==> finishedAfter == [] && rows == [] && points == 0
    ensures outcome.Pass? ==>
      && |finishedAfter| == |choices|
      && (forall i :: 0 <= i < |choices| ==> (finishedAfter[i] <==> i == |choices| - 1))
      && points == MatchCount(parsed.questions.value, choices)
      && points == CountCorrectRows(rows)
      && rows == Report(|choices|, AnswersOf(choices), AnswerKey(parsed.questions.value))
  {
    var s;
    s, outcome := Start(parsed);
    finishedAfter, rows, points := [], [], 0;
    if outcome.Fail? {
      return;
    }
    var qs := parsed.questions.value;
    finishedAfter, rows, points := AnswerEach(s, qs, choices);
  }

  /** Cancelling and then loading a valid exam: answers and score start
      from nothing, but the cursor keeps the number it had, so the new exam
      resumes at that question, or goes straight to the results when it has
      fewer questions. */
  method CancelThenLoad(s: Session, next: Exam) returns (outcome: Outcome<ValidationError>, screen: Option<Screen>)
    requires s.Valid()
    modifies s
    ensures outcome == Validate(next) && s.cursor == old(s.cursor)
    ensures s.userAnswers == map[] && s.userPoints == 0 && s.ScoreConsistent()
    ensures outcome.Fail? <==> screen.None?
    ensures outcome.Pass? ==>
      && (screen.value.ShowResults? <==> old(s.cursor) > |next.questions.value|)
      && (screen.value.Ask? ==> screen.value.number == old(s.cursor))
  {
    s.CancelCurrentExam();
    outcome := s.Load(next);
    if outcome.Pass? {
      screen := Some(s.LoadQuestion());
    } else {
      screen := None;
    }
  }

  /** Two questions whose correct answers are 2 and 4. */
  function TwoQuestionExam(): Exam
  {
    var alternatives := ["a", "b", "c", "d", "e"];
    Exam(Some([Question(Some("One"), Some(alternatives), Some(2)), Question(Some("Two"), Some(alternatives), Some(4))]))
  }

  lemma TwoQuestionExamValid()
    ensures Validate(TwoQuestionExam()).Pass?
  {
    var exam := TwoQuestionExam();
    var alternatives := ["a", "b", "c", "d", "e"];
    assert !Blank("One") by { assert !IsWhiteSpace("One"[0]); }
    assert !Blank("Two") by { assert !IsWhiteSpace("Two"[0]); }
    forall i | 0 <= i < |alternatives| ensures !Blank(alternatives[i]) {
      assert !IsWhiteSpace(alternatives[i][0]);
    }
    assert QuestionOk(exam.questions.value[0]) && QuestionOk(exam.questions.value[1]);
    assert ExamOk(exam);
    ValidateAcceptsExactlyWellFormed(exam);
  }

  /** Answering the two-question exam with 2 then 1: only the second
      answer finishes, the score is 1, and the second row is wrong and shows
      option 4. */
  method TwoQuestionExample() returns (finishedAfter: seq<bool>, rows: seq<ResultRow>, points: int)
    ensures finishedAfter == [false, true]
    ensures points == 1
    ensures |rows| == 2
    ensures rows[0].number == 1 && rows[0].userAnswer == Some(2) && rows[0].correct
    ensures rows[1].number == 2 && rows[1].userAnswer == Some(1) && !rows[1].correct && rows[1].correctOption == 4
  {
    TwoQuestionExamValid();
    var exam := TwoQuestionExam();
    var outcome;
    outcome, finishedAfter, rows, points := TakeExam(exam, [2, 1]);
    assert [2, 1][..1] == [2];
    assert MatchCount(exam.questions.value, [2]) == 1;
  }
}
