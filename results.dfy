/** The data behind the results view (`loadFinally`) and the count of
    correct answers that the score is meant to equal. */
module Results {
  import opened Wrappers
  import opened AnswerKeys

  /** One line of the results view: the question number, the user's answer
      (`None` where `userAnswers` has no entry), whether it is correct, and
      the correct option with its text. */
  datatype ResultRow = ResultRow(
    number: int,
    userAnswer: Option<int>,
    correct: bool,
    correctOption: int,
    correctText: Option<string>)

  /** Every question number from 1 to n has a key entry. */
  predicate Covers(key: map<int, KeyEntry>, n: nat)
  {
    forall k :: 1 <= k <= n ==> k in key
  }

  /** Question k was answered with the key's option. */
  predicate AnsweredCorrectly(answers: map<int, int>, key: map<int, KeyEntry>, k: int)
  {
    k in answers && k in key && answers[k] == key[k].option
  }

  /** How many of the questions 1..n were answered with the key's option. */
  function CountCorrect(answers: map<int, int>, key: map<int, KeyEntry>, n: nat): (c: nat)
    ensures c <= n
    ensures c == n <==> forall k :: 1 <= k <= n ==> AnsweredCorrectly(answers, key, k)
  {
    if n == 0 then 0
    else CountCorrect(answers, key, n - 1) + if AnsweredCorrectly(answers, key, n) then 1 else 0
  }

  /** The row for question k. */
  function RowFor(answers: map<int, int>, key: map<int, KeyEntry>, k: int): ResultRow
    requires k in key
  {
    ResultRow(
      k,
      if k in answers then Some(answers[k]) else None,
      k in answers && answers[k] == key[k].option,
      key[k].option,
      key[k].title)
  }

  /** The rows for questions 1..n, in order. Row i is question i + 1; it
      is marked correct exactly when the recorded answer equals the key's
      option, and it shows the key's option and text. */
  function Report(n: nat, answers: map<int, int>, key: map<int, KeyEntry>): (rows: seq<ResultRow>)
    requires Covers(key, n)
    ensures |rows| == n
    ensures forall i :: 0 <= i < n ==>
      && rows[i].number == i + 1
      && rows[i].userAnswer == (if i + 1 in answers then Some(answers[i + 1]) else None)
      && (rows[i].correct <==> AnsweredCorrectly(answers, key, i + 1))
      && rows[i].correctOption == key[i + 1].option
      && rows[i].correctText == key[i + 1].title
  {
    if n == 0 then [] else Report(n - 1, answers, key) + [RowFor(answers, key, n)]
  }

  /** How many rows are marked correct. */
  function CountCorrectRows(rows: seq<ResultRow>): (c: nat)
    ensures c <= |rows|
  {
    if rows == [] then 0
    else CountCorrectRows(rows[..|rows| - 1]) + if rows[|rows| - 1].correct then 1 else 0
  }

  /** The number of rows marked correct is the number of questions answered
      with the key's option. */
  lemma {:induction false} ReportCountsCorrect(n: nat, answers: map<int, int>, key: map<int, KeyEntry>)
    requires Covers(key, n)
    ensures CountCorrectRows(Report(n, answers, key)) == CountCorrect(answers, key, n)
  {
    if n > 0 {
      var rows := Report(n, answers, key);
      assert rows[..n - 1] == Report(n - 1, answers, key);
      ReportCountsCorrect(n - 1, answers, key);
    }
  }

  /** Recording an answer for a question after n leaves the count over 1..n
      unchanged. */
  lemma {:induction false} CountCorrectIgnoresLater(answers: map<int, int>, key: map<int, KeyEntry>, n: nat, k: int, v: int)
    requires k > n
    ensures CountCorrect(answers[k := v], key, n) == CountCorrect(answers, key, n)
  {
    if n > 0 {
      CountCorrectIgnoresLater(answers, key, n - 1, k, v);
    }
  }

  /** Recording answer v for question n, scored against the key, keeps the
      score equal to the count of correct answers one question further on. */
  lemma ScoreAfterAnswer(answers: map<int, int>, key: map<int, KeyEntry>, n: nat, v: int)
    requires n >= 1 && n in key
    ensures CountCorrect(answers[n := v], key, n)
      == CountCorrect(answers, key, n - 1) + if v == key[n].option then 1 else 0
  {
    CountCorrectIgnoresLater(answers, key, n - 1, n, v);
  }

  /** With no answers recorded the count is 0, whatever the key. */
  lemma {:induction false} CountCorrectNoAnswers(key: map<int, KeyEntry>, n: nat)
    ensures CountCorrect(map[], key, n) == 0
  {
    if n > 0 {
      CountCorrectNoAnswers(key, n - 1);
    }
  }
}
