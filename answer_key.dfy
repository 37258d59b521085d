/** The answer key (`correctTemplate`): question number to correct option
    and the text of that option. */
module AnswerKeys {
  import opened Wrappers
  import opened ExamFormat

  /** One entry of the key. `title` is `None` when `correctAnswer` does not
      index an alternative, where the source reads `undefined`. */
  datatype KeyEntry = KeyEntry(option: int, title: Option<string>)

  /** What building the key reads of every question: its alternatives and
      its correct answer must be present. */
  predicate KeyBuildable(qs: seq<Question>)
  {
    forall i :: 0 <= i < |qs| ==> qs[i].alternatives.Some? && qs[i].correctAnswer.Some?
  }

  /** The entry built from one question: `alternatives[correctAnswer - 1]`. */
  function EntryFor(q: Question): KeyEntry
    requires q.alternatives.Some? && q.correctAnswer.Some?
  {
    var ca := q.correctAnswer.value;
    KeyEntry(ca, if 1 <= ca <= |q.alternatives.value| then Some(q.alternatives.value[ca - 1]) else None)
  }

  /** The key for a whole exam: question k (from 1) maps to the entry
      built from `qs[k - 1]`, and no other number is a key. */
  function AnswerKey(qs: seq<Question>): (key: map<int, KeyEntry>)
    requires KeyBuildable(qs)
    ensures forall k :: k in key <==> 1 <= k <= |qs|
    ensures forall k :: 1 <= k <= |qs| ==> key[k] == EntryFor(qs[k - 1])
  {
    if qs == [] then map[]
    else
      var last := |qs| - 1;
      assert KeyBuildable(qs[..last]);
      var key := AnswerKey(qs[..last]);
      assert forall i :: 0 <= i < last ==> qs[..last][i] == qs[i];
      key[|qs| := EntryFor(qs[last])]
  }

  /** Entry k of the key holds question k's correct answer, and its text is defined exactly
      when that answer indexes an alternative. */
  lemma AnswerKeyEntries(qs: seq<Question>)
    requires KeyBuildable(qs)
    ensures forall k :: 1 <= k <= |qs| ==>
      var e := AnswerKey(qs)[k];
      var q := qs[k - 1];
      && e.option == q.correctAnswer.value
      && (e.title.Some? <==> 1 <= q.correctAnswer.value <= |q.alternatives.value|)
      && (e.title.Some? ==> e.title.value == q.alternatives.value[q.correctAnswer.value - 1])
  {
  }

  /** Writing a key into an empty map gives that key. */
  lemma IntoEmpty(key: map<int, KeyEntry>)
    ensures map[] + key == key
  {
  }

  /** A key over a prefix grows by one entry per question. */
  lemma AnswerKeyExtend(qs: seq<Question>, i: nat)
    requires KeyBuildable(qs) && i < |qs|
    ensures KeyBuildable(qs[..i]) && KeyBuildable(qs[..i + 1])
    ensures AnswerKey(qs[..i + 1]) == AnswerKey(qs[..i])[i + 1 := EntryFor(qs[i])]
  {
    assert qs[..i + 1][..i] == qs[..i];
  }

  /** Writing one more entry after a key has been merged into a map. */
  lemma MergeThenSet(m: map<int, KeyEntry>, key: map<int, KeyEntry>, k: int, e: KeyEntry)
    ensures m + key[k := e] == (m + key)[k := e]
  {
  }

  /** A validated exam can have its key built, and every entry's option is
      at least 1. */
  lemma ValidatedKeyBuildable(exam: Exam)
    requires Validate(exam).Pass?
    ensures exam.questions.Some? && KeyBuildable(exam.questions.value)
    ensures forall k :: 1 <= k <= |exam.questions.value| ==> AnswerKey(exam.questions.value)[k].option >= 1
  {
    ValidateAcceptsExactlyWellFormed(exam);
  }

  /** Validation does not make the key's text defined: the exam that
      `CorrectAnswerUnbounded` shows to pass gets an entry with no text. */
  lemma ValidatedKeyMayLackText()
    ensures AnswerKey([Question(Some("Q"), Some(["a", "b", "c", "d", "e"]), Some(6))])[1].title == None
  {
    var q := Question(Some("Q"), Some(["a", "b", "c", "d", "e"]), Some(6));
    assert KeyBuildable([q]);
    assert AnswerKey([q])[1] == EntryFor(q);
  }
}
