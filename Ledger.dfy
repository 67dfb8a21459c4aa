/**
 * The answer route and the per-(user, subject) result ledger it maintains (`submit_answer`), and the
 * question-creation route that bumps its subject's counter (`create_question`).
 *
 * The `results` collection is a sequence of rows in insertion order; the store keeps at most one row per
 * (user, subject) key and keeps every row's counters in agreement with the log of answers.
 */
module Ledger {
  import opened Wrappers
  import opened Domain

  predicate HasKey(row: ResultRow, user: Id, subject: Id) {
    row.user_id == user && row.subject_id == subject
  }

  /** Index of the first row for (user, subject): `find_one({"user_id": ..., "subject_id": ...})`. */
  function RowIndex(rows: seq<ResultRow>, user: Id, subject: Id): (r: Option<nat>)
    ensures r.Some? ==> r.value < |rows| && HasKey(rows[r.value], user, subject)
    ensures r.Some? ==> forall j :: 0 <= j < r.value ==> !HasKey(rows[j], user, subject)
    ensures r.None? <==> forall j :: 0 <= j < |rows| ==> !HasKey(rows[j], user, subject)
  {
    if rows == [] then None
    else if HasKey(rows[0], user, subject) then Some(0)
    else match RowIndex(rows[1..], user, subject)
      case None => None
      case Some(i) => Some(i + 1)
  }

  /** Questions answered so far by `user` in `subject` according to the ledger (0 when there is no row). */
  function RowTotal(rows: seq<ResultRow>, user: Id, subject: Id): nat {
    match RowIndex(rows, user, subject)
    case None => 0
    case Some(i) => rows[i].total_questions
  }

  /** Correct answers so far by `user` in `subject` according to the ledger (0 when there is no row). */
  function RowCorrect(rows: seq<ResultRow>, user: Id, subject: Id): nat {
    match RowIndex(rows, user, subject)
    case None => 0
    case Some(i) => rows[i].correct_answers
  }

  /** A row as the answer route writes it: at least one answer, no more correct than total, exact accuracy. */
  predicate WellFormedRow(row: ResultRow) {
    && row.total_questions >= 1
    && row.correct_answers <= row.total_questions
    && row.accuracy == Accuracy(row.correct_answers, row.total_questions)
  }

  /** Every row well formed, and no two rows for the same (user, subject). */
  predicate LedgerValid(rows: seq<ResultRow>) {
    && (forall i :: 0 <= i < |rows| ==> WellFormedRow(rows[i]))
    && (forall i, j :: 0 <= i < j < |rows| ==> !HasKey(rows[j], rows[i].user_id, rows[i].subject_id))
  }

  /**
   * The ledger after one evaluated answer: the existing row for (user, subject) gets one more question, one
   * more correct answer iff `isCorrect`, and its accuracy recomputed; without a row, a fresh one is appended
   * with total 1, correct 1 or 0 and accuracy 100.0 or 0.0.
   */
  function Record(rows: seq<ResultRow>, user: Id, subject: Id, isCorrect: bool): (r: seq<ResultRow>)
    ensures |r| == |rows| || |r| == |rows| + 1
  {
    match RowIndex(rows, user, subject)
    case Some(i) =>
      var newTotal := rows[i].total_questions + 1;
      var newCorrect := rows[i].correct_answers + (if isCorrect then 1 else 0);
      rows[i := rows[i].(total_questions := newTotal,
                         correct_answers := newCorrect,
                         accuracy := Accuracy(newCorrect, newTotal))]
    case None =>
      rows + [ResultRow(user, subject, 1, if isCorrect then 1 else 0, if isCorrect then 100.0 else 0.0)]
  }

  /** Recording keeps every row well formed and keys unique. */
  lemma RecordValid(rows: seq<ResultRow>, user: Id, subject: Id, isCorrect: bool)
    requires LedgerValid(rows)
    ensures LedgerValid(Record(rows, user, subject, isCorrect))
  {
    var r := Record(rows, user, subject, isCorrect);
    match RowIndex(rows, user, subject)
    case Some(i) =>
      forall a, b | 0 <= a < b < |r|
        ensures !HasKey(r[b], r[a].user_id, r[a].subject_id)
      {
        assert r[a].user_id == rows[a].user_id && r[a].subject_id == rows[a].subject_id;
        assert r[b].user_id == rows[b].user_id && r[b].subject_id == rows[b].subject_id;
      }
    case None =>
      assert Accuracy(if isCorrect then 1 else 0, 1) == (if isCorrect then 100.0 else 0.0);
      assert WellFormedRow(r[|rows|]);
  }

  /**
   * After recording, the (user, subject) row holds one more question and one more correct answer iff
   * `isCorrect`, with the accuracy recomputed; every other key's row is exactly what it was.
   */
  lemma RecordEffect(rows: seq<ResultRow>, user: Id, subject: Id, isCorrect: bool, u: Id, s: Id)
    ensures var r := Record(rows, user, subject, isCorrect);
      if u == user && s == subject then
        && RowIndex(r, u, s).Some?
        && RowTotal(r, u, s) == RowTotal(rows, u, s) + 1
        && RowCorrect(r, u, s) == RowCorrect(rows, u, s) + (if isCorrect then 1 else 0)
        && r[RowIndex(r, u, s).value].accuracy == Accuracy(RowCorrect(r, u, s), RowTotal(r, u, s))
      else
        && RowIndex(r, u, s) == RowIndex(rows, u, s)
        && (RowIndex(rows, u, s).Some? ==> r[RowIndex(r, u, s).value] == rows[RowIndex(rows, u, s).value])
  {
    var r := Record(rows, user, subject, isCorrect);
    match RowIndex(rows, user, subject)
    case Some(i) =>
      assert forall j :: 0 <= j < |r| ==> (HasKey(r[j], u, s) <==> HasKey(rows[j], u, s));
      RowIndexAgree(rows, r, u, s);
    case None =>
      assert r[..|rows|] == rows;
      RowIndexAppend(rows, r[|rows|], u, s);
  }

  /** Two ledgers with the same keys at the same places resolve every key to the same index. */
  lemma RowIndexAgree(a: seq<ResultRow>, b: seq<ResultRow>, u: Id, s: Id)
    requires |a| == |b|
    requires forall j :: 0 <= j < |a| ==> (HasKey(a[j], u, s) <==> HasKey(b[j], u, s))
    ensures RowIndex(a, u, s) == RowIndex(b, u, s)
  {
  }

  /** Appending a row only resolves keys that had no row before. */
  lemma {:induction false} RowIndexAppend(rows: seq<ResultRow>, row: ResultRow, u: Id, s: Id)
    ensures RowIndex(rows + [row], u, s) ==
      if RowIndex(rows, u, s).Some? then RowIndex(rows, u, s)
      else if HasKey(row, u, s) then Some(|rows|)
      else None
  {
    if rows != [] && !HasKey(rows[0], u, s) {
      assert (rows + [row])[1..] == rows[1..] + [row];
      RowIndexAppend(rows[1..], row, u, s);
    }
  }

  /** `RecordAll(rows, user, subject, outcomes)` records a run of answers for one key, in order. */
  function RecordAll(rows: seq<ResultRow>, user: Id, subject: Id, outcomes: seq<bool>): seq<ResultRow>
    decreases |outcomes|
  {
    if outcomes == [] then rows
    else RecordAll(Record(rows, user, subject, outcomes[0]), user, subject, outcomes[1..])
  }

  function CountTrue(outcomes: seq<bool>): nat {
    if outcomes == [] then 0 else (if outcomes[0] then 1 else 0) + CountTrue(outcomes[1..])
  }

  /**
   * N answers recorded for one key raise its total by exactly N and its correct count by exactly the number
   * of correct ones: no increment is lost when submissions are applied one after another.
   */
  lemma {:induction false} RecordAllCounts(rows: seq<ResultRow>, user: Id, subject: Id, outcomes: seq<bool>)
    ensures RowTotal(RecordAll(rows, user, subject, outcomes), user, subject)
      == RowTotal(rows, user, subject) + |outcomes|
    ensures RowCorrect(RecordAll(rows, user, subject, outcomes), user, subject)
      == RowCorrect(rows, user, subject) + CountTrue(outcomes)
    decreases |outcomes|
  {
    if outcomes != [] {
      RecordEffect(rows, user, subject, outcomes[0], user, subject);
      RecordAllCounts(Record(rows, user, subject, outcomes[0]), user, subject, outcomes[1..]);
    }
  }

  /** The cursor limit of the per-user results queries. */
  const ResultsLimit: nat := 100

  /** The rows of `user`, in collection order. */
  function OwnRows(rows: seq<ResultRow>, user: Id): (r: seq<ResultRow>)
    ensures |r| <= |rows|
    ensures forall row :: row in r <==> row in rows && row.user_id == user
  {
    if rows == [] then []
    else (if rows[0].user_id == user then [rows[0]] else []) + OwnRows(rows[1..], user)
  }

  /** The user's rows of a concatenation are the user's rows of each part. */
  lemma {:induction false} OwnRowsAppend(a: seq<ResultRow>, b: seq<ResultRow>, user: Id)
    ensures OwnRows(a + b, user) == OwnRows(a, user) + OwnRows(b, user)
  {
    if a != [] {
      assert (a + b)[1..] == a[1..] + b;
      OwnRowsAppend(a[1..], b, user);
    } else {
      assert a + b == b;
    }
  }

  /** `find({"user_id": user}).to_list(100)` on `results` (also what GET /results returns). */
  function UserResults(rows: seq<ResultRow>, user: Id): (r: seq<ResultRow>)
    ensures |r| <= ResultsLimit
    ensures forall row :: row in r ==> row in rows && row.user_id == user
    ensures |OwnRows(rows, user)| <= ResultsLimit ==> forall row :: row in rows && row.user_id == user ==> row in r
    ensures r == [] <==> forall row :: row in rows ==> row.user_id != user
    ensures |r| == if |OwnRows(rows, user)| <= ResultsLimit then |OwnRows(rows, user)| else ResultsLimit
    ensures forall i :: 0 <= i < |r| ==> r[i] == OwnRows(rows, user)[i]
  {
    var own := OwnRows(rows, user);
    assert own != [] ==> own[0] in own;
    Take(own, ResultsLimit)
  }

  /** Every row of a valid ledger has a correct count within its total and an accuracy within [0, 100]. */
  lemma ValidLedgerBounds(rows: seq<ResultRow>, i: nat)
    requires LedgerValid(rows) && i < |rows|
    ensures rows[i].correct_answers <= rows[i].total_questions
    ensures 0.0 <= rows[i].accuracy <= 100.0
  {
    assert WellFormedRow(rows[i]);
  }

  // ---------------------------------------------------------------------------------------------------------
  // Agreement between the ledger and the answer log.

  /** Whether a logged answer is one by `user` on a question of `subject`. */
  predicate AnswerIn(a: Answer, questions: seq<Question>, user: Id, subject: Id) {
    a.user_id == user &&
    match FindQuestion(questions, a.question_id)
    case Some(q) => q.subject_id == subject
    case None => false
  }

  /** Logged answers by `user` on questions of `subject`. */
  function AnswerCount(answers: seq<Answer>, questions: seq<Question>, user: Id, subject: Id): nat {
    if answers == [] then 0
    else
      var last := answers[|answers| - 1];
      AnswerCount(answers[..|answers| - 1], questions, user, subject)
        + (if AnswerIn(last, questions, user, subject) then 1 else 0)
  }

  /** Logged correct answers by `user` on questions of `subject`. */
  function CorrectCount(answers: seq<Answer>, questions: seq<Question>, user: Id, subject: Id): nat {
    if answers == [] then 0
    else
      var last := answers[|answers| - 1];
      CorrectCount(answers[..|answers| - 1], questions, user, subject)
        + (if AnswerIn(last, questions, user, subject) && last.is_correct then 1 else 0)
  }

  /** Every logged answer names a question of the bank. */
  predicate AnswersResolve(answers: seq<Answer>, questions: seq<Question>) {
    forall i :: 0 <= i < |answers| ==> FindQuestion(questions, answers[i].question_id).Some?
  }

  /** The ledger's counters equal the counts of logged answers, key by key. */
  ghost predicate Agrees(answers: seq<Answer>, questions: seq<Question>, rows: seq<ResultRow>) {
    forall u, s ::
      && RowTotal(rows, u, s) == AnswerCount(answers, questions, u, s)
      && RowCorrect(rows, u, s) == CorrectCount(answers, questions, u, s)
  }

  /** A new question leaves every logged answer's subject, and so every count, unchanged. */
  lemma {:induction false} CountsIgnoreNewQuestion(answers: seq<Answer>, questions: seq<Question>, q: Question, u: Id, s: Id)
    requires AnswersResolve(answers, questions)
    ensures AnswerCount(answers, questions + [q], u, s) == AnswerCount(answers, questions, u, s)
    ensures CorrectCount(answers, questions + [q], u, s) == CorrectCount(answers, questions, u, s)
    decreases |answers|
  {
    if answers != [] {
      var last := answers[|answers| - 1];
      assert FindQuestion(questions, last.question_id).Some?;
      FindQuestionAppend(questions, q, last.question_id);
      CountsIgnoreNewQuestion(answers[..|answers| - 1], questions, q, u, s);
    }
  }

  // ---------------------------------------------------------------------------------------------------------

  /** The body of POST /answers: which question and option, and the time the client measured. */
  datatype AnswerSubmit = AnswerSubmit(question_id: Id, selected_option: int, time_spent: int)

  /**
   * Logging an answer on a question of `subject` and recording it on the ledger keep the two in agreement:
   * the answer is counted under exactly the key whose row is updated.
   */
  lemma RecordKeepsAgreement(answers: seq<Answer>, questions: seq<Question>, rows: seq<ResultRow>, a: Answer,
                             subject: Id)
    requires Agrees(answers, questions, rows)
    requires FindQuestion(questions, a.question_id).Some?
    requires FindQuestion(questions, a.question_id).value.subject_id == subject
    ensures Agrees(answers + [a], questions, Record(rows, a.user_id, subject, a.is_correct))
  {
    var logged := answers + [a];
    assert logged[..|logged| - 1] == answers;
    forall u, s
      ensures RowTotal(Record(rows, a.user_id, subject, a.is_correct), u, s) == AnswerCount(logged, questions, u, s)
      ensures RowCorrect(Record(rows, a.user_id, subject, a.is_correct), u, s) == CorrectCount(logged, questions, u, s)
    {
      RecordEffect(rows, a.user_id, subject, a.is_correct, u, s);
    }
  }

  /**
   * The checks and the verdict of POST /answers before anything is written: the question must exist (404),
   * the option index must resolve as a Python index (a 500 otherwise), and the answer is correct exactly when
   * the option it resolves to is flagged correct. The result names the question's subject, the ledger key.
   */
  function Grade(questions: seq<Question>, submission: AnswerSubmit): (r: Result<(Id, bool), ApiError>)
    ensures r == Failure(QuestionNotFound) <==> FindQuestion(questions, submission.question_id).None?
    ensures r == Failure(OptionOutOfRange) <==>
      && FindQuestion(questions, submission.question_id).Some?
      && OptionAt(FindQuestion(questions, submission.question_id).value.options, submission.selected_option).None?
    ensures r.Success? <==>
      && FindQuestion(questions, submission.question_id).Some?
      && OptionAt(FindQuestion(questions, submission.question_id).value.options, submission.selected_option).Some?
    ensures r.Success? ==>
      var q := FindQuestion(questions, submission.question_id).value;
      && q.id == submission.question_id
      && r.value.0 == q.subject_id
      && r.value.1 == OptionAt(q.options, submission.selected_option).value.is_correct
  {
    match FindQuestion(questions, submission.question_id)
    case None => Failure(QuestionNotFound)
    case Some(question) =>
      match OptionAt(question.options, submission.selected_option)
      case None => Failure(OptionOutOfRange)
      case Some(option) => Success((question.subject_id, option.is_correct))
  }

  /** The in-memory image of the collections the answer and question routes touch. */
  class Store {
    var users: seq<User>
    var subjects: seq<Subject>
    var questions: seq<Question>
    var answers: seq<Answer>
    var results: seq<ResultRow>

    ghost predicate Valid()
      reads this
    {
      && LedgerValid(results)
      && AnswersResolve(answers, questions)
      && Agrees(answers, questions, results)
    }

    /** A store over existing reference data, with no answers and no results yet. */
    constructor (users0: seq<User>, subjects0: seq<Subject>, questions0: seq<Question>)
      ensures Valid()
      ensures users == users0 && subjects == subjects0 && questions == questions0
      ensures answers == [] && results == []
    {
      users, subjects, questions := users0, subjects0, questions0;
      answers, results := [], [];
    }

    /**
     * POST /answers for the authenticated `userId`. An unknown question id fails with 404 and writes nothing;
     * so does an option index Python cannot resolve, which ends the request with a 500. Otherwise the answer's
     * correctness is the selected option's flag, exactly one answer is logged, and only the (user, question
     * subject) row of the ledger changes.
     */
    method SubmitAnswer(userId: Id, submission: AnswerSubmit) returns (r: Result<Answer, ApiError>)
      requires Valid()
      modifies this
      ensures Valid()
      ensures users == old(users) && subjects == old(subjects) && questions == old(questions)
      ensures Grade(questions, submission).Failure? ==>
        && r == Failure(Grade(questions, submission).error)
        && answers == old(answers) && results == old(results)
      ensures Grade(questions, submission).Success? ==>
        var (subject, isCorrect) := Grade(questions, submission).value;
        && r == Success(Answer(userId, submission.question_id, submission.selected_option, isCorrect,
                               submission.time_spent))
        && answers == old(answers) + [r.value]
        && results == Record(old(results), userId, subject, isCorrect)
    {
      var graded := Grade(questions, submission);
      if graded.Failure? {
        return Failure(graded.error);
      }
      var (subject, isCorrect) := graded.value;
      var answer := Answer(userId, submission.question_id, submission.selected_option, isCorrect,
                           submission.time_spent);
      ghost var oldAnswers, oldResults := answers, results;
      answers := answers + [answer];

      var existing := RowIndex(results, userId, subject);
      if existing.Some? {
        var i := existing.value;
        var newTotal := results[i].total_questions + 1;
        var newCorrect := results[i].correct_answers + (if isCorrect then 1 else 0);
        var newAccuracy := Accuracy(newCorrect, newTotal);
        results := results[i := results[i].(total_questions := newTotal,
                                            correct_answers := newCorrect,
                                            accuracy := newAccuracy)];
      } else {
        results := results + [ResultRow(userId, subject, 1,
                                        if isCorrect then 1 else 0,
                                        if isCorrect then 100.0 else 0.0)];
      }
      assert results == Record(oldResults, userId, subject, isCorrect);

      RecordValid(oldResults, userId, subject, isCorrect);
      RecordKeepsAgreement(oldAnswers, questions, oldResults, answer, subject);
      return Success(answer);
    }

    /**
     * POST /questions: the new question, created by `userId`, is appended to the bank, and the first subject
     * with its `subject_id` (if any) has its question counter raised by one. Answers and results are untouched.
     */
    method CreateQuestion(userId: Id, newId: Id, subjectId: Id, difficulty: string, text: string,
                          options: seq<QuestionOption>, explanation: string) returns (q: Question)
      requires Valid()
      modifies this
      ensures Valid()
      ensures q == Question(newId, subjectId, difficulty, text, options, explanation, userId)
      ensures questions == old(questions) + [q]
      ensures users == old(users) && answers == old(answers) && results == old(results)
      ensures SubjectIndex(old(subjects), subjectId).None? ==> subjects == old(subjects)
      ensures SubjectIndex(old(subjects), subjectId).Some? ==>
        var k := SubjectIndex(old(subjects), subjectId).value;
        subjects == old(subjects)[k := old(subjects)[k].(total_questions := old(subjects)[k].total_questions + 1)]
    {
      q := Question(newId, subjectId, difficulty, text, options, explanation, userId);
      ghost var oldQuestions := questions;
      questions := questions + [q];
      var k := SubjectIndex(subjects, subjectId);
      if k.Some? {
        subjects := subjects[k.value := subjects[k.value].(total_questions := subjects[k.value].total_questions + 1)];
      }
      forall i | 0 <= i < |answers|
        ensures FindQuestion(questions, answers[i].question_id).Some?
      {
        FindQuestionAppend(oldQuestions, q, answers[i].question_id);
      }
      forall u, s
        ensures RowTotal(results, u, s) == AnswerCount(answers, questions, u, s)
        ensures RowCorrect(results, u, s) == CorrectCount(answers, questions, u, s)
      {
        CountsIgnoreNewQuestion(answers, oldQuestions, q, u, s);
      }
    }
  }
}
