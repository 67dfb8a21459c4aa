/**
 * The entities of the study platform (subjects, questions with their options, users, logged answers and
 * per-(user, subject) result rows), the accuracy formula shared by the backend and the dashboard, and the
 * first-match lookups the backend performs with `find_one` and the frontend with `Array.find`.
 * Generated ids (uuid4) and timestamps are opaque to every computation here and are left out.
 */
module Domain {
  import opened Wrappers

  type Id = string

  datatype Subject = Subject(id: Id, name: string, icon: string, color: string, total_questions: nat)

  datatype QuestionOption = QuestionOption(text: string, is_correct: bool)

  datatype Question = Question(
    id: Id,
    subject_id: Id,
    difficulty: string,
    question_text: string,
    options: seq<QuestionOption>,
    explanation: string,
    created_by: Id)

  datatype User = User(id: Id, name: string, email: string, weekly_goal: int)

  /** One logged submission (a document of the `answers` collection). */
  datatype Answer = Answer(user_id: Id, question_id: Id, selected_option: int, is_correct: bool, time_spent: int)

  /** One document of the `results` collection: a user's running score in one subject. */
  datatype ResultRow = ResultRow(
    user_id: Id,
    subject_id: Id,
    total_questions: nat,
    correct_answers: nat,
    accuracy: real)

  /**
   * The HTTP errors the modelled routes raise: 404 "Question not found", 403 "Forbidden", and the 500 that an
   * unhandled IndexError on an out-of-range option index turns into.
   */
  datatype ApiError = QuestionNotFound | Forbidden | OptionOutOfRange

  /**
   * Python's `options[index]`: a negative index counts from the end, and one outside `-n <= index < n` raises
   * IndexError (no option).
   */
  function OptionAt(options: seq<QuestionOption>, index: int): (r: Option<QuestionOption>)
    ensures r.Some? <==> -|options| <= index < |options|
    ensures r.Some? ==> r.value in options
    ensures 0 <= index < |options| ==> r == Some(options[index])
  {
    if 0 <= index < |options| then Some(options[index])
    else if -|options| <= index < 0 then Some(options[|options| + index])
    else None
  }

  /**
   * An index from the end and the matching index from the front select the same option: the route grades
   * `-1` as the last option, `-n` as the first.
   */
  lemma NegativeIndexCountsFromEnd(options: seq<QuestionOption>, index: nat)
    requires index < |options|
    ensures OptionAt(options, index - |options|) == OptionAt(options, index)
  {
  }

  /** `correct / total * 100`, kept exact. */
  function Accuracy(correct: nat, total: nat): (a: real)
    requires total > 0
    ensures correct <= total ==> 0.0 <= a <= 100.0
    ensures a == 100.0 <==> correct == total
    ensures a == 0.0 <==> correct == 0
    ensures a * total as real == 100.0 * correct as real
  {
    AccuracyScales(correct, total);
    CancelPositive((correct as real / total as real) * 100.0, 100.0, total as real);
    (correct as real / total as real) * 100.0
  }

  /** A positive factor cancels from both sides of an equation. */
  lemma CancelPositive(x: real, y: real, t: real)
    requires t > 0.0
    ensures x * t == y * t <==> x == y
  {
    if x * t == y * t {
      assert (x - y) * t == 0.0;
    }
  }

  lemma AccuracyScales(correct: nat, total: nat)
    requires total > 0
    ensures (correct as real / total as real) * 100.0 * total as real == 100.0 * correct as real
  {
  }

  /** Accuracy lies below a threshold exactly when the counts do, so the real comparison needs no rounding. */
  lemma AccuracyBelow(correct: nat, total: nat, threshold: nat)
    requires total > 0
    ensures Accuracy(correct, total) < threshold as real <==> 100 * correct < threshold * total
  {
    AccuracyScales(correct, total);
    var a := Accuracy(correct, total);
    assert a * total as real == 100.0 * correct as real;
    if a < threshold as real {
      assert a * total as real < threshold as real * total as real;
    } else {
      assert a * total as real >= threshold as real * total as real;
    }
  }

  /** Index of the first subject with the given id (`find_one({"id": id})` on `subjects`). */
  function SubjectIndex(subjects: seq<Subject>, id: Id): (r: Option<nat>)
    ensures r.Some? ==> r.value < |subjects| && subjects[r.value].id == id
    ensures r.Some? ==> forall j :: 0 <= j < r.value ==> subjects[j].id != id
    ensures r.None? <==> forall j :: 0 <= j < |subjects| ==> subjects[j].id != id
  {
    if subjects == [] then None
    else if subjects[0].id == id then Some(0)
    else match SubjectIndex(subjects[1..], id)
      case None => None
      case Some(i) => Some(i + 1)
  }

  /** The first subject with the given id, if any. */
  function FindSubject(subjects: seq<Subject>, id: Id): (r: Option<Subject>)
    ensures r.Some? ==> r.value in subjects && r.value.id == id
    ensures r.None? <==> forall s :: s in subjects ==> s.id != id
  {
    match SubjectIndex(subjects, id)
    case None => None
    case Some(i) => Some(subjects[i])
  }

  /** The first question with the given id (`find_one({"id": question_id})` on `questions`). */
  function FindQuestion(questions: seq<Question>, id: Id): (r: Option<Question>)
    ensures r.Some? ==> r.value in questions && r.value.id == id
    ensures r.Some? ==>
      exists k :: 0 <= k < |questions| && questions[k] == r.value && forall j :: 0 <= j < k ==> questions[j].id != id
    ensures r.None? <==> forall q :: q in questions ==> q.id != id
  {
    if questions == [] then None
    else if questions[0].id == id then Some(questions[0])
    else
      var r := FindQuestion(questions[1..], id);
      if r.Some? then
        var k :| 0 <= k < |questions| - 1 && questions[1..][k] == r.value
          && forall j :: 0 <= j < k ==> questions[1..][j].id != id;
        assert questions[k + 1] == r.value;
        r
      else r
  }

  /** The first user with the given id (`find_one({"id": user_id})` on `users`). */
  function FindUser(users: seq<User>, id: Id): (r: Option<User>)
    ensures r.Some? ==> r.value in users && r.value.id == id
    ensures r.Some? ==>
      exists k :: 0 <= k < |users| && users[k] == r.value && forall j :: 0 <= j < k ==> users[j].id != id
    ensures r.None? <==> forall u :: u in users ==> u.id != id
  {
    if users == [] then None
    else if users[0].id == id then Some(users[0])
    else
      var r := FindUser(users[1..], id);
      if r.Some? then
        var k :| 0 <= k < |users| - 1 && users[1..][k] == r.value
          && forall j :: 0 <= j < k ==> users[1..][j].id != id;
        assert users[k + 1] == r.value;
        r
      else r
  }

  /** The first subject with an id is the one returned, whatever the later entries are. */
  lemma {:induction false} FindSubjectIsFirst(subjects: seq<Subject>, k: nat)
    requires k < |subjects|
    requires forall j :: 0 <= j < k ==> subjects[j].id != subjects[k].id
    ensures FindSubject(subjects, subjects[k].id) == Some(subjects[k])
  {
    var r := SubjectIndex(subjects, subjects[k].id);
    assert r.Some?;
  }

  /** Appending a question never changes what an id that is already present resolves to. */
  lemma {:induction false} FindQuestionAppend(questions: seq<Question>, q: Question, id: Id)
    requires FindQuestion(questions, id).Some?
    ensures FindQuestion(questions + [q], id) == FindQuestion(questions, id)
  {
    assert questions != [];
    assert (questions + [q])[0] == questions[0];
    if questions[0].id != id {
      assert (questions + [q])[1..] == questions[1..] + [q];
      FindQuestionAppend(questions[1..], q, id);
    }
  }
}
