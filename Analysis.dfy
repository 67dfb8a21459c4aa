/**
 * POST /ai/analyze: a user may only analyse themself; with no result rows the route answers with fixed
 * texts; otherwise it lists the weak subjects (rows below 70 % accuracy whose subject exists, in result
 * order), asks the language model for advice and splits its reply at 300 characters into recommendations and
 * study plan, falling back to fixed texts when the call fails. The language model is outside the model: its
 * reply, or its failure, is an input.
 */
module Analysis {
  import opened Wrappers
  import opened Domain
  import opened Ledger

  /** Rows below this accuracy are weak. */
  const WeakThreshold: nat := 70

  /** Where the reply is cut into recommendations and study plan. */
  const SplitAt: nat := 300

  const NoDataRecommendations: string := "Comece a resolver questões para receber análises personalizadas!"
  const NoDataStudyPlan: string := "Explore as matérias disponíveis e teste seus conhecimentos."
  const ShortReplyStudyPlan: string := "Continue praticando regularmente!"
  const FallbackRecommendations: string := "Foque nas matérias com menor desempenho e pratique questões diariamente."
  const FallbackStudyPlan: string := "Dedique 30 minutos por dia para cada matéria que precisa melhorar."

  datatype WeakSubject = WeakSubject(name: string, accuracy: real, total_questions: nat)

  datatype AnalysisResponse = AnalysisResponse(
    weak_subjects: seq<WeakSubject>,
    recommendations: string,
    study_plan: string)

  /** What the language model did: replied with a text, or raised. */
  datatype LlmReply = Replied(text: string) | Failed

  /** The entry a row contributes: present when it is below the threshold and its subject exists. */
  function WeakEntry(row: ResultRow, subjects: seq<Subject>): (r: Option<WeakSubject>)
    ensures r.Some? <==> row.accuracy < WeakThreshold as real && FindSubject(subjects, row.subject_id).Some?
    ensures r.Some? ==>
      && r.value.name == FindSubject(subjects, row.subject_id).value.name
      && r.value.accuracy == row.accuracy
      && r.value.total_questions == row.total_questions
  {
    if row.accuracy < WeakThreshold as real then
      match FindSubject(subjects, row.subject_id)
      case None => None
      case Some(subject) => Some(WeakSubject(subject.name, row.accuracy, row.total_questions))
    else None
  }

  /**
   * On a row the answer route wrote, the under-70 % test is a test on the counters: the row is weak exactly
   * when fewer than 70 of every 100 answers are correct.
   */
  lemma WeakEntryOfLedgerRow(row: ResultRow, subjects: seq<Subject>)
    requires WellFormedRow(row)
    ensures WeakEntry(row, subjects).Some? <==>
      100 * row.correct_answers < WeakThreshold * row.total_questions
      && FindSubject(subjects, row.subject_id).Some?
  {
    AccuracyBelow(row.correct_answers, row.total_questions, WeakThreshold);
  }

  /** The weak-subject list of the route, built in result order. */
  function WeakSubjects(results: seq<ResultRow>, subjects: seq<Subject>): (r: seq<WeakSubject>)
    ensures |r| <= |results|
  {
    if results == [] then []
    else
      WeakSubjects(results[..|results| - 1], subjects)
        + (match WeakEntry(results[|results| - 1], subjects) case None => [] case Some(w) => [w])
  }

  /** Weak subjects of a concatenation are those of each part, in order: result order is kept. */
  lemma {:induction false} WeakSubjectsAppend(a: seq<ResultRow>, b: seq<ResultRow>, subjects: seq<Subject>)
    ensures WeakSubjects(a + b, subjects) == WeakSubjects(a, subjects) + WeakSubjects(b, subjects)
    decreases |b|
  {
    if b == [] {
      assert a + b == a;
    } else {
      var b0 := b[..|b| - 1];
      assert (a + b)[..|a + b| - 1] == a + b0;
      assert (a + b)[|a + b| - 1] == b[|b| - 1];
      WeakSubjectsAppend(a, b0, subjects);
    }
  }

  /** Every weak subject reported stems from a row below 70 % whose subject exists. */
  lemma {:induction false} WeakSubjectsSound(results: seq<ResultRow>, subjects: seq<Subject>, k: nat)
    requires k < |WeakSubjects(results, subjects)|
    ensures exists i :: 0 <= i < |results| && WeakEntry(results[i], subjects) == Some(WeakSubjects(results, subjects)[k])
  {
    var init := results[..|results| - 1];
    if k < |WeakSubjects(init, subjects)| {
      WeakSubjectsSound(init, subjects, k);
      var i :| 0 <= i < |init| && WeakEntry(init[i], subjects) == Some(WeakSubjects(init, subjects)[k]);
      assert results[i] == init[i];
    } else {
      assert WeakEntry(results[|results| - 1], subjects) == Some(WeakSubjects(results, subjects)[k]);
    }
  }

  /** Every row below 70 % whose subject exists is reported. */
  lemma {:induction false} WeakSubjectsComplete(results: seq<ResultRow>, subjects: seq<Subject>, i: nat)
    requires i < |results| && WeakEntry(results[i], subjects).Some?
    ensures WeakEntry(results[i], subjects).value in WeakSubjects(results, subjects)
  {
    var init := results[..|results| - 1];
    if i < |init| {
      assert init[i] == results[i];
      WeakSubjectsComplete(init, subjects, i);
    }
  }

  /**
   * The weak subjects are exactly the rows below 70 % whose subject exists, each reported with its subject's
   * name, the row's accuracy and the row's total.
   */
  lemma WeakSubjectsExact(results: seq<ResultRow>, subjects: seq<Subject>, w: WeakSubject)
    ensures w in WeakSubjects(results, subjects) <==>
      exists i :: 0 <= i < |results| && results[i].accuracy < WeakThreshold as real
        && FindSubject(subjects, results[i].subject_id).Some?
        && w == WeakSubject(FindSubject(subjects, results[i].subject_id).value.name,
                            results[i].accuracy, results[i].total_questions)
  {
    var W := WeakSubjects(results, subjects);
    if w in W {
      var k :| 0 <= k < |W| && W[k] == w;
      WeakSubjectsSound(results, subjects, k);
    }
    if exists i :: 0 <= i < |results| && results[i].accuracy < WeakThreshold as real
        && FindSubject(subjects, results[i].subject_id).Some?
        && w == WeakSubject(FindSubject(subjects, results[i].subject_id).value.name,
                            results[i].accuracy, results[i].total_questions)
    {
      var i :| 0 <= i < |results| && results[i].accuracy < WeakThreshold as real
        && FindSubject(subjects, results[i].subject_id).Some?
        && w == WeakSubject(FindSubject(subjects, results[i].subject_id).value.name,
                            results[i].accuracy, results[i].total_questions);
      WeakSubjectsComplete(results, subjects, i);
    }
  }

  /** The route's loop over the user's results. */
  method CollectWeakSubjects(results: seq<ResultRow>, subjects: seq<Subject>) returns (weak: seq<WeakSubject>)
    ensures weak == WeakSubjects(results, subjects)
  {
    weak := [];
    for i := 0 to |results|
      invariant weak == WeakSubjects(results[..i], subjects)
    {
      assert results[..i + 1][..i] == results[..i];
      var result := results[i];
      if result.accuracy < WeakThreshold as real {
        var subject := FindSubject(subjects, result.subject_id);
        if subject.Some? {
          weak := weak + [WeakSubject(subject.value.name, result.accuracy, result.total_questions)];
        }
      }
    }
    assert results[..|results|] == results;
  }

  /**
   * A reply longer than 300 characters is cut after its 300th character into recommendations and study plan,
   * so nothing is lost; a shorter one is the recommendations and the study plan is a fixed text.
   */
  function SplitReply(text: string): (r: (string, string))
    ensures |text| > SplitAt ==> r.0 == text[..SplitAt] && r.1 == text[SplitAt..] && r.0 + r.1 == text
    ensures |text| <= SplitAt ==> r.0 == text && r.1 == ShortReplyStudyPlan
  {
    if |text| > SplitAt then
      assert text[..SplitAt] + text[SplitAt..] == text;
      (text[..SplitAt], text[SplitAt..])
    else (text, ShortReplyStudyPlan)
  }

  /** The route's response for an authenticated `callerId` asking about `requestedId`. */
  function Analyze(callerId: Id, requestedId: Id, rows: seq<ResultRow>, subjects: seq<Subject>, reply: LlmReply)
    : (r: Result<AnalysisResponse, ApiError>)
    ensures r.Failure? <==> requestedId != callerId
    ensures r.Failure? ==> r.error == Forbidden
    ensures r.Success? && (forall row :: row in rows ==> row.user_id != requestedId) ==>
      r.value == AnalysisResponse([], NoDataRecommendations, NoDataStudyPlan)
    ensures r.Success? && (exists row :: row in rows && row.user_id == requestedId) ==>
      && r.value.weak_subjects == WeakSubjects(UserResults(rows, requestedId), subjects)
      && (reply.Failed? ==>
            r.value.recommendations == FallbackRecommendations && r.value.study_plan == FallbackStudyPlan)
      && (reply.Replied? ==> (r.value.recommendations, r.value.study_plan) == SplitReply(reply.text))
  {
    if requestedId != callerId then Failure(Forbidden)
    else
      var results := UserResults(rows, requestedId);
      if results == [] then Success(AnalysisResponse([], NoDataRecommendations, NoDataStudyPlan))
      else
        var weak := WeakSubjects(results, subjects);
        match reply
        case Replied(text) =>
          var (recommendations, studyPlan) := SplitReply(text);
          Success(AnalysisResponse(weak, recommendations, studyPlan))
        case Failed =>
          Success(AnalysisResponse(weak, FallbackRecommendations, FallbackStudyPlan))
  }

  /**
   * The language model's reply only fills the two texts: the weak subjects, and whether the request is
   * refused or answered with the no-data texts, do not depend on it.
   */
  lemma AnalyzeReplyOnlyFillsTexts(callerId: Id, requestedId: Id, rows: seq<ResultRow>, subjects: seq<Subject>,
                                   reply1: LlmReply, reply2: LlmReply)
    ensures var r1 := Analyze(callerId, requestedId, rows, subjects, reply1);
      var r2 := Analyze(callerId, requestedId, rows, subjects, reply2);
      && r1.Success? == r2.Success?
      && (r1.Success? ==> r1.value.weak_subjects == r2.value.weak_subjects)
      && (r1.Success? && UserResults(rows, requestedId) == [] ==> r1 == r2)
  {
  }

  /** The route as it runs: the authorization check, the results query, the loop and the reply split. */
  method AiAnalysis(callerId: Id, requestedId: Id, rows: seq<ResultRow>, subjects: seq<Subject>, reply: LlmReply)
    returns (r: Result<AnalysisResponse, ApiError>)
    ensures r == Analyze(callerId, requestedId, rows, subjects, reply)
  {
    if requestedId != callerId {
      return Failure(Forbidden);
    }
    var results := UserResults(rows, requestedId);
    if results == [] {
      return Success(AnalysisResponse([], NoDataRecommendations, NoDataStudyPlan));
    }
    var weak := CollectWeakSubjects(results, subjects);
    match reply {
      case Replied(text) =>
        var recommendations := if |text| > SplitAt then text[..SplitAt] else text;
        var studyPlan := if |text| > SplitAt then text[SplitAt..] else ShortReplyStudyPlan;
        r := Success(AnalysisResponse(weak, recommendations, studyPlan));
      case Failed =>
        r := Success(AnalysisResponse(weak, FallbackRecommendations, FallbackStudyPlan));
    }
  }
}
