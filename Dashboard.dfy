/**
 * The figures the dashboard derives from the user's result rows: summed totals, overall accuracy, weekly-goal
 * progress with its 100 % bar cap and goal message, and when the analysis button is disabled.
 * The weekly goal is compared with all-time totals, as the page does.
 */
module Dashboard {
  import opened Domain
  import opened Ledger
  import Ranking
  import Analysis

  /** No row has an answer. */
  predicate NoAnswers(results: seq<ResultRow>) {
    forall i :: 0 <= i < |results| ==> results[i].total_questions == 0
  }

  /** No row has a correct answer. */
  predicate NoCorrectAnswers(results: seq<ResultRow>) {
    forall i :: 0 <= i < |results| ==> results[i].correct_answers == 0
  }

  /** `results.reduce((sum, r) => sum + r.total_questions, 0)`. */
  function TotalQuestions(results: seq<ResultRow>): (t: nat)
    ensures t == 0 <==> NoAnswers(results)
  {
    if results == [] then 0
    else
      var init := results[..|results| - 1];
      assert forall i :: 0 <= i < |init| ==> init[i] == results[i];
      TotalQuestions(init) + results[|results| - 1].total_questions
  }

  /** `results.reduce((sum, r) => sum + r.correct_answers, 0)`. */
  function TotalCorrect(results: seq<ResultRow>): (t: nat)
    ensures t == 0 <==> NoCorrectAnswers(results)
  {
    if results == [] then 0
    else
      var init := results[..|results| - 1];
      assert forall i :: 0 <= i < |init| ==> init[i] == results[i];
      TotalCorrect(init) + results[|results| - 1].correct_answers
  }

  /** The sums split over any split of the rows, so they do not depend on how the rows are grouped. */
  lemma {:induction false} TotalsAppend(a: seq<ResultRow>, b: seq<ResultRow>)
    ensures TotalQuestions(a + b) == TotalQuestions(a) + TotalQuestions(b)
    ensures TotalCorrect(a + b) == TotalCorrect(a) + TotalCorrect(b)
    decreases |b|
  {
    if b == [] {
      assert a + b == a;
    } else {
      assert (a + b)[..|a + b| - 1] == a + b[..|b| - 1];
      TotalsAppend(a, b[..|b| - 1]);
    }
  }

  /** Rows whose correct counts are within their totals sum to a correct count within the total. */
  lemma {:induction false} TotalCorrectWithinTotal(results: seq<ResultRow>)
    requires forall i :: 0 <= i < |results| ==> results[i].correct_answers <= results[i].total_questions
    ensures TotalCorrect(results) <= TotalQuestions(results)
  {
    if results != [] {
      TotalCorrectWithinTotal(results[..|results| - 1]);
    }
  }

  /**
   * Over all of a user's rows, the dashboard's sums are the totals the ranking's `$group` computes for that
   * user. The dashboard itself sums at most 100 rows; `DashboardShowsRankingSums` covers that cap.
   */
  lemma {:induction false} DashboardTotalsMatchRanking(rows: seq<ResultRow>, user: Id)
    ensures TotalQuestions(OwnRows(rows, user)) == Ranking.SumTotal(rows, user)
    ensures TotalCorrect(OwnRows(rows, user)) == Ranking.SumCorrect(rows, user)
  {
    if rows != [] {
      var init, last := rows[..|rows| - 1], rows[|rows| - 1];
      assert rows == init + [last];
      OwnRowsAppend(init, [last], user);
      var front, back := OwnRows(init, user), OwnRows([last], user);
      assert OwnRows(rows, user) == front + back;
      TotalsAppend(front, back);
      DashboardTotalsMatchRanking(init, user);
      LastRowTotals(last, user);
    }
  }

  /**
   * What the dashboard shows, summed over the rows GET /results returns, equals the ranking's sums for the
   * user when the user has at most 100 rows; beyond that the cap leaves rows out of the dashboard's sums.
   */
  lemma DashboardShowsRankingSums(rows: seq<ResultRow>, user: Id)
    requires |OwnRows(rows, user)| <= ResultsLimit
    ensures TotalQuestions(UserResults(rows, user)) == Ranking.SumTotal(rows, user)
    ensures TotalCorrect(UserResults(rows, user)) == Ranking.SumCorrect(rows, user)
  {
    assert UserResults(rows, user) == OwnRows(rows, user);
    DashboardTotalsMatchRanking(rows, user);
  }

  /** The totals over the user's rows of a one-row ledger. */
  lemma LastRowTotals(last: ResultRow, user: Id)
    ensures TotalQuestions(OwnRows([last], user)) == if last.user_id == user then last.total_questions else 0
    ensures TotalCorrect(OwnRows([last], user)) == if last.user_id == user then last.correct_answers else 0
  {
    assert [last][1..] == [];
    if last.user_id == user {
      assert OwnRows([last], user) == [last];
      assert [last][..0] == [];
    } else {
      assert OwnRows([last], user) == [];
    }
  }

  /** Overall accuracy: 0 with no answers, otherwise correct over total, in percent. */
  function OverallAccuracy(results: seq<ResultRow>): (a: real)
    ensures TotalQuestions(results) == 0 ==> a == 0.0
    ensures TotalQuestions(results) > 0 ==> IsPercentOf(a, TotalCorrect(results), TotalQuestions(results))
  {
    Percent(TotalCorrect(results), TotalQuestions(results))
  }

  /** `total > 0 ? correct / total * 100 : 0` on the two sums. */
  function Percent(correct: nat, total: nat): (a: real)
    ensures total == 0 ==> a == 0.0
    ensures total > 0 ==> IsPercentOf(a, correct, total)
  {
    if total > 0 then
      var a := Accuracy(correct, total);
      assert IsPercentOf(a, correct, total);
      a
    else 0.0
  }

  /** `a` is `correct` out of `total` in percent, stated without division: a · total = 100 · correct. */
  predicate IsPercentOf(a: real, correct: nat, total: nat) {
    a * total as real == 100.0 * correct as real
  }

  /** With every row's correct count within its total, overall accuracy lies in [0, 100]. */
  lemma OverallAccuracyBounds(results: seq<ResultRow>)
    requires forall i :: 0 <= i < |results| ==> results[i].correct_answers <= results[i].total_questions
    ensures 0.0 <= OverallAccuracy(results) <= 100.0
  {
    TotalCorrectWithinTotal(results);
    if TotalQuestions(results) > 0 {
      assert OverallAccuracy(results) == Accuracy(TotalCorrect(results), TotalQuestions(results));
    }
  }

  /** For any valid ledger, the rows the backend returns for a user satisfy the bound. */
  lemma DashboardAccuracyOfLedger(rows: seq<ResultRow>, user: Id)
    requires LedgerValid(rows)
    ensures 0.0 <= OverallAccuracy(UserResults(rows, user)) <= 100.0
  {
    var results := UserResults(rows, user);
    forall i | 0 <= i < |results|
      ensures results[i].correct_answers <= results[i].total_questions
    {
      assert results[i] in rows;
      var k :| 0 <= k < |rows| && rows[k] == results[i];
      assert WellFormedRow(rows[k]);
    }
    OverallAccuracyBounds(results);
  }

  /** `totalQuestions / weekly_goal * 100`; the page has no guard against a zero goal. */
  function WeeklyProgress(totalQuestions: nat, weeklyGoal: int): (p: real)
    requires weeklyGoal > 0
    ensures p >= 0.0
    ensures p * weeklyGoal as real == 100.0 * totalQuestions as real
  {
    (totalQuestions as real / weeklyGoal as real) * 100.0
  }

  /** The progress bar's value, `Math.min(weeklyProgress, 100)`. */
  function ProgressBarValue(progress: real): (v: real)
    ensures v <= 100.0
    ensures v == progress || v == 100.0
    ensures progress <= 100.0 ==> v == progress
  {
    if progress < 100.0 then progress else 100.0
  }

  /** The line under the bar: the goal-reached message, or how many questions are left. */
  datatype GoalMessage = GoalReached | Remaining(count: int)

  /** The page's goal test on the progress is a test on the counts: progress reaches 100 % iff total ≥ goal. */
  lemma ProgressReachesGoal(totalQuestions: nat, weeklyGoal: int)
    requires weeklyGoal > 0
    ensures WeeklyProgress(totalQuestions, weeklyGoal) >= 100.0 <==> totalQuestions >= weeklyGoal
    ensures ProgressBarValue(WeeklyProgress(totalQuestions, weeklyGoal)) == 100.0 <==> totalQuestions >= weeklyGoal
  {
    ScaledComparison(WeeklyProgress(totalQuestions, weeklyGoal), totalQuestions, weeklyGoal);
  }

  /** A percentage p of a positive goal with p · goal = 100 · total reaches 100 iff total reaches the goal. */
  lemma ScaledComparison(p: real, total: nat, goal: int)
    requires goal > 0 && p * goal as real == 100.0 * total as real
    ensures p >= 100.0 <==> total >= goal
  {
    var g := goal as real;
    if p >= 100.0 {
      assert (p - 100.0) * g >= 0.0;
    } else {
      assert (100.0 - p) * g > 0.0;
    }
  }

  /**
   * The message under the bar: the goal counts as reached exactly when the total is at least the goal;
   * otherwise the remaining count is the difference and is positive.
   */
  function GoalMessageFor(totalQuestions: nat, weeklyGoal: int): (m: GoalMessage)
    requires weeklyGoal > 0
    ensures m == GoalReached <==> totalQuestions >= weeklyGoal
    ensures m.Remaining? ==> m.count == weeklyGoal - totalQuestions && m.count > 0
  {
    ProgressReachesGoal(totalQuestions, weeklyGoal);
    if WeeklyProgress(totalQuestions, weeklyGoal) >= 100.0 then GoalReached
    else Remaining(weeklyGoal - totalQuestions)
  }

  /** The analysis button: disabled while an analysis is running or when nothing has been answered. */
  function AnalysisButtonDisabled(analyzing: bool, totalQuestions: nat): bool {
    analyzing || totalQuestions == 0
  }

  /**
   * A press on the enabled button, whose total is taken over the rows GET /results returns, reaches the
   * analysis proper: the route, asked by the user about themself, answers with the weak subjects of those
   * rows and texts from the model's reply (or the fallback texts), never with its no-data answer.
   */
  lemma AnalysisButtonOpensAnalysis(rows: seq<ResultRow>, user: Id, subjects: seq<Subject>,
                                    reply: Analysis.LlmReply, analyzing: bool)
    requires !AnalysisButtonDisabled(analyzing, TotalQuestions(UserResults(rows, user)))
    ensures var r := Analysis.Analyze(user, user, rows, subjects, reply);
      && r.Success?
      && r.value.weak_subjects == Analysis.WeakSubjects(UserResults(rows, user), subjects)
      && (reply.Failed? ==>
            r.value.recommendations == Analysis.FallbackRecommendations
            && r.value.study_plan == Analysis.FallbackStudyPlan)
      && (reply.Replied? ==> (r.value.recommendations, r.value.study_plan) == Analysis.SplitReply(reply.text))
  {
    var results := UserResults(rows, user);
    assert results != [];
    assert results[0] in results;
  }
}
