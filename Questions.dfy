/**
 * GET /questions: the optional `subject_id` and `difficulty` query parameters become equality filters on the
 * question bank, and the cursor is read with `to_list(1000)`.
 */
module Questions {
  import opened Wrappers
  import opened Domain

  /** The cursor limit of the route. */
  const MaxQuestions: nat := 1000

  datatype QueryParams = QueryParams(subject_id: Option<string>, difficulty: Option<string>)

  /**
   * A parameter filters only when it is present and non-empty: the route tests it with Python truthiness,
   * so an empty string adds no condition to the query.
   */
  predicate Filters(p: Option<string>) {
    p.Some? && p.value != ""
  }

  predicate Matches(q: Question, params: QueryParams) {
    && (Filters(params.subject_id) ==> q.subject_id == params.subject_id.value)
    && (Filters(params.difficulty) ==> q.difficulty == params.difficulty.value)
  }

  /** The query `find(query)`: the matching questions in collection order. */
  function Matching(questions: seq<Question>, params: QueryParams): (r: seq<Question>)
    ensures |r| <= |questions|
    ensures forall q :: q in r <==> q in questions && Matches(q, params)
  {
    if questions == [] then []
    else (if Matches(questions[0], params) then [questions[0]] else []) + Matching(questions[1..], params)
  }

  /** The route's answer: the first 1000 matching questions. */
  function GetQuestions(questions: seq<Question>, params: QueryParams): (r: seq<Question>)
    ensures |r| <= MaxQuestions
    ensures forall q :: q in r ==> q in questions && Matches(q, params)
    ensures |Matching(questions, params)| <= MaxQuestions ==>
      forall q :: q in questions && Matches(q, params) ==> q in r
    ensures |r| == if |Matching(questions, params)| <= MaxQuestions then |Matching(questions, params)| else MaxQuestions
    ensures forall i :: 0 <= i < |r| ==> r[i] == Matching(questions, params)[i]
  {
    Take(Matching(questions, params), MaxQuestions)
  }

  /** The filter keeps collection order: filtering a concatenation concatenates the filtered parts. */
  lemma {:induction false} MatchingAppend(a: seq<Question>, b: seq<Question>, params: QueryParams)
    ensures Matching(a + b, params) == Matching(a, params) + Matching(b, params)
  {
    if a == [] {
      assert a + b == b;
    } else {
      assert (a + b)[0] == a[0];
      assert (a + b)[1..] == a[1..] + b;
      MatchingAppend(a[1..], b, params);
    }
  }

  /** With neither parameter set the query matches the whole bank, of which the first 1000 are returned. */
  lemma {:induction false} NoFilterReturnsAll(questions: seq<Question>, params: QueryParams)
    requires !Filters(params.subject_id) && !Filters(params.difficulty)
    ensures Matching(questions, params) == questions
    ensures GetQuestions(questions, params) == Take(questions, MaxQuestions)
  {
    if questions != [] {
      NoFilterReturnsAll(questions[1..], params);
      assert [questions[0]] + questions[1..] == questions;
    }
  }
}
