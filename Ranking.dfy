/**
 * GET /ranking: the aggregation pipeline over the `results` collection (group the rows per user summing their
 * totals and correct answers, sort by correct answers descending, keep ten), followed by the loop that looks
 * each user up and keeps only those with a user record.
 *
 * MongoDB leaves the order of `$group` output and of ties under `$sort` unspecified; the model groups users in
 * order of first appearance and sorts stably, which is one of the orders the pipeline may produce.
 */
module Ranking {
  import opened Wrappers
  import opened Domain

  /** The pipeline's `$limit`. */
  const RankingLimit: nat := 10

  /** One `$group` output document: a user's summed totals over all of their subjects. */
  datatype UserTotals = UserTotals(user_id: Id, total_questions: nat, correct_answers: nat)

  /** One entry of the response. */
  datatype RankingUser = RankingUser(name: string, total_questions: nat, correct_answers: nat, accuracy: real)

  // ---------------------------------------------------------------------------------------------------------
  // $group

  /** Sum of `total_questions` over the rows of `user`. */
  function SumTotal(rows: seq<ResultRow>, user: Id): nat {
    if rows == [] then 0
    else
      var last := rows[|rows| - 1];
      SumTotal(rows[..|rows| - 1], user) + (if last.user_id == user then last.total_questions else 0)
  }

  /** Sum of `correct_answers` over the rows of `user`. */
  function SumCorrect(rows: seq<ResultRow>, user: Id): nat {
    if rows == [] then 0
    else
      var last := rows[|rows| - 1];
      SumCorrect(rows[..|rows| - 1], user) + (if last.user_id == user then last.correct_answers else 0)
  }

  function GroupIndex(groups: seq<UserTotals>, user: Id): (r: Option<nat>)
    ensures r.Some? ==> r.value < |groups| && groups[r.value].user_id == user
    ensures r.None? <==> forall j :: 0 <= j < |groups| ==> groups[j].user_id != user
  {
    if groups == [] then None
    else if groups[0].user_id == user then Some(0)
    else match GroupIndex(groups[1..], user)
      case None => None
      case Some(i) => Some(i + 1)
  }

  /** Folds one row into the groups: its user's group grows by the row's counters, or a new group starts. */
  function AddRow(groups: seq<UserTotals>, row: ResultRow): (r: seq<UserTotals>)
    ensures |r| == |groups| || |r| == |groups| + 1
    ensures forall i :: 0 <= i < |groups| ==> r[i].user_id == groups[i].user_id
    ensures |r| == |groups| + 1 ==> r[|groups|].user_id == row.user_id
  {
    match GroupIndex(groups, row.user_id)
    case Some(i) =>
      groups[i := groups[i].(total_questions := groups[i].total_questions + row.total_questions,
                             correct_answers := groups[i].correct_answers + row.correct_answers)]
    case None =>
      groups + [UserTotals(row.user_id, row.total_questions, row.correct_answers)]
  }

  predicate HasRowOf(rows: seq<ResultRow>, user: Id) {
    exists j :: 0 <= j < |rows| && rows[j].user_id == user
  }

  /** `$group` by `user_id` with `$sum` of both counters. */
  function GroupByUser(rows: seq<ResultRow>): (r: seq<UserTotals>)
    ensures |r| <= |rows|
    ensures forall i :: 0 <= i < |r| ==> HasRowOf(rows, r[i].user_id)
  {
    if rows == [] then []
    else
      var init := rows[..|rows| - 1];
      assert forall j :: 0 <= j < |init| ==> rows[j] == init[j];
      AddRow(GroupByUser(init), rows[|rows| - 1])
  }

  predicate DistinctUsers(groups: seq<UserTotals>) {
    forall i, j :: 0 <= i < j < |groups| ==> groups[i].user_id != groups[j].user_id
  }


  /**
   * Grouping yields one group per user that has rows, and no other; each group's counters are the sums of
   * that user's rows.
   */
  lemma GroupByUserSums(rows: seq<ResultRow>)
    ensures var g := GroupByUser(rows);
      && DistinctUsers(g)
      && (forall i :: 0 <= i < |g| ==>
            g[i].total_questions == SumTotal(rows, g[i].user_id)
            && g[i].correct_answers == SumCorrect(rows, g[i].user_id))
      && (forall u :: GroupIndex(g, u).Some? <==> HasRowOf(rows, u))
  {
    GroupsDistinct(rows);
    GroupsSum(rows);
    GroupsCoverUsers(rows);
  }

  lemma {:induction false} GroupsDistinct(rows: seq<ResultRow>)
    ensures DistinctUsers(GroupByUser(rows))
  {
    if rows != [] {
      GroupsDistinct(rows[..|rows| - 1]);
    }
  }

  lemma {:induction false} GroupsSum(rows: seq<ResultRow>)
    ensures forall i :: 0 <= i < |GroupByUser(rows)| ==>
      && GroupByUser(rows)[i].total_questions == SumTotal(rows, GroupByUser(rows)[i].user_id)
      && GroupByUser(rows)[i].correct_answers == SumCorrect(rows, GroupByUser(rows)[i].user_id)
  {
    if rows != [] {
      var init, last := rows[..|rows| - 1], rows[|rows| - 1];
      GroupsSum(init);
      GroupsDistinct(init);
      GroupsCoverUsers(init);
      var g0 := GroupByUser(init);
      var g := AddRow(g0, last);
      assert GroupByUser(rows) == g;
      var idx := GroupIndex(g0, last.user_id);
      forall i | 0 <= i < |g|
        ensures g[i].total_questions == SumTotal(rows, g[i].user_id)
        ensures g[i].correct_answers == SumCorrect(rows, g[i].user_id)
      {
        var u := g[i].user_id;
        assert SumTotal(rows, u) == SumTotal(init, u) + (if last.user_id == u then last.total_questions else 0);
        assert SumCorrect(rows, u) == SumCorrect(init, u) + (if last.user_id == u then last.correct_answers else 0);
        if idx.None? {
          if i == |g0| {
            NoRowsSumZero(init, last.user_id);
          } else {
            assert g[i] == g0[i];
          }
        } else if i == idx.value {
          assert g0[i].user_id == last.user_id;
        } else {
          assert g[i] == g0[i];
          assert g0[idx.value].user_id == last.user_id;
        }
      }
    }
  }

  lemma {:induction false} GroupsCoverUsers(rows: seq<ResultRow>)
    ensures forall u :: GroupIndex(GroupByUser(rows), u).Some? <==> HasRowOf(rows, u)
  {
    if rows != [] {
      var init, last := rows[..|rows| - 1], rows[|rows| - 1];
      GroupsCoverUsers(init);
      var g0 := GroupByUser(init);
      var g := AddRow(g0, last);
      assert GroupByUser(rows) == g;
      var idx := GroupIndex(g0, last.user_id);
      forall u
        ensures GroupIndex(g, u).Some? <==> HasRowOf(rows, u)
      {
        if HasRowOf(rows, u) {
          var j :| 0 <= j < |rows| && rows[j].user_id == u;
          if j < |rows| - 1 {
            assert init[j].user_id == u;
            assert g[GroupIndex(g0, u).value].user_id == u;
          } else if idx.Some? {
            assert g[idx.value].user_id == u;
          } else {
            assert g[|g0|].user_id == u;
          }
        }
        if GroupIndex(g, u).Some? {
          var k := GroupIndex(g, u).value;
          if k < |g0| {
            assert g0[k].user_id == u;
            assert HasRowOf(init, u);
            var j :| 0 <= j < |init| && init[j].user_id == u;
            assert rows[j].user_id == u;
          } else {
            assert rows[|rows| - 1].user_id == u;
          }
        }
      }
    }
  }

  /** A user without rows sums to zero. */
  lemma {:induction false} NoRowsSumZero(rows: seq<ResultRow>, user: Id)
    requires !HasRowOf(rows, user)
    ensures SumTotal(rows, user) == 0 && SumCorrect(rows, user) == 0
  {
    if rows != [] {
      NoRowsSumZero(rows[..|rows| - 1], user);
    }
  }

  /** When every row has at least one answer, so does every group: the pipeline never divides by zero. */
  lemma {:induction false} GroupTotalsPositive(rows: seq<ResultRow>)
    requires forall j :: 0 <= j < |rows| ==> rows[j].total_questions > 0
    ensures forall i :: 0 <= i < |GroupByUser(rows)| ==> GroupByUser(rows)[i].total_questions > 0
  {
    if rows != [] {
      GroupTotalsPositive(rows[..|rows| - 1]);
    }
  }

  // ---------------------------------------------------------------------------------------------------------
  // $sort by correct_answers descending

  predicate SortedDesc(s: seq<UserTotals>) {
    forall i, j :: 0 <= i < j < |s| ==> s[i].correct_answers >= s[j].correct_answers
  }

  /** Places `x` before the first element with fewer correct answers. */
  function Insert(x: UserTotals, s: seq<UserTotals>): (r: seq<UserTotals>)
    ensures multiset(r) == multiset(s) + multiset{x}
    ensures |r| == |s| + 1
  {
    if s == [] || x.correct_answers >= s[0].correct_answers then [x] + s
    else
      assert s == [s[0]] + s[1..];
      [s[0]] + Insert(x, s[1..])
  }

  /** The head after insertion is `x` or the old head. */
  lemma InsertHead(x: UserTotals, s: seq<UserTotals>)
    ensures Insert(x, s)[0] == x || (s != [] && Insert(x, s)[0] == s[0])
  {
  }

  lemma {:induction false} InsertSorted(x: UserTotals, s: seq<UserTotals>)
    requires SortedDesc(s)
    ensures SortedDesc(Insert(x, s))
  {
    if s != [] && x.correct_answers < s[0].correct_answers {
      var rest := Insert(x, s[1..]);
      InsertSorted(x, s[1..]);
      InsertHead(x, s[1..]);
      assert s[0].correct_answers >= rest[0].correct_answers;
      assert Insert(x, s) == [s[0]] + rest;
    }
  }

  /** The `$sort` stage: a permutation of the groups, ordered by correct answers, largest first. */
  function SortByCorrect(s: seq<UserTotals>): (r: seq<UserTotals>)
    ensures multiset(r) == multiset(s)
    ensures |r| == |s|
  {
    if s == [] then []
    else
      assert s == [s[0]] + s[1..];
      Insert(s[0], SortByCorrect(s[1..]))
  }

  lemma {:induction false} SortByCorrectSorted(s: seq<UserTotals>)
    ensures SortedDesc(SortByCorrect(s))
  {
    if s != [] {
      SortByCorrectSorted(s[1..]);
      InsertSorted(s[0], SortByCorrect(s[1..]));
    }
  }

  /**
   * The pipeline's output: at most ten of the groups, one per user, in non-increasing order of correct
   * answers.
   */
  function TopGroups(rows: seq<ResultRow>): (top: seq<UserTotals>)
    ensures |top| <= RankingLimit
    ensures |top| == if |GroupByUser(rows)| <= RankingLimit then |GroupByUser(rows)| else RankingLimit
    ensures SortedDesc(top)
    ensures DistinctUsers(top)
    ensures forall i :: 0 <= i < |top| ==> top[i] in GroupByUser(rows)
  {
    GroupsDistinct(rows);
    SortKeeps(GroupByUser(rows));
    PrefixKeeps(SortByCorrect(GroupByUser(rows)), GroupByUser(rows), RankingLimit);
    Take(SortByCorrect(GroupByUser(rows)), RankingLimit)
  }

  /** Sorting groups with distinct users gives them in order, still one per user, each one of the groups. */
  lemma SortKeeps(g: seq<UserTotals>)
    requires DistinctUsers(g)
    ensures SortedDesc(SortByCorrect(g))
    ensures DistinctUsers(SortByCorrect(g))
    ensures forall i :: 0 <= i < |SortByCorrect(g)| ==> SortByCorrect(g)[i] in g
  {
    var s := SortByCorrect(g);
    SortByCorrectSorted(g);
    assert forall i :: 0 <= i < |s| ==> s[i] in multiset(g);
    forall i, j | 0 <= i < j < |s|
      ensures s[i].user_id != s[j].user_id
    {
      DistinctAfterPermutation(g, s, i, j);
    }
  }

  /** The `$limit` stage keeps order, distinct users and membership. */
  lemma PrefixKeeps(s: seq<UserTotals>, g: seq<UserTotals>, n: nat)
    requires SortedDesc(s) && DistinctUsers(s)
    requires forall i :: 0 <= i < |s| ==> s[i] in g
    ensures SortedDesc(Take(s, n)) && DistinctUsers(Take(s, n))
    ensures forall i :: 0 <= i < |Take(s, n)| ==> Take(s, n)[i] in g
  {
    var top := Take(s, n);
    assert forall i :: 0 <= i < |top| ==> top[i] == s[i];
  }

  /** An element of a descending list whose user the prefix lacks is below everything in the prefix. */
  lemma BelowPrefix(s: seq<UserTotals>, n: nat, x: UserTotals)
    requires SortedDesc(s) && x in s
    requires forall i :: 0 <= i < |Take(s, n)| ==> Take(s, n)[i].user_id != x.user_id
    ensures forall t :: t in Take(s, n) ==> t.correct_answers >= x.correct_answers
  {
    var top := Take(s, n);
    var m :| 0 <= m < |s| && s[m] == x;
    assert m >= |top|;
    forall t | t in top
      ensures t.correct_answers >= x.correct_answers
    {
      var i :| 0 <= i < |top| && top[i] == t;
      assert top[i] == s[i];
    }
  }

  /** When every row has an answer, so does every top group. */
  lemma TopGroupsPositive(rows: seq<ResultRow>)
    requires forall j :: 0 <= j < |rows| ==> rows[j].total_questions > 0
    ensures PositiveTotals(TopGroups(rows))
  {
    GroupTotalsPositive(rows);
  }

  /** With at most ten users who have rows, every one of them is in the pipeline's output. */
  lemma TopGroupsKeepAllWhenFew(rows: seq<ResultRow>, u: Id)
    requires |GroupByUser(rows)| <= RankingLimit
    requires HasRowOf(rows, u)
    ensures GroupIndex(TopGroups(rows), u).Some?
  {
    var g := GroupByUser(rows);
    GroupsCoverUsers(rows);
    var k := GroupIndex(g, u).value;
    assert TopGroups(rows) == SortByCorrect(g);
    assert g[k] in multiset(SortByCorrect(g));
    var m :| 0 <= m < |SortByCorrect(g)| && SortByCorrect(g)[m] == g[k];
    assert TopGroups(rows)[m].user_id == u;
  }

  /**
   * Every user who has rows but is missing from the top ten has no more correct answers than anyone in it.
   */
  lemma TopGroupsAreTop(rows: seq<ResultRow>, u: Id)
    requires HasRowOf(rows, u)
    requires GroupIndex(TopGroups(rows), u).None?
    ensures forall t :: t in TopGroups(rows) ==> t.correct_answers >= SumCorrect(rows, u)
  {
    var g := GroupByUser(rows);
    var s := SortByCorrect(g);
    GroupByUserSums(rows);
    SortByCorrectSorted(g);
    var k := GroupIndex(g, u).value;
    assert g[k] in multiset(s);
    BelowPrefix(s, RankingLimit, g[k]);
  }


  /** A permutation of a list of groups with distinct users also has distinct users. */
  lemma DistinctAfterPermutation(g: seq<UserTotals>, s: seq<UserTotals>, i: nat, j: nat)
    requires DistinctUsers(g) && multiset(s) == multiset(g)
    requires i < j < |s|
    ensures s[i].user_id != s[j].user_id
  {
    if s[i].user_id == s[j].user_id {
      assert s[i] in multiset(g) && s[j] in multiset(g);
      var a :| 0 <= a < |g| && g[a] == s[i];
      var b :| 0 <= b < |g| && g[b] == s[j];
      assert s[i] == s[j];
      assert s == s[..i] + [s[i]] + s[i + 1..j] + [s[j]] + s[j + 1..];
      assert multiset(s)[s[i]] >= 2;
      MultiplicityAtMostOne(g, a);
      assert false;
    }
  }

  /** In a list with distinct users every group occurs once. */
  lemma {:induction false} MultiplicityAtMostOne(g: seq<UserTotals>, a: nat)
    requires DistinctUsers(g) && a < |g|
    ensures multiset(g)[g[a]] == 1
  {
    assert g == g[..a] + [g[a]] + g[a + 1..];
    assert g[a] !in multiset(g[..a]);
    assert g[a] !in multiset(g[a + 1..]);
  }

  // ---------------------------------------------------------------------------------------------------------
  // The lookup loop

  /** The entry for one group, when its user has a user record. */
  function EntryFor(item: UserTotals, users: seq<User>): (r: Option<RankingUser>)
    requires item.total_questions > 0
    ensures r.Some? <==> FindUser(users, item.user_id).Some?
    ensures r.Some? ==>
      && r.value.name == FindUser(users, item.user_id).value.name
      && r.value.total_questions == item.total_questions
      && r.value.correct_answers == item.correct_answers
      && r.value.accuracy * item.total_questions as real == 100.0 * item.correct_answers as real
    ensures r.Some? && item.correct_answers <= item.total_questions ==> 0.0 <= r.value.accuracy <= 100.0
  {
    match FindUser(users, item.user_id)
    case None => None
    case Some(user) =>
      Some(RankingUser(user.name, item.total_questions, item.correct_answers,
                       Accuracy(item.correct_answers, item.total_questions)))
  }

  predicate PositiveTotals(data: seq<UserTotals>) {
    forall i :: 0 <= i < |data| ==> data[i].total_questions > 0
  }

  /** The groups in order, each replaced by its entry and dropped when its user has no record. */
  function RankingEntries(data: seq<UserTotals>, users: seq<User>): (r: seq<RankingUser>)
    requires PositiveTotals(data)
    ensures |r| <= |data|
  {
    if data == [] then []
    else
      var last := data[|data| - 1];
      RankingEntries(data[..|data| - 1], users)
        + (match EntryFor(last, users) case None => [] case Some(e) => [e])
  }

  /** The whole route: the pipeline, then the lookup loop. */
  function Ranking(rows: seq<ResultRow>, users: seq<User>): (r: seq<RankingUser>)
    requires forall j :: 0 <= j < |rows| ==> rows[j].total_questions > 0
    ensures |r| <= RankingLimit
    ensures forall a, b :: 0 <= a < b < |r| ==> r[a].correct_answers >= r[b].correct_answers
  {
    TopGroupsPositive(rows);
    var top := TopGroups(rows);
    RankingEntriesSorted(top, users);
    RankingEntries(top, users)
  }

  /** Every entry stands for one pipeline group whose user has a record, with that user's name and counters. */
  lemma {:induction false} RankingEntriesSound(data: seq<UserTotals>, users: seq<User>, k: nat)
    requires PositiveTotals(data)
    requires k < |RankingEntries(data, users)|
    ensures exists i :: 0 <= i < |data| && EntryFor(data[i], users) == Some(RankingEntries(data, users)[k])
  {
    var init := data[..|data| - 1];
    var e := EntryFor(data[|data| - 1], users);
    if k < |RankingEntries(init, users)| {
      RankingEntriesSound(init, users, k);
      var i :| 0 <= i < |init| && EntryFor(init[i], users) == Some(RankingEntries(init, users)[k]);
      assert data[i] == init[i];
    } else {
      assert EntryFor(data[|data| - 1], users) == Some(RankingEntries(data, users)[k]);
    }
  }

  /** Every group whose user has a record gets its entry: users without a record are omitted, not replaced. */
  lemma {:induction false} RankingEntriesComplete(data: seq<UserTotals>, users: seq<User>, i: nat)
    requires PositiveTotals(data)
    requires i < |data| && FindUser(users, data[i].user_id).Some?
    ensures EntryFor(data[i], users).value in RankingEntries(data, users)
  {
    var init := data[..|data| - 1];
    if i < |data| - 1 {
      assert init[i] == data[i];
      RankingEntriesComplete(init, users, i);
    }
  }

  /** Dropping groups keeps the order: entries of descending groups are descending in correct answers. */
  lemma {:induction false} RankingEntriesSorted(data: seq<UserTotals>, users: seq<User>)
    requires PositiveTotals(data) && SortedDesc(data)
    ensures forall a, b :: 0 <= a < b < |RankingEntries(data, users)| ==>
      RankingEntries(data, users)[a].correct_answers >= RankingEntries(data, users)[b].correct_answers
  {
    if data != [] {
      var init, last := data[..|data| - 1], data[|data| - 1];
      RankingEntriesSorted(init, users);
      var r0 := RankingEntries(init, users);
      forall a | 0 <= a < |r0|
        ensures r0[a].correct_answers >= last.correct_answers
      {
        RankingEntriesSound(init, users, a);
        var i :| 0 <= i < |init| && EntryFor(init[i], users) == Some(r0[a]);
        assert data[i] == init[i];
      }
      var r := RankingEntries(data, users);
      forall a, b | 0 <= a < b < |r|
        ensures r[a].correct_answers >= r[b].correct_answers
      {
        if b >= |r0| {
          assert r[b] == EntryFor(last, users).value;
        }
      }
    }
  }

  /**
   * The ranking holds at most ten entries, in non-increasing order of correct answers; each entry carries a
   * user's name and the sums of that user's rows; and each of the top ten groups whose user has a record is
   * present.
   */
  lemma RankingProperties(rows: seq<ResultRow>, users: seq<User>)
    requires forall j :: 0 <= j < |rows| ==> rows[j].total_questions > 0
    ensures var r := Ranking(rows, users);
      && |r| <= RankingLimit
      && (forall a, b :: 0 <= a < b < |r| ==> r[a].correct_answers >= r[b].correct_answers)
      && (forall k :: 0 <= k < |r| ==> exists u: User ::
            && u in users
            && r[k].name == u.name
            && r[k].total_questions == SumTotal(rows, u.id)
            && r[k].correct_answers == SumCorrect(rows, u.id))
  {
    TopGroupsPositive(rows);
    var top := TopGroups(rows);
    var r := Ranking(rows, users);
    assert r == RankingEntries(top, users);
    RankingEntriesSorted(top, users);
    forall k | 0 <= k < |r|
      ensures exists u: User ::
            && u in users
            && r[k].name == u.name
            && r[k].total_questions == SumTotal(rows, u.id)
            && r[k].correct_answers == SumCorrect(rows, u.id)
    {
      RankingEntrySums(rows, users, k);
    }
  }

  lemma RankingEntrySums(rows: seq<ResultRow>, users: seq<User>, k: nat)
    requires forall j :: 0 <= j < |rows| ==> rows[j].total_questions > 0
    requires k < |Ranking(rows, users)|
    ensures var e := Ranking(rows, users)[k];
      exists u: User ::
        && u in users
        && e.name == u.name
        && e.total_questions == SumTotal(rows, u.id)
        && e.correct_answers == SumCorrect(rows, u.id)
  {
    TopGroupsPositive(rows);
    GroupsSum(rows);
    var top := TopGroups(rows);
    var g := GroupByUser(rows);
    var e := Ranking(rows, users)[k];
    RankingEntriesSound(top, users, k);
    var i :| 0 <= i < |top| && EntryFor(top[i], users) == Some(e);
    assert top[i] in g;
    var m :| 0 <= m < |g| && g[m] == top[i];
    var u := FindUser(users, top[i].user_id).value;
    assert u in users && u.id == g[m].user_id;
    assert e.total_questions == g[m].total_questions && e.correct_answers == g[m].correct_answers;
  }

  /** Every top-ten group whose user has a record is in the ranking. */
  lemma RankingOmitsOnlyUnknownUsers(rows: seq<ResultRow>, users: seq<User>, i: nat)
    requires forall j :: 0 <= j < |rows| ==> rows[j].total_questions > 0
    requires i < |TopGroups(rows)| && FindUser(users, TopGroups(rows)[i].user_id).Some?
    ensures PositiveTotals(TopGroups(rows))
    ensures EntryFor(TopGroups(rows)[i], users).value in Ranking(rows, users)
  {
    TopGroupsPositive(rows);
    RankingEntriesComplete(TopGroups(rows), users, i);
  }

  /** One more group adds its entry, if its user is found, at the end. */
  lemma RankingEntriesStep(data: seq<UserTotals>, users: seq<User>, i: nat)
    requires PositiveTotals(data) && i < |data|
    ensures PositiveTotals(data[..i]) && PositiveTotals(data[..i + 1])
    ensures RankingEntries(data[..i + 1], users) ==
      RankingEntries(data[..i], users) + (match EntryFor(data[i], users) case None => [] case Some(e) => [e])
  {
    assert data[..i + 1][..i] == data[..i];
  }

  /** GET /ranking as the route runs it: the pipeline, then a loop appending an entry per user found. */
  method GetRanking(rows: seq<ResultRow>, users: seq<User>) returns (ranking: seq<RankingUser>)
    requires forall j :: 0 <= j < |rows| ==> rows[j].total_questions > 0
    ensures ranking == Ranking(rows, users)
  {
    TopGroupsPositive(rows);
    var rankingData := TopGroups(rows);
    ranking := [];
    for i := 0 to |rankingData|
      invariant PositiveTotals(rankingData[..i])
      invariant ranking == RankingEntries(rankingData[..i], users)
    {
      RankingEntriesStep(rankingData, users, i);
      var user := FindUser(users, rankingData[i].user_id);
      if user.Some? {
        var item := rankingData[i];
        ranking := ranking + [RankingUser(user.value.name, item.total_questions, item.correct_answers,
                                          Accuracy(item.correct_answers, item.total_questions))];
      }
    }
    assert rankingData[..|rankingData|] == rankingData;
  }
}
