# Vestibular study platform — verified model of the core

This project models the core of a study platform for Brazilian university entrance exams. Students answer
multiple-choice questions. A per-(user, subject) results ledger counts their answers and correct answers and
keeps an accuracy. The dashboard, the ranking and an AI analysis read that ledger.

- **Backend routes** (`backend/server.py`):
  - `submit_answer` grades an answer and updates the ledger.
  - `create_question` raises the subject's question counter.
  - `get_questions` filters the question bank.
  - `get_ranking` groups, sorts and limits the results, then looks up names.
  - `ai_analysis` builds the weak-subject list and splits the language model's reply.
- **Frontend helpers**:
  - Dashboard totals, accuracy, weekly-goal progress and the analysis button.
  - The solve page's clock, option colouring and submit guard.
  - The question bank's filter parameters and difficulty label and colour.

Modules:

| module | file | what it holds |
|---|---|---|
| `Wrappers` | Wrappers.dfy | `Option`, `Result`, and `Take`, the first n elements (a cursor's `to_list(n)` / `$limit`) |
| `Domain` | Domain.dfy | entities, accuracy, first-match lookups (`find_one`), Python option indexing |
| `Ledger` | Ledger.dfy | the results ledger, its invariant, the per-user results query; class `Store` with `SubmitAnswer` and `CreateQuestion` |
| `Questions` | Questions.dfy | GET /questions |
| `Ranking` | Ranking.dfy | GET /ranking: `$group`, `$sort`, `$limit`, then the name-lookup loop (`GetRanking`) |
| `Analysis` | Analysis.dfy | POST /ai/analyze: the weak-subject loop (`CollectWeakSubjects`), the reply split, fallbacks |
| `Dashboard` | Dashboard.dfy | dashboard derivations |
| `QuestionSolve` | QuestionSolve.dfy | `formatTime`, option colouring, `handleSubmit` |
| `QuestionBank` | QuestionBank.dfy | filter parameters, difficulty label and colour |

How the collections are modelled:

- Collections are sequences in collection order.
- `results` is a `seq<ResultRow>` with unique (user, subject) keys.
- `Store.Valid()` ties the ledger to the answer log. For every (user, subject), the row's total is the number
  of logged answers by that user on questions of that subject. The row's correct count is the number of those
  answers that are correct. A user or subject with no row has a total of 0.
- `SubmitAnswer` keeps this invariant, and so does `CreateQuestion`.
- Accuracy is the exact rational `correct / total * 100`.

The code does none of the following, and neither does the model:

- **Ranking order.** The ranking sorts only by `correct_answers`, with no further tie-break.
- **Weak-subject order.** Weak subjects appear in result order, not sorted by accuracy.
- **No extra input validation.**
  - An option index is used as a Python index. `-1` is the last option. An index outside `-n..n-1` raises
    IndexError, which ends the request with a 500 and writes nothing.
  - The code does not check that a question has exactly one correct option.
- **Language-model failure.** The route returns fixed fallback texts rather than an error.
- **No weekly window.** The dashboard compares all-time totals with the weekly goal.
- **No goal guard.** No check guards a zero weekly goal.

## Model

| member | source | states |
|---|---|---|
| Wrappers.Take | backend/server.py:282 | a cursor's `to_list(n)`: at most n elements, a prefix of the input, all of it when it is short enough |
| Domain.Accuracy | backend/server.py:322 | accuracy of correct over total lies in [0, 100] when correct ≤ total; it is 100 iff all are correct and 0 iff none is |
| Domain.CancelPositive | backend/server.py:322 | a positive factor cancels from both sides of an equation, which pins accuracy 100 to correct = total |
| Domain.AccuracyBelow | backend/server.py:420 | accuracy < threshold iff 100·correct < threshold·total, so the weak test is exact integer arithmetic |
| Domain.SubjectIndex | backend/server.py:267-270 | the index of the first subject with the id, or none iff no subject has it |
| Domain.FindSubject | frontend/src/pages/QuestionBank.js:55 | `getSubjectById`: the first subject whose id matches, or nothing iff none matches |
| Domain.FindSubjectIsFirst | frontend/src/pages/QuestionBank.js:55 | a subject whose id occurs nowhere earlier is the one found for its id |
| Domain.FindQuestion | backend/server.py:295-297 | nothing iff no question has the id; otherwise a question with the id that no earlier question shares |
| Domain.FindQuestionAppend | backend/server.py:264 | inserting a question does not change which question an already-resolving id finds |
| Domain.FindUser | backend/server.py:390-391 | nothing iff no user has the id; otherwise a user with the id that no earlier user shares |
| Domain.OptionAt | backend/server.py:299 | Python indexing of the options: an option exactly for -n ≤ i < n, the i-th one for i ≥ 0 |
| Domain.NegativeIndexCountsFromEnd | backend/server.py:299 | index i − n selects the same option as index i |
| Ledger.RowIndex | backend/server.py:314-317 | the ledger's row for (user, subject): the first row with that key, none iff there is none |
| Ledger.Record | backend/server.py:319-343 | recording an answer keeps the ledger's length or adds one row |
| Ledger.RecordValid | backend/server.py:319-343 | recording keeps every row well formed (total ≥ 1, correct ≤ total, accuracy as computed) and keys unique |
| Ledger.RecordEffect | backend/server.py:319-343 | the answered key gets total + 1 and correct + 1 iff correct, with accuracy recomputed; every other key keeps its row and index |
| Ledger.RowIndexAppend | backend/server.py:333-343 | a key absent from the ledger resolves to the appended row, and other keys are unaffected |
| Ledger.RecordAllCounts | backend/server.py:319-321 | N answers on one key raise its total by N and its correct count by the number of correct ones |
| Ledger.OwnRows | backend/server.py:355 | the user's rows: exactly the rows whose `user_id` is the user |
| Ledger.OwnRowsAppend | backend/server.py:355 | the user's rows of a concatenation are the user's rows of each part, in order |
| Ledger.UserResults | backend/server.py:353-356 | the user's first min(100, n) rows in collection order, n being the number of the user's rows; empty iff the user has no row |
| Ledger.ValidLedgerBounds | backend/server.py:320-322 | every row of a valid ledger has correct ≤ total and accuracy in [0, 100] |
| Ledger.CountsIgnoreNewQuestion | backend/server.py:258-264 | adding a question changes no user's answer counts |
| Ledger.RecordKeepsAgreement | backend/server.py:311-343 | logging an answer and recording it on the row of its question's subject keep every row's counters equal to the counts of logged answers |
| Ledger.Grade | backend/server.py:295-299 | 404 iff the question is missing; 500 iff the index does not resolve; success otherwise, with the resolved option's flag as verdict and the question's subject as key |
| Ledger.Store.constructor | backend/server.py:293-345 | an empty answer log and ledger satisfy the ledger invariant |
| Ledger.Store.SubmitAnswer | backend/server.py:293-345 | an error writes nothing; success logs exactly one answer with the graded verdict and records it on the (user, subject) row; the ledger invariant is kept |
| Ledger.Store.CreateQuestion | backend/server.py:258-272 | the question is appended with its creator; only the first subject with the id has `total_questions` raised by 1; answers and results unchanged; invariant kept |
| Questions.Matching | backend/server.py:276-282 | a question is selected iff it is in the bank and matches every non-empty filter |
| Questions.GetQuestions | backend/server.py:274-283 | the first min(1000, n) matching questions in collection order, n being the number of matches |
| Questions.MatchingAppend | backend/server.py:282 | filtering distributes over concatenation, so collection order is kept |
| Questions.NoFilterReturnsAll | backend/server.py:276-280 | with no non-empty filter and at most 1000 questions, the whole bank is returned |
| Ranking.GroupIndex | backend/server.py:364 | the group of a user, none iff no group has that user |
| Ranking.GroupByUser | backend/server.py:363-367 | at most one group per row, each for a user who has a row |
| Ranking.AddRow | backend/server.py:363-367 | folding a row keeps existing groups' users in place and adds at most one group |
| Ranking.GroupByUserSums | backend/server.py:363-367 | one group per user that has rows and no other; each group's counters are the sums of that user's rows |
| Ranking.GroupsDistinct | backend/server.py:364 | no two groups share a user |
| Ranking.GroupsSum | backend/server.py:365-366 | each group's totals equal the sums of its user's rows |
| Ranking.GroupsCoverUsers | backend/server.py:364 | a user has a group iff the user has a row |
| Ranking.NoRowsSumZero | backend/server.py:365-366 | a user without rows sums to zero |
| Ranking.GroupTotalsPositive | backend/server.py:374-379 | when every row has an answer, every group does, so the accuracy division is defined |
| Ranking.Insert | backend/server.py:382 | insertion adds exactly one element (multiset) |
| Ranking.InsertSorted | backend/server.py:382 | insertion into a descending list keeps it descending |
| Ranking.SortByCorrect | backend/server.py:382 | the sort is a permutation of the groups |
| Ranking.SortByCorrectSorted | backend/server.py:382 | the sorted groups are in non-increasing order of correct answers |
| Ranking.TopGroups | backend/server.py:361-386 | the pipeline keeps min(10, number of users with rows) groups, in non-increasing order of correct answers, with distinct users, each one of the groups |
| Ranking.SortKeeps | backend/server.py:382 | sorting groups with distinct users keeps them distinct and each one of the groups, in non-increasing order |
| Ranking.PrefixKeeps | backend/server.py:383 | the `$limit` stage keeps order, distinct users and membership |
| Ranking.BelowPrefix | backend/server.py:382-383 | in a descending list, an element whose user the first n lack has no more correct answers than any of them |
| Ranking.TopGroupsPositive | backend/server.py:374-379 | every top group has a positive total |
| Ranking.TopGroupsKeepAllWhenFew | backend/server.py:382-383 | with at most 10 users who have rows, every one of them is in the top groups |
| Ranking.TopGroupsAreTop | backend/server.py:382-383 | a user left out of the top ten has no more correct answers than anyone in it |
| Ranking.DistinctAfterPermutation | backend/server.py:382 | sorting cannot create two groups for one user |
| Ranking.MultiplicityAtMostOne | backend/server.py:364 | in groups with distinct users, each group occurs at most once |
| Ranking.EntryFor | backend/server.py:389-397 | an entry iff the group's user is found; it carries that user's name and the group's counters, with accuracy × total = 100 × correct, in [0, 100] when correct ≤ total |
| Ranking.RankingEntries | backend/server.py:388-399 | the loop produces at most one entry per group |
| Ranking.RankingEntriesSound | backend/server.py:389-397 | every entry is the name, counters and accuracy of a group whose user was found |
| Ranking.RankingEntriesComplete | backend/server.py:390-397 | every group whose user is found gets its entry |
| Ranking.RankingEntriesSorted | backend/server.py:388-399 | dropping unknown users keeps the descending order |
| Ranking.Ranking | backend/server.py:359-399 | at most 10 entries, in non-increasing order of correct answers |
| Ranking.RankingProperties | backend/server.py:359-399 | at most 10 entries, non-increasing in correct answers, each a known user's name with the sums of that user's rows |
| Ranking.RankingEntrySums | backend/server.py:359-399 | each entry carries a user's name and that user's summed counters |
| Ranking.RankingOmitsOnlyUnknownUsers | backend/server.py:390-397 | a top-ten group is missing from the response only when its user has no record |
| Ranking.RankingEntriesStep | backend/server.py:388-397 | one more group appends its entry, when its user is found, after the entries so far |
| Ranking.GetRanking | backend/server.py:359-399 | the loop computes exactly the ranking specified by the pipeline and lookup |
| Analysis.WeakSubjects | backend/server.py:418-427 | at most one weak entry per result row |
| Analysis.WeakEntry | backend/server.py:420-427 | an entry iff the row's accuracy is under 70 and its subject exists; the entry has the subject's name and the row's accuracy and total |
| Analysis.WeakEntryOfLedgerRow | backend/server.py:420-427 | for a well-formed row the weak test is 100 · correct < 70 · total, with the subject existing |
| Analysis.WeakSubjectsAppend | backend/server.py:419 | weak subjects of a concatenation are those of each part in order (result order kept) |
| Analysis.WeakSubjectsSound | backend/server.py:420-427 | every weak entry comes from a row under 70 % whose subject exists, with that subject's name and the row's figures |
| Analysis.WeakSubjectsComplete | backend/server.py:420-427 | every row under 70 % whose subject exists contributes its entry |
| Analysis.WeakSubjectsExact | backend/server.py:418-427 | an entry is listed iff it is built from some row under 70 % with an existing subject |
| Analysis.CollectWeakSubjects | backend/server.py:418-427 | the loop computes exactly the weak-subject list |
| Analysis.SplitReply | backend/server.py:452-456 | a reply over 300 characters splits into its first 300 characters and the rest, which concatenate back to it; a shorter one is kept whole with the fixed study plan |
| Analysis.Analyze | backend/server.py:402-463 | 403 iff the ids differ; the no-data texts iff the user has no results; otherwise the weak subjects of the user's results with fallback texts on failure or the split reply |
| Analysis.AnalyzeReplyOnlyFillsTexts | backend/server.py:418-463 | the reply affects only the two texts, never the refusal, the no-data answer or the weak list |
| Analysis.AiAnalysis | backend/server.py:402-463 | the route's statements compute exactly `Analyze` |
| Dashboard.TotalsAppend | frontend/src/pages/Dashboard.js:51-52 | both sums split over any concatenation of rows |
| Dashboard.TotalCorrectWithinTotal | frontend/src/pages/Dashboard.js:51-52 | rows with correct ≤ total sum to correct ≤ total |
| Dashboard.TotalQuestions | frontend/src/pages/Dashboard.js:51 | the total is 0 iff no row has answers |
| Dashboard.TotalCorrect | frontend/src/pages/Dashboard.js:52 | the correct total is 0 iff no row has a correct answer |
| Dashboard.DashboardTotalsMatchRanking | frontend/src/pages/Dashboard.js:51-52 | over all of a user's rows, the dashboard's sums equal the sums the ranking groups for that user |
| Dashboard.DashboardShowsRankingSums | frontend/src/pages/Dashboard.js:51-52 | for a user with at most 100 rows, the sums over the rows GET /results returns equal the ranking's sums |
| Dashboard.OverallAccuracy | frontend/src/pages/Dashboard.js:53 | 0 with no answers; otherwise accuracy × total = 100 × correct |
| Dashboard.Percent | frontend/src/pages/Dashboard.js:53 | 0 when the total is 0; otherwise the percentage p with p · total = 100 · correct |
| Dashboard.OverallAccuracyBounds | frontend/src/pages/Dashboard.js:53 | with correct ≤ total in every row, overall accuracy lies in [0, 100] |
| Dashboard.DashboardAccuracyOfLedger | frontend/src/pages/Dashboard.js:51-53 | for the rows the backend returns from a valid ledger, overall accuracy lies in [0, 100] |
| Dashboard.WeeklyProgress | frontend/src/pages/Dashboard.js:54 | progress × goal = 100 × total, and progress ≥ 0 |
| Dashboard.ProgressBarValue | frontend/src/pages/Dashboard.js:88 | the bar never exceeds 100; it is the progress itself when that is at most 100 |
| Dashboard.ProgressReachesGoal | frontend/src/pages/Dashboard.js:88-90 | progress reaches 100 iff total ≥ goal, iff the bar is full |
| Dashboard.ScaledComparison | frontend/src/pages/Dashboard.js:54 | a percentage p with p · goal = 100 · total reaches 100 iff total reaches the goal |
| Dashboard.GoalMessageFor | frontend/src/pages/Dashboard.js:90 | goal reached iff total ≥ goal; otherwise the remaining count is goal − total and positive |
| Dashboard.AnalysisButtonOpensAnalysis | frontend/src/pages/Dashboard.js:205 | with the button enabled over the user's results, the analysis route answers with those rows' weak subjects and texts from the reply (or the fallback texts), never the no-data answer |
| QuestionSolve.Digit | frontend/src/pages/QuestionSolve.js:74 | the character of a digit, whose code minus '0' is the digit |
| QuestionSolve.DecimalString | frontend/src/pages/QuestionSolve.js:74 | a number's decimal text is non-empty, all digits, one digit iff below 10, and starts with 0 only for 0 |
| QuestionSolve.ParseDecimalString | frontend/src/pages/QuestionSolve.js:74 | reading a rendered number back gives the number |
| QuestionSolve.PadStart | frontend/src/pages/QuestionSolve.js:74 | `padStart`: length max(width, length), fill characters in front, the string itself at the end |
| QuestionSolve.TwoDigitSeconds | frontend/src/pages/QuestionSolve.js:73-74 | seconds below 60 render as exactly two digits whose value is the seconds |
| QuestionSolve.ClockLayout | frontend/src/pages/QuestionSolve.js:74 | digits, a colon, two digits: the colon sits three from the end and the clock reads back as minutes × 60 + seconds |
| QuestionSolve.FormatTime | frontend/src/pages/QuestionSolve.js:71-75 | the unpadded minutes ⌊s/60⌋, a single ':', then two digits for s mod 60 < 60; reading the clock back gives s |
| QuestionSolve.StyleOption | frontend/src/pages/QuestionSolve.js:129-143 | green iff submitted and correct; red iff submitted, selected and wrong; ring iff not submitted and selected |
| QuestionSolve.StyleOptions | frontend/src/pages/QuestionSolve.js:128 | one style per option |
| QuestionSolve.StyleOptionsMeaning | frontend/src/pages/QuestionSolve.js:128-143 | after submission green iff the option is correct and red iff it is the selected wrong option; before submission neither, and the ring only on the selected option |
| QuestionSolve.MarkCounts | frontend/src/pages/QuestionSolve.js:128-143 | at most one red option, one exactly when a wrong option was submitted; as many green options as correct ones after submission, none before |
| QuestionSolve.SelectedMarkMatchesVerdict | frontend/src/pages/QuestionSolve.js:134-139 | the selected option's colour after submission agrees with the server's verdict for that choice |
| QuestionSolve.SubmitDisabled | frontend/src/pages/QuestionSolve.js:164 | the button is disabled exactly when a press could never send a request, whatever the reply |
| QuestionSolve.HandleSubmit | frontend/src/pages/QuestionSolve.js:45-69 | no selection: no request and the state unchanged; otherwise the request carries the choice and time, and the page is submitted iff the server accepts; a rejected post leaves the state as it was |
| QuestionSolve.SubmitGuard | frontend/src/pages/QuestionSolve.js:46-49 | a request is sent iff the button is enabled |
| QuestionBank.SelectionParam | frontend/src/pages/QuestionBank.js:45-46 | "all" gives no parameter, any other selection itself; the server filters on it iff the selection is neither "all" nor empty |
| QuestionBank.FilterParams | frontend/src/pages/QuestionBank.js:44-46 | a question matches iff each selector is "all", empty, or the question's subject (difficulty) |
| QuestionBank.BankShowsSelection | frontend/src/pages/QuestionBank.js:42-49 | the page lists only questions of the selected subject and difficulty; all of them when at most 1000 qualify |
| QuestionBank.AllSelectedShowsEverything | frontend/src/pages/QuestionBank.js:44-48 | with both selectors on "all" the whole bank (up to 1000) is listed |
| QuestionBank.DifficultyLabel | frontend/src/pages/QuestionBank.js:66-73 | the label is the value itself iff the difficulty is not easy, medium or hard |
| QuestionBank.DifficultyColor | frontend/src/pages/QuestionBank.js:57-64 | gray iff the difficulty is not easy, medium or hard |
| QuestionBank.DifficultyMappingsAgree | frontend/src/pages/QuestionBank.js:57-73 | gray iff the label is the value itself iff the difficulty is not easy/medium/hard; the three known ones get distinct labels and colours |

## Left out

- **Authentication.** Password hashing, JWT tokens, and registration and login are left out. The caller's
  user id is an input of `SubmitAnswer`, `CreateQuestion` and `Analyze`.
- **Database I/O.** The MongoDB driver and its asynchrony are left out. The collections are the fields of
  `Ledger.Store`. A `find_one` is the first match in collection order.
- **Generated values.** Generated ids, `uuid`s and timestamps (`answered_at`, `last_updated`, `created_at`)
  have no effect on the modelled behaviour.
- Ledger.Store.SubmitAnswer: requests do not interleave. The read-then-write of the result row is not atomic
  in the source, so two concurrent answers on one key can lose an increment. Two concurrent first answers on
  one key can both miss the row and both insert one, leaving two rows for the key, which the ledger's
  unique-key invariant excludes. The model applies submissions one after another.
- **Language model.** The call itself, its key and the prompt text are left out. The reply is a parameter
  (`Replied(text)` or `Failed`).
- **Floating point.**
  - Accuracies are exact rationals.
  - `round(…, 2)` in the ranking is not modelled: the ranking's accuracy is the exact value.
  - The dashboard's `toFixed` display is not modelled.
- Ranking.SortByCorrect: the sort is stable. MongoDB's `$sort` leaves the order of equal counts unspecified,
  and `$group` leaves the order of groups unspecified. The model fixes one order that the pipeline may
  produce: users in order of first appearance.
- Ranking.Ranking: requires every row to have a positive total. A total of 0 would make the pipeline divide by
  zero. Every row of a valid ledger has a total of at least 1 (`Ledger.WellFormedRow`).
- Dashboard.WeeklyProgress: requires a positive goal, and so do Dashboard.ProgressReachesGoal and
  Dashboard.GoalMessageFor. The page divides by the goal without a guard.
  Registration sets the goal to 50 (backend/server.py:193).
- **UI plumbing.** React state, effects, the one-second timer, toasts and navigation are left out. The solve
  page's state is the value `SolveState`.
- **Other files.** The presentation-only pages (Ranking.js, Profile.js, LandingPage.js, NavBar.js and App.js)
  are not part of this model. The routes outside the core are not part of it either (GET and POST
  /subjects, GET /questions/{question_id}, GET /answers/my-answers and GET /).
- **Text encoding.** Strings are sequences of code points, as Python slices them. The 300-character split
  is therefore exact. JavaScript's UTF-16 lengths are not modelled.
