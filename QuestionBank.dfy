/**
 * The question bank page: the query parameters it builds from the two selectors (where "all" means no
 * filter), and the label and colour it shows for a difficulty. Looking a subject up by id is
 * `Domain.FindSubject`.
 */
module QuestionBank {
  import opened Wrappers
  import opened Domain
  import opened Questions

  /** The selectors' value that stands for "no filter". */
  const AllSentinel: string := "all"

  /**
   * A selector's value as a query parameter: absent for the sentinel, the value itself otherwise. The route
   * then filters on it exactly when the selector is on neither "all" nor the empty value.
   */
  function SelectionParam(selection: string): (p: Option<string>)
    ensures p.None? <==> selection == AllSentinel
    ensures p.Some? ==> p.value == selection
    ensures Filters(p) <==> selection != AllSentinel && selection != ""
  {
    if selection != AllSentinel then Some(selection) else None
  }

  /**
   * `filterQuestions`' parameter object: a question matches it exactly when each selector is on "all" or
   * empty, or names the question's subject (respectively difficulty).
   */
  function FilterParams(selectedSubject: string, selectedDifficulty: string): (p: QueryParams)
    ensures p.subject_id == SelectionParam(selectedSubject)
    ensures p.difficulty == SelectionParam(selectedDifficulty)
    ensures forall q :: Matches(q, p) <==>
      && (selectedSubject == AllSentinel || selectedSubject == "" || q.subject_id == selectedSubject)
      && (selectedDifficulty == AllSentinel || selectedDifficulty == "" || q.difficulty == selectedDifficulty)
  {
    QueryParams(SelectionParam(selectedSubject), SelectionParam(selectedDifficulty))
  }

  /**
   * What the page then lists: questions of the selected subject and difficulty only, a selector on "all"
   * letting everything through; and, while at most 1000 questions qualify, every one of them.
   */
  lemma BankShowsSelection(questions: seq<Question>, selectedSubject: string, selectedDifficulty: string, q: Question)
    ensures q in GetQuestions(questions, FilterParams(selectedSubject, selectedDifficulty)) ==>
      && q in questions
      && (selectedSubject != AllSentinel && selectedSubject != "" ==> q.subject_id == selectedSubject)
      && (selectedDifficulty != AllSentinel && selectedDifficulty != "" ==> q.difficulty == selectedDifficulty)
    ensures
      && |Matching(questions, FilterParams(selectedSubject, selectedDifficulty))| <= MaxQuestions
      && q in questions
      && (selectedSubject == AllSentinel || q.subject_id == selectedSubject)
      && (selectedDifficulty == AllSentinel || q.difficulty == selectedDifficulty)
      ==> q in GetQuestions(questions, FilterParams(selectedSubject, selectedDifficulty))
  {
  }

  /** With both selectors on "all", the page shows the whole bank when it has at most 1000 questions. */
  lemma AllSelectedShowsEverything(questions: seq<Question>)
    requires |questions| <= MaxQuestions
    ensures GetQuestions(questions, FilterParams(AllSentinel, AllSentinel)) == questions
  {
    NoFilterReturnsAll(questions, FilterParams(AllSentinel, AllSentinel));
  }

  predicate KnownDifficulty(difficulty: string) {
    difficulty == "easy" || difficulty == "medium" || difficulty == "hard"
  }

  const GrayClasses: string := "text-gray-600 bg-gray-50 dark:bg-gray-950"

  /** `getDifficultyLabel`: the Portuguese name of a known difficulty, any other value unchanged. */
  function DifficultyLabel(difficulty: string): (shown: string)
    ensures shown == difficulty <==> !KnownDifficulty(difficulty)
  {
    match difficulty
    case "easy" => "Fácil"
    case "medium" => "Médio"
    case "hard" => "Difícil"
    case _ => difficulty
  }

  /** `getDifficultyColor`: green, yellow and red classes for the known difficulties, gray otherwise. */
  function DifficultyColor(difficulty: string): (classes: string)
    ensures classes == GrayClasses <==> !KnownDifficulty(difficulty)
  {
    match difficulty
    case "easy" => "text-green-600 bg-green-50 dark:bg-green-950"
    case "medium" => "text-yellow-600 bg-yellow-50 dark:bg-yellow-950"
    case "hard" => "text-red-600 bg-red-50 dark:bg-red-950"
    case _ => GrayClasses
  }

  /**
   * The two mappings agree on what they know: a difficulty is coloured gray exactly when its label is the
   * value itself, which is exactly when it is none of easy, medium and hard; the three known ones get three
   * different labels and three different colours.
   */
  lemma DifficultyMappingsAgree(d: string, e: string)
    ensures DifficultyColor(d) == GrayClasses <==> !KnownDifficulty(d)
    ensures DifficultyLabel(d) == d <==> !KnownDifficulty(d)
    ensures KnownDifficulty(d) && KnownDifficulty(e) && d != e ==>
      DifficultyLabel(d) != DifficultyLabel(e) && DifficultyColor(d) != DifficultyColor(e)
  {
  }
}
