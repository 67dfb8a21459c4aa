/**
 * The solve page's pure helpers: the `m:ss` clock shown while answering, the colouring of each option once
 * the answer is in, and the guard that keeps a submission without a chosen option from reaching the server.
 */
module QuestionSolve {
  import opened Wrappers
  import opened Domain
  import opened Ledger

  // ---------------------------------------------------------------- the clock

  /** The character of one decimal digit. */
  function Digit(d: nat): (c: char)
    requires d < 10
    ensures '0' <= c <= '9'
    ensures c as int - '0' as int == d
  {
    "0123456789"[d]
  }

  predicate IsDigit(c: char) {
    '0' <= c <= '9'
  }

  /** A number's decimal rendering without leading zeros, as `Number.prototype.toString` gives it. */
  function DecimalString(n: nat): (s: string)
    ensures 1 <= |s|
    ensures forall i :: 0 <= i < |s| ==> IsDigit(s[i])
    ensures n < 10 <==> |s| == 1
    ensures s[0] == '0' ==> n == 0
  {
    if n < 10 then [Digit(n)] else DecimalString(n / 10) + [Digit(n % 10)]
  }

  /** The value of a string of decimal digits; the reference reading of a rendered number. */
  function ParseDecimal(s: string): nat {
    if s == [] then 0
    else
      var c := s[|s| - 1];
      ParseDecimal(s[..|s| - 1]) * 10 + (if IsDigit(c) then c as int - '0' as int else 0)
  }

  /** Reading a rendered number back gives the number. */
  lemma {:induction false} ParseDecimalString(n: nat)
    ensures ParseDecimal(DecimalString(n)) == n
  {
    if n >= 10 {
      var s := DecimalString(n);
      assert s[..|s| - 1] == DecimalString(n / 10);
      ParseDecimalString(n / 10);
    }
  }

  /** `s.padStart(width, fill)`: fill characters in front until the string is `width` long. */
  function PadStart(s: string, width: nat, fill: char): (r: string)
    ensures |r| == if |s| < width then width else |s|
    ensures r[|r| - |s|..] == s
    ensures forall i :: 0 <= i < |r| - |s| ==> r[i] == fill
  {
    if |s| < width then seq(width - |s|, _ => fill) + s else s
  }

  /** Reads an `m:ss` clock back into seconds: the digits before the last three characters are minutes. */
  function ParseClock(t: string): nat {
    if |t| < 3 then 0 else ParseDecimal(t[..|t| - 3]) * 60 + ParseDecimal(t[|t| - 2..])
  }

  /** The padded seconds are two digits whose value is the seconds below a minute. */
  lemma TwoDigitSeconds(secs: nat)
    requires secs < 60
    ensures |PadStart(DecimalString(secs), 2, '0')| == 2
    ensures IsDigit(PadStart(DecimalString(secs), 2, '0')[0]) && IsDigit(PadStart(DecimalString(secs), 2, '0')[1])
    ensures ParseDecimal(PadStart(DecimalString(secs), 2, '0')) == secs
  {
    var d := DecimalString(secs);
    var p := PadStart(d, 2, '0');
    ParseDecimalString(secs);
    if secs < 10 {
      assert p == ['0'] + d;
      assert p[..1] == ['0'];
    } else {
      assert secs / 10 < 10;
      assert |d| == 2;
      assert p == d;
    }
  }

  /**
   * A clock built from a digit string for the minutes and two digits for the seconds: one colon, three places
   * from the end, digits everywhere else, and it reads back as minutes times sixty plus seconds.
   */
  lemma ClockLayout(minutes: string, seconds: string)
    requires |seconds| == 2 && IsDigit(seconds[0]) && IsDigit(seconds[1])
    requires forall i :: 0 <= i < |minutes| ==> IsDigit(minutes[i])
    ensures var t := minutes + ":" + seconds;
      && |t| == |minutes| + 3
      && t[|t| - 3] == ':'
      && (forall i :: 0 <= i < |t| && i != |t| - 3 ==> IsDigit(t[i]))
      && t[..|t| - 3] == minutes
      && t[|t| - 2..] == seconds
      && ParseClock(t) == ParseDecimal(minutes) * 60 + ParseDecimal(seconds)
  {
    var t := minutes + ":" + seconds;
    assert t[..|t| - 3] == minutes;
    assert t[|t| - 2..] == seconds;
    forall i | 0 <= i < |t| && i != |t| - 3
      ensures IsDigit(t[i])
    {
      if i < |minutes| {
        assert t[i] == minutes[i];
      } else {
        assert t[i] == seconds[i - |minutes| - 1];
      }
    }
  }

  /**
   * `formatTime`: whole minutes, a colon, then the remaining seconds padded to two digits. The clock has a
   * single colon with exactly two digits after it and minutes before it; minutes times sixty plus seconds is
   * the input, and the seconds are below sixty.
   */
  function FormatTime(seconds: nat): (t: string)
    ensures |t| >= 4
    ensures t[|t| - 3] == ':'
    ensures forall i :: 0 <= i < |t| && i != |t| - 3 ==> IsDigit(t[i])
    ensures ParseDecimal(t[..|t| - 3]) == seconds / 60
    ensures ParseDecimal(t[|t| - 2..]) == seconds % 60 < 60
    ensures ParseClock(t) == seconds
    ensures t[..|t| - 3] == DecimalString(seconds / 60)
  {
    var mins := DecimalString(seconds / 60);
    var secs := PadStart(DecimalString(seconds % 60), 2, '0');
    TwoDigitSeconds(seconds % 60);
    ParseDecimalString(seconds / 60);
    ClockLayout(mins, secs);
    mins + ":" + secs
  }

  // ---------------------------------------------------------------- option colouring

  /** The border an option is drawn with: green for correct, red for a wrong pick, plain otherwise. */
  datatype Border = CorrectBorder | WrongBorder | PlainBorder

  /** How one option is drawn: its border and whether it carries the selection ring. */
  datatype OptionStyle = OptionStyle(border: Border, ring: bool)

  predicate IsSelected(selected: Option<int>, index: nat) {
    selected == Some(index)
  }

  /** The per-option classification of the solve page. */
  function StyleOption(submitted: bool, selected: Option<int>, index: nat, isCorrect: bool): (s: OptionStyle)
    ensures s.border == CorrectBorder <==> submitted && isCorrect
    ensures s.border == WrongBorder <==> submitted && selected == Some(index) && !isCorrect
    ensures s.ring <==> !submitted && selected == Some(index)
  {
    var isSelected := IsSelected(selected, index);
    var border :=
      if submitted then
        if isCorrect then CorrectBorder
        else if isSelected && !isCorrect then WrongBorder
        else PlainBorder
      else PlainBorder;
    OptionStyle(border, !submitted && isSelected)
  }

  /** Every option of a question, in order. */
  function StyleOptions(options: seq<QuestionOption>, submitted: bool, selected: Option<int>): (r: seq<OptionStyle>)
    ensures |r| == |options|
  {
    if options == [] then []
    else
      var i := |options| - 1;
      StyleOptions(options[..i], submitted, selected) + [StyleOption(submitted, selected, i, options[i].is_correct)]
  }

  /**
   * What each option shows. After submission an option is green exactly when it is correct, selected or
   * not, and red exactly when it is the selected option and not correct; unselected wrong options stay plain.
   * Before submission nothing is green or red and only the selected option has the ring.
   */
  lemma {:induction false} StyleOptionsMeaning(options: seq<QuestionOption>, submitted: bool, selected: Option<int>, i: nat)
    requires i < |options|
    ensures var s := StyleOptions(options, submitted, selected)[i];
      && (s.border == CorrectBorder <==> submitted && options[i].is_correct)
      && (s.border == WrongBorder <==> submitted && selected == Some(i) && !options[i].is_correct)
      && (s.ring <==> !submitted && selected == Some(i))
  {
    if i < |options| - 1 {
      StyleOptionsMeaning(options[..|options| - 1], submitted, selected, i);
    }
  }

  /** The number of red options. */
  function RedCount(styles: seq<OptionStyle>): nat {
    if styles == [] then 0
    else RedCount(styles[..|styles| - 1]) + (if styles[|styles| - 1].border == WrongBorder then 1 else 0)
  }

  /** The number of green options. */
  function GreenCount(styles: seq<OptionStyle>): nat {
    if styles == [] then 0
    else GreenCount(styles[..|styles| - 1]) + (if styles[|styles| - 1].border == CorrectBorder then 1 else 0)
  }

  /** The number of options flagged correct. */
  function CorrectOptions(options: seq<QuestionOption>): nat {
    if options == [] then 0
    else CorrectOptions(options[..|options| - 1]) + (if options[|options| - 1].is_correct then 1 else 0)
  }

  /**
   * At most one option is red, and one is exactly when the answer was submitted with a wrong option; after
   * submission as many options are green as the question has correct options, before it none.
   */
  lemma {:induction false} MarkCounts(options: seq<QuestionOption>, submitted: bool, selected: Option<int>)
    ensures RedCount(StyleOptions(options, submitted, selected)) ==
      if submitted && selected.Some? && 0 <= selected.value < |options| && !options[selected.value].is_correct
      then 1 else 0
    ensures GreenCount(StyleOptions(options, submitted, selected)) ==
      if submitted then CorrectOptions(options) else 0
  {
    if options != [] {
      var n := |options| - 1;
      MarkCounts(options[..n], submitted, selected);
      assert StyleOptions(options, submitted, selected)[..n] == StyleOptions(options[..n], submitted, selected);
    }
  }

  /**
   * For a choice the page can offer (an index of the question's options), the server grades the request
   * and the selected option's colour after submission agrees with the verdict: green when the stored answer
   * is correct, red when it is not.
   */
  lemma SelectedMarkMatchesVerdict(questions: seq<Question>, questionId: Id, sel: nat, timeSpent: int)
    requires FindQuestion(questions, questionId).Some?
    requires sel < |FindQuestion(questions, questionId).value.options|
    ensures Grade(questions, AnswerSubmit(questionId, sel, timeSpent)).Success?
    ensures var options := FindQuestion(questions, questionId).value.options;
      var border := StyleOptions(options, true, Some(sel))[sel].border;
      var verdict := Grade(questions, AnswerSubmit(questionId, sel, timeSpent)).value.1;
      (border == CorrectBorder <==> verdict) && (border == WrongBorder <==> !verdict)
  {
    StyleOptionsMeaning(FindQuestion(questions, questionId).value.options, true, Some(sel), sel);
  }

  // ---------------------------------------------------------------- submitting

  /** The page state the submit handler reads and writes. */
  datatype SolveState = SolveState(selected: Option<int>, submitted: bool, result: Option<bool>)

  /** The server's answer to the post: the stored answer's verdict, or an error. */
  datatype ServerReply = Accepted(is_correct: bool) | Rejected

  /**
   * The submit button is disabled exactly when a press could never send anything, whatever the question,
   * the elapsed time and the server's answer.
   */
  function SubmitDisabled(state: SolveState): (disabled: bool)
    ensures disabled <==> forall questionId, timeSpent, reply :: HandleSubmit(state, questionId, timeSpent, reply).1.None?
  {
    assert state.selected.Some? ==> HandleSubmit(state, "", 0, Rejected).1.Some?;
    state.selected.None?
  }

  /**
   * `handleSubmit`: with no option selected nothing is sent and the state stays; otherwise the choice and
   * the elapsed time are posted, and only an accepted reply records the verdict and marks the page submitted.
   */
  function HandleSubmit(state: SolveState, questionId: Id, timeSpent: int, reply: ServerReply)
    : (r: (SolveState, Option<AnswerSubmit>))
    ensures state.selected.None? ==> r.1.None? && r.0 == state
    ensures state.selected.Some? ==> r.1 == Some(AnswerSubmit(questionId, state.selected.value, timeSpent))
    ensures r.0.submitted <==> state.submitted || (state.selected.Some? && reply.Accepted?)
    ensures state.selected.Some? && reply.Accepted? ==> r.0.result == Some(reply.is_correct)
    ensures r.0.selected == state.selected
    ensures reply.Rejected? ==> r.0 == state
  {
    match state.selected
    case None => (state, None)
    case Some(sel) =>
      var request := AnswerSubmit(questionId, sel, timeSpent);
      match reply
      case Accepted(isCorrect) => (state.(submitted := true, result := Some(isCorrect)), Some(request))
      case Rejected => (state, Some(request))
  }

  /** A press on an enabled button always sends the request; one the guard refuses never reaches the server. */
  lemma SubmitGuard(state: SolveState, questionId: Id, timeSpent: int, reply: ServerReply)
    ensures HandleSubmit(state, questionId, timeSpent, reply).1.Some? <==> !SubmitDisabled(state)
    ensures SubmitDisabled(state) ==> !HandleSubmit(state, questionId, timeSpent, reply).0.submitted || state.submitted
  {
  }
}
