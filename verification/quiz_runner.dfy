/** The student's quiz screen: the question shown, the answer saved when the
    student moves on, the countdown and its `m:ss` display. The screen's
    fields become one immutable `Runner` value and each handler a function
    from one value to the next. */
module QuizRunner {
  import opened Wrappers
  import opened QuizModel
  import Numbers
  import ResultDetail

  /** The component's fields: the loaded quiz and session, the question
      index, the radio-button selection and the seconds left. */
  datatype Runner = Runner(
    quiz: Option<Quiz>,
    session: Option<QuizSession>,
    index: int,
    selected: Option<string>,
    timeLeft: Option<int>)

  /** What `saveAnswer` sends to the server: the session and the answer. */
  datatype Submission = Submission(sessionId: string, answer: ParticipantAnswer)

  /** The effect of a navigation button: the next screen state and the
      answer submitted on the way, if any. */
  datatype Step = Step(runner: Runner, saved: Option<Submission>)

  /** `currentQuestion`: the question at the index, or null when there is no
      quiz or the index lies outside its questions. */
  function CurrentQuestion(r: Runner): (q: Option<Question>)
    ensures q.Some? <==> r.quiz.Some? && 0 <= r.index < |r.quiz.value.questions|
    ensures q.Some? ==> q.value == r.quiz.value.questions[r.index]
  {
    if r.quiz.Some? && 0 <= r.index < |r.quiz.value.questions| then Some(r.quiz.value.questions[r.index]) else None
  }

  /** The truthiness test on `selectedOption`: null and the empty string
      are false, every other string is true. */
  predicate HasSelection(r: Runner): (b: bool)
    ensures b <==> r.selected.Some? && |r.selected.value| > 0
  {
    r.selected.Some? && r.selected.value != ""
  }

  /** `saveAnswer`: with a session, a current question and a selection, the
      answer to send; it is correct exactly when the selected option is the
      question's correct option. Time spent is always 0. */
  function SaveAnswer(r: Runner): (s: Option<Submission>)
    ensures s.None? <==> r.session.None? || CurrentQuestion(r).None? || !HasSelection(r)
    ensures s.Some? ==> s.value.sessionId == r.session.value.id
    ensures s.Some? ==> s.value.answer.questionId == CurrentQuestion(r).value.id
    ensures s.Some? ==> s.value.answer.selectedOptionId == r.selected.value
    ensures s.Some? ==> s.value.answer.timeSpent == 0.0
    ensures s.Some? ==> (s.value.answer.correct <==> r.selected.value == CurrentQuestion(r).value.correctOptionId)
  {
    var q := CurrentQuestion(r);
    if r.session.Some? && q.Some? && HasSelection(r) then
      var choice := r.selected.value;
      Some(Submission(r.session.value.id, ParticipantAnswer(q.value.id, choice, 0.0, choice == q.value.correctOptionId)))
    else None
  }

  /** `nextQuestion`: save the answer, move one question on, clear the
      selection. */
  function NextQuestion(r: Runner): (s: Step)
    ensures s.runner.index == r.index + 1 && s.runner.selected.None?
    ensures s.runner.quiz == r.quiz && s.runner.session == r.session && s.runner.timeLeft == r.timeLeft
    ensures s.saved == SaveAnswer(r)
  {
    Step(r.(index := r.index + 1, selected := None), SaveAnswer(r))
  }

  /** `previousQuestion`: save the answer, move one question back, clear the
      selection. */
  function PreviousQuestion(r: Runner): (s: Step)
    ensures s.runner.index == r.index - 1 && s.runner.selected.None?
    ensures s.runner.quiz == r.quiz && s.runner.session == r.session && s.runner.timeLeft == r.timeLeft
    ensures s.saved == SaveAnswer(r)
  {
    Step(r.(index := r.index - 1, selected := None), SaveAnswer(r))
  }

  /** What the student can do on the screen: press Previous or Next, or
      pick one of the current question's options. */
  datatype Command = Previous | Next | Choose(optionId: string)

  /** Whether the template offers the command: the navigation is shown only
      with a current question, Previous only after the first question and
      Next only before the last, and the radio buttons carry the current
      question's option ids. */
  predicate Offered(r: Runner, c: Command): (b: bool)
    ensures b ==> InBounds(r) && InBounds(Perform(r, c))
    ensures b && c.Choose? ==> c.optionId in OptionIds(CurrentQuestion(r).value.options)
  {
    CurrentQuestion(r).Some? &&
    match c
    case Previous => r.index > 0
    case Next => r.index < |r.quiz.value.questions| - 1
    case Choose(id) => id in OptionIds(CurrentQuestion(r).value.options)
  }

  function Perform(r: Runner, c: Command): Runner {
    match c
    case Previous => PreviousQuestion(r).runner
    case Next => NextQuestion(r).runner
    case Choose(id) => r.(selected := Some(id))
  }

  /** The screen after a series of clicks; a command the template does not
      offer at that moment has no effect. */
  function Run(r: Runner, cs: seq<Command>): (out: Runner)
    ensures out.quiz == r.quiz && out.session == r.session && out.timeLeft == r.timeLeft
    decreases cs
  {
    if |cs| == 0 then r
    else Run(if Offered(r, cs[0]) then Perform(r, cs[0]) else r, cs[1..])
  }

  /** The question index points at a question of the loaded quiz. */
  predicate InBounds(r: Runner) {
    r.quiz.Some? && 0 <= r.index < |r.quiz.value.questions|
  }

  /** A loaded quiz with at least one question starts in bounds. */
  lemma StartsInBounds(quiz: Quiz, session: Option<QuizSession>)
    requires |quiz.questions| > 0
    ensures InBounds(Runner(Some(quiz), session, 0, None, None))
    ensures CurrentQuestion(Runner(Some(quiz), session, 0, None, None)) == Some(quiz.questions[0])
  {
  }

  /** Clicking only what the template offers keeps the index within the
      questions, so a current question is always shown. */
  lemma {:induction false} RunStaysInBounds(r: Runner, cs: seq<Command>)
    requires InBounds(r)
    ensures InBounds(Run(r, cs))
    ensures CurrentQuestion(Run(r, cs)).Some?
    decreases cs
  {
    if |cs| > 0 {
      var next := if Offered(r, cs[0]) then Perform(r, cs[0]) else r;
      RunStaysInBounds(next, cs[1..]);
    }
  }

  /** A saved answer scores on the results page as the component intends: the
      question's points when the student picked its correct option, and 0
      otherwise, once it is the student's only answer to that question and
      no earlier question shares its id. */
  lemma SavedAnswerScores(r: Runner)
    requires SaveAnswer(r).Some?
    requires forall j :: 0 <= j < r.index ==> r.quiz.value.questions[j].id != CurrentQuestion(r).value.id
    ensures var q := CurrentQuestion(r).value;
      ResultDetail.QuestionPoints([SaveAnswer(r).value.answer], r.quiz, q.id)
        == if r.selected.value == q.correctOptionId then q.points else 0
  {
    ResultDetail.QuestionPointsAt([SaveAnswer(r).value.answer], r.quiz.value, CurrentQuestion(r).value.id, 0, r.index);
  }

  /** Picking a radio button and moving on sends that option: the answer
      names the current question and the picked id, and is correct exactly
      when the id is the correct option's. An option whose id is "" is
      never sent, since the empty string is false. */
  lemma ChooseThenSave(r: Runner, id: string)
    requires r.session.Some? && Offered(r, Choose(id))
    ensures var q := CurrentQuestion(r).value;
      var s := SaveAnswer(Perform(r, Choose(id)));
      && (id != "" ==> s == Some(Submission(r.session.value.id, ParticipantAnswer(q.id, id, 0.0, id == q.correctOptionId))))
      && (id == "" ==> s.None?)
  {
  }

  // ---- Countdown ----

  /** `startTimer`: a quiz with a truthy time limit (present and not 0)
      starts the countdown at that many minutes in seconds; otherwise
      nothing changes and no countdown runs. */
  function StartTimer(quiz: Option<Quiz>, timeLeft: Option<int>): (t: Option<int>)
    ensures TimerRuns(quiz) ==> t == Some(quiz.value.timeLimit.value * 60)
    ensures !TimerRuns(quiz) ==> t == timeLeft
  {
    if TimerRuns(quiz) then Some(quiz.value.timeLimit.value * 60) else timeLeft
  }

  predicate TimerRuns(quiz: Option<Quiz>) {
    quiz.Some? && quiz.value.timeLimit.Some? && quiz.value.timeLimit.value != 0
  }

  /** The outcome of one second of the countdown. */
  datatype TickOutcome = TickOutcome(timeLeft: Option<int>, submit: bool)

  /** One tick: a positive count goes down by one; anything else (null, 0,
      negative) submits the quiz and leaves the count as it is. */
  function Tick(t: Option<int>): (o: TickOutcome)
    ensures o.submit <==> !(t.Some? && t.value > 0)
    ensures o.submit ==> o.timeLeft == t
    ensures !o.submit ==> o.timeLeft == Some(t.value - 1)
    ensures t.Some? && t.value >= 0 ==> o.timeLeft.Some? && o.timeLeft.value >= 0
  {
    if t.Some? && t.value > 0 then TickOutcome(Some(t.value - 1), false) else TickOutcome(t, true)
  }

  /** `n` ticks: the count left and how many of them submitted. At most
      `n` submit; without a positive count nothing changes and every tick
      submits; a non-negative count never goes below 0. */
  function Ticks(t: Option<int>, n: nat): (o: (Option<int>, nat))
    ensures o.1 <= n
    ensures !(t.Some? && t.value > 0) ==> o == (t, n)
    ensures t.Some? && t.value >= 0 ==> o.0.Some? && o.0.value >= 0
    decreases n
  {
    if n == 0 then (t, 0)
    else
      var step := Tick(t);
      var rest := Ticks(step.timeLeft, n - 1);
      (rest.0, rest.1 + if step.submit then 1 else 0)
  }

  /** From `t` seconds, `n` ticks leave `max(t - n, 0)` seconds, and every
      tick after the count reaches 0 submits the quiz. */
  lemma {:induction false} TicksCountDown(t: nat, n: nat)
    ensures Ticks(Some(t), n).0 == Some(if n <= t then t - n else 0)
    ensures Ticks(Some(t), n).1 == if n <= t then 0 else n - t
  {
    if n > 0 {
      if t > 0 {
        TicksCountDown(t - 1, n - 1);
      } else {
        TicksCountDown(0, n - 1);
      }
    }
  }

  /** The countdown a quiz starts: from a positive limit, `n` ticks leave
      `max(limit * 60 - n, 0)` seconds and submit once per tick after 0;
      from a negative limit every tick submits and the count stays. */
  lemma StartThenTicks(quiz: Option<Quiz>, timeLeft: Option<int>, n: nat)
    requires TimerRuns(quiz)
    ensures var limit := quiz.value.timeLimit.value * 60;
      var o := Ticks(StartTimer(quiz, timeLeft), n);
      && (limit > 0 ==> o.0 == Some(if n <= limit then limit - n else 0))
      && (limit > 0 ==> o.1 == if n <= limit then 0 else n - limit)
      && (limit < 0 ==> o == (Some(limit), n))
  {
    var limit := quiz.value.timeLimit.value * 60;
    if limit > 0 {
      TicksCountDown(limit, n);
    }
  }

  // ---- Time display ----

  /** The seconds part: a leading "0" whenever the remainder is below 10. */
  function PadSeconds(secs: int): string {
    (if secs < 10 then "0" else "") + Numbers.IntToString(secs)
  }

  /** `formatTime`: whole minutes (`Math.floor`, which Dafny's `/` matches
      for a positive divisor), a colon, and the JavaScript remainder. */
  function FormatTime(seconds: int): (t: string)
    ensures seconds >= 0 ==> |t| >= 4 && t[|t| - 3] == ':'
    ensures seconds >= 0 ==> Numbers.IsDigit(t[|t| - 2]) && Numbers.IsDigit(t[|t| - 1])
    ensures seconds >= 0 ==> Numbers.AllDigits(t[..|t| - 3])
  {
    var mins := seconds / 60;
    var secs := Numbers.JsRem(seconds, 60);
    Numbers.IntToString(mins) + ":" + PadSeconds(secs)
  }

  /** Reads `m:ss` back as seconds: digits, a colon, two digits below 60. */
  function ParseTime(t: string): (s: Option<nat>)
    ensures s.Some? ==> |t| >= 4 && t[|t| - 3] == ':'
  {
    if |t| >= 4 && t[|t| - 3] == ':' then ParseParts(t[..|t| - 3], t[|t| - 2..]) else None
  }

  /** Minute digits and two second digits below 60, as seconds. */
  function ParseParts(m: string, p: string): Option<nat>
  {
    if Numbers.AllDigits(m) && Numbers.AllDigits(p) && Numbers.ParseNat(p) < 60 then
      Some(Numbers.ParseNat(m) * 60 + Numbers.ParseNat(p))
    else None
  }

  lemma PadSecondsParse(secs: nat)
    requires secs < 60
    ensures |PadSeconds(secs)| == 2 && Numbers.AllDigits(PadSeconds(secs))
    ensures Numbers.ParseNat(PadSeconds(secs)) == secs
  {
    var p := PadSeconds(secs);
    Numbers.ParseNatToString(secs);
    if secs < 10 {
      Numbers.DigitRoundTrip(secs);
      assert p == ['0', Numbers.DigitChar(secs)];
      assert p[..1] == ['0'];
      assert Numbers.ParseNat(p[..1]) == 0 by {
        assert p[..1][..0] == [];
      }
    }
  }

  /** Parsing a display assembled from minute digits and a two-digit
      seconds part. */
  lemma ParseTimeOf(t: string, m: string, p: string)
    requires t == m + ":" + p
    requires |m| > 0 && Numbers.AllDigits(m)
    requires |p| == 2 && Numbers.AllDigits(p) && Numbers.ParseNat(p) < 60
    ensures ParseTime(t) == Some(Numbers.ParseNat(m) * 60 + Numbers.ParseNat(p))
  {
    assert t[..|t| - 3] == m;
    assert t[|t| - 2..] == p;
    assert t[|t| - 3] == ':';
    assert ParseTime(t) == ParseParts(m, p);
  }

  /** For a non-negative count, parsing the display gives the count back:
      minutes times 60 plus the seconds part is the input. */
  lemma FormatTimeRoundTrip(seconds: nat)
    ensures ParseTime(FormatTime(seconds)) == Some(seconds)
  {
    FormatTimeOfNat(seconds);
    ParseDisplay(FormatTime(seconds), seconds / 60, seconds % 60);
    MinutesAndSeconds(seconds, seconds / 60, seconds % 60);
  }

  /** The display of `mins` minutes and `secs` seconds parses back. */
  lemma ParseDisplay(t: string, mins: nat, secs: nat)
    requires secs < 60 && t == Numbers.NatToString(mins) + ":" + PadSeconds(secs)
    ensures ParseTime(t) == Some(mins * 60 + secs)
  {
    var m := Numbers.NatToString(mins);
    var p := PadSeconds(secs);
    PadSecondsParse(secs);
    Numbers.ParseNatToString(mins);
    ParseTimeOf(t, m, p);
  }

  lemma FormatTimeOfNat(seconds: nat)
    ensures FormatTime(seconds) == Numbers.NatToString(seconds / 60) + ":" + PadSeconds(seconds % 60)
  {
  }

  lemma MinutesAndSeconds(seconds: nat, mins: int, secs: int)
    requires mins == seconds / 60 && secs == seconds % 60
    ensures mins * 60 + secs == seconds
  {
  }

  /** Distinct non-negative counts are displayed differently. */
  lemma FormatTimeInjective(a: nat, b: nat)
    requires FormatTime(a) == FormatTime(b)
    ensures a == b
  {
    FormatTimeRoundTrip(a);
    FormatTimeRoundTrip(b);
  }

  /** Within the last minute below zero (a negative time limit), the
      display shows minute -1 and the signed seconds after a "0" pad:
      -5 seconds reads "-1:0-5". */
  lemma FormatNegative(s: int)
    requires -60 < s < 0
    ensures FormatTime(s) == "-1:0" + Numbers.IntToString(s)
    ensures s == -5 ==> FormatTime(s) == "-1:0-5"
  {
    assert s / 60 == -1;
    assert Numbers.JsRem(s, 60) == s;
    assert Numbers.IntToString(-1) == "-1" by {
      assert Numbers.NatToString(1) == "1";
    }
    if s == -5 {
      assert Numbers.NatToString(5) == "5";
    }
  }

  /** Every negative count displays with a leading minus sign, and the
      display never reads back as a time. */
  lemma FormatNegativeUnreadable(s: int)
    requires s < 0
    ensures FormatTime(s)[0] == '-'
    ensures ParseTime(FormatTime(s)) == None
  {
    var mins := s / 60;
    var secs := Numbers.JsRem(s, 60);
    var m := Numbers.IntToString(mins);
    var p := PadSeconds(secs);
    assert FormatTime(s) == m + ":" + p;
    if secs == 0 {
      assert p == "00" by {
        assert Numbers.NatToString(0) == "0";
      }
      ParseTimeOfMinus(FormatTime(s), m, p);
    } else {
      var digits := Numbers.NatToString(-secs);
      assert |digits| <= 2 by {
        if -secs >= 10 {
          assert Numbers.NatToString(-secs) == Numbers.NatToString(-secs / 10) + [Numbers.DigitChar(-secs % 10)];
        }
      }
      assert p == "0-" + digits;
      NoColonInTail(FormatTime(s), m, p);
    }
  }

  /** A display whose seconds part has three or four characters has no colon
      where the parser looks for one. */
  lemma NoColonInTail(t: string, m: string, p: string)
    requires t == m + ":" + p
    requires |m| > 0 && m[0] == '-'
    requires 3 <= |p| <= 4 && p[..2] == "0-"
    ensures t[0] == '-' && ParseTime(t) == None
  {
    assert t[0] == m[0];
    assert t[|t| - 3] == p[|p| - 3];
  }

  /** A display whose minutes carry a minus sign does not parse. */
  lemma ParseTimeOfMinus(t: string, m: string, p: string)
    requires t == m + ":" + p
    requires |m| > 0 && m[0] == '-' && |p| == 2
    ensures t[0] == '-' && ParseTime(t) == None
  {
    assert t[0] == m[0];
    assert t[..|t| - 3] == m;
    assert t[|t| - 2..] == p;
    assert t[|t| - 3] == ':';
    assert !Numbers.IsDigit(m[0]);
    assert ParseTime(t) == ParseParts(m, p);
  }
}
