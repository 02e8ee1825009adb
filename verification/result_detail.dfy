/** The student's result page: which result is shown, and the three
    per-question lookups the page renders (the answer given, the correct
    answer, the points earned). Every lookup takes the first match. */
module ResultDetail {
  import opened Wrappers
  import opened QuizModel
  import Lists

  const NoAnswer: string := "No answer provided"
  const InvalidAnswer: string := "Invalid answer"

  function ByUser(u: string): QuizResult -> bool {
    (r: QuizResult) => r.userId == u
  }

  function ParticipantByUser(u: string): QuizParticipant -> bool {
    (p: QuizParticipant) => p.userId == u
  }

  function AnswerTo(qid: string): ParticipantAnswer -> bool {
    (a: ParticipantAnswer) => a.questionId == qid
  }

  function QuestionWithId(qid: string): Question -> bool {
    (q: Question) => q.id == qid
  }

  function OptionWithId(oid: string): QuizOption -> bool {
    (o: QuizOption) => o.id == oid
  }

  /** The result shown: the first result of the signed-in user; nothing when
      nobody is signed in, since no result's user id equals `undefined`. */
  function SelectResult(results: seq<QuizResult>, currentUser: Option<string>): (r: Option<QuizResult>)
    ensures r.None? <==> currentUser.None? || forall x :: x in results ==> x.userId != currentUser.value
    ensures r.Some? ==> r.value in results && r.value.userId == currentUser.value
  {
    match currentUser
    case None => None
    case Some(u) => Lists.Find(results, ByUser(u))
  }

  /** The answers of the signed-in user in the session, or none when that
      user is not among the participants. */
  function ParticipantAnswers(session: QuizSession, currentUser: Option<string>): (r: seq<ParticipantAnswer>)
    requires session.participants.Some?
    ensures (currentUser.None? || forall p :: p in session.participants.value ==> p.userId != currentUser.value) ==> r == []
    ensures r != [] ==> exists p :: p in session.participants.value && p.userId == currentUser.value && p.answers == r
  {
    match currentUser
    case None => []
    case Some(u) =>
      match Lists.Find(session.participants.value, ParticipantByUser(u))
      case None => []
      case Some(p) => p.answers
  }

  /** The signed-in user's answers are those of the first participant with
      the user's id. */
  lemma ParticipantAnswersAt(session: QuizSession, u: string, i: nat)
    requires session.participants.Some?
    requires i < |session.participants.value| && session.participants.value[i].userId == u
    requires forall j :: 0 <= j < i ==> session.participants.value[j].userId != u
    ensures ParticipantAnswers(session, Some(u)) == session.participants.value[i].answers
  {
    Lists.FindIsFirstMatch(session.participants.value, ParticipantByUser(u), i);
  }

  /** The question with id `qid` in the loaded quiz, if any. */
  function QuestionOf(quiz: Option<Quiz>, qid: string): (r: Option<Question>)
    ensures r.None? <==> quiz.None? || forall q :: q in quiz.value.questions ==> q.id != qid
    ensures r.Some? ==> quiz.Some? && r.value in quiz.value.questions && r.value.id == qid
  {
    match quiz
    case None => None
    case Some(z) => Lists.Find(z.questions, QuestionWithId(qid))
  }

  /** `getUserAnswer`: the text of the option the first answer to `qid`
      selected; "No answer provided" without an answer, "Invalid answer" when
      the question or the option cannot be found or the text is empty. */
  function UserAnswer(answers: seq<ParticipantAnswer>, quiz: Option<Quiz>, qid: string): (r: string)
    ensures r != ""
    ensures (forall a :: a in answers ==> a.questionId != qid) ==> r == NoAnswer
    ensures (exists a :: a in answers && a.questionId == qid) && (quiz.None? || forall q :: q in quiz.value.questions ==> q.id != qid)
      ==> r == InvalidAnswer
    ensures r != NoAnswer && r != InvalidAnswer ==>
      quiz.Some? && exists q, o :: q in quiz.value.questions && q.id == qid && o in q.options && o.text == r
  {
    match Lists.Find(answers, AnswerTo(qid))
    case None => NoAnswer
    case Some(a) =>
      var selected := match QuestionOf(quiz, qid)
        case None => None
        case Some(q) => Lists.Find(q.options, OptionWithId(a.selectedOptionId));
      if selected.Some? && selected.value.text != "" then selected.value.text else InvalidAnswer
  }

  /** `getCorrectAnswer`: "" for an unknown question, otherwise the text of
      the first option whose id is the question's correct option id, or ""
      when there is none. */
  function CorrectAnswer(quiz: Option<Quiz>, qid: string): (r: string)
    ensures QuestionOf(quiz, qid).None? ==> r == ""
    ensures r != "" ==> (quiz.Some? &&
      exists q, o :: q in quiz.value.questions && q.id == qid && o in q.options && o.id == q.correctOptionId && o.text == r)
  {
    match QuestionOf(quiz, qid)
    case None => ""
    case Some(q) =>
      match Lists.Find(q.options, OptionWithId(q.correctOptionId))
      case None => ""
      case Some(o) => o.text
  }

  /** `getQuestionPoints`: the question's points when the first answer to it
      is correct, 0 when it is not or the answer or question is missing. */
  function QuestionPoints(answers: seq<ParticipantAnswer>, quiz: Option<Quiz>, qid: string): (r: int)
    ensures (forall a :: a in answers ==> a.questionId != qid) ==> r == 0
    ensures QuestionOf(quiz, qid).None? ==> r == 0
    ensures r != 0 ==> quiz.Some? && exists q :: q in quiz.value.questions && q.id == qid && q.points == r
  {
    match Lists.Find(answers, AnswerTo(qid))
    case None => 0
    case Some(a) =>
      match QuestionOf(quiz, qid)
      case None => 0
      case Some(q) => if a.correct then q.points else 0
  }

  /** The result at index `i` is shown exactly when it is the signed-in
      user's first result. */
  lemma SelectResultIsFirst(results: seq<QuizResult>, u: string, i: nat)
    requires i < |results| && results[i].userId == u
    requires forall j :: 0 <= j < i ==> results[j].userId != u
    ensures SelectResult(results, Some(u)) == Some(results[i])
  {
    Lists.FindIsFirstMatch(results, ByUser(u), i);
  }

  /** A later result of the same user is never shown. */
  lemma SelectResultIgnoresLater(results: seq<QuizResult>, later: seq<QuizResult>, u: string)
    requires SelectResult(results, Some(u)).Some?
    ensures SelectResult(results + later, Some(u)) == SelectResult(results, Some(u))
  {
    Lists.FindIgnoresLater(results, later, ByUser(u));
  }

  /** The answer text, by positions: with `i` the first answer to the
      question, `k` the first question with its id and `m` the first option
      with the selected id, the text shown is that option's text, or
      "Invalid answer" when the text is empty. */
  lemma UserAnswerAt(answers: seq<ParticipantAnswer>, quiz: Quiz, qid: string, i: nat, k: nat, m: nat)
    requires i < |answers| && answers[i].questionId == qid
    requires forall j :: 0 <= j < i ==> answers[j].questionId != qid
    requires k < |quiz.questions| && quiz.questions[k].id == qid
    requires forall j :: 0 <= j < k ==> quiz.questions[j].id != qid
    requires m < |quiz.questions[k].options| && quiz.questions[k].options[m].id == answers[i].selectedOptionId
    requires forall j :: 0 <= j < m ==> quiz.questions[k].options[j].id != answers[i].selectedOptionId
    ensures var text := quiz.questions[k].options[m].text;
      UserAnswer(answers, Some(quiz), qid) == if text != "" then text else InvalidAnswer
  {
    Lists.FindIsFirstMatch(answers, AnswerTo(qid), i);
    Lists.FindIsFirstMatch(quiz.questions, QuestionWithId(qid), k);
    Lists.FindIsFirstMatch(quiz.questions[k].options, OptionWithId(answers[i].selectedOptionId), m);
  }

  /** An answer whose selected id is not among the question's options is
      shown as "Invalid answer". */
  lemma UserAnswerUnknownOption(answers: seq<ParticipantAnswer>, quiz: Quiz, qid: string, i: nat, k: nat)
    requires i < |answers| && answers[i].questionId == qid
    requires forall j :: 0 <= j < i ==> answers[j].questionId != qid
    requires k < |quiz.questions| && quiz.questions[k].id == qid
    requires forall j :: 0 <= j < k ==> quiz.questions[j].id != qid
    requires forall o :: o in quiz.questions[k].options ==> o.id != answers[i].selectedOptionId
    ensures UserAnswer(answers, Some(quiz), qid) == InvalidAnswer
  {
    Lists.FindIsFirstMatch(answers, AnswerTo(qid), i);
    Lists.FindIsFirstMatch(quiz.questions, QuestionWithId(qid), k);
  }

  /** When no option of the quiz reads "No answer provided", that text is
      shown exactly when the question has no answer. */
  lemma UserAnswerMissingIff(answers: seq<ParticipantAnswer>, quiz: Option<Quiz>, qid: string)
    requires quiz.Some? ==> forall q, o :: q in quiz.value.questions && o in q.options ==> o.text != NoAnswer
    ensures UserAnswer(answers, quiz, qid) == NoAnswer <==> forall a :: a in answers ==> a.questionId != qid
  {
  }

  /** A later duplicate answer to the same question changes neither the text
      shown nor the points. */
  lemma LaterAnswersIgnored(answers: seq<ParticipantAnswer>, later: seq<ParticipantAnswer>, quiz: Option<Quiz>, qid: string)
    requires exists a :: a in answers && a.questionId == qid
    ensures UserAnswer(answers + later, quiz, qid) == UserAnswer(answers, quiz, qid)
    ensures QuestionPoints(answers + later, quiz, qid) == QuestionPoints(answers, quiz, qid)
  {
    Lists.FindIgnoresLater(answers, later, AnswerTo(qid));
  }

  /** The correct answer, by positions: with `k` the first question with the
      id and `m` the first option carrying its correct option id, the text
      shown is that option's text. */
  lemma CorrectAnswerAt(quiz: Quiz, qid: string, k: nat, m: nat)
    requires k < |quiz.questions| && quiz.questions[k].id == qid
    requires forall j :: 0 <= j < k ==> quiz.questions[j].id != qid
    requires var q := quiz.questions[k];
      m < |q.options| && q.options[m].id == q.correctOptionId
      && forall j :: 0 <= j < m ==> q.options[j].id != q.correctOptionId
    ensures CorrectAnswer(Some(quiz), qid) == quiz.questions[k].options[m].text
  {
    var q := quiz.questions[k];
    Lists.FindIsFirstMatch(quiz.questions, QuestionWithId(qid), k);
    Lists.FindIsFirstMatch(q.options, OptionWithId(q.correctOptionId), m);
  }

  /** A question whose correct option id names none of its options has ""
      as its correct answer. */
  lemma CorrectAnswerUnknownOption(quiz: Quiz, qid: string, k: nat)
    requires k < |quiz.questions| && quiz.questions[k].id == qid
    requires forall j :: 0 <= j < k ==> quiz.questions[j].id != qid
    requires forall o :: o in quiz.questions[k].options ==> o.id != quiz.questions[k].correctOptionId
    ensures CorrectAnswer(Some(quiz), qid) == ""
  {
    Lists.FindIsFirstMatch(quiz.questions, QuestionWithId(qid), k);
  }

  /** The points, by positions: the first question's points when the first
      answer is correct and 0 otherwise, so between 0 and the question's
      points when those are not negative. */
  lemma QuestionPointsAt(answers: seq<ParticipantAnswer>, quiz: Quiz, qid: string, i: nat, k: nat)
    requires i < |answers| && answers[i].questionId == qid
    requires forall j :: 0 <= j < i ==> answers[j].questionId != qid
    requires k < |quiz.questions| && quiz.questions[k].id == qid
    requires forall j :: 0 <= j < k ==> quiz.questions[j].id != qid
    ensures QuestionPoints(answers, Some(quiz), qid) == if answers[i].correct then quiz.questions[k].points else 0
    ensures quiz.questions[k].points >= 0 ==> 0 <= QuestionPoints(answers, Some(quiz), qid) <= quiz.questions[k].points
  {
    Lists.FindIsFirstMatch(answers, AnswerTo(qid), i);
    Lists.FindIsFirstMatch(quiz.questions, QuestionWithId(qid), k);
  }
}
