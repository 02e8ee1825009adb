/** The records the client exchanges with the quiz server. Fields the
    client reads but the declared interfaces omit (`Question.points`,
    `Quiz.timeLimit`, `QuizResult.percentageScore`) are included. Dates are
    millisecond timestamps. */
module QuizModel {
  import opened Wrappers

  datatype QuizOption = QuizOption(id: string, text: string)

  datatype Question = Question(
    id: string,
    text: string,
    options: seq<QuizOption>,
    correctOptionId: string,
    points: int)

  datatype Quiz = Quiz(
    id: string,
    title: string,
    description: string,
    questions: seq<Question>,
    createdBy: string,
    createdAt: int,
    updatedAt: int,
    isPublished: bool,
    /** Minutes; None when the quiz has no limit. */
    timeLimit: Option<int>)

  datatype ParticipantAnswer = ParticipantAnswer(
    questionId: string,
    selectedOptionId: string,
    timeSpent: real,
    correct: bool)

  datatype QuizParticipant = QuizParticipant(
    userId: string,
    joinedAt: int,
    completed: bool,
    answers: seq<ParticipantAnswer>,
    score: Option<real>)

  /** `participants` is declared mandatory, but a session pushed over the
      socket may lack it and the teacher dashboard checks for that. */
  datatype QuizSession = QuizSession(
    id: string,
    quizId: string,
    code: string,
    isActive: bool,
    createdAt: int,
    endedAt: Option<int>,
    participants: Option<seq<QuizParticipant>>)

  datatype QuizResult = QuizResult(
    id: string,
    sessionId: string,
    quizId: string,
    userId: string,
    score: real,
    totalQuestions: nat,
    correctAnswers: nat,
    completedAt: int,
    percentageScore: real)

  /** The ids of the options. */
  function OptionIds(options: seq<QuizOption>): (ids: set<string>)
    ensures forall o :: o in options ==> o.id in ids
  {
    if |options| == 0 then {} else {options[0].id} + OptionIds(options[1..])
  }

  /** An id is among the option ids exactly when some option carries it. */
  lemma {:induction false} OptionIdsMeaning(options: seq<QuizOption>, id: string)
    ensures id in OptionIds(options) <==> exists o :: o in options && o.id == id
  {
    if |options| > 0 {
      OptionIdsMeaning(options[1..], id);
      assert options == [options[0]] + options[1..];
    }
  }

  /** The option ids are pairwise distinct. */
  predicate DistinctIds(options: seq<QuizOption>) {
    forall i, j :: 0 <= i < j < |options| ==> options[i].id != options[j].id
  }

  /** The answer picks one of the question's own options. */
  predicate SelectsOptionOf(a: ParticipantAnswer, q: Question) {
    a.selectedOptionId in OptionIds(q.options)
  }
}
