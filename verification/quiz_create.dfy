/** The quiz-creation form, edited as a plain list of questions: questions
    and options are pushed and spliced. The fresh UUIDs the component draws
    are parameters. */
module QuizCreate {
  import opened Wrappers
  import opened QuizModel
  import Lists
  import ResultDetail
  import QuizRunner

  /** The part of a quiz the creation form fills in. */
  datatype Draft = Draft(title: string, description: string, questions: seq<Question>)

  /** `createNewQuestion`: no text, two options without text, no correct
      option chosen, worth one point. */
  function NewQuestion(qid: string, o1: string, o2: string): (q: Question)
    ensures q.id == qid && q.text == "" && q.correctOptionId == "" && q.points == 1
    ensures |q.options| == 2 && q.options[0].id == o1 && q.options[1].id == o2
    ensures forall o :: o in q.options ==> o.text == ""
  {
    Question(qid, "", [QuizOption(o1, ""), QuizOption(o2, "")], "", 1)
  }

  /** The form as it opens: empty title and description, one new question. */
  function InitialDraft(qid: string, o1: string, o2: string): (d: Draft)
    ensures d.title == "" && d.description == ""
    ensures |d.questions| == 1 && d.questions[0] == NewQuestion(qid, o1, o2)
  {
    Draft("", "", [NewQuestion(qid, o1, o2)])
  }

  /** `addQuestion`: one new question at the end, the others unchanged. */
  function AddQuestion(d: Draft, qid: string, o1: string, o2: string): (r: Draft)
    ensures |r.questions| == |d.questions| + 1
    ensures r.questions[..|d.questions|] == d.questions
    ensures r.questions[|d.questions|] == NewQuestion(qid, o1, o2)
    ensures r.title == d.title && r.description == d.description
  {
    d.(questions := d.questions + [NewQuestion(qid, o1, o2)])
  }

  /** `removeQuestion`: `splice(index, 1)` on the questions. */
  function RemoveQuestion(d: Draft, index: int): (r: Draft)
    ensures r.title == d.title && r.description == d.description
    ensures 0 <= index < |d.questions| ==> r.questions == d.questions[..index] + d.questions[index + 1..]
    ensures index >= |d.questions| ==> r == d
    ensures |d.questions| > 0 && index < |d.questions| ==> |r.questions| == |d.questions| - 1
  {
    if 0 <= index < |d.questions| then
      Lists.SpliceInRange(d.questions, index);
      d.(questions := Lists.SpliceOne(d.questions, index))
    else d.(questions := Lists.SpliceOne(d.questions, index))
  }

  /** `addOption`: one option without text at the end of question `qi`.
      The component indexes the list directly, so `qi` must name a question. */
  function AddOption(d: Draft, qi: int, oid: string): (r: Draft)
    requires 0 <= qi < |d.questions|
    ensures |r.questions| == |d.questions|
    ensures forall k :: 0 <= k < |d.questions| && k != qi ==> r.questions[k] == d.questions[k]
    ensures var q := d.questions[qi];
      r.questions[qi] == q.(options := q.options + [QuizOption(oid, "")])
    ensures r.title == d.title && r.description == d.description
  {
    var q := d.questions[qi];
    d.(questions := d.questions[qi := q.(options := q.options + [QuizOption(oid, "")])])
  }

  /** `removeOption`: `splice(optionIndex, 1)` on question `qi`'s options;
      nothing stops it from removing the last option. */
  function RemoveOption(d: Draft, qi: int, optionIndex: int): (r: Draft)
    requires 0 <= qi < |d.questions|
    ensures |r.questions| == |d.questions|
    ensures forall k :: 0 <= k < |d.questions| && k != qi ==> r.questions[k] == d.questions[k]
    ensures var q := d.questions[qi];
      && r.questions[qi].id == q.id && r.questions[qi].text == q.text
      && r.questions[qi].correctOptionId == q.correctOptionId && r.questions[qi].points == q.points
    ensures var opts := d.questions[qi].options;
      0 <= optionIndex < |opts| ==> r.questions[qi].options == opts[..optionIndex] + opts[optionIndex + 1..]
    ensures optionIndex >= |d.questions[qi].options| ==> r == d
  {
    var q := d.questions[qi];
    var r := d.(questions := d.questions[qi := q.(options := Lists.SpliceOne(q.options, optionIndex))]);
    if 0 <= optionIndex < |q.options| then
      Lists.SpliceInRange(q.options, optionIndex);
      r
    else r
  }

  /** Removing the question just added gives the draft back. */
  lemma RemoveUndoesAddQuestion(d: Draft, qid: string, o1: string, o2: string)
    ensures RemoveQuestion(AddQuestion(d, qid, o1, o2), |d.questions|) == d
  {
    Lists.SpliceUndoesPush(d.questions, NewQuestion(qid, o1, o2));
  }

  /** Removing the option just added gives the draft back. */
  lemma RemoveUndoesAddOption(d: Draft, qi: int, oid: string)
    requires 0 <= qi < |d.questions|
    ensures RemoveOption(AddOption(d, qi, oid), qi, |d.questions[qi].options|) == d
  {
    var q := d.questions[qi];
    Lists.SpliceUndoesPush(q.options, QuizOption(oid, ""));
    assert d.questions[qi := q] == d.questions;
  }

  /** Unlike the editor, the creation form lets a question lose every
      option: removing twice from a new question leaves none. */
  lemma RemoveOptionCanEmpty(qid: string, o1: string, o2: string)
    ensures var d := InitialDraft(qid, o1, o2);
      RemoveOption(RemoveOption(d, 0, 0), 0, 0).questions[0].options == []
  {
  }

  /** A new question has no correct answer to show, in any quiz where it is
      the first question with its id: its options carry no text. */
  lemma NewQuestionHasNoCorrectText(quiz: Quiz, k: nat, qid: string, o1: string, o2: string)
    requires k < |quiz.questions| && quiz.questions[k] == NewQuestion(qid, o1, o2)
    requires forall j :: 0 <= j < k ==> quiz.questions[j].id != qid
    ensures ResultDetail.CorrectAnswer(Some(quiz), qid) == ""
  {
    Lists.FindIsFirstMatch(quiz.questions, ResultDetail.QuestionWithId(qid), k);
  }

  /** Until a correct option is chosen, no answer the quiz screen saves for
      a new question is marked correct, because an empty selection is never
      saved. */
  lemma NewQuestionNeverCorrect(r: QuizRunner.Runner, qid: string, o1: string, o2: string)
    requires QuizRunner.CurrentQuestion(r) == Some(NewQuestion(qid, o1, o2))
    requires QuizRunner.SaveAnswer(r).Some?
    ensures !QuizRunner.SaveAnswer(r).value.answer.correct
  {
  }
}
