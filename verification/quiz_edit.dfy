/** The quiz-edit form: a form array of question groups, each with an array
    of option groups. Groups are modelled as records and the arrays as
    sequences; the question groups carry no points. The random ids the
    component generates are parameters, used only where the component would
    call the generator. */
module QuizEdit {
  import opened Wrappers
  import opened QuizModel
  import Lists

  datatype QuestionForm = QuestionForm(id: string, text: string, correctOptionId: string, options: seq<QuizOption>)

  /** `value || fallback` on strings: an empty string takes the fallback. */
  function OrElse(value: string, fallback: string): (s: string)
    ensures value != "" ==> s == value
    ensures value == "" ==> s == fallback
  {
    if value != "" then value else fallback
  }

  /** The option group `addOption` builds: the given option's id unless it
      is empty, else the fresh id; the given text, else "". */
  function OptionGroup(option: Option<QuizOption>, freshId: string): (o: QuizOption)
    ensures option.Some? && option.value.id != "" ==> o.id == option.value.id
    ensures (option.None? || option.value.id == "") ==> o.id == freshId
    ensures option.Some? ==> o.text == option.value.text
    ensures option.None? ==> o.text == ""
  {
    match option
    case None => QuizOption(freshId, "")
    case Some(x) => QuizOption(OrElse(x.id, freshId), OrElse(x.text, ""))
  }

  /** `addOption(qi, option?)`: one option group at the end of question
      `qi`'s options. The form array has no group at a missing index, so
      `qi` must name a question. */
  function AddOption(forms: seq<QuestionForm>, qi: int, option: Option<QuizOption>, freshId: string): (r: seq<QuestionForm>)
    requires 0 <= qi < |forms|
    ensures |r| == |forms|
    ensures forall k :: 0 <= k < |forms| && k != qi ==> r[k] == forms[k]
    ensures r[qi].id == forms[qi].id && r[qi].text == forms[qi].text && r[qi].correctOptionId == forms[qi].correctOptionId
    ensures r[qi].options == forms[qi].options + [OptionGroup(option, freshId)]
  {
    forms[qi := forms[qi].(options := forms[qi].options + [OptionGroup(option, freshId)])]
  }

  /** The `forEach` over a question's options: each one added in turn. */
  function AddOptions(forms: seq<QuestionForm>, qi: int, options: seq<QuizOption>, freshIds: seq<string>)
    : (r: seq<QuestionForm>)
    requires 0 <= qi < |forms|
    requires |freshIds| == |options|
    ensures |r| == |forms|
    ensures forall k :: 0 <= k < |forms| && k != qi ==> r[k] == forms[k]
    ensures r[qi].id == forms[qi].id && r[qi].text == forms[qi].text && r[qi].correctOptionId == forms[qi].correctOptionId
    ensures |r[qi].options| == |forms[qi].options| + |options|
    ensures r[qi].options[..|forms[qi].options|] == forms[qi].options
    ensures forall i :: 0 <= i < |options| ==>
      r[qi].options[|forms[qi].options| + i] == OptionGroup(Some(options[i]), freshIds[i])
    decreases |options|
  {
    if |options| == 0 then forms
    else
      var next := AddOption(forms, qi, Some(options[0]), freshIds[0]);
      AddOptions(next, qi, options[1..], freshIds[1..])
  }

  /** `addQuestion(question?)`: a question group at the end. From a
      question, its non-empty id, its text and correct option id, and a copy
      of each of its options in order; without one, a fresh id, empty
      fields and two default options. `freshIds` supplies one id per option
      slot. */
  function AddQuestion(forms: seq<QuestionForm>, question: Option<Question>, freshId: string, freshIds: seq<string>)
    : (r: seq<QuestionForm>)
    requires question.Some? ==> |freshIds| == |question.value.options|
    requires question.None? ==> |freshIds| == 2
    ensures |r| == |forms| + 1
    ensures r[..|forms|] == forms
    ensures question.None? ==> r[|forms|] == QuestionForm(freshId, "", "", [QuizOption(freshIds[0], ""), QuizOption(freshIds[1], "")])
    ensures question.Some? ==> var q := question.value; var g := r[|forms|];
      && g.id == OrElse(q.id, freshId) && g.text == q.text && g.correctOptionId == q.correctOptionId
      && |g.options| == |q.options|
      && forall i :: 0 <= i < |q.options| ==> g.options[i] == OptionGroup(Some(q.options[i]), freshIds[i])
  {
    var group := match question
      case None => QuestionForm(freshId, "", "", [])
      case Some(q) => QuestionForm(OrElse(q.id, freshId), OrElse(q.text, ""), OrElse(q.correctOptionId, ""), []);
    var pushed := forms + [group];
    var r := match question
      case None => AddOption(AddOption(pushed, |forms|, None, freshIds[0]), |forms|, None, freshIds[1])
      case Some(q) => AddOptions(pushed, |forms|, q.options, freshIds);
    assert r[..|forms|] == forms by {
      forall k | 0 <= k < |forms| ensures r[k] == forms[k] {
        assert pushed[k] == forms[k];
      }
    }
    r
  }

  /** Copying a question whose ids are all present keeps it whole: the group
      holds the question's id, text, correct option id and options. */
  lemma {:induction false} AddQuestionKeepsIds(forms: seq<QuestionForm>, q: Question, freshId: string, freshIds: seq<string>)
    requires q.id != "" && |freshIds| == |q.options|
    requires forall o :: o in q.options ==> o.id != ""
    ensures AddQuestion(forms, Some(q), freshId, freshIds)[|forms|] == QuestionForm(q.id, q.text, q.correctOptionId, q.options)
  {
    var g := AddQuestion(forms, Some(q), freshId, freshIds)[|forms|];
    forall i | 0 <= i < |q.options| ensures g.options[i] == q.options[i] {
      assert q.options[i] in q.options;
    }
  }

  /** `removeQuestion`: the group at `index` removed. */
  function RemoveQuestion(forms: seq<QuestionForm>, index: int): (r: seq<QuestionForm>)
    ensures 0 <= index < |forms| ==> r == forms[..index] + forms[index + 1..]
    ensures index >= |forms| ==> r == forms
  {
    if 0 <= index < |forms| then
      Lists.SpliceInRange(forms, index);
      Lists.SpliceOne(forms, index)
    else Lists.SpliceOne(forms, index)
  }

  /** `removeOption`: with more than one option, the option at
      `optionIndex` removed; a question's only option is never removed. */
  function RemoveOption(forms: seq<QuestionForm>, qi: int, optionIndex: int): (r: seq<QuestionForm>)
    requires 0 <= qi < |forms|
    ensures |r| == |forms|
    ensures forall k :: 0 <= k < |forms| && k != qi ==> r[k] == forms[k]
    ensures r[qi].id == forms[qi].id && r[qi].text == forms[qi].text && r[qi].correctOptionId == forms[qi].correctOptionId
    ensures |forms[qi].options| <= 1 ==> r == forms
    ensures var opts := forms[qi].options;
      |opts| > 1 && 0 <= optionIndex < |opts| ==> r[qi].options == opts[..optionIndex] + opts[optionIndex + 1..]
    ensures |forms[qi].options| > 0 ==> |r[qi].options| > 0
  {
    var opts := forms[qi].options;
    if |opts| > 1 then
      var r := forms[qi := forms[qi].(options := Lists.SpliceOne(opts, optionIndex))];
      if 0 <= optionIndex < |opts| then
        Lists.SpliceInRange(opts, optionIndex);
        r
      else r
    else forms
  }

  /** Repeated removals never leave a question without options. */
  lemma {:induction false} RemoveOptionsKeepOne(forms: seq<QuestionForm>, qi: int, indices: seq<int>)
    requires 0 <= qi < |forms| && |forms[qi].options| > 0
    ensures |RemoveOptions(forms, qi, indices)[qi].options| > 0
    decreases |indices|
  {
    if |indices| > 0 {
      RemoveOptionsKeepOne(RemoveOption(forms, qi, indices[0]), qi, indices[1..]);
    }
  }

  function RemoveOptions(forms: seq<QuestionForm>, qi: int, indices: seq<int>): (r: seq<QuestionForm>)
    requires 0 <= qi < |forms|
    ensures |r| == |forms|
    decreases |indices|
  {
    if |indices| == 0 then forms
    else RemoveOptions(RemoveOption(forms, qi, indices[0]), qi, indices[1..])
  }

  /** `setCorrectOption`: question `qi`'s correct option id, and nothing
      else, changes. */
  function SetCorrectOption(forms: seq<QuestionForm>, qi: int, optionId: string): (r: seq<QuestionForm>)
    requires 0 <= qi < |forms|
    ensures |r| == |forms|
    ensures forall k :: 0 <= k < |forms| && k != qi ==> r[k] == forms[k]
    ensures r[qi].correctOptionId == optionId
    ensures r[qi].id == forms[qi].id && r[qi].text == forms[qi].text && r[qi].options == forms[qi].options
  {
    forms[qi := forms[qi].(correctOptionId := optionId)]
  }

  /** Choosing the option already marked correct changes nothing, and the
      last choice wins. */
  lemma SetCorrectOptionLastWins(forms: seq<QuestionForm>, qi: int, a: string, b: string)
    requires 0 <= qi < |forms|
    ensures SetCorrectOption(SetCorrectOption(forms, qi, a), qi, b) == SetCorrectOption(forms, qi, b)
    ensures SetCorrectOption(forms, qi, forms[qi].correctOptionId) == forms
  {
  }
}
