/** Per-question statistics the quiz service folds from a list of answers:
    the share of correct answers, the mean time spent, and how the answers
    spread over the question's options. */
module QuizStats {
  import opened QuizModel
  import Lists
  import Numbers

  datatype QuestionStat = QuestionStat(
    questionId: string,
    questionText: string,
    correctPercentage: real,
    averageTimeSpent: real,
    optionDistribution: map<string, real>)

  /** The answers given to question `qid`, in their original order. */
  function AnswersFor(answers: seq<ParticipantAnswer>, qid: string): (r: seq<ParticipantAnswer>)
    ensures |r| <= |answers|
    ensures forall a :: a in r <==> a in answers && a.questionId == qid
  {
    if |answers| == 0 then []
    else (if answers[0].questionId == qid then [answers[0]] else []) + AnswersFor(answers[1..], qid)
  }

  /** Selecting answers distributes over concatenation, so the order of the
      selection is the order of the input. */
  lemma {:induction false} AnswersForAppend(xs: seq<ParticipantAnswer>, ys: seq<ParticipantAnswer>, qid: string)
    ensures AnswersFor(xs + ys, qid) == AnswersFor(xs, qid) + AnswersFor(ys, qid)
  {
    if |xs| == 0 {
      assert xs + ys == ys;
    } else {
      assert (xs + ys)[0] == xs[0];
      assert (xs + ys)[1..] == xs[1..] + ys;
      AnswersForAppend(xs[1..], ys, qid);
    }
  }

  lemma NoAnswersFor(others: seq<ParticipantAnswer>, qid: string)
    requires forall a :: a in others ==> a.questionId != qid
    ensures AnswersFor(others, qid) == []
  {
  }

  predicate IsCorrect(a: ParticipantAnswer) {
    a.correct
  }

  function TimeSpentOf(a: ParticipantAnswer): real {
    a.timeSpent
  }

  /** How many of the answers chose option `optionId`. */
  function CountSelecting(answers: seq<ParticipantAnswer>, optionId: string): (n: nat)
    ensures n <= |answers|
    ensures n == 0 <==> forall a :: a in answers ==> a.selectedOptionId != optionId
  {
    if |answers| == 0 then 0
    else (if answers[0].selectedOptionId == optionId then 1 else 0) + CountSelecting(answers[1..], optionId)
  }

  /** `calculateOptionDistribution`: one entry per option id, assigned in
      option order, holding the percentage of `answers` that chose it. */
  function Distribution(options: seq<QuizOption>, answers: seq<ParticipantAnswer>): (d: map<string, real>)
    ensures d.Keys == OptionIds(options)
    ensures forall o :: o in options ==> d[o.id] == Numbers.Percent(CountSelecting(answers, o.id), |answers|)
    ensures |answers| == 0 ==> forall id :: id in d ==> d[id] == 0.0
  {
    if |options| == 0 then map[]
    else
      var last := options[|options| - 1];
      var init := options[..|options| - 1];
      OptionIdsSnoc(init, last);
      assert options == init + [last];
      var d := Distribution(init, answers);
      assert forall o :: o in options ==> o == last || o in init;
      d[last.id := Numbers.Percent(CountSelecting(answers, last.id), |answers|)]
  }

  lemma {:induction false} OptionIdsSnoc(init: seq<QuizOption>, last: QuizOption)
    ensures OptionIds(init + [last]) == OptionIds(init) + {last.id}
  {
    if |init| > 0 {
      assert (init + [last])[1..] == init[1..] + [last];
      OptionIdsSnoc(init[1..], last);
    } else {
      assert init + [last] == [last];
    }
  }

  /** `total > 0 ? sum of timeSpent / total : 0`: the mean time, so the
      mean times the count is the total time; answers that all record no
      time (as the quiz screen sends them) average 0. */
  function AverageTime(answers: seq<ParticipantAnswer>): (t: real)
    ensures |answers| == 0 ==> t == 0.0
    ensures |answers| > 0 ==> t * |answers| as real == Numbers.Sum(answers, TimeSpentOf)
    ensures (forall a :: a in answers ==> a.timeSpent == 0.0) ==> t == 0.0
  {
    if |answers| > 0 then
      var total := Numbers.Sum(answers, TimeSpentOf);
      Numbers.MeanTimesCount(total, |answers| as real);
      if forall a :: a in answers ==> a.timeSpent == 0.0 then
        Numbers.MeanBounds(answers, TimeSpentOf, 0.0, 0.0);
        total / |answers| as real
      else total / |answers| as real
    else 0.0
  }

  /** `total > 0 ? (correct / total) * 100 : 0`: a percentage that is 100
      exactly when there are answers and all are correct, and 0 exactly when
      none is. */
  function CorrectPercentage(answers: seq<ParticipantAnswer>): (p: real)
    ensures 0.0 <= p <= 100.0
    ensures p == 100.0 <==> |answers| > 0 && forall a :: a in answers ==> a.correct
    ensures p == 0.0 <==> forall a :: a in answers ==> !a.correct
  {
    Numbers.PercentMeaning(Lists.CountWhere(answers, IsCorrect), |answers|);
    Numbers.Percent(Lists.CountWhere(answers, IsCorrect), |answers|)
  }

  /** The statistic of question `q` built from the answers given to it. */
  function StatOf(q: Question, qa: seq<ParticipantAnswer>): QuestionStat
  {
    QuestionStat(q.id, q.text, CorrectPercentage(qa), AverageTime(qa), Distribution(q.options, qa))
  }

  /** The statistic of one question: the map callback of `calculateQuestionStats`. */
  function StatFor(q: Question, answers: seq<ParticipantAnswer>): (s: QuestionStat)
    ensures s.questionId == q.id && s.questionText == q.text
    ensures 0.0 <= s.correctPercentage <= 100.0
  {
    StatOf(q, AnswersFor(answers, q.id))
  }

  /** `calculateQuestionStats`: exactly one statistic per question, in
      question order. */
  function CalculateQuestionStats(answers: seq<ParticipantAnswer>, questions: seq<Question>): (r: seq<QuestionStat>)
    ensures |r| == |questions|
    ensures forall i :: 0 <= i < |r| ==> r[i].questionId == questions[i].id && r[i].questionText == questions[i].text
    ensures forall i :: 0 <= i < |r| ==> r[i] == StatFor(questions[i], answers)
  {
    if |questions| == 0 then []
    else [StatFor(questions[0], answers)] + CalculateQuestionStats(answers, questions[1..])
  }

  /** The correct percentage is the share of correct answers among the
      question's answers: 0 with no answers, 100 exactly when every answer is
      correct, 0 exactly when none is. */
  lemma {:induction false} CorrectPercentageMeaning(q: Question, answers: seq<ParticipantAnswer>)
    ensures var qa := AnswersFor(answers, q.id);
      var p := StatFor(q, answers).correctPercentage;
      && (|qa| == 0 ==> p == 0.0)
      && (|qa| > 0 ==> p == 100.0 * (Lists.CountWhere(qa, IsCorrect) as real / |qa| as real))
      && (p == 100.0 <==> |qa| > 0 && forall a :: a in answers && a.questionId == q.id ==> a.correct)
      && (p == 0.0 <==> forall a :: a in answers && a.questionId == q.id ==> !a.correct)
  {
    var qa := AnswersFor(answers, q.id);
    Numbers.PercentMeaning(Lists.CountWhere(qa, IsCorrect), |qa|);
    assert (forall a :: a in answers && a.questionId == q.id ==> a.correct) <==> (forall a :: a in qa ==> IsCorrect(a));
    assert (forall a :: a in answers && a.questionId == q.id ==> !a.correct) <==> (forall a :: a in qa ==> !IsCorrect(a));
  }

  /** The average time is the total time over the number of answers, 0 with
      no answers, and lies between the smallest and largest time spent. */
  lemma {:induction false} AverageTimeMeaning(q: Question, answers: seq<ParticipantAnswer>, lo: real, hi: real)
    requires forall a :: a in answers && a.questionId == q.id ==> lo <= a.timeSpent <= hi
    ensures var qa := AnswersFor(answers, q.id);
      var t := StatFor(q, answers).averageTimeSpent;
      && (|qa| == 0 ==> t == 0.0)
      && (|qa| > 0 ==> t == Numbers.Sum(qa, TimeSpentOf) / |qa| as real)
      && (|qa| > 0 ==> lo <= t <= hi)
  {
    var qa := AnswersFor(answers, q.id);
    if |qa| > 0 {
      Numbers.MeanBounds(qa, TimeSpentOf, lo, hi);
    }
  }

  /** The distribution has exactly the question's option ids as keys; each
      value is the percentage of the question's answers choosing that option,
      and every value is 0 while the question has no answers. */
  lemma {:induction false} DistributionMeaning(q: Question, answers: seq<ParticipantAnswer>)
    ensures var qa := AnswersFor(answers, q.id);
      var d := StatFor(q, answers).optionDistribution;
      && d.Keys == OptionIds(q.options)
      && (|qa| > 0 ==> forall o :: o in q.options ==> d[o.id] == 100.0 * (CountSelecting(qa, o.id) as real / |qa| as real))
      && (|qa| == 0 ==> forall id :: id in d ==> d[id] == 0.0)
  {
  }

  /** Answers to other questions do not affect a question's statistic. */
  lemma {:induction false} StatIgnoresOtherQuestions(q: Question, answers: seq<ParticipantAnswer>, others: seq<ParticipantAnswer>)
    requires forall a :: a in others ==> a.questionId != q.id
    ensures StatFor(q, answers + others) == StatFor(q, answers)
    ensures StatFor(q, others + answers) == StatFor(q, answers)
  {
    NoAnswersFor(others, q.id);
    AnswersForAppend(answers, others, q.id);
    AnswersForAppend(others, answers, q.id);
    assert AnswersFor(answers + others, q.id) == AnswersFor(answers, q.id);
    assert AnswersFor(others + answers, q.id) == AnswersFor(answers, q.id);
  }

  // ---- The option percentages add up to 100 ----

  /** How many options carry id `x`. */
  function CountIds(options: seq<QuizOption>, x: string): nat
  {
    if |options| == 0 then 0
    else (if options[0].id == x then 1 else 0) + CountIds(options[1..], x)
  }

  /** For each option, the number of answers choosing it. */
  function SelectionCounts(options: seq<QuizOption>, answers: seq<ParticipantAnswer>): (cs: seq<nat>)
    ensures |cs| == |options|
    ensures forall i :: 0 <= i < |cs| ==> cs[i] <= |answers|
  {
    if |options| == 0 then []
    else [CountSelecting(answers, options[0].id)] + SelectionCounts(options[1..], answers)
  }

  /** The distribution's values, added over the options. */
  function SumOverOptions(options: seq<QuizOption>, d: map<string, real>): real
  {
    if |options| == 0 then 0.0
    else (if options[0].id in d then d[options[0].id] else 0.0) + SumOverOptions(options[1..], d)
  }

  lemma {:induction false} CountIdsDistinct(options: seq<QuizOption>, x: string)
    requires DistinctIds(options)
    ensures CountIds(options, x) == if x in OptionIds(options) then 1 else 0
  {
    if |options| > 0 {
      var rest := options[1..];
      assert DistinctIds(rest) by {
        forall i, j | 0 <= i < j < |rest| ensures rest[i].id != rest[j].id {
          assert rest[i] == options[i + 1] && rest[j] == options[j + 1];
        }
      }
      CountIdsDistinct(rest, x);
      OptionIdsMeaning(rest, x);
    }
  }

  lemma {:induction false} SelectionCountsStep(options: seq<QuizOption>, a: ParticipantAnswer, rest: seq<ParticipantAnswer>)
    ensures Numbers.SumNat(SelectionCounts(options, [a] + rest))
      == CountIds(options, a.selectedOptionId) + Numbers.SumNat(SelectionCounts(options, rest))
  {
    if |options| > 0 {
      assert ([a] + rest)[1..] == rest;
      SelectionCountsStep(options[1..], a, rest);
    }
  }

  lemma {:induction false} SelectionCountsNoAnswers(options: seq<QuizOption>, answers: seq<ParticipantAnswer>)
    requires |answers| == 0
    ensures Numbers.SumNat(SelectionCounts(options, answers)) == 0
  {
    if |options| > 0 {
      SelectionCountsNoAnswers(options[1..], answers);
    }
  }

  /** Every answer counted once: with distinct ids and every answer choosing
      one of the options, the per-option counts add up to the number of answers. */
  lemma {:induction false} SelectionCountsCoverAnswers(options: seq<QuizOption>, answers: seq<ParticipantAnswer>)
    requires DistinctIds(options)
    requires forall a :: a in answers ==> a.selectedOptionId in OptionIds(options)
    ensures Numbers.SumNat(SelectionCounts(options, answers)) == |answers|
  {
    if |answers| > 0 {
      var a := answers[0];
      var rest := answers[1..];
      assert answers == [a] + rest;
      assert a in answers;
      SelectionCountsStep(options, a, rest);
      CountIdsDistinct(options, a.selectedOptionId);
      assert forall b :: b in rest ==> b in answers;
      SelectionCountsCoverAnswers(options, rest);
    } else {
      SelectionCountsNoAnswers(options, answers);
    }
  }

  /** Added over the options, the distribution is the sum of the
      percentages of the selection counts. */
  lemma {:induction false} SumOverDistribution(options: seq<QuizOption>, d: map<string, real>, answers: seq<ParticipantAnswer>)
    requires forall o :: o in options ==> o.id in d && d[o.id] == Numbers.Percent(CountSelecting(answers, o.id), |answers|)
    ensures SumOverOptions(options, d) == Numbers.SumPercents(SelectionCounts(options, answers), |answers|)
  {
    if |options| > 0 {
      assert options[0] in options;
      assert forall o :: o in options[1..] ==> o in options;
      SumOverDistribution(options[1..], d, answers);
    }
  }

  /** With distinct option ids and every answer choosing one of the
      question's options, the distribution's percentages add up to 100 once
      the question has at least one answer. */
  lemma {:induction false} DistributionSumsTo100(q: Question, answers: seq<ParticipantAnswer>)
    requires DistinctIds(q.options)
    requires forall a :: a in answers && a.questionId == q.id ==> SelectsOptionOf(a, q)
    requires exists a :: a in answers && a.questionId == q.id
    ensures SumOverOptions(q.options, StatFor(q, answers).optionDistribution) == 100.0
  {
    var qa := AnswersFor(answers, q.id);
    var a :| a in answers && a.questionId == q.id;
    assert a in qa;
    SelectionCountsCoverAnswers(q.options, qa);
    SumOverDistribution(q.options, Distribution(q.options, qa), qa);
    Numbers.SumPercentsCoverTotal(SelectionCounts(q.options, qa), |qa|);
  }
}
