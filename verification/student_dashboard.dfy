/** The student dashboard's summary figures and its recent-results panel. */
module StudentDashboard {
  import opened QuizModel
  import Lists
  import Numbers
  import Recency

  datatype StudentStats = StudentStats(
    totalQuizzes: nat,
    averageScore: int,
    highestScore: int,
    quizzesThisMonth: nat)

  /** The figures before any results arrive: all 0. */
  const InitialStats: StudentStats := StudentStats(0, 0, 0, 0)

  function PercentageOf(r: QuizResult): real {
    r.percentageScore
  }

  function CompletedAt(r: QuizResult): int {
    r.completedAt
  }

  /** `Math.max(...percentageScore)`: a score no result exceeds and some
      result reaches. */
  function MaxScore(results: seq<QuizResult>): (m: real)
    requires |results| > 0
    ensures forall r :: r in results ==> r.percentageScore <= m
    ensures exists r :: r in results && r.percentageScore == m
  {
    if |results| == 1 then results[0].percentageScore
    else
      var rest := MaxScore(results[1..]);
      assert forall r :: r in results ==> r == results[0] || r in results[1..];
      if results[0].percentageScore >= rest then results[0].percentageScore else rest
  }

  /** The smallest score: none is below it and some result has it. */
  function MinScore(results: seq<QuizResult>): (m: real)
    requires |results| > 0
    ensures forall r :: r in results ==> m <= r.percentageScore
    ensures exists r :: r in results && r.percentageScore == m
  {
    if |results| == 1 then results[0].percentageScore
    else
      var rest := MinScore(results[1..]);
      assert forall r :: r in results ==> r == results[0] || r in results[1..];
      if results[0].percentageScore <= rest then results[0].percentageScore else rest
  }

  /** `calculateStats`: the count is always updated; with results, the
      average is the rounded mean score, the highest the rounded best score
      (the rounded score of some result, at least that of every other), and
      the monthly count the number of results completed this month. With no
      results the other figures keep their values. `inMonth` stands for the
      calendar test against the current month and year. */
  function CalculateStats(prev: StudentStats, results: seq<QuizResult>, inMonth: QuizResult -> bool): (s: StudentStats)
    ensures s.totalQuizzes == |results|
    ensures |results| == 0 ==>
      s.averageScore == prev.averageScore && s.highestScore == prev.highestScore && s.quizzesThisMonth == prev.quizzesThisMonth
    ensures |results| > 0 ==> s.averageScore == Numbers.Round(Numbers.Sum(results, PercentageOf) / |results| as real)
    ensures |results| > 0 ==> forall r :: r in results ==> Numbers.Round(r.percentageScore) <= s.highestScore
    ensures |results| > 0 ==> exists r :: r in results && Numbers.Round(r.percentageScore) == s.highestScore
    ensures |results| > 0 ==> s.quizzesThisMonth == Lists.CountWhere(results, inMonth)
    ensures |results| > 0 ==> s.quizzesThisMonth <= s.totalQuizzes
  {
    if |results| > 0 then
      var best := MaxScore(results);
      assert forall r :: r in results ==> Numbers.Round(r.percentageScore) <= Numbers.Round(best) by {
        forall r | r in results ensures Numbers.Round(r.percentageScore) <= Numbers.Round(best) {
          Numbers.RoundMonotone(r.percentageScore, best);
        }
      }
      StudentStats(
        |results|,
        Numbers.Round(Numbers.Sum(results, PercentageOf) / |results| as real),
        Numbers.Round(best),
        Lists.CountWhere(results, inMonth))
    else prev.(totalQuizzes := 0)
  }

  /** The average never exceeds the highest score, and it is no lower than
      the rounded lowest score. */
  lemma AverageWithinScores(prev: StudentStats, results: seq<QuizResult>, inMonth: QuizResult -> bool)
    requires |results| > 0
    ensures var s := CalculateStats(prev, results, inMonth);
      Numbers.Round(MinScore(results)) <= s.averageScore <= s.highestScore
  {
    var lo := MinScore(results);
    var hi := MaxScore(results);
    var mean := Numbers.Sum(results, PercentageOf) / |results| as real;
    Numbers.MeanBounds(results, PercentageOf, lo, hi);
    Numbers.RoundMonotone(lo, mean);
    Numbers.RoundMonotone(mean, hi);
  }

  /** With every score a percentage, the average and the highest score are
      whole percentages too. */
  lemma StatsArePercentages(prev: StudentStats, results: seq<QuizResult>, inMonth: QuizResult -> bool)
    requires |results| > 0
    requires forall r :: r in results ==> 0.0 <= r.percentageScore <= 100.0
    ensures var s := CalculateStats(prev, results, inMonth);
      0 <= s.averageScore <= s.highestScore <= 100
  {
    var lo := MinScore(results);
    var hi := MaxScore(results);
    AverageWithinScores(prev, results, inMonth);
    Numbers.RoundMonotone(0.0, lo);
    Numbers.RoundMonotone(hi, 100.0);
    Numbers.RoundOfInt(0);
    Numbers.RoundOfInt(100);
  }

  /** The recent-results panel: at most three results, newest first. */
  function RecentResults(results: seq<QuizResult>): (r: seq<QuizResult>)
    ensures |r| == Recency.Min(3, |results|)
    ensures Recency.NewestFirst(r, CompletedAt)
    ensures forall x :: x in r ==> x in results
    ensures multiset(r) <= multiset(results)
  {
    Recency.Recent(results, CompletedAt)
  }
}
