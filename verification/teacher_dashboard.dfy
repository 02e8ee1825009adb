/** The teacher dashboard's live figures, the new-participant and new-answer
    notices, and the recent-quizzes panel. */
module TeacherDashboard {
  import opened Wrappers
  import opened QuizModel
  import Numbers
  import Recency
  import Toasts

  datatype TeacherStats = TeacherStats(activeSessions: nat, totalParticipants: nat, averageScore: int)

  /** The figures before any session update: all 0. */
  const InitialStats: TeacherStats := TeacherStats(0, 0, 0)

  /** `p.score || 0`: a missing score counts as 0 and a present one as
      itself (a score of 0 gives 0 either way). */
  function ScoreOrZero(p: QuizParticipant): (x: real)
    ensures p.score.Some? ==> x == p.score.value
    ensures p.score.None? ==> x == 0.0
  {
    p.score.GetOr(0.0)
  }

  function CreatedAt(q: Quiz): int {
    q.createdAt
  }

  /** `updateSessionStats`: one active session or none; with a participant
      list, its length and, when it is not empty, the rounded mean score;
      otherwise the earlier figures stay. */
  function UpdateSessionStats(prev: TeacherStats, session: QuizSession): (s: TeacherStats)
    ensures s.activeSessions == if session.isActive then 1 else 0
    ensures session.participants.None? ==>
      s.totalParticipants == prev.totalParticipants && s.averageScore == prev.averageScore
    ensures session.participants.Some? ==> s.totalParticipants == |session.participants.value|
    ensures session.participants == Some([]) ==> s.averageScore == prev.averageScore
    ensures session.participants.Some? && |session.participants.value| > 0 ==>
      var ps := session.participants.value;
      s.averageScore == Numbers.Round(Numbers.Sum(ps, ScoreOrZero) / |ps| as real)
  {
    var active := if session.isActive then 1 else 0;
    match session.participants
    case None => prev.(activeSessions := active)
    case Some(ps) =>
      var average := if |ps| > 0 then Numbers.Round(Numbers.Sum(ps, ScoreOrZero) / |ps| as real) else prev.averageScore;
      TeacherStats(active, |ps|, average)
  }

  /** With every present score in `[lo, hi]` and 0 in that range too (for
      the missing ones), the average lies between the rounded bounds; with
      percentage scores it is a whole percentage. */
  lemma AverageScoreBounds(prev: TeacherStats, session: QuizSession, lo: real, hi: real)
    requires session.participants.Some? && |session.participants.value| > 0
    requires lo <= 0.0 <= hi
    requires forall p :: p in session.participants.value && p.score.Some? ==> lo <= p.score.value <= hi
    ensures Numbers.Round(lo) <= UpdateSessionStats(prev, session).averageScore <= Numbers.Round(hi)
  {
    var ps := session.participants.value;
    var mean := Numbers.Sum(ps, ScoreOrZero) / |ps| as real;
    Numbers.MeanBounds(ps, ScoreOrZero, lo, hi);
    Numbers.RoundMonotone(lo, mean);
    Numbers.RoundMonotone(mean, hi);
  }

  /** A participant without a score weighs exactly as one who scored 0. */
  lemma {:induction false} MissingScoreIsZero(ps: seq<QuizParticipant>, i: nat)
    requires i < |ps| && ps[i].score.None?
    ensures Numbers.Sum(ps[i := ps[i].(score := Some(0.0))], ScoreOrZero) == Numbers.Sum(ps, ScoreOrZero)
  {
    var qs := ps[i := ps[i].(score := Some(0.0))];
    if i > 0 {
      assert qs[1..] == ps[1..][i - 1 := ps[i].(score := Some(0.0))];
      MissingScoreIsZero(ps[1..], i - 1);
    } else {
      assert qs[1..] == ps[1..];
    }
  }

  /** The text of the new-participant notice. */
  function ParticipantNotice(studentName: string): Toasts.Toast {
    Toasts.Toast(None, "New participant: " + studentName, Toasts.Info, None)
  }

  /** The text of the new-answer notice. */
  const AnswerNotice: Toasts.Toast := Toasts.Toast(None, "New answer submitted", Toasts.Info, None)

  /** A new-participant event (None when the stream emits nothing): one more
      participant and an information notice naming the student; without an
      event nothing changes. The notice takes its id from the counter of
      `Toasts.ShowNext`, not from the clock. */
  function OnNewParticipant(stats: TeacherStats, toasts: Toasts.ToastQueue, event: Option<string>)
    : (r: (TeacherStats, Toasts.ToastQueue))
    requires Toasts.IssuedIds(toasts)
    ensures event.Some? ==> r.0 == stats.(totalParticipants := stats.totalParticipants + 1)
    ensures event.Some? ==> |r.1.toasts| == |toasts.toasts| + 1 && r.1.toasts[..|toasts.toasts|] == toasts.toasts
    ensures event.Some? ==> r.1.toasts[|toasts.toasts|].message == "New participant: " + event.value
    ensures event.Some? ==> r.1.toasts[|toasts.toasts|].kind == Toasts.Info
    ensures event.None? ==> r == (stats, toasts)
    ensures Toasts.IssuedIds(r.1)
  {
    match event
    case None => (stats, toasts)
    case Some(name) => (stats.(totalParticipants := stats.totalParticipants + 1), Toasts.ShowNext(toasts, ParticipantNotice(name)))
  }

  /** A new-answer event: an information notice queued and no figure
      changed; without an event nothing changes. */
  function OnNewAnswer(toasts: Toasts.ToastQueue, event: bool): (r: Toasts.ToastQueue)
    requires Toasts.IssuedIds(toasts)
    ensures event ==> |r.toasts| == |toasts.toasts| + 1 && r.toasts[..|toasts.toasts|] == toasts.toasts
    ensures event ==> r.toasts[|toasts.toasts|].message == "New answer submitted" && r.toasts[|toasts.toasts|].kind == Toasts.Info
    ensures !event ==> r == toasts
    ensures Toasts.IssuedIds(r)
  {
    if event then Toasts.ShowNext(toasts, AnswerNotice) else toasts
  }

  /** As written, with clock ids: when the dashboard subscribes and both
      streams replay a participant and an answer in the same millisecond,
      the participant notice's timer removes the answer notice as well. */
  lemma ReplayedNoticesCollide(toasts: seq<Toasts.Toast>, name: string, now: nat)
    requires forall x :: x in toasts ==> x.id != Some(Toasts.ClockId(now))
    ensures var first := Toasts.Show(toasts, ParticipantNotice(name), Toasts.ClockId(now));
      var second := Toasts.Show(first.toasts, AnswerNotice, Toasts.ClockId(now));
      Toasts.Dismiss(second.toasts, first.id) == toasts
  {
    Toasts.SameMillisecondCollide(toasts, ParticipantNotice(name), AnswerNotice, now);
  }

  /** With counter ids, the participant notice's timer leaves the answer
      notice shown right after it in place. */
  lemma ReplayedNoticesKept(stats: TeacherStats, toasts: Toasts.ToastQueue, name: string)
    requires Toasts.IssuedIds(toasts)
    ensures var afterJoin := OnNewParticipant(stats, toasts, Some(name)).1;
      var afterAnswer := OnNewAnswer(afterJoin, true);
      Toasts.Dismiss(afterAnswer.toasts, Toasts.NextId(toasts))
        == toasts.toasts + [AnswerNotice.(id := Some(Toasts.NextId(afterJoin)))]
  {
    Toasts.ShowNextDismissesOnlyItself(toasts, ParticipantNotice(name), AnswerNotice);
  }

  /** `n` new participants after a session update add exactly `n`. */
  lemma {:induction false} ParticipantsCounted(stats: TeacherStats, toasts: Toasts.ToastQueue, names: seq<string>)
    requires Toasts.IssuedIds(toasts)
    ensures Joined(stats, toasts, names).0.totalParticipants == stats.totalParticipants + |names|
    ensures |Joined(stats, toasts, names).1.toasts| == |toasts.toasts| + |names|
    decreases |names|
  {
    if |names| > 0 {
      var r := OnNewParticipant(stats, toasts, Some(names[0]));
      ParticipantsCounted(r.0, r.1, names[1..]);
    }
  }

  /** The effect of a stream of new-participant events. */
  function Joined(stats: TeacherStats, toasts: Toasts.ToastQueue, names: seq<string>): (r: (TeacherStats, Toasts.ToastQueue))
    requires Toasts.IssuedIds(toasts)
    ensures Toasts.IssuedIds(r.1)
    decreases |names|
  {
    if |names| == 0 then (stats, toasts)
    else
      var r := OnNewParticipant(stats, toasts, Some(names[0]));
      Joined(r.0, r.1, names[1..])
  }

  /** The recent-quizzes panel: at most three quizzes, newest first. */
  function RecentQuizzes(quizzes: seq<Quiz>): (r: seq<Quiz>)
    ensures |r| == Recency.Min(3, |quizzes|)
    ensures Recency.NewestFirst(r, CreatedAt)
    ensures forall x :: x in r ==> x in quizzes
    ensures multiset(r) <= multiset(quizzes)
  {
    Recency.Recent(quizzes, CreatedAt)
  }
}
