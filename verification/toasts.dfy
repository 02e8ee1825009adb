/** The toast queue: `show` appends a toast under a generated id and
    schedules its dismissal; `dismiss` drops every toast with a given id.
    The timer itself is not modelled, only the delay it is given. */
module Toasts {
  import opened Wrappers
  import Numbers

  datatype ToastKind = Success | Error | Info | Warning

  datatype Toast = Toast(id: Option<string>, message: string, kind: ToastKind, duration: Option<int>)

  const DefaultDuration: int := 5000

  /** The delay handed to the dismissal timer: `duration || 5000`, so an
      absent or zero duration becomes 5000 ms. */
  function DismissDelay(t: Toast): (d: int)
    ensures t.duration.None? || t.duration.value == 0 ==> d == DefaultDuration
    ensures t.duration.Some? && t.duration.value != 0 ==> d == t.duration.value
    ensures d != 0
  {
    if t.duration.Some? && t.duration.value != 0 then t.duration.value else DefaultDuration
  }

  /** The effect of `show`: the new list, and the id and delay of the
      dismissal it schedules. */
  datatype Shown = Shown(toasts: seq<Toast>, id: string, delay: int)

  /** `show` with the generated id given: the toast goes at the end under
      that id; the stored duration is the caller's, only the delay gets the
      default. */
  function Show(toasts: seq<Toast>, t: Toast, id: string): (s: Shown)
    ensures |s.toasts| == |toasts| + 1
    ensures s.toasts[..|toasts|] == toasts
    ensures var added := s.toasts[|toasts|];
      added.id == Some(id) && added.message == t.message && added.kind == t.kind && added.duration == t.duration
    ensures s.id == id && s.delay == DismissDelay(t)
  {
    Shown(toasts + [t.(id := Some(id))], id, DismissDelay(t))
  }

  /** `dismiss`: keeps exactly the toasts whose id is not `id`. */
  function Dismiss(toasts: seq<Toast>, id: string): (r: seq<Toast>)
    ensures |r| <= |toasts|
    ensures forall x :: x in r <==> x in toasts && x.id != Some(id)
  {
    if |toasts| == 0 then []
    else (if toasts[0].id != Some(id) then [toasts[0]] else []) + Dismiss(toasts[1..], id)
  }

  /** Filtering distributes over concatenation: the kept toasts stay in
      their order. */
  lemma {:induction false} DismissAppend(xs: seq<Toast>, ys: seq<Toast>, id: string)
    ensures Dismiss(xs + ys, id) == Dismiss(xs, id) + Dismiss(ys, id)
  {
    if |xs| == 0 {
      assert xs + ys == ys;
    } else {
      assert (xs + ys)[0] == xs[0];
      assert (xs + ys)[1..] == xs[1..] + ys;
      DismissAppend(xs[1..], ys, id);
    }
  }

  /** Dismissing an id no toast carries changes nothing. */
  lemma {:induction false} DismissUnknown(toasts: seq<Toast>, id: string)
    requires forall x :: x in toasts ==> x.id != Some(id)
    ensures Dismiss(toasts, id) == toasts
  {
    if |toasts| > 0 {
      assert forall x :: x in toasts[1..] ==> x in toasts;
      DismissUnknown(toasts[1..], id);
      assert toasts == [toasts[0]] + toasts[1..];
    }
  }

  /** Dismissing twice is dismissing once. */
  lemma DismissIdempotent(toasts: seq<Toast>, id: string)
    ensures Dismiss(Dismiss(toasts, id), id) == Dismiss(toasts, id)
  {
    DismissUnknown(Dismiss(toasts, id), id);
  }

  /** Showing a toast under a fresh id and then dismissing that id gives the
      earlier list back. */
  lemma ShowThenDismiss(toasts: seq<Toast>, t: Toast, id: string)
    requires forall x :: x in toasts ==> x.id != Some(id)
    ensures Dismiss(Show(toasts, t, id).toasts, id) == toasts
  {
    var added := t.(id := Some(id));
    DismissAppend(toasts, [added], id);
    DismissUnknown(toasts, id);
    assert Dismiss([added], id) == [] by {
      assert [added][1..] == [];
    }
  }

  // ---- Id generation ----

  /** `generateId` as written: the clock's milliseconds, printed, so the
      id reads back as the time it was made at. */
  function ClockId(now: nat): (id: string)
    ensures |id| > 0 && Numbers.AllDigits(id)
    ensures Numbers.ParseNat(id) == now
  {
    Numbers.ParseNatToString(now);
    Numbers.NatToString(now)
  }

  /** Two clock ids are equal exactly when they were made in the same
      millisecond. */
  lemma ClockIdsCollide(a: nat, b: nat)
    ensures ClockId(a) == ClockId(b) <==> a == b
  {
    if ClockId(a) == ClockId(b) {
      Numbers.NatToStringInjective(a, b);
    }
  }

  /** Two toasts shown within the same millisecond get the same id, so the
      first one's timer removes the second as well, long before its own
      delay is up. */
  lemma SameMillisecondCollide(toasts: seq<Toast>, a: Toast, b: Toast, now: nat)
    requires forall x :: x in toasts ==> x.id != Some(ClockId(now))
    ensures var first := Show(toasts, a, ClockId(now));
      var second := Show(first.toasts, b, ClockId(now));
      && second.toasts[|toasts| + 1].message == b.message
      && first.id == second.id
      && Dismiss(second.toasts, first.id) == toasts
  {
    var id := ClockId(now);
    var first := Show(toasts, a, id);
    var second := Show(first.toasts, b, id);
    assert second.toasts == toasts + [a.(id := Some(id)), b.(id := Some(id))];
    DismissAppend(toasts, [a.(id := Some(id)), b.(id := Some(id))], id);
    DismissUnknown(toasts, id);
    assert Dismiss([a.(id := Some(id)), b.(id := Some(id))], id) == [] by {
      assert [a.(id := Some(id)), b.(id := Some(id))][1..] == [b.(id := Some(id))];
      assert [b.(id := Some(id))][1..] == [];
    }
  }

  /** The queue with a counter of the ids issued so far; the corrected
      `show` takes its id from the counter instead of the clock. */
  datatype ToastQueue = ToastQueue(toasts: seq<Toast>, issued: nat)

  /** Every queued toast carries an id issued earlier. */
  predicate IssuedIds(q: ToastQueue) {
    forall x :: x in q.toasts ==> x.id.Some? && Numbers.AllDigits(x.id.value) && Numbers.ParseNat(x.id.value) < q.issued
  }

  function NextId(q: ToastQueue): string {
    Numbers.NatToString(q.issued)
  }

  /** The next id differs from the id of every queued toast. */
  lemma NextIdFresh(q: ToastQueue)
    requires IssuedIds(q)
    ensures forall x :: x in q.toasts ==> x.id != Some(NextId(q))
  {
    Numbers.ParseNatToString(q.issued);
  }

  /** `show` with a counter-based id: appends as `Show` does and keeps
      every queued id distinct from the new one. */
  function ShowNext(q: ToastQueue, t: Toast): (r: ToastQueue)
    requires IssuedIds(q)
    ensures IssuedIds(r)
    ensures r.issued == q.issued + 1
    ensures r.toasts == Show(q.toasts, t, NextId(q)).toasts
    ensures forall x :: x in q.toasts ==> x.id != Some(NextId(q))
  {
    NextIdFresh(q);
    Numbers.ParseNatToString(q.issued);
    ToastQueue(Show(q.toasts, t, NextId(q)).toasts, q.issued + 1)
  }

  /** `dismiss` on the queue. */
  function DismissQueued(q: ToastQueue, id: string): (r: ToastQueue)
    requires IssuedIds(q)
    ensures IssuedIds(r)
    ensures r.toasts == Dismiss(q.toasts, id) && r.issued == q.issued
  {
    ToastQueue(Dismiss(q.toasts, id), q.issued)
  }

  /** Dismissing from a single toast keeps it exactly when its id differs. */
  lemma DismissOne(t: Toast, id: string)
    ensures Dismiss([t], id) == if t.id == Some(id) then [] else [t]
  {
    assert [t][1..] == [];
  }

  /** Successive counter ids differ. */
  lemma NextIdsDiffer(q: ToastQueue, t: Toast)
    requires IssuedIds(q)
    ensures NextId(ShowNext(q, t)) != NextId(q)
  {
    if NextId(ShowNext(q, t)) == NextId(q) {
      Numbers.NatToStringInjective(q.issued, q.issued + 1);
    }
  }

  /** With counter ids, the timer of a toast removes that toast alone, even
      when another one was shown right after it. */
  lemma ShowNextDismissesOnlyItself(q: ToastQueue, a: Toast, b: Toast)
    requires IssuedIds(q)
    ensures var q1 := ShowNext(q, a);
      var q2 := ShowNext(q1, b);
      Dismiss(q2.toasts, NextId(q)) == q.toasts + [b.(id := Some(NextId(q1)))]
  {
    var q1 := ShowNext(q, a);
    var q2 := ShowNext(q1, b);
    var idA := NextId(q);
    var tb := b.(id := Some(NextId(q1)));
    NextIdsDiffer(q, a);
    assert q2.toasts == q1.toasts + [tb];
    DismissAppend(q1.toasts, [tb], idA);
    ShowNextThenDismiss(q, a);
    DismissOne(tb, idA);
  }

  /** With counter ids, showing a toast and letting its timer fire always
      restores the queue's toasts. */
  lemma ShowNextThenDismiss(q: ToastQueue, t: Toast)
    requires IssuedIds(q)
    ensures Dismiss(ShowNext(q, t).toasts, NextId(q)) == q.toasts
  {
    NextIdFresh(q);
    ShowThenDismiss(q.toasts, t, NextId(q));
  }
}
