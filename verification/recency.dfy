/** The "recent" panels of both dashboards: copy the list, sort it newest
    first by a timestamp, keep the first three. */
module Recency {

  /** Timestamps never increase along the sequence. */
  predicate NewestFirst<T>(xs: seq<T>, key: T -> int) {
    forall i, j :: 0 <= i < j < |xs| ==> key(xs[i]) >= key(xs[j])
  }

  /** Each element is at least as new as its successor. */
  predicate StepsDown<T>(xs: seq<T>, key: T -> int) {
    forall i :: 0 < i < |xs| ==> key(xs[i - 1]) >= key(xs[i])
  }

  lemma {:induction false} StepsDownIsNewestFirst<T>(xs: seq<T>, key: T -> int)
    requires StepsDown(xs, key)
    ensures NewestFirst(xs, key)
  {
    if |xs| > 1 {
      var tail := xs[1..];
      assert StepsDown(tail, key) by {
        forall i | 0 < i < |tail| ensures key(tail[i - 1]) >= key(tail[i]) {
          assert tail[i - 1] == xs[i] && tail[i] == xs[i + 1];
        }
      }
      StepsDownIsNewestFirst(tail, key);
      forall i, j | 0 <= i < j < |xs| ensures key(xs[i]) >= key(xs[j]) {
        if i == 0 {
          assert key(xs[0]) >= key(xs[1]);
          if j > 1 {
            assert tail[0] == xs[1] && tail[j - 1] == xs[j];
          }
        } else {
          assert tail[i - 1] == xs[i] && tail[j - 1] == xs[j];
        }
      }
    }
  }

  /** Places `x` before the first element that is not newer than it. */
  function Insert<T>(x: T, xs: seq<T>, key: T -> int): (r: seq<T>)
    requires StepsDown(xs, key)
    ensures StepsDown(r, key)
    ensures |r| == |xs| + 1
    ensures r[0] == x || (|xs| > 0 && r[0] == xs[0])
    ensures multiset(r) == multiset(xs) + multiset{x}
  {
    if |xs| == 0 || key(xs[0]) <= key(x) then
      [x] + xs
    else
      assert xs == [xs[0]] + xs[1..];
      [xs[0]] + Insert(x, xs[1..], key)
  }

  /** `[...xs].sort((a, b) => key(b) - key(a))`: the same elements, newest
      first. */
  function SortNewestFirst<T>(xs: seq<T>, key: T -> int): (r: seq<T>)
    ensures StepsDown(r, key)
    ensures multiset(r) == multiset(xs)
    ensures |r| == |xs|
  {
    if |xs| == 0 then []
    else
      assert xs == [xs[0]] + xs[1..];
      Insert(xs[0], SortNewestFirst(xs[1..], key), key)
  }

  function Min(a: nat, b: nat): nat {
    if a <= b then a else b
  }

  /** A prefix takes part of the multiset and only elements of the whole. */
  lemma PrefixOf<T>(s: seq<T>, n: nat)
    requires n <= |s|
    ensures multiset(s[..n]) <= multiset(s)
    ensures forall y :: y in s[..n] ==> y in s
  {
    assert s == s[..n] + s[n..];
  }

  /** `.slice(0, 3)` of the sorted copy: up to three elements of `xs`,
      newest first. */
  function Recent<T>(xs: seq<T>, key: T -> int): (r: seq<T>)
    ensures |r| == Min(3, |xs|)
    ensures NewestFirst(r, key)
    ensures multiset(r) <= multiset(xs)
    ensures forall y :: y in r ==> y in xs
  {
    var s := SortNewestFirst(xs, key);
    var n := Min(3, |xs|);
    PrefixOf(s, n);
    StepsDownIsNewestFirst(s, key);
    assert forall y :: y in s ==> y in multiset(xs);
    s[..n]
  }

  /** Nothing left out of the recent panel is newer than the oldest entry
      shown, and the first entry is the newest of all. */
  lemma {:induction false} RecentAreNewest<T>(xs: seq<T>, key: T -> int)
    requires |xs| > 0
    ensures var r := Recent(xs, key);
      && (forall y :: y in xs && key(y) > key(r[|r| - 1]) ==> y in r)
      && (forall y :: y in xs ==> key(y) <= key(r[0]))
  {
    var s := SortNewestFirst(xs, key);
    var r := Recent(xs, key);
    StepsDownIsNewestFirst(s, key);
    assert r == s[..|r|];
    forall y | y in xs
      ensures key(y) > key(r[|r| - 1]) ==> y in r
      ensures key(y) <= key(r[0])
    {
      assert y in multiset(s);
      var k :| 0 <= k < |s| && s[k] == y;
      if k >= |r| {
        assert key(s[|r| - 1]) >= key(s[k]);
      } else {
        assert r[k] == y;
      }
      if k > 0 {
        assert key(s[0]) >= key(s[k]);
      }
    }
  }
}
