/** Sequence operations with the semantics of the JavaScript array methods the
    client calls: `find`, `filter(...).length` and `splice(index, 1)`. */
module Lists {
  import opened Wrappers

  /** Position of the first element satisfying `p`; the position
      `Array.prototype.find` stops at. */
  function FindIndex<T>(xs: seq<T>, p: T -> bool): (r: Option<nat>)
    ensures r.Some? ==> r.value < |xs| && p(xs[r.value])
    ensures r.Some? ==> forall j :: 0 <= j < r.value ==> !p(xs[j])
    ensures r.None? <==> forall j :: 0 <= j < |xs| ==> !p(xs[j])
  {
    if |xs| == 0 then None
    else if p(xs[0]) then Some(0)
    else
      match FindIndex(xs[1..], p)
      case None => None
      case Some(k) => Some(k + 1)
  }

  /** `xs.find(p)`: the first element satisfying `p`, or None. */
  function Find<T>(xs: seq<T>, p: T -> bool): (r: Option<T>)
    ensures r.None? <==> forall x :: x in xs ==> !p(x)
    ensures r.Some? ==> r.value in xs && p(r.value)
  {
    match FindIndex(xs, p)
    case None => None
    case Some(i) => Some(xs[i])
  }

  /** `find` returns the element at index `i` exactly when `i` is the first
      index whose element satisfies `p`. */
  lemma FindIsFirstMatch<T>(xs: seq<T>, p: T -> bool, i: nat)
    requires i < |xs| && p(xs[i])
    requires forall j :: 0 <= j < i ==> !p(xs[j])
    ensures Find(xs, p) == Some(xs[i])
  {
    var r := FindIndex(xs, p);
    assert r.Some? by { assert !(forall j :: 0 <= j < |xs| ==> !p(xs[j])) by { assert p(xs[i]); } }
  }

  /** Appending elements never changes what `find` returns once a match exists:
      a later duplicate is ignored. */
  lemma {:induction false} FindIgnoresLater<T>(xs: seq<T>, ys: seq<T>, p: T -> bool)
    requires Find(xs, p).Some?
    ensures Find(xs + ys, p) == Find(xs, p)
  {
    var i := FindIndex(xs, p).value;
    assert (xs + ys)[i] == xs[i];
    forall j | 0 <= j < i ensures !p((xs + ys)[j]) {
      assert (xs + ys)[j] == xs[j];
    }
    FindIsFirstMatch(xs + ys, p, i);
  }

  /** `xs.filter(p).length`. */
  function CountWhere<T>(xs: seq<T>, p: T -> bool): (n: nat)
    ensures n <= |xs|
    ensures n == 0 <==> forall x :: x in xs ==> !p(x)
    ensures n == |xs| <==> forall x :: x in xs ==> p(x)
  {
    if |xs| == 0 then 0
    else (if p(xs[0]) then 1 else 0) + CountWhere(xs[1..], p)
  }

  /** The start index `splice` computes from its first argument: negative
      values count back from the end, and the result is clamped to `[0, len]`. */
  function SpliceStart(len: nat, index: int): (k: nat)
    ensures k <= len
    ensures 0 <= index <= len ==> k == index
    ensures index > len ==> k == len
    ensures index < 0 && 0 <= len + index ==> k == len + index
    ensures len + index < 0 ==> k == 0
  {
    if index < 0 then (if len + index < 0 then 0 else len + index)
    else if index > len then len
    else index
  }

  /** `xs.splice(index, 1)` applied to a copy of `xs`. */
  function SpliceOne<T>(xs: seq<T>, index: int): (r: seq<T>)
    ensures var k := SpliceStart(|xs|, index);
      && (k < |xs| ==> |r| == |xs| - 1 && multiset(r) + multiset{xs[k]} == multiset(xs))
      && (k == |xs| ==> r == xs)
      && (forall j :: 0 <= j < k && j < |r| ==> r[j] == xs[j])
      && (forall j :: k <= j < |r| ==> r[j] == xs[j + 1])
  {
    var k := SpliceStart(|xs|, index);
    if k < |xs| then
      assert xs == xs[..k] + [xs[k]] + xs[k + 1..];
      xs[..k] + xs[k + 1..]
    else xs
  }

  /** For an index inside the sequence, `splice` removes exactly that element. */
  lemma SpliceInRange<T>(xs: seq<T>, i: int)
    requires 0 <= i < |xs|
    ensures SpliceOne(xs, i) == xs[..i] + xs[i + 1..]
  {
    var r := SpliceOne(xs, i);
    assert |r| == |xs[..i] + xs[i + 1..]|;
    forall j | 0 <= j < |r| ensures r[j] == (xs[..i] + xs[i + 1..])[j] {
      if j < i {
        assert r[j] == xs[j];
      } else {
        assert r[j] == xs[j + 1];
      }
    }
  }

  /** Removing the element just appended undoes the append. */
  lemma SpliceUndoesPush<T>(xs: seq<T>, x: T)
    ensures SpliceOne(xs + [x], |xs|) == xs
  {
    SpliceInRange(xs + [x], |xs|);
    assert (xs + [x])[..|xs|] == xs;
  }
}
