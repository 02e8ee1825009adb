/** Arithmetic the client borrows from JavaScript: `Math.round`, sums folded
    with `reduce`, and the decimal text of an integer. Numbers are exact reals
    here, so IEEE-754 rounding never enters. */
module Numbers {

  /** `Math.round(x)`: the nearest integer, halves rounded up. */
  function Round(x: real): (r: int)
    ensures r as real - 1.0 / 2.0 <= x < r as real + 1.0 / 2.0
  {
    (x + 1.0 / 2.0).Floor
  }

  /** Rounding never reverses the order of two values. */
  lemma RoundMonotone(x: real, y: real)
    requires x <= y
    ensures Round(x) <= Round(y)
  {
  }

  /** Rounding an integer gives it back. */
  lemma RoundOfInt(n: int)
    ensures Round(n as real) == n
  {
  }

  /** `xs.reduce((sum, x) => sum + f(x), 0)`. */
  function Sum<T>(xs: seq<T>, f: T -> real): real
  {
    if |xs| == 0 then 0.0 else f(xs[0]) + Sum(xs[1..], f)
  }

  /** `n * v` as a repeated sum, which keeps the bound proofs linear. */
  function Times(n: nat, v: real): real
  {
    if n == 0 then 0.0 else v + Times(n - 1, v)
  }

  lemma {:induction false} TimesIsProduct(n: nat, v: real)
    ensures Times(n, v) == n as real * v
  {
    if n > 0 {
      TimesIsProduct(n - 1, v);
      Distribute((n - 1) as real, n as real, v);
    }
  }

  lemma Distribute(k: real, m: real, v: real)
    requires m == k + 1.0
    ensures v + k * v == m * v
  {
  }

  /** A sum of `n` terms each within `[lo, hi]` lies within `[n*lo, n*hi]`. */
  lemma SumBounds<T>(xs: seq<T>, f: T -> real, lo: real, hi: real)
    requires forall x :: x in xs ==> lo <= f(x) <= hi
    ensures |xs| as real * lo <= Sum(xs, f) <= |xs| as real * hi
  {
    SumWithin(xs, f, lo, hi);
    TimesIsProduct(|xs|, lo);
    TimesIsProduct(|xs|, hi);
  }

  lemma {:induction false} SumWithin<T>(xs: seq<T>, f: T -> real, lo: real, hi: real)
    requires forall x :: x in xs ==> lo <= f(x) <= hi
    ensures Times(|xs|, lo) <= Sum(xs, f) <= Times(|xs|, hi)
  {
    if |xs| > 0 {
      assert forall x :: x in xs[1..] ==> x in xs;
      assert xs[0] in xs;
      SumWithin(xs[1..], f, lo, hi);
    }
  }

  /** A mean of values within `[lo, hi]` lies within `[lo, hi]`. */
  lemma MeanBounds<T>(xs: seq<T>, f: T -> real, lo: real, hi: real)
    requires |xs| > 0
    requires forall x :: x in xs ==> lo <= f(x) <= hi
    ensures lo <= Sum(xs, f) / |xs| as real <= hi
  {
    SumBounds(xs, f, lo, hi);
    DivideBounds(Sum(xs, f), |xs| as real, lo, hi);
  }

  /** A mean times its count is the total. */
  lemma MeanTimesCount(total: real, n: real)
    requires n > 0.0
    ensures (total / n) * n == total
  {
  }

  lemma DivideBounds(a: real, n: real, lo: real, hi: real)
    requires n > 0.0 && n * lo <= a <= n * hi
    ensures lo <= a / n <= hi
  {
    assert (a / n) * n == a;
  }

  /** `total > 0 ? (count / total) * 100 : 0`: the share of `count` in
      `total` as a percentage, 0 for an empty total. */
  function Percent(count: nat, total: nat): (r: real)
    requires count <= total
    ensures 0.0 <= r <= 100.0
    ensures total == 0 ==> r == 0.0
  {
    if total > 0 then (count as real / total as real) * 100.0 else 0.0
  }

  /** A percentage times the total is a hundred times the count; it is 100
      exactly when everything counts and 0 exactly when nothing does. */
  lemma PercentMeaning(count: nat, total: nat)
    requires count <= total
    ensures total > 0 ==> Percent(count, total) * total as real == 100.0 * count as real
    ensures total > 0 ==> (Percent(count, total) == 100.0 <==> count == total)
    ensures Percent(count, total) == 0.0 <==> count == 0 || total == 0
  {
    if total > 0 {
      assert (count as real / total as real) * total as real == count as real;
    }
  }

  function SumNat(xs: seq<nat>): nat
  {
    if |xs| == 0 then 0 else xs[0] + SumNat(xs[1..])
  }

  /** The percentages of several counts out of the same total, added up. */
  function SumPercents(counts: seq<nat>, total: nat): real
    requires forall i :: 0 <= i < |counts| ==> counts[i] <= total
  {
    if |counts| == 0 then 0.0 else Percent(counts[0], total) + SumPercents(counts[1..], total)
  }

  lemma AddShares(a: real, b: real, ab: real, n: real)
    requires n > 0.0 && ab == a + b
    ensures (a / n) * 100.0 + 100.0 * (b / n) == 100.0 * (ab / n)
  {
  }

  /** Percentages of counts out of one total add up to the percentage of
      the counts' sum. */
  lemma {:induction false} SumPercentsOfCounts(counts: seq<nat>, total: nat)
    requires total > 0
    requires forall i :: 0 <= i < |counts| ==> counts[i] <= total
    ensures SumPercents(counts, total) == 100.0 * (SumNat(counts) as real / total as real)
  {
    if |counts| > 0 {
      var rest := counts[1..];
      assert forall i :: 0 <= i < |rest| ==> rest[i] <= total by {
        forall i | 0 <= i < |rest| ensures rest[i] <= total {
          assert rest[i] == counts[i + 1];
        }
      }
      SumPercentsOfCounts(rest, total);
      AddShares(counts[0] as real, SumNat(rest) as real, SumNat(counts) as real, total as real);
    }
  }

  /** Counts that cover the total have percentages adding up to 100. */
  lemma SumPercentsCoverTotal(counts: seq<nat>, total: nat)
    requires total > 0 && SumNat(counts) == total
    requires forall i :: 0 <= i < |counts| ==> counts[i] <= total
    ensures SumPercents(counts, total) == 100.0
  {
    SumPercentsOfCounts(counts, total);
    WholeShare(total as real);
  }

  lemma WholeShare(n: real)
    requires n > 0.0
    ensures 100.0 * (n / n) == 100.0
  {
  }

  /** JavaScript's `a % b` for a positive divisor: unlike Dafny's `%`, the
      remainder takes the sign of the dividend. */
  function JsRem(a: int, b: int): (r: int)
    requires b > 0
    ensures a >= 0 ==> 0 <= r < b && r == a % b
    ensures a < 0 ==> -b < r <= 0
  {
    if a >= 0 then a % b else -((-a) % b)
  }

  /** The JavaScript remainder is odd in its dividend: it truncates toward zero. */
  lemma JsRemOdd(a: int, b: int)
    requires b > 0
    ensures JsRem(-a, b) == -JsRem(a, b)
  {
  }

  /** The decimal digit character for `d`. */
  function DigitChar(d: nat): char
    requires d < 10
  {
    "0123456789"[d]
  }

  predicate IsDigit(c: char) {
    '0' <= c <= '9'
  }

  function DigitValue(c: char): nat
    requires IsDigit(c)
  {
    (c - '0') as nat
  }

  lemma DigitRoundTrip(d: nat)
    requires d < 10
    ensures IsDigit(DigitChar(d)) && DigitValue(DigitChar(d)) == d
  {
  }

  /** The text JavaScript prints for a non-negative integer: decimal digits,
      no leading zero. */
  function NatToString(n: nat): (s: string)
    ensures |s| > 0
    ensures AllDigits(s)
    ensures n < 10 <==> |s| == 1
  {
    DigitRoundTrip(n % 10);
    if n < 10 then [DigitChar(n)] else NatToString(n / 10) + [DigitChar(n % 10)]
  }

  /** The text JavaScript prints for any integer. */
  function IntToString(n: int): (s: string)
    ensures |s| > 0
    ensures n >= 0 ==> s == NatToString(n)
    ensures n < 0 ==> s[0] == '-'
  {
    if n < 0 then "-" + NatToString(-n) else NatToString(n)
  }

  predicate AllDigits(s: string) {
    forall i :: 0 <= i < |s| ==> IsDigit(s[i])
  }

  /** Reads a string of decimal digits back as a number. */
  function ParseNat(s: string): nat
    requires AllDigits(s)
  {
    if |s| == 0 then 0 else ParseNat(s[..|s| - 1]) * 10 + DigitValue(s[|s| - 1])
  }

  /** Reading the decimal text of `n` gives `n` back. */
  lemma {:induction false} ParseNatToString(n: nat)
    ensures ParseNat(NatToString(n)) == n
  {
    var s := NatToString(n);
    DigitRoundTrip(n % 10);
    if n >= 10 {
      assert s[..|s| - 1] == NatToString(n / 10);
      ParseNatToString(n / 10);
    }
  }

  /** Different numbers print differently. */
  lemma NatToStringInjective(a: nat, b: nat)
    requires NatToString(a) == NatToString(b)
    ensures a == b
  {
    ParseNatToString(a);
    ParseNatToString(b);
  }
}
