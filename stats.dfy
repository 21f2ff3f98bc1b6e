/** Column statistics: `min`, `max`, `sum` and `mean` of a numeric column. */
module Stats {
  import opened Wrappers

  function MinInt(s: seq<int>): (m: int)
    requires |s| > 0
    ensures m in s
    ensures forall i :: 0 <= i < |s| ==> m <= s[i]
  {
    if |s| == 1 then s[0]
    else
      var m := MinInt(s[1..]);
      if s[0] <= m then s[0] else m
  }

  function MaxInt(s: seq<int>): (m: int)
    requires |s| > 0
    ensures m in s
    ensures forall i :: 0 <= i < |s| ==> s[i] <= m
  {
    if |s| == 1 then s[0]
    else
      var m := MaxInt(s[1..]);
      if s[0] >= m then s[0] else m
  }

  // The same extremes over `real`: Dafny has no ordering shared by `int` and `real`
  // that one generic function could take.
  function MinReal(s: seq<real>): (m: real)
    requires |s| > 0
    ensures m in s
    ensures forall i :: 0 <= i < |s| ==> m <= s[i]
  {
    if |s| == 1 then s[0]
    else
      var m := MinReal(s[1..]);
      if s[0] <= m then s[0] else m
  }

  function MaxReal(s: seq<real>): (m: real)
    requires |s| > 0
    ensures m in s
    ensures forall i :: 0 <= i < |s| ==> s[i] <= m
  {
    if |s| == 1 then s[0]
    else
      var m := MaxReal(s[1..]);
      if s[0] >= m then s[0] else m
  }

  function Sum(s: seq<int>): int {
    if s == [] then 0 else s[0] + Sum(s[1..])
  }

  lemma {:induction false} SumBounds(s: seq<int>, lo: int, hi: int)
    requires forall i :: 0 <= i < |s| ==> lo <= s[i] <= hi
    ensures |s| * lo <= Sum(s) <= |s| * hi
  {
    if s != [] {
      SumBounds(s[1..], lo, hi);
      assert |s| * lo == lo + (|s| - 1) * lo;
      assert |s| * hi == hi + (|s| - 1) * hi;
    }
  }

  /** An integer average of `n` values, each within `[lo, hi]`, stays within `[lo, hi]`. */
  lemma QuotientBounds(sum: int, n: nat, lo: int, hi: int)
    requires n > 0 && n * lo <= sum <= n * hi
    ensures lo as real <= sum as real / n as real <= hi as real
    ensures (sum as real / n as real) * n as real == sum as real
  {
    var q := sum as real / n as real;
    assert q * n as real == sum as real;
    assert (n * lo) as real == n as real * lo as real;
    assert (n * hi) as real == n as real * hi as real;
  }

  /**
   * pandas `Series.mean()` of an integer column: absent (NaN) for an empty column,
   * otherwise the sum divided by the count, which lies between the least and the
   * greatest value.
   */
  function Mean(s: seq<int>): (r: Option<real>)
    ensures r.None? <==> s == []
    ensures r.Some? ==> r.value == Sum(s) as real / |s| as real
    ensures r.Some? ==> MinInt(s) as real <= r.value <= MaxInt(s) as real
  {
    if s == [] then None
    else
      var total, n, lo, hi := Sum(s), |s|, MinInt(s), MaxInt(s);
      SumBounds(s, lo, hi);
      QuotientBounds(total, n, lo, hi);
      Some(total as real / n as real)
  }
}
