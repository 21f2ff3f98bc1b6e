/** Order-preserving distinct values and sorted keys of a column. */
module Seqs {

  predicate NoDuplicates<T(==)>(s: seq<T>) {
    forall i, j :: 0 <= i < j < |s| ==> s[i] != s[j]
  }

  /** The position of the first occurrence of `x` in `s`. */
  function FirstIndex<T(==)>(s: seq<T>, x: T): (k: nat)
    requires x in s
    ensures k < |s| && s[k] == x
    ensures forall j :: 0 <= j < k ==> s[j] != x
  {
    if s[0] == x then 0 else 1 + FirstIndex(s[1..], x)
  }

  lemma {:induction false} FirstIndexExtend<T>(s: seq<T>, x: T, v: T)
    requires v in s
    ensures FirstIndex(s + [x], v) == FirstIndex(s, v)
  {
    if s[0] != v {
      assert (s + [x])[1..] == s[1..] + [x];
      FirstIndexExtend(s[1..], x, v);
    }
  }

  /** A value met for the first time at the end has the last position. */
  lemma FirstIndexNew<T>(s: seq<T>, x: T)
    requires x !in s
    ensures FirstIndex(s + [x], x) == |s|
  {
  }

  /**
   * The distinct values of `xs` in first-seen order, as pandas `Series.unique()`
   * returns them.
   */
  function Distinct<T(==)>(xs: seq<T>): (d: seq<T>)
    ensures NoDuplicates(d)
    ensures forall k :: 0 <= k < |d| ==> d[k] in xs
    ensures forall i :: 0 <= i < |xs| ==> xs[i] in d
    ensures |d| <= |xs|
  {
    if xs == [] then []
    else
      var d := Distinct(xs[..|xs| - 1]);
      var x := xs[|xs| - 1];
      assert xs == xs[..|xs| - 1] + [x];
      if x in d then d else d + [x]
  }

  /** Values of `Distinct(xs)` come in the order of their first occurrence in `xs`. */
  lemma {:induction false} DistinctFirstSeenOrder<T>(xs: seq<T>)
    ensures forall i, j :: 0 <= i < j < |Distinct(xs)| ==>
              FirstIndex(xs, Distinct(xs)[i]) < FirstIndex(xs, Distinct(xs)[j])
  {
    if xs != [] {
      var init := xs[..|xs| - 1];
      var x := xs[|xs| - 1];
      assert xs == init + [x];
      DistinctFirstSeenOrder(init);
      var d0 := Distinct(init);
      var d := Distinct(xs);
      DistinctSnoc(init, x);
      forall i, j | 0 <= i < j < |d| ensures FirstIndex(xs, d[i]) < FirstIndex(xs, d[j]) {
        assert d[i] == d0[i] && d0[i] in init;
        FirstIndexExtend(init, x, d0[i]);
        if j < |d0| {
          assert d[j] == d0[j] && d0[j] in init;
          FirstIndexExtend(init, x, d0[j]);
        } else {
          assert d[j] == x && x !in init;
          FirstIndexNew(init, x);
        }
      }
    }
  }

  /** A sequence without duplicates has as many elements as its set. */
  lemma {:induction false} NoDuplicatesCardinality<T>(s: seq<T>)
    requires NoDuplicates(s)
    ensures |set x | x in s| == |s|
  {
    if s != [] {
      var init, x := s[..|s| - 1], s[|s| - 1];
      assert s == init + [x];
      NoDuplicatesCardinality(init);
      assert (set y | y in s) == (set y | y in init) + {x};
      assert x !in init;
    }
  }

  /** The number of different values of `xs`: the length of `Distinct(xs)`. */
  lemma DistinctCardinality<T>(xs: seq<T>)
    ensures |set x | x in xs| == |Distinct(xs)|
  {
    NoDuplicatesCardinality(Distinct(xs));
    assert (set x | x in xs) == (set x | x in Distinct(xs));
  }

  predicate StrictlyIncreasing(s: seq<int>) {
    forall i, j :: 0 <= i < j < |s| ==> s[i] < s[j]
  }

  /** Every position of `ix` moved one place on, as when a table loses its first row. */
  function Shift(ix: seq<int>): (r: seq<int>)
    ensures |r| == |ix| && forall k :: 0 <= k < |ix| ==> r[k] == ix[k] + 1
  {
    seq(|ix|, k requires 0 <= k < |ix| => ix[k] + 1)
  }

  /** Shifted non-negative positions stay increasing, also behind a leading position 0. */
  lemma ShiftIncreasing(head: seq<int>, ix: seq<int>)
    requires head == [] || head == [0]
    requires StrictlyIncreasing(ix) && forall k :: 0 <= k < |ix| ==> ix[k] >= 0
    ensures StrictlyIncreasing(head + Shift(ix))
  {
    var r := head + Shift(ix);
    forall i, j | 0 <= i < j < |r|
      ensures r[i] < r[j]
    {
      if head == [] || i >= 1 {
        assert r[i] == ix[i - |head|] + 1;
      }
      assert r[j] == ix[j - |head|] + 1;
    }
  }

  lemma ShiftMember(ix: seq<int>, i: int)
    requires i in ix
    ensures i + 1 in Shift(ix)
  {
    var k :| 0 <= k < |ix| && ix[k] == i;
    assert Shift(ix)[k] == i + 1;
  }

  /** `ix` lists, in increasing order, exactly the positions `i` with `keep[i]`. */
  predicate Picks(keep: seq<bool>, ix: seq<int>) {
    StrictlyIncreasing(ix)
    && (forall k :: 0 <= k < |ix| ==> 0 <= ix[k] < |keep| && keep[ix[k]])
    && (forall i :: 0 <= i < |keep| && keep[i] ==> i in ix)
  }

  /** `r` is `vals` at the positions `ix` that `keep` picks, in order. */
  predicate PicksValues<U(==)>(keep: seq<bool>, vals: seq<U>, ix: seq<int>, r: seq<U>) {
    |keep| == |vals| && Picks(keep, ix) && |r| == |ix|
    && forall k :: 0 <= k < |ix| ==> r[k] == vals[ix[k]]
  }

  /** A selection from the tail of a column extends to the whole column. */
  lemma PicksCons<U>(keep: seq<bool>, vals: seq<U>, ix': seq<int>, r': seq<U>)
    requires |keep| == |vals| >= 1 && PicksValues(keep[1..], vals[1..], ix', r')
    ensures PicksValues(keep, vals, (if keep[0] then [0] else []) + Shift(ix'),
      (if keep[0] then [vals[0]] else []) + r')
  {
    PicksShift(keep, ix');
    if keep[0] {
      ShiftValues(vals, ix', r', [0], [vals[0]]);
    } else {
      ShiftValues(vals, ix', r', [], []);
    }
  }

  lemma ShiftValues<U>(vals: seq<U>, ix': seq<int>, r': seq<U>, head: seq<int>, hr: seq<U>)
    requires |vals| >= 1 && ((head == [] && hr == []) || (head == [0] && hr == [vals[0]]))
    requires |r'| == |ix'| && forall k :: 0 <= k < |ix'| ==> 0 <= ix'[k] < |vals| - 1 && r'[k] == vals[1..][ix'[k]]
    ensures |hr + r'| == |head + Shift(ix')|
    ensures forall k :: 0 <= k < |head + Shift(ix')| ==> (hr + r')[k] == vals[(head + Shift(ix'))[k]]
  {
    var ix := head + Shift(ix');
    forall k | |head| <= k < |ix|
      ensures (hr + r')[k] == vals[ix[k]]
    {
      var j := k - |head|;
      assert ix[k] == ix'[j] + 1;
      assert vals[ix'[j] + 1] == vals[1..][ix'[j]];
    }
  }

  /** The positions picked from the tail of `keep`, moved on by one, behind position 0 if it is kept. */
  lemma PicksShift(keep: seq<bool>, ix': seq<int>)
    requires |keep| >= 1 && Picks(keep[1..], ix')
    ensures Picks(keep, (if keep[0] then [0] else []) + Shift(ix'))
  {
    var head := if keep[0] then [0] else [];
    ShiftIncreasing(head, ix');
    ShiftKept(keep, ix', head);
    ShiftAll(keep, ix', head);
  }

  lemma ShiftKept(keep: seq<bool>, ix': seq<int>, head: seq<int>)
    requires |keep| >= 1 && (head == [] || (head == [0] && keep[0]))
    requires forall k :: 0 <= k < |ix'| ==> 0 <= ix'[k] < |keep| - 1 && keep[1..][ix'[k]]
    ensures forall k :: 0 <= k < |head + Shift(ix')| ==>
      0 <= (head + Shift(ix'))[k] < |keep| && keep[(head + Shift(ix'))[k]]
  {
    var ix := head + Shift(ix');
    forall k | |head| <= k < |ix|
      ensures 0 <= ix[k] < |keep| && keep[ix[k]]
    {
      var j := k - |head|;
      assert ix[k] == ix'[j] + 1;
      assert keep[ix'[j] + 1] == keep[1..][ix'[j]];
    }
  }

  lemma ShiftAll(keep: seq<bool>, ix': seq<int>, head: seq<int>)
    requires |keep| >= 1 && (keep[0] ==> head == [0])
    requires forall i :: 0 <= i < |keep| - 1 && keep[1..][i] ==> i in ix'
    ensures forall i :: 0 <= i < |keep| && keep[i] ==> i in head + Shift(ix')
  {
    forall i | 1 <= i < |keep| && keep[i]
      ensures i in Shift(ix')
    {
      assert keep[1..][i - 1] == keep[i];
      ShiftMember(ix', i - 1);
    }
  }

  /** Inserts `x` into an ascending sequence of distinct keys, unless it is already there. */
  function InsertKey(x: int, s: seq<int>): (r: seq<int>)
    requires StrictlyIncreasing(s)
    ensures StrictlyIncreasing(r)
    ensures forall y :: y in r <==> y == x || y in s
  {
    if s == [] then [x]
    else if x < s[0] then [x] + s
    else if x == s[0] then s
    else
      var t := InsertKey(x, s[1..]);
      assert forall k :: 0 <= k < |t| ==> s[0] < t[k] by {
        forall k | 0 <= k < |t| ensures s[0] < t[k] {
          assert t[k] in t;
        }
      }
      [s[0]] + t
  }

  /** The distinct values of `xs` in ascending order: the keys of a pandas `groupby`. */
  function SortedKeys(xs: seq<int>): (r: seq<int>)
    ensures StrictlyIncreasing(r)
    ensures forall y :: y in r <==> y in xs
  {
    if xs == [] then [] else InsertKey(xs[0], SortedKeys(xs[1..]))
  }

  /** One step of `Distinct`: a value is appended when it is new, and dropped otherwise. */
  lemma DistinctSnoc<T>(xs: seq<T>, x: T)
    ensures Distinct(xs + [x]) == if x in Distinct(xs) then Distinct(xs) else Distinct(xs) + [x]
  {
    var ys := xs + [x];
    assert ys[..|ys| - 1] == xs;
  }

  /** A list is its prefix `p` followed by the rest. */
  lemma PrefixThenRest<T>(s: seq<T>, p: seq<T>)
    requires |p| <= |s| && s[..|p|] == p
    ensures s == p + s[|p|..]
    ensures [] + p + s[|p|..] == s
  {
    assert s == s[..|p|] + s[|p|..];
  }

  /** A non-empty list is its first element followed by the rest. */
  lemma HeadThenTail<T>(s: seq<T>)
    requires |s| >= 1
    ensures s == [s[0]] + s[1..]
  {
  }

  /** Putting `x` in front commutes with appending. */
  lemma ConsAppend<T>(x: T, p: seq<T>, q: seq<T>)
    ensures [x] + p + q == [x] + (p + q)
  {
  }

  /** A list of length two is the display of its two elements. */
  lemma ListOfTwo<T>(r: seq<T>, x: T, y: T)
    requires |r| == 2 && r[0] == x && r[1] == y
    ensures r == [x, y]
  {
  }

  /** A list of length one is the display of its element. */
  lemma ListOfOne<T>(r: seq<T>, x: T)
    requires |r| == 1 && r[0] == x
    ensures r == [x]
  {
  }
}
