/**
 * pandas `Series.value_counts()`, `head(n)` and `sort_values(ascending=False)` over a
 * column of strings. Values are tallied in first-seen order and then stably sorted by
 * descending count, so values with equal counts keep their first-seen order.
 */
module Ranking {
  import opened Seqs

  /** One row of a `value_counts()` result: a value and how often it occurs. */
  datatype Entry = Entry(name: string, count: nat)

  function Names(t: seq<Entry>): (r: seq<string>)
    ensures |r| == |t|
    ensures forall i :: 0 <= i < |t| ==> r[i] == t[i].name
  {
    if t == [] then [] else [t[0].name] + Names(t[1..])
  }

  /** The sum of all counts. */
  function Total(t: seq<Entry>): nat {
    if t == [] then 0 else t[0].count + Total(t[1..])
  }

  /** The count recorded for `v` (its first entry), or 0 when `v` has none. */
  function Lookup(t: seq<Entry>, v: string): nat {
    if t == [] then 0
    else if t[0].name == v then t[0].count
    else Lookup(t[1..], v)
  }

  /** Counts one more occurrence of `v`: its entry goes up by one, or a new entry `(v, 1)` is appended. */
  function Bump(t: seq<Entry>, v: string): (r: seq<Entry>)
    ensures Names(r) == if v in Names(t) then Names(t) else Names(t) + [v]
    ensures forall w :: Lookup(r, w) == Lookup(t, w) + (if w == v then 1 else 0)
    ensures Total(r) == Total(t) + 1
  {
    if t == [] then [Entry(v, 1)]
    else if t[0].name == v then
      var r := [Entry(v, t[0].count + 1)] + t[1..];
      assert r[1..] == t[1..];
      assert Names(t) == [v] + Names(t[1..]);
      r
    else
      var b := Bump(t[1..], v);
      var r := [t[0]] + b;
      assert r[1..] == b;
      assert Names(t) == [t[0].name] + Names(t[1..]);
      assert v in Names(t) <==> v in Names(t[1..]);
      r
  }

  /**
   * The occurrence counts of the values of `xs`, one entry per distinct value in
   * first-seen order.
   */
  function Tally(xs: seq<string>): (t: seq<Entry>)
    ensures Names(t) == Distinct(xs)
    ensures forall w :: Lookup(t, w) == multiset(xs)[w]
    ensures Total(t) == |xs|
  {
    if xs == [] then []
    else
      var init, x := xs[..|xs| - 1], xs[|xs| - 1];
      assert xs == init + [x];
      Bump(Tally(init), x)
  }

  /** One step of `Tally`: the next value bumps its entry. */
  lemma TallySnoc(xs: seq<string>, x: string)
    ensures Tally(xs + [x]) == Bump(Tally(xs), x)
  {
    var ys := xs + [x];
    assert ys[..|ys| - 1] == xs;
  }

  /** With distinct names, an entry's count is the one `Lookup` finds for its name. */
  lemma {:induction false} EntryIsLookup(t: seq<Entry>, i: nat)
    requires NoDuplicates(Names(t)) && i < |t|
    ensures t[i].count == Lookup(t, t[i].name)
  {
    if i > 0 {
      assert Names(t[1..]) == Names(t)[1..];
      assert Names(t)[0] != Names(t)[i];
      EntryIsLookup(t[1..], i - 1);
    }
  }

  /** Every entry of `Tally(xs)` holds the number of occurrences of its value in `xs`. */
  lemma TallyCounts(xs: seq<string>)
    ensures forall e :: e in Tally(xs) ==> e.count == multiset(xs)[e.name] > 0
  {
    var t := Tally(xs);
    forall e | e in t ensures e.count == multiset(xs)[e.name] > 0 {
      var i :| 0 <= i < |t| && t[i] == e;
      EntryIsLookup(t, i);
      assert Names(t)[i] in xs;
    }
  }

  predicate NonIncreasing(t: seq<Entry>) {
    forall i, j :: 0 <= i < j < |t| ==> t[i].count >= t[j].count
  }

  /** The entries of `t` with count `c`, in order. */
  function WithCount(t: seq<Entry>, c: nat): seq<Entry> {
    if t == [] then []
    else (if t[0].count == c then [t[0]] else []) + WithCount(t[1..], c)
  }

  /** Puts `e` in front of the first entry whose count is not greater than its own. */
  function Insert(e: Entry, t: seq<Entry>): (r: seq<Entry>)
    ensures multiset(r) == multiset(t) + multiset{e}
    ensures |r| == |t| + 1
  {
    if t == [] || e.count >= t[0].count then [e] + t
    else
      assert t == [t[0]] + t[1..];
      [t[0]] + Insert(e, t[1..])
  }

  lemma {:induction false} InsertNonIncreasing(e: Entry, t: seq<Entry>)
    requires NonIncreasing(t)
    ensures NonIncreasing(Insert(e, t))
  {
    if t == [] || e.count >= t[0].count {
      ConsNonIncreasing(e, t);
    } else {
      InsertNonIncreasing(e, t[1..]);
      InsertAtMost(e, t[1..], t[0].count);
      ConsNonIncreasing(t[0], Insert(e, t[1..]));
    }
  }

  /** No entry of `t` has a count above `c`. */
  predicate AtMost(t: seq<Entry>, c: nat) {
    forall k :: 0 <= k < |t| ==> t[k].count <= c
  }

  /** Inserting an entry of count at most `c` keeps every count at most `c`. */
  lemma {:induction false} InsertAtMost(e: Entry, t: seq<Entry>, c: nat)
    requires NonIncreasing(t) && AtMost(t, c) && e.count <= c
    ensures AtMost(Insert(e, t), c)
  {
    if t != [] && e.count < t[0].count {
      InsertAtMost(e, t[1..], c);
      var r := Insert(e, t);
      assert r == [t[0]] + Insert(e, t[1..]);
    }
  }

  /** A descending list stays descending under a first entry at least as large as all of it. */
  lemma ConsNonIncreasing(x: Entry, t: seq<Entry>)
    requires NonIncreasing(t)
    requires AtMost(t, x.count)
    ensures NonIncreasing([x] + t)
  {
    var r := [x] + t;
    forall i, j | 0 <= i < j < |r| ensures r[i].count >= r[j].count {
      assert r[j] == t[j - 1];
      if i > 0 {
        assert r[i] == t[i - 1];
      }
    }
  }

  /** Some entry of `t` is for value `x`. */
  predicate HasName(t: seq<Entry>, x: string) {
    exists i :: 0 <= i < |t| && t[i].name == x
  }

  /** No two entries of `t` are for the same value. */
  predicate DistinctNames(t: seq<Entry>) {
    forall i, j :: 0 <= i < j < |t| ==> t[i].name != t[j].name
  }

  /** Two permutations of each other hold entries for the same values. */
  lemma PermutationNames(r: seq<Entry>, t: seq<Entry>)
    requires multiset(r) == multiset(t)
    ensures forall x :: HasName(r, x) <==> HasName(t, x)
  {
    forall x ensures HasName(r, x) ==> HasName(t, x) {
      if HasName(r, x) {
        var i :| 0 <= i < |r| && r[i].name == x;
        assert r[i] in multiset(t);
        var j :| 0 <= j < |t| && t[j] == r[i];
      }
    }
    forall x ensures HasName(t, x) ==> HasName(r, x) {
      if HasName(t, x) {
        var i :| 0 <= i < |t| && t[i].name == x;
        assert t[i] in multiset(r);
        var j :| 0 <= j < |r| && r[j] == t[i];
      }
    }
  }

  lemma {:induction false} InsertDistinctNames(e: Entry, t: seq<Entry>)
    requires DistinctNames(t) && !HasName(t, e.name)
    ensures DistinctNames(Insert(e, t))
  {
    if t != [] && e.count < t[0].count {
      var rest := Insert(e, t[1..]);
      assert !HasName(t[1..], e.name);
      InsertDistinctNames(e, t[1..]);
      PermutationNames(rest, t[1..] + [e]);
      assert !HasName(t[1..] + [e], t[0].name);
    }
  }

  /** `sort_values(ascending=False)`, stable: a non-increasing permutation of `t`. */
  function SortDescending(t: seq<Entry>): (r: seq<Entry>)
    ensures multiset(r) == multiset(t)
    ensures |r| == |t|
  {
    if t == [] then []
    else
      assert t == [t[0]] + t[1..];
      Insert(t[0], SortDescending(t[1..]))
  }

  lemma {:induction false} SortDescendingNonIncreasing(t: seq<Entry>)
    ensures NonIncreasing(SortDescending(t))
  {
    if t != [] {
      SortDescendingNonIncreasing(t[1..]);
      InsertNonIncreasing(t[0], SortDescending(t[1..]));
    }
  }

  lemma {:induction false} SortDescendingDistinctNames(t: seq<Entry>)
    requires DistinctNames(t)
    ensures DistinctNames(SortDescending(t))
  {
    if t != [] {
      assert DistinctNames(t[1..]) by {
        forall i, j | 0 <= i < j < |t[1..]| ensures t[1..][i].name != t[1..][j].name {
          assert t[i + 1].name != t[j + 1].name;
        }
      }
      SortDescendingDistinctNames(t[1..]);
      var rest := SortDescending(t[1..]);
      PermutationNames(rest, t[1..]);
      assert !HasName(t[1..], t[0].name);
      InsertDistinctNames(t[0], rest);
    }
  }

  /** Sorting something already in non-increasing order changes nothing. */
  lemma {:induction false} SortDescendingOfSorted(t: seq<Entry>)
    requires NonIncreasing(t)
    ensures SortDescending(t) == t
  {
    if t != [] {
      SortDescendingOfSorted(t[1..]);
      assert t == [t[0]] + t[1..];
    }
  }

  lemma {:induction false} InsertStable(e: Entry, t: seq<Entry>, c: nat)
    ensures WithCount(Insert(e, t), c) == (if e.count == c then [e] else []) + WithCount(t, c)
  {
    if t == [] || e.count >= t[0].count {
      assert ([e] + t)[1..] == t;
    } else {
      var rest := Insert(e, t[1..]);
      assert ([t[0]] + rest)[1..] == rest;
      InsertStable(e, t[1..], c);
    }
  }

  /** The sort is stable: for each count, the entries having it keep their order. */
  lemma {:induction false} SortDescendingStable(t: seq<Entry>, c: nat)
    ensures WithCount(SortDescending(t), c) == WithCount(t, c)
  {
    if t != [] {
      SortDescendingStable(t[1..], c);
      InsertStable(t[0], SortDescending(t[1..]), c);
    }
  }

  /** Distinct names of a list of entries, as `DistinctNames` states them. */
  lemma NamesDistinct(t: seq<Entry>)
    requires NoDuplicates(Names(t))
    ensures DistinctNames(t)
  {
    forall i, j | 0 <= i < j < |t| ensures t[i].name != t[j].name {
      assert Names(t)[i] != Names(t)[j];
    }
  }

  /** `value_counts()`: the tally sorted by descending count, ties in first-seen order. */
  function ValueCounts(xs: seq<string>): (r: seq<Entry>)
    ensures NonIncreasing(r)
    ensures |r| == |Distinct(xs)|
    ensures DistinctNames(r)
    ensures forall x :: HasName(r, x) <==> x in xs
    ensures forall k :: 0 <= k < |r| ==> r[k].count == multiset(xs)[r[k].name] > 0
  {
    var t := Tally(xs);
    var r := SortDescending(t);
    ValueCountsFacts(xs, t, r);
    r
  }

  /** When the first-seen tally is already in descending order, `value_counts` is that tally. */
  lemma ValueCountsOfSortedTally(xs: seq<string>, t: seq<Entry>)
    requires Tally(xs) == t && NonIncreasing(t)
    ensures ValueCounts(xs) == t
  {
    SortDescendingOfSorted(t);
  }

  /** The tally has an entry for a value exactly when the value occurs. */
  lemma TallyHasName(xs: seq<string>)
    ensures forall x :: HasName(Tally(xs), x) <==> x in xs
  {
    var t := Tally(xs);
    forall x ensures HasName(t, x) <==> x in xs {
      if HasName(t, x) {
        var i :| 0 <= i < |t| && t[i].name == x;
        assert Names(t)[i] == x;
      }
      if x in xs {
        assert x in Names(t);
        var i :| 0 <= i < |t| && Names(t)[i] == x;
      }
    }
  }

  /** Sorting keeps every entry, so each count is still its value's number of occurrences. */
  lemma SortedCounts(xs: seq<string>, r: seq<Entry>)
    requires multiset(r) == multiset(Tally(xs))
    ensures forall k :: 0 <= k < |r| ==> r[k].count == multiset(xs)[r[k].name] > 0
  {
    TallyCounts(xs);
    forall k | 0 <= k < |r| ensures r[k].count == multiset(xs)[r[k].name] > 0 {
      assert r[k] in multiset(Tally(xs));
    }
  }

  lemma ValueCountsFacts(xs: seq<string>, t: seq<Entry>, r: seq<Entry>)
    requires t == Tally(xs) && r == SortDescending(t)
    ensures NonIncreasing(r)
    ensures DistinctNames(r)
    ensures forall x :: HasName(r, x) <==> x in xs
    ensures forall k :: 0 <= k < |r| ==> r[k].count == multiset(xs)[r[k].name] > 0
  {
    SortDescendingNonIncreasing(t);
    NamesDistinct(t);
    SortDescendingDistinctNames(t);
    PermutationNames(r, t);
    TallyHasName(xs);
    SortedCounts(xs, r);
  }

  /** Entries with equal counts appear in `value_counts()` in first-seen order. */
  lemma ValueCountsTiesFirstSeen(xs: seq<string>, c: nat)
    ensures WithCount(ValueCounts(xs), c) == WithCount(Tally(xs), c)
  {
    SortDescendingStable(Tally(xs), c);
  }

  /** `head(n)`: the first `n` entries, or all of them when there are fewer. */
  function Head(t: seq<Entry>, n: nat): (r: seq<Entry>)
    ensures |r| == if |t| < n then |t| else n
    ensures r == t[..|r|]
  {
    if |t| < n then t else t[..n]
  }

  /** A prefix keeps the order and the distinctness of the names. */
  lemma HeadKeepsOrder(t: seq<Entry>, n: nat)
    ensures NonIncreasing(t) ==> NonIncreasing(Head(t, n))
    ensures DistinctNames(t) ==> DistinctNames(Head(t, n))
  {
    var h := Head(t, n);
    assert forall k :: 0 <= k < |h| ==> h[k] == t[k];
  }

  /**
   * In a non-increasing list, an entry that `head(n)` leaves out has a count no
   * greater than the last entry kept.
   */
  lemma HeadOmitted(t: seq<Entry>, n: nat, k: nat)
    requires NonIncreasing(t) && n > 0 && k < |t|
    requires !HasName(Head(t, n), t[k].name)
    ensures var h := Head(t, n); t[k].count <= h[|h| - 1].count
  {
    var h := Head(t, n);
    assert forall j :: 0 <= j < |h| ==> h[j] == t[j];
    assert k >= |h|;
    assert h[|h| - 1] == t[|h| - 1];
  }
}
