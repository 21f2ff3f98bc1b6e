/**
 * The few Python `str` operations the dashboards use, over `seq<char>`:
 * `isspace`, `strip`, `split(sep)`, `split()`, `sep.join`, the `in` substring test,
 * and `int()` restricted to plain decimal digit strings.
 */
module PyStrings {
  import opened Seqs

  /** Python's `str.isspace()` for a single character. */
  predicate IsSpace(c: char) {
    || c == ' '
    || ('\U{9}' <= c <= '\U{D}')
    || ('\U{1C}' <= c <= '\U{1F}')
    || c == '\U{85}' || c == '\U{A0}' || c == '\U{1680}'
    || ('\U{2000}' <= c <= '\U{200A}')
    || c == '\U{2028}' || c == '\U{2029}' || c == '\U{202F}' || c == '\U{205F}' || c == '\U{3000}'
  }

  predicate AllSpace(s: string) {
    forall i :: 0 <= i < |s| ==> IsSpace(s[i])
  }

  lemma AllSpaceCons(c: char, s: string)
    requires IsSpace(c) && AllSpace(s)
    ensures AllSpace([c] + s)
  {
    assert forall i :: 1 <= i < |s| + 1 ==> ([c] + s)[i] == s[i - 1];
  }

  lemma AllSpaceSnoc(s: string, c: char)
    requires AllSpace(s) && IsSpace(c)
    ensures AllSpace(s + [c])
  {
    assert forall i :: 0 <= i < |s| ==> (s + [c])[i] == s[i];
  }

  /** `s.lstrip()`: drops the leading whitespace and nothing else. */
  function StripLeft(s: string): (r: string)
    ensures |r| <= |s| && r == s[|s| - |r|..]
    ensures AllSpace(s[..|s| - |r|])
    ensures r == [] || !IsSpace(r[0])
  {
    if s != [] && IsSpace(s[0]) then
      var r := StripLeft(s[1..]);
      assert s[..|s| - |r|] == [s[0]] + s[1..][..|s| - 1 - |r|];
      AllSpaceCons(s[0], s[1..][..|s| - 1 - |r|]);
      r
    else s
  }

  /** `s.rstrip()`: drops the trailing whitespace and nothing else. */
  function StripRight(s: string): (r: string)
    ensures |r| <= |s| && r == s[..|r|]
    ensures AllSpace(s[|r|..])
    ensures r == [] || !IsSpace(r[|r| - 1])
  {
    if s != [] && IsSpace(s[|s| - 1]) then
      var r := StripRight(s[..|s| - 1]);
      assert s[|r|..] == s[..|s| - 1][|r|..] + [s[|s| - 1]];
      AllSpaceSnoc(s[..|s| - 1][|r|..], s[|s| - 1]);
      r
    else s
  }

  /** `r` sits at offset `lo` of `s` with only whitespace before and after it. */
  predicate Padded(s: string, r: string, lo: int) {
    0 <= lo <= |s| - |r| && r == s[lo..lo + |r|]
    && AllSpace(s[..lo]) && AllSpace(s[lo + |r|..])
  }

  /** Whitespace around a right-stripped suffix of `s` makes `r` a padded slice of `s`. */
  lemma StripPadded(s: string, l: string, r: string)
    requires |l| <= |s| && l == s[|s| - |l|..] && AllSpace(s[..|s| - |l|])
    requires |r| <= |l| && r == l[..|r|] && AllSpace(l[|r|..])
    ensures Padded(s, r, |s| - |l|)
  {
    var lo := |s| - |l|;
    assert r == s[lo..lo + |r|];
    assert s[lo + |r|..] == l[|r|..];
  }

  /** Neither end of `t` is whitespace. */
  predicate Trimmed(t: string) {
    t == [] || (!IsSpace(t[0]) && !IsSpace(t[|t| - 1]))
  }

  /** `s.strip()`: never longer than `s`, and without whitespace at either end. */
  function Strip(s: string): (r: string)
    ensures |r| <= |s| && Trimmed(r)
  {
    var l := StripLeft(s);
    var r := StripRight(l);
    assert r == [] || r[0] == l[0];
    r
  }

  /** `s.strip()` is `s` with exactly its surrounding whitespace removed. */
  lemma StripSpec(s: string)
    ensures exists lo :: Padded(s, Strip(s), lo)
  {
    var l := StripLeft(s);
    var r := StripRight(l);
    StripPadded(s, l, r);
    assert Strip(s) == r;
  }

  /** Stripping adds no character: one `s` lacks, `s.strip()` lacks too. */
  lemma StripAbsent(s: string, c: char)
    requires c !in s
    ensures c !in Strip(s)
  {
    StripSpec(s);
    var lo :| Padded(s, Strip(s), lo);
    SliceAbsent(s, lo, lo + |Strip(s)|, c);
  }

  lemma SliceAbsent(s: string, lo: int, hi: int, c: char)
    requires 0 <= lo <= hi <= |s| && c !in s
    ensures c !in s[lo..hi]
  {
    forall k | 0 <= k < hi - lo
      ensures s[lo..hi][k] != c
    {
      assert s[lo..hi][k] == s[lo + k];
    }
  }

  lemma StripLeftSpace(c: char, s: string)
    requires IsSpace(c)
    ensures StripLeft([c] + s) == StripLeft(s)
  {
    assert ([c] + s)[1..] == s;
  }

  /** `" B".lstrip()` is `"B"`. */
  lemma StripLeftExample()
    ensures StripLeft(" B") == "B"
  {
    assert IsSpace(' ');
    assert " B" == [' '] + "B";
    StripLeftSpace(' ', "B");
    assert !IsSpace('B');
  }

  /** Strings without whitespace are kept by `lstrip` and `rstrip`. */
  lemma StripRightExample()
    ensures StripRight("B") == "B" && StripRight("A") == "A" && StripLeft("A") == "A"
  {
    assert !IsSpace('B') && !IsSpace('A');
  }

  /** Stripped pieces lack whatever character the pieces lacked, and are trimmed. */
  lemma StripEachClean(ts: seq<string>, c: char)
    requires forall k :: 0 <= k < |ts| ==> c !in ts[k]
    ensures forall k :: 0 <= k < |ts| ==> c !in StripEach(ts)[k] && Trimmed(StripEach(ts)[k])
  {
    forall k | 0 <= k < |ts|
      ensures c !in StripEach(ts)[k]
    {
      StripAbsent(ts[k], c);
    }
  }

  /** `[t.strip() for t in ts]` */
  function StripEach(ts: seq<string>): (r: seq<string>)
    ensures |r| == |ts|
    ensures forall i :: 0 <= i < |ts| ==> r[i] == Strip(ts[i])
  {
    seq(|ts|, i requires 0 <= i < |ts| => Strip(ts[i]))
  }

  /** Stripping a list of two pieces strips each one. */
  lemma StripEachPair(a: string, b: string)
    ensures StripEach([a, b]) == [Strip(a), Strip(b)]
    ensures StripEach([a]) == [Strip(a)]
  {
    var r := StripEach([a, b]);
    ListOfTwo(r, Strip(a), Strip(b));
    var q := StripEach([a]);
    ListOfOne(q, Strip(a));
  }

  /** `sep.join(parts)` */
  function Join(parts: seq<string>, sep: string): (r: string)
    ensures parts == [] ==> r == ""
    ensures parts != [] ==> |r| == TotalLength(parts) + (|parts| - 1) * |sep| && parts[0] <= r
  {
    if |parts| == 0 then ""
    else if |parts| == 1 then parts[0]
    else parts[0] + sep + Join(parts[1..], sep)
  }

  /** The summed lengths of the strings of `parts`. */
  function TotalLength(parts: seq<string>): nat {
    if parts == [] then 0 else |parts[0]| + TotalLength(parts[1..])
  }

  /**
   * `s.split(sep)` for a non-empty separator: cut at every occurrence of `sep`,
   * scanning left to right without overlap. The result is never empty
   * (`"".split(sep) == [""]`).
   */
  function Split(s: string, sep: string): (parts: seq<string>)
    requires sep != []
    ensures |parts| >= 1
    decreases |s|
  {
    if |s| < |sep| then [s]
    else if s[..|sep|] == sep then [""] + Split(s[|sep|..], sep)
    else
      var rest := Split(s[1..], sep);
      [[s[0]] + rest[0]] + rest[1..]
  }

  /** The pieces of every string of `ss` split on `sep`, in order. */
  function SplitEach(ss: seq<string>, sep: string): seq<string>
    requires sep != []
  {
    if ss == [] then [] else Split(ss[0], sep) + SplitEach(ss[1..], sep)
  }

  lemma {:induction false} JoinPrefixed(c: char, parts: seq<string>, sep: string)
    requires |parts| >= 1
    ensures Join([[c] + parts[0]] + parts[1..], sep) == [c] + Join(parts, sep)
  {
    var q := [[c] + parts[0]] + parts[1..];
    if |parts| > 1 {
      assert q[1..] == parts[1..];
    }
  }

  /** Joining the pieces of a split gives back the string: `sep.join(s.split(sep)) == s`. */
  lemma {:induction false} JoinSplit(s: string, sep: string)
    requires sep != []
    ensures Join(Split(s, sep), sep) == s
    decreases |s|
  {
    if |s| < |sep| {
    } else if s[..|sep|] == sep {
      var rest := Split(s[|sep|..], sep);
      JoinSplit(s[|sep|..], sep);
      JoinEmptyFirst(rest, sep);
      PrefixThenRest(s, sep);
    } else {
      var rest := Split(s[1..], sep);
      JoinSplit(s[1..], sep);
      JoinPrefixed(s[0], rest, sep);
      HeadThenTail(s);
    }
  }

  /** An empty first piece contributes only the separator. */
  lemma JoinEmptyFirst(rest: seq<string>, sep: string)
    requires |rest| >= 1
    ensures Join([""] + rest, sep) == sep + Join(rest, sep)
  {
    var parts := [""] + rest;
    assert parts[1..] == rest;
  }

  /** Prepends `c` to the first piece of a split. */
  function PrependToFirst(c: char, parts: seq<string>): seq<string>
    requires |parts| >= 1
  {
    [[c] + parts[0]] + parts[1..]
  }

  lemma PrependToFirstAppend(c: char, x: seq<string>, y: seq<string>)
    requires |x| >= 1
    ensures PrependToFirst(c, x + y) == PrependToFirst(c, x) + y
  {
    assert (x + y)[0] == x[0];
    assert (x + y)[1..] == x[1..] + y;
  }

  /** The unfolding of `Split` when `s` does not start with `sep`. */
  lemma SplitNoPrefix(s: string, sep: string)
    requires sep != [] && |s| >= 1
    requires |s| < |sep| || s[..|sep|] != sep
    ensures |s| >= |sep| ==> Split(s, sep) == PrependToFirst(s[0], Split(s[1..], sep))
    ensures |s| < |sep| ==> Split(s, sep) == [s]
  {
  }

  /** One step of `Split` on a one-character separator. */
  lemma SplitOnChar(s: string, c: char)
    ensures s == [] ==> Split(s, [c]) == [""]
    ensures s != [] && s[0] == c ==> Split(s, [c]) == [""] + Split(s[1..], [c])
    ensures s != [] && s[0] != c ==> Split(s, [c]) == PrependToFirst(s[0], Split(s[1..], [c]))
  {
    if s != [] && s[0] != c {
      assert s[..1][0] != [c][0];
    }
    if s != [] && s[0] == c {
      assert s[..1] == [c];
    }
  }

  /** The first piece of a split is a prefix of the string split. */
  lemma {:induction false} SplitFirstPrefix(s: string, sep: string)
    requires sep != []
    ensures var w := Split(s, sep)[0]; |w| <= |s| && w == s[..|w|]
    decreases |s|
  {
    if |s| < |sep| {
      assert s[..|s|] == s;
    } else if s[..|sep|] != sep {
      SplitFirstPrefix(s[1..], sep);
      SplitNoPrefix(s, sep);
      PrefixCons(s[0], Split(s[1..], sep)[0], s[1..]);
      assert [s[0]] + s[1..] == s;
    }
  }

  lemma PrefixCons(c: char, w: string, t: string)
    requires |w| <= |t| && w == t[..|w|]
    ensures [c] + w == ([c] + t)[..|w| + 1]
  {
  }

  /** No piece of `s.split(sep)` contains `sep`. */
  lemma {:induction false} SplitPiecesFree(s: string, sep: string)
    requires sep != []
    ensures forall k :: 0 <= k < |Split(s, sep)| ==> !Contains(Split(s, sep)[k], sep)
    decreases |s|
  {
    var parts := Split(s, sep);
    if |s| < |sep| {
    } else if s[..|sep|] == sep {
      SplitPiecesFree(s[|sep|..], sep);
      assert forall k :: 1 <= k < |parts| ==> parts[k] == Split(s[|sep|..], sep)[k - 1];
      assert !Contains(parts[0], sep);
    } else {
      var rest := Split(s[1..], sep);
      SplitPiecesFree(s[1..], sep);
      assert forall k :: 1 <= k < |parts| ==> parts[k] == rest[k];
      FirstPieceFree(s, sep, rest[0]);
    }
  }

  /** The first piece when `s` does not start with `sep`: `s[0]` glued to a free piece. */
  lemma FirstPieceFree(s: string, sep: string, w: string)
    requires sep != [] && |s| >= |sep| && s[..|sep|] != sep
    requires w == Split(s[1..], sep)[0] && !Contains(w, sep)
    ensures !Contains([s[0]] + w, sep)
  {
    var v := [s[0]] + w;
    SplitFirstPrefix(s[1..], sep);
    assert v == s[..|v|] by {
      assert s[..|w| + 1] == [s[0]] + s[1..][..|w|];
    }
    forall i
      ensures !OccursAt(v, sep, i)
    {
      if i >= 1 {
        OccursAtCons(s[0], w, sep, i);
      } else if |v| >= |sep| {
        assert v[..|sep|] == s[..|sep|];
      }
    }
  }

  /** An occurrence past the first character of `[c] + w` is one in `w`. */
  lemma OccursAtCons(c: char, w: string, sub: string, i: int)
    requires i >= 1
    ensures OccursAt([c] + w, sub, i) <==> OccursAt(w, sub, i - 1)
  {
    if 0 <= i - 1 <= |w| - |sub| {
      assert ([c] + w)[i..i + |sub|] == w[i - 1..i - 1 + |sub|];
    }
  }

  /** `s.split(c)` has one piece more than `s` has occurrences of `c`. */
  lemma {:induction false} SplitCountChar(s: string, c: char)
    ensures |Split(s, [c])| == multiset(s)[c] + 1
    decreases |s|
  {
    SplitOnChar(s, c);
    if s != [] {
      SplitCountChar(s[1..], c);
      assert s == [s[0]] + s[1..];
      assert multiset(s) == multiset([s[0]]) + multiset(s[1..]);
    }
  }

  /** No piece of `s.split(c)` contains the character `c`. */
  lemma SplitPiecesFreeChar(s: string, c: char)
    ensures forall k :: 0 <= k < |Split(s, [c])| ==> c !in Split(s, [c])[k]
  {
    var parts := Split(s, [c]);
    SplitPiecesFree(s, [c]);
    forall k, i | 0 <= k < |parts| && 0 <= i < |parts[k]|
      ensures parts[k][i] != c
    {
      if parts[k][i] == c {
        assert OccursAt(parts[k], [c], i);
      }
    }
  }

  /**
   * With the separator `", "`, an occurrence can never straddle the boundary of a
   * joined piece, so splitting a joined pair splits each half on its own.
   */
  lemma {:induction false} SplitAroundSeparator(a: string, b: string)
    ensures Split(a + ", " + b, ", ") == Split(a, ", ") + Split(b, ", ")
    decreases |a|
  {
    if |a| == 0 {
      SplitAroundEmpty(b);
    } else if |a| >= 2 && a[..2] == ", " {
      SplitAroundSeparator(a[2..], b);
      SplitAroundLeadingSeparator(a, b);
    } else {
      SplitAroundSeparator(a[1..], b);
      SplitAroundFirstChar(a, b);
    }
  }

  /** The step of `SplitAroundSeparator` where `a` is empty. */
  lemma SplitAroundEmpty(b: string)
    ensures Split([] + ", " + b, ", ") == Split([], ", ") + Split(b, ", ")
  {
    var s := [] + ", " + b;
    assert s[..2] == ", " && s[2..] == b;
  }

  /** The step of `SplitAroundSeparator` where `a` starts with the separator. */
  lemma SplitAroundLeadingSeparator(a: string, b: string)
    requires |a| >= 2 && a[..2] == ", "
    requires Split(a[2..] + ", " + b, ", ") == Split(a[2..], ", ") + Split(b, ", ")
    ensures Split(a + ", " + b, ", ") == Split(a, ", ") + Split(b, ", ")
  {
    var s := a + ", " + b;
    assert s[..2] == a[..2];
    assert s[2..] == a[2..] + ", " + b;
    assert Split(s, ", ") == [""] + Split(s[2..], ", ");
    assert Split(a, ", ") == [""] + Split(a[2..], ", ");
    ConsAppend("", Split(a[2..], ", "), Split(b, ", "));
  }

  /** The step of `SplitAroundSeparator` where `a` does not start with the separator. */
  lemma SplitAroundFirstChar(a: string, b: string)
    requires |a| >= 1 && (|a| < 2 || a[..2] != ", ")
    requires Split(a[1..] + ", " + b, ", ") == Split(a[1..], ", ") + Split(b, ", ")
    ensures Split(a + ", " + b, ", ") == Split(a, ", ") + Split(b, ", ")
  {
    var sep := ", ";
    var s := a + sep + b;
    assert s[..2] != sep by {
      if |a| == 1 { assert s[1] == ','; } else { assert s[..2] == a[..2]; }
    }
    assert s[0] == a[0];
    assert s[1..] == a[1..] + sep + b;
    SplitNoPrefix(s, sep);
    PrependToFirstAppend(a[0], Split(a[1..], sep), Split(b, sep));
    SplitNoPrefix(a, sep);
    if |a| < 2 {
      assert a[1..] == [];
      assert Split(a[1..], sep) == [""];
      assert [a[0]] + "" == a;
    }
  }

  /**
   * `", ".join(ss).split(", ")` yields the same tokens, in the same order, as
   * splitting every string of a non-empty `ss` on its own.
   */
  lemma {:induction false} SplitJoinedList(ss: seq<string>)
    requires |ss| >= 1
    ensures Split(Join(ss, ", "), ", ") == SplitEach(ss, ", ")
  {
    if |ss| == 1 {
      assert SplitEach(ss[1..], ", ") == [];
    } else {
      SplitJoinedList(ss[1..]);
      SplitAroundSeparator(ss[0], Join(ss[1..], ", "));
    }
  }

  /** `sub` occurs in `s` starting at index `i`. */
  predicate OccursAt(s: string, sub: string, i: int) {
    0 <= i <= |s| - |sub| && s[i..i + |sub|] == sub
  }

  /** The substring test `sub in s`. */
  function Contains(s: string, sub: string): (b: bool)
    ensures b <==> exists i :: OccursAt(s, sub, i)
    decreases |s|
  {
    if |sub| > |s| then false
    else if s[..|sub|] == sub then assert OccursAt(s, sub, 0); true
    else
      var b := Contains(s[1..], sub);
      assert forall i :: OccursAt(s[1..], sub, i) <==> OccursAt(s, sub, i + 1) by {
        forall i ensures OccursAt(s[1..], sub, i) <==> OccursAt(s, sub, i + 1) {
          if 0 <= i <= |s| - 1 - |sub| { assert s[1..][i..i + |sub|] == s[i + 1..i + 1 + |sub|]; }
        }
      }
      assert !OccursAt(s, sub, 0);
      assert (exists i :: OccursAt(s, sub, i)) ==> exists i :: OccursAt(s[1..], sub, i) by {
        if exists i :: OccursAt(s, sub, i) {
          var i :| OccursAt(s, sub, i);
          assert i >= 1 && OccursAt(s[1..], sub, i - 1);
        }
      }
      b
  }

  /** The first run of non-whitespace characters of `s`. */
  function TakeWord(s: string): (w: string)
    ensures |w| <= |s| && w == s[..|w|]
    ensures forall i :: 0 <= i < |w| ==> !IsSpace(w[i])
    ensures |w| == |s| || IsSpace(s[|w|])
  {
    if s == [] || IsSpace(s[0]) then [] else [s[0]] + TakeWord(s[1..])
  }

  /** `s.split()[0]` when `s` has a non-whitespace character; empty otherwise. */
  function FirstWord(s: string): string {
    TakeWord(StripLeft(s))
  }

  /** `w` sits at offset `lo` of `s`, after whitespace only, and ends `s` or a whitespace. */
  predicate WordAt(s: string, w: string, lo: int) {
    0 <= lo <= |s| - |w| && w == s[lo..lo + |w|] && AllSpace(s[..lo])
    && (lo + |w| == |s| || IsSpace(s[lo + |w|]))
  }

  /**
   * The first word has no whitespace in it, is empty exactly when `s` is all
   * whitespace, sits in `s` after whitespace only, and is followed by whitespace or
   * by the end of `s`.
   */
  lemma FirstWordSpec(s: string)
    ensures forall i :: 0 <= i < |FirstWord(s)| ==> !IsSpace(FirstWord(s)[i])
    ensures FirstWord(s) == [] <==> AllSpace(s)
    ensures exists lo :: WordAt(s, FirstWord(s), lo)
  {
    var l := StripLeft(s);
    var w := TakeWord(l);
    var lo := |s| - |l|;
    assert l == [] ==> s[..|s|] == s;
    assert FirstWord(s) == w;
    assert w == s[lo..lo + |w|];
    assert lo + |w| < |s| ==> s[lo + |w|] == l[|w|];
    assert WordAt(s, w, lo);
  }

  predicate IsDigit(c: char) {
    '0' <= c <= '9'
  }

  /** A non-empty string of decimal digits: the only form of `int()` argument modelled. */
  predicate IsDigits(s: string) {
    s != [] && forall i :: 0 <= i < |s| ==> IsDigit(s[i])
  }

  function Pow10(n: nat): (p: nat)
    ensures p >= 1
  {
    if n == 0 then 1 else 10 * Pow10(n - 1)
  }

  /** The value of a decimal digit string. */
  function DigitsValue(s: string): nat
    requires forall i :: 0 <= i < |s| ==> IsDigit(s[i])
  {
    if s == [] then 0
    else
      assert IsDigit(s[|s| - 1]);
      10 * DigitsValue(s[..|s| - 1]) + (s[|s| - 1] as int - '0' as int)
  }

  /**
   * A decimal digit string is worth less than `10^|s|`, and at least `10^(|s|-1)` when
   * its first digit is not `0`.
   */
  lemma {:induction false} DigitsValueBounds(s: string)
    requires forall i :: 0 <= i < |s| ==> IsDigit(s[i])
    ensures DigitsValue(s) < Pow10(|s|)
    ensures s != [] && s[0] != '0' ==> Pow10(|s| - 1) <= DigitsValue(s)
    decreases |s|
  {
    if s != [] {
      var p := s[..|s| - 1];
      assert |s| >= 2 ==> p[0] == s[0];
      assert IsDigit(s[|s| - 1]);
      DigitsValueBounds(p);
    }
  }

  /** Decimal representation of a natural number, as `str(n)` writes it. */
  function ShowNat(n: nat): (s: string)
    ensures IsDigits(s)
  {
    if n < 10 then [('0' as int + n) as char]
    else ShowNat(n / 10) + [('0' as int + n % 10) as char]
  }

  /** `str(int(s)) == s` for a digit string without a leading zero. */
  lemma {:induction false} ShowNatDigitsValue(s: string)
    requires IsDigits(s) && (|s| == 1 || s[0] != '0')
    ensures ShowNat(DigitsValue(s)) == s
    decreases |s|
  {
    var d := s[|s| - 1] as int - '0' as int;
    if |s| == 1 {
      assert s == [s[0]];
      assert DigitsValue(s[..0]) == 0;
    } else {
      var p := s[..|s| - 1];
      assert p[0] == s[0];
      ShowNatDigitsValue(p);
      DigitsValueBounds(p);
      var v := DigitsValue(s);
      assert v == 10 * DigitsValue(p) + d;
      assert v / 10 == DigitsValue(p) && v % 10 == d;
      assert s == p + [s[|s| - 1]];
    }
  }

  /** `int(str(n)) == n`. */
  lemma {:induction false} DigitsValueShowNat(n: nat)
    ensures DigitsValue(ShowNat(n)) == n
  {
    var s := ShowNat(n);
    if n >= 10 {
      DigitsValueShowNat(n / 10);
      assert s[..|s| - 1] == ShowNat(n / 10);
    } else {
      assert s[..|s| - 1] == [];
    }
  }
}
