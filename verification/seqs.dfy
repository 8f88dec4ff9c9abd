/** Selection and counting over sequences, the two things the backend's
    table code does with a boolean mask. */
module Seqs {
  import opened Wrappers

  /** Position of the first element that passes `p`. */
  function FirstIndex<T>(s: seq<T>, p: T -> bool): (r: Option<nat>)
    ensures r.None? <==> forall i :: 0 <= i < |s| ==> !p(s[i])
    ensures r.Some? ==> r.value < |s| && p(s[r.value])
    ensures r.Some? ==> forall j :: 0 <= j < r.value ==> !p(s[j])
  {
    if |s| == 0 then None
    else if p(s[0]) then Some(0)
    else
      match FirstIndex(s[1..], p)
      case Some(i) => Some(i + 1)
      case None => None
  }

  /** Looking at one more element keeps a position already found, and
      otherwise takes the new element if it passes. */
  lemma {:induction false} FirstIndexSnoc<T>(s: seq<T>, x: T, p: T -> bool)
    ensures FirstIndex(s + [x], p) ==
      if FirstIndex(s, p).Some? then FirstIndex(s, p) else if p(x) then Some(|s|) else None
    decreases |s|
  {
    var t := s + [x];
    if |s| == 0 {
      assert t == [x] && t[1..] == [];
    } else {
      assert t[0] == s[0] && t[1..] == s[1..] + [x];
      FirstIndexSnoc(s[1..], x, p);
    }
  }

  /** Two tests that agree on every element find the same first position. */
  lemma {:induction false} FirstIndexAgree<T>(s: seq<T>, p: T -> bool, q: T -> bool)
    requires forall i :: 0 <= i < |s| ==> p(s[i]) == q(s[i])
    ensures FirstIndex(s, p) == FirstIndex(s, q)
    decreases |s|
  {
    if |s| > 0 && !p(s[0]) {
      assert forall i :: 0 <= i < |s| - 1 ==> s[1..][i] == s[i + 1];
      FirstIndexAgree(s[1..], p, q);
    }
  }

  /** Position of the last element that passes `p`. */
  function LastIndex<T>(s: seq<T>, p: T -> bool): (r: Option<nat>)
    ensures r.None? <==> forall i :: 0 <= i < |s| ==> !p(s[i])
    ensures r.Some? ==> r.value < |s| && p(s[r.value])
    ensures r.Some? ==> forall j :: r.value < j < |s| ==> !p(s[j])
  {
    if |s| == 0 then None
    else if p(s[|s| - 1]) then Some(|s| - 1)
    else LastIndex(s[..|s| - 1], p)
  }

  /** The elements of `s` that satisfy `keep`, in their original order. */
  function Filter<T>(s: seq<T>, keep: T -> bool): (r: seq<T>)
    ensures |r| <= |s| && |r| == Count(s, keep)
    ensures forall i :: 0 <= i < |r| ==> keep(r[i])
  {
    if |s| == 0 then []
    else
      var r := Filter(s[1..], keep);
      if keep(s[0]) then [s[0]] + r else r
  }

  /** How many elements of `s` satisfy `keep`. */
  function Count<T>(s: seq<T>, keep: T -> bool): nat
  {
    if |s| == 0 then 0
    else (if keep(s[0]) then 1 else 0) + Count(s[1..], keep)
  }

  /** Selection keeps exactly the elements that pass: everything selected
      comes from `s`, and everything in `s` that passes is selected. */
  lemma {:induction false} FilterMembers<T>(s: seq<T>, keep: T -> bool)
    ensures forall i :: 0 <= i < |Filter(s, keep)| ==> Filter(s, keep)[i] in s
    ensures forall i :: 0 <= i < |s| && keep(s[i]) ==> s[i] in Filter(s, keep)
    decreases |s|
  {
    if |s| > 0 {
      var t := s[1..];
      FilterMembers(t, keep);
      assert s == [s[0]] + t;
      forall i | 0 < i < |s| && keep(s[i]) ensures s[i] in Filter(s, keep) {
        assert s[i] == t[i - 1];
      }
    }
  }

  /** Nothing is selected when no element passes. */
  lemma {:induction false} FilterNone<T>(s: seq<T>, keep: T -> bool)
    requires forall i :: 0 <= i < |s| ==> !keep(s[i])
    ensures Filter(s, keep) == []
    decreases |s|
  {
    if |s| > 0 {
      assert !keep(s[0]);
      assert forall i :: 0 <= i < |s| - 1 ==> s[1..][i] == s[i + 1];
      FilterNone(s[1..], keep);
    }
  }

  /** Selecting from a sequence with one more element in front. */
  lemma FilterCons<T>(x: T, s: seq<T>, keep: T -> bool)
    ensures Filter([x] + s, keep) == (if keep(x) then [x] else []) + Filter(s, keep)
  {
    assert ([x] + s)[1..] == s;
  }

  /** Counting a sequence with one more element in front. */
  lemma CountCons<T>(x: T, s: seq<T>, keep: T -> bool)
    ensures Count([x] + s, keep) == (if keep(x) then 1 else 0) + Count(s, keep)
  {
    assert ([x] + s)[1..] == s;
  }

  /** Selecting from a concatenation selects from each part in turn. */
  lemma {:induction false} FilterAppend<T>(a: seq<T>, b: seq<T>, keep: T -> bool)
    ensures Filter(a + b, keep) == Filter(a, keep) + Filter(b, keep)
    decreases |a|
  {
    if |a| == 0 {
      assert a + b == b;
    } else {
      assert a + b == [a[0]] + (a[1..] + b);
      FilterCons(a[0], a[1..] + b, keep);
      FilterAppend(a[1..], b, keep);
      assert a == [a[0]] + a[1..];
      FilterCons(a[0], a[1..], keep);
    }
  }

  /** Counting over a concatenation adds the counts of the parts. */
  lemma {:induction false} CountAppend<T>(a: seq<T>, b: seq<T>, keep: T -> bool)
    ensures Count(a + b, keep) == Count(a, keep) + Count(b, keep)
    decreases |a|
  {
    if |a| == 0 {
      assert a + b == b;
    } else {
      assert (a + b)[1..] == a[1..] + b;
      CountAppend(a[1..], b, keep);
    }
  }

  /** Two tests that agree on every element of `s` count the same. */
  lemma {:induction false} CountAgree<T>(s: seq<T>, f: T -> bool, g: T -> bool)
    requires forall i :: 0 <= i < |s| ==> f(s[i]) == g(s[i])
    ensures Count(s, f) == Count(s, g)
    decreases |s|
  {
    if |s| > 0 {
      assert forall i :: 0 <= i < |s| - 1 ==> s[1..][i] == s[i + 1];
      CountAgree(s[1..], f, g);
    }
  }

  /** A test that some element passes counts at least one. */
  lemma {:induction false} CountPositive<T>(s: seq<T>, keep: T -> bool, i: nat)
    requires i < |s| && keep(s[i])
    ensures Count(s, keep) >= 1
    decreases |s|
  {
    if i > 0 {
      assert s[1..][i - 1] == s[i];
      CountPositive(s[1..], keep, i - 1);
    }
  }

  /** Selecting from elements that all pass keeps all of them. */
  lemma {:induction false} FilterAll<T>(s: seq<T>, keep: T -> bool)
    requires forall i :: 0 <= i < |s| ==> keep(s[i])
    ensures Filter(s, keep) == s
    decreases |s|
  {
    if |s| > 0 {
      assert forall i :: 0 <= i < |s| - 1 ==> s[1..][i] == s[i + 1];
      FilterAll(s[1..], keep);
      assert s == [s[0]] + s[1..];
    }
  }

  /** Selecting drops exactly the element at `i` when it is the only one
      that fails. */
  lemma {:induction false} FilterDropOne<T>(s: seq<T>, keep: T -> bool, i: nat)
    requires i < |s| && !keep(s[i])
    requires forall k :: 0 <= k < |s| && k != i ==> keep(s[k])
    ensures Filter(s, keep) == s[..i] + s[i + 1..]
    decreases |s|
  {
    var t := s[1..];
    assert forall k :: 0 <= k < |t| ==> t[k] == s[k + 1];
    if i == 0 {
      FilterAll(t, keep);
    } else {
      FilterDropOne(t, keep, i - 1);
      assert [s[0]] + (t[..i - 1] + t[i..]) == s[..i] + s[i + 1..];
    }
  }

  /** Counting one more element. */
  lemma CountSnoc<T>(s: seq<T>, x: T, keep: T -> bool)
    ensures Count(s + [x], keep) == Count(s, keep) + (if keep(x) then 1 else 0)
  {
    CountAppend(s, [x], keep);
    assert [x][1..] == [];
  }

  /** `r` holds the elements of `s` at the positions `idx`. */
  ghost predicate Picks<T>(s: seq<T>, r: seq<T>, idx: seq<nat>) {
    |idx| == |r| && forall k :: 0 <= k < |idx| ==> idx[k] < |s| && r[k] == s[idx[k]]
  }

  /** The positions `idx` are strictly increasing. */
  ghost predicate Increasing(idx: seq<nat>) {
    forall k, l :: 0 <= k < l < |idx| ==> idx[k] < idx[l]
  }

  /** The positions `idx` are exactly those of the elements of `s` that pass. */
  ghost predicate Covers<T>(s: seq<T>, idx: seq<nat>, keep: T -> bool) {
    forall i :: 0 <= i < |s| ==> (keep(s[i]) <==> i in idx)
  }

  /** `idx` lists, in increasing order, exactly the positions of `s` whose
      elements pass `keep`, and `r` holds the elements at those positions:
      `r` is the subsequence of the passing elements, each taken once. */
  ghost predicate SelectsAt<T>(s: seq<T>, r: seq<T>, idx: seq<nat>, keep: T -> bool) {
    Picks(s, r, idx) && Increasing(idx) && Covers(s, idx, keep)
  }

  /** `r` is the passing elements of `s`, in order and each once. */
  ghost predicate IsSelection<T>(s: seq<T>, r: seq<T>, keep: T -> bool) {
    exists idx: seq<nat> :: SelectsAt(s, r, idx, keep)
  }

  /** Every position moved one place on. */
  function Shift(idx: seq<nat>): (r: seq<nat>)
    ensures |r| == |idx| && forall k :: 0 <= k < |r| ==> r[k] == idx[k] + 1
  {
    seq(|idx|, k requires 0 <= k < |idx| => idx[k] + 1)
  }

  /** A position is in the shifted list exactly when the one before it is
      in the original list. */
  lemma ShiftHas(idx: seq<nat>, i: nat)
    ensures i + 1 in Shift(idx) <==> i in idx
    ensures 0 !in Shift(idx)
  {
    if i + 1 in Shift(idx) {
      var k :| 0 <= k < |idx| && Shift(idx)[k] == i + 1;
    }
    if i in idx {
      var k :| 0 <= k < |idx| && idx[k] == i;
      assert Shift(idx)[k] == i + 1;
    }
  }

  /** Shifted picks pick from `[x] + t`. */
  lemma PicksShift<T>(x: T, t: seq<T>, r: seq<T>, idx: seq<nat>)
    requires Picks(t, r, idx)
    ensures Picks([x] + t, r, Shift(idx))
    ensures Picks([x] + t, [x] + r, [0] + Shift(idx))
  {
    var s := [x] + t;
    assert forall k :: 0 <= k < |idx| ==> s[idx[k] + 1] == t[idx[k]];
    var sh := [0] + Shift(idx);
    assert forall k :: 0 < k < |sh| ==> sh[k] == idx[k - 1] + 1 && ([x] + r)[k] == r[k - 1];
  }

  /** Shifting keeps positions increasing, and so does a 0 in front. */
  lemma IncreasingShift(idx: seq<nat>)
    requires Increasing(idx)
    ensures Increasing(Shift(idx)) && Increasing([0] + Shift(idx))
  {
    var sh := [0] + Shift(idx);
    assert forall k :: 0 < k < |sh| ==> sh[k] == idx[k - 1] + 1;
  }

  /** The covering positions of `t` cover `[x] + t` once shifted, with 0 in
      front when `x` passes. */
  lemma CoversShift<T>(x: T, t: seq<T>, idx: seq<nat>, keep: T -> bool)
    requires Covers(t, idx, keep)
    ensures Covers([x] + t, (if keep(x) then [0] else []) + Shift(idx), keep)
  {
    var s := [x] + t;
    var idx' := (if keep(x) then [0] else []) + Shift(idx);
    forall i | 0 <= i < |s| ensures keep(s[i]) <==> i in idx' {
      ShiftHas(idx, if i == 0 then 0 else i - 1);
      if i > 0 {
        assert s[i] == t[i - 1];
      }
    }
  }

  /** The selection of `t` extends to `[x] + t`. */
  lemma SelectsCons<T>(x: T, t: seq<T>, r: seq<T>, idx: seq<nat>, keep: T -> bool)
    requires SelectsAt(t, r, idx, keep)
    ensures SelectsAt([x] + t, (if keep(x) then [x] else []) + r,
      (if keep(x) then [0] else []) + Shift(idx), keep)
  {
    PicksShift(x, t, r, idx);
    IncreasingShift(idx);
    CoversShift(x, t, idx, keep);
    if !keep(x) {
      assert [] + r == r && [] + Shift(idx) == Shift(idx);
    }
  }

  /** Selection takes the passing positions of `s`, in increasing order and
      each once, and nothing else. */
  lemma {:induction false} FilterSelects<T>(s: seq<T>, keep: T -> bool) returns (idx: seq<nat>)
    ensures SelectsAt(s, Filter(s, keep), idx, keep)
    decreases |s|
  {
    if |s| == 0 {
      idx := [];
    } else {
      var x, t := s[0], s[1..];
      var rest := FilterSelects(t, keep);
      SelectsCons(x, t, Filter(t, keep), rest, keep);
      assert s == [x] + t;
      FilterCons(x, t, keep);
      idx := (if keep(x) then [0] else []) + Shift(rest);
    }
  }

  /** Selection is the subsequence of the passing elements. */
  lemma FilterIsSelection<T>(s: seq<T>, keep: T -> bool)
    ensures IsSelection(s, Filter(s, keep), keep)
  {
    var idx := FilterSelects(s, keep);
  }

  /** Removing the element at `i` lowers the count by one exactly when that
      element passes. */
  lemma CountDropOne<T>(s: seq<T>, keep: T -> bool, i: nat)
    requires i < |s|
    ensures Count(s[..i] + s[i + 1..], keep) == Count(s, keep) - (if keep(s[i]) then 1 else 0)
  {
    var a, b := s[..i], s[i + 1..];
    assert s == a + ([s[i]] + b);
    CountAppend(a, [s[i]] + b, keep);
    CountCons(s[i], b, keep);
    CountAppend(a, b, keep);
  }

}
