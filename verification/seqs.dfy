/** Order-preserving filtering and first-match search over sequences, the shape of
    JavaScript's `Array.prototype.filter(...).map(...)` and `Array.prototype.find`. */
module Seqs {
  import opened Opt

  /** Keeps the elements satisfying `keep`, in order, and maps each through `f`. */
  function FilterMap<T, U>(keep: T -> bool, f: T -> U, s: seq<T>): (r: seq<U>)
    ensures |r| <= |s|
  {
    if s == [] then []
    else if keep(s[0]) then [f(s[0])] + FilterMap(keep, f, s[1..])
    else FilterMap(keep, f, s[1..])
  }

  /** `idx` lists strictly increasing positions of `s`. */
  ghost predicate Increasing(idx: seq<int>, n: int) {
    (forall k :: 0 <= k < |idx| ==> 0 <= idx[k] < n)
    && (forall k, l :: 0 <= k < l < |idx| ==> idx[k] < idx[l])
  }

  /** Reference description of a filter-map: the result is `f` applied to exactly the kept
      positions of `s`, in increasing order. */
  ghost predicate SelectsKept<T, U>(keep: T -> bool, f: T -> U, s: seq<T>, r: seq<U>, idx: seq<int>) {
    && |idx| == |r|
    && Increasing(idx, |s|)
    && (forall k :: 0 <= k < |idx| ==> r[k] == f(s[idx[k]]))
    && (forall j :: 0 <= j < |s| ==> (keep(s[j]) <==> j in idx))
  }

  /** Moves every position of `idx` one place to the right. */
  lemma ShiftIndices(idx: seq<int>, n: int) returns (shifted: seq<int>)
    requires Increasing(idx, n)
    ensures |shifted| == |idx| && Increasing(shifted, n + 1) && 0 !in shifted
    ensures forall k :: 0 <= k < |idx| ==> shifted[k] == idx[k] + 1
    ensures forall j :: 1 <= j ==> (j in shifted <==> j - 1 in idx)
  {
    shifted := seq(|idx|, k requires 0 <= k < |idx| => idx[k] + 1);
    forall j | 1 <= j
      ensures j in shifted <==> j - 1 in idx
    {
      if j - 1 in idx {
        var k :| 0 <= k < |idx| && idx[k] == j - 1;
        assert shifted[k] == j;
      }
    }
  }

  /** FilterMap selects exactly the kept elements, in their original order. */
  lemma {:induction false} FilterMapSelectsKept<T, U>(keep: T -> bool, f: T -> U, s: seq<T>)
    returns (idx: seq<int>)
    ensures SelectsKept(keep, f, s, FilterMap(keep, f, s), idx)
  {
    if s == [] {
      idx := [];
    } else {
      var rest := FilterMapSelectsKept(keep, f, s[1..]);
      var tail := FilterMap(keep, f, s[1..]);
      var shifted := ShiftIndices(rest, |s| - 1);
      forall j | 1 <= j < |s|
        ensures keep(s[j]) <==> j in shifted
      {
        assert s[j] == s[1..][j - 1];
      }
      forall k | 0 <= k < |shifted|
        ensures tail[k] == f(s[shifted[k]])
      {
        assert s[shifted[k]] == s[1..][rest[k]];
      }
      if keep(s[0]) {
        idx := [0] + shifted;
        KeptHead(keep, f, s, tail, shifted);
      } else {
        idx := shifted;
      }
    }
  }

  /** The inductive step of FilterMapSelectsKept when the head is kept. */
  lemma KeptHead<T, U>(keep: T -> bool, f: T -> U, s: seq<T>, tail: seq<U>, shifted: seq<int>)
    requires s != [] && keep(s[0]) && tail == FilterMap(keep, f, s[1..])
    requires |shifted| == |tail| && Increasing(shifted, |s|) && 0 !in shifted
    requires forall j :: 1 <= j < |s| ==> (keep(s[j]) <==> j in shifted)
    requires forall k :: 0 <= k < |shifted| ==> tail[k] == f(s[shifted[k]])
    ensures SelectsKept(keep, f, s, FilterMap(keep, f, s), [0] + shifted)
  {
    var idx := [0] + shifted;
    var r := FilterMap(keep, f, s);
    assert r == [f(s[0])] + tail;
    ConsIncreasing(shifted, |s|);
    forall k | 0 <= k < |idx| ensures r[k] == f(s[idx[k]]) {
      if k > 0 { assert idx[k] == shifted[k - 1] && r[k] == tail[k - 1]; }
    }
    forall j | 0 <= j < |s| ensures keep(s[j]) <==> j in idx {
      ConsMembership(shifted, j);
    }
  }

  lemma ConsIncreasing(shifted: seq<int>, n: int)
    requires n > 0 && Increasing(shifted, n) && 0 !in shifted
    ensures Increasing([0] + shifted, n)
  {
    var idx := [0] + shifted;
    forall k, l | 0 <= k < l < |idx| ensures idx[k] < idx[l] {
      assert idx[l] == shifted[l - 1];
      if k > 0 { assert idx[k] == shifted[k - 1]; }
      else { assert shifted[l - 1] in shifted; }
    }
  }

  lemma ConsMembership(shifted: seq<int>, j: int)
    ensures j in [0] + shifted <==> j == 0 || j in shifted
  {
  }

  /** An element is in the filter-map exactly when it is the image of a kept element. */
  lemma {:induction false} FilterMapMembership<T, U>(keep: T -> bool, f: T -> U, s: seq<T>, x: U)
    ensures x in FilterMap(keep, f, s) <==> exists j :: 0 <= j < |s| && keep(s[j]) && x == f(s[j])
  {
    if s != [] {
      FilterMapMembership(keep, f, s[1..], x);
      if x in FilterMap(keep, f, s[1..]) {
        var j :| 0 <= j < |s[1..]| && keep(s[1..][j]) && x == f(s[1..][j]);
        assert s[j + 1] == s[1..][j];
      }
      if exists j :: 0 <= j < |s| && keep(s[j]) && x == f(s[j]) {
        var j :| 0 <= j < |s| && keep(s[j]) && x == f(s[j]);
        if j > 0 {
          assert s[1..][j - 1] == s[j];
        }
      }
    }
  }

  /** With the identity map, a filter is a sub-multiset of its input. */
  lemma {:induction false} FilterIsSubMultiset<T>(keep: T -> bool, s: seq<T>)
    ensures multiset(FilterMap(keep, x => x, s)) <= multiset(s)
  {
    if s != [] {
      FilterIsSubMultiset(keep, s[1..]);
      assert s == [s[0]] + s[1..];
    }
  }

  /** `Promise.all` over per-element outcomes: every element's value, in order, or `None`
      when any element fails. */
  function AllSome<T, U>(f: T -> Option<U>, s: seq<T>): (r: Option<seq<U>>)
    ensures r.Some? <==> forall i :: 0 <= i < |s| ==> f(s[i]).Some?
    ensures r.Some? ==> |r.value| == |s| && forall i :: 0 <= i < |s| ==> Some(r.value[i]) == f(s[i])
  {
    if s == [] then Some([])
    else match f(s[0])
      case None => None
      case Some(x) =>
        assert forall i :: 1 <= i < |s| ==> s[i] == s[1..][i - 1];
        match AllSome(f, s[1..])
        case None => None
        case Some(xs) => Some([x] + xs)
  }

  /** The position of the first element satisfying `p`, as `Array.prototype.find` scans. */
  function FindFirst<T>(p: T -> bool, s: seq<T>): (r: Option<nat>)
    ensures r.Some? ==> r.value < |s| && p(s[r.value]) && forall j :: 0 <= j < r.value ==> !p(s[j])
    ensures r.None? ==> forall j :: 0 <= j < |s| ==> !p(s[j])
  {
    if s == [] then None
    else if p(s[0]) then Some(0)
    else match FindFirst(p, s[1..])
      case None => None
      case Some(k) => Some(k + 1)
  }

  /** The first element satisfying `p`, or `None` (JavaScript's `find(...) || null`). */
  function Find<T>(p: T -> bool, s: seq<T>): (r: Option<T>)
    ensures r.Some? ==> r.value in s && p(r.value)
    ensures r.Some? ==> exists k :: 0 <= k < |s| && s[k] == r.value && forall j :: 0 <= j < k ==> !p(s[j])
    ensures r.None? <==> forall x :: x in s ==> !p(x)
  {
    match FindFirst(p, s)
    case None => None
    case Some(k) => Some(s[k])
  }
}
