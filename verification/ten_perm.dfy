/**
 * The `Perm<T>` enumerator of ten.cs: it starts from the given arrangement
 * and steps through the lexicographic successors in place, the classic
 * "next permutation" algorithm. Elements are modelled as integers with
 * their usual order standing for `CompareTo`.
 */
module TenPermutation {

  /** `s` read back to front. */
  function Reversed(s: seq<int>): (r: seq<int>)
    ensures |r| == |s| && forall i :: 0 <= i < |s| ==> r[i] == s[|s| - 1 - i]
  {
    if s == [] then [] else Reversed(s[1..]) + [s[0]]
  }

  lemma {:induction false} ReversedIsPermutation(s: seq<int>)
    ensures multiset(Reversed(s)) == multiset(s)
  {
    if s != [] {
      ReversedIsPermutation(s[1..]);
      assert s == [s[0]] + s[1..];
    }
  }

  predicate NonIncreasing(s: seq<int>) {
    forall i, j :: 0 <= i < j < |s| ==> s[i] >= s[j]
  }

  predicate NonDecreasing(s: seq<int>) {
    forall i, j :: 0 <= i < j < |s| ==> s[i] <= s[j]
  }

  /** `a` comes strictly before `b` in lexicographic order. */
  ghost predicate LexLess(a: seq<int>, b: seq<int>) {
    exists k :: 0 <= k < |a| && k < |b| && a[..k] == b[..k] && a[k] < b[k]
  }

  /** Position i is not followed by a larger element. */
  predicate NoAscentAt(s: seq<int>, i: int)
    requires 0 <= i < |s| - 1
  {
    s[i] >= s[i + 1]
  }

  /**
   * The rightmost index p <= j with s[p] < s[p + 1], or -1: the scan of
   * `MoveNext` that looks for the rightmost element smaller than its
   * successor.
   */
  function PivotFrom(s: seq<int>, j: int): (p: int)
    requires -1 <= j < |s| - 1
    ensures -1 <= p <= j
    ensures p >= 0 ==> s[p] < s[p + 1]
    ensures forall i :: p < i <= j ==> NoAscentAt(s, i)
    decreases j + 1
  {
    if j < 0 then -1
    else if s[j] < s[j + 1] then j
    else PivotFrom(s, j - 1)
  }

  /** The pivot of the whole arrangement, or -1 when it is non-increasing. */
  function Pivot(s: seq<int>): (p: int)
    requires |s| >= 2
    ensures -1 <= p < |s| - 1
  {
    PivotFrom(s, |s| - 2)
  }

  /**
   * The rightmost index in (p, m) whose element is greater than s[p]: the
   * inner scan of `MoveNext`. s[p + 1] > s[p] stops it at p + 1 at the latest.
   */
  function RightmostGreater(s: seq<int>, p: nat, m: nat): (r: nat)
    requires p + 1 < m <= |s| && s[p] < s[p + 1]
    ensures p < r < m && s[r] > s[p]
    ensures forall i :: r < i < m ==> s[i] <= s[p]
    decreases m
  {
    if s[m - 1] > s[p] then m - 1 else RightmostGreater(s, p, m - 1)
  }

  /** Whether `MoveNext` (after the first call) finds a successor. */
  function HasNext(s: seq<int>): bool {
    |s| >= 2 && Pivot(s) >= 0
  }

  /** `s` with positions i and j exchanged. */
  function Swap(s: seq<int>, i: nat, j: nat): (t: seq<int>)
    requires i < |s| && j < |s|
    ensures |t| == |s| && t[i] == s[j] && t[j] == s[i]
    ensures forall k :: 0 <= k < |s| && k != i && k != j ==> t[k] == s[k]
  {
    s[i := s[j]][j := s[i]]
  }

  /** `s` with the segment [lo, hi) read back to front. */
  function ReverseSegment(s: seq<int>, lo: nat, hi: nat): (t: seq<int>)
    requires lo <= hi <= |s|
    ensures |t| == |s|
    ensures forall k :: 0 <= k < lo || hi <= k < |s| ==> t[k] == s[k]
    ensures forall k :: lo <= k < hi ==> t[k] == s[lo + hi - 1 - k]
  {
    seq(|s|, k requires 0 <= k < |s| => if lo <= k < hi then s[lo + hi - 1 - k] else s[k])
  }

  /**
   * The arrangement `MoveNext` leaves behind: shorter than two elements,
   * unchanged; with a pivot p, s[p] swapped with the rightmost greater
   * element and the suffix after p reversed; otherwise the whole
   * arrangement reversed.
   */
  function NextPerm(s: seq<int>): seq<int> {
    if |s| < 2 then s
    else if Pivot(s) < 0 then ReverseSegment(s, 0, |s|)
    else
      var p := Pivot(s);
      ReverseSegment(Swap(s, p, RightmostGreater(s, p, |s|)), p + 1, |s|)
  }

  lemma SwapIsPermutation(s: seq<int>, i: nat, j: nat)
    requires i < j < |s|
    ensures multiset(Swap(s, i, j)) == multiset(s)
  {
    var t := Swap(s, i, j);
    assert t == s[..i] + [s[j]] + s[i + 1..j] + [s[i]] + s[j + 1..];
    assert s == s[..i] + [s[i]] + s[i + 1..j] + [s[j]] + s[j + 1..];
  }

  lemma ReverseSegmentIsPermutation(s: seq<int>, lo: nat, hi: nat)
    requires lo <= hi <= |s|
    ensures multiset(ReverseSegment(s, lo, hi)) == multiset(s)
  {
    var a, b, c := s[..lo], s[lo..hi], s[hi..];
    ReversedIsPermutation(b);
    ReverseSegmentSplit(s, lo, hi, a, b, c);
    assert s == a + b + c;
  }

  lemma ReverseSegmentSplit(s: seq<int>, lo: nat, hi: nat, a: seq<int>, b: seq<int>, c: seq<int>)
    requires lo <= hi <= |s| && a == s[..lo] && b == s[lo..hi] && c == s[hi..]
    ensures ReverseSegment(s, lo, hi) == a + Reversed(b) + c
  {
    var t := ReverseSegment(s, lo, hi);
    var u := a + Reversed(b) + c;
    assert |t| == |u|;
    forall k | 0 <= k < |t|
      ensures t[k] == u[k]
    {
      if k < lo {
      } else if k < hi {
        assert u[k] == Reversed(b)[k - lo];
      } else {
        assert u[k] == c[k - hi];
      }
    }
  }

  /** With a pivot p and m the rightmost greater element, the step in one line. */
  lemma NextPermUnfold(s: seq<int>)
    requires HasNext(s)
    ensures NextPerm(s) == ReverseSegment(Swap(s, Pivot(s), RightmostGreater(s, Pivot(s), |s|)), Pivot(s) + 1, |s|)
  {
  }

  lemma NextPermAt(s: seq<int>, p: nat, m: nat)
    requires HasNext(s) && p == Pivot(s) && m == RightmostGreater(s, p, |s|)
    ensures NextPerm(s) == ReverseSegment(Swap(s, p, m), p + 1, |s|)
  {
    NextPermUnfold(s);
  }

  lemma NextPermWrap(s: seq<int>)
    requires |s| >= 2 && !HasNext(s)
    ensures NextPerm(s) == ReverseSegment(s, 0, |s|)
  {
  }

  lemma SwapThenReverseIsPermutation(s: seq<int>, p: nat, m: nat)
    requires p < m < |s|
    ensures multiset(ReverseSegment(Swap(s, p, m), p + 1, |s|)) == multiset(s)
  {
    SwapIsPermutation(s, p, m);
    ReverseSegmentIsPermutation(Swap(s, p, m), p + 1, |s|);
  }

  /** The stepping rearranges the elements and nothing else. */
  lemma NextPermIsPermutation(s: seq<int>)
    ensures multiset(NextPerm(s)) == multiset(s)
  {
    if HasNext(s) {
      NextPermUnfold(s);
      SwapThenReverseIsPermutation(s, Pivot(s), RightmostGreater(s, Pivot(s), |s|));
    } else if |s| >= 2 {
      ReverseSegmentIsPermutation(s, 0, |s|);
    }
  }

  /**
   * With a pivot, the result agrees with `s` before the pivot and is
   * larger at the pivot, so it comes lexicographically after `s`.
   */
  lemma NextPermIsGreater(s: seq<int>)
    requires HasNext(s)
    ensures var p := Pivot(s); var r := NextPerm(s);
      |r| == |s| && r[..p] == s[..p] && s[p] < r[p]
    ensures LexLess(s, NextPerm(s))
  {
    var p := Pivot(s);
    var r := NextPerm(s);
    assert r[..p] == s[..p];
    assert s[..p] == r[..p] && s[p] < r[p];
  }

  /** Right of the pivot the arrangement is non-increasing. */
  lemma SuffixNonIncreasing(s: seq<int>, p: int)
    requires |s| >= 2 && p == Pivot(s)
    ensures forall i, j :: p < i < j < |s| ==> s[i] >= s[j]
  {
    forall i, j | p < i < j < |s|
      ensures s[i] >= s[j]
    {
      NonIncreasingStep(s, p, i, j);
    }
  }

  /** Swapping s[p] with the rightmost greater element keeps that suffix non-increasing. */
  lemma SwappedSuffixNonIncreasing(s: seq<int>, p: nat, m: nat)
    requires HasNext(s) && p == Pivot(s) && m == RightmostGreater(s, p, |s|)
    ensures forall i, j :: p < i < j < |s| ==> Swap(s, p, m)[i] >= Swap(s, p, m)[j]
  {
    var t := Swap(s, p, m);
    SuffixNonIncreasing(s, p);
    forall i, j | p < i < j < |s|
      ensures t[i] >= t[j]
    {
      if j == m {
        assert s[i] >= s[m] > s[p];
      } else if i == m {
        assert s[j] <= s[p];
      }
    }
  }

  /**
   * The result is the immediate successor: at the pivot it holds the
   * smallest later element that exceeds s[p], and the rest is in ascending
   * order, the smallest arrangement of what remains.
   */
  lemma NextPermIsSmallestSuccessor(s: seq<int>)
    requires HasNext(s)
    ensures var p := Pivot(s); var r := NextPerm(s);
      NonDecreasing(r[p + 1..]) &&
      forall i :: p < i < |s| && s[i] > s[p] ==> r[p] <= s[i]
  {
    NextPermUnfold(s);
    SmallestSuccessorAt(s, Pivot(s), RightmostGreater(s, Pivot(s), |s|), NextPerm(s));
  }

  lemma SmallestSuccessorAt(s: seq<int>, p: nat, m: nat, r: seq<int>)
    requires HasNext(s) && p == Pivot(s) && m == RightmostGreater(s, p, |s|)
    requires r == ReverseSegment(Swap(s, p, m), p + 1, |s|)
    ensures NonDecreasing(r[p + 1..])
    ensures forall i :: p < i < |s| && s[i] > s[p] ==> r[p] <= s[i]
  {
    var t := Swap(s, p, m);
    SwappedSuffixNonIncreasing(s, p, m);
    forall i, j | p < i < j < |s|
      ensures r[i] <= r[j]
    {
      assert r[i] == t[p + |s| - i] && r[j] == t[p + |s| - j];
    }
    assert NonDecreasing(r[p + 1..]);
    SuffixNonIncreasing(s, p);
    forall i | p < i < |s| && s[i] > s[p]
      ensures r[p] <= s[i]
    {
      assert r[p] == s[m];
    }
  }

  /** Chaining the non-increasing steps right of the pivot. */
  lemma {:induction false} NonIncreasingStep(s: seq<int>, p: int, i: int, j: int)
    requires |s| >= 2 && p == Pivot(s) && p < i <= j < |s|
    ensures s[i] >= s[j]
    decreases j - i
  {
    if i < j {
      NonIncreasingStep(s, p, i + 1, j);
      assert NoAscentAt(s, i);
    }
  }

  /**
   * Without a pivot the arrangement was the last one (non-increasing) and
   * the stepping wraps around to the first one (ascending); with a pivot it
   * was not the last one.
   */
  lemma NoNextIffLast(s: seq<int>)
    requires |s| >= 2
    ensures !HasNext(s) <==> NonIncreasing(s)
    ensures !HasNext(s) ==> NonDecreasing(NextPerm(s))
  {
    if !HasNext(s) {
      forall i, j | 0 <= i < j < |s|
        ensures s[i] >= s[j]
      {
        NonIncreasingStep(s, -1, i, j);
      }
    } else {
      var p := Pivot(s);
      assert s[p] < s[p + 1];
    }
  }

  /** Arrangements of fewer than two elements have no successor. */
  lemma ShortHasNoNext(s: seq<int>)
    requires |s| < 2
    ensures !HasNext(s) && NextPerm(s) == s
  {
  }

  /** Reverses a[lo..hi) in place, as `Array.Reverse(a, lo, hi - lo)`. */
  method ReverseRange(a: array<int>, lo: nat, hi: nat)
    requires lo <= hi <= a.Length
    modifies a
    ensures a[..] == ReverseSegment(old(a[..]), lo, hi)
  {
    ghost var s := a[..];
    var i, j := lo, hi;
    while i + 1 < j
      invariant lo <= i <= j <= hi && i - lo == hi - j
      invariant forall k :: 0 <= k < lo || hi <= k < a.Length ==> a[k] == s[k]
      invariant forall k :: i <= k < j ==> a[k] == s[k]
      invariant forall k :: lo <= k < i ==> a[k] == s[lo + hi - 1 - k]
      invariant forall k :: j <= k < hi ==> a[k] == s[lo + hi - 1 - k]
      decreases j - i
    {
      a[i], a[j - 1] := a[j - 1], a[i];
      i, j := i + 1, j - 1;
    }
    assert forall k :: 0 <= k < a.Length ==> a[k] == ReverseSegment(s, lo, hi)[k];
  }

  /**
   * The two scans of `MoveNext`, which read the arrangement only: the
   * rightmost ascent `next` and the rightmost element `mid` after it that
   * exceeds `a[next]`.
   */
  method FindSwap(a: array<int>) returns (found: bool, next: nat, mid: nat)
    ensures found == HasNext(a[..])
    ensures found ==> next == Pivot(a[..]) && mid == RightmostGreater(a[..], next, a.Length)
  {
    ghost var s := a[..];
    var last := a.Length;
    found, next, mid := false, last, 0;
    if next == 0 {
      return;
    }
    if next == 1 {
      return;
    }
    next := next - 1;
    while next > 0
      invariant 0 <= next <= last - 1
      invariant PivotFrom(s, last - 2) == PivotFrom(s, next - 1)
      decreases next
    {
      next := next - 1;
      if a[next] < a[next + 1] {
        mid := last - 1;
        while a[next] >= a[mid]
          invariant next < mid < last
          invariant RightmostGreater(s, next, last) == RightmostGreater(s, next, mid + 1)
          decreases mid
        {
          mid := mid - 1;
        }
        found := true;
        return;
      }
    }
  }

  /** `Perm<T>`: enumerates the lexicographic successors of `current`. */
  class Perm {
    var isFirst: bool
    const current: array<int>

    /** Copies the initial arrangement; the first `MoveNext` yields it as is. */
    constructor (init: seq<int>)
      ensures fresh(current) && current[..] == init && isFirst
    {
      current := new int[|init|] (i requires 0 <= i < |init| => init[i]);
      isFirst := true;
    }

    /**
     * The first call reports the initial arrangement; each later call
     * steps to `NextPerm` and reports whether a successor existed.
     */
    method MoveNext() returns (more: bool)
      modifies this, current
      ensures !isFirst
      ensures old(isFirst) ==> more && current[..] == old(current[..])
      ensures !old(isFirst) ==> more == HasNext(old(current[..])) && current[..] == NextPerm(old(current[..]))
    {
      if isFirst {
        isFirst := false;
        return true;
      }
      ghost var s := current[..];
      var found, next, mid := FindSwap(current);
      if found {
        NextPermAt(s, next, mid);
        current[next], current[mid] := current[mid], current[next];
        assert current[..] == Swap(s, next, mid);
        ReverseRange(current, next + 1, current.Length);
      } else if current.Length >= 2 {
        NextPermWrap(s);
        ReverseRange(current, 0, current.Length);
      }
      more := found;
    }
  }
}
