/** Binary search by predicate, and what is built on it. */
module Searching {

  ghost predicate Monotone(n: nat, pred: nat --> bool)
    requires forall i :: 0 <= i < n ==> pred.requires(i)
  {
    forall i, j :: 0 <= i <= j < n && pred(i) ==> pred(j)
  }

  /** The indices n/2, n/4 and so on down to 0 satisfy the predicate. */
  ghost predicate HalvesHold(n: nat, pred: nat --> bool)
    requires forall i :: 0 <= i < n ==> pred.requires(i)
  {
    n == 0 || (pred(n / 2) && HalvesHold(n / 2, pred))
  }

  /**
   * Whatever the predicate, it turns from false to true at the answer; if it is monotone there is
   * only one such place.
   */
  method Partition(n: nat, pred: nat --> bool) returns (r: nat)
    requires forall i :: 0 <= i < n ==> pred.requires(i)
    ensures r <= n && (r > 0 ==> !pred(r - 1)) && (r < n ==> pred(r))
    ensures Monotone(n, pred) ==> forall i :: 0 <= i < n ==> (pred(i) <==> r <= i)
    ensures r == 0 <==> HalvesHold(n, pred)
  {
    var lo: nat, hi: nat := 0, n;
    while lo < hi
      invariant lo <= hi <= n && (lo > 0 ==> !pred(lo - 1)) && (hi < n ==> pred(hi))
      invariant HalvesHold(n, pred) <==> lo == 0 && HalvesHold(hi, pred)
    {
      var mid := lo + (hi - lo) / 2;
      if pred(mid) {
        hi := mid;
      } else {
        lo := mid + 1;
      }
    }
    r := lo;
  }

  ghost predicate Sorted(s: seq<int>) {
    forall i, j :: 0 <= i <= j < |s| ==> s[i] <= s[j]
  }

  /** Everything before r is smaller, nothing from r on is. */
  ghost predicate IsLowerBound(s: seq<int>, target: int, r: nat) {
    r <= |s| && (forall i :: 0 <= i < r ==> s[i] < target) && (forall i :: r <= i < |s| ==> s[i] >= target)
  }

  /** Two searches with this contract return the same index and the same flag. */
  lemma LowerBoundIsUnique(s: seq<int>, target: int, q: nat, r: nat)
    requires IsLowerBound(s, target, q) && IsLowerBound(s, target, r)
    ensures q == r
  {
    assert q < |s| ==> s[q] >= target;
    assert r < |s| ==> s[r] >= target;
    assert q <= r && r <= q;
  }

  lemma LowerBoundFinds(s: seq<int>, target: int, r: nat)
    requires Sorted(s) && IsLowerBound(s, target, r)
    ensures target in s <==> r < |s| && s[r] == target
  {
    if target in s {
      var i :| 0 <= i < |s| && s[i] == target;
      assert r <= i;
    }
  }

  method LowerBound(s: seq<int>, target: int) returns (r: nat)
    requires Sorted(s)
    ensures IsLowerBound(s, target, r)
  {
    r := Partition(|s|, i requires 0 <= i < |s| => s[i] >= target);
  }

  method BinarySearch(s: seq<int>, target: int) returns (r: nat, found: bool)
    requires Sorted(s)
    ensures IsLowerBound(s, target, r) && (found <==> target in s)
  {
    r := LowerBound(s, target);
    LowerBoundFinds(s, target, r);
    found := r < |s| && s[r] == target;
  }

  /** Doubles a bound past the target, then searches between the last two bounds: the same answer. */
  method Exponential(s: seq<int>, target: int) returns (r: nat, found: bool)
    requires Sorted(s)
    ensures IsLowerBound(s, target, r) && (found <==> target in s)
  {
    if |s| == 0 {
      return 0, false;
    }
    if s[0] >= target {
      return 0, s[0] == target;
    }
    var bound := 1;
    while bound < |s| && s[bound] < target
      invariant bound >= 1 && bound / 2 < |s| && s[bound / 2] < target
      decreases |s| - bound
    {
      bound := bound * 2;
    }
    var lo := bound / 2;
    var hi := if bound + 1 < |s| then bound + 1 else |s|;
    var window := s[lo..hi];
    var i := LowerBound(window, target);
    Widened(s, target, lo, hi, i);
    return lo + i, i < |window| && window[i] == target;
  }

  lemma Widened(s: seq<int>, target: int, lo: nat, hi: nat, i: nat)
    requires Sorted(s) && lo < hi <= |s| && s[lo] < target && (hi < |s| ==> s[hi - 1] >= target)
    requires IsLowerBound(s[lo..hi], target, i)
    ensures IsLowerBound(s, target, lo + i)
    ensures target in s <==> i < hi - lo && s[lo..hi][i] == target
  {
    var w := s[lo..hi];
    assert forall k :: 0 <= k < |w| ==> w[k] == s[lo + k];
    forall k | 0 <= k < lo + i ensures s[k] < target {
      if k >= lo {
        assert w[k - lo] < target;
      }
    }
    forall k | lo + i <= k < |s| ensures s[k] >= target {
      if k < hi {
        assert w[k - lo] >= target;
      }
    }
    LowerBoundFinds(s, target, lo + i);
  }

  /** An index no smaller than its neighbours, and larger where they differ from it. */
  method FindPeak(s: seq<int>) returns (r: int)
    ensures s == [] ==> r == -1
    ensures s != [] ==>
      && 0 <= r < |s|
      && (r > 0 ==> s[r - 1] <= s[r])
      && (r < |s| - 1 ==> s[r] > s[r + 1])
  {
    if |s| == 0 {
      return -1;
    }
    r := Partition(|s| - 1, i requires 0 <= i < |s| - 1 => s[i] > s[i + 1]);
  }

  /** Without equal neighbours it is a peak. */
  lemma PeakIsStrict(s: seq<int>, r: nat)
    requires r < |s| && (r > 0 ==> s[r - 1] <= s[r]) && (r < |s| - 1 ==> s[r] > s[r + 1])
    requires forall i :: 0 < i < |s| ==> s[i - 1] != s[i]
    ensures (r > 0 ==> s[r - 1] < s[r]) && (r < |s| - 1 ==> s[r + 1] < s[r])
  {
  }

  // ---------- Rotated ----------

  ghost predicate Smallest(s: seq<int>, r: nat) {
    r < |s| && forall i :: 0 <= i < |s| ==> s[r] <= s[i]
  }

  /** No element that the search looks at on its way to 0 is greater than the last one. */
  ghost predicate HalvesAtMostLast(s: seq<int>, n: nat)
    requires n <= |s|
  {
    n == 0 || (s[n / 2] <= s[|s| - 1] && HalvesAtMostLast(s, n / 2))
  }

  ghost predicate IsRotation(s: seq<int>, t: seq<int>, k: nat) {
    k <= |t| && s == t[k..] + t[..k]
  }

  /** Two sorted runs, the one from p on nowhere above the one before it. */
  ghost predicate TwoRuns(s: seq<int>, p: nat) {
    && p <= |s|
    && (forall i, j :: 0 <= i <= j < p ==> s[i] <= s[j])
    && (forall i, j :: p <= i <= j < |s| ==> s[i] <= s[j])
    && (forall i, j :: 0 <= i < p <= j < |s| ==> s[j] <= s[i])
  }

  lemma RotationIsTwoRuns(s: seq<int>, t: seq<int>, k: nat)
    requires Sorted(t) && IsRotation(s, t, k)
    ensures TwoRuns(s, |t| - k)
  {
    assert forall i :: 0 <= i < |t| - k ==> s[i] == t[k + i];
    assert forall i :: |t| - k <= i < |t| ==> s[i] == t[i - (|t| - k)];
  }

  lemma {:induction false} SameHalves(s: seq<int>, n: nat, pred: nat --> bool)
    requires n <= |s| && forall i :: 0 <= i < |s| ==> pred.requires(i) && pred(i) == (s[i] <= s[|s| - 1])
    ensures HalvesHold(n, pred) <==> HalvesAtMostLast(s, n)
  {
    if n > 0 {
      SameHalves(s, n / 2, pred);
    }
  }

  /** A place behind a greater element that is not greater than the last one starts the second run. */
  lemma TurnIsSmallest(s: seq<int>, p: nat, r: nat)
    requires TwoRuns(s, p) && 0 < r < |s| && s[r - 1] > s[|s| - 1] && s[r] <= s[|s| - 1]
    ensures r == p && Smallest(s, r)
  {
  }

  /** A turning point from above the last element to it or below, or 0. */
  method RotationPoint(s: seq<int>, ghost t: seq<int>, ghost k: nat) returns (r: nat)
    requires Sorted(t) && IsRotation(s, t, k)
    ensures s == [] || Sorted(s) ==> r == 0
    ensures s != [] ==> (Smallest(s, r) <==> Smallest(s, 0) || !HalvesAtMostLast(s, |s|))
    ensures 0 < k < |t| && t[k - 1] < t[k] ==> r == |t| - k && Smallest(s, r)
  {
    if |s| == 0 {
      return 0;
    }
    ghost var p := |t| - k;
    RotationIsTwoRuns(s, t, k);
    var last := s[|s| - 1];
    var pred := (i: nat) requires i < |s| => s[i] <= last;
    r := Partition(|s|, pred);
    SameHalves(s, |s|, pred);
    if r > 0 {
      assert pred(|s| - 1);
      TurnIsSmallest(s, p, r);
    }
    if 0 < k < |t| && t[k - 1] < t[k] {
      assert s[0] == t[k] && last == t[k - 1];
    }
  }

  /** Where the elements at the boundary are equal it may stop at once. */
  lemma RotationPointMissed(s: seq<int>)
    requires s == [1, 1, 0, 1]
    ensures IsRotation(s, [0, 1, 1, 1], 2) && Sorted([0, 1, 1, 1])
    ensures HalvesAtMostLast(s, |s|) && !Smallest(s, 0) && Smallest(s, 2)
  {
    assert HalvesAtMostLast(s, 1) && HalvesAtMostLast(s, 2);
    assert s[2] < s[0];
  }

  /** If the target is anywhere, it is between lo and hi. */
  ghost predicate Narrowed(s: seq<int>, target: int, lo: int, hi: int) {
    0 <= lo && hi < |s| && (target in s ==> exists i :: lo <= i <= hi && s[i] == target)
  }

  lemma LeftHalf(s: seq<int>, p: nat, target: int, lo: nat, mid: nat, hi: nat)
    requires TwoRuns(s, p) && lo <= mid <= hi < |s| && Narrowed(s, target, lo, hi) && s[mid] != target
    requires s[lo] <= s[mid] && !(s[lo] == s[mid] == s[hi])
    ensures if s[lo] <= target < s[mid] then Narrowed(s, target, lo, mid - 1) else Narrowed(s, target, mid + 1, hi)
  {
    assert !(lo < p <= mid);
    if target in s {
      var i :| lo <= i <= hi && s[i] == target;
      if s[lo] <= target < s[mid] {
        if i >= mid {
          assert s[lo] == target;
        }
      }
    }
  }

  lemma RightHalf(s: seq<int>, p: nat, target: int, lo: nat, mid: nat, hi: nat)
    requires TwoRuns(s, p) && lo <= mid <= hi < |s| && Narrowed(s, target, lo, hi) && s[mid] != target
    requires s[lo] > s[mid]
    ensures if s[mid] < target <= s[hi] then Narrowed(s, target, mid + 1, hi) else Narrowed(s, target, lo, mid - 1)
  {
    assert lo < p <= mid;
    if target in s {
      var i :| lo <= i <= hi && s[i] == target;
      if s[mid] < target <= s[hi] {
        if i <= mid {
          assert s[hi] == target;
        }
      }
    }
  }

  lemma Shrink(s: seq<int>, target: int, lo: nat, mid: nat, hi: nat)
    requires lo <= mid <= hi < |s| && Narrowed(s, target, lo, hi) && s[mid] != target && s[lo] == s[mid] == s[hi]
    ensures Narrowed(s, target, lo + 1, hi - 1)
  {
    if target in s {
      var i :| lo <= i <= hi && s[i] == target;
      assert i != lo && i != hi;
    }
  }

  /** Finds the target exactly when it occurs, duplicates included. */
  method SearchRotated(s: seq<int>, target: int, ghost t: seq<int>, ghost k: nat) returns (r: int)
    requires Sorted(t) && IsRotation(s, t, k)
    ensures -1 <= r < |s|
    ensures r == -1 <==> target !in s
    ensures r >= 0 ==> s[r] == target
  {
    ghost var p := |t| - k;
    RotationIsTwoRuns(s, t, k);
    var lo, hi := 0, |s| - 1;
    while lo <= hi
      invariant Narrowed(s, target, lo, hi) && lo <= |s| && hi >= -1
      decreases hi - lo
    {
      var mid := lo + (hi - lo) / 2;
      if s[mid] == target {
        return mid;
      }
      if s[lo] == s[mid] && s[mid] == s[hi] {
        Shrink(s, target, lo, mid, hi);
        lo := lo + 1;
        hi := hi - 1;
      } else if s[lo] <= s[mid] {
        LeftHalf(s, p, target, lo, mid, hi);
        if target >= s[lo] && target < s[mid] {
          hi := mid - 1;
        } else {
          lo := mid + 1;
        }
      } else {
        RightHalf(s, p, target, lo, mid, hi);
        if target > s[mid] && target <= s[hi] {
          lo := mid + 1;
        } else {
          hi := mid - 1;
        }
      }
    }
    return -1;
  }
}

/** The search over the whole range of a machine integer. */
module SearchAnswers {

  const TWO_63 := 0x8000_0000_0000_0000
  const TWO_64 := 0x1_0000_0000_0000_0000

  newtype int64 = x: int | -0x8000_0000_0000_0000 <= x < 0x8000_0000_0000_0000
  newtype uint64 = x: int | 0 <= x < 0x1_0000_0000_0000_0000

  /** The same bits, read as unsigned. */
  function ToUint(x: int64): uint64 {
    if x >= 0 then x as uint64 else (x as int + TWO_64) as uint64
  }

  /** The same bits, read as signed. */
  function ToInt(x: uint64): int64 {
    if x as int < TWO_63 then x as int64 else (x as int - TWO_64) as int64
  }

  function WrapAdd(x: uint64, y: uint64): uint64 {
    ((x as int + y as int) % TWO_64) as uint64
  }

  function WrapSub(x: uint64, y: uint64): uint64 {
    ((x as int - y as int) % TWO_64) as uint64
  }

  /** The average rounded down, through unsigned arithmetic that may wrap. */
  function Midpoint(lo: int64, hi: int64): int64 {
    ToInt(WrapAdd(ToUint(lo), WrapSub(ToUint(hi), ToUint(lo)) / 2))
  }

  lemma WrapsOnce(x: int)
    requires -TWO_64 <= x < 2 * TWO_64
    ensures x % TWO_64 == if x < 0 then x + TWO_64 else if x < TWO_64 then x else x - TWO_64
  {
  }

  /** The wrapping cancels out: no range is too wide. */
  lemma MidpointIsAverage(lo: int64, hi: int64)
    requires lo <= hi
    ensures Midpoint(lo, hi) as int == lo as int + (hi as int - lo as int) / 2
    ensures lo <= Midpoint(lo, hi) <= hi
  {
    var d := hi as int - lo as int;
    WrapsOnce(ToUint(hi) as int - ToUint(lo) as int);
    assert WrapSub(ToUint(hi), ToUint(lo)) as int == d;
    WrapsOnce(ToUint(lo) as int + d / 2);
  }

  ghost predicate Monotone(lo: int64, hi: int64, ok: int64 -> bool) {
    forall x, y :: lo <= x <= y <= hi && ok(x) ==> ok(y)
  }

  /** The least value that satisfies a monotone predicate; no step leaves the range of an int. */
  method SearchAnswer(lo: int64, hi: int64, ok: int64 -> bool) returns (best: int64, found: bool)
    ensures if found then lo <= best <= hi && ok(best) else best == 0
    ensures Monotone(lo, hi, ok) ==> (found <==> exists x :: lo <= x <= hi && ok(x))
    ensures Monotone(lo, hi, ok) && found ==> forall x :: lo <= x <= hi ==> (ok(x) <==> best <= x)
  {
    if lo > hi {
      return 0, false;
    }
    best, found := 0, false;
    var l, h := lo, hi;
    while l <= h
      invariant lo <= l && h <= hi
      invariant if found then lo <= best <= hi && ok(best) else best == 0
      invariant Monotone(lo, hi, ok) ==>
        && (forall x :: lo <= x < l ==> !ok(x))
        && (if found then h < best && forall x :: h < x <= hi ==> (ok(x) <==> best <= x) else h == hi)
      decreases h as int - l as int
    {
      var mid := Midpoint(l, h);
      MidpointIsAverage(l, h);
      if ok(mid) {
        best, found := mid, true;
        if mid == l {
          break;
        }
        h := mid - 1;
      } else {
        if mid == h {
          break;
        }
        l := mid + 1;
      }
    }
  }
}
