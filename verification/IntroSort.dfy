/** Quicksort with a partition budget, and heapsort when it runs out. */
module IntroSorts {
  import opened BitMasks
  import opened SortingModel
  import opened StableSorts
  import opened HeapSorts

  // ---------- Logarithm ----------

  /** floor(log2(n)), and 0 for n < 2. */
  function Log2(n: nat): nat {
    if n < 2 then 0 else 1 + Log2(n / 2)
  }

  lemma {:induction false} Log2IsLogarithm(n: nat)
    requires n >= 1
    ensures Pow2(Log2(n)) <= n < Pow2(Log2(n) + 1)
  {
    if n >= 2 {
      Log2IsLogarithm(n / 2);
    }
  }

  lemma {:induction false} Log2Grows(m: nat, n: nat)
    requires m <= n
    ensures Log2(m) <= Log2(n)
  {
    if m >= 2 {
      Log2Grows(m / 2, n / 2);
    }
  }

  /** Half as many elements, one level less. */
  lemma Log2OfHalf(m: nat, n: nat)
    requires 2 * m < n && n >= 2
    ensures 1 + Log2(m) <= Log2(n)
  {
    Log2Grows(m, n / 2);
  }

  method ILog2(n: nat) returns (depth: nat)
    ensures depth == Log2(n)
    ensures if n == 0 then depth == 0 else Pow2(depth) <= n < Pow2(depth + 1)
  {
    if n >= 1 {
      Log2IsLogarithm(n);
    }
    depth := 0;
    var m := n;
    while m > 1
      invariant depth + Log2(m) == Log2(n)
    {
      m := m / 2;
      depth := depth + 1;
    }
  }

  method BudgetFor(n: nat) returns (budget: nat)
    ensures budget == 2 * Log2(n) + 8
  {
    var depth := ILog2(if n > 1 then n else 1);
    budget := 2 * depth + 8;
  }

  // ---------- Choosing the pivot ----------

  predicate TwoOf(x: bool, y: bool, z: bool) {
    (x && y) || (x && z) || (y && z)
  }

  /** One of the three, with two of them on either side of it, itself included. */
  ghost predicate IsMedian(c: Compare, m: Item, x: Item, y: Item, z: Item) {
    && (m == x || m == y || m == z)
    && TwoOf(Leq(c, x, m), Leq(c, y, m), Leq(c, z, m))
    && TwoOf(Leq(c, m, x), Leq(c, m, y), Leq(c, m, z))
  }

  /** The median, and on ties the one the comparisons settle on. */
  function Median(c: Compare, x: Item, y: Item, z: Item): (m: Item)
    ensures m == x || m == y || m == z
  {
    var a, b := if c(y, x) < 0 then y else x, if c(y, x) < 0 then x else y;
    if c(z, b) >= 0 then b else if c(z, a) < 0 then a else z
  }

  lemma MedianIsMedian(c: Compare, x: Item, y: Item, z: Item)
    requires TotalPreorder(c)
    ensures IsMedian(c, Median(c, x, y, z), x, y, z)
  {
    assert c(x, x) == 0 && c(y, y) == 0 && c(z, z) == 0;
    assert Leq(c, x, y) || Leq(c, y, x);
    assert Leq(c, y, z) || Leq(c, z, y);
    assert Leq(c, x, z) || Leq(c, z, x);
  }

  method Median3(x: Item, y: Item, z: Item, c: Compare) returns (m: Item)
    ensures m == Median(c, x, y, z)
  {
    var a, b := x, y;
    if c(b, a) < 0 {
      a, b := b, a;
    }
    if c(z, b) < 0 {
      b := z;
      if c(b, a) < 0 {
        b := a;
      }
    }
    return b;
  }

  function MedianAt(c: Compare, s: seq<Item>, i: nat, j: nat, k: nat): (m: Item)
    requires i < |s| && j < |s| && k < |s|
    ensures m in s
  {
    Median(c, s[i], s[j], s[k])
  }

  /** The median of three samples, or of the medians of three groups of three. */
  function Pivot(c: Compare, s: seq<Item>): (p: Item)
    requires s != []
    ensures p in s
  {
    var n, step := |s|, |s| / 8;
    if n < 50 then MedianAt(c, s, 0, n / 2, n - 1)
    else
      Median(c, MedianAt(c, s, 0, step, 2 * step),
                MedianAt(c, s, n / 2 - step, n / 2, n / 2 + step),
                MedianAt(c, s, n - 1 - 2 * step, n - 1 - step, n - 1))
  }

  lemma MedianAtIsMedian(c: Compare, s: seq<Item>, i: nat, j: nat, k: nat)
    requires TotalPreorder(c) && i < |s| && j < |s| && k < |s|
    ensures IsMedian(c, MedianAt(c, s, i, j, k), s[i], s[j], s[k])
  {
    MedianIsMedian(c, s[i], s[j], s[k]);
  }

  /** x, y and z are medians of three elements at the low end, in the middle and at the high end. */
  ghost predicate Medians(c: Compare, s: seq<Item>, e: nat, x: Item, y: Item, z: Item)
    requires 2 * e < |s| && 2 * e <= |s| - 1
  {
    var n := |s|;
    && IsMedian(c, x, s[0], s[e], s[2 * e])
    && n / 2 >= e && n / 2 + e < n && IsMedian(c, y, s[n / 2 - e], s[n / 2], s[n / 2 + e])
    && IsMedian(c, z, s[n - 1 - 2 * e], s[n - 1 - e], s[n - 1])
  }

  /** Below 50 elements the median of the first, the middle and the last one; otherwise the median of the medians
      of three at the low end, in the middle and at the high end, an eighth apart. */
  lemma PivotIsMedian(c: Compare, s: seq<Item>)
    requires TotalPreorder(c) && s != []
    ensures var n, e := |s|, |s| / 8;
      if n < 50 then IsMedian(c, Pivot(c, s), s[0], s[n / 2], s[n - 1])
      else exists x, y, z :: Medians(c, s, e, x, y, z) && IsMedian(c, Pivot(c, s), x, y, z)
  {
    var n, e := |s|, |s| / 8;
    if n < 50 {
      MedianAtIsMedian(c, s, 0, n / 2, n - 1);
    } else {
      MedianAtIsMedian(c, s, 0, e, 2 * e);
      MedianAtIsMedian(c, s, n / 2 - e, n / 2, n / 2 + e);
      MedianAtIsMedian(c, s, n - 1 - 2 * e, n - 1 - e, n - 1);
      var x, y := MedianAt(c, s, 0, e, 2 * e), MedianAt(c, s, n / 2 - e, n / 2, n / 2 + e);
      var z := MedianAt(c, s, n - 1 - 2 * e, n - 1 - e, n - 1);
      MedianIsMedian(c, x, y, z);
      assert Medians(c, s, e, x, y, z);
    }
  }

  method Sample(a: array<Item>, lo: nat, hi: nat, i: nat, j: nat, k: nat, c: Compare) returns (m: Item)
    requires lo <= hi <= a.Length && i < hi - lo && j < hi - lo && k < hi - lo
    ensures m == MedianAt(c, a[..][lo..hi], i, j, k)
  {
    m := Median3(a[lo + i], a[lo + j], a[lo + k], c);
  }

  method ChoosePivot(a: array<Item>, lo: nat, hi: nat, c: Compare) returns (p: Item)
    requires lo < hi <= a.Length
    ensures p == Pivot(c, a[..][lo..hi])
  {
    var n := hi - lo;
    if n < 50 {
      p := Sample(a, lo, hi, 0, n / 2, n - 1, c);
      return;
    }
    var step := n / 8;
    var low := Sample(a, lo, hi, 0, step, 2 * step, c);
    var mid := Sample(a, lo, hi, n / 2 - step, n / 2, n / 2 + step, c);
    var high := Sample(a, lo, hi, n - 1 - 2 * step, n - 1 - step, n - 1, c);
    p := Median3(low, mid, high, c);
  }

  // ---------- Partitioning ----------

  /** Less than p, equivalent to it, not looked at yet, greater than p. */
  ghost predicate Flags(c: Compare, s: seq<Item>, p: Item, lo: nat, lt: nat, i: nat, gt: nat, hi: nat) {
    && lo <= lt <= i <= gt <= hi <= |s|
    && (forall k {:trigger s[k]} :: lo <= k < lt ==> c(s[k], p) < 0)
    && (forall k {:trigger s[k]} :: lt <= k < i ==> c(s[k], p) == 0)
    && (forall k {:trigger s[k]} :: gt <= k < hi ==> c(s[k], p) > 0)
  }

  /** Three regions around the value at lt. */
  ghost predicate ThreeWay(c: Compare, s: seq<Item>, lo: nat, lt: nat, gt: nat, hi: nat) {
    lt < |s| && Flags(c, s, s[lt], lo, lt, gt, gt, hi)
  }

  lemma FlagsAroundElement(c: Compare, was: seq<Item>, s: seq<Item>, p: Item, lo: nat, lt: nat, gt: nat, hi: nat)
    requires TotalPreorder(c) && Rearranged(was, s, lo, hi) && p in was[lo..hi] && Flags(c, s, p, lo, lt, gt, gt, hi)
    ensures lt < gt && ThreeWay(c, s, lo, lt, gt, hi)
  {
    var j :| 0 <= j < |was[lo..hi]| && was[lo..hi][j] == p;
    assert Rearranged(s, was, lo, hi);
    var k := RearrangedHas(s, was, lo, hi, lo + j);
    assert s[k] == p && c(p, p) == 0;
    var q := s[lt];
    assert c(q, p) == 0;
    forall m | lo <= m < hi ensures c(s[m], q) < 0 <==> c(s[m], p) < 0
      ensures c(s[m], q) > 0 <==> c(s[m], p) > 0
    {
      SameSide(c, s[m], p, q);
    }
  }

  lemma SameSide(c: Compare, x: Item, p: Item, q: Item)
    requires TotalPreorder(c) && c(q, p) == 0
    ensures c(x, q) < 0 <==> c(x, p) < 0
    ensures c(x, q) > 0 <==> c(x, p) > 0
  {
    assert Leq(c, p, q) && Leq(c, q, p);
    assert Leq(c, x, p) ==> Leq(c, x, q);
    assert Leq(c, x, q) ==> Leq(c, x, p);
    assert Leq(c, p, x) ==> Leq(c, q, x);
    assert Leq(c, q, x) ==> Leq(c, p, x);
  }

  lemma FlagsAfterLess(c: Compare, s: seq<Item>, p: Item, lo: nat, lt: nat, i: nat, gt: nat, hi: nat)
    requires Flags(c, s, p, lo, lt, i, gt, hi) && i < gt && c(s[i], p) < 0
    ensures Flags(c, s[lt := s[i]][i := s[lt]], p, lo, lt + 1, i + 1, gt, hi)
  {
  }

  lemma FlagsAfterGreater(c: Compare, s: seq<Item>, p: Item, lo: nat, lt: nat, i: nat, gt: nat, hi: nat)
    requires Flags(c, s, p, lo, lt, i, gt, hi) && i < gt && c(s[i], p) > 0
    ensures Flags(c, s[gt - 1 := s[i]][i := s[gt - 1]], p, lo, lt, i, gt - 1, hi)
  {
  }

  /** One exchange, with what it does to the whole array. */
  method Swap(a: array<Item>, i: nat, j: nat, lo: nat, hi: nat, ghost start: seq<Item>)
    requires lo <= i < hi <= a.Length && lo <= j < hi && Rearranged(start, a[..], lo, hi)
    modifies a
    ensures a[..] == old(a[..])[i := old(a[j])][j := old(a[i])] && Rearranged(start, a[..], lo, hi)
  {
    ghost var was := a[..];
    SwapRearranges(was, lo, hi, i, j);
    a[i], a[j] := a[j], a[i];
    RearrangedTwice(start, was, a[..], lo, hi);
  }

  /** Looks at one element and sends it to its region. */
  method PlaceNext(a: array<Item>, p: Item, lo: nat, lt0: nat, i0: nat, gt0: nat, hi: nat, c: Compare,
      ghost was: seq<Item>)
      returns (lt: nat, i: nat, gt: nat)
    requires i0 < gt0 && a.Length == |was| && Flags(c, a[..], p, lo, lt0, i0, gt0, hi) &&
        Rearranged(was, a[..], lo, hi)
    modifies a
    ensures Flags(c, a[..], p, lo, lt, i, gt, hi) && Rearranged(was, a[..], lo, hi)
    ensures gt - i == gt0 - i0 - 1
  {
    lt, i, gt := lt0, i0, gt0;
    var sign := c(a[i], p);
    if sign < 0 {
      FlagsAfterLess(c, a[..], p, lo, lt, i, gt, hi);
      Swap(a, lt, i, lo, hi, was);
      lt := lt + 1;
      i := i + 1;
    } else if sign > 0 {
      FlagsAfterGreater(c, a[..], p, lo, lt, i, gt, hi);
      gt := gt - 1;
      Swap(a, gt, i, lo, hi, was);
    } else {
      i := i + 1;
    }
  }

  /** Dutch national flag. */
  method PartitionThreeWay(a: array<Item>, lo: nat, hi: nat, c: Compare) returns (lt: nat, gt: nat)
    requires lo < hi <= a.Length && TotalPreorder(c)
    modifies a
    ensures lo <= lt < gt <= hi && ThreeWay(c, a[..], lo, lt, gt, hi)
    ensures Rearranged(old(a[..]), a[..], lo, hi)
  {
    ghost var was := a[..];
    var pivot := ChoosePivot(a, lo, hi, c);
    lt, gt := lo, hi;
    var i: nat := lo;
    while i < gt
      invariant Flags(c, a[..], pivot, lo, lt, i, gt, hi)
      invariant Rearranged(was, a[..], lo, hi)
      decreases gt - i
    {
      lt, i, gt := PlaceNext(a, pivot, lo, lt, i, gt, hi, c, was);
    }
    FlagsAroundElement(c, was, a[..], pivot, lo, lt, gt, hi);
  }

  // ---------- The recursion ----------

  /** Every pair is in order, but for those that both lie from l to h. */
  ghost predicate InOrderBut(c: Compare, s: seq<Item>, lo: nat, l: nat, h: nat, hi: nat) {
    && lo <= l <= h <= hi <= |s|
    && forall i, k {:trigger s[i], s[k]} :: lo <= i < k < hi && !(l <= i && k < h) ==> Leq(c, s[i], s[k])
  }

  /** Rearranging the open part disturbs no pair outside it. */
  lemma InOrderKept(c: Compare, s: seq<Item>, t: seq<Item>, lo: nat, l: nat, h: nat, hi: nat)
    requires InOrderBut(c, s, lo, l, h, hi) && Rearranged(s, t, l, h)
    ensures InOrderBut(c, t, lo, l, h, hi)
  {
    forall i, k | lo <= i < k < hi && !(l <= i && k < h) ensures Leq(c, t[i], t[k]) {
      var i', k' := Origin(s, t, l, h, i), Origin(s, t, l, h, k);
      assert Leq(c, s[i'], s[k']);
    }
  }

  /** Where an element of t stood in s. */
  ghost function Origin(s: seq<Item>, t: seq<Item>, l: nat, h: nat, k: nat): (j: nat)
    requires Rearranged(s, t, l, h) && k < |t|
    ensures j < |s| && s[j] == t[k]
    ensures if l <= k < h then l <= j < h else j == k
  {
    if l <= k < h then
      assert t[l..h][k - l] == t[k];
      assert t[k] in multiset(s[l..h]);
      assert t[k] in s[l..h];
      var m :| 0 <= m < |s[l..h]| && s[l..h][m] == t[k];
      l + m
    else
      assert k < l ==> t[k] == t[..l][k] == s[..l][k];
      assert k >= h ==> t[k] == t[h..][k - h] == s[h..][k - h];
      k
  }

  /** After a partition only pairs within one region can be out of order; equal ones are not. */
  lemma PartitionOrders(c: Compare, s: seq<Item>, lo: nat, l: nat, lt: nat, gt: nat, h: nat, hi: nat, i: nat, k: nat)
    requires TotalPreorder(c) && InOrderBut(c, s, lo, l, h, hi) && lt < gt && ThreeWay(c, s, l, lt, gt, h)
    requires lo <= i < k < hi && !(l <= i && k < lt) && !(gt <= i && k < h)
    ensures Leq(c, s[i], s[k])
  {
    if l <= i && k < h {
      var p := s[lt];
      assert i < gt ==> Leq(c, s[i], p);
      assert lt <= k ==> Leq(c, p, s[k]);
    }
  }

  lemma SortedPair(c: Compare, t: seq<Item>, l: nat, h: nat, i: nat, k: nat)
    requires l <= i < k < h <= |t| && Sorted(c, t[l..h])
    ensures Leq(c, t[i], t[k])
  {
    var s := t[l..h];
    assert s[i - l] == t[i] && s[k - l] == t[k];
  }

  /** Sorting the left region leaves only the right one open. */
  lemma LeftSorted(c: Compare, s: seq<Item>, t: seq<Item>, lo: nat, l: nat, lt: nat, gt: nat, h: nat, hi: nat)
    requires TotalPreorder(c) && InOrderBut(c, s, lo, l, h, hi) && lt < gt && ThreeWay(c, s, l, lt, gt, h)
    requires Rearranged(s, t, l, lt) && Sorted(c, t[l..lt])
    ensures InOrderBut(c, t, lo, gt, h, hi)
  {
    forall i, k | lo <= i < k < hi && !(gt <= i && k < h) ensures Leq(c, t[i], t[k]) {
      if l <= i && k < lt {
        SortedPair(c, t, l, lt, i, k);
      } else {
        var i', k' := Origin(s, t, l, lt, i), Origin(s, t, l, lt, k);
        PartitionOrders(c, s, lo, l, lt, gt, h, hi, i', k');
      }
    }
  }

  /** And the other way round. */
  lemma RightSorted(c: Compare, s: seq<Item>, t: seq<Item>, lo: nat, l: nat, lt: nat, gt: nat, h: nat, hi: nat)
    requires TotalPreorder(c) && InOrderBut(c, s, lo, l, h, hi) && lt < gt && ThreeWay(c, s, l, lt, gt, h)
    requires Rearranged(s, t, gt, h) && Sorted(c, t[gt..h])
    ensures InOrderBut(c, t, lo, l, lt, hi)
  {
    forall i, k | lo <= i < k < hi && !(l <= i && k < lt) ensures Leq(c, t[i], t[k]) {
      if gt <= i && k < h {
        SortedPair(c, t, gt, h, i, k);
      } else {
        var i', k' := Origin(s, t, gt, h, i), Origin(s, t, gt, h, k);
        PartitionOrders(c, s, lo, l, lt, gt, h, hi, i', k');
      }
    }
  }

  lemma AllInOrder(c: Compare, s: seq<Item>, t: seq<Item>, lo: nat, l: nat, h: nat, hi: nat)
    requires InOrderBut(c, s, lo, l, h, hi) && Rearranged(s, t, l, h) && Sorted(c, t[l..h])
    ensures Sorted(c, t[lo..hi])
  {
    InOrderKept(c, s, t, lo, l, h, hi);
    var u := t[lo..hi];
    forall i, k | 0 <= i < k < |u| ensures Leq(c, u[i], u[k]) {
      assert u[i] == t[lo + i] && u[k] == t[lo + k];
      if l <= lo + i && lo + k < h {
        SortedPair(c, t, l, h, lo + i, lo + k);
      }
    }
  }

  /** Rearranged so far within the range, and in order but for the part from l to h. */
  ghost predicate Narrowed(c: Compare, start: seq<Item>, s: seq<Item>, lo: nat, l: nat, h: nat, hi: nat) {
    Rearranged(start, s, lo, hi) && InOrderBut(c, s, lo, l, h, hi)
  }

  lemma NarrowedToRight(c: Compare, start: seq<Item>, s: seq<Item>, parted: seq<Item>, t: seq<Item>,
      lo: nat, l: nat, lt: nat, gt: nat, h: nat, hi: nat)
    requires TotalPreorder(c) && Narrowed(c, start, s, lo, l, h, hi)
    requires Rearranged(s, parted, l, h) && lt < gt && ThreeWay(c, parted, l, lt, gt, h)
    requires Rearranged(parted, t, l, lt) && Sorted(c, t[l..lt])
    ensures Narrowed(c, start, t, lo, gt, h, hi)
  {
    InOrderKept(c, s, parted, lo, l, h, hi);
    LeftSorted(c, parted, t, lo, l, lt, gt, h, hi);
    RearrangedWider(s, parted, l, h, lo, hi);
    RearrangedWider(parted, t, l, lt, lo, hi);
    RearrangedTwice(start, s, parted, lo, hi);
    RearrangedTwice(start, parted, t, lo, hi);
  }

  lemma NarrowedToLeft(c: Compare, start: seq<Item>, s: seq<Item>, parted: seq<Item>, t: seq<Item>,
      lo: nat, l: nat, lt: nat, gt: nat, h: nat, hi: nat)
    requires TotalPreorder(c) && Narrowed(c, start, s, lo, l, h, hi)
    requires Rearranged(s, parted, l, h) && lt < gt && ThreeWay(c, parted, l, lt, gt, h)
    requires Rearranged(parted, t, gt, h) && Sorted(c, t[gt..h])
    ensures Narrowed(c, start, t, lo, l, lt, hi)
  {
    InOrderKept(c, s, parted, lo, l, h, hi);
    RightSorted(c, parted, t, lo, l, lt, gt, h, hi);
    RearrangedWider(s, parted, l, h, lo, hi);
    RearrangedWider(parted, t, gt, h, lo, hi);
    RearrangedTwice(start, s, parted, lo, hi);
    RearrangedTwice(start, parted, t, lo, hi);
  }

  lemma NarrowedAway(c: Compare, start: seq<Item>, s: seq<Item>, t: seq<Item>, lo: nat, l: nat, h: nat, hi: nat)
    requires Narrowed(c, start, s, lo, l, h, hi) && Rearranged(s, t, l, h) && Sorted(c, t[l..h])
    ensures Rearranged(start, t, lo, hi) && Sorted(c, t[lo..hi])
  {
    AllInOrder(c, s, t, lo, l, h, hi);
    RearrangedWider(s, t, l, h, lo, hi);
    RearrangedTwice(start, s, t, lo, hi);
  }

  // ---------- What partitioning costs ----------

  /** rounds[k] partitions looked at the element that ends at place k of n: no more than the budget. */
  ghost predicate WithinBudget(rounds: seq<nat>, n: nat, budget: int) {
    |rounds| == n && forall k :: 0 <= k < n ==> rounds[k] <= if budget > 0 then budget else 0
  }

  /** The same, and the elements of the part from l to h have all been looked at equally often so far. */
  ghost predicate Charged(rounds: seq<nat>, n: nat, l: nat, h: nat, used: int, budget: int) {
    WithinBudget(rounds, n, budget) && forall k :: l <= k < h && k < n ==> rounds[k] == used
  }

  /** What one round adds from l on: one partition to each element, and the recursive call's to its side. */
  ghost predicate OneRound(added: seq<nat>, n: nat, l: nat, h: nat, left: nat) {
    |added| == n && forall k :: 0 <= k < n ==> 1 <= added[k] <= left && (l <= k < h ==> added[k] == 1)
  }

  /** The recursive call's counts, from place `at` of n on, and one more for every place. */
  ghost function PlusOne(more: seq<nat>, n: nat, at: nat): seq<nat> {
    seq(n, k requires 0 <= k < n => if at <= k < at + |more| then 1 + more[k - at] else 1)
  }

  lemma PlusOneIsOneRound(more: seq<nat>, m: nat, n: nat, at: nat, l: nat, h: nat, left: nat)
    requires left > 0 && WithinBudget(more, m, left - 1) && at + m <= n && (h <= at || at + m <= l)
    ensures OneRound(PlusOne(more, n, at), n, l, h, left)
  {
  }

  ghost function Charge(rounds: seq<nat>, added: seq<nat>, at: nat): seq<nat> {
    seq(|rounds|, k requires 0 <= k < |rounds| =>
      rounds[k] + if at <= k < at + |added| then added[k - at] else 0)
  }

  lemma ChargeOneRound(rounds: seq<nat>, added: seq<nat>, n: nat, l: nat, h: nat, l': nat, h': nat, left: nat,
      budget: int)
    requires l <= l' <= h' <= h <= n && 0 < left <= budget && Charged(rounds, n, l, h, budget - left, budget)
    requires OneRound(added, h - l, l' - l, h' - l, left)
    ensures Charged(Charge(rounds, added, l), n, l', h', budget - (left - 1), budget)
  {
    var next := Charge(rounds, added, l);
    forall k | 0 <= k < n
      ensures next[k] <= budget && (l' <= k < h' ==> next[k] == budget - (left - 1))
    {
      if l <= k < h {
        assert next[k] == rounds[k] + added[k - l];
      }
    }
  }

  function Sum(rounds: seq<nat>): nat {
    if rounds == [] then 0 else rounds[0] + Sum(rounds[1..])
  }

  lemma {:induction false} SumWithinBudget(rounds: seq<nat>, n: nat, budget: nat)
    requires WithinBudget(rounds, n, budget)
    ensures Sum(rounds) <= n * budget
  {
    if n > 0 {
      SumWithinBudget(rounds[1..], n - 1, budget);
      assert n * budget == (n - 1) * budget + budget;
    }
  }

  /** The smaller side of m elements, at some depth of its own, is one level further down. */
  lemma OneLevelDown(n: nat, whole: nat, m: nat, depth: nat)
    requires n <= whole && 2 * m < n && n >= 2 && depth <= Log2(m)
    ensures depth + 1 <= Log2(whole)
  {
    Log2OfHalf(m, n);
    Log2Grows(n, whole);
  }

  // ---------- The rounds ----------

  /**
   * One round: partition, then recurse into the smaller side, of m elements. What comes back is the
   * larger side, how deep the recursive call nested, and how often each element was looked at.
   */
  method Round(a: array<Item>, lo: nat, l: nat, h: nat, hi: nat, left: nat, c: Compare, ghost start: seq<Item>)
      returns (l': nat, h': nat, ghost m: nat, ghost below: nat, ghost added: seq<nat>)
    requires lo <= l && l + 12 < h <= hi <= a.Length && left > 0 && TotalPreorder(c)
    requires Narrowed(c, start, a[..], lo, l, h, hi)
    modifies a
    ensures l <= l' <= h' <= h && Narrowed(c, start, a[..], lo, l', h', hi)
    ensures 2 * m < h - l && m + (h' - l') < h - l
    ensures below <= Log2(m) && OneRound(added, h - l, l' - l, h' - l, left)
    decreases h - l, 0
  {
    ghost var now := a[..];
    var lt, gt := PartitionThreeWay(a, l, h, c);
    ghost var more;
    if lt - l < h - gt {
      m, l', h' := lt - l, gt, h;
      below, more := SortLeft(a, lo, l, lt, gt, h, hi, left - 1, c, start, now);
      PlusOneIsOneRound(more, m, h - l, 0, l' - l, h' - l, left);
      added := PlusOne(more, h - l, 0);
    } else {
      m, l', h' := h - gt, l, lt;
      below, more := SortRight(a, lo, l, lt, gt, h, hi, left - 1, c, start, now);
      PlusOneIsOneRound(more, m, h - l, gt - l, l' - l, h' - l, left);
      added := PlusOne(more, h - l, gt - l);
    }
  }

  method SortLeft(a: array<Item>, lo: nat, l: nat, lt: nat, gt: nat, h: nat, hi: nat, left: nat, c: Compare,
      ghost start: seq<Item>, ghost now: seq<Item>) returns (ghost below: nat, ghost more: seq<nat>)
    requires TotalPreorder(c) && Narrowed(c, start, now, lo, l, h, hi) && |now| == a.Length
    requires Rearranged(now, a[..], l, h) && l <= lt < gt <= h && ThreeWay(c, a[..], l, lt, gt, h)
    modifies a
    ensures Narrowed(c, start, a[..], lo, gt, h, hi)
    ensures below <= Log2(lt - l) && WithinBudget(more, lt - l, left)
    decreases lt - l, 2
  {
    ghost var parted := a[..];
    below, more := QuickSort(a, l, lt, left, c);
    NarrowedToRight(c, start, now, parted, a[..], lo, l, lt, gt, h, hi);
  }

  method SortRight(a: array<Item>, lo: nat, l: nat, lt: nat, gt: nat, h: nat, hi: nat, left: nat, c: Compare,
      ghost start: seq<Item>, ghost now: seq<Item>) returns (ghost below: nat, ghost more: seq<nat>)
    requires TotalPreorder(c) && Narrowed(c, start, now, lo, l, h, hi) && |now| == a.Length
    requires Rearranged(now, a[..], l, h) && l <= lt < gt <= h && ThreeWay(c, a[..], l, lt, gt, h)
    modifies a
    ensures Narrowed(c, start, a[..], lo, l, lt, hi)
    ensures below <= Log2(h - gt) && WithinBudget(more, h - gt, left)
    decreases h - gt, 2
  {
    ghost var parted := a[..];
    below, more := QuickSort(a, gt, h, left, c);
    NarrowedToLeft(c, start, now, parted, a[..], lo, l, lt, gt, h, hi);
  }

  /**
   * Sorts for every budget, by partitions while it lasts and by heapsort afterwards. deepest counts the
   * nested calls below this one, rounds for each place the partitions that looked at the element which
   * ends there.
   */
  method QuickSort(a: array<Item>, lo: nat, hi: nat, budget: int, c: Compare)
      returns (ghost deepest: nat, ghost rounds: seq<nat>)
    requires lo <= hi <= a.Length && TotalPreorder(c)
    modifies a
    ensures Sorted(c, a[..][lo..hi]) && Rearranged(old(a[..]), a[..], lo, hi)
    ensures deepest <= Log2(hi - lo)
    ensures WithinBudget(rounds, hi - lo, budget)
    decreases hi - lo, 1
  {
    ghost var start := a[..];
    var l: nat, h: nat, left := lo, hi, budget;
    deepest, rounds := 0, seq(hi - lo, _ => 0);
    while h - l > 12
      invariant lo <= l <= h <= hi && Narrowed(c, start, a[..], lo, l, h, hi)
      invariant deepest <= Log2(hi - lo)
      invariant left <= budget && Charged(rounds, hi - lo, l - lo, h - lo, budget - left, budget)
      decreases h - l
    {
      if left <= 0 {
        ghost var now := a[..];
        HeapFunc(a, l, h, c);
        NarrowedAway(c, start, now, a[..], lo, l, h, hi);
        return;
      }
      ghost var l0, h0 := l - lo, h - lo;
      ghost var m, below, added;
      l, h, m, below, added := Round(a, lo, l, h, hi, left, c, start);
      OneLevelDown(h0 - l0, hi - lo, m, below);
      ChargeOneRound(rounds, added, hi - lo, l0, h0, l - lo, h - lo, left, budget);
      left := left - 1;
      deepest := if below + 1 > deepest then below + 1 else deepest;
      rounds := Charge(rounds, added, l0);
    }
    ghost var now := a[..];
    InsertionFunc(a, l, h, c);
    NarrowedAway(c, start, now, a[..], lo, l, h, hi);
  }

  /** Sorts in place, whatever the input looks like. */
  method QuickFunc(a: array<Item>, c: Compare) returns (ghost deepest: nat, ghost rounds: seq<nat>)
    requires TotalPreorder(c)
    modifies a
    ensures Sorted(c, a[..]) && multiset(a[..]) == multiset(old(a[..]))
    ensures forall i, j :: 0 <= i < j < a.Length ==> c(a[i], a[j]) <= 0
    ensures deepest <= Log2(a.Length)
    ensures WithinBudget(rounds, a.Length, 2 * Log2(a.Length) + 8)
    ensures Sum(rounds) <= a.Length * (2 * Log2(a.Length) + 8)
  {
    ghost var was := a[..];
    var budget := BudgetFor(a.Length);
    deepest, rounds := QuickSort(a, 0, a.Length, budget, c);
    SumWithinBudget(rounds, a.Length, budget);
    assert a[..][0..a.Length] == a[..] && was[0..a.Length] == was;
    SortedPairs(c, a[..]);
  }
}
