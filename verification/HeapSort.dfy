/** Heapsort, on a range of an array. */
module HeapSorts {
  import opened SortingModel

  /** The index of the parent, for k > 0. */
  function Parent(k: int): int {
    (k - 1) / 2
  }

  lemma ChildrenHaveParent(p: nat, k: int)
    ensures k > 0 && Parent(k) == p <==> k == 2 * p + 1 || k == 2 * p + 2
  {
  }

  /** k is no larger than its parent, if the parent is at or after from. */
  ghost predicate Below(c: Compare, h: seq<Item>, from: nat, k: int) {
    0 < k < |h| && from <= Parent(k) ==> Leq(c, h[k], h[Parent(k)])
  }

  ghost predicate Heap(c: Compare, h: seq<Item>, from: nat) {
    forall k {:trigger Below(c, h, from, k)} :: Below(c, h, from, k)
  }

  /** k is no larger than its grandparent, if its parent is root. */
  ghost predicate Spans(c: Compare, h: seq<Item>, from: nat, root: nat, k: int) {
    0 < root < |h| && 0 < k < |h| && Parent(k) == root && from <= Parent(root) ==> Leq(c, h[k], h[Parent(root)])
  }

  /** A heap but for root, which may be smaller than its children. */
  ghost predicate HeapBut(c: Compare, h: seq<Item>, from: nat, root: nat) {
    && (forall k {:trigger Below(c, h, from, k)} :: Parent(k) != root ==> Below(c, h, from, k))
    && (forall k {:trigger Spans(c, h, from, root, k)} :: Spans(c, h, from, root, k))
  }

  /** root itself or a child of it, no smaller than root and its children. */
  ghost predicate ChosenChild(c: Compare, h: seq<Item>, root: nat, largest: nat) {
    && root < |h| && largest < |h| && Leq(c, h[root], h[largest])
    && (largest != root ==> root < largest && Parent(largest) == root)
    && forall k {:trigger Parent(k)} :: 0 < k < |h| && Parent(k) == root ==> Leq(c, h[k], h[largest])
  }

  lemma SiftedOnce(c: Compare, h: seq<Item>, from: nat, root: nat, child: nat)
    requires TotalPreorder(c) && HeapBut(c, h, from, root)
    requires from <= root && child != root && ChosenChild(c, h, root, child)
    ensures HeapBut(c, h[root := h[child]][child := h[root]], from, child)
  {
    var g := h[root := h[child]][child := h[root]];
    forall k | Parent(k) != child ensures Below(c, g, from, k) {
      assert Below(c, h, from, k) || Parent(k) == root;
      assert Spans(c, h, from, root, child);
    }
    forall k ensures Spans(c, g, from, child, k) {
      if Parent(k) == child {
        assert Below(c, h, from, k);
      }
    }
  }

  lemma SiftedAll(c: Compare, h: seq<Item>, from: nat, root: nat)
    requires HeapBut(c, h, from, root) && ChosenChild(c, h, root, root)
    ensures Heap(c, h, from)
  {
    forall k ensures Below(c, h, from, k) {
    }
  }

  /** The root of a heap is its greatest. */
  lemma {:induction false} RootIsGreatest(c: Compare, h: seq<Item>, k: nat)
    requires TotalPreorder(c) && Heap(c, h, 0) && k < |h|
    ensures Leq(c, h[k], h[0])
  {
    if k == 0 {
      assert c(h[0], h[0]) == 0;
    } else {
      RootIsGreatest(c, h, Parent(k));
      assert Below(c, h, 0, k);
      assert Leq(c, h[k], h[Parent(k)]) && Leq(c, h[Parent(k)], h[0]);
    }
  }

  /** Leaves are heaps already. */
  lemma LeavesAreHeaps(c: Compare, h: seq<Item>, from: nat)
    requires from >= |h| / 2
    ensures Heap(c, h, from)
  {
    forall k ensures Below(c, h, from, k) {
    }
  }

  lemma RootOpened(c: Compare, h: seq<Item>, from: nat)
    requires Heap(c, h, from + 1)
    ensures HeapBut(c, h, from, from)
  {
    forall k | Parent(k) != from ensures Below(c, h, from, k) {
      assert Below(c, h, from + 1, k);
    }
    forall k ensures Spans(c, h, from, from, k) {
    }
  }

  /** Picking the larger of the children that exceed the root. */
  lemma LargestChild(c: Compare, h: seq<Item>, root: nat, largest: nat)
    requires TotalPreorder(c) && root < |h|
    requires var left, right := 2 * root + 1, 2 * root + 2;
      var first := if left < |h| && c(h[left], h[root]) > 0 then left else root;
      largest == if right < |h| && c(h[right], h[first]) > 0 then right else first
    ensures ChosenChild(c, h, root, largest)
  {
    var left, right := 2 * root + 1, 2 * root + 2;
    assert c(h[root], h[root]) == 0;
    assert left < |h| ==> c(h[left], h[left]) == 0;
    assert right < |h| ==> c(h[right], h[right]) == 0;
    assert left < |h| ==> Leq(c, h[left], h[root]) || Leq(c, h[root], h[left]);
    assert right < |h| ==> Leq(c, h[right], h[largest]);
    assert left < |h| && right < |h| ==> Leq(c, h[left], h[right]) || Leq(c, h[right], h[left]);
    ChildrenHaveParent(root, left);
    ChildrenHaveParent(root, right);
  }

  /** The child to sink to, or root when the heap holds there. */
  method Largest(a: array<Item>, lo: nat, root: nat, size: nat, c: Compare) returns (largest: nat)
    requires lo + size <= a.Length && root < size && TotalPreorder(c)
    ensures ChosenChild(c, a[lo..lo + size], root, largest)
  {
    largest := root;
    var left, right := 2 * root + 1, 2 * root + 2;
    if left < size && c(a[lo + left], a[lo + largest]) > 0 {
      largest := left;
    }
    if right < size && c(a[lo + right], a[lo + largest]) > 0 {
      largest := right;
    }
    LargestChild(c, a[lo..lo + size], root, largest);
  }

  /** What one exchange leaves, on the whole array. */
  /** An exchange within a range is one of the range. */
  lemma RangeSwapped(s: seq<Item>, lo: nat, size: nat, i: nat, j: nat)
    requires lo + size <= |s| && i < size && j < size
    ensures var h := s[lo..lo + size];
      s[lo + i := s[lo + j]][lo + j := s[lo + i]][lo..lo + size] == h[i := h[j]][j := h[i]]
  {
  }

  lemma SwapOnceMore(was: seq<Item>, now: seq<Item>, next: seq<Item>, lo: nat, hi: nat, i: nat, j: nat)
    requires lo <= i < hi <= |now| && lo <= j < hi && Rearranged(was, now, lo, hi)
    requires next == now[i := now[j]][j := now[i]]
    ensures Rearranged(was, next, lo, hi)
  {
    SwapRearranges(now, lo, hi, i, j);
    RearrangedTwice(was, now, next, lo, hi);
  }

  lemma SiftStep(c: Compare, was: seq<Item>, now: seq<Item>, next: seq<Item>, lo: nat, size: nat, from: nat,
      root: nat, child: nat)
    requires TotalPreorder(c) && lo + size <= |now| && Rearranged(was, now, lo, lo + size)
    requires from <= root && child != root && HeapBut(c, now[lo..lo + size], from, root)
    requires ChosenChild(c, now[lo..lo + size], root, child)
    requires next == now[lo + root := now[lo + child]][lo + child := now[lo + root]]
    ensures HeapBut(c, next[lo..lo + size], from, child) && Rearranged(was, next, lo, lo + size)
  {
    SwapOnceMore(was, now, next, lo, lo + size, lo + root, lo + child);
    var h := now[lo..lo + size];
    RangeSwapped(now, lo, size, root, child);
    SiftedOnce(c, h, from, root, child);
  }

  /** Restores the heap at root, within the first size elements of the range. */
  method SiftDown(a: array<Item>, lo: nat, from: nat, size: nat, c: Compare)
    requires lo + size <= a.Length && from < size && TotalPreorder(c)
    requires HeapBut(c, a[..][lo..lo + size], from, from)
    modifies a
    ensures Heap(c, a[..][lo..lo + size], from)
    ensures Rearranged(old(a[..]), a[..], lo, lo + size)
  {
    var root := from;
    ghost var was := a[..];
    while true
      invariant from <= root < size
      invariant HeapBut(c, a[..][lo..lo + size], from, root)
      invariant Rearranged(was, a[..], lo, lo + size)
      decreases size - root
    {
      var largest := Largest(a, lo, root, size, c);
      ghost var now := a[..];
      assert now[lo..lo + size] == a[lo..lo + size];
      if largest == root {
        SiftedAll(c, now[lo..lo + size], from, root);
        return;
      }
      a[lo + root], a[lo + largest] := a[lo + largest], a[lo + root];
      SiftStep(c, was, now, a[..], lo, size, from, root, largest);
      root := largest;
    }
  }

  // ---------- Both phases ----------

  /** From m on everything is in its final place. */
  ghost predicate Split(c: Compare, s: seq<Item>, lo: nat, m: nat, hi: nat) {
    && lo <= m <= hi <= |s|
    && Sorted(c, s[m..hi])
    && forall i, k {:trigger s[i], s[k]} :: lo <= i < m <= k < hi ==> Leq(c, s[i], s[k])
  }

  /** Exchanging the root with the last heap element moves the boundary down by one. */
  lemma GreatestPlaced(c: Compare, s: seq<Item>, t: seq<Item>, lo: nat, m: nat, hi: nat)
    requires TotalPreorder(c) && Split(c, s, lo, m, hi) && lo + 1 < m && Heap(c, s[lo..m], 0)
    requires t == s[lo := s[m - 1]][m - 1 := s[lo]]
    ensures Split(c, t, lo, m - 1, hi) && HeapBut(c, t[lo..m - 1], 0, 0)
  {
    var h, g := s[lo..m], t[lo..m - 1];
    forall i | lo <= i < m ensures Leq(c, s[i], t[m - 1]) {
      RootIsGreatest(c, h, i - lo);
      assert h[i - lo] == s[i];
    }
    assert t[m - 1..hi] == [t[m - 1]] + s[m..hi];
    SortedCons(c, t[m - 1], s[m..hi]);
    forall k | Parent(k) != 0 ensures Below(c, g, 0, k) {
      assert Below(c, h, 0, k);
    }
  }

  /** Rearranging what is before the boundary keeps it. */
  lemma SplitKept(c: Compare, s: seq<Item>, t: seq<Item>, lo: nat, m: nat, hi: nat)
    requires Split(c, s, lo, m, hi) && Rearranged(s, t, lo, m)
    ensures Split(c, t, lo, m, hi)
  {
    assert t[m..hi] == t[m..][..hi - m] == s[m..][..hi - m] == s[m..hi];
    forall i, k | lo <= i < m <= k < hi ensures Leq(c, t[i], t[k]) {
      var j := RearrangedHas(s, t, lo, m, i);
      assert t[m..][k - m] == s[m..][k - m];
    }
  }

  lemma SplitIsSorted(c: Compare, s: seq<Item>, lo: nat, m: nat, hi: nat)
    requires Split(c, s, lo, m, hi) && m <= lo + 1
    ensures Sorted(c, s[lo..hi])
  {
    var t := s[lo..hi];
    forall i, k | 0 <= i < k < |t| ensures Leq(c, t[i], t[k]) {
      assert t[i] == s[lo + i] && t[k] == s[lo + k];
      if lo + i >= m {
        assert s[m..hi][lo + i - m] == t[i] && s[m..hi][lo + k - m] == t[k];
      }
    }
  }

  /** From the last parent to the first. */
  method BuildHeap(a: array<Item>, lo: nat, hi: nat, c: Compare)
    requires lo <= hi <= a.Length && TotalPreorder(c)
    modifies a
    ensures Heap(c, a[..][lo..hi], 0) && Rearranged(old(a[..]), a[..], lo, hi)
  {
    ghost var was := a[..];
    var parents := (hi - lo) / 2;
    LeavesAreHeaps(c, was[lo..hi], parents);
    while parents > 0
      invariant 0 <= parents <= (hi - lo) / 2
      invariant Heap(c, a[..][lo..hi], parents) && Rearranged(was, a[..], lo, hi)
    {
      parents := parents - 1;
      ghost var now := a[..];
      RootOpened(c, now[lo..hi], parents);
      SiftDown(a, lo, parents, hi - lo, c);
      RearrangedTwice(was, now, a[..], lo, hi);
    }
  }

  /** Moves the root behind the shrunken heap, where nothing smaller can follow. */
  method PlaceGreatest(a: array<Item>, lo: nat, end: nat, hi: nat, c: Compare)
    requires lo < end < hi <= a.Length && TotalPreorder(c)
    requires Split(c, a[..], lo, end + 1, hi) && Heap(c, a[..][lo..end + 1], 0)
    modifies a
    ensures Split(c, a[..], lo, end, hi) && Heap(c, a[..][lo..end], 0)
    ensures Rearranged(old(a[..]), a[..], lo, hi)
  {
    ghost var was := a[..];
    a[lo], a[end] := a[end], a[lo];
    ghost var swapped := a[..];
    GreatestPlaced(c, was, swapped, lo, end + 1, hi);
    SwapRearranges(was, lo, hi, lo, end);
    SiftDown(a, lo, 0, end - lo, c);
    SplitKept(c, swapped, a[..], lo, end, hi);
    RearrangedWider(swapped, a[..], lo, end, lo, hi);
    RearrangedTwice(was, swapped, a[..], lo, hi);
  }

  /** Builds a heap, then takes the greatest away again and again. */
  method HeapFunc(a: array<Item>, lo: nat, hi: nat, c: Compare)
    requires lo <= hi <= a.Length && TotalPreorder(c)
    modifies a
    ensures Sorted(c, a[..][lo..hi]) && Rearranged(old(a[..]), a[..], lo, hi)
    ensures forall i, j :: lo <= i < j < hi ==> c(a[i], a[j]) <= 0
  {
    ghost var was := a[..];
    BuildHeap(a, lo, hi, c);
    var end := hi;
    while end - lo > 1
      invariant lo <= end <= hi
      invariant Split(c, a[..], lo, end, hi) && Heap(c, a[..][lo..end], 0)
      invariant Rearranged(was, a[..], lo, hi)
    {
      ghost var now := a[..];
      end := end - 1;
      PlaceGreatest(a, lo, end, hi, c);
      RearrangedTwice(was, now, a[..], lo, hi);
    }
    SplitIsSorted(c, a[..], lo, end, hi);
    SortedRange(c, a[..], lo, hi);
  }
}
