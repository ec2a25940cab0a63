/** Insertion sort and merge sort: stable. */
module StableSorts {
  import opened SortingModel

  /** One sliding step of the insertion: s[..j + 1] still to be passed, s[j + 1..] moved right. */
  ghost predicate Sliding(c: Compare, was: seq<Item>, now: seq<Item>, lo: nat, i: nat, j: int, x: Item) {
    && lo <= i < |was| == |now| && lo - 1 <= j < i
    && (forall k {:trigger now[k]} :: 0 <= k <= j || i < k < |was| ==> now[k] == was[k])
    && (forall k {:trigger now[k]} :: j + 2 <= k <= i ==> now[k] == was[k - 1])
    && Insert(c, was[lo..i], x) == Insert(c, was[lo..j + 1], x) + was[j + 1..i]
  }

  lemma SlidingStarts(c: Compare, was: seq<Item>, lo: nat, i: nat, x: Item)
    requires lo <= i < |was|
    ensures Sliding(c, was, was, lo, i, i - 1, x)
  {
    assert was[lo..i] + was[i..i] == was[lo..i];
  }

  lemma AllButLast(s: seq<Item>, lo: nat, j: nat)
    requires lo <= j < |s|
    ensures s[lo..j + 1][..j - lo] == s[lo..j] && s[lo..j + 1][j - lo] == s[j]
  {
  }

  lemma SlidOnce(c: Compare, was: seq<Item>, now: seq<Item>, lo: nat, i: nat, j: int, x: Item)
    requires Sliding(c, was, now, lo, i, j, x) && j >= lo && c(now[j], x) > 0
    ensures Sliding(c, was, now[j + 1 := now[j]], lo, i, j - 1, x)
  {
    AllButLast(was, lo, j);
    assert was[j..i] == [was[j]] + was[j + 1..i];
    assert Insert(c, was[lo..j], x) + ([was[j]] + was[j + 1..i]) ==
        Insert(c, was[lo..j], x) + [was[j]] + was[j + 1..i];
  }

  lemma Landed(c: Compare, was: seq<Item>, now: seq<Item>, lo: nat, i: nat, j: int, x: Item)
    requires Sliding(c, was, now, lo, i, j, x) && (j >= lo ==> c(now[j], x) <= 0)
    ensures var next := now[j + 1 := x];
      next[lo..i + 1] == Insert(c, was[lo..i], x) && next[..lo] == was[..lo] && next[i + 1..] == was[i + 1..]
  {
    var next := now[j + 1 := x];
    assert Insert(c, was[lo..j + 1], x) == was[lo..j + 1] + [x];
    assert next[lo..i + 1] == was[lo..j + 1] + [x] + was[j + 1..i];
  }

  /** The range up to i is in order; the rest is as it was. */
  ghost predicate Inserted(c: Compare, start: seq<Item>, now: seq<Item>, lo: nat, i: nat) {
    && lo <= i <= |start| == |now|
    && now[..lo] == start[..lo]
    && now[i..] == start[i..]
    && StablySorted(c, start[lo..i], now[lo..i])
  }

  lemma InsertedOne(c: Compare, start: seq<Item>, was: seq<Item>, now: seq<Item>, lo: nat, i: nat, j: int)
    requires TotalPreorder(c) && Inserted(c, start, was, lo, i) && i < |was|
    requires Sliding(c, was, now, lo, i, j, was[i]) && (j >= lo ==> c(now[j], was[i]) <= 0)
    ensures Inserted(c, start, now[j + 1 := was[i]], lo, i + 1)
  {
    Landed(c, was, now, lo, i, j, was[i]);
    InsertStable(c, start[lo..i], was[lo..i], was[i]);
    assert was[i..][0] == start[i..][0];
    assert start[lo..i + 1] == start[lo..i] + [was[i]];
    assert was[i + 1..] == was[i..][1..] && start[i + 1..] == start[i..][1..];
  }

  lemma AllInserted(c: Compare, start: seq<Item>, now: seq<Item>, lo: nat, hi: nat)
    requires TotalPreorder(c) && Inserted(c, start, now, lo, hi)
    ensures Rearranged(start, now, lo, hi)
  {
    StableIsRearranged(c, start[lo..hi], now[lo..hi]);
  }

  /** Slides everything greater than a[i] one place right, and puts a[i] in the gap. */
  method InsertNext(a: array<Item>, lo: nat, i: nat, c: Compare, ghost start: seq<Item>)
    requires lo < i < a.Length && TotalPreorder(c) && Inserted(c, start, a[..], lo, i)
    modifies a
    ensures Inserted(c, start, a[..], lo, i + 1)
  {
    var current := a[i];
    ghost var was := a[..];
    var j := i - 1;
    SlidingStarts(c, was, lo, i, current);
    while j >= lo && c(a[j], current) > 0
      invariant Sliding(c, was, a[..], lo, i, j, current)
    {
      ghost var now := a[..];
      SlidOnce(c, was, now, lo, i, j, current);
      a[j + 1] := a[j];
      assert a[..] == now[j + 1 := now[j]];
      j := j - 1;
    }
    ghost var now := a[..];
    InsertedOne(c, start, was, now, lo, i, j);
    a[j + 1] := current;
    assert a[..] == now[j + 1 := current];
  }

  /** Grows a stably sorted front part by one element at a time. */
  method InsertionFunc(a: array<Item>, lo: nat, hi: nat, c: Compare)
    requires lo <= hi <= a.Length && TotalPreorder(c)
    modifies a
    ensures StablySorted(c, old(a[..])[lo..hi], a[..][lo..hi])
    ensures Rearranged(old(a[..]), a[..], lo, hi)
    ensures forall i, j :: lo <= i < j < hi ==> c(a[i], a[j]) <= 0
  {
    ghost var start := a[..];
    var i := lo + 1;
    while i < hi
      invariant lo < i && (lo < hi ==> i <= hi && Inserted(c, start, a[..], lo, i))
      invariant lo == hi ==> a[..] == start
    {
      InsertNext(a, lo, i, c, start);
      i := i + 1;
    }
    if lo < hi {
      AllInserted(c, start, a[..], lo, hi);
    }
    SortedRange(c, a[..], lo, hi);
  }

  // ---------- Merge sort ----------

  /** m stands in now from lo on; the rest is as in was. */
  ghost predicate Placed(was: seq<Item>, now: seq<Item>, lo: nat, m: seq<Item>) {
    && lo + |m| <= |was| == |now|
    && forall k {:trigger now[k]} :: 0 <= k < |was| ==> now[k] == if lo <= k < lo + |m| then m[k - lo] else was[k]
  }

  method Copy(dst: array<Item>, at: nat, src: array<Item>, from: nat, to: nat)
    requires dst != src && from <= to <= src.Length && at + (to - from) <= dst.Length
    modifies dst
    ensures Placed(old(dst[..]), dst[..], at, src[..][from..to])
  {
    ghost var was := dst[..];
    for k := 0 to to - from
      invariant forall n :: 0 <= n < dst.Length ==>
        dst[n] == if at <= n < at + k then src[from + (n - at)] else was[n]
    {
      dst[at + k] := src[from + k];
    }
  }

  /** Everything before left and right has been merged into place; m is the whole merge. */
  ghost predicate Merging(c: Compare, was: seq<Item>, now: seq<Item>, m: seq<Item>, lo: nat, mid: nat, hi: nat,
      left: nat, right: nat) {
    var out := left + right - mid;
    && lo <= left <= mid <= right <= hi <= |was| == |now|
    && |m| == hi - lo && Merge(c, was[left..mid], was[right..hi]) == m[out - lo..]
    && (forall k {:trigger now[k]} :: 0 <= k < lo || hi <= k < |was| ==> now[k] == was[k])
    && (forall k {:trigger now[k]} :: lo <= k < out ==> now[k] == m[k - lo])
  }

  lemma {:induction false} MergeLength(c: Compare, x: seq<Item>, y: seq<Item>)
    ensures |Merge(c, x, y)| == |x| + |y|
  {
    MergeMembers(c, x, y);
    assert |multiset(Merge(c, x, y))| == |multiset(x) + multiset(y)| == |x| + |y|;
  }

  lemma MergedOne(c: Compare, was: seq<Item>, now: seq<Item>, m: seq<Item>, lo: nat, mid: nat, hi: nat,
      left: nat, right: nat)
    requires Merging(c, was, now, m, lo, mid, hi, left, right) && left < mid && right < hi
    ensures var out := left + right - mid;
      if c(was[left], was[right]) <= 0
      then Merging(c, was, now[out := was[left]], m, lo, mid, hi, left + 1, right)
      else Merging(c, was, now[out := was[right]], m, lo, mid, hi, left, right + 1)
  {
    var out := left + right - mid;
    var x, y := was[left..mid], was[right..hi];
    var e := if c(x[0], y[0]) <= 0 then x[0] else y[0];
    assert Merge(c, x, y)[0] == e;
    assert Merge(c, x, y)[1..] == if c(x[0], y[0]) <= 0 then Merge(c, x[1..], y) else Merge(c, x, y[1..]);
    assert x[1..] == was[left + 1..mid] && y[1..] == was[right + 1..hi];
    assert m[out - lo..][1..] == m[out + 1 - lo..] && m[out - lo..][0] == m[out - lo];
  }

  /** With one half used up, the rest of the merge is the rest of the other half. */
  lemma RestAt(c: Compare, was: seq<Item>, rest: seq<Item>, mid: nat, hi: nat, left: nat, right: nat, k: nat)
    requires left <= mid <= right <= hi <= |was| && (left == mid || right == hi)
    requires rest == Merge(c, was[left..mid], was[right..hi]) && k < |rest|
    ensures if left == mid then right + k < hi && rest[k] == was[right + k]
            else left + k < mid && rest[k] == was[left + k]
  {
    if left == mid {
      assert was[left..mid] == [];
    } else {
      assert was[right..hi] == [];
    }
  }

  /** The two closing copies put whatever is left in either half behind what has been written. */
  lemma MergedAll(c: Compare, was: seq<Item>, held: seq<Item>, now: seq<Item>, once: seq<Item>,
      twice: seq<Item>, m: seq<Item>,
      lo: nat, mid: nat, hi: nat, left: nat, right: nat)
    requires Merging(c, was, now, m, lo, mid, hi, left, right) && (left == mid || right == hi)
    requires |held| == |was| && forall k {:trigger held[k]} :: lo <= k < hi ==> held[k] == was[k]
    requires Placed(now, once, left + right - mid, held[left..mid]) && Placed(once, twice, right, held[right..hi])
    ensures Placed(was, twice, lo, m)
  {
    var out := left + right - mid;
    var rest := m[out - lo..];
    forall k {:trigger twice[k]} | 0 <= k < |was|
        ensures twice[k] == if lo <= k < lo + |m| then m[k - lo] else was[k] {
      assert once[k] == once[k];
      if out <= k < hi {
        RestAt(c, was, rest, mid, hi, left, right, k - out);
        assert m[k - lo] == rest[k - out];
        assert left < mid ==> held[left..mid][k - out] == held[left + (k - out)];
        assert left == mid ==> held[right..hi][k - right] == held[k];
      } else {
        assert now[k] == once[k];
      }
    }
  }

  /** Merges until one half is used up. */
  method MergeHeads(a: array<Item>, buf: array<Item>, lo: nat, mid: nat, hi: nat, c: Compare, ghost m: seq<Item>)
      returns (left: nat, right: nat)
    requires lo <= mid <= hi <= a.Length == buf.Length && a != buf
    requires forall k :: lo <= k < hi ==> buf[k] == a[k]
    requires Merging(c, a[..], a[..], m, lo, mid, hi, lo, mid)
    modifies a
    ensures Merging(c, old(a[..]), a[..], m, lo, mid, hi, left, right) && (left == mid || right == hi)
  {
    ghost var was := a[..];
    left, right := lo, mid;
    var out: nat := lo;
    while left < mid && right < hi
      invariant out == left + right - mid
      invariant forall k :: lo <= k < hi ==> buf[k] == was[k]
      invariant Merging(c, was, a[..], m, lo, mid, hi, left, right)
    {
      ghost var now := a[..];
      MergedOne(c, was, now, m, lo, mid, hi, left, right);
      if c(buf[left], buf[right]) <= 0 {
        a[out] := buf[left];
        assert a[..] == now[out := was[left]];
        left := left + 1;
      } else {
        a[out] := buf[right];
        assert a[..] == now[out := was[right]];
        right := right + 1;
      }
      out := out + 1;
    }
  }

  /** Copies both halves out, then writes them back in order. */
  method MergeHalves(a: array<Item>, buf: array<Item>, lo: nat, mid: nat, hi: nat, c: Compare)
    requires lo <= mid <= hi <= a.Length == buf.Length && a != buf
    modifies a, buf
    ensures var was := old(a[..]); Placed(was, a[..], lo, Merge(c, was[lo..mid], was[mid..hi]))
  {
    ghost var was := a[..];
    Copy(buf, lo, a, lo, hi);
    ghost var held := buf[..];
    ghost var m := Merge(c, was[lo..mid], was[mid..hi]);
    MergeLength(c, was[lo..mid], was[mid..hi]);
    assert forall k {:trigger held[k]} :: lo <= k < hi ==> held[k] == was[k];
    var left, right := MergeHeads(a, buf, lo, mid, hi, c, m);
    ghost var now := a[..];
    Copy(a, left + right - mid, buf, left, mid);
    ghost var once := a[..];
    Copy(a, right, buf, right, hi);
    MergedAll(c, was, held, now, once, a[..], m, lo, mid, hi, left, right);
  }

  lemma PlacedSlices(was: seq<Item>, now: seq<Item>, lo: nat, hi: nat, m: seq<Item>)
    requires Placed(was, now, lo, m) && lo + |m| == hi
    ensures now[lo..hi] == m && now[..lo] == was[..lo] && now[hi..] == was[hi..]
  {
  }

  lemma MergedIsStable(c: Compare, start: seq<Item>, was: seq<Item>, now: seq<Item>, lo: nat, mid: nat, hi: nat)
    requires TotalPreorder(c) && lo <= mid <= hi <= |start| == |was| == |now|
    requires StablySorted(c, start[lo..mid], was[lo..mid]) && StablySorted(c, start[mid..hi], was[mid..hi])
    requires was[..lo] == start[..lo] && was[hi..] == start[hi..]
    requires Placed(was, now, lo, Merge(c, was[lo..mid], was[mid..hi]))
    ensures StablySorted(c, start[lo..hi], now[lo..hi]) && Rearranged(start, now, lo, hi)
  {
    var x, y := was[lo..mid], was[mid..hi];
    MergeLength(c, x, y);
    PlacedSlices(was, now, lo, hi, Merge(c, x, y));
    assert start[lo..hi] == start[lo..mid] + start[mid..hi];
    MergeStable(c, start[lo..mid], start[mid..hi], x, y);
    StableIsRearranged(c, start[lo..hi], now[lo..hi]);
  }

  /** What sorting a range stably means, on the whole array. */
  ghost predicate StableOn(c: Compare, was: seq<Item>, now: seq<Item>, lo: nat, hi: nat) {
    Rearranged(was, now, lo, hi) && StablySorted(c, was[lo..hi], now[lo..hi])
  }

  lemma HalvesStable(c: Compare, start: seq<Item>, half: seq<Item>, was: seq<Item>, lo: nat, mid: nat, hi: nat)
    requires StableOn(c, start, half, lo, mid) && StableOn(c, half, was, mid, hi) && lo <= mid <= hi
    ensures |start| == |was| && was[..lo] == start[..lo] && was[hi..] == start[hi..]
    ensures StablySorted(c, start[lo..mid], was[lo..mid]) && StablySorted(c, start[mid..hi], was[mid..hi])
  {
    assert was[..lo] == was[..mid][..lo] == half[..mid][..lo] == half[..lo];
    assert was[lo..mid] == was[..mid][lo..] == half[..mid][lo..] == half[lo..mid];
    assert start[mid..hi] == start[mid..][..hi - mid] == half[mid..][..hi - mid] == half[mid..hi];
    assert start[hi..] == start[mid..][hi - mid..] == half[mid..][hi - mid..] == half[hi..];
  }

  /** Skipping the merge of halves already in order gives what merging would have given. */
  lemma SkippedMerge(c: Compare, was: seq<Item>, lo: nat, mid: nat, hi: nat)
    requires TotalPreorder(c) && lo < mid < hi <= |was| && Sorted(c, was[lo..mid]) && Leq(c, was[mid - 1], was[mid])
    ensures Placed(was, was, lo, Merge(c, was[lo..mid], was[mid..hi]))
  {
    MergeInOrder(c, was[lo..mid], was[mid..hi]);
  }

  method MergeSort(a: array<Item>, buf: array<Item>, lo: nat, hi: nat, c: Compare)
    requires lo <= hi <= a.Length == buf.Length && a != buf && TotalPreorder(c)
    modifies a, buf
    ensures StableOn(c, old(a[..]), a[..], lo, hi)
    decreases hi - lo
  {
    if hi - lo < 2 {
      return;
    }
    if hi - lo <= 12 {
      InsertionFunc(a, lo, hi, c);
      return;
    }
    var mid := lo + (hi - lo) / 2;
    ghost var start := a[..];
    MergeSort(a, buf, lo, mid, c);
    ghost var half := a[..];
    MergeSort(a, buf, mid, hi, c);
    ghost var was := a[..];
    HalvesStable(c, start, half, was, lo, mid, hi);
    if c(a[mid - 1], a[mid]) <= 0 {
      SkippedMerge(c, was, lo, mid, hi);
      MergedIsStable(c, start, was, was, lo, mid, hi);
      return;
    }
    MergeHalves(a, buf, lo, mid, hi, c);
    MergedIsStable(c, start, was, a[..], lo, mid, hi);
  }

  /** Sorts stably, with one buffer for all the merges. */
  method MergeFunc(a: array<Item>, c: Compare)
    requires TotalPreorder(c)
    modifies a
    ensures StablySorted(c, old(a[..]), a[..])
    ensures multiset(a[..]) == multiset(old(a[..]))
    ensures forall i, j :: 0 <= i < j < a.Length ==> c(a[i], a[j]) <= 0
  {
    if a.Length < 2 {
      return;
    }
    var buf := new Item[a.Length];
    ghost var was := a[..];
    MergeSort(a, buf, 0, a.Length, c);
    assert was[0..a.Length] == was && a[..][0..a.Length] == a[..];
    SortedPairs(c, a[..]);
  }
}
