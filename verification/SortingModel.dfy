/** What it means to sort: order, rearrangement, stability. */
module SortingModel {

  /** The elements to be sorted; a buffer of them can be allocated. */
  type Item(==, 0, !new)

  /** Negative, zero or positive. */
  type Compare = (Item, Item) -> int

  predicate Leq(c: Compare, a: Item, b: Item) {
    c(a, b) <= 0
  }

  /** What every comparison function must be. */
  ghost predicate TotalPreorder(c: Compare) {
    && (forall a, b {:trigger c(a, b)} :: c(a, b) < 0 <==> c(b, a) > 0)
    && (forall x, y, z {:trigger Leq(c, x, y), Leq(c, y, z)} :: Leq(c, x, y) && Leq(c, y, z) ==> Leq(c, x, z))
  }

  ghost predicate Sorted(c: Compare, s: seq<Item>) {
    forall i, j {:trigger s[i], s[j]} :: 0 <= i < j < |s| ==> Leq(c, s[i], s[j])
  }

  lemma SortedPairs(c: Compare, s: seq<Item>)
    requires Sorted(c, s)
    ensures forall i, j :: 0 <= i < j < |s| ==> c(s[i], s[j]) <= 0
  {
    forall i, j | 0 <= i < j < |s| ensures c(s[i], s[j]) <= 0 {
      assert Leq(c, s[i], s[j]);
    }
  }

  lemma SortedRange(c: Compare, s: seq<Item>, lo: nat, hi: nat)
    requires lo <= hi <= |s| && Sorted(c, s[lo..hi])
    ensures forall i, j :: lo <= i < j < hi ==> c(s[i], s[j]) <= 0
  {
    forall i, j | lo <= i < j < hi ensures c(s[i], s[j]) <= 0 {
      assert Leq(c, s[lo..hi][i - lo], s[lo..hi][j - lo]);
    }
  }

  /** Only the range from lo to hi may differ, and there by the order alone. */
  ghost predicate Rearranged(was: seq<Item>, now: seq<Item>, lo: nat, hi: nat) {
    && lo <= hi <= |was| == |now|
    && now[..lo] == was[..lo]
    && now[hi..] == was[hi..]
    && multiset(now[lo..hi]) == multiset(was[lo..hi])
  }

  lemma RearrangedTwice(s: seq<Item>, t: seq<Item>, u: seq<Item>, lo: nat, hi: nat)
    requires Rearranged(s, t, lo, hi) && Rearranged(t, u, lo, hi)
    ensures Rearranged(s, u, lo, hi)
  {
  }

  /** Sequences that agree on a stretch agree on every stretch within it. */
  lemma SubSlice(s: seq<Item>, t: seq<Item>, lo: nat, hi: nat, from: nat, to: nat)
    requires lo <= from <= to <= hi <= |s| && hi <= |t| && s[lo..hi] == t[lo..hi]
    ensures s[from..to] == t[from..to]
  {
    forall k | from <= k < to ensures s[k] == t[k] {
      assert s[lo..hi][k - lo] == t[lo..hi][k - lo];
    }
  }

  lemma RearrangedWider(was: seq<Item>, now: seq<Item>, lo: nat, hi: nat, lo': nat, hi': nat)
    requires Rearranged(was, now, lo, hi) && lo' <= lo && hi <= hi' <= |was|
    ensures Rearranged(was, now, lo', hi')
  {
    var n := |was|;
    SubSlice(was, now, 0, lo, 0, lo');
    SubSlice(was, now, 0, lo, lo', lo);
    SubSlice(was, now, hi, n, hi, hi');
    SubSlice(was, now, hi, n, hi', n);
    assert was[lo'..hi'] == was[lo'..lo] + was[lo..hi] + was[hi..hi'];
    assert now[lo'..hi'] == was[lo'..lo] + now[lo..hi] + was[hi..hi'];
  }

  lemma SwapRearranges(s: seq<Item>, lo: nat, hi: nat, i: nat, j: nat)
    requires lo <= i < hi <= |s| && lo <= j < hi
    ensures Rearranged(s, s[i := s[j]][j := s[i]], lo, hi)
  {
    var t := s[i := s[j]][j := s[i]];
    var x := s[lo..hi];
    assert t[lo..hi] == x[i - lo := x[j - lo]][j - lo := x[i - lo]];
  }

  lemma RearrangedHas(was: seq<Item>, now: seq<Item>, lo: nat, hi: nat, k: nat) returns (j: nat)
    requires Rearranged(was, now, lo, hi) && lo <= k < hi
    ensures lo <= j < hi && was[j] == now[k]
  {
    assert now[lo..hi][k - lo] == now[k];
    assert now[k] in multiset(was[lo..hi]);
    assert now[k] in was[lo..hi];
    var m :| 0 <= m < |was[lo..hi]| && was[lo..hi][m] == now[k];
    j := lo + m;
  }

  // ---------- Stability ----------

  /** The elements equivalent to x, in the order they stand. */
  function Class(c: Compare, s: seq<Item>, x: Item): seq<Item> {
    if s == [] then [] else (if c(s[0], x) == 0 then [s[0]] else []) + Class(c, s[1..], x)
  }

  /** Equivalent elements keep their order: for each of them, the same subsequence. */
  ghost predicate SameClasses(c: Compare, was: seq<Item>, now: seq<Item>) {
    forall x {:trigger Class(c, now, x)} :: Class(c, now, x) == Class(c, was, x)
  }

  ghost predicate StablySorted(c: Compare, was: seq<Item>, now: seq<Item>) {
    Sorted(c, now) && SameClasses(c, was, now)
  }

  lemma {:induction false} ClassJoin(c: Compare, s: seq<Item>, t: seq<Item>, x: Item)
    ensures Class(c, s + t, x) == Class(c, s, x) + Class(c, t, x)
  {
    if s == [] {
      assert s + t == t;
    } else {
      ClassJoin(c, s[1..], t, x);
      assert (s + t)[1..] == s[1..] + t;
    }
  }

  lemma {:induction false} ClassCounts(c: Compare, s: seq<Item>, x: Item)
    requires TotalPreorder(c)
    ensures multiset(Class(c, s, x))[x] == multiset(s)[x]
  {
    if s != [] {
      ClassCounts(c, s[1..], x);
      assert s == [s[0]] + s[1..];
      assert c(x, x) == 0;
    }
  }

  /** Keeping every class keeps every element. */
  lemma StableIsRearranged(c: Compare, was: seq<Item>, now: seq<Item>)
    requires TotalPreorder(c) && SameClasses(c, was, now)
    ensures multiset(now) == multiset(was) && |now| == |was|
  {
    forall x ensures multiset(now)[x] == multiset(was)[x] {
      ClassCounts(c, now, x);
      ClassCounts(c, was, x);
      assert Class(c, now, x) == Class(c, was, x);
    }
    assert |multiset(now)| == |now| && |multiset(was)| == |was|;
  }

  lemma {:induction false} ClassMembers(c: Compare, s: seq<Item>, x: Item)
    ensures Class(c, s, x) == [] <==> forall k :: 0 <= k < |s| ==> c(s[k], x) != 0
  {
    if s != [] {
      ClassMembers(c, s[1..], x);
      assert forall k :: 1 <= k < |s| ==> s[k] == s[1..][k - 1];
    }
  }

  /** A stable sort leaves no choice: two of the same input are the same. */
  lemma {:induction false} StableSortIsUnique(c: Compare, s: seq<Item>, t: seq<Item>)
    requires TotalPreorder(c) && Sorted(c, s) && Sorted(c, t) && SameClasses(c, s, t)
    ensures s == t
  {
    StableIsRearranged(c, s, t);
    if s != [] {
      FirstIsLeast(c, s, t);
      FirstIsLeast(c, t, s);
      var x := s[0];
      assert c(t[0], x) == 0 && c(x, x) == 0;
      assert Class(c, t, x) == Class(c, s, x);
      assert Class(c, t, x)[0] == t[0] && Class(c, s, x)[0] == x;
      forall z ensures Class(c, t[1..], z) == Class(c, s[1..], z) {
        assert Class(c, t, z) == Class(c, s, z);
        var k := if c(x, z) == 0 then 1 else 0;
        assert Class(c, t[1..], z) == Class(c, t, z)[k..] && Class(c, s[1..], z) == Class(c, s, z)[k..];
      }
      StableSortIsUnique(c, s[1..], t[1..]);
    }
  }

  lemma FirstIsLeast(c: Compare, s: seq<Item>, t: seq<Item>)
    requires TotalPreorder(c) && Sorted(c, t) && SameClasses(c, s, t) && s != [] && |t| == |s|
    ensures Leq(c, t[0], s[0])
  {
    ClassMembers(c, s, s[0]);
    ClassMembers(c, t, s[0]);
    assert c(s[0], s[0]) == 0;
    assert Class(c, t, s[0]) == Class(c, s, s[0]);
    var k :| 0 <= k < |t| && c(t[k], s[0]) == 0;
    assert Leq(c, t[k], s[0]);
    assert k > 0 ==> Leq(c, t[0], t[k]);
  }

  // ---------- Insertion ----------

  /** x moves left past everything greater than it, and no further. */
  function Insert(c: Compare, s: seq<Item>, x: Item): seq<Item> {
    if s == [] || c(s[|s| - 1], x) <= 0 then s + [x]
    else Insert(c, s[..|s| - 1], x) + [s[|s| - 1]]
  }

  lemma {:induction false} InsertClasses(c: Compare, s: seq<Item>, x: Item, z: Item)
    requires TotalPreorder(c)
    ensures Class(c, Insert(c, s, x), z) == Class(c, s + [x], z)
  {
    if s != [] && c(s[|s| - 1], x) > 0 {
      var front, last := s[..|s| - 1], s[|s| - 1];
      assert s == front + [last];
      InsertClasses(c, front, x, z);
      ClassJoin(c, Insert(c, front, x), [last], z);
      ClassJoin(c, front, [x], z);
      ClassJoin(c, front, [last], z);
      ClassJoin(c, s, [x], z);
      assert !(c(last, z) == 0 && c(x, z) == 0) by {
        if c(last, z) == 0 && c(x, z) == 0 {
          assert Leq(c, last, z) && Leq(c, z, x);
        }
      }
    }
  }

  lemma {:induction false} InsertMembers(c: Compare, s: seq<Item>, x: Item)
    ensures multiset(Insert(c, s, x)) == multiset(s + [x])
  {
    if s != [] && c(s[|s| - 1], x) > 0 {
      var front, last := s[..|s| - 1], s[|s| - 1];
      assert s == front + [last];
      InsertMembers(c, front, x);
    }
  }

  lemma {:induction false} InsertSorted(c: Compare, s: seq<Item>, x: Item)
    requires TotalPreorder(c) && Sorted(c, s)
    ensures Sorted(c, Insert(c, s, x))
  {
    if s == [] {
    } else if c(s[|s| - 1], x) <= 0 {
      forall i | 0 <= i < |s| ensures Leq(c, s[i], x) {
        assert Leq(c, s[|s| - 1], x);
        assert i < |s| - 1 ==> Leq(c, s[i], s[|s| - 1]);
      }
    } else {
      var front, last := s[..|s| - 1], s[|s| - 1];
      InsertSorted(c, front, x);
      InsertMembers(c, front, x);
      var t := Insert(c, front, x);
      assert Leq(c, x, last);
      forall i | 0 <= i < |t| ensures Leq(c, t[i], last) {
        assert t[i] in multiset(front + [x]);
        assert t[i] in front || t[i] == x;
      }
    }
  }

  lemma InsertStable(c: Compare, was: seq<Item>, s: seq<Item>, x: Item)
    requires TotalPreorder(c) && StablySorted(c, was, s)
    ensures StablySorted(c, was + [x], Insert(c, s, x))
  {
    InsertSorted(c, s, x);
    forall z ensures Class(c, Insert(c, s, x), z) == Class(c, was + [x], z) {
      InsertClasses(c, s, x, z);
      ClassJoin(c, s, [x], z);
      ClassJoin(c, was, [x], z);
      assert Class(c, s, z) == Class(c, was, z);
    }
  }

  // ---------- Merging ----------

  /** Equivalent heads are taken from the left half. */
  function Merge(c: Compare, x: seq<Item>, y: seq<Item>): (m: seq<Item>)
    decreases |x| + |y|
  {
    if x == [] then y
    else if y == [] then x
    else if c(x[0], y[0]) <= 0 then [x[0]] + Merge(c, x[1..], y)
    else [y[0]] + Merge(c, x, y[1..])
  }

  lemma {:induction false} MergeMembers(c: Compare, x: seq<Item>, y: seq<Item>)
    ensures multiset(Merge(c, x, y)) == multiset(x) + multiset(y)
    decreases |x| + |y|
  {
    if x != [] && y != [] {
      if c(x[0], y[0]) <= 0 {
        var m := Merge(c, x[1..], y);
        MergeMembers(c, x[1..], y);
        assert x == [x[0]] + x[1..];
        assert multiset([x[0]] + m) == multiset{x[0]} + multiset(m);
      } else {
        var m := Merge(c, x, y[1..]);
        MergeMembers(c, x, y[1..]);
        assert y == [y[0]] + y[1..];
        assert multiset([y[0]] + m) == multiset{y[0]} + multiset(m);
      }
    }
  }

  lemma SortedCons(c: Compare, h: Item, t: seq<Item>)
    requires Sorted(c, t) && forall x :: x in t ==> Leq(c, h, x)
    ensures Sorted(c, [h] + t)
  {
  }

  lemma HeadIsLeast(c: Compare, s: seq<Item>, h: Item)
    requires TotalPreorder(c) && Sorted(c, s) && s != [] && Leq(c, h, s[0])
    ensures forall x :: x in s ==> Leq(c, h, x)
  {
    forall k | 0 <= k < |s| ensures Leq(c, h, s[k]) {
      assert k > 0 ==> Leq(c, s[0], s[k]);
    }
  }

  lemma {:induction false} MergeSorted(c: Compare, x: seq<Item>, y: seq<Item>)
    requires TotalPreorder(c) && Sorted(c, x) && Sorted(c, y)
    ensures Sorted(c, Merge(c, x, y))
    decreases |x| + |y|
  {
    if x != [] && y != [] {
      assert c(x[0], x[0]) == 0 && c(y[0], y[0]) == 0;
      if c(x[0], y[0]) <= 0 {
        MergeSorted(c, x[1..], y);
        MergeFrom(c, x[0], x, y, x[1..], y);
      } else {
        MergeSorted(c, x, y[1..]);
        MergeFrom(c, y[0], x, y, x, y[1..]);
      }
    }
  }

  lemma MergeFrom(c: Compare, h: Item, x: seq<Item>, y: seq<Item>, x': seq<Item>, y': seq<Item>)
    requires TotalPreorder(c) && Sorted(c, x) && Sorted(c, y) && x != [] && y != []
    requires Leq(c, h, x[0]) && Leq(c, h, y[0]) && Sorted(c, Merge(c, x', y'))
    requires (forall e :: e in x' ==> e in x) && (forall e :: e in y' ==> e in y)
    ensures Sorted(c, [h] + Merge(c, x', y'))
  {
    HeadIsLeast(c, x, h);
    HeadIsLeast(c, y, h);
    MergeMembers(c, x', y');
    forall e | e in Merge(c, x', y') ensures Leq(c, h, e) {
      assert e in multiset(Merge(c, x', y'));
    }
    SortedCons(c, h, Merge(c, x', y'));
  }

  lemma AboveIsApart(c: Compare, y: Item, x: Item, x': Item, z: Item)
    requires TotalPreorder(c) && c(x, y) > 0 && Leq(c, x, x') && c(y, z) == 0
    ensures c(x', z) != 0
  {
    assert Leq(c, x', z) ==> Leq(c, x, z);
    assert Leq(c, z, y);
    assert Leq(c, x, z) ==> Leq(c, x, y);
    assert !Leq(c, x, y);
  }

  lemma {:induction false} MergeClasses(c: Compare, x: seq<Item>, y: seq<Item>, z: Item)
    requires TotalPreorder(c) && Sorted(c, x)
    ensures Class(c, Merge(c, x, y), z) == Class(c, x, z) + Class(c, y, z)
    decreases |x| + |y|
  {
    if x != [] && y != [] {
      if c(x[0], y[0]) <= 0 {
        MergeClasses(c, x[1..], y, z);
      } else {
        MergeClasses(c, x, y[1..], z);
        if c(y[0], z) == 0 {
          assert c(x[0], x[0]) == 0;
          forall k | 0 <= k < |x| ensures c(x[k], z) != 0 {
            assert k > 0 ==> Leq(c, x[0], x[k]);
            AboveIsApart(c, y[0], x[0], x[k], z);
          }
          ClassMembers(c, x, z);
        }
      }
    }
  }

  lemma MergeStable(c: Compare, was: seq<Item>, was': seq<Item>, x: seq<Item>, y: seq<Item>)
    requires TotalPreorder(c) && StablySorted(c, was, x) && StablySorted(c, was', y)
    ensures StablySorted(c, was + was', Merge(c, x, y))
  {
    MergeSorted(c, x, y);
    forall z ensures Class(c, Merge(c, x, y), z) == Class(c, was + was', z) {
      MergeClasses(c, x, y, z);
      ClassJoin(c, was, was', z);
      assert Class(c, x, z) == Class(c, was, z) && Class(c, y, z) == Class(c, was', z);
    }
  }

  /** Halves already in order merge to their concatenation. */
  lemma {:induction false} MergeInOrder(c: Compare, x: seq<Item>, y: seq<Item>)
    requires TotalPreorder(c) && Sorted(c, x) && x != [] && y != [] && Leq(c, x[|x| - 1], y[0])
    ensures Merge(c, x, y) == x + y
  {
    var first, rest := x[0], x[1..];
    if rest == [] {
      assert Merge(c, rest, y) == y;
    } else {
      assert Leq(c, first, x[|x| - 1]);
      MergeInOrder(c, rest, y);
    }
    assert x == [first] + rest;
    assert Leq(c, first, y[0]);
    assert Merge(c, x, y) == [first] + Merge(c, rest, y);
  }
}
