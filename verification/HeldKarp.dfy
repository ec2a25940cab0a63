/** The dynamic program over (set of visited cities, last city). */
module HeldKarp {
  import opened BitMasks
  import opened FiniteSets
  import opened Integers
  import opened Sequences
  import opened TspModel

  /** math.MaxInt / 4 on a 64-bit machine. */
  const UNREACHABLE: int := MAX_INT / 4

  // ---------- The flat table ----------

  function Cell(n: nat, m: nat, j: nat): nat { m * n + j }

  lemma CellFits(n: nat, m: nat, j: nat, size: nat)
    requires m < size && j < n
    ensures Cell(n, m, j) < size * n
  {
    assert (m + 1) * n <= size * n;
  }

  lemma CellInjective(n: nat, m: nat, j: nat, m': nat, j': nat)
    requires j < n && j' < n && (m != m' || j != j')
    ensures Cell(n, m, j) != Cell(n, m', j')
  {
    if m < m' {
      assert (m + 1) * n <= m' * n;
    } else if m' < m {
      assert (m' + 1) * n <= m * n;
    }
  }

  /** The entry for a path over `m` that ends at `j`. */
  function Entry(c: seq<int>, n: nat, m: nat, j: nat): int {
    if Cell(n, m, j) < |c| then c[Cell(n, m, j)] else UNREACHABLE
  }

  // ---------- What a cell holds at any time ----------

  /** A path that has left city 0 and ends at k. */
  ghost predicate Target(m: nat, k: nat) {
    m % 2 == 1 && k != 0 && Bit(m, k)
  }

  /** The set before its last city was added. */
  function Before(m: nat, k: nat): nat {
    if m >= Pow2(k) then m - Pow2(k) else 0
  }

  /** The step from j to k has been taken into account. */
  ghost predicate Considered(d: Distances, n: nat, c: seq<int>, m: nat, k: nat, j: nat) {
    var q := Before(m, k);
    Bit(q, j) && Entry(c, n, q, j) < UNREACHABLE ==> Entry(c, n, m, k) <= Entry(c, n, q, j) + Dist(d, j, k)
  }

  /** The entry is the cost of one step from the entry its parent names. */
  ghost predicate Attained(d: Distances, n: nat, c: seq<int>, p: seq<int>, m: nat, k: nat) {
    var q, j := Before(m, k), Entry(p, n, m, k);
    0 <= j < n && Bit(q, j) && Entry(c, n, q, j) < UNREACHABLE &&
        Entry(c, n, m, k) == Entry(c, n, q, j) + Dist(d, j, k)
  }

  /** The state of one cell when all sets below `mask` have been expanded, `mask` itself from the cities
      below j, and from j towards the cities below kk. */
  ghost predicate CellOk(d: Distances, n: nat, c: seq<int>, p: seq<int>, mask: nat, j: nat, kk: nat, m: nat, k: nat) {
    m < Pow2(n) && k < n ==>
      var q := Before(m, k);
      if !Target(m, k) then
        Entry(c, n, m, k) == (if m == 1 && k == 0 then 0 else UNREACHABLE) && Entry(p, n, m, k) == -1
      else if q > mask then
        Entry(c, n, m, k) == UNREACHABLE && Entry(p, n, m, k) == -1
      else
        && Entry(c, n, m, k) <= UNREACHABLE
        && (Entry(c, n, m, k) < UNREACHABLE ==> Attained(d, n, c, p, m, k))
        && (forall i: nat {:trigger Considered(d, n, c, m, k, i)} ::
              i < (if q < mask then n else if k < kk then j + 1 else j) ==> Considered(d, n, c, m, k, i))
  }

  ghost predicate Progress(d: Distances, n: nat, c: seq<int>, p: seq<int>, mask: nat, j: nat, kk: nat) {
    && |d| == n && |c| == |p| == Pow2(n) * n
    && forall m: nat, k: nat {:trigger CellOk(d, n, c, p, mask, j, kk, m, k)} :: CellOk(d, n, c, p, mask, j, kk, m, k)
  }

  // ---------- The steps of the loops ----------

  lemma TargetIsNotBefore(m: nat, k: nat)
    requires Target(m, k)
    ensures !Bit(Before(m, k), k) && Before(m, k) + Pow2(k) == m && Before(m, k) % 2 == 1
  {
    ClearBit(m, k, k);
    ClearBit(m, k, 0);
  }

  lemma SkipVisited(d: Distances, n: nat, c: seq<int>, p: seq<int>, mask: nat, j: nat, kk: nat)
    requires Progress(d, n, c, p, mask, j, kk) && Bit(mask, kk)
    ensures Progress(d, n, c, p, mask, j, kk + 1)
  {
    var next := kk + 1;
    forall m: nat, k: nat ensures CellOk(d, n, c, p, mask, j, next, m, k) {
      assert CellOk(d, n, c, p, mask, j, kk, m, k);
      if Target(m, k) {
        TargetIsNotBefore(m, k);
      }
    }
  }

  lemma SkipSource(d: Distances, n: nat, c: seq<int>, p: seq<int>, mask: nat, j: nat)
    requires Progress(d, n, c, p, mask, j, 0) && (!Bit(mask, j) || Entry(c, n, mask, j) == UNREACHABLE)
    ensures Progress(d, n, c, p, mask, j + 1, 0)
  {
    var next := j + 1;
    forall m: nat, k: nat ensures CellOk(d, n, c, p, mask, next, 0, m, k) {
      assert CellOk(d, n, c, p, mask, j, 0, m, k);
    }
  }

  lemma EndSource(d: Distances, n: nat, c: seq<int>, p: seq<int>, mask: nat, j: nat)
    requires Progress(d, n, c, p, mask, j, n)
    ensures Progress(d, n, c, p, mask, j + 1, 0)
  {
    var next := j + 1;
    forall m: nat, k: nat ensures CellOk(d, n, c, p, mask, next, 0, m, k) {
      assert CellOk(d, n, c, p, mask, j, n, m, k);
    }
  }

  lemma NextMask(d: Distances, n: nat, c: seq<int>, p: seq<int>, mask: nat, j: nat)
    requires Progress(d, n, c, p, mask, j, 0) && (j == n || mask % 2 == 0)
    ensures Progress(d, n, c, p, mask + 1, 0, 0)
  {
    var next := mask + 1;
    forall m: nat, k: nat ensures CellOk(d, n, c, p, next, 0, 0, m, k) {
      assert CellOk(d, n, c, p, mask, j, 0, m, k);
      if Target(m, k) {
        TargetIsNotBefore(m, k);
      }
    }
  }

  /** Writing one cell leaves every other cell alone. */
  lemma OtherCells(n: nat, c: seq<int>, m: nat, k: nat, v: int, m': nat, k': nat)
    requires k < n && k' < n && Cell(n, m, k) < |c|
    ensures Entry(c[Cell(n, m, k) := v], n, m', k') == if m == m' && k == k' then v else Entry(c, n, m', k')
  {
    if m != m' || k != k' {
      CellInjective(n, m, k, m', k');
    }
  }

  /** One offer: the path over `mask` that ends at j, extended to kk. */
  lemma OfferStep(d: Distances, n: nat, c: seq<int>, p: seq<int>, mask: nat, j: nat, kk: nat)
    requires Progress(d, n, c, p, mask, j, kk) && mask < Pow2(n) && mask % 2 == 1 && j < n && kk < n
    requires Bit(mask, j) && !Bit(mask, kk) && Entry(c, n, mask, j) < UNREACHABLE
    ensures var next := mask + Pow2(kk); var through := Entry(c, n, mask, j) + Dist(d, j, kk);
            && next < Pow2(n) && Cell(n, next, kk) < |c|
            && if through < Entry(c, n, next, kk)
               then Progress(d, n, c[Cell(n, next, kk) := through], p[Cell(n, next, kk) := j], mask, j, kk + 1)
               else Progress(d, n, c, p, mask, j, kk + 1)
  {
    var next := mask + Pow2(kk);
    var through := Entry(c, n, mask, j) + Dist(d, j, kk);
    SetBitFits(mask, kk, n);
    CellFits(n, next, kk, Pow2(n));
    var c', p' := c, p;
    if through < Entry(c, n, next, kk) {
      c', p' := c[Cell(n, next, kk) := through], p[Cell(n, next, kk) := j];
    }
    var after := kk + 1;
    forall m: nat, k: nat ensures CellOk(d, n, c', p', mask, j, after, m, k) {
      if m < Pow2(n) && k < n {
        OfferCell(d, n, c, p, mask, j, kk, c', p', m, k);
      }
    }
  }

  lemma OfferCell(d: Distances, n: nat, c: seq<int>, p: seq<int>, mask: nat, j: nat, kk: nat,
                  c': seq<int>, p': seq<int>, m: nat, k: nat)
    requires Progress(d, n, c, p, mask, j, kk) && mask < Pow2(n) && mask % 2 == 1 && j < n && kk < n
    requires Bit(mask, j) && !Bit(mask, kk) && Entry(c, n, mask, j) < UNREACHABLE
    requires Cell(n, mask + Pow2(kk), kk) < |c|
    requires var next := mask + Pow2(kk); var through := Entry(c, n, mask, j) + Dist(d, j, kk);
             if through < Entry(c, n, next, kk)
             then c' == c[Cell(n, next, kk) := through] && p' == p[Cell(n, next, kk) := j]
             else c' == c && p' == p
    requires m < Pow2(n) && k < n
    ensures CellOk(d, n, c', p', mask, j, kk + 1, m, k)
  {
    var next := mask + Pow2(kk);
    var through := Entry(c, n, mask, j) + Dist(d, j, kk);
    SetBit(mask, kk, kk);
    SetBit(mask, kk, 0);
    PowPositive(kk);
    assert kk != 0 && Target(next, kk) && Before(next, kk) == mask;
    forall m': nat, k': nat | k' < n
      ensures Entry(c', n, m', k') == if m' == next && k' == kk && c' != c then through else Entry(c, n, m', k')
      ensures Entry(p', n, m', k') == if m' == next && k' == kk && c' != c then j else Entry(p, n, m', k')
    {
      OtherCells(n, c, next, kk, through, m', k');
      OtherCells(n, p, next, kk, j, m', k');
    }
    assert CellOk(d, n, c, p, mask, j, kk, m, k);
    if Target(m, k) {
      TargetIsNotBefore(m, k);
      var q := Before(m, k);
      if q <= mask {
        forall i: nat | i < n && Considered(d, n, c, m, k, i) ensures Considered(d, n, c', m, k, i) {
        }
        if m == next && k == kk {
          assert Considered(d, n, c', m, k, j);
        }
      }
    }
  }

  /** The freshly initialised table: only the empty path at city 0 is known. */
  lemma InitialTable(d: Distances, n: nat, c: seq<int>, p: seq<int>)
    requires n > 0 && |d| == n && |c| == |p| == Pow2(n) * n && Cell(n, 1, 0) < |c| && c[Cell(n, 1, 0)] == 0
    requires forall i :: 0 <= i < |c| && i != Cell(n, 1, 0) ==> c[i] == UNREACHABLE
    requires forall i :: 0 <= i < |p| ==> p[i] == -1
    ensures Progress(d, n, c, p, 1, 0, 0)
  {
    forall m: nat, k: nat ensures CellOk(d, n, c, p, 1, 0, 0, m, k) {
      if m < Pow2(n) && k < n {
        CellFits(n, m, k, Pow2(n));
        if m != 1 || k != 0 {
          CellInjective(n, m, k, 1, 0);
        }
        OneHasOnlyZero(k);
        if Target(m, k) {
          TargetIsNotBefore(m, k);
        }
      }
    }
  }

  // ---------- Paths as seen by the table ----------

  /** The set of cities on a path. */
  function MaskOf(p: seq<int>): nat {
    if p == [] then 0 else MaskOf(p[..|p| - 1]) + (if p[|p| - 1] >= 0 then Pow2(p[|p| - 1]) else 0)
  }

  /** A path that leaves city 0 and visits no city twice. */
  ghost predicate SimplePath(p: seq<int>, n: nat) {
    p != [] && p[0] == 0 && InRange(p, n) && Distinct(p)
  }

  lemma {:induction false} MaskBits(p: seq<int>, n: nat, j: nat)
    requires InRange(p, n) && Distinct(p)
    ensures Bit(MaskOf(p), j) <==> (j as int) in p
    ensures MaskOf(p) < Pow2(n)
  {
    if p == [] {
      OneHasOnlyZero(j);
      PowPositive(n);
    } else {
      var q, last := p[..|p| - 1], p[|p| - 1];
      MaskBits(q, n, j);
      MaskBits(q, n, last);
      SetBit(MaskOf(q), last, j);
      SetBitFits(MaskOf(q), last, n);
      assert p == q + [last];
    }
  }

  /** The table can follow the path: no part of it from the start costs as much as the sentinel. */
  ghost predicate Affordable(d: Distances, p: seq<int>) {
    forall k {:trigger p[..k]} :: 0 <= k <= |p| ==> PathCost(d, p[..k]) < UNREACHABLE
  }

  /** A tour from city 0 that the table can follow, and close below the sentinel. */
  ghost predicate AffordableTour(d: Distances, t: seq<int>) {
    IsTour(d, t) && (t != [] ==> t[0] == 0) && Affordable(d, t) && TourCost(d, t) < UNREACHABLE
  }

  lemma AffordableBefore(d: Distances, p: seq<int>, n: nat)
    requires Affordable(d, p) && n <= |p|
    ensures Affordable(d, p[..n]) && PathCost(d, p) < UNREACHABLE
  {
    assert p[..|p|] == p;
    forall k | 0 <= k <= n ensures PathCost(d, p[..n][..k]) < UNREACHABLE {
      assert p[..n][..k] == p[..k];
    }
  }

  /** No path sum and no tour reaches the sentinel. */
  ghost predicate Bounded(d: Distances) {
    forall p {:trigger SimplePath(p, |d|)} :: SimplePath(p, |d|) ==>
      PathCost(d, p) < UNREACHABLE && (|p| == |d| ==> TourCost(d, p) < UNREACHABLE)
  }

  /** Once every set is expanded, no path the table can follow is cheaper than its entry. */
  lemma {:induction false} EntryIsLowerBound(d: Distances, n: nat, c: seq<int>, pr: seq<int>, p: seq<int>)
    requires Progress(d, n, c, pr, Pow2(n), 0, 0) && Affordable(d, p) && SimplePath(p, n)
    ensures Entry(c, n, MaskOf(p), p[|p| - 1]) <= PathCost(d, p) < UNREACHABLE
    decreases |p|
  {
    var m, k := MaskOf(p), p[|p| - 1];
    MaskBits(p, n, k);
    MaskBits(p, n, 0);
    assert Bit(m, 0);
    assert CellOk(d, n, c, pr, Pow2(n), 0, 0, m, k);
    var q := p[..|p| - 1];
    AffordableBefore(d, p, |q|);
    if |p| == 1 {
      assert q == [];
    } else {
      var j := q[|q| - 1];
      EntryIsLowerBound(d, n, c, pr, q);
      MaskBits(q, n, j);
      assert p[0] != k && SimplePath(q, n);
      assert Target(m, k) && Before(m, k) == MaskOf(q);
      assert Considered(d, n, c, m, k, j);
    }
  }

  // ---------- Filling the table ----------

  method Fill(d: Distances, n: nat) returns (cost: array<int>, prev: array<int>)
    requires Square(d) && |d| == n && n > 0
    ensures Progress(d, n, cost[..], prev[..], Pow2(n), 0, 0)
  {
    var size := Pow2(n);
    PowPositive(n);
    cost := new int[size * n](_ => UNREACHABLE);
    prev := new int[size * n](_ => -1);
    CellFits(n, 1, 0, size);
    cost[Cell(n, 1, 0)] := 0;
    InitialTable(d, n, cost[..], prev[..]);
    for mask := 1 to size
      invariant Progress(d, n, cost[..], prev[..], mask, 0, 0)
    {
      if mask % 2 == 1 {
        for j := 0 to n
          invariant Progress(d, n, cost[..], prev[..], mask, j, 0)
        {
          ExpandFrom(d, n, cost, prev, mask, j);
        }
      }
      NextMask(d, n, cost[..], prev[..], mask, if mask % 2 == 1 then n else 0);
    }
  }

  /** Extends the best path over `mask` that ends at j by every city not on it. */
  method ExpandFrom(d: Distances, n: nat, cost: array<int>, prev: array<int>, mask: nat, j: nat)
    requires Square(d) && |d| == n && cost != prev && mask < Pow2(n) && mask % 2 == 1 && j < n
    requires Progress(d, n, cost[..], prev[..], mask, j, 0)
    modifies cost, prev
    ensures Progress(d, n, cost[..], prev[..], mask, j + 1, 0)
  {
    CellFits(n, mask, j, Pow2(n));
    var base := cost[Cell(n, mask, j)];
    assert CellOk(d, n, cost[..], prev[..], mask, j, 0, mask, j);
    if !Bit(mask, j) || base == UNREACHABLE {
      SkipSource(d, n, cost[..], prev[..], mask, j);
      return;
    }
    for k := 0 to n
      invariant Progress(d, n, cost[..], prev[..], mask, j, k)
      invariant cost[Cell(n, mask, j)] == base
    {
      if Bit(mask, k) {
        SkipVisited(d, n, cost[..], prev[..], mask, j, k);
        continue;
      }
      var next := mask + Pow2(k);
      var through := base + d[j][k];
      OfferStep(d, n, cost[..], prev[..], mask, j, k);
      PowPositive(k);
      CellInjective(n, mask, j, next, k);
      if through < cost[Cell(n, next, k)] {
        cost[Cell(n, next, k)] := through;
        prev[Cell(n, next, k)] := j;
      }
    }
    EndSource(d, n, cost[..], prev[..], mask, j);
  }

  // ---------- The tour ----------

  /** The set of all cities. */
  function Full(n: nat): nat {
    PowPositive(n);
    Pow2(n) - 1
  }

  datatype TourResult = Tour(tour: seq<int>, cost: int) | NoSolution | TooLarge

  /** The cities from some point of the path on: those that have left the set `mask`, and the last one in it. */
  ghost predicate Suffix(d: Distances, n: nat, c: seq<int>, mask: nat, city: int, walk: seq<int>, total: int) {
    && 0 <= city < n && mask < Pow2(n) && Bit(mask, city)
    && walk != [] && walk[0] == city && InRange(walk, n) && Distinct(walk)
    && (forall x: nat {:trigger LeftOrLast(n, mask, city, walk, x)} :: LeftOrLast(n, mask, city, walk, x))
    && Entry(c, n, mask, city) < UNREACHABLE
    && Entry(c, n, mask, city) + PathCost(d, walk) == total
    && Settled(d, walk, total)
  }

  /** What was spent before any city of the walk is below the sentinel. */
  ghost predicate Settled(d: Distances, walk: seq<int>, total: int) {
    forall k {:trigger walk[k..]} :: 0 <= k < |walk| ==> total - PathCost(d, walk[k..]) < UNREACHABLE
  }

  lemma SettledLonger(d: Distances, walk: seq<int>, total: int, parent: int)
    requires Settled(d, walk, total) && total - PathCost(d, [parent] + walk) < UNREACHABLE
    ensures Settled(d, [parent] + walk, total)
  {
    var longer := [parent] + walk;
    forall k | 0 <= k < |longer| ensures total - PathCost(d, longer[k..]) < UNREACHABLE {
      assert longer[k..] == if k == 0 then longer else walk[k - 1..];
    }
  }

  /** A path is a part and, from the last city of that part on, the rest. */
  lemma SplitCost(d: Distances, p: seq<int>, k: nat)
    requires k < |p|
    ensures PathCost(d, p) == PathCost(d, p[..k + 1]) + PathCost(d, p[k..])
  {
    var front, back := p[..k + 1], p[k + 1..];
    if back == [] {
      assert front == p && |p[k..]| == 1;
    } else {
      assert p == front + back && p[k..] == [p[k]] + back;
      PathCostJoin(d, front, back);
      PathCostJoin(d, [p[k]], back);
    }
  }

  lemma SettledIsAffordable(d: Distances, walk: seq<int>)
    requires Settled(d, walk, PathCost(d, walk))
    ensures Affordable(d, walk)
  {
    forall k | 0 <= k <= |walk| ensures PathCost(d, walk[..k]) < UNREACHABLE {
      if k > 0 {
        SplitCost(d, walk, k - 1);
      }
    }
  }

  /** A city is in the set unless the walk has passed it; the walk has just arrived at `city`. */
  ghost predicate LeftOrLast(n: nat, mask: nat, city: int, walk: seq<int>, x: nat) {
    x < n ==> (Bit(mask, x) <==> x == city || (x as int) !in walk)
  }

  lemma StepBack(d: Distances, n: nat, c: seq<int>, p: seq<int>, mask: nat, city: int, walk: seq<int>, total: int)
    requires Progress(d, n, c, p, Pow2(n), 0, 0) && Suffix(d, n, c, mask, city, walk, total)
    ensures var parent := Entry(p, n, mask, city);
            if Target(mask, city)
            then 0 <= parent && mask >= Pow2(city) &&
                Suffix(d, n, c, mask - Pow2(city), parent, [parent] + walk, total)
            else mask == 1 && city == 0 && parent == -1 && Entry(c, n, 1, 0) == 0
  {
    assert CellOk(d, n, c, p, Pow2(n), 0, 0, mask, city);
    if Target(mask, city) {
      TargetIsNotBefore(mask, city);
      var q, parent := Before(mask, city), Entry(p, n, mask, city);
      ClearBit(mask, city, city);
      var longer := [parent] + walk;
      PathCostJoin(d, [parent], walk);
      SettledLonger(d, walk, total, parent);
      ClearBit(mask, city, parent);
      assert LeftOrLast(n, mask, city, walk, parent);
      assert parent !in walk;
      forall x: nat ensures LeftOrLast(n, q, parent, longer, x) {
        ClearBit(mask, city, x);
        assert LeftOrLast(n, mask, city, walk, x);
      }
    }
  }

  /** When only city 0 is left in the set, the walk is a tour. */
  lemma AllVisited(d: Distances, n: nat, c: seq<int>, walk: seq<int>, total: int)
    requires Suffix(d, n, c, 1, 0, walk, total) && |d| == n
    ensures IsTour(d, walk)
  {
    RangeHas(n);
    forall x | x in Range(n) ensures x in Elements(walk) {
      OneHasOnlyZero(x);
      assert LeftOrLast(n, 1, 0, walk, x);
    }
    assert Elements(walk) == Range(n);
    DistinctCount(walk);
  }

  /** tour holds, backwards, what the walk has passed; the walk still has to leave `city`, or is complete. */
  ghost predicate GoingBack(d: Distances, n: nat, c: seq<int>, mask: nat, city: int, walk: seq<int>,
      total: int, tour: seq<int>) {
    OnTheWayBack(d, n, c, mask, city, walk, total, tour)
  }

  ghost predicate OnTheWayBack(d: Distances, n: nat, c: seq<int>, mask: nat, city: int, walk: seq<int>,
      total: int, tour: seq<int>) {
    && walk != []
    && (if city >= 0 then Suffix(d, n, c, mask, city, walk, total) else Suffix(d, n, c, 1, 0, walk, total))
    && tour == Reverse(if city >= 0 then walk[1..] else walk)
  }

  lemma OneBack(d: Distances, n: nat, c: seq<int>, p: seq<int>, mask: nat, city: int, walk: seq<int>,
      total: int, tour: seq<int>)
    requires Progress(d, n, c, p, Pow2(n), 0, 0) && Entry(c, n, 1, 0) == 0
    requires city >= 0 && GoingBack(d, n, c, mask, city, walk, total, tour)
    ensures Pow2(city) >= 1 && mask >= Pow2(city)
    ensures var parent := Entry(p, n, mask, city);
      var longer := if parent >= 0 then [parent] + walk else walk;
      GoingBack(d, n, c, mask - Pow2(city), parent, longer, total, tour + [city]) &&
          longer[|longer| - 1] == walk[|walk| - 1]
  {
    StepBack(d, n, c, p, mask, city, walk, total);
    PowPositive(city);
    OneMoreBehind(walk, Entry(p, n, mask, city));
  }

  lemma OneMoreBehind(walk: seq<int>, parent: int)
    requires walk != []
    ensures Reverse(walk[1..]) + [walk[0]] == Reverse(walk) && ([parent] + walk)[1..] == walk
  {
    ReversePrepend(walk[0], walk[1..]);
    assert walk == [walk[0]] + walk[1..];
  }

  lemma Arrived(d: Distances, n: nat, c: seq<int>, mask: nat, city: int, walk: seq<int>, total: int, tour: seq<int>)
    requires city < 0 && GoingBack(d, n, c, mask, city, walk, total, tour) && |d| == n && Entry(c, n, 1, 0) == 0
    ensures Reverse(tour) == walk && IsTour(d, walk) && walk[0] == 0 && PathCost(d, walk) == total
    ensures Affordable(d, walk)
  {
    ReverseTwice(walk);
    AllVisited(d, n, c, walk, total);
    SettledIsAffordable(d, walk);
  }

  method ParentOf(prev: seq<int>, n: nat, mask: nat, city: nat) returns (parent: int)
    requires city < n && mask < Pow2(n) && |prev| == Pow2(n) * n
    ensures parent == Entry(prev, n, mask, city)
  {
    CellFits(n, mask, city, Pow2(n));
    parent := prev[Cell(n, mask, city)];
  }

  /** Walks the parents back from the last city. */
  method Rebuild(d: Distances, n: nat, ghost c: seq<int>, prev: seq<int>, last: int,
      ghost total: int) returns (tour: seq<int>)
    requires n > 0 && Progress(d, n, c, prev, Pow2(n), 0, 0)
    requires Suffix(d, n, c, Full(n), last, [last], total)
    requires Entry(c, n, 1, 0) == 0
    ensures IsTour(d, tour) && tour[0] == 0 && tour[n - 1] == last && PathCost(d, tour) == total
    ensures Affordable(d, tour)
  {
    tour := [];
    var mask: nat, city := Full(n), last;
    ghost var walk := [last];
    while city >= 0
      invariant GoingBack(d, n, c, mask, city, walk, total, tour) && walk[|walk| - 1] == last
      decreases if city >= 0 then mask + 1 else 0
    {
      OneBack(d, n, c, prev, mask, city, walk, total, tour);
      tour := tour + [city];
      var parent := ParentOf(prev, n, mask, city);
      walk := if parent >= 0 then [parent] + walk else walk;
      mask := mask - Pow2(city);
      city := parent;
    }
    Arrived(d, n, c, mask, city, walk, total, tour);
    tour := Reverse(tour);
  }

  /** The cheapest way home: the least entry over all cities plus the leg back to city 0. */
  ghost predicate Closing(d: Distances, n: nat, c: seq<int>, best: int, last: int, j: nat) {
    && best <= UNREACHABLE
    && (if last < 0 then best == UNREACHABLE
        else best < UNREACHABLE && 1 <= last < j && Entry(c, n, Full(n), last) < UNREACHABLE
             && best == Entry(c, n, Full(n), last) + Dist(d, last, 0))
    && forall i: nat {:trigger NoCheaperFrom(d, n, c, best, i)} :: 1 <= i < j ==> NoCheaperFrom(d, n, c, best, i)
  }

  ghost predicate NoCheaperFrom(d: Distances, n: nat, c: seq<int>, best: int, i: nat) {
    Entry(c, n, Full(n), i) < UNREACHABLE ==> best <= Entry(c, n, Full(n), i) + Dist(d, i, 0)
  }

  /** A tour is a simple path over all cities, so no tour the table can follow beats the best closing. */
  lemma ClosingIsLowerBound(d: Distances, n: nat, c: seq<int>, p: seq<int>, best: int, last: int, u: seq<int>)
    requires n >= 2 && Progress(d, n, c, p, Pow2(n), 0, 0) && Closing(d, n, c, best, last, n)
    requires AffordableTour(d, u)
    ensures best <= TourCost(d, u) && last >= 0
  {
    assert SimplePath(u, n);
    EntryIsLowerBound(d, n, c, p, u);
    forall k: nat | k < n ensures Bit(MaskOf(u), k) {
      MaskBits(u, n, k);
      TourCoversAll(n, u, k);
    }
    MaskBits(u, n, 0);
    AllBitsIsFull(MaskOf(u), n);
    var i := u[|u| - 1];
    assert NoCheaperFrom(d, n, c, best, i);
  }

  /** The least closed tour over all choices of the last city. */
  method Close(d: Distances, n: nat, cost: array<int>, ghost p: seq<int>) returns (best: int, last: int)
    requires Square(d) && |d| == n && n >= 2 && Progress(d, n, cost[..], p, Pow2(n), 0, 0)
    ensures Closing(d, n, cost[..], best, last, n)
  {
    var full := Full(n);
    best, last := UNREACHABLE, -1;
    for j := 1 to n
      invariant Closing(d, n, cost[..], best, last, j)
    {
      CellFits(n, full, j, Pow2(n));
      FullEntry(d, n, cost[..], p, j);
      ghost var before := best;
      if cost[Cell(n, full, j)] == UNREACHABLE {
        continue;
      }
      var total := cost[Cell(n, full, j)] + d[j][0];
      if total < best {
        best, last := total, j;
      }
      forall i: nat | 1 <= i < j + 1 ensures NoCheaperFrom(d, n, cost[..], best, i) {
        assert i < j ==> NoCheaperFrom(d, n, cost[..], before, i);
      }
    }
  }

  lemma FullEntry(d: Distances, n: nat, c: seq<int>, p: seq<int>, j: nat)
    requires Progress(d, n, c, p, Pow2(n), 0, 0) && 1 <= j < n
    ensures Entry(c, n, Full(n), j) <= UNREACHABLE
  {
    FullHasAll(n, 0);
    FullHasAll(n, j);
    assert CellOk(d, n, c, p, Pow2(n), 0, 0, Full(n), j);
  }

  /** The table can follow one of the cheapest tours. */
  ghost predicate SomeBestIsAffordable(d: Distances) {
    exists t :: AffordableTour(d, t) && Optimal(d, TourCost(d, t))
  }

  /** Exactly the tours the table can follow are taken into account, so the answer is the cheapest tour
      exactly if the table can follow one of those. */
  method TSPHeldKarp(d: Distances) returns (r: TourResult)
    requires Square(d)
    ensures r.TooLarge? <==> |d| > 20
    ensures r.NoSolution? <==> |d| <= 20 && forall t :: !AffordableTour(d, t)
    ensures r.Tour? ==> AffordableTour(d, r.tour) && r.cost == TourCost(d, r.tour)
    ensures r.Tour? ==> forall t :: AffordableTour(d, t) ==> r.cost <= TourCost(d, t)
    ensures |d| <= 20 ==> ((r.Tour? && Optimal(d, r.cost)) <==> SomeBestIsAffordable(d))
    ensures AllCount(d) && r.NoSolution? ==> forall t :: IsTour(d, t) ==> TourCost(d, t) >= UNREACHABLE
    ensures AllCount(d) && r.Tour? ==> Optimal(d, r.cost)
    ensures Bounded(d) && |d| <= 20 ==> r.Tour?
    ensures |d| <= 20 && EntriesUpTo(d, 109_802_048_057_794_950) ==> r.Tour? && Optimal(d, r.cost)
  {
    if |d| <= 20 && EntriesUpTo(d, 109_802_048_057_794_950) {
      SmallEntriesAreBounded(d, 109_802_048_057_794_950);
    }
    var n := |d|;
    if n == 0 {
      OnlyCity(d, []);
      return Tour([], 0);
    } else if n == 1 {
      OnlyCity(d, [0]);
      return Tour([0], 0);
    } else if n > 20 {
      return TooLarge;
    }
    var cost, prev := Fill(d, n);
    ghost var c, p := cost[..], prev[..];
    var best, last := Close(d, n, cost, p);
    forall t | AffordableTour(d, t) ensures best <= TourCost(d, t) && last >= 0 {
      ClosingIsLowerBound(d, n, c, p, best, last, t);
    }
    LeastIsOptimal(d, best);
    if last < 0 {
      return NoSolution;
    }
    FullSuffix(d, n, c, p, last);
    var tour := Rebuild(d, n, c, prev[..], last, Entry(c, n, Full(n), last));
    assert best == TourCost(d, tour) < UNREACHABLE;
    assert AffordableTour(d, tour);
    r := Tour(tour, best);
  }

  lemma OnlyCity(d: Distances, t: seq<int>)
    requires |d| <= 1 && IsTour(d, t)
    ensures AffordableTour(d, t)
  {
    forall k | 0 <= k <= |t| ensures PathCost(d, t[..k]) < UNREACHABLE {
      assert |t[..k]| < 2;
    }
  }

  /** No distance is greater than m. */
  ghost predicate EntriesUpTo(d: Distances, m: int) {
    forall i, j :: 0 <= i < |d| && 0 <= j < |d[i]| ==> d[i][j] <= m
  }

  /** Two cities whose only tour costs as much as the sentinel, and is missed. */
  lemma TooFarApart(d: Distances)
    requires d == [[0, 0x1FFF_FFFF_FFFF_FFFF], [0, 0]]
    ensures IsTour(d, [0, 1]) && TourCost(d, [0, 1]) == 0x1FFF_FFFF_FFFF_FFFF
    ensures forall t :: !AffordableTour(d, t)
  {
    PairCost(d, d[0][1]);
    TooFar(d, d[0][1]);
  }

  lemma PairCost(d: Distances, far: int)
    requires d == [[0, far], [0, 0]]
    ensures IsTour(d, [0, 1]) && PathCost(d, [0, 1]) == TourCost(d, [0, 1]) == far
  {
    assert PathCost(d, [0, 1]) == PathCost(d, [0]) + Dist(d, 0, 1) by { assert [0, 1][..1] == [0]; }
  }

  lemma NearEnough(d: Distances, far: int)
    requires d == [[0, far], [0, 0]] && far < UNREACHABLE
    ensures AffordableTour(d, [0, 1]) && forall t :: AffordableTour(d, t) ==> t == [0, 1]
  {
    PairCost(d, far);
    var t := [0, 1];
    forall k | 0 <= k <= 2 ensures PathCost(d, t[..k]) < UNREACHABLE {
      assert k == 2 ==> t[..k] == t;
      assert k < 2 ==> |t[..k]| < 2;
    }
  }

  /** Two cities, one way free: where the search gives up. */
  method TwoCities(far: int) returns (r: TourResult)
    ensures r == if far < 0x1FFF_FFFF_FFFF_FFFF then Tour([0, 1], far) else NoSolution
  {
    var d := [[0, far], [0, 0]];
    r := TSPHeldKarp(d);
    PairCost(d, far);
    if far < 0x1FFF_FFFF_FFFF_FFFF {
      NearEnough(d, far);
    } else {
      TooFar(d, far);
    }
  }

  lemma TooFar(d: Distances, far: int)
    requires d == [[0, far], [0, 0]] && far >= UNREACHABLE
    ensures forall t :: !AffordableTour(d, t)
  {
    PairCost(d, far);
    forall t ensures !AffordableTour(d, t) {
      if IsTour(d, t) && t[0] == 0 {
        assert t == [0, 1];
      }
    }
  }

  lemma FullSuffix(d: Distances, n: nat, c: seq<int>, p: seq<int>, last: int)
    requires n >= 2 && Progress(d, n, c, p, Pow2(n), 0, 0) && 1 <= last < n
    requires Entry(c, n, Full(n), last) < UNREACHABLE
    ensures Suffix(d, n, c, Full(n), last, [last], Entry(c, n, Full(n), last))
    ensures Entry(c, n, 1, 0) == 0
  {
    PowPositive(n - 1);
    forall x: nat ensures LeftOrLast(n, Full(n), last, [last], x) {
      if x < n {
        FullHasAll(n, x);
      }
    }
    FullHasAll(n, last);
    assert CellOk(d, n, c, p, Pow2(n), 0, 0, 1, 0);
  }

  function Identity(n: nat): seq<int> { seq(n, i => i) }

  lemma IdentityIsTour(d: Distances)
    ensures IsTour(d, Identity(|d|))
  {
  }

  // ---------- When every tour below the sentinel counts ----------

  lemma {:induction false} PrefixIsNoDearer(d: Distances, p: seq<int>, k: nat)
    requires NonNegative(d) && k <= |p|
    ensures PathCost(d, p[..k]) <= PathCost(d, p)
    decreases |p|
  {
    if k == |p| {
      assert p[..k] == p;
    } else {
      PrefixIsNoDearer(d, p[..|p| - 1], k);
      assert p[..|p| - 1][..k] == p[..k];
    }
  }

  /** Two conditions under which no tour below the sentinel is overlooked. */
  ghost predicate AllCount(d: Distances) {
    Bounded(d) || NonNegative(d)
  }

  /** A tour from city 0 below the sentinel has no part that is dearer. */
  lemma BelowIsAffordable(d: Distances, u: seq<int>)
    requires AllCount(d) && IsTour(d, u) && u != [] && u[0] == 0 && TourCost(d, u) < UNREACHABLE
    ensures AffordableTour(d, u)
  {
    forall k | 0 <= k <= |u| ensures PathCost(d, u[..k]) < UNREACHABLE {
      if NonNegative(d) {
        PrefixIsNoDearer(d, u, k);
      } else if k > 0 {
        assert SimplePath(u[..k], |d|);
      }
    }
  }

  /** What bounds the tours the table can follow bounds every tour, up to the sentinel. */
  lemma LeastIsOptimal(d: Distances, best: int)
    requires |d| > 0 && best <= UNREACHABLE && forall t :: AffordableTour(d, t) ==> best <= TourCost(d, t)
    ensures AllCount(d) ==> Optimal(d, best)
    ensures Bounded(d) ==> exists t :: AffordableTour(d, t)
  {
    if AllCount(d) {
      forall t | IsTour(d, t) ensures best <= TourCost(d, t) {
        if TourCost(d, t) < UNREACHABLE {
          var u := StartAtZero(d, t);
          BelowIsAffordable(d, u);
        }
      }
    }
    if Bounded(d) {
      var t := Identity(|d|);
      IdentityIsTour(d);
      assert SimplePath(t, |d|);
      BelowIsAffordable(d, t);
    }
  }

  lemma {:induction false} PathCostAtMost(d: Distances, p: seq<int>, m: nat)
    requires forall i, j :: Dist(d, i, j) <= m
    ensures PathCost(d, p) <= |p| * m
  {
    if |p| >= 2 {
      PathCostAtMost(d, p[..|p| - 1], m);
    }
  }

  /** Entries small enough that the sum over all cities stays below the sentinel are enough. */
  lemma SmallEntriesAreBounded(d: Distances, m: nat)
    requires |d| <= 20 && (forall i, j :: Dist(d, i, j) <= m) && 21 * m < UNREACHABLE
    ensures Bounded(d)
  {
    forall p {:trigger SimplePath(p, |d|)} | SimplePath(p, |d|)
      ensures PathCost(d, p) < UNREACHABLE && (|p| == |d| ==> TourCost(d, p) < UNREACHABLE)
    {
      PathCostAtMost(d, p, m);
      SimplePathIsShort(p, |d|);
      MulGrows(m, |p|, 20);
      if |p| >= 2 {
        assert Dist(d, p[|p| - 1], p[0]) <= m;
      }
    }
  }

  lemma MulGrows(m: nat, a: nat, b: nat)
    requires a <= b
    ensures a * m <= b * m
  {
  }

  lemma SimplePathIsShort(p: seq<int>, n: nat)
    requires SimplePath(p, n)
    ensures |p| <= n
  {
    RangeHas(n);
    DistinctCount(p);
    SubsetIsNoLarger(Elements(p), Range(n));
  }
}
