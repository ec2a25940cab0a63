/** Tours of a distance matrix: their cost, and what makes one valid. */
module TspModel {
  import opened FiniteSets
  import opened Sequences

  type Distances = seq<seq<int>>

  ghost predicate Square(d: Distances) {
    forall i :: 0 <= i < |d| ==> |d[i]| == |d|
  }

  /** The entry [i][j], and 0 outside the matrix. */
  function Dist(d: Distances, i: int, j: int): int {
    if 0 <= i < |d| && 0 <= j < |d[i]| then d[i][j] else 0
  }

  ghost predicate InRange(p: seq<int>, n: nat) {
    forall i :: 0 <= i < |p| ==> 0 <= p[i] < n
  }

  /** A permutation of the cities. */
  ghost predicate IsTour(d: Distances, t: seq<int>) {
    |t| == |d| && InRange(t, |d|) && Distinct(t)
  }

  ghost predicate NonNegative(d: Distances) {
    forall i, j {:trigger Dist(d, i, j)} :: Dist(d, i, j) >= 0
  }

  function PathCost(d: Distances, p: seq<int>): int {
    if |p| < 2 then 0 else PathCost(d, p[..|p| - 1]) + Dist(d, p[|p| - 2], p[|p| - 1])
  }

  /** The cost of going round and back to the start. */
  function TourCost(d: Distances, t: seq<int>): int {
    if |t| < 2 then 0 else PathCost(d, t) + Dist(d, t[|t| - 1], t[0])
  }

  /** No tour is cheaper. */
  ghost predicate Optimal(d: Distances, cost: int) {
    forall t :: IsTour(d, t) ==> cost <= TourCost(d, t)
  }

  lemma {:induction false} PathCostJoin(d: Distances, a: seq<int>, b: seq<int>)
    requires a != [] && b != []
    ensures PathCost(d, a + b) == PathCost(d, a) + Dist(d, a[|a| - 1], b[0]) + PathCost(d, b)
    decreases |b|
  {
    var p := a + b;
    var last := |b| - 1;
    assert p[|p| - 1] == b[last];
    if |b| == 1 {
      assert p[..|p| - 1] == a;
    } else {
      assert p[..|p| - 1] == a + b[..last];
      assert p[|p| - 2] == b[last - 1];
      PathCostJoin(d, a, b[..last]);
    }
  }

  /** Going round two cities costs both ways, and a city put in behind the last one of a longer tour replaces
      the way home by two others. */
  lemma OneCityMore(d: Distances, t: seq<int>, x: int)
    requires Square(d) && InRange(t, |d|) && 0 <= x < |d| && t != []
    ensures var last := t[|t| - 1];
      TourCost(d, t + [x]) == if |t| == 1 then d[last][x] + d[x][last]
                              else TourCost(d, t) - d[last][t[0]] + d[last][x] + d[x][t[0]]
    ensures TourCost(d, [x]) == 0
  {
    PathCostJoin(d, t, [x]);
  }

  /** Rotating a tour changes nothing. */
  lemma RotateTour(d: Distances, a: seq<int>, b: seq<int>)
    ensures TourCost(d, a + b) == TourCost(d, b + a)
  {
    if a == [] || b == [] {
      assert a + [] == a && [] + b == b && b + [] == b && [] + a == a;
    } else {
      PathCostJoin(d, a, b);
      PathCostJoin(d, b, a);
    }
  }

  /** Some tour that starts at city 0 costs the same. */
  lemma StartAtZero(d: Distances, t: seq<int>) returns (u: seq<int>)
    requires IsTour(d, t) && |d| > 0
    ensures IsTour(d, u) && u[0] == 0 && TourCost(d, u) == TourCost(d, t)
  {
    TourCoversAll(|d|, t, 0);
    var k :| 0 <= k < |t| && t[k] == 0;
    var a, b := t[..k], t[k..];
    assert t == a + b;
    u := b + a;
    RotateTour(d, a, b);
    SwapHalves(a, b, |d|);
  }

  lemma SwapHalves(a: seq<int>, b: seq<int>, n: nat)
    requires InRange(a + b, n) && Distinct(a + b)
    ensures InRange(b + a, n) && Distinct(b + a)
  {
    var t, u := a + b, b + a;
    assert forall i :: 0 <= i < |a| ==> t[i] == a[i];
    assert forall i :: 0 <= i < |b| ==> t[|a| + i] == b[i];
  }

  function Range(n: nat): set<int> {
    if n == 0 then {} else Range(n - 1) + {n - 1}
  }

  lemma {:induction false} RangeHas(n: nat)
    ensures |Range(n)| == n
    ensures forall x :: x in Range(n) <==> 0 <= x < n
  {
    if n > 0 {
      RangeHas(n - 1);
    }
  }

  /** n distinct cities below n are all of them. */
  lemma TourCoversAll(n: nat, t: seq<int>, x: int)
    requires |t| == n && InRange(t, n) && Distinct(t) && 0 <= x < n
    ensures x in t
  {
    RangeHas(n);
    DistinctCount(t);
    SubsetOfSameSize(Elements(t), Range(n));
    assert x in Elements(t);
  }

  // ---------- The two methods of Distances ----------

  /** Adds the legs in order, the last of them back to the start. */
  method TourLength(d: Distances, tour: seq<int>) returns (total: int)
    requires Square(d) && (|tour| >= 2 ==> InRange(tour, |d|))
    ensures total == TourCost(d, tour)
  {
    if |tour| < 2 {
      return 0;
    }
    total := 0;
    for i := 0 to |tour|
      invariant total == if i < |tour| then PathCost(d, tour[..i + 1]) else TourCost(d, tour)
    {
      var next := tour[(i + 1) % |tour|];
      if i + 1 < |tour| {
        assert tour[..i + 2][..i + 1] == tour[..i + 1];
      } else {
        assert tour[..i + 1] == tour;
      }
      total := total + d[tour[i]][next];
    }
  }

  method VerifyTour(d: Distances, tour: seq<int>) returns (length: int, ok: bool)
    requires Square(d)
    ensures ok <==> IsTour(d, tour)
    ensures length == if ok then TourCost(d, tour) else 0
  {
    if |tour| != |d| {
      return 0, false;
    }
    var seen := new bool[|d|](_ => false);
    for i := 0 to |tour|
      invariant InRange(tour[..i], |d|) && Distinct(tour[..i])
      invariant forall c :: 0 <= c < |d| ==> (seen[c] <==> c in tour[..i])
    {
      var city := tour[i];
      if city < 0 || city >= |d| || seen[city] {
        return 0, false;
      }
      assert tour[..i + 1] == tour[..i] + [city];
      seen[city] := true;
    }
    assert tour[..|tour|] == tour;
    length := TourLength(d, tour);
    ok := true;
  }
}
