/** Every tour, by permuting the cities in place. */
module TspBrute {
  import opened HeldKarp
  import opened Integers
  import opened Sequences
  import opened TspModel

  function Swap(s: seq<int>, k: nat, i: nat): seq<int>
    requires k < |s| && i < |s|
  {
    s[k := s[i]][i := s[k]]
  }

  /** The arrangements visited when everything from k on is permuted, in the order of the visits. */
  function Perms(s: seq<int>, k: nat): seq<seq<int>>
    requires k <= |s|
    decreases |s| - k, |s| + 1
  {
    if k == |s| then [s] else PermsFrom(s, k, k)
  }

  /** The same, with position k taking its value from i on only. */
  function PermsFrom(s: seq<int>, k: nat, i: nat): seq<seq<int>>
    requires k < |s| && k <= i <= |s|
    decreases |s| - k, |s| - i
  {
    if i == |s| then [] else Perms(Swap(s, k, i), k + 1) + PermsFrom(s, k, i + 1)
  }

  /** t arranges the elements of s differently from position k on, if at all. */
  ghost predicate Rearranges(s: seq<int>, k: nat, t: seq<int>)
    requires k <= |s|
  {
    |t| == |s| && t[..k] == s[..k] && multiset(t) == multiset(s)
  }

  lemma SwapRearranges(s: seq<int>, k: nat, i: nat)
    requires k <= i < |s|
    ensures |Swap(s, k, i)| == |s| && Swap(s, k, i)[..k] == s[..k]
    ensures multiset(Swap(s, k, i)) == multiset(s)
    ensures Swap(Swap(s, k, i), k, i) == s
  {
  }

  lemma {:induction false} PermsSound(s: seq<int>, k: nat, t: seq<int>)
    requires k <= |s| && t in Perms(s, k)
    ensures Rearranges(s, k, t)
    decreases |s| - k, |s| + 1
  {
    if k < |s| {
      PermsFromSound(s, k, k, t);
    }
  }

  lemma {:induction false} PermsFromSound(s: seq<int>, k: nat, i: nat, t: seq<int>)
    requires k < |s| && k <= i <= |s| && t in PermsFrom(s, k, i)
    ensures Rearranges(s, k, t) && exists j :: i <= j < |s| && t[k] == s[j]
    decreases |s| - k, |s| - i
  {
    if i < |s| {
      SwapRearranges(s, k, i);
      if t in Perms(Swap(s, k, i), k + 1) {
        PermsSound(Swap(s, k, i), k + 1, t);
        assert t[..k] == t[..k + 1][..k] == Swap(s, k, i)[..k + 1][..k];
        assert t[k] == t[..k + 1][k] == s[i];
      } else {
        PermsFromSound(s, k, i + 1, t);
      }
    }
  }

  lemma {:induction false} PermsComplete(s: seq<int>, k: nat, t: seq<int>)
    requires k <= |s| && Rearranges(s, k, t)
    ensures t in Perms(s, k)
    decreases |s| - k, |s| + 1
  {
    if k == |s| {
      assert t == t[..k] == s[..k] == s;
    } else {
      assert s == s[..k] + s[k..] && t == t[..k] + t[k..];
      assert multiset(s) == multiset(s[..k]) + multiset(s[k..]);
      assert multiset(t) == multiset(t[..k]) + multiset(t[k..]);
      SameRest(multiset(s[..k]), multiset(s[k..]), multiset(t[k..]));
      assert t[k] == t[k..][0] && t[k] in multiset(t[k..]);
      var j :| 0 <= j < |s[k..]| && s[k..][j] == t[k];
      PermsFromComplete(s, k, k, k + j, t);
    }
  }

  lemma SameRest(a: multiset<int>, b: multiset<int>, c: multiset<int>)
    requires a + b == a + c
    ensures b == c
  {
    assert b == a + b - a;
  }

  lemma {:induction false} PermsFromComplete(s: seq<int>, k: nat, i: nat, j: nat, t: seq<int>)
    requires k < |s| && k <= i <= j < |s| && Rearranges(s, k, t) && t[k] == s[j]
    ensures t in PermsFrom(s, k, i)
    decreases |s| - k, |s| - i
  {
    if i == j {
      SwapRearranges(s, k, i);
      var u := Swap(s, k, i);
      assert t[..k + 1] == t[..k] + [t[k]] && u[..k + 1] == u[..k] + [u[k]];
      PermsComplete(u, k + 1, t);
    } else {
      PermsFromComplete(s, k, i + 1, j, t);
    }
  }

  // ---------- Each arrangement once ----------

  lemma {:induction false} PermsDiffer(s: seq<int>, k: nat)
    requires k <= |s| && Distinct(s)
    ensures Distinct(Perms(s, k))
    decreases |s| - k, |s| + 1
  {
    if k < |s| {
      PermsFromDiffer(s, k, k);
    }
  }

  lemma {:induction false} PermsFromDiffer(s: seq<int>, k: nat, i: nat)
    requires k < |s| && k <= i <= |s| && Distinct(s)
    ensures Distinct(PermsFrom(s, k, i))
    decreases |s| - k, |s| - i
  {
    if i < |s| {
      var u := Swap(s, k, i);
      var a, b := Perms(u, k + 1), PermsFrom(s, k, i + 1);
      SwapRearranges(s, k, i);
      PermsDiffer(u, k + 1);
      PermsFromDiffer(s, k, i + 1);
      forall t, t' | t in a && t' in b ensures t != t' {
        PermsSound(u, k + 1, t);
        PermsFromSound(s, k, i + 1, t');
        assert t[k] == t[..k + 1][k] == u[..k + 1][k] == s[i];
      }
      ConcatDiffer(a, b);
    }
  }

  lemma ConcatDiffer(a: seq<seq<int>>, b: seq<seq<int>>)
    requires Distinct(a) && Distinct(b) && forall t, t' :: t in a && t' in b ==> t != t'
    ensures Distinct(a + b)
  {
    var v := a + b;
    forall i, j | 0 <= i < j < |v| ensures v[i] != v[j] {
      if i < |a| <= j {
        assert v[i] in a && v[j] in b;
      }
    }
  }

  // ---------- The search ----------

  /** What the callback of TSPBrute has kept after the visits so far. */
  ghost predicate Incumbent(d: Distances, best: int, bestTour: seq<int>, visits: seq<seq<int>>) {
    && best <= MAX_INT
    && (best == MAX_INT ==> bestTour == [])
    && (best < MAX_INT ==> TourCost(d, bestTour) == best)
    && (best < MAX_INT ==> exists i :: 0 <= i < |visits| && bestTour == [0] + visits[i])
    && forall i :: 0 <= i < |visits| ==> best <= TourCost(d, [0] + visits[i])
  }

  class BruteSearch {
    const d: Distances
    var best: int
    var bestTour: seq<int>
    ghost var visits: seq<seq<int>>

    constructor (d: Distances)
      ensures this.d == d && visits == [] && Incumbent(d, best, bestTour, visits)
    {
      this.d := d;
      best, bestTour, visits := MAX_INT, [], [];
    }

    /** The callback: measures the tour and keeps a copy if it is the shortest so far. */
    method Visit(order: seq<int>)
      requires Square(d) && InRange([0] + order, |d|) && Incumbent(d, best, bestTour, visits)
      modifies this
      ensures visits == old(visits) + [order] && Incumbent(d, best, bestTour, visits)
    {
      var tour := [0] + order;
      var length := TourLength(d, tour);
      if length < best {
        best := length;
        bestTour := tour;
      }
      visits := visits + [order];
      assert visits[|visits| - 1] == order;
      assert forall i :: 0 <= i < |old(visits)| ==> visits[i] == old(visits)[i];
    }

    /** Choose, recurse, undo. */
    method Recurse(s: array<int>, k: nat)
      requires k <= s.Length && Square(d) && |d| > 0 && InRange(s[..], |d|) && Incumbent(d, best, bestTour, visits)
      modifies this, s
      ensures s[..] == old(s[..])
      ensures visits == old(visits) + Perms(old(s[..]), k) && Incumbent(d, best, bestTour, visits)
      decreases s.Length - k
    {
      if k == s.Length {
        Visit(s[..]);
        return;
      }
      ghost var start, seen := s[..], visits;
      for i := k to s.Length
        invariant s[..] == start && Incumbent(d, best, bestTour, visits)
        invariant visits + PermsFrom(start, k, i) == seen + Perms(start, k)
      {
        s[k], s[i] := s[i], s[k];
        assert s[..] == Swap(start, k, i);
        ghost var before := visits;
        Recurse(s, k + 1);
        assert before + (Perms(s[..], k + 1) + PermsFrom(start, k, i + 1)) == visits + PermsFrom(start, k, i + 1);
        s[k], s[i] := s[i], s[k];
        SwapRearranges(start, k, i);
        assert s[..] == Swap(Swap(start, k, i), k, i);
      }
    }
  }

  lemma {:induction false} CountsOfDistinct(t: seq<int>, x: int)
    requires Distinct(t)
    ensures multiset(t)[x] == if x in t then 1 else 0
  {
    if t != [] {
      CountsOfDistinct(t[1..], x);
      assert t == [t[0]] + t[1..];
    }
  }

  lemma NoRepeats(t: seq<int>)
    requires forall x :: multiset(t)[x] <= 1
    ensures Distinct(t)
  {
    forall i, j | 0 <= i < j < |t| ensures t[i] != t[j] {
      var x, front, back := t[i], t[..j], t[j..];
      assert t == front + back && front[i] == x && x in front;
      assert multiset(t)[x] == multiset(front)[x] + multiset(back)[x];
      assert back[0] == t[j] && t[j] in back;
    }
  }

  /** Any rearrangement of the cities 1 to n-1, after city 0, is a tour. */
  lemma ArrangementIsTour(d: Distances, rest: seq<int>, t: seq<int>)
    requires IsTour(d, [0] + rest) && multiset(t) == multiset(rest)
    ensures IsTour(d, [0] + t)
  {
    var u, v := [0] + rest, [0] + t;
    assert Distinct(rest) by { assert forall i :: 0 <= i < |rest| ==> u[i + 1] == rest[i]; }
    assert |t| == |multiset(t)| == |multiset(rest)| == |rest|;
    assert multiset(v) == multiset(u);
    forall x ensures multiset(v)[x] <= 1 {
      CountsOfDistinct(u, x);
    }
    NoRepeats(v);
    forall i | 0 <= i < |v| ensures 0 <= v[i] < |d| {
      assert v[i] in multiset(v);
      assert v[i] in u;
    }
  }

  /** Every tour from city 0 is such a rearrangement. */
  lemma TourIsArrangement(d: Distances, rest: seq<int>, u: seq<int>)
    requires IsTour(d, [0] + rest) && IsTour(d, u) && u[0] == 0
    ensures u == [0] + u[1..] && Rearranges(rest, 0, u[1..])
  {
    var v := [0] + rest;
    forall x ensures multiset(u)[x] == multiset(v)[x] {
      CountsOfDistinct(u, x);
      CountsOfDistinct(v, x);
      if 0 <= x < |d| {
        TourCoversAll(|d|, u, x);
        TourCoversAll(|d|, v, x);
      }
    }
    assert u == [0] + u[1..];
    assert multiset(u) == multiset([0]) + multiset(u[1..]) && multiset(v) == multiset([0]) + multiset(rest);
    SameRest(multiset([0]), multiset(u[1..]), multiset(rest));
  }

  /** Some tour costs less than the value the search starts from. */
  ghost predicate SomeTourBelow(d: Distances, limit: int) {
    exists t :: IsTour(d, t) && TourCost(d, t) < limit
  }

  method TSPBrute(d: Distances) returns (r: TourResult)
    requires Square(d)
    ensures r == TooLarge <==> |d| > 12
    ensures |d| <= 12 && SomeTourBelow(d, MAX_INT) ==>
      r.Tour? && IsTour(d, r.tour) && r.cost == TourCost(d, r.tour) && Optimal(d, r.cost)
    ensures |d| <= 12 && !SomeTourBelow(d, MAX_INT) ==> r == Tour([], MAX_INT)
    ensures r.Tour? && r.tour != [] ==> r.tour[0] == 0
  {
    var n := |d|;
    if n == 0 {
      assert IsTour(d, []);
      return Tour([], 0);
    }
    if n > 12 {
      return TooLarge;
    }
    var rest := new int[n - 1](i => i + 1);
    ghost var s := rest[..];
    IdentityIsTour(d);
    assert [0] + s == Identity(n);
    var search := new BruteSearch(d);
    search.Recurse(rest, 0);
    BestIsOptimal(d, s, search.best, search.bestTour);
    r := Tour(search.bestTour, search.best);
  }

  /** Two cities, one way free: the exhaustive search gives up only at the greatest int. */
  method TwoCitiesByForce(far: int) returns (r: TourResult)
    requires far <= 0x7FFF_FFFF_FFFF_FFFF
    ensures r == if far < 0x7FFF_FFFF_FFFF_FFFF then Tour([0, 1], far) else Tour([], 0x7FFF_FFFF_FFFF_FFFF)
  {
    var d := [[0, far], [0, 0]];
    r := TSPBrute(d);
    PairTours(d, far);
    if far < 0x7FFF_FFFF_FFFF_FFFF {
      PairCost(d, far);
      assert SomeTourBelow(d, MAX_INT);
      assert r.tour == [0, 1];
    }
  }

  lemma PairTours(d: Distances, far: int)
    requires d == [[0, far], [0, 0]]
    ensures forall t :: IsTour(d, t) ==> TourCost(d, t) == far
  {
    PairCost(d, far);
    forall t | IsTour(d, t) ensures TourCost(d, t) == far {
      var u := StartAtZero(d, t);
      assert u == [0, 1];
    }
  }

  /** What is kept at the end of the search is a cheapest tour, unless no tour is below the start value. */
  lemma BestIsOptimal(d: Distances, rest: seq<int>, best: int, bestTour: seq<int>)
    requires |d| > 0 && IsTour(d, [0] + rest)
    requires Incumbent(d, best, bestTour, [] + Perms(rest, 0))
    ensures if SomeTourBelow(d, MAX_INT)
            then IsTour(d, bestTour) && TourCost(d, bestTour) == best && Optimal(d, best)
            else bestTour == [] && best == MAX_INT
    ensures bestTour != [] ==> bestTour[0] == 0
  {
    var visits := Perms(rest, 0);
    assert [] + visits == visits;
    forall t | IsTour(d, t) ensures best <= TourCost(d, t) {
      var u := StartAtZero(d, t);
      TourIsArrangement(d, rest, u);
      PermsComplete(rest, 0, u[1..]);
      var i :| 0 <= i < |visits| && visits[i] == u[1..];
    }
    if best < MAX_INT {
      var i :| 0 <= i < |visits| && bestTour == [0] + visits[i];
      PermsSound(rest, 0, visits[i]);
      ArrangementIsTour(d, rest, visits[i]);
    }
  }

  /** The exhaustive search never does worse, and where the dynamic program takes every tour into account
      both find the same cost. */
  method SolveBoth(d: Distances) returns (a: TourResult, b: TourResult)
    requires Square(d) && |d| <= 12
    ensures !a.TooLarge? && b.Tour? && (a.Tour? ==> b.cost <= a.cost)
    ensures AllCount(d) ==> if a.Tour? then a.cost == b.cost else b.cost >= UNREACHABLE
    ensures Bounded(d) ==> a.Tour?
  {
    a := TSPHeldKarp(d);
    b := TSPBrute(d);
  }
}

/** Local search by reversing segments. */
module TwoOpts {
  import opened Sequences
  import opened TspModel

  ghost predicate Symmetric(d: Distances) {
    forall i, j {:trigger Dist(d, i, j)} :: Dist(d, i, j) == Dist(d, j, i)
  }

  lemma ReverseFacts(s: seq<int>)
    ensures |Reverse(s)| == |s| && multiset(Reverse(s)) == multiset(s)
    ensures s != [] ==> Reverse(s)[0] == s[|s| - 1] && Reverse(s)[|s| - 1] == s[0]
  {
    ReverseKeeps(s);
    if s != [] {
      ReverseAt(s, 0);
      ReverseAt(s, |s| - 1);
    }
  }

  /** On a symmetric matrix a path costs the same in both directions. */
  lemma {:induction false} ReverseCost(d: Distances, s: seq<int>)
    requires Symmetric(d)
    ensures PathCost(d, Reverse(s)) == PathCost(d, s)
  {
    if |s| >= 2 {
      var r, last := s[..|s| - 1], s[|s| - 1];
      ReverseCost(d, r);
      ReverseFacts(r);
      PathCostJoin(d, [last], Reverse(r));
      assert Reverse(s) == [last] + Reverse(r);
    }
  }

  /** The tour after reversing the segment from i + 1 to j. */
  function Move(t: seq<int>, i: nat, j: nat): seq<int>
    requires i + 1 <= j < |t|
  {
    t[..i + 1] + Reverse(t[i + 1..j + 1]) + t[j + 1..]
  }

  /** The pairs of edges the search considers. */
  predicate Considered(n: nat, i: nat, j: nat) {
    i + 2 <= j < n && !(i == 0 && j == n - 1)
  }

  function After(j: nat, n: nat): (k: nat)
    requires j < n
    ensures k < n
  {
    (j + 1) % n
  }

  lemma AfterIsNext(j: nat, n: nat)
    requires j < n
    ensures After(j, n) == if j + 1 < n then j + 1 else 0
  {
  }

  /** What the move gains, from the four edges at its ends. */
  function Delta(d: Distances, t: seq<int>, i: nat, j: nat): int
    requires Considered(|t|, i, j)
  {
    var a, b, c, e := t[i], t[i + 1], t[j], t[After(j, |t|)];
    Dist(d, a, c) + Dist(d, b, e) - (Dist(d, a, b) + Dist(d, c, e))
  }

  lemma MoveKeepsCities(t: seq<int>, i: nat, j: nat)
    requires i + 1 <= j < |t|
    ensures |Move(t, i, j)| == |t| && multiset(Move(t, i, j)) == multiset(t)
  {
    ReverseFacts(t[i + 1..j + 1]);
    assert t == t[..i + 1] + t[i + 1..j + 1] + t[j + 1..];
  }

  lemma ThreePieces(d: Distances, x: seq<int>, s: seq<int>, y: seq<int>)
    requires x != [] && s != [] && y != []
    ensures PathCost(d, x + s + y) ==
      PathCost(d, x) + Dist(d, x[|x| - 1], s[0]) + PathCost(d, s) + Dist(d, s[|s| - 1], y[0]) + PathCost(d, y)
  {
    var xs := x + s;
    PathCostJoin(d, x, s);
    PathCostJoin(d, xs, y);
  }

  /** The cost of a tour in three pieces, the last of them possibly empty. */
  lemma PiecesCost(d: Distances, t: seq<int>, x: seq<int>, s: seq<int>, y: seq<int>)
    requires x != [] && s != [] && t == x + s + y
    ensures TourCost(d, t) == PathCost(d, x) + Dist(d, x[|x| - 1], s[0]) + PathCost(d, s) +
        (if y == [] then Dist(d, s[|s| - 1], x[0])
         else Dist(d, s[|s| - 1], y[0]) + PathCost(d, y) + Dist(d, y[|y| - 1], x[0]))
  {
    if y == [] {
      assert t == x + s;
      PathCostJoin(d, x, s);
    } else {
      ThreePieces(d, x, s, y);
    }
  }

  /** The constant-time delta is the true change of the tour's length. */
  lemma DeltaIsExact(d: Distances, t: seq<int>, i: nat, j: nat)
    requires Symmetric(d) && Considered(|t|, i, j)
    ensures TourCost(d, Move(t, i, j)) == TourCost(d, t) + Delta(d, t, i, j)
  {
    var x, s, y := t[..i + 1], t[i + 1..j + 1], t[j + 1..];
    ReverseFacts(s);
    ReverseCost(d, s);
    assert t == x + s + y;
    PiecesCost(d, t, x, s, y);
    PiecesCost(d, Move(t, i, j), x, Reverse(s), y);
    AfterIsNext(j, |t|);
  }

  /** No considered move shortens the tour. */
  ghost predicate LocallyOptimal(d: Distances, t: seq<int>) {
    forall i: nat, j: nat | Considered(|t|, i, j) :: Delta(d, t, i, j) >= 0
  }

  /** Reversing one city changes nothing. */
  lemma ReverseOneCity(t: seq<int>, j: nat)
    requires 1 <= j < |t|
    ensures Move(t, j - 1, j) == t
  {
    var s := t[j..j + 1];
    ReverseFacts(s);
    assert Reverse(s) == s;
    assert t == t[..j] + s + t[j + 1..];
  }

  /** Reversing all cities but the first is going round the other way. */
  lemma ReverseAllButFirst(d: Distances, t: seq<int>)
    requires Symmetric(d) && |t| >= 2
    ensures TourCost(d, Move(t, 0, |t| - 1)) == TourCost(d, t)
  {
    var x, s := t[..1], t[1..];
    var r := x + Reverse(s);
    ReverseFacts(s);
    ReverseCost(d, s);
    assert t == x + s && t[1..|t|] == s && r + t[|t|..] == r;
    assert Move(t, 0, |t| - 1) == r;
    PathCostJoin(d, x, s);
    PathCostJoin(d, x, Reverse(s));
  }

  /** No move at all shortens the tour, for the two shapes the search leaves out never do. */
  lemma NoMoveGains(d: Distances, t: seq<int>, i: nat, j: nat)
    requires Symmetric(d) && LocallyOptimal(d, t) && i + 1 <= j < |t|
    ensures TourCost(d, Move(t, i, j)) >= TourCost(d, t)
  {
    if Considered(|t|, i, j) {
      DeltaIsExact(d, t, i, j);
    } else if j == i + 1 {
      ReverseOneCity(t, j);
    } else {
      ReverseAllButFirst(d, t);
    }
  }

  /** A lower bound on every entry, and on 0. */
  ghost function Floor(d: Distances): (m: int)
    ensures m <= 0
  {
    if d == [] then 0 else var a, b := RowFloor(d[0]), Floor(d[1..]); if a < b then a else b
  }

  ghost function RowFloor(row: seq<int>): (m: int)
    ensures m <= 0 && forall k :: 0 <= k < |row| ==> m <= row[k]
  {
    if row == [] then 0 else
      var m := RowFloor(row[1..]);
      assert forall k :: 1 <= k < |row| ==> row[k] == row[1..][k - 1];
      if row[0] < m then row[0] else m
  }

  lemma {:induction false} FloorIsBelow(d: Distances, i: int, j: int)
    ensures Floor(d) <= Dist(d, i, j)
  {
    if d != [] {
      if i > 0 {
        FloorIsBelow(d[1..], i - 1, j);
      }
    }
  }

  /** n times m. */
  ghost function Times(n: nat, m: int): int {
    if n == 0 then 0 else Times(n - 1, m) + m
  }

  lemma {:induction false} PathCostIsBounded(d: Distances, t: seq<int>)
    requires t != []
    ensures Times(|t| - 1, Floor(d)) <= PathCost(d, t)
  {
    if |t| >= 2 {
      PathCostIsBounded(d, t[..|t| - 1]);
      FloorIsBelow(d, t[|t| - 2], t[|t| - 1]);
    }
  }

  lemma TourCostIsBounded(d: Distances, t: seq<int>)
    ensures Times(|t|, Floor(d)) <= TourCost(d, t)
  {
    if |t| >= 2 {
      PathCostIsBounded(d, t);
      FloorIsBelow(d, t[|t| - 1], t[0]);
    }
  }

  /** Between i and j the segment is untouched; outside, within lo and hi, it is mirrored. */
  ghost predicate Mirrored(was: seq<int>, now: seq<int>, lo: nat, hi: nat, i: nat, j: nat) {
    |now| == |was| && forall k {:trigger now[k]} :: 0 <= k < |was| ==>
      now[k] == if (lo <= k < i || j <= k < hi) && 0 <= lo + (hi - 1 - k) < |was|
               then was[lo + (hi - 1 - k)] else was[k]
  }

  lemma MirroredIsReversed(was: seq<int>, now: seq<int>, lo: nat, hi: nat, i: nat, j: nat)
    requires lo <= hi <= |was| && lo <= i <= j + 1 && j <= i + 1 && j <= hi && i - lo == hi - j
    requires Mirrored(was, now, lo, hi, i, j)
    ensures now == was[..lo] + Reverse(was[lo..hi]) + was[hi..]
  {
    var s := was[lo..hi];
    var r := was[..lo] + Reverse(s) + was[hi..];
    ReverseFacts(s);
    forall k | 0 <= k < |now| ensures now[k] == r[k] {
      if lo <= k < hi {
        ReverseAt(s, k - lo);
      }
    }
    assert now == r;
  }

  /** Swaps from both ends of the segment towards its middle. */
  method ReverseSegment(a: array<int>, lo: nat, hi: nat)
    requires lo <= hi <= a.Length
    modifies a
    ensures a[..] == old(a[..lo]) + Reverse(old(a[lo..hi])) + old(a[hi..])
  {
    var i, j := lo, hi;
    ghost var was := a[..];
    while i + 1 < j
      invariant lo <= i <= j + 1 && j <= hi && i - lo == hi - j
      invariant Mirrored(was, a[..], lo, hi, i, j)
    {
      assert a[..][i] == was[i] && a[..][j - 1] == was[j - 1];
      a[i], a[j - 1] := a[j - 1], a[i];
      i, j := i + 1, j - 1;
    }
    MirroredIsReversed(was, a[..], lo, hi, i, j);
    assert was[lo..hi] == old(a[lo..hi]) && was[..lo] == old(a[..lo]) && was[hi..] == old(a[hi..]);
  }

  /** No move on a pair before (i, j) gains. */
  ghost predicate NoGainBefore(d: Distances, t: seq<int>, i: nat, j: nat) {
    forall p: nat, q: nat {:trigger Delta(d, t, p, q)} | Considered(|t|, p, q) && (p < i || (p == i && q < j)) ::
      Delta(d, t, p, q) >= 0
  }

  /** The same cities as the tour started from. */
  ghost predicate SameCities(d: Distances, tour: seq<int>, t: seq<int>) {
    |t| == |tour| && InRange(t, |d|) && multiset(t) == multiset(tour)
  }

  lemma MovedSameCities(d: Distances, tour: seq<int>, t: seq<int>, i: nat, j: nat)
    requires SameCities(d, tour, t) && i + 1 <= j < |t|
    ensures SameCities(d, tour, Move(t, i, j))
  {
    MoveKeepsCities(t, i, j);
    var u := Move(t, i, j);
    forall k | 0 <= k < |u| ensures 0 <= u[k] < |d| {
      assert u[k] in multiset(u);
      assert u[k] in t;
    }
  }

  /** Applies the move on one pair if it shortens the tour. */
  method TryMove(d: Distances, t: array<int>, i: nat, j: nat, ghost tour: seq<int>) returns (gained: bool)
    requires Square(d) && Symmetric(d) && SameCities(d, tour, t[..]) && Considered(t.Length, i, j)
    modifies t
    ensures SameCities(d, tour, t[..])
    ensures gained ==> TourCost(d, t[..]) < TourCost(d, old(t[..]))
    ensures !gained ==> t[..] == old(t[..]) && Delta(d, t[..], i, j) >= 0
  {
    ghost var was := t[..];
    var a, b, c, e := t[i], t[i + 1], t[j], t[After(j, t.Length)];
    assert forall k :: 0 <= k < t.Length ==> t[k] == was[k];
    var before := d[a][b] + d[c][e];
    var after := d[a][c] + d[b][e];
    assert Delta(d, was, i, j) == after - before;
    if after >= before {
      return false;
    }
    ReverseSegment(t, i + 1, j + 1);
    assert t[..] == Move(was, i, j);
    DeltaIsExact(d, was, i, j);
    MovedSameCities(d, tour, was, i, j);
    return true;
  }

  /** Tries every pair once, from left to right. */
  method Pass(d: Distances, t: array<int>, ghost tour: seq<int>) returns (improved: bool)
    requires Square(d) && Symmetric(d) && SameCities(d, tour, t[..]) && t.Length >= 4
    modifies t
    ensures SameCities(d, tour, t[..])
    ensures improved ==> TourCost(d, t[..]) < TourCost(d, old(t[..]))
    ensures !improved ==> t[..] == old(t[..]) && LocallyOptimal(d, t[..])
  {
    improved := false;
    ghost var start := t[..];
    var n := t.Length;
    for i := 0 to n - 1
      invariant SameCities(d, tour, t[..])
      invariant improved ==> TourCost(d, t[..]) < TourCost(d, start)
      invariant !improved ==> t[..] == start && NoGainBefore(d, start, i, 0)
    {
      var j := i + 2;
      while j < n
        invariant i + 2 <= j
        invariant SameCities(d, tour, t[..])
        invariant improved ==> TourCost(d, t[..]) < TourCost(d, start)
        invariant !improved ==> t[..] == start && NoGainBefore(d, start, i, j)
      {
        if !(i == 0 && j == n - 1) {
          var gained := TryMove(d, t, i, j, tour);
          improved := improved || gained;
        }
        j := j + 1;
      }
    }
  }

  /** Local search until no move shortens the tour. */
  method TwoOpt(d: Distances, tour: seq<int>) returns (r: seq<int>, cost: int)
    requires Square(d) && Symmetric(d) && InRange(tour, |d|)
    ensures multiset(r) == multiset(tour)
    ensures cost == TourCost(d, r) <= TourCost(d, tour)
    ensures forall i: nat, j: nat :: i + 1 <= j < |r| ==> TourCost(d, Move(r, i, j)) >= cost
  {
    var n := |tour|;
    if n < 4 {
      cost := TourLength(d, tour);
      forall i: nat, j: nat | i + 1 <= j < n ensures TourCost(d, Move(tour, i, j)) >= cost {
        NoMoveGains(d, tour, i, j);
      }
      return tour, cost;
    }
    var t := new int[n](k requires 0 <= k < n => tour[k]);
    assert t[..] == tour;
    var improved := true;
    ghost var floor := Times(n, Floor(d));
    TourCostIsBounded(d, tour);
    while improved
      invariant SameCities(d, tour, t[..])
      invariant floor <= TourCost(d, t[..]) <= TourCost(d, tour)
      invariant !improved ==> LocallyOptimal(d, t[..])
      decreases TourCost(d, t[..]) - floor, improved
    {
      improved := Pass(d, t, tour);
      TourCostIsBounded(d, t[..]);
    }
    r := t[..];
    cost := TourLength(d, r);
    forall i: nat, j: nat | i + 1 <= j < |r| ensures TourCost(d, Move(r, i, j)) >= cost {
      NoMoveGains(d, r, i, j);
    }
  }
}
