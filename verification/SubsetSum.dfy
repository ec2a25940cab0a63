/** Subsets of indices and what they sum to. */
module SubsetSumModel {
  import opened Sequences

  ghost predicate Within(x: set<int>, n: nat) {
    forall k :: k in x ==> 0 <= k < n
  }

  /** The sum of the numbers before n whose indices are in x. */
  ghost function SumIn(numbers: seq<int>, n: nat, x: set<int>): int
    requires n <= |numbers|
  {
    if n == 0 then 0 else SumIn(numbers, n - 1, x) + if n - 1 in x then numbers[n - 1] else 0
  }

  ghost predicate Solves(numbers: seq<int>, x: set<int>, target: int) {
    Within(x, |numbers|) && SumIn(numbers, |numbers|, x) == target
  }

  ghost predicate Solvable(numbers: seq<int>, target: int) {
    exists x :: Solves(numbers, x, target)
  }

  predicate NonNegative(numbers: seq<int>) {
    forall i :: 0 <= i < |numbers| ==> numbers[i] >= 0
  }

  /** Only membership below n matters. */
  lemma {:induction false} SumInLocal(numbers: seq<int>, n: nat, x: set<int>, y: set<int>)
    requires n <= |numbers| && forall k :: 0 <= k < n ==> (k in x <==> k in y)
    ensures SumIn(numbers, n, x) == SumIn(numbers, n, y)
  {
    if n > 0 {
      SumInLocal(numbers, n - 1, x, y);
    }
  }

  lemma {:induction false} SumInAdd(numbers: seq<int>, n: nat, x: set<int>, k: int)
    requires n <= |numbers| && 0 <= k < n && k !in x
    ensures SumIn(numbers, n, x + {k}) == SumIn(numbers, n, x) + numbers[k]
  {
    if k == n - 1 {
      SumInLocal(numbers, n - 1, x, x + {k});
    } else {
      SumInAdd(numbers, n - 1, x, k);
    }
  }

  lemma {:induction false} SumInNothing(numbers: seq<int>, n: nat)
    requires n <= |numbers|
    ensures SumIn(numbers, n, {}) == 0
  {
    if n > 0 {
      SumInNothing(numbers, n - 1);
    }
  }

  lemma {:induction false} SumInNonNegative(numbers: seq<int>, n: nat, x: set<int>)
    requires n <= |numbers| && NonNegative(numbers)
    ensures SumIn(numbers, n, x) >= 0
  {
    if n > 0 {
      SumInNonNegative(numbers, n - 1, x);
    }
  }

  /** Accepts exactly the solutions. */
  method VerifySubsetSum(numbers: seq<int>, indices: seq<int>, target: int) returns (ok: bool)
    ensures ok <==> Distinct(indices) && Solves(numbers, Elements(indices), target)
  {
    var seen: set<int> := {};
    var sum := 0;
    SumInNothing(numbers, |numbers|);
    for k := 0 to |indices|
      invariant seen == Elements(indices[..k]) && Within(seen, |numbers|) && Distinct(indices[..k])
      invariant sum == SumIn(numbers, |numbers|, seen)
    {
      var i := indices[k];
      assert i in Elements(indices);
      if i < 0 || i >= |numbers| {
        return false;
      }
      if i in seen {
        return false;
      }
      SumInAdd(numbers, |numbers|, seen, i);
      assert indices[..k + 1] == indices[..k] + [i];
      seen := seen + {i};
      sum := sum + numbers[i];
    }
    assert indices[..|indices|] == indices;
    return sum == target;
  }

  // ---------- Sums reachable with the first i numbers ----------

  ghost predicate Reach(numbers: seq<int>, i: nat, s: int)
    requires i <= |numbers|
  {
    exists x :: Within(x, i) && SumIn(numbers, i, x) == s
  }

  lemma ReachNothing(numbers: seq<int>, s: int)
    ensures Reach(numbers, 0, s) <==> s == 0
  {
    assert Within({}, 0) && SumIn(numbers, 0, {}) == 0;
  }

  /** Each number is taken or left. */
  lemma ReachStep(numbers: seq<int>, i: nat, s: int)
    requires i < |numbers|
    ensures Reach(numbers, i + 1, s) <==> Reach(numbers, i, s) || Reach(numbers, i, s - numbers[i])
  {
    if Reach(numbers, i + 1, s) {
      var x :| Within(x, i + 1) && SumIn(numbers, i + 1, x) == s;
      var y := x - {i};
      SumInLocal(numbers, i, x, y);
      assert Within(y, i);
    }
    if Reach(numbers, i, s) {
      var x :| Within(x, i) && SumIn(numbers, i, x) == s;
      assert Within(x, i + 1) && SumIn(numbers, i + 1, x) == s;
    }
    if Reach(numbers, i, s - numbers[i]) {
      var x :| Within(x, i) && SumIn(numbers, i, x) == s - numbers[i];
      var y := x + {i};
      SumInLocal(numbers, i, x, y);
      assert Within(y, i + 1) && SumIn(numbers, i + 1, y) == s;
    }
  }

  lemma ReachIsNonNegative(numbers: seq<int>, i: nat, s: int)
    requires i <= |numbers| && NonNegative(numbers) && Reach(numbers, i, s)
    ensures s >= 0
  {
    var x :| Within(x, i) && SumIn(numbers, i, x) == s;
    SumInNonNegative(numbers, i, x);
  }

  lemma ReachIsSolvable(numbers: seq<int>, target: int)
    ensures Reach(numbers, |numbers|, target) <==> Solvable(numbers, target)
  {
    if Reach(numbers, |numbers|, target) {
      var x :| Within(x, |numbers|) && SumIn(numbers, |numbers|, x) == target;
      assert Solves(numbers, x, target);
    }
    if Solvable(numbers, target) {
      var x :| Solves(numbers, x, target);
    }
  }

  // ---------- Negative targets ----------

  /** For non-negative numbers a negative target is rightly refused. */
  lemma NegativeTargetUnsolvable(numbers: seq<int>, target: int)
    requires NonNegative(numbers) && target < 0
    ensures !Solvable(numbers, target)
  {
    if Solvable(numbers, target) {
      ReachIsSolvable(numbers, target);
      ReachIsNonNegative(numbers, |numbers|, target);
    }
  }

  /** A negative number is itself a negative target with a solution. */
  lemma NegativeNumberSolvable(numbers: seq<int>, i: nat)
    requires i < |numbers| && numbers[i] < 0
    ensures Solvable(numbers, numbers[i])
  {
    SumInNothing(numbers, |numbers|);
    SumInAdd(numbers, |numbers|, {}, i);
    assert Solves(numbers, {} + {i}, numbers[i]);
  }

  /** Refusing every negative target unseen is right exactly for lists without negative numbers. */
  lemma NegativeTargetsUnsolvableIff(numbers: seq<int>)
    ensures NonNegative(numbers) <==> forall t {:trigger Solvable(numbers, t)} :: t < 0 ==> !Solvable(numbers, t)
  {
    if NonNegative(numbers) {
      forall t {:trigger Solvable(numbers, t)} | t < 0 ensures !Solvable(numbers, t) {
        NegativeTargetUnsolvable(numbers, t);
      }
    } else {
      var i :| 0 <= i < |numbers| && numbers[i] < 0;
      NegativeNumberSolvable(numbers, i);
    }
  }
}

/** The dynamic program that finds a subset. */
module SubsetSumSearch {
  import opened Sequences
  import opened SubsetSumModel

  datatype Answer = Indices(indices: seq<int>) | ErrNoSolution | ErrNegative

  /** from[s] - 1 is the number that completed s; what it was added to was complete before. */
  ghost predicate Chained(numbers: seq<int>, reach: seq<bool>, from: seq<nat>, s: nat) {
    && s < |reach| == |from|
    && 0 < from[s] <= |numbers|
    && var v := numbers[from[s] - 1];
       0 < v <= s && reach[s - v] && (s - v > 0 ==> from[s - v] < from[s])
  }

  /** The cell after the first i numbers. */
  ghost predicate CellOk(numbers: seq<int>, reach: seq<bool>, from: seq<nat>, i: nat, s: nat)
    requires i <= |numbers|
  {
    s < |reach| == |from| ==>
      && (reach[s] <==> Reach(numbers, i, s))
      && (reach[s] && s > 0 ==> Chained(numbers, reach, from, s) && from[s] <= i)
  }

  /** Every cell after the first i numbers. */
  ghost predicate Table(numbers: seq<int>, reach: seq<bool>, from: seq<nat>, i: nat)
    requires i <= |numbers|
  {
    |reach| == |from| && forall c: nat {:trigger CellOk(numbers, reach, from, i, c)} ::
      CellOk(numbers, reach, from, i, c)
  }

  /** A cell while number i is being considered: those from s on have seen it, those before have not. */
  ghost predicate HalfOk(numbers: seq<int>, reach: seq<bool>, from: seq<nat>, i: nat, s: int, c: nat)
    requires i < |numbers|
  {
    if c >= s then CellOk(numbers, reach, from, i + 1, c) else CellOk(numbers, reach, from, i, c)
  }

  ghost predicate HalfTable(numbers: seq<int>, reach: seq<bool>, from: seq<nat>, i: nat, s: int)
    requires i < |numbers|
  {
    |reach| == |from| && forall c: nat {:trigger HalfOk(numbers, reach, from, i, s, c)} ::
      HalfOk(numbers, reach, from, i, s, c)
  }

  lemma FirstTable(numbers: seq<int>, reach: seq<bool>, from: seq<nat>)
    requires |reach| == |from| > 0 && forall c :: 0 <= c < |reach| ==> reach[c] == (c == 0)
    ensures Table(numbers, reach, from, 0)
  {
    forall c: nat ensures CellOk(numbers, reach, from, 0, c) {
      ReachNothing(numbers, c);
    }
  }

  lemma StartElement(numbers: seq<int>, reach: seq<bool>, from: seq<nat>, i: nat)
    requires i < |numbers| && Table(numbers, reach, from, i)
    ensures HalfTable(numbers, reach, from, i, |reach|)
  {
    forall c: nat {:trigger HalfOk(numbers, reach, from, i, |reach|, c)}
      ensures HalfOk(numbers, reach, from, i, |reach|, c)
    {
      assert CellOk(numbers, reach, from, i, c);
    }
  }

  /** A cell the number cannot change. */
  lemma Carry(numbers: seq<int>, reach: seq<bool>, from: seq<nat>, i: nat, c: nat)
    requires i < |numbers| && NonNegative(numbers) && CellOk(numbers, reach, from, i, c)
    requires numbers[i] == 0 || c < numbers[i] || c >= |reach|
    ensures CellOk(numbers, reach, from, i + 1, c)
  {
    ReachStep(numbers, i, c);
    if Reach(numbers, i, c - numbers[i]) {
      ReachIsNonNegative(numbers, i, c - numbers[i]);
    }
  }

  lemma FinishElement(numbers: seq<int>, reach: seq<bool>, from: seq<nat>, i: nat)
    requires i < |numbers| && NonNegative(numbers) && HalfTable(numbers, reach, from, i, numbers[i])
    ensures Table(numbers, reach, from, i + 1)
  {
    forall c: nat {:trigger CellOk(numbers, reach, from, i + 1, c)} ensures CellOk(numbers, reach, from, i + 1, c) {
      assert HalfOk(numbers, reach, from, i, numbers[i], c);
      if c < numbers[i] {
        Carry(numbers, reach, from, i, c);
      }
    }
  }

  lemma SkipElement(numbers: seq<int>, reach: seq<bool>, from: seq<nat>, i: nat)
    requires i < |numbers| && NonNegative(numbers) && Table(numbers, reach, from, i)
    requires numbers[i] == 0 || |reach| <= numbers[i]
    ensures Table(numbers, reach, from, i + 1)
  {
    forall c: nat {:trigger CellOk(numbers, reach, from, i + 1, c)} ensures CellOk(numbers, reach, from, i + 1, c) {
      assert CellOk(numbers, reach, from, i, c);
      Carry(numbers, reach, from, i, c);
    }
  }

  /** A cell that stays as it is: already complete, or not to be completed by this number. */
  lemma LeaveCell(numbers: seq<int>, reach: seq<bool>, from: seq<nat>, i: nat, s: nat)
    requires i < |numbers| && 0 < numbers[i] <= s < |reach| && HalfTable(numbers, reach, from, i, s + 1)
    requires reach[s] || !reach[s - numbers[i]]
    ensures HalfTable(numbers, reach, from, i, s)
  {
    var below := s - numbers[i];
    assert HalfOk(numbers, reach, from, i, s + 1, below) && HalfOk(numbers, reach, from, i, s + 1, s);
    ReachStep(numbers, i, s);
    forall c: nat {:trigger HalfOk(numbers, reach, from, i, s, c)} ensures HalfOk(numbers, reach, from, i, s, c) {
      assert HalfOk(numbers, reach, from, i, s + 1, c);
    }
  }

  lemma CompleteCell(numbers: seq<int>, reach: seq<bool>, from: seq<nat>, i: nat, s: nat)
    requires i < |numbers| && 0 < numbers[i] <= s < |reach| && HalfTable(numbers, reach, from, i, s + 1)
    requires !reach[s] && reach[s - numbers[i]]
    ensures HalfTable(numbers, reach[s := true], from[s := i + 1], i, s)
  {
    var below := s - numbers[i];
    assert HalfOk(numbers, reach, from, i, s + 1, below);
    ReachStep(numbers, i, s);
    forall c: nat {:trigger HalfOk(numbers, reach[s := true], from[s := i + 1], i, s, c)}
      ensures HalfOk(numbers, reach[s := true], from[s := i + 1], i, s, c)
    {
      assert HalfOk(numbers, reach, from, i, s + 1, c);
    }
  }

  /** Fills the table, one number at a time, each from the highest sum down. */
  method Fill(numbers: seq<int>, target: nat) returns (reach: array<bool>, from: array<nat>)
    requires NonNegative(numbers)
    ensures reach.Length == from.Length == target + 1 && Table(numbers, reach[..], from[..], |numbers|)
    ensures fresh(reach) && fresh(from)
  {
    from := new nat[target + 1](_ => 0);
    reach := new bool[target + 1](_ => false);
    reach[0] := true;
    FirstTable(numbers, reach[..], from[..]);
    for i := 0 to |numbers|
      invariant Table(numbers, reach[..], from[..], i)
    {
      var v := numbers[i];
      if v == 0 || v > target {
        SkipElement(numbers, reach[..], from[..], i);
      } else {
        StartElement(numbers, reach[..], from[..], i);
        var s := target;
        while s >= v
          invariant v - 1 <= s <= target && HalfTable(numbers, reach[..], from[..], i, s + 1)
        {
          if reach[s] || !reach[s - v] {
            LeaveCell(numbers, reach[..], from[..], i, s);
          } else {
            CompleteCell(numbers, reach[..], from[..], i, s);
            reach[s] := true;
            from[s] := i + 1;
          }
          s := s - 1;
        }
        FinishElement(numbers, reach[..], from[..], i);
      }
    }
  }

  /** out holds indices at or above every one still to come, the last first. */
  ghost predicate Partial(numbers: seq<int>, from: seq<nat>, out: seq<int>, s: nat, target: int) {
    && s < |from|
    && (forall i, j :: 0 <= i < j < |out| ==> out[i] > out[j])
    && (forall i {:trigger out[i]} :: 0 <= i < |out| ==> out[i] < |numbers| && (s > 0 ==> from[s] <= out[i]))
    && Within(Elements(out), |numbers|)
    && SumIn(numbers, |numbers|, Elements(out)) + s == target
  }

  lemma TakeOne(numbers: seq<int>, reach: seq<bool>, from: seq<nat>, out: seq<int>, s: nat, target: int)
    requires Partial(numbers, from, out, s, target) && s > 0 && Chained(numbers, reach, from, s)
    ensures var i := from[s] - 1; Partial(numbers, from, out + [i], s - numbers[i], target)
  {
    var i := from[s] - 1;
    assert i !in out;
    SumInAdd(numbers, |numbers|, Elements(out), i);
    assert Elements(out + [i]) == Elements(out) + {i};
  }

  lemma TurnedAround(s: seq<int>)
    requires forall i, j :: 0 <= i < j < |s| ==> s[i] > s[j]
    ensures Ascending(Reverse(s)) && Elements(Reverse(s)) == Elements(s)
  {
    ReverseKeeps(s);
    var r := Reverse(s);
    forall i, j | 0 <= i < j < |r| ensures r[i] < r[j] {
      ReverseAt(s, i);
      ReverseAt(s, j);
    }
  }

  /** Walks the chain backwards. */
  method Recover(numbers: seq<int>, reach: array<bool>, from: array<nat>, target: nat) returns (out: seq<int>)
    requires reach.Length == from.Length == target + 1 && Table(numbers, reach[..], from[..], |numbers|) &&
        reach[target]
    ensures Ascending(out) && Solves(numbers, Elements(out), target)
  {
    out := [];
    var s: nat := target;
    SumInNothing(numbers, |numbers|);
    assert Elements(out) == {};
    while s > 0
      invariant s <= target && Partial(numbers, from[..], out, s, target) && reach[s]
    {
      assert CellOk(numbers, reach[..], from[..], |numbers|, s);
      TakeOne(numbers, reach[..], from[..], out, s, target);
      var i := from[s] - 1;
      out := out + [i];
      s := s - numbers[i];
    }
    ghost var backwards := out;
    out := Reverse(out);
    TurnedAround(backwards);
  }

  /** Strictly ascending indices that sum to target, or the news that there are none. */
  method SubsetSumDP(numbers: seq<int>, target: int) returns (r: Answer)
    ensures r.ErrNegative? <==> target >= 0 && !NonNegative(numbers)
    ensures r.ErrNoSolution? <==> target < 0 || (NonNegative(numbers) && !Solvable(numbers, target))
    ensures r.Indices? ==> Ascending(r.indices) && Distinct(r.indices) && Solves(numbers, Elements(r.indices), target)
  {
    if target < 0 {
      return ErrNoSolution;
    }
    for k := 0 to |numbers|
      invariant NonNegative(numbers[..k])
    {
      if numbers[k] < 0 {
        return ErrNegative;
      }
    }
    assert numbers[..|numbers|] == numbers;
    var reach, from := Fill(numbers, target);
    assert CellOk(numbers, reach[..], from[..], |numbers|, target);
    ReachIsSolvable(numbers, target);
    if !reach[target] {
      return ErrNoSolution;
    }
    var out := Recover(numbers, reach, from, target);
    AscendingIsDistinct(out);
    return Indices(out);
  }

  lemma AscendingIsDistinct(indices: seq<int>)
    requires Ascending(indices)
    ensures Distinct(indices)
  {
  }
}

/** How many subsets there are. */
module SubsetSumCount {
  import opened BitMasks
  import opened Integers
  import opened SubsetSumModel

  datatype Count = Counted(count: int) | ErrNegative | ErrOverflow

  ghost function Indices(n: nat): (x: set<int>)
    ensures forall k :: k in x <==> 0 <= k < n
  {
    if n == 0 then {} else Indices(n - 1) + {n - 1}
  }

  /** The subsets of the first i indices that sum to s. */
  ghost function Solutions(numbers: seq<int>, i: nat, s: int): set<set<int>>
    requires i <= |numbers|
  {
    set x: set<int> | x <= Indices(i) && SumIn(numbers, i, x) == s
  }

  ghost function EachWith(xs: set<set<int>>, k: int): set<set<int>> {
    set x | x in xs :: x + {k}
  }

  /** Adding a new index to each keeps them apart. */
  lemma {:induction false} EachWithCount(xs: set<set<int>>, k: int)
    requires forall x :: x in xs ==> k !in x
    ensures |EachWith(xs, k)| == |xs|
  {
    if xs != {} {
      var x :| x in xs;
      var rest := xs - {x};
      EachWithCount(rest, k);
      assert x + {k} !in EachWith(rest, k) by {
        forall y | y in rest ensures y + {k} != x + {k} {
          assert (y + {k}) - {k} == y && (x + {k}) - {k} == x;
        }
      }
      assert EachWith(xs, k) == EachWith(rest, k) + {x + {k}};
    }
  }

  lemma NoSolutionsOrEmpty(numbers: seq<int>, s: int)
    ensures |Solutions(numbers, 0, s)| == if s == 0 then 1 else 0
  {
    assert Indices(0) == {};
    if s == 0 {
      assert forall x: set<int> :: x <= {} <==> x == {};
      assert SumIn(numbers, 0, {}) == 0;
      assert Solutions(numbers, 0, s) == {{}};
    } else {
      assert Solutions(numbers, 0, s) == {};
    }
  }

  /** A subset leaves number i out, or takes it and sums to that much more. */
  lemma SolutionsStep(numbers: seq<int>, i: nat, s: int)
    requires i < |numbers|
    ensures |Solutions(numbers, i + 1, s)| == |Solutions(numbers, i, s)| + |Solutions(numbers, i, s - numbers[i])|
  {
    var without, before := Solutions(numbers, i, s), Solutions(numbers, i, s - numbers[i]);
    var taking := EachWith(before, i);
    assert forall x :: x in without || x in before ==> i !in x;
    EachWithCount(before, i);
    forall x ensures x in Solutions(numbers, i + 1, s) <==> x in without || x in taking {
      if i in x {
        var y := x - {i};
        SumInLocal(numbers, i, x, y);
        assert x == y + {i};
        assert x <= Indices(i + 1) <==> y <= Indices(i);
        assert x in taking <==> y in before by {
          if x in taking {
            var z :| z in before && x == z + {i};
            assert z == y;
          }
        }
      } else {
        assert x <= Indices(i + 1) <==> x <= Indices(i);
      }
    }
    assert Solutions(numbers, i + 1, s) == without + taking;
    assert without !! taking;
  }

  lemma NoneBelowZero(numbers: seq<int>, i: nat, s: int)
    requires i <= |numbers| && NonNegative(numbers) && s < 0
    ensures |Solutions(numbers, i, s)| == 0
  {
    forall x ensures x !in Solutions(numbers, i, s) {
      SumInNonNegative(numbers, i, x);
    }
    assert Solutions(numbers, i, s) == {};
  }

  /** More numbers, no fewer subsets. */
  lemma {:induction false} SolutionsGrow(numbers: seq<int>, i: nat, j: nat, s: int)
    requires i <= j <= |numbers|
    ensures |Solutions(numbers, i, s)| <= |Solutions(numbers, j, s)|
  {
    if i < j {
      SolutionsGrow(numbers, i, j - 1, s);
      SolutionsStep(numbers, j - 1, s);
    }
  }

  /** The count is positive exactly when the search succeeds. */
  lemma CountMeansSolvable(numbers: seq<int>, target: int)
    ensures |Solutions(numbers, |numbers|, target)| > 0 <==> Solvable(numbers, target)
  {
    var n := |numbers|;
    if Solvable(numbers, target) {
      var x :| Solves(numbers, x, target);
      assert x <= Indices(n);
      assert x in Solutions(numbers, n, target);
    }
    if |Solutions(numbers, n, target)| > 0 {
      var x :| x in Solutions(numbers, n, target);
      assert Solves(numbers, x, target);
    }
  }

  /** Counting nothing for every negative target is right exactly for lists without negative numbers. */
  lemma NegativeCountsZeroIff(numbers: seq<int>)
    ensures NonNegative(numbers) <==>
      forall t {:trigger Solutions(numbers, |numbers|, t)} :: t < 0 ==> |Solutions(numbers, |numbers|, t)| == 0
  {
    if NonNegative(numbers) {
      forall t {:trigger Solutions(numbers, |numbers|, t)} | t < 0 ensures |Solutions(numbers, |numbers|, t)| == 0 {
        NegativeTargetUnsolvable(numbers, t);
        CountMeansSolvable(numbers, t);
      }
    } else {
      var i :| 0 <= i < |numbers| && numbers[i] < 0;
      NegativeNumberSolvable(numbers, i);
      CountMeansSolvable(numbers, numbers[i]);
    }
  }

  ghost predicate CellOk(numbers: seq<int>, ways: seq<int>, i: nat, s: nat)
    requires i <= |numbers|
  {
    s < |ways| ==> ways[s] == |Solutions(numbers, i, s)| <= MAX_INT
  }

  ghost predicate HalfOk(numbers: seq<int>, ways: seq<int>, i: nat, s: int, c: nat)
    requires i < |numbers|
  {
    if c >= s then CellOk(numbers, ways, i + 1, c) else CellOk(numbers, ways, i, c)
  }

  ghost predicate Table(numbers: seq<int>, ways: seq<int>, i: nat)
    requires i <= |numbers|
  {
    forall c: nat {:trigger CellOk(numbers, ways, i, c)} :: CellOk(numbers, ways, i, c)
  }

  ghost predicate HalfTable(numbers: seq<int>, ways: seq<int>, i: nat, s: int)
    requires i < |numbers|
  {
    forall c: nat {:trigger HalfOk(numbers, ways, i, s, c)} :: HalfOk(numbers, ways, i, s, c)
  }

  /** Some cell up to the target has more subsets than an int can count. */
  ghost predicate Overflows(numbers: seq<int>, target: int) {
    exists s: nat {:trigger Solutions(numbers, |numbers|, s)} :: s <= target &&
        |Solutions(numbers, |numbers|, s)| > 0x7FFF_FFFF_FFFF_FFFF
  }

  lemma StartElement(numbers: seq<int>, ways: seq<int>, i: nat)
    requires i < |numbers| && Table(numbers, ways, i)
    ensures HalfTable(numbers, ways, i, |ways|)
  {
    forall c: nat {:trigger HalfOk(numbers, ways, i, |ways|, c)} ensures HalfOk(numbers, ways, i, |ways|, c) {
      assert CellOk(numbers, ways, i, c);
    }
  }

  lemma AddWays(numbers: seq<int>, ways: seq<int>, i: nat, s: nat)
    requires i < |numbers| && 0 <= numbers[i] <= s < |ways| && HalfTable(numbers, ways, i, s + 1)
    ensures var sum := ways[s] + ways[s - numbers[i]];
      if sum > MAX_INT then |Solutions(numbers, |numbers|, s)| > MAX_INT else HalfTable(numbers, ways[s := sum], i, s)
  {
    var below := s - numbers[i];
    assert HalfOk(numbers, ways, i, s + 1, below) && HalfOk(numbers, ways, i, s + 1, s);
    SolutionsStep(numbers, i, s);
    SolutionsGrow(numbers, i + 1, |numbers|, s);
    var sum := ways[s] + ways[below];
    if sum <= MAX_INT {
      var next := ways[s := sum];
      forall c: nat {:trigger HalfOk(numbers, next, i, s, c)} ensures HalfOk(numbers, next, i, s, c) {
        assert HalfOk(numbers, ways, i, s + 1, c);
      }
    }
  }

  lemma FinishElement(numbers: seq<int>, ways: seq<int>, i: nat)
    requires i < |numbers| && NonNegative(numbers) && HalfTable(numbers, ways, i, numbers[i])
    ensures Table(numbers, ways, i + 1)
  {
    forall c: nat {:trigger CellOk(numbers, ways, i + 1, c)} ensures CellOk(numbers, ways, i + 1, c) {
      assert HalfOk(numbers, ways, i, numbers[i], c);
      if c < numbers[i] {
        SolutionsStep(numbers, i, c);
        NoneBelowZero(numbers, i, c - numbers[i]);
      }
    }
  }

  lemma SkipElement(numbers: seq<int>, ways: seq<int>, i: nat)
    requires i < |numbers| && NonNegative(numbers) && Table(numbers, ways, i) && |ways| <= numbers[i]
    ensures Table(numbers, ways, i + 1)
  {
    forall c: nat {:trigger CellOk(numbers, ways, i + 1, c)} ensures CellOk(numbers, ways, i + 1, c) {
      assert CellOk(numbers, ways, i, c);
      if c < |ways| {
        SolutionsStep(numbers, i, c);
        NoneBelowZero(numbers, i, c - numbers[i]);
      }
    }
  }

  method CountSubsetSums(numbers: seq<int>, target: int) returns (r: Count)
    ensures r.ErrNegative? <==> target >= 0 && !NonNegative(numbers)
    ensures r.ErrOverflow? <==> target >= 0 && NonNegative(numbers) && Overflows(numbers, target)
    ensures |numbers| <= 62 ==> !r.ErrOverflow?
    ensures r.Counted? && target >= 0 ==> r.count == |Solutions(numbers, |numbers|, target)|
    ensures r.Counted? && target < 0 ==> r.count == 0
  {
    if |numbers| <= 62 {
      FewNumbersNeverOverflow(numbers, target);
    }
    if target < 0 {
      return Counted(0);
    }
    for k := 0 to |numbers|
      invariant NonNegative(numbers[..k])
    {
      if numbers[k] < 0 {
        return ErrNegative;
      }
    }
    assert numbers[..|numbers|] == numbers;
    var ways := new int[target + 1](_ => 0);
    ways[0] := 1;
    forall c: nat {:trigger CellOk(numbers, ways[..], 0, c)} ensures CellOk(numbers, ways[..], 0, c) {
      NoSolutionsOrEmpty(numbers, c);
    }
    for i := 0 to |numbers|
      invariant Table(numbers, ways[..], i)
    {
      var v := numbers[i];
      if v > target {
        SkipElement(numbers, ways[..], i);
      } else {
        StartElement(numbers, ways[..], i);
        var s := target;
        while s >= v
          invariant v - 1 <= s <= target && HalfTable(numbers, ways[..], i, s + 1)
        {
          AddWays(numbers, ways[..], i, s);
          if ways[s] > MAX_INT - ways[s - v] {
            return ErrOverflow;
          }
          ways[s] := ways[s] + ways[s - v];
          s := s - 1;
        }
        FinishElement(numbers, ways[..], i);
      }
    }
    NoOverflow(numbers, ways[..], target);
    assert CellOk(numbers, ways[..], |numbers|, target);
    return Counted(ways[target]);
  }

  lemma NoOverflow(numbers: seq<int>, ways: seq<int>, target: nat)
    requires |ways| == target + 1 && Table(numbers, ways, |numbers|)
    ensures !Overflows(numbers, target)
  {
    forall s: nat {:trigger Solutions(numbers, |numbers|, s)} | s <= target
      ensures |Solutions(numbers, |numbers|, s)| <= MAX_INT
    {
      assert CellOk(numbers, ways, |numbers|, s);
    }
  }

  lemma {:induction false} AtMostAllSubsets(numbers: seq<int>, i: nat, s: int)
    requires i <= |numbers|
    ensures |Solutions(numbers, i, s)| <= Pow2(i)
  {
    if i == 0 {
      NoSolutionsOrEmpty(numbers, s);
    } else {
      AtMostAllSubsets(numbers, i - 1, s);
      AtMostAllSubsets(numbers, i - 1, s - numbers[i - 1]);
      SolutionsStep(numbers, i - 1, s);
    }
  }

  /** Up to 62 numbers no cell can overflow. */
  lemma FewNumbersNeverOverflow(numbers: seq<int>, target: int)
    requires |numbers| <= 62
    ensures !Overflows(numbers, target)
  {
    Pow2Grows(|numbers|, 62);
    TwoTo63();
    forall s: nat {:trigger Solutions(numbers, |numbers|, s)} ensures |Solutions(numbers, |numbers|, s)| <= MAX_INT {
      AtMostAllSubsets(numbers, |numbers|, s);
    }
  }

  /** And 62 is the greatest number of numbers of which that can be said. */
  lemma SafeExactlyUpTo62(n: nat)
    ensures n <= 62 <==>
      forall numbers, target: nat :: |numbers| == n && NonNegative(numbers) ==> !Overflows(numbers, target)
  {
    if n <= 62 {
      forall numbers, target: nat | |numbers| == n && NonNegative(numbers) ensures !Overflows(numbers, target) {
        FewNumbersNeverOverflow(numbers, target);
      }
    } else {
      var zeros: seq<int> := seq(n, _ => 0);
      ZerosDouble(zeros, n, 0);
      Pow2Grows(63, n);
      TwoTo63();
      assert |Solutions(zeros, |zeros|, 0)| > MAX_INT;
      assert Overflows(zeros, 0);
    }
  }

  lemma {:induction false} ZerosDouble(numbers: seq<int>, i: nat, s: int)
    requires i <= |numbers| && forall k :: 0 <= k < |numbers| ==> numbers[k] == 0
    ensures |Solutions(numbers, i, s)| == if s == 0 then Pow2(i) else 0
  {
    if i == 0 {
      NoSolutionsOrEmpty(numbers, s);
    } else {
      ZerosDouble(numbers, i - 1, s);
      SolutionsStep(numbers, i - 1, s);
    }
  }

  /** 63 zeros overflow on the way to a count that is itself only 0. */
  lemma OverflowBeforeTheAnswer(numbers: seq<int>)
    requires |numbers| == 63 && forall k :: 0 <= k < |numbers| ==> numbers[k] == 0
    ensures Overflows(numbers, 1) && |Solutions(numbers, |numbers|, 1)| == 0
  {
    ZerosDouble(numbers, 63, 0);
    ZerosDouble(numbers, 63, 1);
    TwoTo63();
    assert |Solutions(numbers, |numbers|, 0)| > MAX_INT;
  }
}

/** Every subset in turn, as the bits of a counter. */
module SubsetSumByMask {
  import opened BitMasks
  import opened Sequences
  import opened SubsetSumModel
  import opened SubsetSumSearch

  datatype BruteAnswer = Found(indices: seq<int>) | ErrNone | ErrTooMany

  /** The positions below n of the set bits. */
  ghost function BitSet(mask: nat, n: nat): (x: set<int>)
    ensures forall k :: k in x <==> 0 <= k < n && Bit(mask, k)
  {
    if n == 0 then {} else BitSet(mask, n - 1) + if Bit(mask, n - 1) then {n - 1} else {}
  }

  lemma {:induction false} HighBitsClear(mask: nat, k: nat)
    requires mask < Pow2(k)
    ensures !Bit(mask, k)
  {
    if k > 0 {
      HighBitsClear(mask / 2, k - 1);
    }
  }

  lemma BitIsBelow(mask: nat, k: nat, n: nat)
    requires mask < Pow2(n) && Bit(mask, k)
    ensures k < n
  {
    if k >= n {
      Pow2Grows(n, k);
      HighBitsClear(mask, k);
    }
  }

  /** Every subset is some mask. */
  lemma {:induction false} MaskOf(x: set<int>, n: nat) returns (mask: nat)
    requires Within(x, n)
    ensures mask < Pow2(n) && forall k :: k in BitSet(mask, n) <==> k in x
  {
    if n == 0 {
      mask := 0;
    } else {
      var y := x - {n - 1};
      var low := MaskOf(y, n - 1);
      HighBitsClear(low, n - 1);
      mask := if n - 1 in x then low + Pow2(n - 1) else low;
      forall k: int ensures k in BitSet(mask, n) <==> k in x {
        assert k in BitSet(low, n - 1) <==> k in y;
        if k >= 0 {
          SetBit(low, n - 1, k);
        }
      }
      PowPositive(n - 1);
    }
  }

  /** The position of the lowest set bit. */
  function LowBit(mask: nat): (k: nat)
    requires mask > 0
    ensures Bit(mask, k) && forall j: nat :: j < k ==> !Bit(mask, j)
  {
    if mask % 2 == 1 then 0
    else
      assert forall j: nat :: j > 0 ==> (Bit(mask, j) <==> Bit(mask / 2, j - 1));
      1 + LowBit(mask / 2)
  }

  /** The mask without its lowest set bit. */
  lemma DropLowest(mask: nat, n: nat)
    requires 0 < mask < Pow2(n)
    ensures var k := LowBit(mask);
      k < n && mask >= Pow2(k) && BitSet(mask - Pow2(k), n) == BitSet(mask, n) - {k} && k in BitSet(mask, n)
  {
    var k := LowBit(mask);
    BitIsBelow(mask, k, n);
    ClearBit(mask, k, 0);
    var rest := BitSet(mask - Pow2(k), n);
    forall j ensures j in rest <==> j in BitSet(mask, n) && j != k {
      if j >= 0 {
        ClearBit(mask, k, j);
      }
    }
    assert k in BitSet(mask, n);
    assert rest == BitSet(mask, n) - {k};
  }

  method IndicesOf(mask: nat, ghost n: nat) returns (out: seq<int>)
    requires mask < Pow2(n)
    ensures Ascending(out) && Elements(out) == BitSet(mask, n)
  {
    out := [];
    var m: nat := mask;
    assert BitSet(m, n) + Elements(out) == BitSet(mask, n);
    while m != 0
      invariant m < Pow2(n) && Ascending(out) && BitSet(m, n) + Elements(out) == BitSet(mask, n)
      invariant forall i, k {:trigger out[i], Bit(m, k)} :: 0 <= i < |out| && 0 <= k && Bit(m, k) ==> out[i] < k
    {
      var k := LowBit(m);
      DropLowest(m, n);
      assert Bit(m, k) && forall i :: 0 <= i < |out| ==> out[i] < k;
      forall j: nat ensures Bit(m - Pow2(k), j) <==> Bit(m, j) && j != k {
        ClearBit(m, k, j);
      }
      assert Elements(out + [k]) == Elements(out) + {k};
      out := out + [k];
      PowPositive(k);
      m := m - Pow2(k);
    }
    NoBits(n);
  }

  lemma {:induction false} NoBits(n: nat)
    ensures BitSet(0, n) == {}
  {
    var x := BitSet(0, n);
    forall k ensures k !in x {
      if k >= 0 {
        OneHasOnlyZero(k);
      }
    }
    assert x == {};
  }

  lemma NoneOfTheMasks(numbers: seq<int>, target: int)
    requires forall m: nat {:trigger BitSet(m, |numbers|)} :: m < Pow2(|numbers|) ==>
      SumIn(numbers, |numbers|, BitSet(m, |numbers|)) != target
    ensures !Solvable(numbers, target)
  {
    forall x | Within(x, |numbers|) ensures !Solves(numbers, x, target) {
      var m := MaskOf(x, |numbers|);
      SumInLocal(numbers, |numbers|, BitSet(m, |numbers|), x);
    }
  }

  /** Tries every subset; a counter of 62 bits is the most that fits. */
  method SubsetSumBrute(numbers: seq<int>, target: int) returns (r: BruteAnswer)
    ensures r.ErrTooMany? <==> |numbers| > 62
    ensures r.ErrNone? <==> |numbers| <= 62 && !Solvable(numbers, target)
    ensures r.Found? ==> Ascending(r.indices) && Distinct(r.indices) && Solves(numbers, Elements(r.indices), target)
  {
    var n := |numbers|;
    if n > 62 {
      return ErrTooMany;
    }
    var mask: nat := 0;
    while mask < Pow2(n)
      invariant mask <= Pow2(n)
      invariant forall m: nat {:trigger BitSet(m, n)} :: m < mask ==> SumIn(numbers, n, BitSet(m, n)) != target
    {
      var sum := SumOfBits(numbers, mask);
      if sum == target {
        assert Solves(numbers, BitSet(mask, n), target);
        var out := IndicesOf(mask, n);
        AscendingIsDistinct(out);
        return Found(out);
      }
      mask := mask + 1;
    }
    NoneOfTheMasks(numbers, target);
    return ErrNone;
  }

  /** Walks only the set bits. */
  method SumOfBits(numbers: seq<int>, mask: nat) returns (sum: int)
    requires mask < Pow2(|numbers|)
    ensures sum == SumIn(numbers, |numbers|, BitSet(mask, |numbers|))
  {
    var n := |numbers|;
    sum := 0;
    var m: nat := mask;
    while m != 0
      invariant m < Pow2(n) && sum + SumIn(numbers, n, BitSet(m, n)) == SumIn(numbers, n, BitSet(mask, n))
    {
      var k := LowBit(m);
      DropLowest(m, n);
      SumInAdd(numbers, n, BitSet(m - Pow2(k), n), k);
      assert BitSet(m - Pow2(k), n) + {k} == BitSet(m, n);
      sum := sum + numbers[k];
      PowPositive(k);
      m := m - Pow2(k);
    }
    NoBits(n);
    SumInNothing(numbers, n);
  }

  /** The table and the enumeration on one input that both accept: two subsets, or no solution from either. */
  method SolveTwice(numbers: seq<int>, target: int) returns (a: Answer, b: BruteAnswer)
    requires NonNegative(numbers) && |numbers| <= 62
    ensures (a.Indices? && b.Found?) || (a.ErrNoSolution? && b.ErrNone?)
    ensures a.Indices? ==> Solves(numbers, Elements(a.indices), target)
    ensures b.Found? ==> Solves(numbers, Elements(b.indices), target)
  {
    a := SubsetSumDP(numbers, target);
    b := SubsetSumBrute(numbers, target);
    if target < 0 {
      NegativeTargetUnsolvable(numbers, target);
    }
  }
}
