/** Topological orders and cycles of directed graphs. */
module Topo {
  import opened FiniteSets
  import opened GraphModel
  import opened Graphs
  import opened Sequences
  import opened Traverse

  datatype Sorting = Ordered(order: seq<Vertex>) | ErrDirected | ErrCycle

  ghost predicate ClosedWalk(adj: Adjacency, c: seq<Vertex>) {
    |c| >= 2 && IsWalk(adj, c) && c[0] == c[|c| - 1]
  }

  ghost predicate Cyclic(adj: Adjacency) {
    exists c :: ClosedWalk(adj, c)
  }

  /** A closed walk that visits no node twice before it closes. */
  ghost predicate IsCycle(adj: Adjacency, c: seq<Vertex>) {
    ClosedWalk(adj, c) && Distinct(c[..|c| - 1])
  }

  /** A node of the order comes after everything that leads to it. */
  ghost predicate SourcesFirst(adj: Adjacency, order: seq<Vertex>) {
    forall i :: 0 <= i < |order| ==> Sources(adj, order[i]) <= Elements(order[..i])
  }

  /** A permutation of the nodes with every edge pointing forward. */
  ghost predicate Topological(adj: Adjacency, order: seq<Vertex>) {
    && Distinct(order)
    && (forall v :: v in order <==> v in adj)
    && forall i, j :: 0 <= i < |order| && 0 <= j < |order| && HasEdge(adj, order[i], order[j]) ==> i < j
  }

  lemma SourcesFirstIsTopological(adj: Adjacency, order: seq<Vertex>)
    requires Distinct(order) && SourcesFirst(adj, order)
    requires forall v :: v in order <==> v in adj
    ensures Topological(adj, order)
  {
    forall i, j | 0 <= i < |order| && 0 <= j < |order| && HasEdge(adj, order[i], order[j]) ensures i < j {
      assert order[i] in Sources(adj, order[j]);
      var k :| 0 <= k < |order[..j]| && order[..j][k] == order[i];
    }
  }

  // ---------- An order and a cycle exclude each other ----------

  ghost function At(order: seq<Vertex>, v: Vertex): (i: nat)
    requires v in order
    ensures i < |order| && order[i] == v
  {
    var i: nat :| i < |order| && order[i] == v;
    i
  }

  lemma EdgeMovesForward(adj: Adjacency, order: seq<Vertex>, u: Vertex, v: Vertex)
    requires Topological(adj, order) && u in order && v in order && HasEdge(adj, u, v)
    ensures At(order, u) < At(order, v)
  {
    var i, j := At(order, u), At(order, v);
    assert HasEdge(adj, order[i], order[j]);
  }

  /** Along a walk, positions in a topological order only grow. */
  lemma {:induction false} WalkMovesForward(adj: Adjacency, order: seq<Vertex>, p: seq<Vertex>)
    requires WellFormed(adj) && Topological(adj, order) && IsWalk(adj, p)
    ensures p[0] in order && p[|p| - 1] in order
    ensures |p| > 1 ==> At(order, p[0]) < At(order, p[|p| - 1])
    decreases |p|
  {
    if |p| > 1 {
      var last := |p| - 1;
      var q := p[..last];
      assert IsWalk(adj, q) by {
        assert forall k :: 0 <= k < |q| ==> q[k] == p[k];
      }
      WalkMovesForward(adj, order, q);
      assert HasEdge(adj, p[last - 1], p[last]);
      EdgeStaysInside(adj, p[last - 1], p[last]);
      EdgeMovesForward(adj, order, p[last - 1], p[last]);
    }
  }

  lemma TopologicalIsAcyclic(adj: Adjacency, order: seq<Vertex>)
    requires WellFormed(adj) && Topological(adj, order)
    ensures !Cyclic(adj)
  {
    if Cyclic(adj) {
      var c :| ClosedWalk(adj, c);
      WalkMovesForward(adj, order, c);
    }
  }

  ghost predicate HasPredecessor(adj: Adjacency, s: set<Vertex>, v: Vertex) {
    exists u :: u in s && HasEdge(adj, u, v)
  }

  /** Some walk leads from a closed walk to the node, possibly one without a step. */
  ghost predicate BehindCycle(adj: Adjacency, x: Vertex) {
    exists c, p :: LeadsTo(adj, c, p, x)
  }

  ghost predicate LeadsTo(adj: Adjacency, c: seq<Vertex>, p: seq<Vertex>, x: Vertex) {
    ClosedWalk(adj, c) && IsWalk(adj, p) && p[0] == c[0] && p[|p| - 1] == x
  }

  lemma OneStepBack(adj: Adjacency, u: Vertex, p: seq<Vertex>)
    requires IsWalk(adj, p) && HasEdge(adj, u, p[0])
    ensures var q := [u] + p;
      IsWalk(adj, q) && q[|q| - 1] == p[|p| - 1] && Elements(q) == Elements(p) + {u}
  {
  }

  /** An edge from a node of a walk back to its start. */
  lemma RepeatCloses(adj: Adjacency, p: seq<Vertex>, k: nat)
    requires IsWalk(adj, p) && k < |p| && HasEdge(adj, p[k], p[0])
    ensures Cyclic(adj) && BehindCycle(adj, p[|p| - 1])
  {
    var c, rest := [p[k]] + p[..k + 1], p[k..];
    assert forall i :: 0 < i < |c| ==> c[i] == p[i - 1];
    assert ClosedWalk(adj, c);
    assert forall i :: 0 <= i < |rest| ==> rest[i] == p[k + i];
    assert LeadsTo(adj, c, rest, p[|p| - 1]);
  }

  /** In a nonempty set where everything has a predecessor in the set, walking backwards must repeat. */
  lemma {:induction false} PredecessorsCycle(adj: Adjacency, s: set<Vertex>, p: seq<Vertex>)
    requires forall v {:trigger HasPredecessor(adj, s, v)} :: v in s ==> HasPredecessor(adj, s, v)
    requires IsWalk(adj, p) && Distinct(p) && Elements(p) <= s
    ensures Cyclic(adj) && BehindCycle(adj, p[|p| - 1])
    decreases s - Elements(p)
  {
    assert p[0] in Elements(p) && HasPredecessor(adj, s, p[0]);
    var u :| u in s && HasEdge(adj, u, p[0]);
    if u in p {
      var k :| 0 <= k < |p| && p[k] == u;
      RepeatCloses(adj, p, k);
    } else {
      var q := [u] + p;
      OneStepBack(adj, u, p);
      assert u !in Elements(p);
      PredecessorsCycle(adj, s, q);
    }
  }

  /** Whatever leads to a node of such an order is in it, and not behind it. */
  lemma {:induction false} LeadsIntoOrder(adj: Adjacency, order: seq<Vertex>, p: seq<Vertex>)
    requires Distinct(order) && SourcesFirst(adj, order) && IsWalk(adj, p) && p[|p| - 1] in order
    ensures p[0] in order && At(order, p[0]) <= At(order, p[|p| - 1])
    ensures |p| > 1 ==> At(order, p[0]) < At(order, p[|p| - 1])
    decreases |p|
  {
    if |p| > 1 {
      var last := |p| - 1;
      var q, j := p[..last], At(order, p[last]);
      assert HasEdge(adj, p[last - 1], p[last]) && q[last - 1] == p[last - 1];
      assert p[last - 1] in Sources(adj, order[j]);
      var k :| 0 <= k < |order[..j]| && order[..j][k] == p[last - 1];
      assert order[k] == p[last - 1];
      assert forall i :: 0 <= i < |q| ==> q[i] == p[i];
      LeadsIntoOrder(adj, order, q);
    }
  }

  lemma BehindCycleIsNotOrdered(adj: Adjacency, order: seq<Vertex>, x: Vertex)
    requires Distinct(order) && SourcesFirst(adj, order) && BehindCycle(adj, x)
    ensures x !in order
  {
    if x in order {
      var c, p :| LeadsTo(adj, c, p, x);
      LeadsIntoOrder(adj, order, p);
      LeadsIntoOrder(adj, order, c);
    }
  }

  // ---------- First in, first out ----------

  /** When a node becomes ready: in the turn of the node at that place of the order, through its edge of
      that number. Nodes without predecessors are ready before the first turn, in the order given. */
  datatype Ready = Ready(turn: int, edge: nat)

  predicate Earlier(a: Ready, b: Ready) {
    a.turn < b.turn || (a.turn == b.turn && a.edge < b.edge)
  }

  ghost predicate ReadyAt(adj: Adjacency, nodes: seq<Vertex>, order: seq<Vertex>, v: Vertex, r: Ready) {
    if r.turn < 0 then r.turn == -1 && Sources(adj, v) == {} && r.edge < |nodes| && nodes[r.edge] == v
    else
      && r.turn < |order| && order[r.turn] in adj
      && var edges := adj[order[r.turn]];
         r.edge < |edges| && edges[r.edge].to == v && Sources(adj, v) <= Elements(order[..r.turn + 1])
  }

  /** The queued nodes stand in the order in which they became ready. */
  ghost predicate InTurn(adj: Adjacency, nodes: seq<Vertex>, order: seq<Vertex>, queued: seq<Vertex>,
      times: seq<Ready>) {
    && |times| == |queued|
    && (forall k {:trigger times[k]} :: 0 <= k < |times| ==> ReadyAt(adj, nodes, order, queued[k], times[k]))
    && forall i, j {:trigger times[i], times[j]} :: 0 <= i < j < |times| ==> Earlier(times[i], times[j])
  }

  ghost predicate Before(times: seq<Ready>, r: Ready) {
    forall k {:trigger times[k]} :: 0 <= k < |times| ==> Earlier(times[k], r)
  }

  ghost predicate FirstInFirstOut(adj: Adjacency, nodes: seq<Vertex>, order: seq<Vertex>) {
    exists times :: InTurn(adj, nodes, order, order, times)
  }

  lemma InTurnWhenLonger(adj: Adjacency, nodes: seq<Vertex>, order: seq<Vertex>, v: Vertex, queued: seq<Vertex>,
      times: seq<Ready>)
    requires InTurn(adj, nodes, order, queued, times)
    ensures InTurn(adj, nodes, order + [v], queued, times)
    ensures Before(times, Ready(|order|, 0))
  {
    var longer := order + [v];
    forall k {:trigger times[k]} | 0 <= k < |times|
      ensures ReadyAt(adj, nodes, longer, queued[k], times[k]) && times[k].turn < |order|
    {
      assert ReadyAt(adj, nodes, order, queued[k], times[k]);
      if times[k].turn >= 0 {
        assert longer[..times[k].turn + 1] == order[..times[k].turn + 1];
      }
    }
  }

  lemma OneMoreInTurn(adj: Adjacency, nodes: seq<Vertex>, order: seq<Vertex>, queued: seq<Vertex>,
      times: seq<Ready>, v: Vertex, r: Ready)
    requires InTurn(adj, nodes, order, queued, times) && ReadyAt(adj, nodes, order, v, r)
    requires Before(times, r)
    ensures InTurn(adj, nodes, order, queued + [v], times + [r])
  {
    var more := times + [r];
    forall k {:trigger more[k]} | 0 <= k < |more| ensures ReadyAt(adj, nodes, order, (queued + [v])[k], more[k]) {
      assert k < |times| ==> more[k] == times[k];
    }
    forall i, j {:trigger more[i], more[j]} | 0 <= i < j < |more| ensures Earlier(more[i], more[j]) {
      assert more[i] == times[i];
      assert j < |times| ==> more[j] == times[j];
    }
  }

  /** A node becomes ready at one time only, which the order before it decides. */
  lemma OneTimeOnly(adj: Adjacency, nodes: seq<Vertex>, a: seq<Vertex>, b: seq<Vertex>, k: nat, r: Ready, s: Ready)
    requires WellFormed(adj) && Distinct(nodes) && Topological(adj, a) && Distinct(b)
    requires k < |a| && k <= |b| && a[..k] == b[..k]
    requires ReadyAt(adj, nodes, a, a[k], r) && ReadyAt(adj, nodes, b, a[k], s)
    ensures r == s
  {
    var v := a[k];
    if r.turn >= 0 {
      FindIffTarget(adj[a[r.turn]], v);
      assert HasEdge(adj, a[r.turn], a[k]) && a[r.turn] in Sources(adj, v);
    }
    if s.turn >= 0 {
      FindIffTarget(adj[b[s.turn]], v);
      assert b[s.turn] in Sources(adj, v);
    }
    if r.turn >= 0 && s.turn >= 0 {
      assert r.turn < k && a[r.turn] == a[..k][r.turn] == b[r.turn];
      PlaceWithin(b, s.turn + 1, r.turn);
      PlaceWithin(a, r.turn + 1, PlaceOf(a, r.turn + 1, b[s.turn]));
      assert b[s.turn] == a[PlaceOf(a, r.turn + 1, b[s.turn])];
      var m := PlaceOf(a, r.turn + 1, b[s.turn]);
      assert a[m] == a[..k][m] == b[m];
    }
  }

  ghost function PlaceOf(a: seq<Vertex>, n: nat, v: Vertex): (m: nat)
    requires n <= |a| && v in Elements(a[..n])
    ensures m < n && a[m] == v
  {
    var m: nat :| m < |a[..n]| && a[..n][m] == v;
    m
  }

  lemma PlaceWithin(a: seq<Vertex>, n: nat, m: nat)
    requires Distinct(a) && n <= |a| && m < |a| && a[m] in Elements(a[..n])
    ensures m < n
  {
    var k := PlaceOf(a, n, a[m]);
  }

  lemma {:induction false} SamePrefix(adj: Adjacency, nodes: seq<Vertex>, a: seq<Vertex>, b: seq<Vertex>,
      ta: seq<Ready>, tb: seq<Ready>, k: nat)
    requires WellFormed(adj) && Distinct(nodes) && Topological(adj, a) && Topological(adj, b)
    requires InTurn(adj, nodes, a, a, ta) && InTurn(adj, nodes, b, b, tb)
    requires k <= |a| == |b|
    ensures a[..k] == b[..k]
  {
    if k > 0 {
      var n: nat := k - 1;
      SamePrefix(adj, nodes, a, b, ta, tb, n);
      if a[n] != b[n] {
        assert forall m: nat {:trigger a[m]} {:trigger b[m]} :: m < n ==> a[m] == a[..n][m] == b[..n][m] == b[m];
        var i, j := LaterPlace(a, b, n), LaterPlace(b, a, n);
        assert Earlier(ta[n], ta[i]) && Earlier(tb[n], tb[j]);
        OneTimeOnly(adj, nodes, a, b, n, ta[n], tb[j]);
        OneTimeOnly(adj, nodes, b, a, n, tb[n], ta[i]);
      }
      assert a[..k] == a[..n] + [a[n]] && b[..k] == b[..n] + [b[n]];
    }
  }

  /** Where the next node of b comes in a, when a goes on with another one. */
  ghost function LaterPlace(a: seq<Vertex>, b: seq<Vertex>, n: nat): (i: nat)
    requires n < |a| == |b| && (forall m: nat {:trigger a[m]} :: m < n ==> a[m] == b[m])
    requires a[n] != b[n] && Distinct(b) && b[n] in a
    ensures n < i < |a| && a[i] == b[n]
  {
    var i: nat :| i < |a| && a[i] == b[n];
    i
  }

  /** Only one topological order takes the ready nodes first in, first out. */
  lemma OrderIsUnique(adj: Adjacency, nodes: seq<Vertex>, a: seq<Vertex>, b: seq<Vertex>)
    requires WellFormed(adj) && Distinct(nodes) && Topological(adj, a) && Topological(adj, b)
    requires FirstInFirstOut(adj, nodes, a) && FirstInFirstOut(adj, nodes, b)
    ensures a == b
  {
    SameElements(a, b);
    var ta :| InTurn(adj, nodes, a, a, ta);
    var tb :| InTurn(adj, nodes, b, b, tb);
    SamePrefix(adj, nodes, a, b, ta, tb, |a|);
    assert a[..|a|] == a && b[..|b|] == b;
  }

  // ---------- Nodes that are ready at the same time ----------

  /** The node becomes ready in the turn of the node at place t. */
  ghost predicate FreedBy(adj: Adjacency, order: seq<Vertex>, t: nat, v: Vertex) {
    t < |order| && HasEdge(adj, order[t], v) && Sources(adj, v) <= Elements(order[..t + 1])
  }

  /** Both are ready from the start, or become ready in one turn. */
  ghost predicate ReadyTogether(adj: Adjacency, order: seq<Vertex>, v: Vertex, w: Vertex) {
    || (Sources(adj, v) == {} && Sources(adj, w) == {})
    || exists t: nat :: FreedBy(adj, order, t, v) && FreedBy(adj, order, t, w)
  }

  /** Nodes without predecessors stand as they were inserted, and before all others. */
  lemma SourcesByInsertion(adj: Adjacency, nodes: seq<Vertex>, order: seq<Vertex>, x: nat, y: nat)
    requires WellFormed(adj) && Distinct(nodes) && Topological(adj, order) && FirstInFirstOut(adj, nodes, order)
    requires x < |nodes| && y < |nodes| && nodes[x] in order && nodes[y] in order && Sources(adj, nodes[x]) == {}
    ensures Sources(adj, nodes[y]) == {} ==> (At(order, nodes[x]) < At(order, nodes[y]) <==> x < y)
    ensures Sources(adj, nodes[y]) != {} ==> At(order, nodes[x]) < At(order, nodes[y])
  {
    var times :| InTurn(adj, nodes, order, order, times);
    var i, j := At(order, nodes[x]), At(order, nodes[y]);
    OneTimeOnly(adj, nodes, order, order, i, times[i], Ready(-1, x));
    assert ReadyAt(adj, nodes, order, order[j], times[j]);
    if Sources(adj, nodes[y]) == {} {
      OneTimeOnly(adj, nodes, order, order, j, times[j], Ready(-1, y));
    }
    if i < j {
      assert Earlier(times[i], times[j]);
    } else if j < i {
      assert Earlier(times[j], times[i]);
    }
  }

  /** Nodes freed in one turn stand as the edges that free them do. */
  lemma FreedInEdgeOrder(adj: Adjacency, nodes: seq<Vertex>, order: seq<Vertex>, t: nat, e: nat, f: nat)
    requires WellFormed(adj) && Distinct(nodes) && Topological(adj, order) && FirstInFirstOut(adj, nodes, order)
    requires t < |order| && order[t] in adj && e < |adj[order[t]]| && f < |adj[order[t]]|
    requires adj[order[t]][e].to in order && FreedBy(adj, order, t, adj[order[t]][e].to)
    requires adj[order[t]][f].to in order && FreedBy(adj, order, t, adj[order[t]][f].to)
    ensures At(order, adj[order[t]][e].to) < At(order, adj[order[t]][f].to) <==> e < f
  {
    var times :| InTurn(adj, nodes, order, order, times);
    var i, j := At(order, adj[order[t]][e].to), At(order, adj[order[t]][f].to);
    OneTimeOnly(adj, nodes, order, order, i, times[i], Ready(t, e));
    OneTimeOnly(adj, nodes, order, order, j, times[j], Ready(t, f));
    if i < j {
      assert Earlier(times[i], times[j]);
    } else if j < i {
      assert Earlier(times[j], times[i]);
    }
  }

  /** Nodes freed in an earlier turn come before those freed in a later one. */
  lemma FreedInTurn(adj: Adjacency, nodes: seq<Vertex>, order: seq<Vertex>, t: nat, v: Vertex, u: nat, w: Vertex)
    requires WellFormed(adj) && Distinct(nodes) && Topological(adj, order) && FirstInFirstOut(adj, nodes, order)
    requires v in order && w in order && FreedBy(adj, order, t, v) && FreedBy(adj, order, u, w) && t < u
    ensures At(order, v) < At(order, w)
  {
    var times :| InTurn(adj, nodes, order, order, times);
    var i, j := At(order, v), At(order, w);
    assert j < i ==> Earlier(times[j], times[i]);
    OneTimeOnly(adj, nodes, order, order, i, times[i], Ready(t, EdgeTo(adj, order[t], v)));
    OneTimeOnly(adj, nodes, order, order, j, times[j], Ready(u, EdgeTo(adj, order[u], w)));
  }

  ghost predicate InsertedBefore(nodes: seq<Vertex>, v: Vertex, w: Vertex) {
    exists x, y :: 0 <= x < y < |nodes| && nodes[x] == v && nodes[y] == w
  }

  /** What the source says of its queue: nodes ready at the same time come out as they were inserted. */
  ghost predicate KeepsInsertionOrder(adj: Adjacency, nodes: seq<Vertex>, order: seq<Vertex>) {
    forall v, w {:trigger InsertedBefore(nodes, v, w)} ::
      v in order && w in order && ReadyTogether(adj, order, v, w) ==>
        (At(order, v) < At(order, w) <==> InsertedBefore(nodes, v, w))
  }

  /** The edges that free two nodes in one turn were listed as those nodes were inserted. */
  ghost predicate FreesInInsertionOrder(adj: Adjacency, nodes: seq<Vertex>, order: seq<Vertex>,
      t: nat, e: nat, f: nat) {
    t < |order| && order[t] in adj && e < f < |adj[order[t]]|
      && FreedBy(adj, order, t, adj[order[t]][e].to) && FreedBy(adj, order, t, adj[order[t]][f].to)
    ==> InsertedBefore(nodes, adj[order[t]][e].to, adj[order[t]][f].to)
  }

  lemma OneInsertedBefore(nodes: seq<Vertex>, v: Vertex, w: Vertex)
    requires Distinct(nodes) && v in nodes && w in nodes && v != w
    ensures InsertedBefore(nodes, v, w) <==> !InsertedBefore(nodes, w, v)
  {
    var x :| 0 <= x < |nodes| && nodes[x] == v;
    var y :| 0 <= y < |nodes| && nodes[y] == w;
  }

  /** That holds exactly if the edges that free nodes in one turn are listed as those nodes were inserted. */
  lemma KeepsInsertionOrderIff(adj: Adjacency, nodes: seq<Vertex>, order: seq<Vertex>)
    requires WellFormed(adj) && Distinct(nodes) && Topological(adj, order) && FirstInFirstOut(adj, nodes, order)
    requires forall v :: v in nodes <==> v in adj
    ensures KeepsInsertionOrder(adj, nodes, order) <==>
      forall t: nat, e: nat, f: nat {:trigger FreesInInsertionOrder(adj, nodes, order, t, e, f)} ::
        FreesInInsertionOrder(adj, nodes, order, t, e, f)
  {
    if KeepsInsertionOrder(adj, nodes, order) {
      forall t: nat, e: nat, f: nat ensures FreesInInsertionOrder(adj, nodes, order, t, e, f) {
        KeptMeansListed(adj, nodes, order, t, e, f);
      }
    }
    if forall t: nat, e: nat, f: nat {:trigger FreesInInsertionOrder(adj, nodes, order, t, e, f)} ::
        FreesInInsertionOrder(adj, nodes, order, t, e, f) {
      forall v, w {:trigger InsertedBefore(nodes, v, w)} | v in order && w in order && ReadyTogether(adj, order, v, w)
        ensures At(order, v) < At(order, w) <==> InsertedBefore(nodes, v, w)
      {
        if v != w {
          ListedMeansKept(adj, nodes, order, v, w);
        }
      }
    }
  }

  lemma KeptMeansListed(adj: Adjacency, nodes: seq<Vertex>, order: seq<Vertex>, t: nat, e: nat, f: nat)
    requires WellFormed(adj) && Distinct(nodes) && Topological(adj, order) && FirstInFirstOut(adj, nodes, order)
    requires KeepsInsertionOrder(adj, nodes, order)
    ensures FreesInInsertionOrder(adj, nodes, order, t, e, f)
  {
    if t < |order| && order[t] in adj && e < f < |adj[order[t]]| {
      var edges := adj[order[t]];
      FindIffTarget(edges, edges[e].to);
      FindIffTarget(edges, edges[f].to);
      if FreedBy(adj, order, t, edges[e].to) && FreedBy(adj, order, t, edges[f].to) {
        FreedInEdgeOrder(adj, nodes, order, t, e, f);
        assert ReadyTogether(adj, order, edges[e].to, edges[f].to);
      }
    }
  }

  lemma ListedMeansKept(adj: Adjacency, nodes: seq<Vertex>, order: seq<Vertex>, v: Vertex, w: Vertex)
    requires WellFormed(adj) && Distinct(nodes) && Topological(adj, order) && FirstInFirstOut(adj, nodes, order)
    requires forall v :: v in nodes <==> v in adj
    requires forall t: nat, e: nat, f: nat {:trigger FreesInInsertionOrder(adj, nodes, order, t, e, f)} ::
      FreesInInsertionOrder(adj, nodes, order, t, e, f)
    requires v in order && w in order && v != w && ReadyTogether(adj, order, v, w)
    ensures At(order, v) < At(order, w) <==> InsertedBefore(nodes, v, w)
  {
    OneInsertedBefore(nodes, v, w);
    if Sources(adj, v) == {} && Sources(adj, w) == {} {
      var x :| 0 <= x < |nodes| && nodes[x] == v;
      var y :| 0 <= y < |nodes| && nodes[y] == w;
      SourcesByInsertion(adj, nodes, order, x, y);
    } else {
      var t: nat :| FreedBy(adj, order, t, v) && FreedBy(adj, order, t, w);
      var e, f := EdgeTo(adj, order[t], v), EdgeTo(adj, order[t], w);
      assert FreesInInsertionOrder(adj, nodes, order, t, e, f);
      assert FreesInInsertionOrder(adj, nodes, order, t, f, e);
      FreedMeansKept(adj, nodes, order, t, e, f);
    }
  }

  lemma FreedMeansKept(adj: Adjacency, nodes: seq<Vertex>, order: seq<Vertex>, t: nat, e: nat, f: nat)
    requires WellFormed(adj) && Distinct(nodes) && Topological(adj, order) && FirstInFirstOut(adj, nodes, order)
    requires t < |order| && order[t] in adj && e < |adj[order[t]]| && f < |adj[order[t]]| && e != f
    requires adj[order[t]][e].to in order && FreedBy(adj, order, t, adj[order[t]][e].to)
    requires adj[order[t]][f].to in order && FreedBy(adj, order, t, adj[order[t]][f].to)
    requires FreesInInsertionOrder(adj, nodes, order, t, e, f) && FreesInInsertionOrder(adj, nodes, order, t, f, e)
    ensures var v, w := adj[order[t]][e].to, adj[order[t]][f].to;
      InsertedBefore(nodes, v, w) != InsertedBefore(nodes, w, v) ==>
        (At(order, v) < At(order, w) <==> InsertedBefore(nodes, v, w))
  {
    FreedInEdgeOrder(adj, nodes, order, t, e, f);
  }

  /** The number of the edge from u to v. */
  ghost function EdgeTo(adj: Adjacency, u: Vertex, v: Vertex): (e: nat)
    requires HasEdge(adj, u, v)
    ensures u in adj && e < |adj[u]| && adj[u][e].to == v
  {
    FindIffTarget(adj[u], v);
    var e: nat :| e < |adj[u]| && adj[u][e].to == v;
    e
  }

  /** Three nodes a, b, c and the edges from a to c and then to b: c comes out before b. */
  lemma EdgeOrderWins(a: Vertex, b: Vertex, c: Vertex, x: Edge, y: Edge)
    requires a != b && a != c && b != c && x.to == c && y.to == b
    ensures var adj: Adjacency, nodes, order := map[a := [x, y], b := [], c := []], [a, b, c], [a, c, b];
      WellFormed(adj) && Topological(adj, order) && FirstInFirstOut(adj, nodes, order)
      && !KeepsInsertionOrder(adj, nodes, order)
  {
    var adj: Adjacency, nodes, order := map[a := [x, y], b := [], c := []], [a, b, c], [a, c, b];
    forall u, v ensures HasEdge(adj, u, v) <==> u == a && (v == b || v == c) {
      if u in adj {
        FindIffTarget(adj[u], v);
      }
    }
    assert Sources(adj, a) == {} && Sources(adj, b) == {a} == Sources(adj, c);
    assert order[..1] == [a];
    assert InTurn(adj, nodes, order, order, [Ready(-1, 0), Ready(0, 0), Ready(0, 1)]);
    assert FreedBy(adj, order, 0, b) && FreedBy(adj, order, 0, c);
    assert ReadyTogether(adj, order, b, c);
    assert nodes[1] == b && nodes[2] == c && InsertedBefore(nodes, b, c);
    assert At(order, c) == 1 && At(order, b) == 2;
  }

  // ---------- Kahn's algorithm ----------

  /** The edges into v that have not been removed yet. */
  ghost function Left(adj: Adjacency, v: Vertex, order: seq<Vertex>): set<Vertex> {
    Sources(adj, v) - Elements(order)
  }

  /** What holds between two rounds: counts are exact, and exactly the nodes without incoming
      edges have been queued. */
  ghost predicate Round(adj: Adjacency, order: seq<Vertex>, ready: seq<Vertex>, remaining: map<Vertex, int>) {
    && remaining.Keys == adj.Keys
    && (forall v {:trigger Left(adj, v, order)} :: v in adj ==> remaining[v] == |Left(adj, v, order)|)
    && Queued(adj, order, ready, remaining)
    && SourcesFirst(adj, order)
  }

  ghost predicate Queued(adj: Adjacency, order: seq<Vertex>, ready: seq<Vertex>, remaining: map<Vertex, int>)
    requires remaining.Keys == adj.Keys
  {
    && Distinct(order + ready)
    && Within(adj, order + ready)
    && forall v :: v in adj ==> (v in order + ready <==> remaining[v] == 0)
  }

  /** After i of the nodes: their counts are copied, and those without incoming edges are ready. */
  ghost predicate Scanned(nodes: seq<Vertex>, incoming: map<Vertex, int>, i: nat, remaining: map<Vertex, int>,
      ready: seq<Vertex>)
    requires i <= |nodes|
  {
    && remaining.Keys == Elements(nodes[..i])
    && (forall v :: v in remaining ==> v in incoming && remaining[v] == incoming[v])
    && Distinct(ready)
    && (forall v :: v in ready <==> v in remaining && remaining[v] == 0)
  }

  lemma ScanOne(nodes: seq<Vertex>, incoming: map<Vertex, int>, i: nat, remaining: map<Vertex, int>,
      ready: seq<Vertex>)
    requires Distinct(nodes) && i < |nodes| && nodes[i] in incoming && Scanned(nodes, incoming, i, remaining, ready)
    ensures var v := nodes[i]; var count := incoming[v];
      Scanned(nodes, incoming, i + 1, remaining[v := count], if count == 0 then ready + [v] else ready)
  {
    assert nodes[..i + 1] == nodes[..i] + [nodes[i]];
    assert nodes[i] !in nodes[..i];
  }

  method Initial(g: Graph) returns (remaining: map<Vertex, int>, ready: seq<Vertex>, ghost times: seq<Ready>)
    requires g.Valid() && g.directed
    ensures Round(g.adj, [], ready, remaining) && InTurn(g.adj, g.nodes, [], ready, times)
  {
    remaining, ready, times := map[], [], [];
    for i := 0 to |g.nodes|
      invariant Scanned(g.nodes, g.incoming, i, remaining, ready)
      invariant InTurn(g.adj, g.nodes, [], ready, times) && Before(times, Ready(-1, i))
    {
      var v := g.nodes[i];
      assert v in g.adj;
      ScanOne(g.nodes, g.incoming, i, remaining, ready);
      remaining := remaining[v := g.incoming[v]];
      if remaining[v] == 0 {
        NoSources(g.adj, g.incoming, v);
        OneMoreInTurn(g.adj, g.nodes, [], ready, times, v, Ready(-1, i));
        ready := ready + [v];
        times := times + [Ready(-1, i)];
      }
    }
    AllScanned(g.adj, g.nodes, g.incoming, remaining, ready);
  }

  lemma AllScanned(adj: Adjacency, nodes: seq<Vertex>, incoming: map<Vertex, int>, remaining: map<Vertex, int>,
      ready: seq<Vertex>)
    requires CountsExact(true, adj, incoming) && forall v :: v in nodes <==> v in adj
    requires Scanned(nodes, incoming, |nodes|, remaining, ready)
    ensures Round(adj, [], ready, remaining)
  {
    assert nodes[..|nodes|] == nodes;
    assert [] + ready == ready;
    InitialCounts(adj, incoming, remaining);
  }

  lemma NoSources(adj: Adjacency, incoming: map<Vertex, int>, v: Vertex)
    requires CountsExact(true, adj, incoming) && v in adj && incoming[v] == 0
    ensures Sources(adj, v) == {}
  {
    assert incoming[v] == InDegree(adj, true, v);
  }

  lemma InitialCounts(adj: Adjacency, incoming: map<Vertex, int>, remaining: map<Vertex, int>)
    requires CountsExact(true, adj, incoming) && remaining.Keys == adj.Keys
    requires forall v :: v in remaining ==> remaining[v] == incoming[v]
    ensures forall v :: v in adj ==> remaining[v] == |Left(adj, v, [])|
  {
    forall v | v in adj ensures remaining[v] == |Left(adj, v, [])| {
      assert Elements<Vertex>([]) == {} && Left(adj, v, []) == Sources(adj, v);
      assert incoming[v] == InDegree(adj, true, v);
    }
  }

  lemma NextInOrder(adj: Adjacency, order: seq<Vertex>, ready: seq<Vertex>, remaining: map<Vertex, int>)
    requires Round(adj, order, ready, remaining) && ready != []
    ensures ready[0] in adj && ready[0] !in order
    ensures SourcesFirst(adj, order + [ready[0]])
  {
    var v := ready[0];
    var all := order + ready;
    assert all[|order|] == v;
    assert remaining[v] == |Left(adj, v, order)|;
    assert Left(adj, v, order) == {};
    var next := order + [v];
    forall i | 0 <= i < |next| ensures Sources(adj, next[i]) <= Elements(next[..i]) {
      if i < |order| {
        assert next[i] == order[i] && next[..i] == order[..i];
      } else {
        assert next[..i] == order;
        assert Sources(adj, v) <= Elements(order) by {
          forall u | u in Sources(adj, v) ensures u in Elements(order) {
            assert u !in Left(adj, v, order);
          }
        }
      }
    }
    assert forall j :: 0 <= j < |order| ==> all[j] == order[j];
  }

  /** What holds while the edges out of a node are being removed: those from the i-th on still count. */
  ghost predicate Removing(adj: Adjacency, order: seq<Vertex>, remaining: map<Vertex, int>, edges: seq<Edge>, i: nat) {
    && remaining.Keys == adj.Keys
    && forall v {:trigger Left(adj, v, order)} :: v in adj ==>
         remaining[v] == |Left(adj, v, order)| + if v in Pending(edges, i) then 1 else 0
  }

  /** Removing a node removes its edge into each of its targets. */
  lemma LeftShrinks(adj: Adjacency, order: seq<Vertex>, current: Vertex, v: Vertex)
    requires current in adj && current !in order
    ensures |Left(adj, v, order)| ==
      |Left(adj, v, order + [current])| + if v in Pending(adj[current], 0) then 1 else 0
  {
    var before, after := Left(adj, v, order), Left(adj, v, order + [current]);
    FindIffTarget(adj[current], v);
    assert Elements(order + [current]) == Elements(order) + {current};
    if v in Pending(adj[current], 0) {
      assert current in before;
      assert after == before - {current};
    } else {
      assert after == before;
    }
  }

  lemma StartRemoving(adj: Adjacency, before: seq<Vertex>, current: Vertex, queue: seq<Vertex>,
      counts: map<Vertex, int>)
    requires current in adj && current !in before && Round(adj, before, [current] + queue, counts)
    ensures Removing(adj, before + [current], counts, adj[current], 0)
    ensures Queued(adj, before + [current], queue, counts)
  {
    var order := before + [current];
    assert before + ([current] + queue) == order + queue;
    forall v {:trigger Left(adj, v, order)} | v in adj
      ensures counts[v] == |Left(adj, v, order)| + if v in Pending(adj[current], 0) then 1 else 0
    {
      LeftShrinks(adj, before, current, v);
    }
  }

  /** One round: every edge out of `current` goes, and targets left without incoming edges become ready. */
  method RemoveEdges(adj: Adjacency, ghost nodes: seq<Vertex>, ghost before: seq<Vertex>, current: Vertex,
      queue: seq<Vertex>, counts: map<Vertex, int>, ghost start: seq<Ready>)
    returns (ready: seq<Vertex>, remaining: map<Vertex, int>, ghost times: seq<Ready>)
    requires WellFormed(adj) && current in adj && current !in before
    requires Round(adj, before, [current] + queue, counts)
    requires SourcesFirst(adj, before + [current])
    requires InTurn(adj, nodes, before, before + ([current] + queue), start)
    ensures Round(adj, before + [current], ready, remaining)
    ensures InTurn(adj, nodes, before + [current], before + [current] + ready, times)
  {
    ready, remaining, times := queue, counts, start;
    ghost var order := before + [current];
    var edges := adj[current];
    StartRemoving(adj, before, current, queue, counts);
    InTurnWhenLonger(adj, nodes, before, current, before + ([current] + queue), start);
    assert before + ([current] + queue) == order + queue;
    for i := 0 to |edges|
      invariant Removing(adj, order, remaining, edges, i)
      invariant Queued(adj, order, ready, remaining)
      invariant InTurn(adj, nodes, order, order + ready, times) && Before(times, Ready(|before|, i))
    {
      var to := edges[i].to;
      RemoveOneEdge(adj, order, remaining, edges, i);
      QueueOne(adj, order, ready, remaining, to);
      remaining := remaining[to := remaining[to] - 1];
      if remaining[to] == 0 {
        BecomesReady(adj, nodes, before, current, remaining, i);
        OneMoreInTurn(adj, nodes, order, order + ready, times, to, Ready(|before|, i));
        assert order + ready + [to] == order + (ready + [to]);
        ready := ready + [to];
        times := times + [Ready(|before|, i)];
      }
    }
    assert Pending(edges, |edges|) == {};
  }

  lemma BecomesReady(adj: Adjacency, nodes: seq<Vertex>, before: seq<Vertex>, current: Vertex,
      remaining: map<Vertex, int>, i: nat)
    requires current in adj && i < |adj[current]|
    requires var to := adj[current][i].to;
      to in adj && Removing(adj, before + [current], remaining, adj[current], i + 1) && remaining[to] == 0
    ensures ReadyAt(adj, nodes, before + [current], adj[current][i].to, Ready(|before|, i))
  {
    var order, to := before + [current], adj[current][i].to;
    assert remaining[to] == |Left(adj, to, order)| + if to in Pending(adj[current], i + 1) then 1 else 0;
    assert Left(adj, to, order) == {};
    assert order[..|before| + 1] == order;
    forall u | u in Sources(adj, to) ensures u in Elements(order) {
      assert u !in Left(adj, to, order);
    }
  }

  lemma RemoveOneEdge(adj: Adjacency, order: seq<Vertex>, remaining: map<Vertex, int>, edges: seq<Edge>, i: nat)
    requires i < |edges| && DistinctTargets(edges) && edges[i].to in adj
    requires Removing(adj, order, remaining, edges, i)
    ensures var to := edges[i].to; Removing(adj, order, remaining[to := remaining[to] - 1], edges, i + 1)
    ensures remaining[edges[i].to] > 0
  {
    var to := edges[i].to;
    assert to in Pending(edges, i);
    assert Pending(edges, i + 1) == Pending(edges, i) - {to};
    assert remaining[to] == |Left(adj, to, order)| + 1;
  }

  lemma QueueOne(adj: Adjacency, order: seq<Vertex>, ready: seq<Vertex>, remaining: map<Vertex, int>, to: Vertex)
    requires remaining.Keys == adj.Keys && to in adj && remaining[to] > 0 && Queued(adj, order, ready, remaining)
    ensures var next := remaining[to := remaining[to] - 1];
            && next.Keys == adj.Keys
            && Queued(adj, order, if next[to] == 0 then ready + [to] else ready, next)
  {
    assert to !in order + ready;
    assert order + (ready + [to]) == order + ready + [to];
  }

  /** When Kahn's algorithm stops early, every leftover node has a leftover predecessor. */
  lemma LeftoverHasPredecessor(adj: Adjacency, order: seq<Vertex>, remaining: map<Vertex, int>, x: Vertex)
    requires Round(adj, order, [], remaining) && x in adj && x !in order
    ensures HasPredecessor(adj, adj.Keys - Elements(order), x)
  {
    assert order + [] == order;
    assert remaining[x] == |Left(adj, x, order)|;
    var u :| u in Left(adj, x, order);
    assert u in adj.Keys - Elements(order) && HasEdge(adj, u, x);
  }

  /** What is left over is exactly what some closed walk leads to. */
  lemma LeftoverIffBehindCycle(adj: Adjacency, order: seq<Vertex>, remaining: map<Vertex, int>, x: Vertex)
    requires Round(adj, order, [], remaining) && x in adj
    ensures x !in order <==> BehindCycle(adj, x)
  {
    var s := adj.Keys - Elements(order);
    assert order + [] == order;
    if x !in order {
      forall y | y in s ensures HasPredecessor(adj, s, y) {
        LeftoverHasPredecessor(adj, order, remaining, y);
      }
      assert Distinct([x]) && IsWalk(adj, [x]) && Elements([x]) == {x};
      PredecessorsCycle(adj, s, [x]);
    } else if BehindCycle(adj, x) {
      BehindCycleIsNotOrdered(adj, order, x);
    }
  }

  lemma LeftoverCycle(adj: Adjacency, nodes: seq<Vertex>, order: seq<Vertex>, remaining: map<Vertex, int>)
    requires Distinct(nodes) && (forall v :: v in nodes <==> v in adj)
    requires Round(adj, order, [], remaining) && |order| != |nodes|
    ensures Cyclic(adj)
  {
    assert order + [] == order;
    if forall v :: v in nodes ==> v in order {
      SameElements(nodes, order);
    }
    var v :| v in nodes && v !in order;
    LeftoverIffBehindCycle(adj, order, remaining, v);
  }

  /** When it does not, the order is topological. */
  lemma CompleteOrder(adj: Adjacency, nodes: seq<Vertex>, order: seq<Vertex>, remaining: map<Vertex, int>)
    requires WellFormed(adj) && Distinct(nodes) && (forall v :: v in nodes <==> v in adj)
    requires Round(adj, order, [], remaining) && |order| == |nodes|
    ensures Topological(adj, order) && !Cyclic(adj)
  {
    assert order + [] == order;
    SameLength(nodes, order);
    SourcesFirstIsTopological(adj, order);
    TopologicalIsAcyclic(adj, order);
  }

  lemma SameElements(a: seq<Vertex>, b: seq<Vertex>)
    requires Distinct(a) && Distinct(b) && (forall v :: v in b ==> v in a) && (forall v :: v in a ==> v in b)
    ensures |a| == |b|
  {
    DistinctCount(a);
    DistinctCount(b);
    assert Elements(a) == Elements(b);
  }

  lemma SameLength(a: seq<Vertex>, b: seq<Vertex>)
    requires Distinct(a) && Distinct(b) && (forall v :: v in b ==> v in a) && |a| == |b|
    ensures forall v :: v in a <==> v in b
  {
    DistinctCount(a);
    DistinctCount(b);
    assert Elements(b) <= Elements(a);
    SubsetOfSameSize(Elements(b), Elements(a));
    assert forall v :: v in a <==> v in Elements(a);
    assert forall v :: v in b <==> v in Elements(b);
  }

  method Kahn(adj: Adjacency, ghost nodes: seq<Vertex>, queue: seq<Vertex>, counts: map<Vertex, int>,
      ghost start: seq<Ready>)
    returns (order: seq<Vertex>, ghost remaining: map<Vertex, int>)
    requires WellFormed(adj) && Round(adj, [], queue, counts) && InTurn(adj, nodes, [], queue, start)
    ensures Round(adj, order, [], remaining) && FirstInFirstOut(adj, nodes, order)
  {
    order := [];
    var ready, left := queue, counts;
    ghost var times := start;
    assert [] + ready == ready;
    while ready != []
      invariant Round(adj, order, ready, left) && InTurn(adj, nodes, order, order + ready, times)
      decreases adj.Keys - Elements(order)
    {
      NextInOrder(adj, order, ready, left);
      var current := ready[0];
      assert ready == [current] + ready[1..];
      ready, left, times := RemoveEdges(adj, nodes, order, current, ready[1..], left, times);
      assert current in adj.Keys - Elements(order) && current !in adj.Keys - Elements(order + [current]);
      order := order + [current];
    }
    assert order + [] == order;
    remaining := left;
  }

  lemma EdgesLeadForward(adj: Adjacency, order: seq<Vertex>)
    requires WellFormed(adj) && Topological(adj, order)
    ensures forall i, k :: 0 <= i < |order| && 0 <= k < |adj[order[i]]| ==>
      exists j :: i < j < |order| && order[j] == adj[order[i]][k].to
  {
    forall i, k | 0 <= i < |order| && 0 <= k < |adj[order[i]]|
      ensures exists j :: i < j < |order| && order[j] == adj[order[i]][k].to
    {
      var to := adj[order[i]][k].to;
      FindIffTarget(adj[order[i]], to);
      EdgeStaysInside(adj, order[i], to);
      var j :| 0 <= j < |order| && order[j] == to;
      assert HasEdge(adj, order[i], order[j]);
    }
  }

  /** Every step of c is an edge of the list, and the last one returns to the start. */
  ghost predicate ClosedAlong(adj: Adjacency, c: seq<Vertex>) {
    |c| >= 2 && c[0] == c[|c| - 1] && forall i {:trigger StepAt(adj, c, i)} :: StepAt(adj, c, i)
  }

  ghost predicate StepAt(adj: Adjacency, c: seq<Vertex>, i: int) {
    0 < i < |c| ==> c[i - 1] in adj && HasTarget(adj[c[i - 1]], c[i])
  }

  lemma ClosedWalkAlongEdges(adj: Adjacency, c: seq<Vertex>)
    requires ClosedWalk(adj, c)
    ensures ClosedAlong(adj, c)
  {
    forall i ensures StepAt(adj, c, i) {
      if 0 < i < |c| {
        assert HasEdge(adj, c[i - 1], c[i]);
        FindIffTarget(adj[c[i - 1]], c[i]);
      }
    }
  }

  lemma ClosedAlongIsClosedWalk(adj: Adjacency, c: seq<Vertex>)
    requires WellFormed(adj) && ClosedAlong(adj, c)
    ensures ClosedWalk(adj, c)
  {
    assert StepAt(adj, c, 1);
    forall i {:trigger c[i]} | 0 < i < |c| ensures HasEdge(adj, c[i - 1], c[i]) {
      assert StepAt(adj, c, i);
      FindIffTarget(adj[c[i - 1]], c[i]);
    }
  }

  lemma CyclicAlongEdges(adj: Adjacency)
    requires Cyclic(adj)
    ensures exists c :: ClosedAlong(adj, c)
  {
    var c :| ClosedWalk(adj, c);
    ClosedWalkAlongEdges(adj, c);
  }

  method TopoSort(g: Graph) returns (r: Sorting)
    requires g.Valid()
    ensures r.ErrDirected? <==> !g.directed
    ensures r.Ordered? ==> Topological(g.adj, r.order) && FirstInFirstOut(g.adj, g.nodes, r.order) && !Cyclic(g.adj)
    ensures r.ErrCycle? ==> Cyclic(g.adj)
    ensures r.Ordered? ==> |r.order| == |g.nodes| && forall v :: v in r.order <==> v in g.nodes
    ensures r.Ordered? ==> forall i, k :: 0 <= i < |r.order| && 0 <= k < |g.adj[r.order[i]]| ==>
      exists j :: i < j < |r.order| && r.order[j] == g.adj[r.order[i]][k].to
    ensures r.ErrCycle? ==> exists c :: ClosedAlong(g.adj, c)
  {
    if !g.directed {
      return ErrDirected;
    }
    var counts, queue, times := Initial(g);
    var order, remaining := Kahn(g.adj, g.nodes, queue, counts, times);
    if |order| != |g.nodes| {
      LeftoverCycle(g.adj, g.nodes, order, remaining);
      CyclicAlongEdges(g.adj);
      return ErrCycle;
    }
    CompleteOrder(g.adj, g.nodes, order, remaining);
    EdgesLeadForward(g.adj, order);
    r := Ordered(order);
  }
}
