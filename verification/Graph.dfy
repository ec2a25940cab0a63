/** Graphs as insertion-ordered adjacency lists, and the values the algorithms over them talk about. */
module GraphModel {
  import opened Options
  import opened Sequences

  type Vertex(==, !new)

  datatype Edge = Edge(to: Vertex, weight: int)

  type Adjacency = map<Vertex, seq<Edge>>

  // ---------- One adjacency list ----------

  ghost predicate HasTarget(es: seq<Edge>, to: Vertex) {
    exists i :: 0 <= i < |es| && es[i].to == to
  }

  ghost predicate DistinctTargets(es: seq<Edge>) {
    forall i, j :: 0 <= i < j < |es| ==> es[i].to != es[j].to
  }

  /** The targets of the edges from the i-th on. */
  ghost function Pending(edges: seq<Edge>, i: nat): set<Vertex> {
    set j | i <= j < |edges| :: edges[j].to
  }

  /** The weight of the first edge to a vertex. */
  function Find(es: seq<Edge>, to: Vertex): Option<int> {
    if es == [] then None else if es[0].to == to then Some(es[0].weight) else Find(es[1..], to)
  }

  /** Replaces the weight of the first edge to a vertex, or appends an edge. */
  function Put(es: seq<Edge>, to: Vertex, weight: int): seq<Edge> {
    if es == [] then [Edge(to, weight)]
    else if es[0].to == to then [Edge(to, weight)] + es[1..]
    else [es[0]] + Put(es[1..], to, weight)
  }

  /** The edges without the first one that leads to the vertex. */
  function Drop(es: seq<Edge>, to: Vertex): seq<Edge> {
    if es == [] then []
    else if es[0].to == to then es[1..]
    else [es[0]] + Drop(es[1..], to)
  }

  lemma {:induction false} FindIffTarget(es: seq<Edge>, to: Vertex)
    ensures Find(es, to).Some? <==> HasTarget(es, to)
    ensures Find(es, to).Some? ==> exists i :: 0 <= i < |es| && es[i] == Edge(to, Find(es, to).value)
  {
    if es != [] {
      FindIffTarget(es[1..], to);
      if es[0].to != to {
        if Find(es, to).Some? {
          var i :| 0 <= i < |es[1..]| && es[1..][i] == Edge(to, Find(es, to).value);
          assert es[i + 1] == Edge(to, Find(es, to).value);
        }
        if i :| 0 <= i < |es| && es[i].to == to {
          assert es[1..][i - 1].to == to;
        }
      }
    }
  }

  lemma {:induction false} PutTargets(es: seq<Edge>, to: Vertex, weight: int, x: Vertex)
    ensures Find(Put(es, to, weight), x) == if x == to then Some(weight) else Find(es, x)
  {
    if es != [] && es[0].to != to {
      PutTargets(es[1..], to, weight, x);
    }
  }

  /** The first edge to a vertex. */
  ghost predicate FirstTo(es: seq<Edge>, k: nat, to: Vertex) {
    k < |es| && es[k].to == to && forall i :: 0 <= i < k ==> es[i].to != to
  }

  /** A new weight is written where the edge stands; a new edge is the last one. */
  lemma {:induction false} PutPlaces(es: seq<Edge>, to: Vertex, weight: int)
    ensures if HasTarget(es, to)
            then exists k: nat :: FirstTo(es, k, to) && Put(es, to, weight) == es[k := Edge(to, weight)]
            else Put(es, to, weight) == es + [Edge(to, weight)]
  {
    if es != [] {
      if es[0].to == to {
        assert FirstTo(es, 0, to) && Put(es, to, weight) == es[0 := Edge(to, weight)];
      } else {
        PutPlaces(es[1..], to, weight);
        TargetFurtherOn(es, to);
        if HasTarget(es, to) {
          var k: nat :| FirstTo(es[1..], k, to) && Put(es[1..], to, weight) == es[1..][k := Edge(to, weight)];
          FirstFurtherOn(es, k, to);
          assert Put(es, to, weight) == es[k + 1 := Edge(to, weight)];
        } else {
          assert es == [es[0]] + es[1..];
        }
      }
    }
  }

  lemma TargetFurtherOn(es: seq<Edge>, to: Vertex)
    requires es != [] && es[0].to != to
    ensures HasTarget(es, to) <==> HasTarget(es[1..], to)
  {
    if HasTarget(es, to) {
      var i :| 0 <= i < |es| && es[i].to == to;
      assert es[1..][i - 1].to == to;
    }
    if HasTarget(es[1..], to) {
      var i :| 0 <= i < |es[1..]| && es[1..][i].to == to;
      assert es[i + 1].to == to;
    }
  }

  lemma GapFurtherOn(es: seq<Edge>, k: nat)
    requires k + 1 < |es|
    ensures [es[0]] + (es[1..][..k] + es[1..][k + 1..]) == es[..k + 1] + es[k + 1 + 1..]
  {
  }

  lemma FirstFurtherOn(es: seq<Edge>, k: nat, to: Vertex)
    requires es != [] && es[0].to != to && FirstTo(es[1..], k, to)
    ensures FirstTo(es, k + 1, to)
  {
    forall i | 0 <= i < k + 1 ensures es[i].to != to {
      assert i > 0 ==> es[i] == es[1..][i - 1];
    }
  }

  /** The edge goes and the others close up. */
  lemma {:induction false} DropPlaces(es: seq<Edge>, to: Vertex)
    ensures if HasTarget(es, to) then exists k: nat :: FirstTo(es, k, to) && Drop(es, to) == es[..k] + es[k + 1..]
            else Drop(es, to) == es
  {
    if es != [] {
      if es[0].to == to {
        assert FirstTo(es, 0, to) && es[..0] + es[0 + 1..] == es[1..];
      } else {
        DropPlaces(es[1..], to);
        TargetFurtherOn(es, to);
        if HasTarget(es, to) {
          var k: nat :| FirstTo(es[1..], k, to) && Drop(es[1..], to) == es[1..][..k] + es[1..][k + 1..];
          FirstFurtherOn(es, k, to);
          GapFurtherOn(es, k);
          assert Drop(es, to) == es[..k + 1] + es[k + 1 + 1..];
        } else {
          assert es == [es[0]] + es[1..];
        }
      }
    }
  }

  lemma {:induction false} PutKeepsDistinct(es: seq<Edge>, to: Vertex, weight: int)
    requires DistinctTargets(es)
    ensures DistinctTargets(Put(es, to, weight))
  {
    if es != [] && es[0].to != to {
      PutKeepsDistinct(es[1..], to, weight);
      var rest := Put(es[1..], to, weight);
      forall i | 0 <= i < |rest| ensures rest[i].to != es[0].to {
        if rest[i].to == es[0].to {
          FindIffTarget(rest, es[0].to);
          PutTargets(es[1..], to, weight, es[0].to);
          FindIffTarget(es[1..], es[0].to);
        }
      }
    }
  }

  lemma {:induction false} DropTargets(es: seq<Edge>, to: Vertex, x: Vertex)
    requires DistinctTargets(es)
    ensures Find(Drop(es, to), x) == if x == to then None else Find(es, x)
    ensures DistinctTargets(Drop(es, to))
  {
    if es != [] {
      if es[0].to == to {
        FindIffTarget(es[1..], to);
      } else {
        DropTargets(es[1..], to, x);
        var rest := Drop(es[1..], to);
        forall i | 0 <= i < |rest| ensures rest[i].to != es[0].to {
          if rest[i].to == es[0].to {
            FindIffTarget(rest, es[0].to);
            DropTargets(es[1..], to, es[0].to);
            FindIffTarget(es[1..], es[0].to);
          }
        }
      }
    }
  }

  /** One step along the list, with the first i edges kept. */
  lemma DropAt(es: seq<Edge>, i: nat, to: Vertex)
    requires i < |es|
    ensures Drop(es[i..], to) == if es[i].to == to then es[i + 1..] else [es[i]] + Drop(es[i + 1..], to)
    ensures Find(es[i..], to) == if es[i].to == to then Some(es[i].weight) else Find(es[i + 1..], to)
    ensures es[..i] + [es[i]] == es[..i + 1]
  {
    assert es[i..][1..] == es[i + 1..];
  }

  lemma {:induction false} DropAbsent(es: seq<Edge>, to: Vertex)
    requires Find(es, to) == None
    ensures Drop(es, to) == es
  {
    if es != [] {
      DropAbsent(es[1..], to);
    }
  }

  // ---------- Whole graphs ----------

  /** The weight of the edge from u to v, if there is one. */
  function Weight(adj: Adjacency, u: Vertex, v: Vertex): Option<int> {
    if u in adj then Find(adj[u], v) else None
  }

  predicate HasEdge(adj: Adjacency, u: Vertex, v: Vertex) {
    Weight(adj, u, v).Some?
  }

  /** Every edge leads to a node of the graph, and no two edges of a node lead to the same one. */
  ghost predicate WellFormed(adj: Adjacency) {
    && (forall u, i :: u in adj && 0 <= i < |adj[u]| ==> adj[u][i].to in adj)
    && (forall u :: u in adj ==> DistinctTargets(adj[u]))
  }

  ghost predicate Symmetric(adj: Adjacency) {
    forall u, v {:trigger Weight(adj, u, v)} :: u in adj && v in adj ==> Weight(adj, u, v) == Weight(adj, v, u)
  }

  /** Where the edges into v come from. */
  ghost function Sources(adj: Adjacency, v: Vertex): set<Vertex> {
    set u | u in adj && HasEdge(adj, u, v)
  }

  /** An undirected self-loop is stored once and counted at both of its ends. */
  ghost function LoopBonus(adj: Adjacency, directed: bool, v: Vertex): nat {
    if !directed && HasEdge(adj, v, v) then 1 else 0
  }

  ghost function InDegree(adj: Adjacency, directed: bool, v: Vertex): nat {
    |Sources(adj, v)| + LoopBonus(adj, directed, v)
  }

  // ---------- Walks ----------

  ghost predicate IsWalk(adj: Adjacency, p: seq<Vertex>) {
    && p != [] && p[0] in adj
    && forall i {:trigger p[i]} :: 0 < i < |p| ==> HasEdge(adj, p[i - 1], p[i])
  }

  ghost predicate Reaches(adj: Adjacency, u: Vertex, v: Vertex) {
    exists p :: IsWalk(adj, p) && p[0] == u && p[|p| - 1] == v
  }

  lemma EdgeStaysInside(adj: Adjacency, u: Vertex, v: Vertex)
    requires WellFormed(adj) && HasEdge(adj, u, v)
    ensures u in adj && v in adj
  {
    FindIffTarget(adj[u], v);
  }

  lemma ReachesMore(adj: Adjacency, u: Vertex, v: Vertex, w: Vertex)
    requires Reaches(adj, u, v) && HasEdge(adj, v, w)
    ensures Reaches(adj, u, w)
  {
    var p :| IsWalk(adj, p) && p[0] == u && p[|p| - 1] == v;
    var q := p + [w];
    assert IsWalk(adj, q) && q[0] == u && q[|q| - 1] == w;
  }

  lemma ReachesItself(adj: Adjacency, u: Vertex)
    requires u in adj
    ensures Reaches(adj, u, u)
  {
    assert IsWalk(adj, [u]) && [u][0] == u && [u][|[u]| - 1] == u;
  }

  ghost predicate ClosedUnderEdges(adj: Adjacency, s: set<Vertex>) {
    forall x, y :: x in s && HasEdge(adj, x, y) ==> y in s
  }

  /** A walk that starts in a closed set never leaves it. */
  lemma {:induction false} WalkStaysInClosedSet(adj: Adjacency, s: set<Vertex>, p: seq<Vertex>)
    requires ClosedUnderEdges(adj, s) && IsWalk(adj, p) && p[0] in s
    ensures p[|p| - 1] in s
    decreases |p|
  {
    if |p| > 1 {
      var q := p[..|p| - 1];
      assert IsWalk(adj, q) by {
        assert forall i :: 0 <= i < |q| ==> q[i] == p[i];
      }
      WalkStaysInClosedSet(adj, s, q);
      var last := |p| - 1;
      assert HasEdge(adj, p[last - 1], p[last]);
    }
  }

  ghost predicate Consistent(directed: bool, nodes: seq<Vertex>, adj: Adjacency) {
    && Distinct(nodes)
    && (forall v :: v in nodes <==> v in adj)
    && WellFormed(adj)
    && (!directed ==> Symmetric(adj))
  }

  /** The incrementally kept in-degree is the number of edges that lead in. */
  ghost predicate CountsExact(directed: bool, adj: Adjacency, incoming: map<Vertex, int>) {
    && incoming.Keys == adj.Keys
    && forall v {:trigger InDegree(adj, directed, v)} ::
         v in adj ==> incoming[v] == InDegree(adj, directed, v)
  }
}

/** The mutable graph of the source. */
module Graphs {
  import opened GraphModel
  import opened Options

  class Graph {
    const directed: bool
    var nodes: seq<Vertex>
    var adj: Adjacency
    var incoming: map<Vertex, int>

    ghost predicate Valid()
      reads this
    {
      Consistent(directed, nodes, adj) && CountsExact(directed, adj, incoming)
    }

    constructor (directed: bool)
      ensures Valid() && this.directed == directed && nodes == [] && adj == map[]
    {
      this.directed := directed;
      nodes := [];
      adj := map[];
      incoming := map[];
    }

    method AddNode(v: Vertex) returns (isNew: bool)
      requires Valid()
      modifies this
      ensures Valid()
      ensures isNew <==> v !in old(adj)
      ensures nodes == WithNewNode(old(nodes), v) == if v in old(adj) then old(nodes) else old(nodes) + [v]
      ensures adj == WithNode(old(adj), v) == if v in old(adj) then old(adj) else old(adj)[v := []]
    {
      if v in adj {
        return false;
      }
      AddNodeKeeps(directed, nodes, adj, v);
      AddNodeCounts(directed, adj, incoming, v);
      adj := adj[v := []];
      nodes := nodes + [v];
      incoming := incoming[v := 0];
      isNew := true;
    }

    /** Writes one direction of an edge. */
    method SetEdge(from: Vertex, to: Vertex, weight: int) returns (replaced: bool)
      requires from in adj
      modifies this`adj
      ensures adj == WithArc(old(adj), from, to, weight)
      ensures replaced <==> HasEdge(old(adj), from, to)
    {
      var es := adj[from];
      for i := 0 to |es|
        invariant adj == old(adj)
        invariant Put(es, to, weight) == es[..i] + Put(es[i..], to, weight)
        invariant Find(es, to) == Find(es[i..], to)
      {
        if es[i].to == to {
          adj := adj[from := es[i := Edge(to, weight)]];
          assert es[i := Edge(to, weight)] == es[..i] + ([Edge(to, weight)] + es[i..][1..]);
          return true;
        }
        assert es[i..][1..] == es[i + 1..];
        assert es[..i] + [es[i]] == es[..i + 1];
      }
      assert es[|es|..] == [] && es[..|es|] == es;
      adj := adj[from := es + [Edge(to, weight)]];
      replaced := false;
    }

    method UnsetEdge(from: Vertex, to: Vertex) returns (ok: bool)
      modifies this`adj
      ensures ok <==> HasEdge(old(adj), from, to)
      ensures adj == WithoutArc(old(adj), from, to)
    {
      if from !in adj {
        return false;
      }
      var es := adj[from];
      for i := 0 to |es|
        invariant adj == old(adj)
        invariant Drop(es, to) == es[..i] + Drop(es[i..], to)
        invariant Find(es, to) == Find(es[i..], to)
      {
        DropAt(es, i, to);
        if es[i].to == to {
          adj := adj[from := es[..i] + es[i + 1..]];
          return true;
        }
      }
      assert es[|es|..] == [];
      WithoutAbsentArc(adj, from, to);
      ok := false;
    }

    /** Adds an edge, or replaces its weight. */
    method AddWeightedEdge(from: Vertex, to: Vertex, weight: int) returns (isNew: bool)
      requires Valid()
      modifies this
      ensures Valid()
      ensures isNew <==> !HasEdge(old(adj), from, to)
      ensures nodes == WithNewNode(WithNewNode(old(nodes), from), to)
      ensures adj == WithEdge(directed, WithNode(WithNode(old(adj), from), to), from, to, weight)
    {
      WithNodeWeight(adj, from, from, to);
      WithNodeWeight(WithNode(adj, from), to, from, to);
      var isNode := AddNode(from);
      isNode := AddNode(to);
      isNew := Connect(from, to, weight);
    }

    /** The rest of AddWeightedEdge, once both ends are nodes. */
    method Connect(from: Vertex, to: Vertex, weight: int) returns (isNew: bool)
      requires Valid() && from in adj && to in adj
      modifies this`adj, this`incoming
      ensures Valid()
      ensures isNew <==> !HasEdge(old(adj), from, to)
      ensures adj == WithEdge(directed, old(adj), from, to, weight)
    {
      AddEdgeKeeps(directed, nodes, adj, incoming, from, to, weight);
      ghost var before, counts := adj, incoming;
      var replaced := SetEdge(from, to, weight);
      if replaced {
        if !directed {
          replaced := SetEdge(to, from, weight);
        }
        assert adj == WithEdge(directed, before, from, to, weight);
        return false;
      }
      incoming := incoming[to := incoming[to] + 1];
      if !directed {
        replaced := SetEdge(to, from, weight);
        incoming := incoming[from := incoming[from] + 1];
      }
      assert adj == WithEdge(directed, before, from, to, weight);
      assert incoming == Counted(directed, counts, from, to, 1);
      isNew := true;
    }

    /** Removes an edge, in both directions when the graph is undirected. */
    method RemoveEdge(from: Vertex, to: Vertex) returns (ok: bool)
      requires Valid()
      modifies this
      ensures Valid() && nodes == old(nodes)
      ensures ok <==> HasEdge(old(adj), from, to)
      ensures adj == WithoutEdge(directed, old(adj), from, to)
    {
      RemoveEdgeKeeps(directed, nodes, adj, incoming, from, to);
      ghost var before, counts := adj, incoming;
      ok := UnsetEdge(from, to);
      if !ok {
        WithoutAbsentArc(before, from, to);
        assert adj == before;
        return;
      }
      incoming := incoming[to := incoming[to] - 1];
      if !directed {
        var other := UnsetEdge(to, from);
        incoming := incoming[from := incoming[from] - 1];
      }
      assert adj == WithoutEdge(directed, before, from, to);
      assert incoming == Counted(directed, counts, from, to, -1);
    }
  }

  function WithNewNode(nodes: seq<Vertex>, v: Vertex): seq<Vertex> {
    if v in nodes then nodes else nodes + [v]
  }

  lemma AddNodeFacts(adj: Adjacency, v: Vertex)
    requires WellFormed(adj) && v !in adj
    ensures WellFormed(adj[v := []])
    ensures forall x, y :: Weight(adj[v := []], x, y) == Weight(adj, x, y)
    ensures forall y :: y in adj ==> Sources(adj[v := []], y) == Sources(adj, y)
    ensures Sources(adj[v := []], v) == {}
  {
    var after: Adjacency := adj[v := []];
    assert forall x, y :: Weight(after, x, y) == Weight(adj, x, y);
    forall u | u in adj ensures !HasEdge(adj, u, v) {
      FindIffTarget(adj[u], v);
    }
  }

  lemma AddNodeCounts(directed: bool, adj: Adjacency, incoming: map<Vertex, int>, v: Vertex)
    requires WellFormed(adj) && CountsExact(directed, adj, incoming) && v !in adj
    ensures CountsExact(directed, adj[v := []], incoming[v := 0])
  {
    AddNodeFacts(adj, v);
    var after: Adjacency, counts := adj[v := []], incoming[v := 0];
    forall x | x in after ensures counts[x] == InDegree(after, directed, x) {
      if x == v {
        assert Sources(after, v) == {} && Weight(after, v, v) == Weight(adj, v, v) == None;
      } else {
        assert counts[x] == InDegree(adj, directed, x);
        assert Sources(after, x) == Sources(adj, x) && Weight(after, x, x) == Weight(adj, x, x);
      }
    }
  }

  lemma AddNodeKeeps(directed: bool, nodes: seq<Vertex>, adj: Adjacency, v: Vertex)
    requires Consistent(directed, nodes, adj) && v !in adj
    ensures Consistent(directed, nodes + [v], adj[v := []])
  {
    var after: Adjacency := adj[v := []];
    AddNodeFacts(adj, v);
    if !directed {
      forall x, y | x in after && y in after ensures Weight(after, x, y) == Weight(after, y, x) {
        assert Weight(after, x, y) == Weight(adj, x, y) && Weight(after, y, x) == Weight(adj, y, x);
        if x == v && y in adj {
          assert Sources(after, v) == {};
          assert y !in Sources(after, v);
        }
        if y == v && x in adj {
          assert x !in Sources(after, v);
        }
      }
    }
    assert forall u :: u in nodes + [v] <==> u in nodes || u == v;
  }

  // ---------- One edge more ----------

  function WithNode(adj: Adjacency, v: Vertex): Adjacency {
    if v in adj then adj else adj[v := []]
  }

  lemma WithNodeWeight(adj: Adjacency, v: Vertex, x: Vertex, y: Vertex)
    ensures Weight(WithNode(adj, v), x, y) == Weight(adj, x, y)
  {
  }

  function WithArc(adj: Adjacency, u: Vertex, v: Vertex, w: int): Adjacency
    requires u in adj
  {
    adj[u := Put(adj[u], v, w)]
  }

  /** Only the list of u changes: an edge to v keeps its place and takes the weight, or else comes last. */
  lemma WithArcPlaces(adj: Adjacency, u: Vertex, v: Vertex, w: int)
    requires u in adj
    ensures var after := WithArc(adj, u, v, w);
      && after.Keys == adj.Keys && (forall x :: x in adj && x != u ==> after[x] == adj[x])
      && (!HasEdge(adj, u, v) ==> after[u] == adj[u] + [Edge(v, w)])
      && (HasEdge(adj, u, v) ==> exists k: nat :: FirstTo(adj[u], k, v) && after[u] == adj[u][k := Edge(v, w)])
  {
    PutPlaces(adj[u], v, w);
    FindIffTarget(adj[u], v);
  }

  /** An undirected edge is two arcs. */
  function WithEdge(directed: bool, adj: Adjacency, u: Vertex, v: Vertex, w: int): Adjacency
    requires u in adj && v in adj
  {
    if directed then WithArc(adj, u, v, w) else WithArc(WithArc(adj, u, v, w), v, u, w)
  }

  lemma WithArcFacts(adj: Adjacency, u: Vertex, v: Vertex, w: int)
    requires WellFormed(adj) && u in adj && v in adj
    ensures WellFormed(WithArc(adj, u, v, w))
    ensures forall x, y ::
      Weight(WithArc(adj, u, v, w), x, y) == if x == u && y == v then Some(w) else Weight(adj, x, y)
  {
    var after: Adjacency := WithArc(adj, u, v, w);
    PutKeepsDistinct(adj[u], v, w);
    forall i | 0 <= i < |after[u]| ensures after[u][i].to in adj {
      PutMembers(adj[u], v, w);
    }
    forall x, y ensures Weight(after, x, y) == if x == u && y == v then Some(w) else Weight(adj, x, y) {
      PutTargets(adj[u], v, w, y);
    }
  }

  lemma {:induction false} PutMembers(es: seq<Edge>, to: Vertex, weight: int)
    ensures forall i :: 0 <= i < |Put(es, to, weight)| ==>
              Put(es, to, weight)[i].to == to || exists j :: 0 <= j < |es| && es[j].to == Put(es, to, weight)[i].to
  {
    if es != [] && es[0].to != to {
      PutMembers(es[1..], to, weight);
      var r, rest := Put(es, to, weight), Put(es[1..], to, weight);
      forall i | 0 <= i < |r| && r[i].to != to ensures exists j :: 0 <= j < |es| && es[j].to == r[i].to {
        if i == 0 {
          assert es[0].to == r[0].to;
        } else {
          assert r[i] == rest[i - 1];
          var j :| 0 <= j < |es[1..]| && es[1..][j].to == rest[i - 1].to;
          assert es[j + 1].to == r[i].to;
        }
      }
    } else if es != [] {
      assert forall i :: 0 <= i < |es| ==> i > 0 ==> Put(es, to, weight)[i] == es[i];
    }
  }

  lemma WithArcSources(adj: Adjacency, u: Vertex, v: Vertex, w: int, x: Vertex)
    requires WellFormed(adj) && u in adj && v in adj
    ensures Sources(WithArc(adj, u, v, w), x) == if x == v then Sources(adj, v) + {u} else Sources(adj, x)
  {
    WithArcFacts(adj, u, v, w);
    var after: Adjacency := WithArc(adj, u, v, w);
    assert forall y :: y in after ==> (HasEdge(after, y, x) <==> HasEdge(adj, y, x) || (y == u && x == v));
  }

  /** What adding an edge does to every weight of the graph. */
  lemma WithEdgeWeights(directed: bool, adj: Adjacency, u: Vertex, v: Vertex, w: int)
    requires WellFormed(adj) && u in adj && v in adj
    ensures var after := WithEdge(directed, adj, u, v, w);
            && WellFormed(after) && after.Keys == adj.Keys
            && forall x, y :: Weight(after, x, y) ==
                 if (x == u && y == v) || (!directed && x == v && y == u) then Some(w) else Weight(adj, x, y)
  {
    WithArcFacts(adj, u, v, w);
    if !directed {
      WithArcFacts(WithArc(adj, u, v, w), v, u, w);
    }
  }

  lemma WithEdgeConsistent(directed: bool, nodes: seq<Vertex>, adj: Adjacency, u: Vertex, v: Vertex, w: int)
    requires Consistent(directed, nodes, adj) && u in adj && v in adj
    ensures Consistent(directed, nodes, WithEdge(directed, adj, u, v, w))
  {
    WithEdgeWeights(directed, adj, u, v, w);
    var after: Adjacency := WithEdge(directed, adj, u, v, w);
    assert forall x :: x in after <==> x in adj;
  }

  /** Replacing an edge leaves every in-degree alone. */
  lemma ReplaceCount(directed: bool, adj: Adjacency, u: Vertex, v: Vertex, w: int, x: Vertex)
    requires WellFormed(adj) && (!directed ==> Symmetric(adj)) && v in adj && HasEdge(adj, u, v)
    ensures InDegree(WithEdge(directed, adj, u, v, w), directed, x) == InDegree(adj, directed, x)
  {
    var after: Adjacency := WithEdge(directed, adj, u, v, w);
    WithEdgeWeights(directed, adj, u, v, w);
    assert !directed ==> HasEdge(adj, v, u);
    assert forall y :: HasEdge(after, y, x) == HasEdge(adj, y, x);
    assert Sources(after, x) == Sources(adj, x);
  }

  lemma ReplaceCounts(directed: bool, adj: Adjacency, incoming: map<Vertex, int>, u: Vertex, v: Vertex, w: int)
    requires WellFormed(adj) && (!directed ==> Symmetric(adj)) && CountsExact(directed, adj, incoming)
    requires HasEdge(adj, u, v) && v in adj
    ensures CountsExact(directed, WithEdge(directed, adj, u, v, w), incoming)
  {
    forall x { ReplaceCount(directed, adj, u, v, w, x); }
  }

  /** A new arc adds one source to its target. */
  lemma NewArcCount(adj: Adjacency, u: Vertex, v: Vertex, w: int, x: Vertex)
    requires WellFormed(adj) && u in adj && v in adj && !HasEdge(adj, u, v)
    ensures |Sources(WithArc(adj, u, v, w), x)| == |Sources(adj, x)| + if x == v then 1 else 0
  {
    WithArcSources(adj, u, v, w, x);
    assert u !in Sources(adj, v);
  }

  lemma AddDirectedCounts(adj: Adjacency, incoming: map<Vertex, int>, u: Vertex, v: Vertex, w: int)
    requires WellFormed(adj) && CountsExact(true, adj, incoming) && u in adj && v in adj && !HasEdge(adj, u, v)
    ensures CountsExact(true, WithArc(adj, u, v, w), incoming[v := incoming[v] + 1])
  {
    forall x ensures InDegree(WithArc(adj, u, v, w), true, x) == InDegree(adj, true, x) + if x == v then 1 else 0 {
      NewArcCount(adj, u, v, w, x);
    }
  }

  /** A new undirected edge adds one at each end, twice at the same node for a self-loop. */
  lemma NewEdgeCount(adj: Adjacency, u: Vertex, v: Vertex, w: int, x: Vertex)
    requires WellFormed(adj) && Symmetric(adj) && u in adj && v in adj && !HasEdge(adj, u, v)
    ensures InDegree(WithEdge(false, adj, u, v, w), false, x)
         == InDegree(adj, false, x) + (if x == u then 1 else 0) + (if x == v then 1 else 0)
  {
    var mid: Adjacency := WithArc(adj, u, v, w);
    NewArcCount(adj, u, v, w, x);
    WithArcFacts(adj, u, v, w);
    WithEdgeWeights(false, adj, u, v, w);
    assert Weight(adj, v, u) == None;
    if u == v {
      WithArcSources(mid, v, u, w, x);
      WithArcSources(adj, u, v, w, x);
      assert Sources(WithArc(mid, v, u, w), x) == Sources(mid, x);
    } else {
      NewArcCount(mid, v, u, w, x);
    }
  }

  lemma AddUndirectedCounts(adj: Adjacency, incoming: map<Vertex, int>, u: Vertex, v: Vertex, w: int)
    requires WellFormed(adj) && Symmetric(adj) && CountsExact(false, adj, incoming)
    requires u in adj && v in adj && !HasEdge(adj, u, v)
    ensures var once := incoming[v := incoming[v] + 1];
            CountsExact(false, WithEdge(false, adj, u, v, w), once[u := once[u] + 1])
  {
    forall x { NewEdgeCount(adj, u, v, w, x); }
  }

  // ---------- One edge less ----------

  function WithoutArc(adj: Adjacency, u: Vertex, v: Vertex): Adjacency {
    if u in adj then adj[u := Drop(adj[u], v)] else adj
  }

  /** Only the list of u changes: the edge to v goes and those behind it move up. */
  lemma WithoutArcPlaces(adj: Adjacency, u: Vertex, v: Vertex)
    ensures var after := WithoutArc(adj, u, v);
      && after.Keys == adj.Keys && (forall x :: x in adj && x != u ==> after[x] == adj[x])
      && (!HasEdge(adj, u, v) ==> after == adj)
      && (HasEdge(adj, u, v) ==> exists k: nat :: FirstTo(adj[u], k, v) && after[u] == adj[u][..k] + adj[u][k + 1..])
  {
    if u in adj {
      DropPlaces(adj[u], v);
      FindIffTarget(adj[u], v);
    }
  }

  function WithoutEdge(directed: bool, adj: Adjacency, u: Vertex, v: Vertex): Adjacency {
    if directed then WithoutArc(adj, u, v) else WithoutArc(WithoutArc(adj, u, v), v, u)
  }

  lemma {:induction false} DropMembers(es: seq<Edge>, to: Vertex)
    ensures forall i :: 0 <= i < |Drop(es, to)| ==> Drop(es, to)[i] in es
  {
    if es != [] && es[0].to != to {
      DropMembers(es[1..], to);
    }
  }

  lemma WithoutArcFacts(adj: Adjacency, u: Vertex, v: Vertex)
    requires WellFormed(adj)
    ensures var after := WithoutArc(adj, u, v);
            && WellFormed(after) && after.Keys == adj.Keys
            && forall x, y :: Weight(after, x, y) == if x == u && y == v then None else Weight(adj, x, y)
  {
    var after: Adjacency := WithoutArc(adj, u, v);
    if u in adj {
      DropTargets(adj[u], v, v);
      DropMembers(adj[u], v);
      forall x, y ensures Weight(after, x, y) == if x == u && y == v then None else Weight(adj, x, y) {
        DropTargets(adj[u], v, y);
      }
    }
  }

  lemma WithoutAbsentArc(adj: Adjacency, u: Vertex, v: Vertex)
    requires !HasEdge(adj, u, v)
    ensures WithoutArc(adj, u, v) == adj
  {
    if u in adj {
      DropAbsent(adj[u], v);
    }
  }

  lemma WithoutArcSources(adj: Adjacency, u: Vertex, v: Vertex, x: Vertex)
    requires WellFormed(adj)
    ensures Sources(WithoutArc(adj, u, v), x) == if x == v then Sources(adj, v) - {u} else Sources(adj, x)
  {
    WithoutArcFacts(adj, u, v);
    var after: Adjacency := WithoutArc(adj, u, v);
    assert forall y :: y in after ==> (HasEdge(after, y, x) <==> HasEdge(adj, y, x) && !(y == u && x == v));
  }

  lemma WithoutEdgeWeights(directed: bool, adj: Adjacency, u: Vertex, v: Vertex)
    requires WellFormed(adj)
    ensures var after := WithoutEdge(directed, adj, u, v);
            && WellFormed(after) && after.Keys == adj.Keys
            && forall x, y :: Weight(after, x, y) ==
                 if (x == u && y == v) || (!directed && x == v && y == u) then None else Weight(adj, x, y)
  {
    WithoutArcFacts(adj, u, v);
    if !directed {
      WithoutArcFacts(WithoutArc(adj, u, v), v, u);
    }
  }

  lemma WithoutEdgeKeys(directed: bool, adj: Adjacency, u: Vertex, v: Vertex)
    ensures WithoutEdge(directed, adj, u, v).Keys == adj.Keys
  {
  }

  lemma WithoutEdgeConsistent(directed: bool, nodes: seq<Vertex>, adj: Adjacency, u: Vertex, v: Vertex)
    requires Consistent(directed, nodes, adj)
    ensures Consistent(directed, nodes, WithoutEdge(directed, adj, u, v))
  {
    WithoutEdgeWeights(directed, adj, u, v);
    var after: Adjacency := WithoutEdge(directed, adj, u, v);
    assert forall x :: x in after <==> x in adj;
  }

  lemma LostArcCount(adj: Adjacency, u: Vertex, v: Vertex, x: Vertex)
    requires WellFormed(adj) && HasEdge(adj, u, v)
    ensures |Sources(WithoutArc(adj, u, v), x)| == |Sources(adj, x)| - if x == v then 1 else 0
  {
    WithoutArcSources(adj, u, v, x);
    assert u in Sources(adj, v);
  }

  lemma RemoveDirectedCounts(adj: Adjacency, incoming: map<Vertex, int>, u: Vertex, v: Vertex)
    requires WellFormed(adj) && CountsExact(true, adj, incoming) && v in adj && HasEdge(adj, u, v)
    ensures CountsExact(true, WithoutArc(adj, u, v), incoming[v := incoming[v] - 1])
  {
    forall x ensures InDegree(WithoutArc(adj, u, v), true, x) == InDegree(adj, true, x) - if x == v then 1 else 0 {
      LostArcCount(adj, u, v, x);
    }
  }

  lemma LostEdgeCount(adj: Adjacency, u: Vertex, v: Vertex, x: Vertex)
    requires WellFormed(adj) && Symmetric(adj) && u in adj && v in adj && HasEdge(adj, u, v)
    ensures InDegree(WithoutEdge(false, adj, u, v), false, x)
         == InDegree(adj, false, x) - (if x == u then 1 else 0) - (if x == v then 1 else 0)
  {
    var mid: Adjacency := WithoutArc(adj, u, v);
    LostArcCount(adj, u, v, x);
    WithoutArcFacts(adj, u, v);
    WithoutEdgeWeights(false, adj, u, v);
    assert Weight(adj, v, u).Some?;
    if u == v {
      WithoutArcSources(adj, u, v, x);
      WithoutArcSources(mid, v, u, x);
      assert Sources(WithoutArc(mid, v, u), x) == Sources(mid, x);
    } else {
      LostArcCount(mid, v, u, x);
    }
  }

  lemma RemoveUndirectedCounts(adj: Adjacency, incoming: map<Vertex, int>, u: Vertex, v: Vertex)
    requires WellFormed(adj) && Symmetric(adj) && CountsExact(false, adj, incoming)
    requires v in adj && HasEdge(adj, u, v)
    ensures var once := incoming[v := incoming[v] - 1];
            CountsExact(false, WithoutEdge(false, adj, u, v), once[u := once[u] - 1])
  {
    WithoutEdgeKeys(false, adj, u, v);
    forall x { LostEdgeCount(adj, u, v, x); }
  }

  // ---------- What the two methods keep ----------

  /** One more, or with step == -1 one less, at the ends of an edge. */
  function Counted(directed: bool, incoming: map<Vertex, int>, u: Vertex, v: Vertex, step: int): map<Vertex, int>
    requires u in incoming && v in incoming
  {
    var once := incoming[v := incoming[v] + step];
    if directed then once else once[u := once[u] + step]
  }

  lemma AddEdgeKeeps(directed: bool, nodes: seq<Vertex>, adj: Adjacency, incoming: map<Vertex, int>,
                     u: Vertex, v: Vertex, w: int)
    requires Consistent(directed, nodes, adj) && CountsExact(directed, adj, incoming) && u in adj && v in adj
    ensures Consistent(directed, nodes, WithEdge(directed, adj, u, v, w))
    ensures CountsExact(directed, WithEdge(directed, adj, u, v, w),
                        if HasEdge(adj, u, v) then incoming else Counted(directed, incoming, u, v, 1))
  {
    WithEdgeConsistent(directed, nodes, adj, u, v, w);
    if HasEdge(adj, u, v) {
      ReplaceCounts(directed, adj, incoming, u, v, w);
    } else if directed {
      AddDirectedCounts(adj, incoming, u, v, w);
    } else {
      AddUndirectedCounts(adj, incoming, u, v, w);
    }
  }

  lemma RemoveEdgeKeeps(directed: bool, nodes: seq<Vertex>, adj: Adjacency, incoming: map<Vertex, int>,
                        u: Vertex, v: Vertex)
    requires Consistent(directed, nodes, adj) && CountsExact(directed, adj, incoming)
    ensures Consistent(directed, nodes, WithoutEdge(directed, adj, u, v))
    ensures HasEdge(adj, u, v) ==>
              && u in incoming && v in incoming
              && CountsExact(directed, WithoutEdge(directed, adj, u, v), Counted(directed, incoming, u, v, -1))
    ensures !HasEdge(adj, u, v) ==> WithoutEdge(directed, adj, u, v) == adj
  {
    WithoutEdgeConsistent(directed, nodes, adj, u, v);
    if HasEdge(adj, u, v) {
      FindIffTarget(adj[u], v);
      if directed {
        RemoveDirectedCounts(adj, incoming, u, v);
      } else {
        RemoveUndirectedCounts(adj, incoming, u, v);
      }
    } else {
      WithoutAbsentArc(adj, u, v);
      if !directed && v in adj {
        if u in adj {
          assert Weight(adj, u, v) == Weight(adj, v, u);
        } else {
          FindIffTarget(adj[v], u);
        }
        WithoutAbsentArc(adj, v, u);
      }
    }
  }
}
