/** Cycle detection in undirected graphs: a search that must only ever walk along tree edges. */
module UndirectedCycles {
  import Cycles
  import opened GraphModel
  import opened Graphs
  import opened Options
  import opened Sequences
  import Topo

  /** Distinct nodes, each adjacent to the next and the last to the first; an edge and its reverse are no cycle. */
  ghost predicate IsUndirectedCycle(adj: Adjacency, c: seq<Vertex>) {
    IsWalk(adj, c) && Distinct(c) && |c| != 2 && HasEdge(adj, c[|c| - 1], c[0])
  }

  ghost predicate HasUndirectedCycle(adj: Adjacency) {
    exists c :: IsUndirectedCycle(adj, c)
  }

  // ---------- The forest the search grows ----------

  /** What was visited, the nodes still being walked, who discovered whom, and how deep. */
  datatype Forest = Forest(visited: set<Vertex>, path: seq<Vertex>, parent: map<Vertex, Vertex>,
      depth: map<Vertex, nat>)

  ghost predicate IsParent(f: Forest, u: Vertex, v: Vertex) {
    v in f.parent && f.parent[v] == u
  }

  ghost predicate TreeEdge(f: Forest, u: Vertex, v: Vertex) {
    IsParent(f, u, v) || IsParent(f, v, u)
  }

  /** Once its walk is over, all the edges of a node are tree edges. */
  ghost predicate Settled(adj: Adjacency, f: Forest, u: Vertex) {
    u in f.visited && u !in f.path ==> forall v {:trigger HasEdge(adj, u, v)} :: HasEdge(adj, u, v) ==>
        v in f.visited && TreeEdge(f, u, v)
  }

  /** Parents are higher up than their children. */
  ghost predicate Hangs(f: Forest, v: Vertex) {
    v in f.parent ==> v in f.depth && f.parent[v] in f.depth && f.depth[f.parent[v]] < f.depth[v]
  }

  /** The nodes being walked hang one below the other. */
  ghost predicate Chain(adj: Adjacency, f: Forest) {
    && Distinct(f.path)
    && (f.path != [] ==> IsWalk(adj, f.path) && f.path[0] !in f.parent)
    && (forall i {:trigger f.path[i]} :: 0 <= i < |f.path| ==> f.path[i] in f.depth && f.depth[f.path[i]] == i)
    && (forall i {:trigger f.path[i]} :: 0 < i < |f.path| ==> IsParent(f, f.path[i - 1], f.path[i]))
  }

  ghost predicate Growing(adj: Adjacency, f: Forest) {
    && f.visited <= adj.Keys && f.depth.Keys == f.visited && f.parent.Keys <= f.visited
    && Chain(adj, f)
    && (forall u {:trigger Settled(adj, f, u)} :: Settled(adj, f, u))
    && (forall u {:trigger Hangs(f, u)} :: Hangs(f, u))
  }

  /** The walk goes on to v, from the end of the path. */
  ghost function Entered(f: Forest, v: Vertex): Forest {
    Forest(f.visited + {v}, f.path + [v],
           if f.path == [] then f.parent else f.parent[v := f.path[|f.path| - 1]],
           f.depth[v := |f.path|])
  }

  ghost function Left(f: Forest): Forest
    requires f.path != []
  {
    f.(path := f.path[..|f.path| - 1])
  }

  /** The edges before the i-th lead to visited nodes along tree edges; no other node was discovered from here. */
  ghost predicate Scanned(f: Forest, v: Vertex, edges: seq<Edge>, i: nat) {
    && i <= |edges|
    && (forall k {:trigger edges[k]} :: 0 <= k < i ==> edges[k].to in f.visited && TreeEdge(f, v, edges[k].to))
    && (forall u {:trigger IsParent(f, v, u)} :: IsParent(f, v, u) ==> HasTarget(edges[..i], u))
  }

  /** What a walk over v may add: v below the path, everything else below what it added itself. */
  ghost predicate Grown(f: Forest, g: Forest, v: Vertex) {
    && f.visited + {v} <= g.visited
    && (forall u {:trigger u in g.parent} :: u in f.visited ==> (u in g.parent <==> u in f.parent))
    && (forall u {:trigger g.parent[u]} :: u in f.visited && u in f.parent ==>
          u in g.parent && g.parent[u] == f.parent[u])
    && (f.path == [] ==> v !in g.parent)
    && (f.path != [] ==> IsParent(g, f.path[|f.path| - 1], v))
    && (forall u {:trigger g.parent[u]} :: u in g.parent && u !in f.visited && u != v ==> g.parent[u] !in f.visited)
    && (forall u {:trigger u in f.depth} :: u in f.depth ==> u in g.depth && g.depth[u] == f.depth[u])
  }

  lemma LongerChain(adj: Adjacency, f: Forest, v: Vertex)
    requires Growing(adj, f) && v in adj && v !in f.visited
    requires f.path != [] ==> HasEdge(adj, f.path[|f.path| - 1], v)
    ensures Chain(adj, Entered(f, v))
  {
    var g, n := Entered(f, v), |f.path|;
    assert g.path[n] == v && forall i :: 0 <= i < n ==> g.path[i] == f.path[i];
    forall i {:trigger f.path[i]} | 0 <= i < n ensures f.path[i] != v {
      assert f.path[i] in f.depth;
    }
    forall i {:trigger g.path[i]} | 0 < i < |g.path| ensures IsParent(g, g.path[i - 1], g.path[i]) {
      if i < n {
        assert IsParent(f, f.path[i - 1], f.path[i]);
      }
    }
    if n > 0 {
      forall i {:trigger g.path[i]} | 0 < i < |g.path| ensures HasEdge(adj, g.path[i - 1], g.path[i]) {
        if i < n {
          assert HasEdge(adj, f.path[i - 1], f.path[i]);
        }
      }
    }
  }

  lemma EnteredGrows(adj: Adjacency, f: Forest, v: Vertex)
    requires WellFormed(adj) && Growing(adj, f) && v in adj && v !in f.visited
    requires f.path != [] ==> HasEdge(adj, f.path[|f.path| - 1], v)
    ensures Growing(adj, Entered(f, v)) && Scanned(Entered(f, v), v, adj[v], 0)
  {
    var g := Entered(f, v);
    LongerChain(adj, f, v);
    forall u ensures Settled(adj, g, u) {
      EnteredSettled(adj, f, v, u);
    }
    forall u ensures Hangs(g, u) {
      assert Hangs(f, u);
      assert f.path != [] ==> f.path[|f.path| - 1] in f.depth;
    }
    forall u ensures !IsParent(g, v, u) {
      assert Hangs(f, u);
    }
  }

  lemma EnteredSettled(adj: Adjacency, f: Forest, v: Vertex, u: Vertex)
    requires Growing(adj, f) && v in adj && v !in f.visited
    ensures Settled(adj, Entered(f, v), u)
  {
    var g := Entered(f, v);
    assert Settled(adj, f, u);
    assert u in f.path ==> u in g.path;
    assert v == g.path[|f.path|];
    if u in f.visited && u !in f.path {
      forall w {:trigger HasEdge(adj, u, w)} | HasEdge(adj, u, w) ensures TreeEdge(g, u, w) {
        assert TreeEdge(f, u, w);
      }
    }
  }

  lemma ShorterChain(adj: Adjacency, f: Forest)
    requires f.path != [] && Chain(adj, f)
    ensures Chain(adj, Left(f))
  {
    var g := Left(f);
    assert forall i :: 0 <= i < |g.path| ==> g.path[i] == f.path[i];
  }

  lemma AllTreeEdges(adj: Adjacency, f: Forest, v: Vertex)
    requires v in adj && Scanned(f, v, adj[v], |adj[v]|)
    ensures forall w {:trigger HasEdge(adj, v, w)} :: HasEdge(adj, v, w) ==> w in f.visited && TreeEdge(f, v, w)
  {
    forall w | HasEdge(adj, v, w) ensures w in f.visited && TreeEdge(f, v, w) {
      FindIffTarget(adj[v], w);
    }
  }

  lemma LeftSettled(adj: Adjacency, f: Forest, u: Vertex)
    requires f.path != [] && Settled(adj, f, u)
    requires var v := f.path[|f.path| - 1];
      forall w {:trigger HasEdge(adj, v, w)} :: HasEdge(adj, v, w) ==> w in f.visited && TreeEdge(f, v, w)
    ensures Settled(adj, Left(f), u)
  {
    if u in f.path && u != f.path[|f.path| - 1] {
      var k :| 0 <= k < |f.path| && f.path[k] == u;
      assert Left(f).path[k] == u;
    }
  }

  /** With every edge of the last node scanned, its walk is over. */
  lemma LeftGrows(adj: Adjacency, f: Forest)
    requires Growing(adj, f) && f.path != []
    requires var v := f.path[|f.path| - 1]; v in adj && Scanned(f, v, adj[v], |adj[v]|)
    ensures Growing(adj, Left(f))
  {
    var g := Left(f);
    ShorterChain(adj, f);
    AllTreeEdges(adj, f, f.path[|f.path| - 1]);
    forall u ensures Settled(adj, g, u) {
      LeftSettled(adj, f, u);
    }
    forall u ensures Hangs(g, u) {
      assert Hangs(f, u);
    }
  }

  /** While v is being walked: grown so far, with v at the end of the path and i of its edges scanned. */
  ghost predicate Walking(adj: Adjacency, f: Forest, g: Forest, v: Vertex, i: nat) {
    && v in adj && Growing(adj, g) && Grown(f, g, v)
    && g.path == f.path + [v] && Scanned(g, v, adj[v], i)
  }

  lemma StartWalking(adj: Adjacency, f: Forest, v: Vertex)
    requires WellFormed(adj) && Growing(adj, f) && v in adj && v !in f.visited
    requires f.path != [] ==> HasEdge(adj, f.path[|f.path| - 1], v)
    ensures Walking(adj, f, Entered(f, v), v, 0)
  {
    EnteredGrows(adj, f, v);
    var g := Entered(f, v);
    assert f.path != [] ==> IsParent(g, f.path[|f.path| - 1], v);
  }

  lemma StopWalking(adj: Adjacency, f: Forest, g: Forest, v: Vertex)
    requires v in adj && Walking(adj, f, g, v, |adj[v]|)
    ensures Growing(adj, Left(g)) && Grown(f, Left(g), v) && Left(g).path == f.path
  {
    LeftGrows(adj, g);
  }

  lemma KeepWalking(adj: Adjacency, f: Forest, g: Forest, h: Forest, v: Vertex, i: nat)
    requires v in adj && i < |adj[v]| && Walking(adj, f, g, v, i) && v !in f.visited
    requires var u := adj[v][i].to; u !in g.visited && Growing(adj, h) && Grown(g, h, u) && h.path == g.path
    ensures Walking(adj, f, h, v, i + 1)
  {
    ScannedOne(adj, g, h, v, i);
    assert f.path != [] ==> IsParent(g, f.path[|f.path| - 1], v);
  }

  lemma SkipBack(adj: Adjacency, f: Forest, g: Forest, v: Vertex, i: nat)
    requires v in adj && i < |adj[v]| && Walking(adj, f, g, v, i)
    requires f.path != [] && adj[v][i].to == f.path[|f.path| - 1]
    ensures Walking(adj, f, g, v, i + 1)
  {
    var last := |f.path| - 1;
    assert g.path[last] == f.path[last] && g.path[last + 1] == v;
    ScannedBack(adj, g, v, i);
  }

  lemma MeetVisited(adj: Adjacency, f: Forest, g: Forest, v: Vertex, i: nat)
    requires WellFormed(adj) && Symmetric(adj) && v in adj && i < |adj[v]| && Walking(adj, f, g, v, i)
    requires adj[v][i].to in g.visited && (f.path != [] ==> adj[v][i].to != f.path[|f.path| - 1])
    ensures HasUndirectedCycle(adj)
  {
    var u := adj[v][i].to;
    FindIffTarget(adj[v], u);
    NotYetAChild(adj, g, v, i);
    assert !IsParent(g, u, v);
    VisitedIsOnPath(adj, g, v, u);
    ClosesCycle(adj, g, u);
  }

  /** Back at v, one more of its edges is scanned. */
  lemma ScannedOne(adj: Adjacency, f: Forest, g: Forest, v: Vertex, i: nat)
    requires v in adj && i < |adj[v]| && Scanned(f, v, adj[v], i) && f.path != [] && f.path[|f.path| - 1] == v
    requires adj[v][i].to !in f.visited && Grown(f, g, adj[v][i].to) && v in f.visited && f.parent.Keys <= f.visited
    ensures Scanned(g, v, adj[v], i + 1)
  {
    var edges, next := adj[v], i + 1;
    forall k {:trigger edges[k]} | 0 <= k < next ensures edges[k].to in g.visited && TreeEdge(g, v, edges[k].to) {
      if k < i {
        assert TreeEdge(f, v, edges[k].to);
      }
    }
    forall u | IsParent(g, v, u) ensures HasTarget(edges[..next], u) {
      if u == edges[i].to {
        assert edges[..next][i].to == u;
      } else {
        assert u in f.visited && IsParent(f, v, u);
        var k :| 0 <= k < |edges[..i]| && edges[..i][k].to == u;
        assert edges[..next][k].to == u;
      }
    }
  }

  /** The edge back to where v was discovered from is a tree edge, and nothing new. */
  lemma ScannedBack(adj: Adjacency, f: Forest, v: Vertex, i: nat)
    requires v in adj && i < |adj[v]| && Scanned(f, v, adj[v], i) && IsParent(f, adj[v][i].to, v) &&
        adj[v][i].to in f.visited
    ensures Scanned(f, v, adj[v], i + 1)
  {
    var edges, next := adj[v], i + 1;
    forall u | IsParent(f, v, u) ensures HasTarget(edges[..next], u) {
      var k :| 0 <= k < |edges[..i]| && edges[..i][k].to == u;
      assert edges[..next][k].to == u;
    }
  }

  /** Nobody was discovered along an edge not scanned yet. */
  lemma NotYetAChild(adj: Adjacency, f: Forest, v: Vertex, i: nat)
    requires WellFormed(adj) && v in adj && i < |adj[v]| && Scanned(f, v, adj[v], i)
    ensures !IsParent(f, v, adj[v][i].to)
  {
    var edges := adj[v];
    assert forall k :: 0 <= k < i ==> edges[..i][k].to != edges[i].to;
  }

  /** A visited node that v did not come from can only be one that is still being walked. */
  lemma VisitedIsOnPath(adj: Adjacency, f: Forest, v: Vertex, u: Vertex)
    requires Symmetric(adj) && Growing(adj, f) && v in adj && HasEdge(adj, v, u)
    requires u in f.visited && !IsParent(f, u, v) && !IsParent(f, v, u)
    ensures u in f.path
  {
    assert Weight(adj, v, u) == Weight(adj, u, v);
    assert Settled(adj, f, u) && HasEdge(adj, u, v);
  }

  lemma SuffixIsWalk(adj: Adjacency, p: seq<Vertex>, k: nat)
    requires IsWalk(adj, p) && k < |p| && p[k] in adj && Distinct(p)
    ensures IsWalk(adj, p[k..]) && Distinct(p[k..])
  {
    var c := p[k..];
    forall i {:trigger c[i]} | 0 < i < |c| ensures HasEdge(adj, c[i - 1], c[i]) {
      assert c[i] == p[k + i] && c[i - 1] == p[k + i - 1];
    }
  }

  /** Such a node closes a cycle. */
  lemma ClosesCycle(adj: Adjacency, f: Forest, u: Vertex)
    requires Growing(adj, f) && f.path != [] && u in f.path && HasEdge(adj, f.path[|f.path| - 1], u)
    requires !IsParent(f, u, f.path[|f.path| - 1])
    ensures HasUndirectedCycle(adj)
  {
    var last := |f.path| - 1;
    var k :| 0 <= k < |f.path| && f.path[k] == u;
    SuffixIsWalk(adj, f.path, k);
    var c := f.path[k..];
    assert c[|c| - 1] == f.path[last] && c[0] == u;
    assert last > 0 ==> IsParent(f, f.path[last - 1], f.path[last]);
    assert IsUndirectedCycle(adj, c);
  }

  // ---------- A whole forest of tree edges has no cycle ----------

  lemma {:induction false} Deepest(depth: map<Vertex, nat>, c: seq<Vertex>) returns (m: nat)
    requires c != [] && forall i :: 0 <= i < |c| ==> c[i] in depth
    ensures m < |c| && forall i :: 0 <= i < |c| ==> depth[c[i]] <= depth[c[m]]
  {
    m := |c| - 1;
    if |c| > 1 {
      var k := Deepest(depth, c[..|c| - 1]);
      if depth[c[m]] < depth[c[k]] {
        m := k;
      }
      assert forall i :: 0 <= i < |c| - 1 ==> c[i] == c[..|c| - 1][i];
    }
  }

  /** From the deepest node of a cycle both ways lead up, to the same parent. */
  lemma BothLeadUp(f: Forest, m: Vertex, u: Vertex, w: Vertex)
    requires TreeEdge(f, m, u) && TreeEdge(f, m, w) && Hangs(f, u) && Hangs(f, w)
    requires m in f.depth && u in f.depth && w in f.depth && f.depth[u] <= f.depth[m] && f.depth[w] <= f.depth[m]
    ensures u == w
  {
  }

  lemma WalkIsInside(adj: Adjacency, c: seq<Vertex>, i: nat)
    requires WellFormed(adj) && IsWalk(adj, c) && i < |c|
    ensures c[i] in adj
  {
    if i > 0 {
      assert HasEdge(adj, c[i - 1], c[i]);
      EdgeStaysInside(adj, c[i - 1], c[i]);
    }
  }

  lemma NoLoopInForest(f: Forest, m: Vertex)
    requires Hangs(f, m)
    ensures !TreeEdge(f, m, m)
  {
  }

  lemma ForestHasNoCycle(adj: Adjacency, f: Forest)
    requires WellFormed(adj) && Symmetric(adj) && Growing(adj, f) && f.path == [] && f.visited == adj.Keys
    ensures !HasUndirectedCycle(adj)
  {
    forall c ensures !IsUndirectedCycle(adj, c) {
      NoCycleInForest(adj, f, c);
    }
  }

  lemma NoCycleInForest(adj: Adjacency, f: Forest, c: seq<Vertex>)
    requires WellFormed(adj) && Symmetric(adj) && Growing(adj, f) && f.path == [] && f.visited == adj.Keys
    ensures !IsUndirectedCycle(adj, c)
  {
    if IsUndirectedCycle(adj, c) {
      forall i | 0 <= i < |c| ensures c[i] in f.depth {
        WalkIsInside(adj, c, i);
      }
      var m := Deepest(f.depth, c);
      var x, before, after := c[m], c[if m == 0 then |c| - 1 else m - 1], c[if m == |c| - 1 then 0 else m + 1];
      assert HasEdge(adj, before, x) && HasEdge(adj, x, after);
      assert Weight(adj, before, x) == Weight(adj, x, before);
      assert HasEdge(adj, x, before) && Settled(adj, f, x);
      assert Hangs(f, before) && Hangs(f, after) && Hangs(f, x);
      NoLoopInForest(f, x);
      BothLeadUp(f, x, before, after);
    }
  }

  /** The state hasUndirectedCycle's closure shares. The forest is only in the proof. */
  class PlainWalk {
    const adj: Adjacency
    var visited: set<Vertex>
    ghost var forest: Forest

    ghost predicate Valid()
      reads this
    {
      WellFormed(adj) && Symmetric(adj) && Growing(adj, forest) && forest.visited == visited
    }

    constructor (adj: Adjacency)
      requires WellFormed(adj) && Symmetric(adj)
      ensures Valid() && this.adj == adj && visited == {} && forest.path == []
    {
      this.adj := adj;
      visited := {};
      forest := Forest({}, [], map[], map[]);
    }

    method Walk(v: Vertex, from: Option<Vertex>) returns (found: bool)
      requires Valid() && v in adj && v !in visited
      requires from == if forest.path == [] then None else Some(forest.path[|forest.path| - 1])
      requires from.Some? ==> HasEdge(adj, from.value, v)
      modifies this
      ensures found ==> HasUndirectedCycle(adj)
      ensures !found ==> Valid() && Grown(old(forest), forest, v) && forest.path == old(forest).path
      decreases adj.Keys - visited, 0
    {
      ghost var start := forest;
      Enter(v);
      for i := 0 to |adj[v]|
        invariant Valid() && start.visited < visited && Walking(adj, start, forest, v, i)
      {
        found := Follow(v, i, from, start);
        if found {
          return;
        }
      }
      Leave(v, start);
      found := false;
    }

    method Enter(v: Vertex)
      requires Valid() && v in adj && v !in visited
      requires forest.path != [] ==> HasEdge(adj, forest.path[|forest.path| - 1], v)
      modifies this
      ensures Valid() && visited == old(visited) + {v} && Walking(adj, old(forest), forest, v, 0)
    {
      StartWalking(adj, forest, v);
      visited := visited + {v};
      forest := Entered(forest, v);
    }

    /** Only the proof notices that the walk over v has ended. */
    ghost method Leave(v: Vertex, start: Forest)
      requires Valid() && v in adj && Walking(adj, start, forest, v, |adj[v]|)
      modifies this`forest
      ensures Valid() && Grown(start, forest, v) && forest.path == start.path
    {
      StopWalking(adj, start, forest, v);
      forest := Left(forest);
    }

    /** One edge: the one just arrived on is skipped, a visited node closes a cycle, any other is walked. */
    method Follow(v: Vertex, i: nat, from: Option<Vertex>, ghost start: Forest) returns (found: bool)
      requires Valid() && v in adj && i < |adj[v]| && v !in start.visited && Walking(adj, start, forest, v, i)
      requires from == if start.path == [] then None else Some(start.path[|start.path| - 1])
      modifies this
      ensures found ==> HasUndirectedCycle(adj)
      ensures !found ==> Valid() && old(visited) <= visited && Walking(adj, start, forest, v, i + 1)
      decreases adj.Keys - visited, 1
    {
      var u := adj[v][i].to;
      FindIffTarget(adj[v], u);
      ghost var now := forest;
      if from == Some(u) {
        SkipBack(adj, start, now, v, i);
        return false;
      }
      if u in visited {
        MeetVisited(adj, start, now, v, i);
        return true;
      }
      found := Walk(u, Some(v));
      if !found {
        KeepWalking(adj, start, now, forest, v, i);
      }
    }
  }

  method DetectUndirectedCycle(g: Graph) returns (r: bool)
    requires g.Valid() && !g.directed
    ensures r <==> HasUndirectedCycle(g.adj)
  {
    var walk := new PlainWalk(g.adj);
    for i := 0 to |g.nodes|
      invariant walk.Valid() && walk.adj == g.adj && walk.forest.path == []
      invariant forall j :: 0 <= j < i ==> g.nodes[j] in walk.visited
    {
      var v := g.nodes[i];
      if v !in walk.visited {
        r := walk.Walk(v, None);
        if r {
          return;
        }
      }
    }
    assert walk.visited == g.adj.Keys;
    ForestHasNoCycle(g.adj, walk.forest);
    r := false;
  }

  /** The source's question, for both kinds of graph. */
  method HasCycle(g: Graph) returns (r: bool)
    requires g.Valid()
    ensures r <==> if g.directed then Topo.Cyclic(g.adj) else HasUndirectedCycle(g.adj)
  {
    if !g.directed {
      r := DetectUndirectedCycle(g);
    } else {
      r := Cycles.HasDirectedCycle(g);
    }
  }
}
