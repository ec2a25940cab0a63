/** Three-colour cycle detection in directed graphs. */
module Cycles {
  import opened GraphModel
  import opened Graphs
  import opened Sequences
  import opened Topo
  import opened Traverse

  datatype Colour = White | Grey | Black

  /** A missing entry is white. */
  function ColourOf(colour: map<Vertex, Colour>, v: Vertex): Colour {
    if v in colour then colour[v] else White
  }

  /** Everything an already finished node leads to was finished before it. */
  ghost predicate SuccessorsFirst(adj: Adjacency, finished: seq<Vertex>) {
    forall i, y :: 0 <= i < |finished| && HasEdge(adj, finished[i], y) ==> y in finished[..i]
  }

  /** Between two steps of the search: the grey nodes form the current path, and the black ones were
      finished in an order in which every edge leads backwards. */
  ghost predicate Searching(adj: Adjacency, colour: map<Vertex, Colour>, path: seq<Vertex>, finished: seq<Vertex>) {
    && Distinct(path) && Within(adj, path) && (path != [] ==> IsWalk(adj, path))
    && Distinct(finished) && Within(adj, finished) && SuccessorsFirst(adj, finished)
    && (forall v :: ColourOf(colour, v) == Grey <==> v in path)
    && (forall v :: ColourOf(colour, v) == Black <==> v in finished)
  }

  lemma Enter(adj: Adjacency, colour: map<Vertex, Colour>, path: seq<Vertex>, finished: seq<Vertex>, v: Vertex)
    requires Searching(adj, colour, path, finished) && v in adj && ColourOf(colour, v) == White
    requires path != [] ==> HasEdge(adj, path[|path| - 1], v)
    ensures Searching(adj, colour[v := Grey], path + [v], finished)
  {
    assert v !in path && v !in finished;
    var next := colour[v := Grey];
    assert forall x :: ColourOf(next, x) == if x == v then Grey else ColourOf(colour, x);
  }

  lemma Finish(adj: Adjacency, colour: map<Vertex, Colour>, path: seq<Vertex>, finished: seq<Vertex>, v: Vertex)
    requires Searching(adj, colour, path + [v], finished)
    requires forall y :: HasEdge(adj, v, y) ==> y in finished
    ensures Searching(adj, colour[v := Black], path, finished + [v])
  {
    var longer := path + [v];
    assert longer[|path|] == v;
    assert forall i :: 0 <= i < |path| ==> longer[i] == path[i];
    assert forall x :: x in longer <==> x in path || x == v;
    assert v !in path;
    assert ColourOf(colour, v) == Grey;
    var next := colour[v := Black];
    assert forall x :: ColourOf(next, x) == if x == v then Black else ColourOf(colour, x);
    var done := finished + [v];
    forall i, y | 0 <= i < |done| && HasEdge(adj, done[i], y) ensures y in done[..i] {
      if i < |finished| {
        assert done[..i] == finished[..i];
      } else {
        assert done[..i] == finished;
      }
    }
  }

  /** An edge from the end of the path back to a grey node closes a cycle. */
  lemma BackEdge(adj: Adjacency, path: seq<Vertex>, to: Vertex, k: nat)
    requires path != [] && IsWalk(adj, path) && Distinct(path) && HasEdge(adj, path[|path| - 1], to)
    requires k < |path| && path[k] == to && Within(adj, path)
    ensures IsCycle(adj, path[k..] + [to])
  {
    var c := path[k..] + [to];
    assert c[0] == to;
    forall i | 0 < i < |c| ensures HasEdge(adj, c[i - 1], c[i]) {
      assert c[i - 1] == path[k + i - 1];
      if i < |c| - 1 {
        assert c[i] == path[k + i];
      }
    }
    assert c[..|c| - 1] == path[k..];
  }

  lemma GreyEdge(adj: Adjacency, colour: map<Vertex, Colour>, path: seq<Vertex>, finished: seq<Vertex>, to: Vertex)
    requires Searching(adj, colour, path, finished) && path != [] && HasEdge(adj, path[|path| - 1], to)
    requires ColourOf(colour, to) == Grey
    ensures Cyclic(adj)
  {
    var k :| 0 <= k < |path| && path[k] == to;
    BackEdge(adj, path, to, k);
  }

  method IndexOf(path: seq<Vertex>, v: Vertex) returns (k: nat)
    requires v in path
    ensures k < |path| && path[k] == v
  {
    k := 0;
    while path[k] != v
      invariant k < |path| && v !in path[..k]
      decreases |path| - k
    {
      k := k + 1;
    }
  }

  /** The targets seen so far are finished. */
  ghost predicate Explored(edges: seq<Edge>, i: nat, finished: seq<Vertex>) {
    forall j :: 0 <= j < i && j < |edges| ==> edges[j].to in finished
  }

  /** When every node is finished, the finishing order backwards is topological. */
  lemma AllFinished(adj: Adjacency, finished: seq<Vertex>)
    requires WellFormed(adj) && Distinct(finished) && SuccessorsFirst(adj, finished)
    requires forall v :: v in finished <==> v in adj
    ensures !Cyclic(adj)
  {
    var order := seq(|finished|, i requires 0 <= i < |finished| => finished[|finished| - 1 - i]);
    forall v ensures v in order <==> v in adj {
      if v in finished {
        var i :| 0 <= i < |finished| && finished[i] == v;
        assert order[|finished| - 1 - i] == v;
      }
    }
    forall i, j | 0 <= i < |order| && 0 <= j < |order| && HasEdge(adj, order[i], order[j]) ensures i < j {
      var a, b := |finished| - 1 - i, |finished| - 1 - j;
      assert order[i] == finished[a] && order[j] == finished[b];
      var k :| 0 <= k < |finished[..a]| && finished[..a][k] == order[j];
      assert finished[k] == finished[b];
    }
    TopologicalIsAcyclic(adj, order);
  }

  /** The state HasCycle's closure shares. The path is only in the proof. */
  class ColourWalk {
    const adj: Adjacency
    var colour: map<Vertex, Colour>
    ghost var path: seq<Vertex>
    ghost var finished: seq<Vertex>

    constructor (adj: Adjacency)
      ensures this.adj == adj && Searching(adj, colour, path, finished) && path == [] && colour == map[]
    {
      this.adj := adj;
      colour := map[];
      path := [];
      finished := [];
    }

    method Walk(v: Vertex) returns (found: bool)
      requires WellFormed(adj) && Searching(adj, colour, path, finished)
      requires v in adj && ColourOf(colour, v) == White && (path != [] ==> HasEdge(adj, path[|path| - 1], v))
      modifies this
      ensures found ==> Cyclic(adj)
      ensures !found ==> Searching(adj, colour, path, finished)
      ensures !found ==> path == old(path) && old(finished) <= finished && v in finished
      decreases adj.Keys - Elements(path) - Elements(finished), 0
    {
      ghost var before, start := path, finished;
      Enter(adj, colour, path, finished, v);
      assert v !in before && v !in start;
      colour := colour[v := Grey];
      path := path + [v];
      var edges := adj[v];
      for i := 0 to |edges|
        invariant Searching(adj, colour, path, finished) && path == before + [v] && start <= finished
        invariant Explored(edges, i, finished)
      {
        FindIffTarget(edges, edges[i].to);
        Shrinks(adj, before, start, path, finished, v);
        found := Follow(edges[i].to);
        if found {
          return true;
        }
      }
      FinishedTargets(adj, v, finished);
      Finish(adj, colour, before, finished, v);
      colour := colour[v := Black];
      path := before;
      finished := finished + [v];
      found := false;
    }

    /** One edge from the end of the path. */
    method Follow(to: Vertex) returns (found: bool)
      requires WellFormed(adj) && Searching(adj, colour, path, finished)
      requires path != [] && HasEdge(adj, path[|path| - 1], to)
      modifies this
      ensures found ==> Cyclic(adj)
      ensures !found ==> Searching(adj, colour, path, finished)
      ensures !found ==> path == old(path) && old(finished) <= finished && to in finished
      decreases adj.Keys - Elements(path) - Elements(finished), 1
    {
      match ColourOf(colour, to)
      case Grey =>
        GreyEdge(adj, colour, path, finished, to);
        found := true;
      case White =>
        FindIffTarget(adj[path[|path| - 1]], to);
        found := Walk(to);
      case Black =>
        found := false;
    }
  }

  lemma Shrinks(adj: Adjacency, before: seq<Vertex>, start: seq<Vertex>, path: seq<Vertex>,
      finished: seq<Vertex>, v: Vertex)
    requires path == before + [v] && start <= finished && v in adj && v !in before && v !in start
    ensures adj.Keys - Elements(path) - Elements(finished) < adj.Keys - Elements(before) - Elements(start)
  {
    assert Elements(path) == Elements(before) + {v};
    assert Elements(start) <= Elements(finished);
    assert v in adj.Keys - Elements(before) - Elements(start);
    assert v !in adj.Keys - Elements(path) - Elements(finished);
  }

  lemma FinishedTargets(adj: Adjacency, v: Vertex, finished: seq<Vertex>)
    requires v in adj && Explored(adj[v], |adj[v]|, finished)
    ensures forall y :: HasEdge(adj, v, y) ==> y in finished
  {
    forall y | HasEdge(adj, v, y) ensures y in finished {
      FindIffTarget(adj[v], y);
    }
  }

  lemma CyclicIffClosedAlong(adj: Adjacency)
    requires WellFormed(adj)
    ensures Cyclic(adj) <==> exists c :: ClosedAlong(adj, c)
  {
    if Cyclic(adj) {
      CyclicAlongEdges(adj);
    }
    if c :| ClosedAlong(adj, c) {
      ClosedAlongIsClosedWalk(adj, c);
    }
  }

  method HasDirectedCycle(g: Graph) returns (r: bool)
    requires g.Valid() && g.directed
    ensures r <==> Cyclic(g.adj)
    ensures r <==> exists c :: ClosedAlong(g.adj, c)
  {
    CyclicIffClosedAlong(g.adj);
    var walk := new ColourWalk(g.adj);
    for i := 0 to |g.nodes|
      invariant Searching(g.adj, walk.colour, walk.path, walk.finished) && walk.path == []
      invariant forall j :: 0 <= j < i ==> g.nodes[j] in walk.finished
    {
      var v := g.nodes[i];
      if ColourOf(walk.colour, v) == White {
        r := walk.Walk(v);
        if r {
          return;
        }
      }
    }
    AllFinished(g.adj, walk.finished);
    r := false;
  }

  /** The state FindCycle's closure shares. */
  class PathWalk {
    const adj: Adjacency
    var colour: map<Vertex, Colour>
    var path: seq<Vertex>
    ghost var finished: seq<Vertex>

    constructor (adj: Adjacency)
      ensures this.adj == adj && Searching(adj, colour, path, finished) && path == [] && colour == map[]
    {
      this.adj := adj;
      colour := map[];
      path := [];
      finished := [];
    }

    method Walk(v: Vertex) returns (cycle: seq<Vertex>)
      requires WellFormed(adj) && Searching(adj, colour, path, finished)
      requires v in adj && ColourOf(colour, v) == White && (path != [] ==> HasEdge(adj, path[|path| - 1], v))
      modifies this
      ensures cycle != [] ==> IsCycle(adj, cycle)
      ensures cycle == [] ==> Searching(adj, colour, path, finished)
      ensures cycle == [] ==> path == old(path) && old(finished) <= finished && v in finished
      decreases adj.Keys - Elements(path) - Elements(finished), 0
    {
      ghost var before, start := path, finished;
      Enter(adj, colour, path, finished, v);
      assert v !in before && v !in start;
      colour := colour[v := Grey];
      path := path + [v];
      var edges := adj[v];
      for i := 0 to |edges|
        invariant Searching(adj, colour, path, finished) && path == before + [v] && start <= finished
        invariant Explored(edges, i, finished)
      {
        FindIffTarget(edges, edges[i].to);
        Shrinks(adj, before, start, path, finished, v);
        cycle := Follow(edges[i].to);
        if cycle != [] {
          return;
        }
      }
      FinishedTargets(adj, v, finished);
      Finish(adj, colour, before, finished, v);
      colour := colour[v := Black];
      path := path[..|path| - 1];
      finished := finished + [v];
      cycle := [];
    }

    /** One edge from the end of the path. */
    method Follow(to: Vertex) returns (cycle: seq<Vertex>)
      requires WellFormed(adj) && Searching(adj, colour, path, finished)
      requires path != [] && HasEdge(adj, path[|path| - 1], to)
      modifies this
      ensures cycle != [] ==> IsCycle(adj, cycle)
      ensures cycle == [] ==> Searching(adj, colour, path, finished)
      ensures cycle == [] ==> path == old(path) && old(finished) <= finished && to in finished
      decreases adj.Keys - Elements(path) - Elements(finished), 1
    {
      match ColourOf(colour, to)
      case Grey =>
        var k := IndexOf(path, to);
        BackEdge(adj, path, to, k);
        cycle := path[k..] + [to];
      case White =>
        FindIffTarget(adj[path[|path| - 1]], to);
        cycle := Walk(to);
      case Black =>
        cycle := [];
    }
  }

  /** The empty sequence stands for nil. */
  lemma CycleAlong(adj: Adjacency, c: seq<Vertex>)
    requires IsCycle(adj, c)
    ensures ClosedAlong(adj, c) && forall i, j :: 0 <= i < j < |c| - 1 ==> c[i] != c[j]
  {
    ClosedWalkAlongEdges(adj, c);
    var d := c[..|c| - 1];
    forall i, j | 0 <= i < j < |c| - 1 ensures c[i] != c[j] {
      assert d[i] == c[i] && d[j] == c[j];
    }
  }

  method FindCycle(g: Graph) returns (cycle: seq<Vertex>)
    requires g.Valid()
    ensures !g.directed ==> cycle == []
    ensures g.directed ==> (cycle == [] <==> !Cyclic(g.adj))
    ensures cycle != [] ==> IsCycle(g.adj, cycle)
    ensures cycle == [] && g.directed ==> forall c :: !ClosedAlong(g.adj, c)
    ensures cycle != [] ==> ClosedAlong(g.adj, cycle)
    ensures cycle != [] ==> forall i, j :: 0 <= i < j < |cycle| - 1 ==> cycle[i] != cycle[j]
  {
    CyclicIffClosedAlong(g.adj);
    if !g.directed {
      return [];
    }
    var walk := new PathWalk(g.adj);
    for i := 0 to |g.nodes|
      invariant Searching(g.adj, walk.colour, walk.path, walk.finished) && walk.path == []
      invariant forall j :: 0 <= j < i ==> g.nodes[j] in walk.finished
    {
      var v := g.nodes[i];
      if ColourOf(walk.colour, v) == White {
        cycle := walk.Walk(v);
        if cycle != [] {
          CycleAlong(g.adj, cycle);
          return;
        }
      }
    }
    AllFinished(g.adj, walk.finished);
    cycle := [];
  }
}
