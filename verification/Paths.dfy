/** Shortest paths: Dijkstra's algorithm with lazily deleted heap entries, and breadth-first distances. */
module Paths {
  import opened GraphModel
  import opened Graphs
  import opened Sequences

  // ---------- Weights of walks ----------

  function EdgeWeight(adj: Adjacency, u: Vertex, v: Vertex): int {
    match Weight(adj, u, v)
    case Some(w) => w
    case None => 0
  }

  function WalkWeight(adj: Adjacency, p: seq<Vertex>): int {
    if |p| < 2 then 0 else EdgeWeight(adj, p[0], p[1]) + WalkWeight(adj, p[1..])
  }

  /** One more edge adds the weight that stands in the list. */
  lemma OneEdgeMore(adj: Adjacency, p: seq<Vertex>, k: nat)
    requires WellFormed(adj) && p != [] && p[|p| - 1] in adj && k < |adj[p[|p| - 1]]|
    ensures var e := adj[p[|p| - 1]][k];
      WalkWeight(adj, p + [e.to]) == WalkWeight(adj, p) + e.weight && WalkWeight(adj, p[..1]) == 0
  {
    var u := p[|p| - 1];
    WeightOfExtended(adj, p, adj[u][k].to);
    FindIffTarget(adj[u], adj[u][k].to);
    var i :| 0 <= i < |adj[u]| && adj[u][i] == Edge(adj[u][k].to, EdgeWeight(adj, u, adj[u][k].to));
    assert i == k;
  }

  ghost predicate Joins(adj: Adjacency, p: seq<Vertex>, u: Vertex, v: Vertex) {
    IsWalk(adj, p) && p[0] == u && p[|p| - 1] == v
  }

  /** d is the least weight of a walk from u to v, and is attained. */
  ghost predicate Distance(adj: Adjacency, u: Vertex, v: Vertex, d: int) {
    && (exists p :: Joins(adj, p, u, v) && WalkWeight(adj, p) == d)
    && (forall p :: Joins(adj, p, u, v) ==> WalkWeight(adj, p) >= d)
  }

  lemma DistanceIsUnique(adj: Adjacency, u: Vertex, v: Vertex, d: int, e: int)
    requires Distance(adj, u, v, d) && Distance(adj, u, v, e)
    ensures d == e
  {
  }

  lemma {:induction false} WeightOfExtended(adj: Adjacency, p: seq<Vertex>, v: Vertex)
    requires p != []
    ensures WalkWeight(adj, p + [v]) == WalkWeight(adj, p) + EdgeWeight(adj, p[|p| - 1], v)
  {
    if |p| == 1 {
      assert (p + [v])[1..] == [v];
    } else {
      assert (p + [v])[1..] == p[1..] + [v];
      WeightOfExtended(adj, p[1..], v);
    }
  }

  lemma ShortenWalk(adj: Adjacency, p: seq<Vertex>)
    requires IsWalk(adj, p) && |p| > 1
    ensures var q := p[..|p| - 1];
            && IsWalk(adj, q) && HasEdge(adj, q[|q| - 1], p[|p| - 1])
            && WalkWeight(adj, p) == WalkWeight(adj, q) + EdgeWeight(adj, q[|q| - 1], p[|p| - 1])
  {
    var last := |p| - 1;
    var q := p[..last];
    assert forall i :: 0 <= i < |q| ==> q[i] == p[i];
    assert HasEdge(adj, p[last - 1], p[last]);
    assert p == q + [p[last]];
    WeightOfExtended(adj, q, p[last]);
  }

  // ---------- The state of the search ----------

  datatype Item = Item(node: Vertex, dist: int)

  /** What one round of the search works on. `order` lists the finished nodes in the order they were finished. */
  datatype Search = Search(dist: map<Vertex, int>, parent: map<Vertex, Vertex>, pq: multiset<Item>,
      order: seq<Vertex>)

  /** An entry of the queue is at or above the tentative distance of its node. */
  ghost predicate EntryOk(s: Search, it: Item) {
    it in s.pq ==> it.node in s.dist && s.dist[it.node] <= it.dist
  }

  /** A distance is not negative, and an unfinished node with a distance has an entry that is exact. */
  ghost predicate NodeOk(adj: Adjacency, s: Search, v: Vertex) {
    && (v in s.order ==> v in s.dist)
    && (v in s.dist ==> v in adj && s.dist[v] >= 0)
    && (v in s.dist && v !in s.order ==> Item(v, s.dist[v]) in s.pq)
  }

  ghost predicate Tentative(adj: Adjacency, from: Vertex, s: Search) {
    && from in s.dist && s.dist[from] == 0
    && (forall it {:trigger EntryOk(s, it)} :: EntryOk(s, it))
    && (forall v {:trigger NodeOk(adj, s, v)} :: NodeOk(adj, s, v))
  }

  ghost predicate Below(s: Search, u: Vertex, it: Item) {
    u in s.order && u in s.dist && it in s.pq ==> s.dist[u] <= it.dist
  }

  /** Finished nodes are at or below everything still in the queue. */
  ghost predicate Ranked(s: Search) {
    forall u, it {:trigger Below(s, u, it)} :: Below(s, u, it)
  }

  /** The edge from u to x leads nowhere that has not been considered. */
  ghost predicate Relaxed(adj: Adjacency, s: Search, u: Vertex, x: Vertex) {
    u in s.dist && x in s.dist && s.dist[x] <= s.dist[u] + EdgeWeight(adj, u, x)
  }

  /** All edges out of finished nodes are relaxed, except those from `current` to `pending`. */
  ghost predicate RelaxedExcept(adj: Adjacency, s: Search, current: Vertex, pending: set<Vertex>) {
    forall u, x {:trigger Relaxed(adj, s, u, x)} ::
      u in s.order && HasEdge(adj, u, x) && !(u == current && x in pending) ==> Relaxed(adj, s, u, x)
  }

  /** Parents are finished nodes, one exact edge away, finished before their children. */
  ghost predicate Tree(adj: Adjacency, from: Vertex, s: Search) {
    && s.parent.Keys == s.dist.Keys
    && Distinct(s.order)
    && (forall v {:trigger ChildOf(adj, s, v, s.parent[v])} :: v in s.parent && v != from ==>
      ChildOf(adj, s, v, s.parent[v]))
    && (forall i {:trigger s.order[..i]} :: 0 <= i < |s.order| && s.order[i] != from && s.order[i] in s.parent ==>
          s.parent[s.order[i]] in s.order[..i])
  }

  ghost predicate ChildOf(adj: Adjacency, s: Search, v: Vertex, u: Vertex) {
    && u in s.order && u in s.dist && v in s.dist && HasEdge(adj, u, v)
    && s.dist[v] == s.dist[u] + EdgeWeight(adj, u, v)
  }

  ghost predicate Between(adj: Adjacency, from: Vertex, s: Search, current: Vertex, pending: set<Vertex>) {
    Tentative(adj, from, s) && Ranked(s) && RelaxedExcept(adj, s, current, pending) && Tree(adj, from, s)
  }

  function Start(from: Vertex): Search {
    Search(map[from := 0], map[from := from], multiset{Item(from, 0)}, [])
  }

  lemma StartIsBetween(adj: Adjacency, from: Vertex)
    requires from in adj
    ensures Between(adj, from, Start(from), from, {})
  {
  }

  // ---------- One pop ----------

  /** A least entry, by the contract of the heap. */
  ghost predicate Least(pq: multiset<Item>, it: Item) {
    it in pq && forall other :: other in pq ==> it.dist <= other.dist
  }

  lemma {:induction false} LeastExists(pq: multiset<Item>)
    requires pq != multiset{}
    ensures exists it :: Least(pq, it)
    decreases |pq|
  {
    var it :| it in pq;
    var rest := pq - multiset{it};
    assert forall other :: other in pq ==> other == it || other in rest;
    if rest == multiset{} {
      assert Least(pq, it);
    } else {
      LeastExists(rest);
      var low :| Least(rest, low);
      assert Least(pq, if it.dist <= low.dist then it else low) by {
        assert low in pq;
      }
    }
  }

  /** Entries may come off in any order among equals. */
  method PopLeast(pq: multiset<Item>) returns (it: Item, rest: multiset<Item>)
    requires pq != multiset{}
    ensures Least(pq, it) && rest == pq - multiset{it}
  {
    LeastExists(pq);
    it :| it in pq && forall other :: other in pq ==> it.dist <= other.dist;
    rest := pq - multiset{it};
  }

  /** An entry of a finished node is stale and can be dropped. */
  lemma DropStale(adj: Adjacency, from: Vertex, s: Search, it: Item, current: Vertex)
    requires Between(adj, from, s, current, {}) && it in s.pq && it.node in s.order
    ensures Between(adj, from, s.(pq := s.pq - multiset{it}), current, {})
  {
    var t := s.(pq := s.pq - multiset{it});
    forall x ensures EntryOk(t, x) { assert EntryOk(s, x); }
    forall v ensures NodeOk(adj, t, v) { assert NodeOk(adj, s, v); }
    forall u, x ensures Below(t, u, x) { assert Below(s, u, x); }
    forall u, x | u in t.order && HasEdge(adj, u, x) ensures Relaxed(adj, t, u, x) { assert Relaxed(adj, s, u, x); }
    forall v | v in t.parent && v != from ensures ChildOf(adj, t, v, t.parent[v]) {
      assert ChildOf(adj, s, v, s.parent[v]);
    }
  }

  /** A least entry of an unfinished node carries its exact tentative distance. */
  lemma LeastIsExact(adj: Adjacency, from: Vertex, s: Search, it: Item)
    requires Tentative(adj, from, s) && Least(s.pq, it) && it.node !in s.order
    ensures it.node in adj && it.node in s.dist && s.dist[it.node] == it.dist
  {
    assert EntryOk(s, it) && NodeOk(adj, s, it.node);
    assert Item(it.node, s.dist[it.node]) in s.pq;
  }

  /** Nothing finished lies beyond `current`. */
  ghost predicate Top(s: Search, current: Vertex) {
    current in s.order && current in s.dist && forall u {:trigger AtMost(s, u, current)} :: AtMost(s, u, current)
  }

  ghost predicate AtMost(s: Search, u: Vertex, current: Vertex)
    requires current in s.dist
  {
    u in s.order && u in s.dist ==> s.dist[u] <= s.dist[current]
  }

  function Settle(s: Search, it: Item): Search {
    s.(pq := s.pq - multiset{it}, order := s.order + [it.node])
  }

  lemma SettleKeepsTree(adj: Adjacency, from: Vertex, s: Search, it: Item)
    requires Tentative(adj, from, s) && Tree(adj, from, s) && Least(s.pq, it) && it.node !in s.order
    ensures Tree(adj, from, Settle(s, it))
  {
    var t := Settle(s, it);
    forall v {:trigger ChildOf(adj, t, v, t.parent[v])} | v in t.parent && v != from
      ensures ChildOf(adj, t, v, t.parent[v])
    {
      assert ChildOf(adj, s, v, s.parent[v]);
    }
    forall i {:trigger t.order[..i]} | 0 <= i < |t.order| && t.order[i] != from && t.order[i] in t.parent
      ensures t.parent[t.order[i]] in t.order[..i]
    {
      if i < |s.order| {
        assert t.order[i] == s.order[i] && t.order[..i] == s.order[..i];
      } else {
        assert t.order[..i] == s.order;
        assert ChildOf(adj, s, it.node, s.parent[it.node]);
      }
    }
  }

  lemma SettleKeepsRelaxed(adj: Adjacency, s: Search, it: Item, last: Vertex)
    requires it.node in adj && RelaxedExcept(adj, s, last, {})
    ensures RelaxedExcept(adj, Settle(s, it), it.node, Pending(adj[it.node], 0))
  {
    var t := Settle(s, it);
    forall u, x {:trigger Relaxed(adj, t, u, x)} |
      u in t.order && HasEdge(adj, u, x) && !(u == it.node && x in Pending(adj[it.node], 0))
      ensures Relaxed(adj, t, u, x)
    {
      if u == it.node {
        FindIffTarget(adj[u], x);
      } else {
        assert Relaxed(adj, s, u, x);
      }
    }
  }

  lemma SettleKeepsRanks(adj: Adjacency, from: Vertex, s: Search, it: Item)
    requires Tentative(adj, from, s) && Ranked(s) && Least(s.pq, it) && it.node !in s.order
    ensures Tentative(adj, from, Settle(s, it)) && Ranked(Settle(s, it)) && Top(Settle(s, it), it.node)
    ensures it.node in adj && it.node in s.dist && s.dist[it.node] == it.dist
  {
    LeastIsExact(adj, from, s, it);
    var t := Settle(s, it);
    forall x ensures EntryOk(t, x) { assert EntryOk(s, x); }
    forall v ensures NodeOk(adj, t, v) { assert NodeOk(adj, s, v); }
    forall u, x ensures Below(t, u, x) { assert Below(s, u, x); }
    forall u ensures AtMost(t, u, it.node) { assert Below(s, u, it); }
  }

  lemma SettleKeeps(adj: Adjacency, from: Vertex, s: Search, it: Item, last: Vertex)
    requires Between(adj, from, s, last, {}) && Least(s.pq, it) && it.node !in s.order
    ensures it.node in adj && Between(adj, from, Settle(s, it), it.node, Pending(adj[it.node], 0))
    ensures Top(Settle(s, it), it.node) && it.node in s.dist && s.dist[it.node] == it.dist
  {
    SettleKeepsRanks(adj, from, s, it);
    SettleKeepsTree(adj, from, s, it);
    SettleKeepsRelaxed(adj, s, it, last);
  }

  /** Offers `to` the distance through `current`; an offer that is no better is ignored. */
  function Relax(s: Search, current: Vertex, to: Vertex, through: int): Search {
    if to in s.dist && s.dist[to] <= through then s
    else Search(s.dist[to := through], s.parent[to := current], s.pq + multiset{Item(to, through)}, s.order)
  }

  lemma RelaxKeepsTentative(adj: Adjacency, from: Vertex, s: Search, current: Vertex, to: Vertex, through: int)
    requires Tentative(adj, from, s) && Ranked(s) && Top(s, current) && to in adj
    requires through >= s.dist[current] >= 0
    ensures to in s.order ==> to in s.dist && s.dist[to] <= through
    ensures Tentative(adj, from, Relax(s, current, to, through))
    ensures Ranked(Relax(s, current, to, through)) && Top(Relax(s, current, to, through), current)
  {
    var t := Relax(s, current, to, through);
    assert NodeOk(adj, s, to) && AtMost(s, to, current);
    if t != s {
      assert to !in s.order && to != from;
      forall x ensures EntryOk(t, x) { assert EntryOk(s, x); }
      forall v ensures NodeOk(adj, t, v) { assert NodeOk(adj, s, v); }
      forall u, x ensures Below(t, u, x) { assert Below(s, u, x) && AtMost(s, u, current); }
      forall u ensures AtMost(t, u, current) { assert AtMost(s, u, current); }
    }
  }

  lemma RelaxKeepsTree(adj: Adjacency, from: Vertex, s: Search, current: Vertex, to: Vertex, through: int)
    requires Tree(adj, from, s) && current in s.order && current in s.dist && from in s.dist
    requires HasEdge(adj, current, to) && through == s.dist[current] + EdgeWeight(adj, current, to)
    requires to in s.order ==> to in s.dist && s.dist[to] <= through
    ensures Tree(adj, from, Relax(s, current, to, through))
  {
    var t := Relax(s, current, to, through);
    if t != s {
      assert to !in s.order && to != current;
      forall v {:trigger ChildOf(adj, t, v, t.parent[v])} | v in t.parent && v != from
        ensures ChildOf(adj, t, v, t.parent[v])
      {
        if v != to {
          assert ChildOf(adj, s, v, s.parent[v]);
        }
      }
    }
  }

  lemma RelaxKeepsRelaxed(adj: Adjacency, from: Vertex, s: Search, current: Vertex, to: Vertex, through: int,
      pending: set<Vertex>)
    requires Tentative(adj, from, s) && RelaxedExcept(adj, s, current, pending) && current in s.order &&
        current in s.dist
    requires through == s.dist[current] + EdgeWeight(adj, current, to)
    requires to in s.order ==> to in s.dist && s.dist[to] <= through
    ensures RelaxedExcept(adj, Relax(s, current, to, through), current, pending - {to})
  {
    var t := Relax(s, current, to, through);
    forall u, x {:trigger Relaxed(adj, t, u, x)} |
      u in t.order && HasEdge(adj, u, x) && !(u == current && x in pending - {to})
      ensures Relaxed(adj, t, u, x)
    {
      assert NodeOk(adj, s, u);
      if !(u == current && x == to) {
        assert Relaxed(adj, s, u, x);
      }
    }
  }

  lemma RelaxKeeps(adj: Adjacency, from: Vertex, s: Search, current: Vertex, to: Vertex, through: int,
      pending: set<Vertex>)
    requires Between(adj, from, s, current, pending) && Top(s, current)
    requires HasEdge(adj, current, to) && to in adj && through == s.dist[current] + EdgeWeight(adj, current, to)
    requires through >= s.dist[current] >= 0
    ensures var t := Relax(s, current, to, through);
            Between(adj, from, t, current, pending - {to}) && Top(t, current) && t.dist[current] == s.dist[current]
    ensures to in s.order ==> to in s.dist && s.dist[to] <= through
  {
    RelaxKeepsTentative(adj, from, s, current, to, through);
    RelaxKeepsTree(adj, from, s, current, to, through);
    RelaxKeepsRelaxed(adj, from, s, current, to, through, pending);
  }

  // ---------- What the search has found ----------

  ghost predicate NonNegative(adj: Adjacency) {
    forall u, i :: u in adj && 0 <= i < |adj[u]| ==> adj[u][i].weight >= 0
  }

  lemma EdgeNonNegative(adj: Adjacency, u: Vertex, v: Vertex)
    requires NonNegative(adj)
    ensures EdgeWeight(adj, u, v) >= 0
  {
    if HasEdge(adj, u, v) {
      FindIffTarget(adj[u], v);
    }
  }

  /** No walk to a finished node is shorter than its distance, and no walk to any other node is
      shorter than the least entry of the queue. */
  lemma {:induction false} NoShorterWalk(adj: Adjacency, from: Vertex, s: Search, last: Vertex, it: Item,
      p: seq<Vertex>)
    requires NonNegative(adj) && Between(adj, from, s, last, {}) && IsWalk(adj, p) && p[0] == from && Least(s.pq, it)
    ensures var v := p[|p| - 1];
            if v in s.order then v in s.dist && WalkWeight(adj, p) >= s.dist[v] else WalkWeight(adj, p) >= it.dist
    decreases |p|
  {
    var v := p[|p| - 1];
    assert NodeOk(adj, s, v);
    if |p| > 1 {
      var q := p[..|p| - 1];
      var u := q[|q| - 1];
      ShortenWalk(adj, p);
      NoShorterWalk(adj, from, s, last, it, q);
      EdgeNonNegative(adj, u, v);
      assert u in s.order ==> Relaxed(adj, s, u, v);
      assert Below(s, v, it);
    }
  }

  lemma EmptyQueueIsFinished(adj: Adjacency, from: Vertex, s: Search, v: Vertex)
    requires Tentative(adj, from, s) && s.pq == multiset{} && v in s.dist
    ensures v in s.order
  {
    assert NodeOk(adj, s, v);
  }

  /** When the queue is empty, everything reachable is finished. */
  lemma {:induction false} AllWalksFinished(adj: Adjacency, from: Vertex, s: Search, last: Vertex, p: seq<Vertex>)
    requires Between(adj, from, s, last, {}) && s.pq == multiset{} && IsWalk(adj, p) && p[0] == from
    ensures var v := p[|p| - 1]; v in s.order && v in s.dist && WalkWeight(adj, p) >= s.dist[v]
    decreases |p|
  {
    var v := p[|p| - 1];
    if |p| > 1 {
      ShortenWalk(adj, p);
      var q := p[..|p| - 1];
      AllWalksFinished(adj, from, s, last, q);
      assert Relaxed(adj, s, q[|q| - 1], v);
    }
    EmptyQueueIsFinished(adj, from, s, v);
  }

  /** The parents of a finished node lead back to the source along a walk of exactly its distance. */
  lemma {:induction false} TreeWalk(adj: Adjacency, from: Vertex, s: Search, i: nat)
    requires Tentative(adj, from, s) && Tree(adj, from, s) && i < |s.order|
    ensures s.order[i] in s.dist
    ensures exists p :: Joins(adj, p, from, s.order[i]) && WalkWeight(adj, p) == s.dist[s.order[i]]
    decreases i
  {
    var v := s.order[i];
    assert NodeOk(adj, s, v) && NodeOk(adj, s, from);
    if v == from {
      assert Joins(adj, [from], from, from) && WalkWeight(adj, [from]) == 0;
    } else {
      var u := s.parent[v];
      assert ChildOf(adj, s, v, u);
      assert u in s.order[..i];
      var j :| 0 <= j < |s.order[..i]| && s.order[..i][j] == u;
      TreeWalk(adj, from, s, j);
      var p :| Joins(adj, p, from, u) && WalkWeight(adj, p) == s.dist[u];
      WeightOfExtended(adj, p, v);
      var q := p + [v];
      assert forall k :: 0 <= k < |p| ==> q[k] == p[k];
      assert Joins(adj, q, from, v);
    }
  }

  lemma PendingEdge(adj: Adjacency, u: Vertex, i: nat)
    requires WellFormed(adj) && u in adj && i < |adj[u]|
    ensures var e := adj[u][i];
            && HasEdge(adj, u, e.to) && e.to in adj && EdgeWeight(adj, u, e.to) == e.weight
            && Pending(adj[u], i) - {e.to} == Pending(adj[u], i + 1)
  {
    var e := adj[u][i];
    FindIffTarget(adj[u], e.to);
    var k :| 0 <= k < |adj[u]| && adj[u][k] == Edge(e.to, EdgeWeight(adj, u, e.to));
    assert k == i;
  }

  lemma NothingShorter(adj: Adjacency, from: Vertex, s: Search, last: Vertex, it: Item, path: seq<Vertex>)
    requires NonNegative(adj) && Between(adj, from, s, last, {}) && Least(s.pq, it) && it.node !in s.order
    requires Joins(adj, path, from, it.node) && WalkWeight(adj, path) == it.dist
    ensures Distance(adj, from, it.node, it.dist)
  {
    forall p | Joins(adj, p, from, it.node) ensures WalkWeight(adj, p) >= it.dist {
      NoShorterWalk(adj, from, s, last, it, p);
    }
  }

  lemma NotReached(adj: Adjacency, from: Vertex, to: Vertex, s: Search, last: Vertex)
    requires Between(adj, from, s, last, {}) && s.pq == multiset{} && to !in s.order
    ensures !Reaches(adj, from, to)
  {
    if Reaches(adj, from, to) {
      var p :| IsWalk(adj, p) && p[0] == from && p[|p| - 1] == to;
      AllWalksFinished(adj, from, s, last, p);
    }
  }

  // ---------- The path to one node ----------

  datatype PathResult = Path(nodes: seq<Vertex>, dist: int) | ErrNotFound | ErrNegativeWeight | ErrNoPath

  method AnyNegative(g: Graph) returns (found: bool)
    requires g.Valid()
    ensures found <==> !NonNegative(g.adj)
  {
    for i := 0 to |g.nodes|
      invariant forall k, j :: 0 <= k < i && 0 <= j < |g.adj[g.nodes[k]]| ==> g.adj[g.nodes[k]][j].weight >= 0
    {
      var edges := g.adj[g.nodes[i]];
      for j := 0 to |edges|
        invariant forall k :: 0 <= k < j ==> edges[k].weight >= 0
      {
        if edges[j].weight < 0 {
          assert g.adj[g.nodes[i]][j].weight < 0;
          return true;
        }
      }
    }
    found := false;
  }

  /** Swaps from both ends towards the middle. */
  method ReverseInPlace(path: seq<Vertex>) returns (r: seq<Vertex>)
    ensures r == Reverse(path)
  {
    r := path;
    var i, j := 0, |path| - 1;
    while i < j
      invariant |r| == |path| && 0 <= i && i + j == |path| - 1 && i <= j + 1
      invariant forall k :: 0 <= k < i ==> r[k] == path[|path| - 1 - k] && r[|path| - 1 - k] == path[k]
      invariant forall k :: i <= k <= j ==> r[k] == path[k]
      decreases j - i
    {
      r := r[i := r[j]][j := r[i]];
      i, j := i + 1, j - 1;
    }
    ReverseKeeps(path);
    forall k | 0 <= k < |path| ensures r[k] == Reverse(path)[k] {
      ReverseAt(path, k);
    }
  }

  /** Follows the parents from `to` back to `from` and turns the result around. */
  method Rebuild(adj: Adjacency, parent: map<Vertex, Vertex>, from: Vertex, to: Vertex, ghost s: Search,
      ghost last: int)
    returns (path: seq<Vertex>)
    requires Tentative(adj, from, s) && Tree(adj, from, s) && s.parent == parent
    requires 0 <= last < |s.order| && s.order[last] == to && to in s.dist
    ensures Joins(adj, path, from, to) && WalkWeight(adj, path) == s.dist[to]
  {
    path := [to];
    var current := to;
    ghost var k := last;
    ghost var walk := [to];
    assert NodeOk(adj, s, to);
    while current != from
      invariant 0 <= k < |s.order| && s.order[k] == current && current in s.dist
      invariant path == Reverse(walk)
      invariant Joins(adj, walk, current, to)
      invariant s.dist[current] + WalkWeight(adj, walk) == s.dist[to]
      decreases k
    {
      ghost var j := StepBack(adj, from, s, k, walk, to);
      current := parent[current];
      ReversePrepend(current, walk);
      path := path + [current];
      walk := [current] + walk;
      k := j;
    }
    ReverseTwice(walk);
    path := ReverseInPlace(path);
  }

  lemma StepBack(adj: Adjacency, from: Vertex, s: Search, k: nat, walk: seq<Vertex>, to: Vertex) returns (j: nat)
    requires Tentative(adj, from, s) && Tree(adj, from, s) && k < |s.order| && s.order[k] != from &&
        s.order[k] in s.dist
    requires Joins(adj, walk, s.order[k], to)
    ensures s.order[k] in s.parent
    ensures var u := s.parent[s.order[k]];
            && j < k && s.order[j] == u && u in s.dist
            && Joins(adj, [u] + walk, u, to)
            && s.dist[u] + WalkWeight(adj, [u] + walk) == s.dist[s.order[k]] + WalkWeight(adj, walk)
  {
    var v := s.order[k];
    var u := s.parent[v];
    assert ChildOf(adj, s, v, u) && NodeOk(adj, s, u);
    assert u in s.order[..k];
    j :| 0 <= j < |s.order[..k]| && s.order[..k][j] == u;
    var longer := [u] + walk;
    assert longer[1..] == walk;
    assert forall i :: 0 < i < |longer| ==> longer[i] == walk[i - 1];
  }

  /** Expands a settled node: every unfinished target is offered the distance through it. */
  method Expand(adj: Adjacency, from: Vertex, current: Item, done: set<Vertex>, dist0: map<Vertex, int>,
                parent0: map<Vertex, Vertex>, pq0: multiset<Item>, ghost order: seq<Vertex>)
    returns (dist: map<Vertex, int>, parent: map<Vertex, Vertex>, pq: multiset<Item>)
    requires WellFormed(adj) && NonNegative(adj) && current.node in adj && done == Elements(order)
    requires var s := Search(dist0, parent0, pq0, order);
             && Between(adj, from, s, current.node, Pending(adj[current.node], 0)) && Top(s, current.node)
    requires dist0[current.node] == current.dist >= 0
    ensures Between(adj, from, Search(dist, parent, pq, order), current.node, {})
  {
    dist, parent, pq := dist0, parent0, pq0;
    var edges := adj[current.node];
    for i := 0 to |edges|
      invariant Between(adj, from, Search(dist, parent, pq, order), current.node, Pending(edges, i))
      invariant Top(Search(dist, parent, pq, order), current.node) && dist[current.node] == current.dist
    {
      var e := edges[i];
      var through := current.dist + e.weight;
      ghost var s := Search(dist, parent, pq, order);
      PendingEdge(adj, current.node, i);
      RelaxKeeps(adj, from, s, current.node, e.to, through, Pending(edges, i));
      if e.to in done {
        continue;
      }
      if e.to in dist && dist[e.to] <= through {
        continue;
      }
      dist := dist[e.to := through];
      parent := parent[e.to := current.node];
      pq := pq + multiset{Item(e.to, through)};
    }
    assert Pending(edges, |edges|) == {};
  }

  method Dijkstra(g: Graph, from: Vertex, to: Vertex) returns (r: PathResult)
    requires g.Valid()
    ensures r.ErrNotFound? <==> from !in g.adj || to !in g.adj
    ensures r.ErrNegativeWeight? <==> from in g.adj && to in g.adj && !NonNegative(g.adj)
    ensures r.ErrNegativeWeight? <==>
      from in g.adj && to in g.adj &&
      exists u, k :: u in g.adj && 0 <= k < |g.adj[u]| && g.adj[u][k].weight < 0
    ensures r.ErrNoPath? ==> !Reaches(g.adj, from, to)
    ensures r.Path? ==> Joins(g.adj, r.nodes, from, to) && WalkWeight(g.adj, r.nodes) == r.dist
    ensures r.Path? ==> Distance(g.adj, from, to, r.dist)
  {
    var adj := g.adj;
    if from !in adj || to !in adj {
      return ErrNotFound;
    }
    var negative := AnyNegative(g);
    if negative {
      return ErrNegativeWeight;
    }
    r := DijkstraSearch(adj, from, to);
  }

  method DijkstraSearch(adj: Adjacency, from: Vertex, to: Vertex) returns (r: PathResult)
    requires WellFormed(adj) && NonNegative(adj) && from in adj && to in adj
    ensures r.Path? || r.ErrNoPath?
    ensures r.ErrNoPath? ==> !Reaches(adj, from, to)
    ensures r.Path? ==> Joins(adj, r.nodes, from, to) && WalkWeight(adj, r.nodes) == r.dist
    ensures r.Path? ==> Distance(adj, from, to, r.dist)
  {
    var dist, parent, done, pq := map[from := 0], map[from := from], {}, multiset{Item(from, 0)};
    ghost var order: seq<Vertex> := [];
    ghost var last := from;
    StartIsBetween(adj, from);
    while pq != multiset{}
      invariant Between(adj, from, Search(dist, parent, pq, order), last, {})
      invariant done == Elements(order) && to !in order
      decreases adj.Keys - done, |pq|
    {
      ghost var s := Search(dist, parent, pq, order);
      var current, rest := PopLeast(pq);
      if current.node in done {
        DropStale(adj, from, s, current, last);
        pq := rest;
        continue;
      }
      SettleKeeps(adj, from, s, current, last);
      assert NodeOk(adj, s, current.node);
      pq := rest;
      done := done + {current.node};
      order := order + [current.node];
      last := current.node;
      if current.node == to {
        var path := Rebuild(adj, parent, from, to, Search(dist, parent, pq, order), |order| - 1);
        NothingShorter(adj, from, s, last, current, path);
        return Path(path, current.dist);
      }
      dist, parent, pq := Expand(adj, from, current, done, dist, parent, pq, order);
    }
    NotReached(adj, from, to, Search(dist, parent, pq, order), last);
    r := ErrNoPath;
  }

  // ---------- The distances to all nodes ----------

  datatype DistancesResult = Distances(dist: map<Vertex, int>) | NotFound | NegativeWeight

  /** Exactly the reachable nodes have a distance, and it is the true one. */
  ghost predicate AllDistances(adj: Adjacency, from: Vertex, dist: map<Vertex, int>) {
    && (forall v :: v in dist <==> Reaches(adj, from, v))
    && (forall v :: v in dist ==> Distance(adj, from, v, dist[v]))
  }

  /** Some edge out of a reachable node has a negative weight. */
  ghost predicate ReachesNegative(adj: Adjacency, from: Vertex) {
    exists u, i :: u in adj && 0 <= i < |adj[u]| && Reaches(adj, from, u) && adj[u][i].weight < 0
  }

  method ExpandAll(adj: Adjacency, from: Vertex, current: Item, dist0: map<Vertex, int>,
                   ghost parent0: map<Vertex, Vertex>, pq0: multiset<Item>, ghost order: seq<Vertex>)
    returns (ok: bool, dist: map<Vertex, int>, ghost parent: map<Vertex, Vertex>, pq: multiset<Item>)
    requires WellFormed(adj) && current.node in adj
    requires var s := Search(dist0, parent0, pq0, order);
             && Between(adj, from, s, current.node, Pending(adj[current.node], 0)) && Top(s, current.node)
    requires dist0[current.node] == current.dist >= 0
    ensures ok ==> Between(adj, from, Search(dist, parent, pq, order), current.node, {})
    ensures ok <==> forall j :: 0 <= j < |adj[current.node]| ==> adj[current.node][j].weight >= 0
  {
    dist, parent, pq := dist0, parent0, pq0;
    var edges := adj[current.node];
    for i := 0 to |edges|
      invariant Between(adj, from, Search(dist, parent, pq, order), current.node, Pending(edges, i))
      invariant Top(Search(dist, parent, pq, order), current.node) && dist[current.node] == current.dist
      invariant forall j :: 0 <= j < i ==> edges[j].weight >= 0
    {
      var e := edges[i];
      if e.weight < 0 {
        return false, dist, parent, pq;
      }
      var through := current.dist + e.weight;
      ghost var s := Search(dist, parent, pq, order);
      PendingEdge(adj, current.node, i);
      RelaxKeeps(adj, from, s, current.node, e.to, through, Pending(edges, i));
      if e.to in dist && dist[e.to] <= through {
        continue;
      }
      dist := dist[e.to := through];
      parent := parent[e.to := current.node];
      pq := pq + multiset{Item(e.to, through)};
    }
    assert Pending(edges, |edges|) == {};
    ok := true;
  }

  method DijkstraAll(g: Graph, start: Vertex) returns (r: DistancesResult)
    requires g.Valid()
    ensures r.NotFound? <==> start !in g.adj
    ensures r.NegativeWeight? <==> start in g.adj && ReachesNegative(g.adj, start)
    ensures r.NegativeWeight? <==>
      start in g.adj &&
      exists u, k :: u in g.adj && 0 <= k < |g.adj[u]| && Reaches(g.adj, start, u) && g.adj[u][k].weight < 0
    ensures r.Distances? ==> AllDistances(g.adj, start, r.dist)
  {
    var adj := g.adj;
    if start !in adj {
      NothingReachedFromOutside(adj, start);
      return NotFound;
    }
    var dist, pq, done := map[start := 0], multiset{Item(start, 0)}, {};
    ghost var parent := map[start := start];
    ghost var order: seq<Vertex> := [];
    ghost var last := start;
    StartIsBetween(adj, start);
    while pq != multiset{}
      invariant Between(adj, start, Search(dist, parent, pq, order), last, {})
      invariant done == Elements(order)
      invariant EdgesChecked(adj, order)
      decreases adj.Keys - done, |pq|
    {
      ghost var s := Search(dist, parent, pq, order);
      var current, rest := PopLeast(pq);
      if current.node in done {
        DropStale(adj, start, s, current, last);
        pq := rest;
        continue;
      }
      SettleKeeps(adj, start, s, current, last);
      assert NodeOk(adj, s, current.node);
      pq := rest;
      done := done + {current.node};
      order := order + [current.node];
      last := current.node;
      ghost var settled := Search(dist, parent, pq, order);
      var ok;
      ok, dist, parent, pq := ExpandAll(adj, start, current, dist, parent, pq, order);
      if !ok {
        TreeWalk(adj, start, settled, |order| - 1);
        FoundNegative(adj, start, current.node);
        return NegativeWeight;
      }
      CheckOneMore(adj, order);
    }
    FinalDistances(adj, start, Search(dist, parent, pq, order), last);
    r := Distances(dist);
  }

  /** The edges out of finished nodes were all found to be non-negative. */
  ghost predicate EdgesChecked(adj: Adjacency, order: seq<Vertex>) {
    forall u {:trigger Checked(adj, u)} :: u in order ==> Checked(adj, u)
  }

  ghost predicate Checked(adj: Adjacency, u: Vertex) {
    u in adj ==> forall j :: 0 <= j < |adj[u]| ==> adj[u][j].weight >= 0
  }

  lemma CheckOneMore(adj: Adjacency, order: seq<Vertex>)
    requires order != [] && EdgesChecked(adj, order[..|order| - 1]) && Checked(adj, order[|order| - 1])
    ensures EdgesChecked(adj, order)
  {
  }

  lemma NothingReachedFromOutside(adj: Adjacency, u: Vertex)
    requires u !in adj
    ensures forall v :: !Reaches(adj, u, v)
  {
  }

  lemma FoundNegative(adj: Adjacency, from: Vertex, u: Vertex)
    requires u in adj && !Checked(adj, u) && exists p :: Joins(adj, p, from, u)
    ensures ReachesNegative(adj, from)
  {
    var p :| Joins(adj, p, from, u);
    assert Reaches(adj, from, u);
  }

  lemma FinalDistances(adj: Adjacency, from: Vertex, s: Search, last: Vertex)
    requires Between(adj, from, s, last, {}) && s.pq == multiset{} && EdgesChecked(adj, s.order)
    ensures AllDistances(adj, from, s.dist)
    ensures !ReachesNegative(adj, from)
  {
    forall v | Reaches(adj, from, v) ensures v in s.dist && v in s.order {
      var p :| IsWalk(adj, p) && p[0] == from && p[|p| - 1] == v;
      AllWalksFinished(adj, from, s, last, p);
    }
    forall v | v in s.dist ensures Distance(adj, from, v, s.dist[v]) && Reaches(adj, from, v) {
      EmptyQueueIsFinished(adj, from, s, v);
      var i :| 0 <= i < |s.order| && s.order[i] == v;
      TreeWalk(adj, from, s, i);
      forall p | Joins(adj, p, from, v) ensures WalkWeight(adj, p) >= s.dist[v] {
        AllWalksFinished(adj, from, s, last, p);
      }
    }
    forall u, i | u in adj && 0 <= i < |adj[u]| && Reaches(adj, from, u) ensures adj[u][i].weight >= 0 {
      assert Checked(adj, u);
    }
  }

  /** Dijkstra and DijkstraAll agree on every node either of them reaches. */
  lemma DijkstrasAgree(adj: Adjacency, from: Vertex, to: Vertex, dist: map<Vertex, int>, d: int)
    requires AllDistances(adj, from, dist)
    ensures (exists e :: Distance(adj, from, to, e)) <==> to in dist
    ensures Distance(adj, from, to, d) <==> to in dist && dist[to] == d
  {
    if e :| Distance(adj, from, to, e) {
      var p :| Joins(adj, p, from, to) && WalkWeight(adj, p) == e;
      assert Reaches(adj, from, to);
    }
    if to in dist {
      assert Distance(adj, from, to, dist[to]);
      if Distance(adj, from, to, d) {
        DistanceIsUnique(adj, from, to, d, dist[to]);
      }
    }
  }

  // ---------- Breadth-first distances ----------

  /** n is the least number of edges of a walk from u to v, and is attained. */
  ghost predicate HopDistance(adj: Adjacency, u: Vertex, v: Vertex, n: int) {
    && HopsAttained(adj, u, v, n)
    && (forall p :: Joins(adj, p, u, v) ==> |p| - 1 >= n)
  }

  ghost predicate HopsAttained(adj: Adjacency, u: Vertex, v: Vertex, n: int) {
    exists p :: Joins(adj, p, u, v) && |p| - 1 == n
  }

  ghost predicate AllHops(adj: Adjacency, from: Vertex, dist: map<Vertex, int>) {
    && (forall v :: v in dist <==> Reaches(adj, from, v))
    && (forall v :: v in dist ==> HopDistance(adj, from, v, dist[v]))
  }

  ghost predicate Seen(adj: Adjacency, from: Vertex, dist: map<Vertex, int>, v: Vertex) {
    v in dist ==> v in adj && HopsAttained(adj, from, v, dist[v])
  }

  /** Once a node has left the queue, its successors are at most one edge further. */
  ghost predicate Explored(adj: Adjacency, dist: map<Vertex, int>, queue: seq<Vertex>, u: Vertex, x: Vertex) {
    u in dist && u !in queue && HasEdge(adj, u, x) ==> x in dist && dist[x] <= dist[u] + 1
  }

  /** The queue climbs from d to at most d + 1, and nothing seen lies beyond. */
  ghost predicate Banded(dist: map<Vertex, int>, queue: seq<Vertex>, d: int) {
    && Distinct(queue)
    && (forall i :: 0 <= i < |queue| ==> queue[i] in dist && d <= dist[queue[i]])
    && (forall i, j :: 0 <= i < j < |queue| ==>
          queue[i] in dist && queue[j] in dist && dist[queue[i]] <= dist[queue[j]])
    && (forall v :: v in dist ==> dist[v] <= d + 1)
  }

  ghost predicate Frontier(adj: Adjacency, from: Vertex, dist: map<Vertex, int>, queue: seq<Vertex>, d: int) {
    && from in dist && dist[from] == 0
    && (forall v {:trigger Seen(adj, from, dist, v)} :: Seen(adj, from, dist, v))
    && Banded(dist, queue, d)
  }

  /** Every edge out of a node that has left the queue is accounted for, except those from `current` to `pending`. */
  ghost predicate ExploredExcept(adj: Adjacency, dist: map<Vertex, int>, queue: seq<Vertex>, current: Vertex,
      pending: set<Vertex>) {
    forall u, x {:trigger Explored(adj, dist, queue, u, x)} ::
      !(u == current && x in pending) ==> Explored(adj, dist, queue, u, x)
  }

  lemma PopFront(adj: Adjacency, dist: map<Vertex, int>, queue: seq<Vertex>, last: Vertex, d: int)
    requires queue != [] && queue[0] in dist && queue[0] in adj
    requires ExploredExcept(adj, dist, queue, last, {}) && Banded(dist, queue, d)
    ensures ExploredExcept(adj, dist, queue[1..], queue[0], Pending(adj[queue[0]], 0))
    ensures queue[0] !in queue[1..] && Banded(dist, queue[1..], dist[queue[0]])
  {
    var current := queue[0];
    forall u, x | !(u == current && x in Pending(adj[current], 0)) ensures Explored(adj, dist, queue[1..], u, x) {
      assert Explored(adj, dist, queue, u, x);
      if u == current {
        FindIffTarget(adj[u], x);
      }
    }
  }

  /** An unseen target joins the back of the queue one edge further out. */
  lemma Discover(adj: Adjacency, from: Vertex, dist: map<Vertex, int>, queue: seq<Vertex>, current: Vertex,
      to: Vertex, pending: set<Vertex>)
    requires current in dist && to !in dist && to in adj && HasEdge(adj, current, to) && current !in queue
    requires Frontier(adj, from, dist, queue, dist[current])
    requires ExploredExcept(adj, dist, queue, current, pending)
    ensures var next := dist[to := dist[current] + 1];
            Frontier(adj, from, next, queue + [to], next[current]) &&
                ExploredExcept(adj, next, queue + [to], current, pending - {to})
  {
    var next := dist[to := dist[current] + 1];
    assert Seen(adj, from, dist, current);
    var p :| Joins(adj, p, from, current) && |p| - 1 == dist[current];
    var q := p + [to];
    assert forall k :: 0 <= k < |p| ==> q[k] == p[k];
    assert Joins(adj, q, from, to) && |q| - 1 == next[to];
    forall v ensures Seen(adj, from, next, v) { assert Seen(adj, from, dist, v); }
    forall u, x | !(u == current && x in pending - {to}) ensures Explored(adj, next, queue + [to], u, x) {
      if !(u == current && x == to) {
        assert Explored(adj, dist, queue, u, x);
      }
    }
  }

  lemma AlreadySeen(adj: Adjacency, dist: map<Vertex, int>, queue: seq<Vertex>, current: Vertex, to: Vertex,
      pending: set<Vertex>)
    requires current in dist && to in dist && Banded(dist, queue, dist[current])
    requires ExploredExcept(adj, dist, queue, current, pending)
    ensures ExploredExcept(adj, dist, queue, current, pending - {to})
  {
    forall u, x | !(u == current && x in pending - {to}) ensures Explored(adj, dist, queue, u, x) {
      assert !(u == current && x in pending) ==> Explored(adj, dist, queue, u, x);
    }
  }

  method Hops(g: Graph, start: Vertex) returns (r: DistancesResult)
    requires g.Valid()
    ensures r.NotFound? <==> start !in g.adj
    ensures r.NotFound? || r.Distances?
    ensures r.Distances? ==> AllHops(g.adj, start, r.dist)
  {
    var adj := g.adj;
    if start !in adj {
      return NotFound;
    }
    var dist, queue := map[start := 0], [start];
    ghost var d, last := 0, start;
    assert Joins(adj, [start], start, start);
    while queue != []
      invariant Frontier(adj, start, dist, queue, d)
      invariant ExploredExcept(adj, dist, queue, last, {})
      decreases adj.Keys - (dist.Keys - Elements(queue))
    {
      var current := queue[0];
      assert Seen(adj, start, dist, current);
      PopFront(adj, dist, queue, last, d);
      ghost var before := dist.Keys - Elements(queue);
      queue := queue[1..];
      d, last := dist[current], current;
      var edges := adj[current];
      for i := 0 to |edges|
        invariant current in dist && dist[current] == d && current !in queue
        invariant Frontier(adj, start, dist, queue, d)
        invariant ExploredExcept(adj, dist, queue, current, Pending(edges, i))
        invariant before <= dist.Keys - Elements(queue)
      {
        var to := edges[i].to;
        PendingEdge(adj, current, i);
        if to in dist {
          AlreadySeen(adj, dist, queue, current, to, Pending(edges, i));
          continue;
        }
        Discover(adj, start, dist, queue, current, to, Pending(edges, i));
        dist := dist[to := dist[current] + 1];
        queue := queue + [to];
      }
      assert Pending(edges, |edges|) == {};
      assert current !in before && current in dist.Keys - Elements(queue);
    }
    FinalHops(adj, start, dist, last, d);
    r := Distances(dist);
  }

  lemma {:induction false} NoFewerHops(adj: Adjacency, from: Vertex, dist: map<Vertex, int>, last: Vertex,
      d: int, p: seq<Vertex>)
    requires Frontier(adj, from, dist, [], d) && ExploredExcept(adj, dist, [], last, {})
    requires IsWalk(adj, p) && p[0] == from
    ensures p[|p| - 1] in dist && dist[p[|p| - 1]] <= |p| - 1
    decreases |p|
  {
    if |p| > 1 {
      ShortenWalk(adj, p);
      var q := p[..|p| - 1];
      NoFewerHops(adj, from, dist, last, d, q);
      assert Explored(adj, dist, [], q[|q| - 1], p[|p| - 1]);
    }
  }

  lemma FinalHops(adj: Adjacency, from: Vertex, dist: map<Vertex, int>, last: Vertex, d: int)
    requires Frontier(adj, from, dist, [], d) && ExploredExcept(adj, dist, [], last, {})
    ensures AllHops(adj, from, dist)
  {
    forall v | Reaches(adj, from, v) ensures v in dist {
      var p :| IsWalk(adj, p) && p[0] == from && p[|p| - 1] == v;
      NoFewerHops(adj, from, dist, last, d, p);
    }
    forall v | v in dist ensures HopDistance(adj, from, v, dist[v]) && Reaches(adj, from, v) {
      assert Seen(adj, from, dist, v);
      var q :| Joins(adj, q, from, v) && |q| - 1 == dist[v];
      forall p | Joins(adj, p, from, v) ensures |p| - 1 >= dist[v] {
        NoFewerHops(adj, from, dist, last, d, p);
      }
    }
  }

  // ---------- The two notions of distance ----------

  ghost predicate UnitWeights(adj: Adjacency) {
    forall u, i :: u in adj && 0 <= i < |adj[u]| ==> adj[u][i].weight == 1
  }

  lemma {:induction false} UnitWalk(adj: Adjacency, p: seq<Vertex>)
    requires UnitWeights(adj) && IsWalk(adj, p)
    ensures WalkWeight(adj, p) == |p| - 1
    decreases |p|
  {
    if |p| > 1 {
      ShortenWalk(adj, p);
      var q := p[..|p| - 1];
      UnitWalk(adj, q);
      FindIffTarget(adj[q[|q| - 1]], p[|p| - 1]);
    }
  }

  /** Where every edge weighs one, DijkstraAll and Distances return the same map. */
  lemma UnitWeightsAgree(adj: Adjacency, from: Vertex, byWeight: map<Vertex, int>, byHops: map<Vertex, int>)
    requires UnitWeights(adj) && AllDistances(adj, from, byWeight) && AllHops(adj, from, byHops)
    ensures byWeight == byHops
  {
    assert forall v :: v in byWeight <==> v in byHops;
    forall v | v in byWeight ensures byWeight[v] == byHops[v] {
      var p :| Joins(adj, p, from, v) && WalkWeight(adj, p) == byWeight[v];
      assert HopsAttained(adj, from, v, byHops[v]);
      var q :| Joins(adj, q, from, v) && |q| - 1 == byHops[v];
      UnitWalk(adj, p);
      UnitWalk(adj, q);
    }
  }
}
