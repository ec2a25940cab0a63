/** Depth-first search, once with an explicit stack and once with the call stack. */
module Traverse {
  import opened GraphModel
  import opened Graphs
  import opened Sequences

  function Targets(es: seq<Edge>): (vs: seq<Vertex>)
    ensures |vs| == |es|
  {
    if es == [] then [] else [es[0].to] + Targets(es[1..])
  }

  lemma {:induction false} TargetsAt(es: seq<Edge>)
    ensures |Targets(es)| == |es| && forall i :: 0 <= i < |es| ==> Targets(es)[i] == es[i].to
  {
    if es != [] {
      TargetsAt(es[1..]);
    }
  }

  /** Every vertex of a sequence is a node of the graph. */
  ghost predicate Within(adj: Adjacency, s: seq<Vertex>) {
    forall v :: v in s ==> v in adj
  }

  // ---------- The order of a depth-first search ----------

  /** What is visited, in order, after visiting v and everything new below it, when `out` was visited before. */
  ghost function Visit(adj: Adjacency, v: Vertex, out: seq<Vertex>): (r: seq<Vertex>)
    requires WellFormed(adj) && v in adj && v !in out && Within(adj, out)
    ensures out <= r && Within(adj, r)
    decreases adj.Keys - Elements(out), 0
  {
    TargetsAt(adj[v]);
    assert v in adj.Keys - Elements(out) && v !in adj.Keys - Elements(out + [v]);
    VisitAll(adj, Targets(adj[v]), out + [v])
  }

  /** The same for several vertices in turn, skipping those already visited. */
  ghost function VisitAll(adj: Adjacency, vs: seq<Vertex>, out: seq<Vertex>): (r: seq<Vertex>)
    requires WellFormed(adj) && Within(adj, vs) && Within(adj, out)
    ensures out <= r && Within(adj, r)
    decreases adj.Keys - Elements(out), |vs|
  {
    if vs == [] then out
    else if vs[0] in out then VisitAll(adj, vs[1..], out)
    else
      var mid := Visit(adj, vs[0], out);
      assert Elements(out) <= Elements(mid);
      VisitAll(adj, vs[1..], mid)
  }

  ghost function DepthFirst(adj: Adjacency, start: Vertex): seq<Vertex>
    requires WellFormed(adj)
  {
    if start in adj then Visit(adj, start, []) else []
  }

  lemma {:induction false} VisitAllConcat(adj: Adjacency, a: seq<Vertex>, b: seq<Vertex>, out: seq<Vertex>)
    requires WellFormed(adj) && Within(adj, a) && Within(adj, b) && Within(adj, out)
    ensures Within(adj, a + b) && VisitAll(adj, a + b, out) == VisitAll(adj, b, VisitAll(adj, a, out))
    decreases |a|
  {
    if a == [] {
      assert a + b == b;
    } else {
      assert (a + b)[1..] == a[1..] + b;
      VisitAllConcat(adj, a[1..], b, if a[0] in out then out else Visit(adj, a[0], out));
    }
  }

  /** The vertices of vs that are not in `seen`. */
  function Unseen(vs: seq<Vertex>, seen: set<Vertex>): seq<Vertex> {
    if vs == [] then [] else (if vs[0] in seen then [] else [vs[0]]) + Unseen(vs[1..], seen)
  }

  /** Leaving out vertices that are visited already changes nothing: they would be skipped anyway. */
  lemma {:induction false} SkippingIsHarmless(adj: Adjacency, vs: seq<Vertex>, seen: set<Vertex>, out: seq<Vertex>)
    requires WellFormed(adj) && Within(adj, vs) && Within(adj, out) && seen <= Elements(out)
    ensures Within(adj, Unseen(vs, seen)) && VisitAll(adj, Unseen(vs, seen), out) == VisitAll(adj, vs, out)
    decreases |vs|
  {
    if vs != [] {
      var next := if vs[0] in out then out else Visit(adj, vs[0], out);
      SkippingIsHarmless(adj, vs[1..], seen, next);
      SkippingIsHarmless(adj, vs[1..], seen, out);
      if vs[0] !in seen {
        assert Unseen(vs, seen) == [vs[0]] + Unseen(vs[1..], seen);
        assert Unseen(vs, seen)[1..] == Unseen(vs[1..], seen);
      } else {
        assert Unseen(vs, seen) == Unseen(vs[1..], seen);
      }
    }
  }

  lemma PopStep(adj: Adjacency, v: Vertex, rest: seq<Vertex>, out: seq<Vertex>, visited: set<Vertex>)
    requires WellFormed(adj) && v in adj && v !in out && Within(adj, out) && Within(adj, rest)
    requires visited == Elements(out + [v])
    ensures var pushed := Unseen(Targets(adj[v]), visited);
            && Within(adj, pushed + rest)
            && VisitAll(adj, pushed + rest, out + [v]) == VisitAll(adj, [v] + rest, out)
  {
    TargetsAt(adj[v]);
    var pushed := Unseen(Targets(adj[v]), visited);
    SkippingIsHarmless(adj, Targets(adj[v]), visited, out + [v]);
    VisitAllConcat(adj, pushed, rest, out + [v]);
    assert ([v] + rest)[1..] == rest;
  }

  // ---------- The same order, told from the edges alone ----------

  /** No edge leads from u to a node that is not in s. */
  ghost predicate NothingNew(adj: Adjacency, s: seq<Vertex>, u: Vertex) {
    u in adj && forall k {:trigger adj[u][k]} :: 0 <= k < |adj[u]| ==> adj[u][k].to in s
  }

  /** Edge k of u is the first that leads to a node not in s. */
  ghost predicate FirstNew(adj: Adjacency, s: seq<Vertex>, u: Vertex, k: nat) {
    && u in adj && k < |adj[u]| && adj[u][k].to !in s
    && forall e {:trigger adj[u][e]} :: 0 <= e < k ==> adj[u][e].to in s
  }

  /** x is the next node after those of s: what the first new edge leads to, from the latest node of s that
      has a new edge. */
  ghost predicate ComesNext(adj: Adjacency, s: seq<Vertex>, x: Vertex) {
    exists j: nat, k: nat :: NextAlong(adj, s, x, j, k)
  }

  ghost predicate NextAlong(adj: Adjacency, s: seq<Vertex>, x: Vertex, j: nat, k: nat) {
    && j < |s| && FirstNew(adj, s, s[j], k) && adj[s[j]][k].to == x
    && forall i {:trigger s[i]} :: j < i < |s| ==> NothingNew(adj, s, s[i])
  }

  /** A search from start yields start, and then always the node that comes next, until there is none. */
  ghost predicate DepthFirstOrder(adj: Adjacency, start: Vertex, out: seq<Vertex>) {
    if start !in adj then out == [] else
      && out != [] && out[0] == start
      && (forall i {:trigger out[..i]} :: 0 < i < |out| ==> ComesNext(adj, out[..i], out[i]))
      && (forall i {:trigger out[i]} :: 0 <= i < |out| ==> NothingNew(adj, out, out[i]))
  }

  lemma OneComesNext(adj: Adjacency, s: seq<Vertex>, x: Vertex, y: Vertex)
    requires ComesNext(adj, s, x) && ComesNext(adj, s, y)
    ensures x == y && exists i :: 0 <= i < |s| && !NothingNew(adj, s, s[i])
  {
    var i: nat, k: nat :| NextAlong(adj, s, x, i, k);
    var j: nat, l: nat :| NextAlong(adj, s, y, j, l);
    assert !NothingNew(adj, s, s[i]) && !NothingNew(adj, s, s[j]);
  }

  lemma {:induction false} SameStart(adj: Adjacency, start: Vertex, a: seq<Vertex>, b: seq<Vertex>, n: nat)
    requires start in adj && DepthFirstOrder(adj, start, a) && DepthFirstOrder(adj, start, b)
    requires n <= |a| && n <= |b|
    ensures a[..n] == b[..n]
  {
    if n == 1 {
      assert a[..1] == [start] == b[..1];
    } else if n > 1 {
      SameStart(adj, start, a, b, n - 1);
      OneComesNext(adj, a[..n - 1], a[n - 1], b[n - 1]);
      assert a[..n] == a[..n - 1] + [a[n - 1]] && b[..n] == b[..n - 1] + [b[n - 1]];
    }
  }

  lemma NotLonger(adj: Adjacency, start: Vertex, a: seq<Vertex>, b: seq<Vertex>)
    requires start in adj && DepthFirstOrder(adj, start, a) && DepthFirstOrder(adj, start, b)
    ensures |b| <= |a|
  {
    if |a| < |b| {
      SameStart(adj, start, a, b, |a|);
      assert a[..|a|] == a;
      OneComesNext(adj, a, b[|a|], b[|a|]);
    }
  }

  /** Only one sequence is such an order. */
  lemma DepthFirstOrderIsUnique(adj: Adjacency, start: Vertex, a: seq<Vertex>, b: seq<Vertex>)
    requires DepthFirstOrder(adj, start, a) && DepthFirstOrder(adj, start, b)
    ensures a == b
  {
    if start in adj {
      NotLonger(adj, start, a, b);
      NotLonger(adj, start, b, a);
      SameStart(adj, start, a, b, |a|);
      assert a[..|a|] == a && b[..|b|] == b;
    }
  }

  /** Each node from place n on comes next after those before it. */
  ghost predicate Ordered(adj: Adjacency, r: seq<Vertex>, n: nat) {
    forall i {:trigger r[..i]} :: n <= i < |r| ==> ComesNext(adj, r[..i], r[i])
  }

  /** Nodes from place n on have no new edges. */
  ghost predicate Exhausted(adj: Adjacency, r: seq<Vertex>, n: nat) {
    forall i {:trigger r[i]} :: n <= i < |r| ==> NothingNew(adj, r, r[i])
  }

  lemma ExhaustedLonger(adj: Adjacency, out: seq<Vertex>, r: seq<Vertex>, n: nat)
    requires out <= r && Exhausted(adj, out, n) && Exhausted(adj, r, |out|)
    ensures Exhausted(adj, r, n)
  {
    forall i {:trigger r[i]} | n <= i < |r| ensures NothingNew(adj, r, r[i]) {
      if i < |out| {
        assert r[i] == out[i];
        assert forall v :: v in out ==> v in r;
      }
    }
  }

  lemma OrderedOn(adj: Adjacency, mid: seq<Vertex>, r: seq<Vertex>, n: nat)
    requires mid <= r && Ordered(adj, mid, n) && Ordered(adj, r, |mid|)
    ensures Ordered(adj, r, n)
  {
    forall i {:trigger r[..i]} | n <= i < |r| ensures ComesNext(adj, r[..i], r[i]) {
      if i < |mid| {
        assert r[..i] == mid[..i];
      }
    }
  }

  lemma OneMoreOrdered(adj: Adjacency, out: seq<Vertex>, j: nat, k: nat)
    requires j < |out| && FirstNew(adj, out, out[j], k) && Exhausted(adj, out, j + 1)
    ensures Ordered(adj, out + [adj[out[j]][k].to], |out|)
  {
    var r := out + [adj[out[j]][k].to];
    assert r[..|out|] == out;
    assert NextAlong(adj, out, adj[out[j]][k].to, j, k);
  }

  /** While the edges of the node at place j are followed, from edge k on, the order is kept. */
  lemma {:induction false} VisitAllInOrder(adj: Adjacency, j: nat, k: nat, out: seq<Vertex>)
    requires WellFormed(adj) && Within(adj, out) && j < |out| && k <= |adj[out[j]]| && Exhausted(adj, out, j + 1)
    requires forall e {:trigger adj[out[j]][e]} :: 0 <= e < k ==> adj[out[j]][e].to in out
    ensures Within(adj, Targets(adj[out[j]])[k..])
    ensures var r := VisitAll(adj, Targets(adj[out[j]])[k..], out); Ordered(adj, r, |out|) && Exhausted(adj, r, j)
    decreases adj.Keys - Elements(out), |adj[out[j]]| - k
  {
    var u, vs := out[j], Targets(adj[out[j]]);
    TargetsAt(adj[u]);
    if k < |adj[u]| {
      assert vs[k..][0] == adj[u][k].to && vs[k..][1..] == vs[k + 1..];
      if adj[u][k].to in out {
        VisitAllInOrder(adj, j, k + 1, out);
      } else {
        var mid := VisitOneInOrder(adj, j, k, out);
        VisitAllInOrder(adj, j, k + 1, mid);
        OrderedOn(adj, mid, VisitAll(adj, vs[k + 1..], mid), |out|);
      }
    }
  }

  lemma {:induction false} VisitOneInOrder(adj: Adjacency, j: nat, k: nat, out: seq<Vertex>) returns (mid: seq<Vertex>)
    requires WellFormed(adj) && Within(adj, out) && j < |out| && Exhausted(adj, out, j + 1)
    requires FirstNew(adj, out, out[j], k)
    ensures var x := adj[out[j]][k].to; x in adj && mid == Visit(adj, x, out)
    ensures out <= mid && Elements(mid) > Elements(out) && adj[out[j]][k].to in mid
    ensures Ordered(adj, mid, |out|) && Exhausted(adj, mid, j + 1)
    decreases adj.Keys - Elements(out), 0
  {
    var x := adj[out[j]][k].to;
    var longer := out + [x];
    assert x in adj.Keys - Elements(out) && x !in adj.Keys - Elements(longer);
    TargetsAt(adj[x]);
    VisitAllInOrder(adj, |out|, 0, longer);
    assert Targets(adj[x])[0..] == Targets(adj[x]);
    mid := Visit(adj, x, out);
    OneMoreOrdered(adj, out, j, k);
    OrderedOn(adj, longer, mid, |out|);
    ExhaustedLonger(adj, out, mid, j + 1);
    assert longer[|out|] == x && mid[|out|] == x;
  }

  /** The recursive order is the one told from the edges. */
  lemma DepthFirstInOrder(adj: Adjacency, start: Vertex)
    requires WellFormed(adj)
    ensures DepthFirstOrder(adj, start, DepthFirst(adj, start))
  {
    if start in adj {
      TargetsAt(adj[start]);
      VisitAllInOrder(adj, 0, 0, [start]);
      assert Targets(adj[start])[0..] == Targets(adj[start]);
      assert [] + [start] == [start];
    }
  }

  // ---------- The two searches ----------

  /** The explicit stack. A vertex may be pushed several times; the mark is made when it is popped. */
  method Dfs(g: Graph, start: Vertex) returns (out: seq<Vertex>)
    requires g.Valid()
    ensures out == DepthFirst(g.adj, start) && DepthFirstOrder(g.adj, start, out)
  {
    out := [];
    var adj := g.adj;
    DepthFirstInOrder(adj, start);
    if start !in adj {
      return;
    }
    var visited: set<Vertex> := {};
    var stack := [start];
    assert Reverse(stack) == [start];
    assert VisitAll(adj, [start], []) == VisitAll(adj, [], Visit(adj, start, []));
    while stack != []
      invariant Within(adj, out) && Within(adj, Reverse(stack))
      invariant visited == Elements(out)
      invariant VisitAll(adj, Reverse(stack), out) == DepthFirst(adj, start)
      decreases adj.Keys - Elements(out), |stack|
    {
      var last := |stack| - 1;
      var current := stack[last];
      ReverseAppend(stack[..last], current);
      assert stack == stack[..last] + [current];
      stack := stack[..last];
      assert ([current] + Reverse(stack))[1..] == Reverse(stack);
      assert current in [current] + Reverse(stack);
      if current in visited {
        continue;
      }
      PopStep(adj, current, Reverse(stack), out, visited + {current});
      visited := visited + {current};
      out := out + [current];
      stack := PushUnseen(adj[current], visited, stack);
    }
  }

  lemma UnseenFrom(vs: seq<Vertex>, seen: set<Vertex>, i: nat, rest: seq<Vertex>)
    requires i < |vs|
    ensures var after := Unseen(vs[i + 1..], seen) + rest;
      Unseen(vs[i..], seen) + rest == if vs[i] in seen then after else [vs[i]] + after
  {
    assert vs[i..][1..] == vs[i + 1..];
    if vs[i] !in seen {
      assert ([vs[i]] + Unseen(vs[i + 1..], seen)) + rest == [vs[i]] + (Unseen(vs[i + 1..], seen) + rest);
    }
  }

  /** The neighbours go on in reverse, so that they come off in insertion order. */
  method PushUnseen(edges: seq<Edge>, visited: set<Vertex>, stack: seq<Vertex>) returns (r: seq<Vertex>)
    ensures Reverse(r) == Unseen(Targets(edges), visited) + Reverse(stack)
  {
    r := stack;
    TargetsAt(edges);
    ghost var vs, rest := Targets(edges), Reverse(stack);
    var i := |edges|;
    assert vs[i..] == [];
    while i > 0
      invariant 0 <= i <= |edges|
      invariant Reverse(r) == Unseen(vs[i..], visited) + rest
    {
      i := i - 1;
      UnseenFrom(vs, visited, i, rest);
      if edges[i].to !in visited {
        ReverseAppend(r, edges[i].to);
        r := r + [edges[i].to];
      }
    }
    assert vs[0..] == vs;
  }

  /** The recursive search. The walk shares one visited set and one output. */
  class Walker {
    const adj: Adjacency
    var visited: set<Vertex>
    var out: seq<Vertex>

    constructor (adj: Adjacency)
      ensures this.adj == adj && visited == {} && out == []
    {
      this.adj := adj;
      visited := {};
      out := [];
    }

    method Walk(v: Vertex)
      requires WellFormed(adj) && v in adj && v !in out && Within(adj, out) && visited == Elements(out)
      modifies this
      ensures out == Visit(adj, v, old(out)) && visited == Elements(out)
      decreases adj.Keys - Elements(out)
    {
      ghost var start := out;
      visited := visited + {v};
      out := out + [v];
      assert v in adj.Keys - Elements(start) && v !in adj.Keys - Elements(out);
      var edges := adj[v];
      TargetsAt(edges);
      for i := 0 to |edges|
        invariant visited == Elements(out) && Within(adj, out) && start + [v] <= out
        invariant VisitAll(adj, Targets(edges)[i..], out) == Visit(adj, v, start)
      {
        assert Targets(edges)[i..][1..] == Targets(edges)[i + 1..];
        if edges[i].to in visited {
          continue;
        }
        assert Elements(start + [v]) <= Elements(out);
        Walk(edges[i].to);
      }
    }
  }

  method DfsRecursive(g: Graph, start: Vertex) returns (out: seq<Vertex>)
    requires g.Valid()
    ensures out == DepthFirst(g.adj, start) && DepthFirstOrder(g.adj, start, out)
  {
    DepthFirstInOrder(g.adj, start);
    if start !in g.adj {
      return [];
    }
    var walker := new Walker(g.adj);
    walker.Walk(start);
    out := walker.out;
  }

  // ---------- What a depth-first search visits ----------

  lemma EdgeIffTarget(adj: Adjacency, u: Vertex, v: Vertex)
    requires u in adj
    ensures HasEdge(adj, u, v) <==> v in Targets(adj[u])
  {
    FindIffTarget(adj[u], v);
    TargetsAt(adj[u]);
    if HasEdge(adj, u, v) {
      var i :| 0 <= i < |adj[u]| && adj[u][i].to == v;
      assert Targets(adj[u])[i] == v;
    }
  }

  lemma {:induction false} VisitSound(adj: Adjacency, v: Vertex, out: seq<Vertex>, from: Vertex)
    requires WellFormed(adj) && v in adj && v !in out && Within(adj, out)
    requires Reaches(adj, from, v) && Distinct(out)
    requires forall x :: x in out ==> Reaches(adj, from, x)
    ensures forall x :: x in Visit(adj, v, out) ==> Reaches(adj, from, x)
    ensures Distinct(Visit(adj, v, out))
    decreases adj.Keys - Elements(out), 0
  {
    TargetsAt(adj[v]);
    assert v in adj.Keys - Elements(out) && v !in adj.Keys - Elements(out + [v]);
    forall x | x in Targets(adj[v]) ensures Reaches(adj, from, x) {
      EdgeIffTarget(adj, v, x);
      ReachesMore(adj, from, v, x);
    }
    VisitAllSound(adj, Targets(adj[v]), out + [v], from);
  }

  lemma {:induction false} VisitAllSound(adj: Adjacency, vs: seq<Vertex>, out: seq<Vertex>, from: Vertex)
    requires WellFormed(adj) && Within(adj, vs) && Within(adj, out) && Distinct(out)
    requires forall x :: x in vs ==> Reaches(adj, from, x)
    requires forall x :: x in out ==> Reaches(adj, from, x)
    ensures forall x :: x in VisitAll(adj, vs, out) ==> Reaches(adj, from, x)
    ensures Distinct(VisitAll(adj, vs, out))
    decreases adj.Keys - Elements(out), |vs|
  {
    if vs != [] {
      if vs[0] in out {
        VisitAllSound(adj, vs[1..], out, from);
      } else {
        VisitSound(adj, vs[0], out, from);
        var mid := Visit(adj, vs[0], out);
        assert Elements(out) <= Elements(mid);
        VisitAllSound(adj, vs[1..], mid, from);
      }
    }
  }

  /** Whatever a visit adds, it adds with all its successors. */
  ghost predicate AddedClosed(adj: Adjacency, out: seq<Vertex>, r: seq<Vertex>) {
    forall x, y :: x in r && x !in out && HasEdge(adj, x, y) ==> y in r
  }

  lemma {:induction false} VisitCloses(adj: Adjacency, v: Vertex, out: seq<Vertex>)
    requires WellFormed(adj) && v in adj && v !in out && Within(adj, out)
    ensures v in Visit(adj, v, out) && AddedClosed(adj, out, Visit(adj, v, out))
    decreases adj.Keys - Elements(out), 0
  {
    TargetsAt(adj[v]);
    assert v in adj.Keys - Elements(out) && v !in adj.Keys - Elements(out + [v]);
    VisitAllCloses(adj, Targets(adj[v]), out + [v]);
    var r := Visit(adj, v, out);
    assert (out + [v])[|out|] == v && r[|out|] == v;
    forall x, y | x in r && x !in out && HasEdge(adj, x, y) ensures y in r {
      if x == v {
        EdgeIffTarget(adj, v, y);
      } else {
        assert x !in out + [v];
      }
    }
  }

  lemma {:induction false} VisitAllCloses(adj: Adjacency, vs: seq<Vertex>, out: seq<Vertex>)
    requires WellFormed(adj) && Within(adj, vs) && Within(adj, out)
    ensures forall x :: x in vs ==> x in VisitAll(adj, vs, out)
    ensures AddedClosed(adj, out, VisitAll(adj, vs, out))
    decreases adj.Keys - Elements(out), |vs|
  {
    if vs != [] {
      var mid := out;
      if vs[0] !in out {
        VisitCloses(adj, vs[0], out);
        mid := Visit(adj, vs[0], out);
      }
      assert Elements(out) <= Elements(mid);
      VisitAllCloses(adj, vs[1..], mid);
      var r := VisitAll(adj, vs[1..], mid);
      assert forall x :: x in mid ==> x in r;
    }
  }

  /** A depth-first search visits every reachable node, and each of them once. */
  lemma DepthFirstVisitsReachable(adj: Adjacency, start: Vertex)
    requires WellFormed(adj)
    ensures Distinct(DepthFirst(adj, start))
    ensures forall v :: v in DepthFirst(adj, start) <==> Reaches(adj, start, v)
  {
    var r := DepthFirst(adj, start);
    if start in adj {
      ReachesItself(adj, start);
      VisitSound(adj, start, [], start);
      VisitCloses(adj, start, []);
      assert ClosedUnderEdges(adj, Elements(r));
      forall v | Reaches(adj, start, v) ensures v in r {
        var p :| IsWalk(adj, p) && p[0] == start && p[|p| - 1] == v;
        WalkStaysInClosedSet(adj, Elements(r), p);
      }
    }
  }
}
