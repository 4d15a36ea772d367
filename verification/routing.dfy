/** Weighted graphs, paths through them, and the bookkeeping that both
    Dijkstra implementations (script.js `findShortestPath` and
    final_script_debug_safe.js `dijkstra`) keep while they run.

    A tentative distance of `Infinity` is an absent entry of `dist`, and
    `prev[v] = null` / `undefined` is an absent entry of `prev`. */
module Routing {

  /** Adjacency as the scripts consult it: node -> neighbour -> edge weight. */
  type Graph<N> = map<N, map<N, nat>>

  /** One entry of the `edges` array of the route graph JSON. */
  datatype Edge<N> = Edge(from: N, to: N, weight: nat)

  /** `u` is an endpoint of some edge. */
  predicate Endpoint<N(==)>(edges: seq<Edge<N>>, u: N)
  {
    exists i :: 0 <= i < |edges| && (edges[i].from == u || edges[i].to == u)
  }

  /** Every neighbour listed in the adjacency is itself a key of it. */
  ghost predicate Closed<N>(g: Graph<N>)
  {
    forall u, v :: u in g && v in g[u] ==> v in g
  }

  /** A non-empty node sequence whose consecutive nodes are adjacent. */
  ghost predicate IsPath<N>(g: Graph<N>, p: seq<N>)
  {
    |p| > 0 && forall i :: 0 <= i < |p| - 1 ==> p[i] in g && p[i + 1] in g[p[i]]
  }

  ghost predicate PathFromTo<N>(g: Graph<N>, p: seq<N>, s: N, t: N)
  {
    IsPath(g, p) && p[0] == s && p[|p| - 1] == t
  }

  ghost predicate Reachable<N(!new)>(g: Graph<N>, s: N, t: N)
  {
    exists p :: PathFromTo(g, p, s, t)
  }

  /** Sum of the weights of the edges a path walks along. */
  ghost function PathWeight<N>(g: Graph<N>, p: seq<N>): nat
    requires IsPath(g, p)
    decreases |p|
  {
    if |p| == 1 then 0
    else
      assert IsPath(g, p[1..]) by {
        forall i | 0 <= i < |p[1..]| - 1 ensures p[1..][i] in g && p[1..][i + 1] in g[p[1..][i]] {
          assert p[1..][i] == p[i + 1] && p[1..][i + 1] == p[i + 2];
        }
      }
      g[p[0]][p[1]] + PathWeight(g, p[1..])
  }

  /** Any stretch of a path with at least one node is a path. */
  lemma SubPath<N>(g: Graph<N>, p: seq<N>, a: nat, b: nat)
    requires IsPath(g, p) && a < b <= |p|
    ensures IsPath(g, p[a..b])
  {
    var q := p[a..b];
    forall j | 0 <= j < |q| - 1 ensures q[j] in g && q[j + 1] in g[q[j]] {
      assert q[j] == p[a + j] && q[j + 1] == p[a + j + 1];
    }
  }

  /** A path splits at any node into a prefix and a suffix whose weights add up. */
  lemma {:induction false} PathSplit<N>(g: Graph<N>, p: seq<N>, i: nat)
    requires IsPath(g, p) && i < |p|
    ensures IsPath(g, p[..i + 1]) && IsPath(g, p[i..])
    ensures PathWeight(g, p) == PathWeight(g, p[..i + 1]) + PathWeight(g, p[i..])
  {
    var pre, suf := p[..i + 1], p[i..];
    SubPath(g, p, 0, i + 1);
    SubPath(g, p, i, |p|);
    assert p[0..i + 1] == pre && p[i..|p|] == suf;
    if i == 0 {
      assert suf == p;
    } else {
      var tail := p[1..];
      SubPath(g, p, 1, |p|);
      assert p[1..|p|] == tail;
      PathSplit(g, tail, i - 1);
      assert tail[i - 1..] == suf;
      assert pre[1..] == tail[..i];
      assert pre[0] == p[0] && pre[1] == p[1];
    }
  }

  /** Extending a path prefix by one node adds that edge's weight. */
  lemma PathExtend<N>(g: Graph<N>, p: seq<N>, i: nat)
    requires IsPath(g, p) && 1 <= i < |p|
    ensures IsPath(g, p[..i]) && IsPath(g, p[..i + 1])
    ensures PathWeight(g, p[..i + 1]) == PathWeight(g, p[..i]) + g[p[i - 1]][p[i]]
  {
    PathSplit(g, p, i);
    var q := p[..i + 1];
    PathSplit(g, q, i - 1);
    assert q[..i] == p[..i];
    assert q[i - 1..] == [p[i - 1], p[i]];
    assert [p[i - 1], p[i]][1..] == [p[i]];
  }

  /** `x`'s tentative distance is at most `y`'s (absent means Infinity). */
  predicate Le<N>(dist: map<N, nat>, x: N, y: N)
  {
    y !in dist || (x in dist && dist[x] <= dist[y])
  }

  /** JavaScript's `dist[x] < dist[y]` with `Infinity` for absent entries. */
  predicate Less<N>(dist: map<N, nat>, x: N, y: N)
  {
    x in dist && (y !in dist || dist[x] < dist[y])
  }

  /** The guard `alt < dist[v]` of a relaxation along an edge of weight `w`. */
  predicate Improves<N>(dist: map<N, nat>, u: N, v: N, w: nat)
  {
    u in dist && (v !in dist || dist[u] + w < dist[v])
  }

  /** No path from `s` to `v` is lighter than `dist[v]`, and if there is
      any path then `v` has a finite distance. */
  ghost predicate Settled<N(!new)>(g: Graph<N>, s: N, dist: map<N, nat>, v: N)
  {
    forall p :: PathFromTo(g, p, s, v) ==> v in dist && dist[v] <= PathWeight(g, p)
  }

  /** The queue holds, without repeats, exactly the keys not yet extracted. */
  ghost predicate QueueSplit<N(!new)>(g: Graph<N>, Q: seq<N>, done: set<N>)
  {
    && (forall i, j :: 0 <= i < j < |Q| ==> Q[i] != Q[j])
    && (forall x :: x in Q <==> x in g && x !in done)
    && done <= g.Keys
  }

  /** `prev` links every finite-distance node but the start to an
      already extracted neighbour, no nearer than that edge allows, and
      always to one extracted earlier (`order` is the extraction order). */
  ghost predicate PrevChain<N(!new)>(g: Graph<N>, s: N, dist: map<N, nat>, prev: map<N, N>,
                               done: set<N>, order: map<N, nat>)
  {
    && s in dist && dist[s] == 0 && s !in prev
    && (forall v {:trigger v in prev} :: v in dist ==> v == s || v in prev)
    && (forall x :: x in done <==> x in order)
    && (forall v :: v in prev ==>
          && v in g && v in dist && prev[v] in done && prev[v] in dist && prev[v] in g
          && v in g[prev[v]]
          && dist[v] >= dist[prev[v]] + g[prev[v]][v]
          && (v in done ==> order[prev[v]] < order[v]))
  }

  /** Nodes are extracted in order of distance. */
  ghost predicate Ordered<N>(dist: map<N, nat>, Q: seq<N>, done: set<N>, order: map<N, nat>)
  {
    && (forall x :: x in done ==> x in order && order[x] < |done|)
    && (forall x, y :: x in done && y in done && x in order && y in order && order[x] < order[y] ==> Le(dist, x, y))
    && (forall x, y :: x in done && y in Q ==> Le(dist, x, y))
  }

  /** Every extracted node outside `pending` has had its edges relaxed. */
  ghost predicate Relaxed<N>(g: Graph<N>, dist: map<N, nat>, done: set<N>, pending: set<N>)
  {
    forall u, v :: u in done && u !in pending && u in dist && u in g && v in g[u] ==>
      v in dist && dist[v] <= dist[u] + g[u][v]
  }

  ghost predicate DoneSettled<N(!new)>(g: Graph<N>, s: N, dist: map<N, nat>, done: set<N>)
  {
    forall v :: v in done ==> Settled(g, s, dist, v)
  }

  /** The invariant of the main `while (Q.size > 0)` loop. */
  ghost predicate Inv<N(!new)>(g: Graph<N>, s: N, Q: seq<N>, done: set<N>, dist: map<N, nat>,
                         prev: map<N, N>, order: map<N, nat>, pending: set<N>)
  {
    && Closed(g)
    && QueueSplit(g, Q, done)
    && PrevChain(g, s, dist, prev, done, order)
    && Ordered(dist, Q, done, order)
    && Relaxed(g, dist, done, pending)
    && DoneSettled(g, s, dist, done)
  }

  /** What both searches promise about the path they return for `s` and
      `t`: it ends at `t`; it is `[t]` alone when `t` is `s` or cannot be
      reached; otherwise it is a path from `s` to `t` than which no path
      from `s` to `t` is lighter. */
  ghost predicate SearchResult<N(!new)>(g: Graph<N>, s: N, t: N, path: seq<N>)
  {
    && |path| > 0 && path[|path| - 1] == t
    && (s == t ==> path == [t])
    && (!Reachable(g, s, t) ==> path == [t])
    && (Reachable(g, s, t) ==>
          && PathFromTo(g, path, s, t)
          && forall q :: PathFromTo(g, q, s, t) ==> PathWeight(g, path) <= PathWeight(g, q))
  }
}
