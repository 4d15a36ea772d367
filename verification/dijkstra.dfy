/** The steps both Dijkstra implementations share, each proved to keep
    `Routing.Inv`: the initial state, extracting a minimal queue entry,
    relaxing one edge, finishing the relaxation of a node, and walking
    `prev` back from the end node. */
module DijkstraSteps {
  import opened Routing

  /** `dist[start] = 0`, every key at Infinity, `prev` empty, whole key list queued. */
  lemma InitialState<N(!new)>(g: Graph<N>, s: N, Q: seq<N>)
    requires Closed(g)
    requires forall i, j :: 0 <= i < j < |Q| ==> Q[i] != Q[j]
    requires forall x :: x in Q <==> x in g
    ensures Inv(g, s, Q, {}, map[s := 0], map[], map[], {})
  {
  }

  /** A queue entry no farther than any other queue entry is settled: no
      path from the start reaches it more cheaply than its tentative
      distance. The path leaves the extracted set somewhere; the node where
      it does so was relaxed from an extracted neighbour. */
  lemma SettleMin<N(!new)>(g: Graph<N>, s: N, Q: seq<N>, done: set<N>, dist: map<N, nat>,
                           prev: map<N, N>, order: map<N, nat>, u: N)
    requires Inv(g, s, Q, done, dist, prev, order, {})
    requires u in Q && forall x :: x in Q ==> Le(dist, u, x)
    ensures Settled(g, s, dist, u)
  {
    forall p | PathFromTo(g, p, s, u) ensures u in dist && dist[u] <= PathWeight(g, p) {
      var i := 0;
      while p[i] in done
        invariant 0 <= i < |p|
        invariant forall j :: 0 <= j < i ==> p[j] in done
        decreases |p| - i
      {
        assert i < |p| - 1 by { assert p[|p| - 1] == u && u !in done; }
        i := i + 1;
      }
      if i == 0 {
        if |p| > 1 {
          assert s in g && s in Q;
          assert Le(dist, u, s);
        }
      } else {
        var x, y := p[i - 1], p[i];
        PathSplit(g, p, i);
        PathExtend(g, p, i);
        assert PathFromTo(g, p[..i], s, x);
        assert Settled(g, s, dist, x);
        assert y in g && y in Q;
        assert y in dist && dist[y] <= dist[x] + g[x][y];
        assert Le(dist, u, y);
      }
    }
  }

  /** Deleting entry `k` from the queue (the order of the rest is kept). */
  lemma QueueDelete<N(!new)>(g: Graph<N>, Q: seq<N>, done: set<N>, k: nat)
    requires QueueSplit(g, Q, done) && k < |Q|
    ensures Q[k] !in done && |done + {Q[k]}| == |done| + 1
    ensures forall x :: x in Q[..k] + Q[k + 1..] <==> x in Q && x != Q[k]
    ensures QueueSplit(g, Q[..k] + Q[k + 1..], done + {Q[k]})
  {
    var u, Q' := Q[k], Q[..k] + Q[k + 1..];
    forall x ensures x in Q' <==> x in Q && x != u {
      if x in Q' {
        var j :| 0 <= j < |Q'| && Q'[j] == x;
        if j < k { assert Q'[j] == Q[j]; } else { assert Q'[j] == Q[j + 1]; }
      }
      if x in Q && x != u {
        var j :| 0 <= j < |Q| && Q[j] == x;
        if j < k { assert Q'[j] == x; } else { assert Q'[j - 1] == x; }
      }
    }
    forall i, j | 0 <= i < j < |Q'| ensures Q'[i] != Q'[j] {
      var i0 := if i < k then i else i + 1;
      var j0 := if j < k then j else j + 1;
      assert Q'[i] == Q[i0] && Q'[j] == Q[j0];
    }
  }

  /** Extracting `u`, no farther than anything still queued, as the next
      node in extraction order keeps the nodes ordered by distance. */
  lemma ExtractOrdered<N>(dist: map<N, nat>, Q: seq<N>, Q': seq<N>, done: set<N>, order: map<N, nat>, u: N)
    requires Ordered(dist, Q, done, order)
    requires u in Q && u !in done && forall x :: x in Q ==> Le(dist, u, x)
    requires forall x :: x in Q' ==> x in Q
    ensures Ordered(dist, Q', done + {u}, order[u := |done|])
  {
    var done', order' := done + {u}, order[u := |done|];
    assert |done'| == |done| + 1;
    forall x, y | x in done' && y in done' && x in order' && y in order' && order'[x] < order'[y]
      ensures Le(dist, x, y)
    {
      if y == u {
        assert x in done;
      } else if x == u {
        assert order[y] < |done|;
      }
    }
  }

  /** Extracting `u` keeps every `prev` link pointing to an earlier extraction. */
  lemma ExtractPrevChain<N(!new)>(g: Graph<N>, s: N, dist: map<N, nat>, prev: map<N, N>,
                                  done: set<N>, order: map<N, nat>, u: N)
    requires PrevChain(g, s, dist, prev, done, order)
    requires u !in done && forall x :: x in done ==> x in order && order[x] < |done|
    ensures PrevChain(g, s, dist, prev, done + {u}, order[u := |done|])
  {
    var done', order' := done + {u}, order[u := |done|];
    forall v | v in prev && v in done' ensures order'[prev[v]] < order'[v] {
      if v != u {
        assert v in done && prev[v] != u;
      }
    }
  }

  /** An extracted node joins the settled nodes, with its edges pending. */
  lemma ExtractSettled<N(!new)>(g: Graph<N>, s: N, dist: map<N, nat>, done: set<N>, u: N)
    requires DoneSettled(g, s, dist, done) && Relaxed(g, dist, done, {})
    requires Settled(g, s, dist, u)
    ensures DoneSettled(g, s, dist, done + {u}) && Relaxed(g, dist, done + {u}, {u})
  {
  }

  /** Removing the queue entry at `k`, which is no farther than any other,
      keeps the invariant, with that node's edges still to relax. */
  lemma ExtractStep<N(!new)>(g: Graph<N>, s: N, Q: seq<N>, done: set<N>, dist: map<N, nat>,
                             prev: map<N, N>, order: map<N, nat>, k: nat)
    requires Inv(g, s, Q, done, dist, prev, order, {})
    requires k < |Q| && forall j :: 0 <= j < |Q| ==> Le(dist, Q[k], Q[j])
    ensures Q[k] !in done && |done + {Q[k]}| == |done| + 1
    ensures Inv(g, s, Q[..k] + Q[k + 1..], done + {Q[k]}, dist, prev, order[Q[k] := |done|], {Q[k]})
  {
    var u := Q[k];
    var Q', done', order' := Q[..k] + Q[k + 1..], done + {u}, order[u := |done|];
    forall x | x in Q ensures Le(dist, u, x) {
      var j :| 0 <= j < |Q| && Q[j] == x;
    }
    SettleMin(g, s, Q, done, dist, prev, order, u);
    QueueDelete(g, Q, done, k);
    ExtractOrdered(dist, Q, Q', done, order, u);
    ExtractPrevChain(g, s, dist, prev, done, order, u);
    ExtractSettled(g, s, dist, done, u);
  }

  /** Relaxing the edge `u`-`v` with a weight no lighter than the adjacency's
      keeps the invariant; `v` is necessarily not yet extracted. */
  lemma RelaxStep<N(!new)>(g: Graph<N>, s: N, Q: seq<N>, done: set<N>, dist: map<N, nat>,
                           prev: map<N, N>, order: map<N, nat>, u: N, v: N, w: nat)
    requires Inv(g, s, Q, done, dist, prev, order, {u})
    requires u in done && forall x :: x in done && x != u ==> order[x] < order[u]
    requires u in g && v in g[u] && g[u][v] <= w
    requires Improves(dist, u, v, w)
    ensures v !in done && v != u
    ensures Inv(g, s, Q, done, dist[v := dist[u] + w], prev[v := u], order, {u})
  {
    RelaxTarget(dist, Q, done, order, u, v, w);
    var dist', prev' := dist[v := dist[u] + w], prev[v := u];
    RelaxKeepsPrev(g, s, dist, prev, done, order, u, v, w);
    RelaxKeepsOrder(dist, Q, done, order, u, v, w);
    RelaxKeepsRelaxed(g, dist, done, u, v, w);
    RelaxKeepsSettled(g, s, dist, done, v, dist[u] + w);
  }

  /** The improved node is not yet extracted (extracted nodes are no farther than `u`). */
  lemma RelaxTarget<N>(dist: map<N, nat>, Q: seq<N>, done: set<N>, order: map<N, nat>, u: N, v: N, w: nat)
    requires Ordered(dist, Q, done, order)
    requires u in done && forall x :: x in done && x != u ==> order[x] < order[u]
    requires Improves(dist, u, v, w)
    ensures v !in done && v != u
  {
  }

  lemma RelaxKeepsPrev<N(!new)>(g: Graph<N>, s: N, dist: map<N, nat>, prev: map<N, N>,
                                done: set<N>, order: map<N, nat>, u: N, v: N, w: nat)
    requires PrevChain(g, s, dist, prev, done, order)
    requires u in done && u in g && v in g[u] && g[u][v] <= w && v !in done && v in g
    requires Improves(dist, u, v, w)
    ensures PrevChain(g, s, dist[v := dist[u] + w], prev[v := u], done, order)
  {
  }

  lemma RelaxKeepsOrder<N>(dist: map<N, nat>, Q: seq<N>, done: set<N>, order: map<N, nat>, u: N, v: N, w: nat)
    requires Ordered(dist, Q, done, order)
    requires u in done && forall x :: x in done && x != u ==> order[x] < order[u]
    requires v !in done && Improves(dist, u, v, w)
    ensures Ordered(dist[v := dist[u] + w], Q, done, order)
  {
    var dist' := dist[v := dist[u] + w];
    forall x, y | x in done && y in Q ensures Le(dist', x, y) {
      if y == v && x != u {
        assert Le(dist, x, u);
      }
    }
  }

  lemma RelaxKeepsRelaxed<N>(g: Graph<N>, dist: map<N, nat>, done: set<N>, u: N, v: N, w: nat)
    requires Relaxed(g, dist, done, {u})
    requires v !in done && Improves(dist, u, v, w)
    ensures Relaxed(g, dist[v := dist[u] + w], done, {u})
  {
  }

  lemma RelaxKeepsSettled<N(!new)>(g: Graph<N>, s: N, dist: map<N, nat>, done: set<N>, v: N, d: nat)
    requires DoneSettled(g, s, dist, done)
    requires v !in done
    ensures DoneSettled(g, s, dist[v := d], done)
  {
    forall x | x in done ensures Settled(g, s, dist[v := d], x) {
      assert Settled(g, s, dist, x);
    }
  }

  /** Once every edge out of `u` has been relaxed, `u` leaves `pending`. */
  lemma FinishRelax<N(!new)>(g: Graph<N>, s: N, Q: seq<N>, done: set<N>, dist: map<N, nat>,
                             prev: map<N, N>, order: map<N, nat>, u: N)
    requires Inv(g, s, Q, done, dist, prev, order, {u})
    requires u in dist && u in g ==> forall v :: v in g[u] ==> v in dist && dist[v] <= dist[u] + g[u][v]
    ensures Inv(g, s, Q, done, dist, prev, order, {})
  {
    RelaxedAll(g, dist, done, u);
    DropPending(g, s, Q, done, dist, prev, order, u);
  }

  lemma RelaxedAll<N>(g: Graph<N>, dist: map<N, nat>, done: set<N>, u: N)
    requires Relaxed(g, dist, done, {u})
    requires u in dist && u in g ==> forall v :: v in g[u] ==> v in dist && dist[v] <= dist[u] + g[u][v]
    ensures Relaxed(g, dist, done, {})
  {
  }

  lemma DropPending<N(!new)>(g: Graph<N>, s: N, Q: seq<N>, done: set<N>, dist: map<N, nat>,
                             prev: map<N, N>, order: map<N, nat>, u: N)
    requires Inv(g, s, Q, done, dist, prev, order, {u})
    requires Relaxed(g, dist, done, {})
    ensures Inv(g, s, Q, done, dist, prev, order, {})
  {
  }

  /** One relaxation, `alt = dist[u] + w; if (alt < dist[v]) { dist[v] = alt;
      prev[v] = u; }`, along an edge to `v` of weight `w` (at least the
      lightest edge from `u` to `v`): afterwards `v` is no farther than
      `dist[u] + w`, no distance has grown, `dist[u]` is unchanged and the
      search invariant still holds. */
  method Relax<N(==,!new)>(ghost g: Graph<N>, ghost s: N, ghost Q: seq<N>, ghost done: set<N>,
                           dist0: map<N, nat>, prev0: map<N, N>, ghost order: map<N, nat>, u: N, v: N, w: nat)
    returns (dist: map<N, nat>, prev: map<N, N>)
    requires Inv(g, s, Q, done, dist0, prev0, order, {u})
    requires u in done && u in g && forall x :: x in done && x != u ==> order[x] < order[u]
    requires v in g[u] && g[u][v] <= w
    ensures Inv(g, s, Q, done, dist, prev, order, {u})
    ensures u in dist <==> u in dist0
    ensures u in dist0 ==> dist[u] == dist0[u] && v in dist && dist[v] <= dist[u] + w
    ensures forall x :: x in dist0 ==> x in dist && dist[x] <= dist0[x]
  {
    dist, prev := dist0, prev0;
    if u in dist && (v !in dist || dist[u] + w < dist[v]) {
      RelaxStep(g, s, Q, done, dist, prev, order, u, v, w);
      dist, prev := dist[v := dist[u] + w], prev[v := u];
    }
  }

  /** Path reconstruction: start from `end` and prepend `prev[u]` while
      there is one (`path.unshift(u); u = prev[u]`). The walk always stops,
      because `prev` points to nodes extracted strictly earlier; when `end`
      has a finite distance it stops exactly at the start node, having
      walked a path no heavier than that distance. */
  method Reconstruct<N(!new)>(prev: map<N, N>, end: N, ghost g: Graph<N>, ghost s: N,
                              ghost dist: map<N, nat>, ghost done: set<N>, ghost order: map<N, nat>)
    returns (path: seq<N>)
    requires PrevChain(g, s, dist, prev, done, order)
    requires end in prev ==> end in done
    ensures |path| > 0 && path[|path| - 1] == end
    ensures end !in prev ==> path == [end]
    ensures end in dist ==> PathFromTo(g, path, s, end) && PathWeight(g, path) <= dist[end]
  {
    var u := end;
    path := [end];
    while u in prev
      invariant |path| > 0 && path[0] == u && path[|path| - 1] == end
      invariant u in prev ==> u in done
      invariant end !in prev ==> path == [end]
      invariant end in dist ==> u in dist && IsPath(g, path) && PathWeight(g, path) + dist[u] <= dist[end]
      decreases if u in order then order[u] else 0
    {
      var p := prev[u];
      ghost var old_path := path;
      path := [p] + path;
      if end in dist {
        assert path[1..] == old_path;
        assert IsPath(g, path) by {
          forall i | 0 <= i < |path| - 1 ensures path[i] in g && path[i + 1] in g[path[i]] {
            if i > 0 {
              assert path[i] == old_path[i - 1] && path[i + 1] == old_path[i];
            }
          }
        }
      }
      u := p;
    }
  }

  /** A path with at least one edge ends at a key of a closed adjacency. */
  lemma PathEndsInGraph<N>(g: Graph<N>, p: seq<N>)
    requires Closed(g) && IsPath(g, p)
    ensures |p| > 1 ==> p[|p| - 1] in g
  {
    if |p| > 1 {
      assert p[|p| - 2] in g && p[|p| - 1] in g[p[|p| - 2]];
    }
  }

  /** What the scripts promise once the main loop has ended (the end node
      was extracted, or the queue ran dry) and the path was rebuilt: a path
      from start to end that no other path undercuts when the end is
      reachable, and the lone `[end]` when it is not or when start and end
      coincide. */
  lemma ShortestAtExit<N(!new)>(g: Graph<N>, s: N, Q: seq<N>, done: set<N>, dist: map<N, nat>,
                                prev: map<N, N>, order: map<N, nat>, pending: set<N>,
                                end: N, path: seq<N>)
    requires Inv(g, s, Q, done, dist, prev, order, pending)
    requires end in done || Q == []
    requires |path| > 0 && path[|path| - 1] == end
    requires end !in prev ==> path == [end]
    requires end in dist ==> PathFromTo(g, path, s, end) && PathWeight(g, path) <= dist[end]
    ensures SearchResult(g, s, end, path)
  {
    if Reachable(g, s, end) {
      var q0 :| PathFromTo(g, q0, s, end);
      if end in done {
        assert Settled(g, s, dist, end);
      } else {
        assert end !in g;
        PathEndsInGraph(g, q0);
        assert end == s && path == [end];
        assert PathFromTo(g, path, s, end);
      }
    } else if end in dist {
      assert PathFromTo(g, path, s, end);
    }
  }
}
