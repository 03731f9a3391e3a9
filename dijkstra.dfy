/** The invariant of `dijkstra_search` (planner.cpp:43-77), uniform-cost search with a
    lazily updated frontier, and the steps that keep it. */
module DijkstraProof {
  import opened GraphModel
  import opened Walks
  import opened Frontier
  import opened Planner

  // A search state: D = dist, P = parent, via[v] = weight of the edge P[v] -> v,
  // rank[v] = position of v in expansion order (|adj| while unexpanded), done = the
  // expanded nodes, pq = the frontier, last = the key of the latest expansion; `u` is
  // the node whose edges are being relaxed (or -1) and `k` the next edge of `u`.

  /** Edge `i` of the expanded node `x` has been relaxed: its target is reached and no
      farther than through `x`. */
  ghost predicate Relaxed(adj: seq<seq<Edge>>, D: seq<Dist>, x: int, i: int)
    requires |D| == |adj| && EdgesInRange(adj) && 0 <= x < |D| && 0 <= i < |adj[x]| && D[x].Fin?
  {
    D[adj[x][i].to].Fin? && D[adj[x][i].to].x <= D[x].x + adj[x][i].w
  }

  /** Everything the search knows about node `v`. */
  ghost predicate NodeInv(adj: seq<seq<Edge>>, s: int, D: seq<Dist>, P: seq<int>, via: seq<real>, rank: seq<nat>,
                          done: set<int>, pq: seq<Entry>, last: real, u: int, k: int, v: int)
    requires |D| == |adj| && |P| == |adj| && |via| == |adj| && |rank| == |adj| && EdgesInRange(adj)
    requires 0 <= v < |adj|
  {
    // the parent tree: tight edges, parents expanded before their children
    (D[v].Fin? ==> D[v].x >= 0.0) &&
    (v != s ==> (D[v].Fin? <==> P[v] != -1)) &&
    (P[v] != -1 ==>
       0 <= P[v] < |adj| && P[v] in done && rank[P[v]] < rank[v] &&
       HasEdge(adj, P[v], v, via[v]) && D[P[v]].Fin? && D[v].Fin? && D[v].x == D[P[v]].x + via[v]) &&
    (v in done ==> rank[v] < |done|) &&
    (v !in done ==> rank[v] == |adj|) &&
    // an expanded node is settled at or below `last` with its edges relaxed
    (v in done ==>
       D[v].Fin? && D[v].x <= last &&
       forall i :: 0 <= i < |adj[v]| && (v != u || i < k) ==> Relaxed(adj, D, v, i)) &&
    // the frontier holds the current entry of exactly the reached, unexpanded nodes, once
    (D[v].Fin? ==> (v !in done <==> Entry(D[v].x, v) in pq) && multiset(pq)[Entry(D[v].x, v)] <= 1)
  }

  /** Frontier entry `i` is no lower than its node's distance and no lower than `last`. */
  ghost predicate EntryInv(D: seq<Dist>, pq: seq<Entry>, last: real, i: int)
    requires 0 <= i < |pq|
  {
    0 <= pq[i].node < |D| && D[pq[i].node].Fin? && D[pq[i].node].x <= pq[i].key && last <= pq[i].key
  }

  /** The search invariant. */
  ghost predicate Inv(adj: seq<seq<Edge>>, s: int, D: seq<Dist>, P: seq<int>, via: seq<real>, rank: seq<nat>,
                      done: set<int>, pq: seq<Entry>, last: real, u: int, k: int)
  {
    |D| == |adj| && |P| == |adj| && |via| == |adj| && |rank| == |adj| && EdgesInRange(adj) &&
    0 <= s < |adj| && D[s] == Fin(0.0) && P[s] == -1 && 0.0 <= last &&
    (forall v :: v in done ==> 0 <= v < |adj|) && |done| <= |adj| &&
    (u == -1 || (0 <= u < |adj| && u in done && D[u] == Fin(last))) &&
    (forall v :: 0 <= v < |adj| ==> NodeInv(adj, s, D, P, via, rank, done, pq, last, u, k, v)) &&
    (forall i :: 0 <= i < |pq| ==> EntryInv(D, pq, last, i))
  }

  /** What the search knows when it stops: the parent tree and the optimality of `D[t]`. */
  ghost predicate Settled(adj: seq<seq<Edge>>, s: int, t: int, D: seq<Dist>, P: seq<int>, via: seq<real>, rank: seq<nat>)
  {
    |D| == |adj| && 0 <= s < |adj| && 0 <= t < |adj| && D[s] == Fin(0.0) &&
    Ranked(P, rank) && TightTree(adj, P, via, D) &&
    (D[t].Fin? ==> Reaches(P, rank, s, t)) &&
    (forall p, x :: WalkFromTo(adj, p, s, t, x) ==> D[t].Fin? && D[t].x <= x)
  }

  // ------------------------------------------------------------ steps of the search

  /** The initial state: only the source has a distance, and its entry is queued. */
  lemma InitInv(adj: seq<seq<Edge>>, s: int)
    requires EdgesInRange(adj) && 0 <= s < |adj|
    ensures var n := |adj|;
      Inv(adj, s, seq(n, v => if v == s then Fin(0.0) else Inf), seq(n, _ => -1), seq(n, _ => 0.0),
          seq(n, _ => n), {}, [Entry(0.0, s)], 0.0, -1, 0)
  {
    var n := |adj|;
    var D: seq<Dist> := seq(n, v => if v == s then Fin(0.0) else Inf);
    var pq := [Entry(0.0, s)];
    assert EntryInv(D, pq, 0.0, 0);
  }

  /** A stale pop (its key is not the node's distance) only shrinks the frontier. */
  lemma StalePop(adj: seq<seq<Edge>>, s: int, D: seq<Dist>, P: seq<int>, via: seq<real>,
                 rank: seq<nat>, done: set<int>, pq: seq<Entry>, last: real, i: nat)
    requires Inv(adj, s, D, P, via, rank, done, pq, last, -1, 0)
    requires i < |pq| && 0 <= pq[i].node < |D| && D[pq[i].node] != Fin(pq[i].key)
    ensures Inv(adj, s, D, P, via, rank, done, RemoveAt(pq, i), last, -1, 0)
  {
    var r := RemoveAt(pq, i);
    forall v | 0 <= v < |adj| ensures NodeInv(adj, s, D, P, via, rank, done, r, last, -1, 0, v) {
      assert NodeInv(adj, s, D, P, via, rank, done, pq, last, -1, 0, v);
    }
    forall j | 0 <= j < |r| ensures EntryInv(D, r, last, j) {
      assert EntryInv(D, pq, last, if j < i then j else j + 1);
    }
  }

  /** A fresh pop of a least entry: its node has not been expanded before, and
      expanding it (with `last` raised to its key) keeps the invariant, none of its
      edges relaxed yet. */
  lemma FreshPop(adj: seq<seq<Edge>>, s: int, D: seq<Dist>, P: seq<int>, via: seq<real>,
                 rank: seq<nat>, done: set<int>, pq: seq<Entry>, last: real, i: nat)
    requires Inv(adj, s, D, P, via, rank, done, pq, last, -1, 0)
    requires i < |pq| && 0 <= pq[i].node < |D| && D[pq[i].node] == Fin(pq[i].key)
    requires forall j :: 0 <= j < |pq| ==> pq[i].key <= pq[j].key
    ensures pq[i].node !in done && |done| < |adj|
    ensures var u := pq[i].node;
      Inv(adj, s, D, P, via, rank[u := |done|], done + {u}, RemoveAt(pq, i), pq[i].key, u, 0)
  {
    var u, d := pq[i].node, pq[i].key;
    var rank', done', r := rank[u := |done|], done + {u}, RemoveAt(pq, i);
    assert EntryInv(D, pq, last, i);
    assert NodeInv(adj, s, D, P, via, rank, done, pq, last, -1, 0, u);
    assert u !in done;
    CardRange(done', |adj|);
    forall v | 0 <= v < |adj| ensures NodeInv(adj, s, D, P, via, rank', done', r, d, u, 0, v) {
      FreshPopNode(adj, s, D, P, via, rank, done, pq, last, i, v);
    }
    forall j | 0 <= j < |r| ensures EntryInv(D, r, d, j) {
      assert EntryInv(D, pq, last, if j < i then j else j + 1);
    }
  }

  /** The expansion of `FreshPop` as seen from node `v`. */
  lemma FreshPopNode(adj: seq<seq<Edge>>, s: int, D: seq<Dist>, P: seq<int>, via: seq<real>,
                     rank: seq<nat>, done: set<int>, pq: seq<Entry>, last: real, i: nat, v: int)
    requires Inv(adj, s, D, P, via, rank, done, pq, last, -1, 0)
    requires i < |pq| && 0 <= pq[i].node < |D| && D[pq[i].node] == Fin(pq[i].key) && pq[i].node !in done
    requires forall j :: 0 <= j < |pq| ==> pq[i].key <= pq[j].key
    requires 0 <= v < |adj| && |done + {pq[i].node}| == |done| + 1
    ensures var u := pq[i].node;
      NodeInv(adj, s, D, P, via, rank[u := |done|], done + {u}, RemoveAt(pq, i), pq[i].key, u, 0, v)
  {
    var u, d := pq[i].node, pq[i].key;
    assert EntryInv(D, pq, last, i);
    assert NodeInv(adj, s, D, P, via, rank, done, pq, last, -1, 0, u);
    assert NodeInv(adj, s, D, P, via, rank, done, pq, last, -1, 0, v);
    if P[v] != -1 {
      assert NodeInv(adj, s, D, P, via, rank, done, pq, last, -1, 0, P[v]);
    }
  }

  /** Relaxing edge `k` of `u` without an update (the edge gives no shorter distance). */
  lemma RelaxSkip(adj: seq<seq<Edge>>, s: int, D: seq<Dist>, P: seq<int>, via: seq<real>,
                  rank: seq<nat>, done: set<int>, pq: seq<Entry>, last: real, u: int, k: nat)
    requires Inv(adj, s, D, P, via, rank, done, pq, last, u, k) && u != -1
    requires k < |adj[u]| && !Less(Add(D[u], Fin(adj[u][k].w)), D[adj[u][k].to])
    ensures Inv(adj, s, D, P, via, rank, done, pq, last, u, k + 1)
  {
    var k' := k + 1;
    forall v | 0 <= v < |adj| ensures NodeInv(adj, s, D, P, via, rank, done, pq, last, u, k', v) {
      assert NodeInv(adj, s, D, P, via, rank, done, pq, last, u, k, v);
    }
  }

  /** Relaxing edge `k` of `u` with an update: the target, neither expanded nor the
      source, gets the shorter distance, `u` as its parent and a new frontier entry. */
  lemma RelaxUpdate(adj: seq<seq<Edge>>, s: int, D: seq<Dist>, P: seq<int>, via: seq<real>,
                    rank: seq<nat>, done: set<int>, pq: seq<Entry>, last: real, u: int, k: nat)
    requires Inv(adj, s, D, P, via, rank, done, pq, last, u, k) && u != -1
    requires NonNegativeWeights(adj)
    requires k < |adj[u]| && Less(Add(D[u], Fin(adj[u][k].w)), D[adj[u][k].to])
    ensures var v, w := adj[u][k].to, adj[u][k].w;
      var nd := D[u].x + w;
      Inv(adj, s, D[v := Fin(nd)], P[v := u], via[v := w], rank, done, pq + [Entry(nd, v)], last, u, k + 1)
  {
    var v, w := adj[u][k].to, adj[u][k].w;
    var nd := D[u].x + w;
    var D', P', via', pq' := D[v := Fin(nd)], P[v := u], via[v := w], pq + [Entry(nd, v)];
    assert w >= 0.0;
    assert NodeInv(adj, s, D, P, via, rank, done, pq, last, u, k, u);
    assert NodeInv(adj, s, D, P, via, rank, done, pq, last, u, k, v);
    assert v !in done && v != s && u != v;
    assert HasEdge(adj, u, v, w) by { assert adj[u][k] == Edge(v, w); }
    assert Entry(nd, v) !in pq by {
      forall j | 0 <= j < |pq| ensures pq[j] != Entry(nd, v) {
        assert EntryInv(D, pq, last, j);
      }
    }
    var k' := k + 1;
    forall x | 0 <= x < |adj| ensures NodeInv(adj, s, D', P', via', rank, done, pq', last, u, k', x) {
      RelaxUpdateNode(adj, s, D, P, via, rank, done, pq, last, u, k, x);
    }
    forall j | 0 <= j < |pq'| ensures EntryInv(D', pq', last, j) {
      if j < |pq| {
        assert EntryInv(D, pq, last, j);
      }
    }
  }

  /** The update of `RelaxUpdate` as seen from node `x`. */
  lemma RelaxUpdateNode(adj: seq<seq<Edge>>, s: int, D: seq<Dist>, P: seq<int>, via: seq<real>,
                        rank: seq<nat>, done: set<int>, pq: seq<Entry>, last: real, u: int, k: nat, x: int)
    requires Inv(adj, s, D, P, via, rank, done, pq, last, u, k) && u != -1
    requires k < |adj[u]| && 0 <= x < |adj|
    requires var v, w := adj[u][k].to, adj[u][k].w;
      w >= 0.0 && v !in done && v != s && u != v && HasEdge(adj, u, v, w) && Less(Add(D[u], Fin(w)), D[v]) &&
      Entry(D[u].x + w, v) !in pq
    ensures var v, w := adj[u][k].to, adj[u][k].w;
      var nd := D[u].x + w;
      var k' := k + 1;
      NodeInv(adj, s, D[v := Fin(nd)], P[v := u], via[v := w], rank, done, pq + [Entry(nd, v)], last, u, k', x)
  {
    var v, w := adj[u][k].to, adj[u][k].w;
    var nd := D[u].x + w;
    var D', P', via', pq' := D[v := Fin(nd)], P[v := u], via[v := w], pq + [Entry(nd, v)];
    assert NodeInv(adj, s, D, P, via, rank, done, pq, last, u, k, u);
    assert NodeInv(adj, s, D, P, via, rank, done, pq, last, u, k, x);
    if x in done {
      forall i | 0 <= i < |adj[x]| && (x != u || i < k + 1) ensures Relaxed(adj, D', x, i) {
        if x != u || i < k {
          assert Relaxed(adj, D, x, i);
        }
      }
    }
  }

  /** All edges of `u` relaxed: the state is back to one between expansions. */
  lemma RelaxDone(adj: seq<seq<Edge>>, s: int, D: seq<Dist>, P: seq<int>, via: seq<real>,
                  rank: seq<nat>, done: set<int>, pq: seq<Entry>, last: real, u: int)
    requires 0 <= u < |adj| && Inv(adj, s, D, P, via, rank, done, pq, last, u, |adj[u]|)
    ensures Inv(adj, s, D, P, via, rank, done, pq, last, -1, 0)
  {
    forall v | 0 <= v < |adj| ensures NodeInv(adj, s, D, P, via, rank, done, pq, last, -1, 0, v) {
      assert NodeInv(adj, s, D, P, via, rank, done, pq, last, u, |adj[u]|, v);
    }
  }

  // ------------------------------------------------------------ why the result is optimal

  /** The parent tree of an invariant state, in the terms of the path lemmas. */
  lemma TreeOf(adj: seq<seq<Edge>>, s: int, D: seq<Dist>, P: seq<int>, via: seq<real>,
               rank: seq<nat>, done: set<int>, pq: seq<Entry>, last: real)
    requires Inv(adj, s, D, P, via, rank, done, pq, last, -1, 0)
    ensures Ranked(P, rank) && TightTree(adj, P, via, D)
    ensures forall x :: 0 <= x < |P| && x != s && D[x].Fin? ==> P[x] != -1
  {
    forall x | 0 <= x < |P|
      ensures -1 <= P[x] < |P| && (P[x] != -1 ==> rank[P[x]] < rank[x])
      ensures P[x] != -1 ==> 0 <= P[x] < |P| && HasEdge(adj, P[x], x, via[x]) &&
                             D[P[x]].Fin? && D[x].Fin? && D[x].x == D[P[x]].x + via[x]
      ensures x != s && D[x].Fin? ==> P[x] != -1
    {
      assert NodeInv(adj, s, D, P, via, rank, done, pq, last, -1, 0, x);
    }
  }

  /** Along any walk from `s`, either the last node's distance is within the walk's
      weight, or some earlier node is reached but unexpanded and its distance is within
      the weight: expanded nodes pass their bound on along relaxed edges. */
  lemma {:induction false} FrontierBound(adj: seq<seq<Edge>>, s: int, D: seq<Dist>, P: seq<int>, via: seq<real>,
                                         rank: seq<nat>, done: set<int>, pq: seq<Entry>, last: real, p: seq<int>, x: real)
    requires Inv(adj, s, D, P, via, rank, done, pq, last, -1, 0)
    requires NonNegativeWeights(adj)
    requires IsWalk(adj, p, x) && p[0] == s
    ensures (D[p[|p| - 1]].Fin? && D[p[|p| - 1]].x <= x) ||
            (exists j :: 0 <= j < |p| - 1 && 0 <= p[j] < |D| && p[j] !in done && D[p[j]].Fin? && D[p[j]].x <= x)
    decreases |p|
  {
    if |p| == 1 {
      assert x == 0.0;
    } else {
      var pre := p[..|p| - 1];
      var w := WalkLastEdge(adj, p, x);
      var a, b := p[|p| - 2], p[|p| - 1];
      var ei :| 0 <= ei < |adj[a]| && adj[a][ei] == Edge(b, w);
      assert w >= 0.0;
      FrontierBound(adj, s, D, P, via, rank, done, pq, last, pre, x - w);
      if D[a].Fin? && D[a].x <= x - w {
        if a in done {
          assert NodeInv(adj, s, D, P, via, rank, done, pq, last, -1, 0, a);
          assert Relaxed(adj, D, a, ei);
        } else {
          assert 0 <= a < |D| && pre[|pre| - 1] == a;
        }
      } else {
        var j :| 0 <= j < |pre| - 1 && 0 <= pre[j] < |D| && pre[j] !in done && D[pre[j]].Fin? && D[pre[j]].x <= x - w;
        assert p[j] == pre[j];
      }
    }
  }

  /** The frontier ran empty: every reached node was expanded, so every walk from the
      source to `t` is no lighter than `D[t]`. */
  lemma Exhausted(adj: seq<seq<Edge>>, s: int, t: int, D: seq<Dist>, P: seq<int>, via: seq<real>,
                  rank: seq<nat>, done: set<int>, last: real)
    requires Inv(adj, s, D, P, via, rank, done, [], last, -1, 0) && NonNegativeWeights(adj)
    requires 0 <= t < |adj|
    ensures Settled(adj, s, t, D, P, via, rank)
  {
    TreeOf(adj, s, D, P, via, rank, done, [], last);
    if D[t].Fin? {
      TreeReaches(adj, P, via, D, rank, s, t);
    }
    forall p, x | WalkFromTo(adj, p, s, t, x) ensures D[t].Fin? && D[t].x <= x {
      FrontierBound(adj, s, D, P, via, rank, done, [], last, p, x);
      forall j | 0 <= j < |p| - 1 && 0 <= p[j] < |D| && D[p[j]].Fin? ensures p[j] in done {
        assert NodeInv(adj, s, D, P, via, rank, done, [], last, -1, 0, p[j]);
      }
    }
  }

  /** The target was popped fresh with the least key: any walk to it either stays in
      expanded nodes or crosses a queued node whose key is no smaller. */
  lemma AtTarget(adj: seq<seq<Edge>>, s: int, t: int, D: seq<Dist>, P: seq<int>, via: seq<real>,
                 rank: seq<nat>, done: set<int>, pq: seq<Entry>, last: real, i: nat)
    requires Inv(adj, s, D, P, via, rank, done, pq, last, -1, 0) && NonNegativeWeights(adj)
    requires 0 <= t < |adj| && i < |pq| && pq[i].node == t && D[t] == Fin(pq[i].key)
    requires forall j :: 0 <= j < |pq| ==> pq[i].key <= pq[j].key
    ensures t !in done && |done| < |adj|
    ensures Settled(adj, s, t, D, P, via, rank)
  {
    assert NodeInv(adj, s, D, P, via, rank, done, pq, last, -1, 0, t);
    CardRange(done + {t}, |adj|);
    TreeOf(adj, s, D, P, via, rank, done, pq, last);
    TreeReaches(adj, P, via, D, rank, s, t);
    forall v | 0 <= v < |D| && v !in done && D[v].Fin? ensures D[t].x <= D[v].x {
      assert NodeInv(adj, s, D, P, via, rank, done, pq, last, -1, 0, v);
      var m :| 0 <= m < |pq| && pq[m] == Entry(D[v].x, v);
    }
    forall p, x | WalkFromTo(adj, p, s, t, x) ensures D[t].Fin? && D[t].x <= x {
      FrontierBound(adj, s, D, P, via, rank, done, pq, last, p, x);
    }
  }
}

/** `dijkstra_search` (planner.cpp:43-77): uniform-cost search with a lazily updated
    frontier, where a popped entry whose key is no longer its node's distance is stale
    and skipped. */
module Dijkstra {
  import opened GraphModel
  import opened Walks
  import opened Frontier
  import opened Planner
  import opened DijkstraProof

  /** The relaxation loop over the out-edges of the expanded node `u`
      (planner.cpp:63-69): an edge that gives its target a shorter distance records
      `u` as the target's parent and pushes the new entry. Distances only decrease. */
  method RelaxEdges(adj: seq<seq<Edge>>, s: int, dist: seq<Dist>, parent: seq<int>, u: int, pq: seq<Entry>,
                    ghost via: seq<real>, ghost rank: seq<nat>, ghost done: set<int>, ghost last: real)
    returns (dist': seq<Dist>, parent': seq<int>, pq': seq<Entry>, ghost via': seq<real>)
    requires NonNegativeWeights(adj)
    requires Inv(adj, s, dist, parent, via, rank, done, pq, last, u, 0) && u != -1
    ensures Inv(adj, s, dist', parent', via', rank, done, pq', last, -1, 0)
    ensures |dist'| == |dist| && forall v :: 0 <= v < |dist| ==> !Less(dist[v], dist'[v])
  {
    dist', parent', pq', via' := dist, parent, pq, via;
    var k := 0;
    while k < |adj[u]|
      invariant 0 <= k <= |adj[u]|
      invariant Inv(adj, s, dist', parent', via', rank, done, pq', last, u, k)
      invariant forall v :: 0 <= v < |dist| ==> !Less(dist[v], dist'[v])
    {
      var e := adj[u][k];
      if Less(Add(dist'[u], Fin(e.w)), dist'[e.to]) {
        RelaxUpdate(adj, s, dist', parent', via', rank, done, pq', last, u, k);
        var nd := dist'[u].x + e.w;
        dist' := dist'[e.to := Fin(nd)];
        parent' := parent'[e.to := u];
        via' := via'[e.to := e.w];
        pq' := pq' + [Entry(nd, e.to)];
      } else {
        RelaxSkip(adj, s, dist', parent', via', rank, done, pq', last, u, k);
      }
      k := k + 1;
    }
    RelaxDone(adj, s, dist', parent', via', rank, done, pq', last, u);
  }

  /** One round of the main loop (planner.cpp:59-69): pop the least entry; a stale
      one is dropped; a fresh one is expanded, which either stops the search at `t`
      or relaxes the edges of its node. */
  method Step(adj: seq<seq<Edge>>, s: int, t: int, dist: seq<Dist>, parent: seq<int>, pq: seq<Entry>,
              ghost via: seq<real>, ghost rank: seq<nat>, ghost done: set<int>, ghost last: real)
    returns (dist': seq<Dist>, parent': seq<int>, pq': seq<Entry>, wasFresh: bool, stop: bool,
             ghost via': seq<real>, ghost rank': seq<nat>, ghost done': set<int>, ghost last': real)
    requires NonNegativeWeights(adj) && 0 <= t < |adj| && pq != []
    requires Inv(adj, s, dist, parent, via, rank, done, pq, last, -1, 0)
    requires done == {} ==> pq == [Entry(0.0, s)]
    requires s == t ==> done == {}
    ensures stop ==> wasFresh && |done| < |adj| && Settled(adj, s, t, dist', parent', via', rank')
    ensures stop && done == {} ==> s == t
    ensures !stop ==> Inv(adj, s, dist', parent', via', rank', done', pq', last', -1, 0)
    ensures !stop && wasFresh ==> s != t && done' != {} && |done'| == |done| + 1
    ensures !wasFresh ==> done != {} && done' == done && |pq'| == |pq| - 1
  {
    var i := LexMinIndex(pq);
    var d, u := pq[i].key, pq[i].node;
    assert EntryInv(dist, pq, last, i);
    pq' := RemoveAt(pq, i);
    dist', parent', via', rank', done', last' := dist, parent, via, rank, done, last;
    if dist[u] != Fin(d) {
      StalePop(adj, s, dist, parent, via, rank, done, pq, last, i);
      wasFresh, stop := false, false;
      return;
    }
    wasFresh := true;
    if u == t {
      AtTarget(adj, s, t, dist, parent, via, rank, done, pq, last, i);
      stop := true;
      return;
    }
    stop := false;
    FreshPop(adj, s, dist, parent, via, rank, done, pq, last, i);
    rank' := rank[u := |done|];
    done' := done + {u};
    last' := d;
    dist', parent', pq', via' := RelaxEdges(adj, s, dist, parent, u, pq', via, rank', done', last');
  }

  /** The main loop of `dijkstra_search` (planner.cpp:58-70): pop the least entry,
      skip it when stale, stop at `t`, otherwise expand it. It ends with the
      distances and parent links the result is read from. */
  method Settle(adj: seq<seq<Edge>>, s: int, t: int)
    returns (dist: seq<Dist>, parent: seq<int>, expanded: nat, ghost via: seq<real>, ghost rank: seq<nat>)
    requires EdgesInRange(adj) && NonNegativeWeights(adj) && 0 <= s < |adj| && 0 <= t < |adj|
    ensures Settled(adj, s, t, dist, parent, via, rank)
    ensures 1 <= expanded <= |adj| && (s == t ==> expanded == 1)
  {
    var n := |adj|;
    dist := seq(n, v => if v == s then Fin(0.0) else Inf);
    parent := seq(n, _ => -1);
    var pq := [Entry(0.0, s)];
    expanded := 0;
    via := seq(n, _ => 0.0);
    rank := seq(n, _ => n);
    ghost var done: set<int> := {};
    ghost var last := 0.0;
    InitInv(adj, s);
    while pq != []
      invariant Inv(adj, s, dist, parent, via, rank, done, pq, last, -1, 0)
      invariant expanded == |done|
      invariant done == {} ==> pq == [Entry(0.0, s)]
      invariant s == t ==> done == {}
      decreases n - |done|, |pq|
    {
      var wasFresh, stop;
      dist, parent, pq, wasFresh, stop, via, rank, done, last := Step(adj, s, t, dist, parent, pq, via, rank, done, last);
      if wasFresh {
        expanded := expanded + 1;
      }
      if stop {
        return;
      }
    }
    Exhausted(adj, s, t, dist, parent, via, rank, done, last);
  }

  /** `dijkstra_search(g, s, t)`. For valid `s` and `t` the distance is the least
      weight of a walk from `s` to `t` (infinity when there is none) and the path is
      such a walk; out-of-range indices give the default `Stats`. */
  method DijkstraSearch(g: Graph, s: int, t: int) returns (st: Stats)
    requires g.Valid() && NonNegativeWeights(g.adj)
    ensures !(0 <= s < |g.adj| && 0 <= t < |g.adj|) ==> st == DefaultStats
    ensures 0 <= s < |g.adj| && 0 <= t < |g.adj| ==>
      && 1 <= st.nodesExpanded <= |g.adj|
      && (st.distance.Inf? <==> st.path == [])
      && (st.distance.Fin? ==> WalkFromTo(g.adj, st.path, s, t, st.distance.x))
      && (forall p, x :: WalkFromTo(g.adj, p, s, t, x) ==> st.distance.Fin? && st.distance.x <= x)
      && (s == t ==> st == Stats(Fin(0.0), 1, 0, [s]))
  {
    var adj := g.Adjacency();
    var n := |adj|;
    if s < 0 || s >= n || t < 0 || t >= n { return DefaultStats; }
    var dist, parent, expanded, via, rank := Settle(adj, s, t);
    var path := ReconstructParent(parent, s, t, rank);
    if dist[t].Fin? {
      ReconstructedWalk(adj, parent, via, dist, s, t, path);
    }
    st := Stats(dist[t], expanded, 0, path);
  }
}
