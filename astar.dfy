/** The invariant of `astar_search` (planner.cpp:81-133), best-first search on
    `f = g + h` with a closed set, and the steps that keep it. */
module AStarProof {
  import opened GraphModel
  import opened Walks
  import opened Frontier
  import opened Planner

  // A search state: G = gscore, F = fscore, P = parent, via[v] = weight of the edge
  // P[v] -> v, closed = the closed flags and done the same nodes as a set, rank[v] =
  // position of v in closing order (|adj| while open), pq = the open list; `u` is the
  // node whose edges are being relaxed (or -1) and `k` the next edge of `u`.

  /** Edge `i` of the closed node `x` has been looked at: its target has a g-score. */
  ghost predicate Relaxed(adj: seq<seq<Edge>>, G: seq<Dist>, x: int, i: int)
    requires |G| == |adj| && EdgesInRange(adj) && 0 <= x < |G| && 0 <= i < |adj[x]|
  {
    G[adj[x][i].to].Fin?
  }

  /** Everything the search knows about node `v`. */
  ghost predicate NodeInv(adj: seq<seq<Edge>>, h: int -> real, s: int, G: seq<Dist>, F: seq<Dist>, P: seq<int>,
                          via: seq<real>, rank: seq<nat>, closed: seq<bool>, done: set<int>, pq: seq<Entry>,
                          u: int, k: int, v: int)
    requires |G| == |adj| && |F| == |adj| && |P| == |adj| && |via| == |adj| && |rank| == |adj| && |closed| == |adj|
    requires EdgesInRange(adj) && 0 <= v < |adj|
  {
    // the parent tree: tight edges, parents closed before their children
    (v != s ==> (G[v].Fin? <==> P[v] != -1)) &&
    (P[v] != -1 ==>
       0 <= P[v] < |adj| && P[v] in done && rank[P[v]] < rank[v] &&
       HasEdge(adj, P[v], v, via[v]) && G[P[v]].Fin? && G[v].Fin? && G[v].x == G[P[v]].x + via[v]) &&
    (closed[v] <==> v in done) &&
    (v in done ==> rank[v] < |done| && G[v].Fin?) &&
    (v !in done ==> rank[v] == |adj|) &&
    // a closed node has given a g-score to the targets of its edges
    (v in done ==> forall i :: 0 <= i < |adj[v]| && (v != u || i < k) ==> Relaxed(adj, G, v, i)) &&
    // an open node with a g-score has its current f-score in the open list
    (G[v].Fin? ==> F[v] == Fin(G[v].x + h(v))) &&
    (G[v].Fin? && v !in done ==> Entry(F[v].x, v) in pq)
  }

  /** Open-list entry `i` names a node with a g-score. */
  ghost predicate EntryInv(G: seq<Dist>, pq: seq<Entry>, i: int)
    requires 0 <= i < |pq|
  {
    0 <= pq[i].node < |G| && G[pq[i].node].Fin?
  }

  /** The search invariant. */
  ghost predicate Inv(adj: seq<seq<Edge>>, h: int -> real, s: int, G: seq<Dist>, F: seq<Dist>, P: seq<int>,
                      via: seq<real>, rank: seq<nat>, closed: seq<bool>, done: set<int>, pq: seq<Entry>,
                      u: int, k: int)
  {
    |G| == |adj| && |F| == |adj| && |P| == |adj| && |via| == |adj| && |rank| == |adj| && |closed| == |adj| &&
    EdgesInRange(adj) && 0 <= s < |adj| && G[s] == Fin(0.0) &&
    (forall v :: v in done ==> 0 <= v < |adj|) && |done| <= |adj| &&
    (done != {} ==> s in done) &&
    (u == -1 || (0 <= u < |adj| && u in done && G[u].Fin?)) &&
    (forall v :: 0 <= v < |adj| ==> NodeInv(adj, h, s, G, F, P, via, rank, closed, done, pq, u, k, v)) &&
    (forall i :: 0 <= i < |pq| ==> EntryInv(G, pq, i))
  }

  /** What the search knows when it stops: the parent tree, and `t` has a g-score
      whenever some walk leads from `s` to `t`. */
  ghost predicate Settled(adj: seq<seq<Edge>>, s: int, t: int, G: seq<Dist>, P: seq<int>, via: seq<real>, rank: seq<nat>)
  {
    |G| == |adj| && 0 <= s < |adj| && 0 <= t < |adj| && G[s] == Fin(0.0) &&
    Ranked(P, rank) && TightTree(adj, P, via, G) &&
    (G[t].Fin? ==> Reaches(P, rank, s, t)) &&
    (forall p, x :: WalkFromTo(adj, p, s, t, x) ==> G[t].Fin?)
  }

  // ------------------------------------------------------------ steps of the search

  /** The initial state: only the source has a g-score, and its entry is open. */
  lemma InitInv(adj: seq<seq<Edge>>, h: int -> real, s: int)
    requires EdgesInRange(adj) && 0 <= s < |adj|
    ensures var n := |adj|;
      Inv(adj, h, s, seq(n, v => if v == s then Fin(0.0) else Inf), seq(n, v => if v == s then Fin(h(s)) else Inf),
          seq(n, _ => -1), seq(n, _ => 0.0), seq(n, _ => n), seq(n, _ => false), {}, [Entry(h(s), s)], -1, 0)
  {
    var n := |adj|;
    var G: seq<Dist> := seq(n, v => if v == s then Fin(0.0) else Inf);
    var pq := [Entry(h(s), s)];
    assert EntryInv(G, pq, 0);
    assert 0.0 + h(s) == h(s);
  }

  /** Popping an entry of a closed node only shrinks the open list. */
  lemma ClosedPop(adj: seq<seq<Edge>>, h: int -> real, s: int, G: seq<Dist>, F: seq<Dist>, P: seq<int>,
                  via: seq<real>, rank: seq<nat>, closed: seq<bool>, done: set<int>, pq: seq<Entry>, i: nat)
    requires Inv(adj, h, s, G, F, P, via, rank, closed, done, pq, -1, 0)
    requires i < |pq| && 0 <= pq[i].node < |closed| && closed[pq[i].node]
    ensures pq[i].node in done
    ensures Inv(adj, h, s, G, F, P, via, rank, closed, done, RemoveAt(pq, i), -1, 0)
  {
    var r := RemoveAt(pq, i);
    assert NodeInv(adj, h, s, G, F, P, via, rank, closed, done, pq, -1, 0, pq[i].node);
    forall v | 0 <= v < |adj| ensures NodeInv(adj, h, s, G, F, P, via, rank, closed, done, r, -1, 0, v) {
      assert NodeInv(adj, h, s, G, F, P, via, rank, closed, done, pq, -1, 0, v);
    }
    forall j | 0 <= j < |r| ensures EntryInv(G, r, j) {
      assert EntryInv(G, pq, if j < i then j else j + 1);
    }
  }

  /** Popping an entry of an open node closes it (ranked after every node closed before). */
  lemma OpenPop(adj: seq<seq<Edge>>, h: int -> real, s: int, G: seq<Dist>, F: seq<Dist>, P: seq<int>,
                via: seq<real>, rank: seq<nat>, closed: seq<bool>, done: set<int>, pq: seq<Entry>, i: nat)
    requires Inv(adj, h, s, G, F, P, via, rank, closed, done, pq, -1, 0)
    requires i < |pq| && 0 <= pq[i].node < |closed| && !closed[pq[i].node]
    requires done == {} ==> pq[i].node == s
    ensures pq[i].node !in done && |done| < |adj| && G[pq[i].node].Fin?
    ensures var u := pq[i].node;
      Inv(adj, h, s, G, F, P, via, rank[u := |done|], closed[u := true], done + {u}, RemoveAt(pq, i), u, 0)
  {
    var u := pq[i].node;
    var rank', closed', done', r := rank[u := |done|], closed[u := true], done + {u}, RemoveAt(pq, i);
    assert EntryInv(G, pq, i);
    assert NodeInv(adj, h, s, G, F, P, via, rank, closed, done, pq, -1, 0, u);
    CardRange(done', |adj|);
    forall v | 0 <= v < |adj| ensures NodeInv(adj, h, s, G, F, P, via, rank', closed', done', r, u, 0, v) {
      assert NodeInv(adj, h, s, G, F, P, via, rank, closed, done, pq, -1, 0, v);
      if P[v] != -1 {
        assert NodeInv(adj, h, s, G, F, P, via, rank, closed, done, pq, -1, 0, P[v]);
      }
    }
    forall j | 0 <= j < |r| ensures EntryInv(G, r, j) {
      assert EntryInv(G, pq, if j < i then j else j + 1);
    }
  }

  /** Edge `k` of `u` leads to a closed node, or gives no smaller g-score: nothing changes. */
  lemma RelaxSkip(adj: seq<seq<Edge>>, h: int -> real, s: int, G: seq<Dist>, F: seq<Dist>, P: seq<int>,
                  via: seq<real>, rank: seq<nat>, closed: seq<bool>, done: set<int>, pq: seq<Entry>, u: int, k: nat)
    requires Inv(adj, h, s, G, F, P, via, rank, closed, done, pq, u, k) && u != -1 && k < |adj[u]|
    requires closed[adj[u][k].to] || !Less(Fin(G[u].x + adj[u][k].w), G[adj[u][k].to])
    ensures Inv(adj, h, s, G, F, P, via, rank, closed, done, pq, u, k + 1)
  {
    var k' := k + 1;
    var v := adj[u][k].to;
    assert NodeInv(adj, h, s, G, F, P, via, rank, closed, done, pq, u, k, u);
    assert NodeInv(adj, h, s, G, F, P, via, rank, closed, done, pq, u, k, v);
    forall x | 0 <= x < |adj| ensures NodeInv(adj, h, s, G, F, P, via, rank, closed, done, pq, u, k', x) {
      assert NodeInv(adj, h, s, G, F, P, via, rank, closed, done, pq, u, k, x);
    }
  }

  /** Edge `k` of `u` gives its open target a smaller g-score: the target gets it,
      `u` as its parent, the matching f-score and a new open-list entry. */
  lemma RelaxUpdate(adj: seq<seq<Edge>>, h: int -> real, s: int, G: seq<Dist>, F: seq<Dist>, P: seq<int>,
                    via: seq<real>, rank: seq<nat>, closed: seq<bool>, done: set<int>, pq: seq<Entry>, u: int, k: nat)
    requires Inv(adj, h, s, G, F, P, via, rank, closed, done, pq, u, k) && u != -1 && k < |adj[u]|
    requires !closed[adj[u][k].to] && Less(Fin(G[u].x + adj[u][k].w), G[adj[u][k].to])
    ensures var v, w := adj[u][k].to, adj[u][k].w;
      var tentative := G[u].x + w;
      Inv(adj, h, s, G[v := Fin(tentative)], F[v := Fin(tentative + h(v))], P[v := u], via[v := w], rank,
          closed, done, pq + [Entry(tentative + h(v), v)], u, k + 1)
  {
    var v, w := adj[u][k].to, adj[u][k].w;
    var tentative := G[u].x + w;
    var G', F', P', via', pq' := G[v := Fin(tentative)], F[v := Fin(tentative + h(v))], P[v := u], via[v := w],
                                 pq + [Entry(tentative + h(v), v)];
    var k' := k + 1;
    assert NodeInv(adj, h, s, G, F, P, via, rank, closed, done, pq, u, k, u);
    assert NodeInv(adj, h, s, G, F, P, via, rank, closed, done, pq, u, k, v);
    assert v !in done && v != s && u != v;
    assert HasEdge(adj, u, v, w) by { assert adj[u][k] == Edge(v, w); }
    forall x | 0 <= x < |adj| ensures NodeInv(adj, h, s, G', F', P', via', rank, closed, done, pq', u, k', x) {
      assert NodeInv(adj, h, s, G, F, P, via, rank, closed, done, pq, u, k, x);
      if x in done {
        forall i | 0 <= i < |adj[x]| && (x != u || i < k') ensures Relaxed(adj, G', x, i) {
          if x != u || i < k {
            assert Relaxed(adj, G, x, i);
          }
        }
      }
    }
    forall j | 0 <= j < |pq'| ensures EntryInv(G', pq', j) {
      if j < |pq| {
        assert EntryInv(G, pq, j);
      }
    }
  }

  /** All edges of `u` looked at: the state is back to one between expansions. */
  lemma RelaxDone(adj: seq<seq<Edge>>, h: int -> real, s: int, G: seq<Dist>, F: seq<Dist>, P: seq<int>,
                  via: seq<real>, rank: seq<nat>, closed: seq<bool>, done: set<int>, pq: seq<Entry>, u: int)
    requires 0 <= u < |adj| && Inv(adj, h, s, G, F, P, via, rank, closed, done, pq, u, |adj[u]|)
    ensures Inv(adj, h, s, G, F, P, via, rank, closed, done, pq, -1, 0)
  {
    forall v | 0 <= v < |adj| ensures NodeInv(adj, h, s, G, F, P, via, rank, closed, done, pq, -1, 0, v) {
      assert NodeInv(adj, h, s, G, F, P, via, rank, closed, done, pq, u, |adj[u]|, v);
    }
  }

  // ------------------------------------------------------------ why the result holds

  /** The parent tree of an invariant state, in the terms of the path lemmas. */
  lemma TreeOf(adj: seq<seq<Edge>>, h: int -> real, s: int, G: seq<Dist>, F: seq<Dist>, P: seq<int>,
               via: seq<real>, rank: seq<nat>, closed: seq<bool>, done: set<int>, pq: seq<Entry>, u: int, k: int)
    requires Inv(adj, h, s, G, F, P, via, rank, closed, done, pq, u, k)
    ensures Ranked(P, rank) && TightTree(adj, P, via, G)
    ensures forall x :: 0 <= x < |P| && x != s && G[x].Fin? ==> P[x] != -1
  {
    forall x | 0 <= x < |P|
      ensures -1 <= P[x] < |P| && (P[x] != -1 ==> rank[P[x]] < rank[x])
      ensures P[x] != -1 ==> 0 <= P[x] < |P| && HasEdge(adj, P[x], x, via[x]) &&
                             G[P[x]].Fin? && G[x].Fin? && G[x].x == G[P[x]].x + via[x]
      ensures x != s && G[x].Fin? ==> P[x] != -1
    {
      assert NodeInv(adj, h, s, G, F, P, via, rank, closed, done, pq, u, k, x);
    }
  }

  /** With the open list empty, every node on a walk from `s` has a g-score: the nodes
      with one are all closed, and closed nodes give one to their edges' targets. */
  lemma {:induction false} ReachedAlong(adj: seq<seq<Edge>>, h: int -> real, s: int, G: seq<Dist>, F: seq<Dist>,
                                        P: seq<int>, via: seq<real>, rank: seq<nat>, closed: seq<bool>, done: set<int>,
                                        p: seq<int>, x: real)
    requires Inv(adj, h, s, G, F, P, via, rank, closed, done, [], -1, 0)
    requires IsWalk(adj, p, x) && p[0] == s
    ensures 0 <= p[|p| - 1] < |G| && G[p[|p| - 1]].Fin?
    decreases |p|
  {
    if |p| > 1 {
      var pre := p[..|p| - 1];
      var w := WalkLastEdge(adj, p, x);
      var a, b := p[|p| - 2], p[|p| - 1];
      ReachedAlong(adj, h, s, G, F, P, via, rank, closed, done, pre, x - w);
      assert pre[|pre| - 1] == a;
      var ei :| 0 <= ei < |adj[a]| && adj[a][ei] == Edge(b, w);
      assert NodeInv(adj, h, s, G, F, P, via, rank, closed, done, [], -1, 0, a);
      assert Relaxed(adj, G, a, ei);
    }
  }

  /** The open list ran empty. */
  lemma Exhausted(adj: seq<seq<Edge>>, h: int -> real, s: int, t: int, G: seq<Dist>, F: seq<Dist>, P: seq<int>,
                  via: seq<real>, rank: seq<nat>, closed: seq<bool>, done: set<int>)
    requires Inv(adj, h, s, G, F, P, via, rank, closed, done, [], -1, 0) && 0 <= t < |adj|
    ensures Settled(adj, s, t, G, P, via, rank)
  {
    TreeOf(adj, h, s, G, F, P, via, rank, closed, done, [], -1, 0);
    if G[t].Fin? {
      TreeReaches(adj, P, via, G, rank, s, t);
    }
    forall p, x | WalkFromTo(adj, p, s, t, x) ensures G[t].Fin? {
      ReachedAlong(adj, h, s, G, F, P, via, rank, closed, done, p, x);
    }
  }

  /** The target was closed: it has a g-score, and the parent walk from it meets `s`. */
  lemma AtTarget(adj: seq<seq<Edge>>, h: int -> real, s: int, t: int, G: seq<Dist>, F: seq<Dist>, P: seq<int>,
                 via: seq<real>, rank: seq<nat>, closed: seq<bool>, done: set<int>, pq: seq<Entry>)
    requires Inv(adj, h, s, G, F, P, via, rank, closed, done, pq, t, 0) && 0 <= t < |adj|
    ensures Settled(adj, s, t, G, P, via, rank)
  {
    assert NodeInv(adj, h, s, G, F, P, via, rank, closed, done, pq, t, 0, t);
    TreeOf(adj, h, s, G, F, P, via, rank, closed, done, pq, t, 0);
    TreeReaches(adj, P, via, G, rank, s, t);
  }

  // ------------------------------------------------------------ optimality under a consistent heuristic

  /** `h` drops by no more than an edge's weight along that edge. */
  ghost predicate Consistent(adj: seq<seq<Edge>>, h: int -> real) {
    forall u, i :: 0 <= u < |adj| && 0 <= i < |adj[u]| ==> h(u) <= adj[u][i].w + h(adj[u][i].to)
  }

  /** `G[t]` is no heavier than any walk from `s` to `t`. */
  ghost predicate Optimal(adj: seq<seq<Edge>>, s: int, t: int, G: seq<Dist>)
    requires |G| == |adj| && 0 <= t < |adj|
  {
    forall p, x :: WalkFromTo(adj, p, s, t, x) ==> G[t].Fin? && G[t].x <= x
  }

  /** Edge `i` of the closed node `x` leaves its target a g-score within the edge's weight. */
  ghost predicate Bounded(adj: seq<seq<Edge>>, G: seq<Dist>, x: int, i: int)
    requires |G| == |adj| && EdgesInRange(adj) && 0 <= x < |G| && 0 <= i < |adj[x]| && G[x].Fin?
  {
    G[adj[x][i].to].Fin? && G[adj[x][i].to].x <= G[x].x + adj[x][i].w
  }

  /** What a consistent heuristic adds about node `v`: a closed node's f-score is at
      most `last`, and its looked-at edges are bounded. */
  ghost predicate OptNode(adj: seq<seq<Edge>>, h: int -> real, G: seq<Dist>, done: set<int>, last: real,
                          u: int, k: int, v: int)
    requires |G| == |adj| && EdgesInRange(adj) && 0 <= v < |adj|
  {
    v in done ==>
      G[v].Fin? && G[v].x + h(v) <= last &&
      forall i :: 0 <= i < |adj[v]| && (v != u || i < k) ==> Bounded(adj, G, v, i)
  }

  /** Open-list entry `i` is no lower than its node's f-score and no lower than `last`. */
  ghost predicate OptEntry(G: seq<Dist>, h: int -> real, pq: seq<Entry>, last: real, i: int)
    requires 0 <= i < |pq|
  {
    0 <= pq[i].node < |G| && G[pq[i].node].Fin? &&
    G[pq[i].node].x + h(pq[i].node) <= pq[i].key && last <= pq[i].key
  }

  /** The invariant a consistent heuristic keeps on top of `Inv`: nodes are closed in
      order of f-score, `last` being the f-score of the latest one (`u`, while its
      edges are looked at). */
  ghost predicate OptInv(adj: seq<seq<Edge>>, h: int -> real, G: seq<Dist>, done: set<int>, pq: seq<Entry>,
                         last: real, u: int, k: int)
  {
    |G| == |adj| && EdgesInRange(adj) &&
    (u != -1 ==> 0 <= u < |adj| && G[u].Fin? && G[u].x + h(u) == last) &&
    (forall v :: 0 <= v < |adj| ==> OptNode(adj, h, G, done, last, u, k, v)) &&
    (forall i :: 0 <= i < |pq| ==> OptEntry(G, h, pq, last, i))
  }

  /** With non-negative weights the zero heuristic is consistent: A* then runs as
      Dijkstra does. */
  lemma ZeroHeuristicConsistent(adj: seq<seq<Edge>>)
    requires NonNegativeWeights(adj)
    ensures Consistent(adj, _ => 0.0)
  {
  }

  lemma InitOpt(adj: seq<seq<Edge>>, h: int -> real, s: int)
    requires EdgesInRange(adj) && 0 <= s < |adj|
    ensures OptInv(adj, h, seq(|adj|, v => if v == s then Fin(0.0) else Inf), {}, [Entry(h(s), s)], h(s), -1, 0)
  {
    var G: seq<Dist> := seq(|adj|, v => if v == s then Fin(0.0) else Inf);
    assert 0.0 + h(s) == h(s);
    assert OptEntry(G, h, [Entry(h(s), s)], h(s), 0);
  }

  lemma ClosedPopOpt(adj: seq<seq<Edge>>, h: int -> real, G: seq<Dist>, done: set<int>, pq: seq<Entry>,
                     last: real, i: nat)
    requires OptInv(adj, h, G, done, pq, last, -1, 0) && i < |pq|
    ensures OptInv(adj, h, G, done, RemoveAt(pq, i), last, -1, 0)
  {
    var r := RemoveAt(pq, i);
    forall j | 0 <= j < |r| ensures OptEntry(G, h, r, last, j) {
      assert OptEntry(G, h, pq, last, if j < i then j else j + 1);
    }
  }

  /** Closing the node of a least entry: its f-score is that entry's key, which
      becomes `last`. */
  lemma OpenPopOpt(adj: seq<seq<Edge>>, h: int -> real, s: int, G: seq<Dist>, F: seq<Dist>, P: seq<int>,
                   via: seq<real>, rank: seq<nat>, closed: seq<bool>, done: set<int>, pq: seq<Entry>,
                   last: real, i: nat)
    requires Inv(adj, h, s, G, F, P, via, rank, closed, done, pq, -1, 0)
    requires OptInv(adj, h, G, done, pq, last, -1, 0)
    requires IsKeyMin(pq, i) && 0 <= pq[i].node < |closed| && !closed[pq[i].node]
    ensures OptInv(adj, h, G, done + {pq[i].node}, RemoveAt(pq, i), pq[i].key, pq[i].node, 0)
  {
    var u, key := pq[i].node, pq[i].key;
    var done', r := done + {u}, RemoveAt(pq, i);
    assert OptEntry(G, h, pq, last, i);
    assert NodeInv(adj, h, s, G, F, P, via, rank, closed, done, pq, -1, 0, u);
    var m :| 0 <= m < |pq| && pq[m] == Entry(F[u].x, u);
    assert G[u].x + h(u) == key;
    forall v | 0 <= v < |adj| ensures OptNode(adj, h, G, done', key, u, 0, v) {
      assert OptNode(adj, h, G, done, last, -1, 0, v);
    }
    forall j | 0 <= j < |r| ensures OptEntry(G, h, r, key, j) {
      assert OptEntry(G, h, pq, last, if j < i then j else j + 1);
    }
  }

  /** Edge `k` of `u` is skipped: its target is closed, so consistency bounds its
      g-score, or the edge gives no smaller g-score. */
  lemma RelaxSkipOpt(adj: seq<seq<Edge>>, h: int -> real, s: int, G: seq<Dist>, F: seq<Dist>, P: seq<int>,
                     via: seq<real>, rank: seq<nat>, closed: seq<bool>, done: set<int>, pq: seq<Entry>,
                     last: real, u: int, k: nat)
    requires Inv(adj, h, s, G, F, P, via, rank, closed, done, pq, u, k) && u != -1 && k < |adj[u]|
    requires OptInv(adj, h, G, done, pq, last, u, k) && Consistent(adj, h)
    requires closed[adj[u][k].to] || !Less(Fin(G[u].x + adj[u][k].w), G[adj[u][k].to])
    ensures OptInv(adj, h, G, done, pq, last, u, k + 1)
  {
    var v, w := adj[u][k].to, adj[u][k].w;
    var k' := k + 1;
    if closed[v] {
      assert NodeInv(adj, h, s, G, F, P, via, rank, closed, done, pq, u, k, v);
      assert OptNode(adj, h, G, done, last, u, k, v);
      assert h(u) <= w + h(v);
    }
    assert Bounded(adj, G, u, k);
    forall x | 0 <= x < |adj| ensures OptNode(adj, h, G, done, last, u, k', x) {
      assert OptNode(adj, h, G, done, last, u, k, x);
    }
  }

  /** Edge `k` of `u` lowers its open target's g-score: the new entry's key is at
      least `last` by consistency, and the edge becomes tight. */
  lemma RelaxUpdateOpt(adj: seq<seq<Edge>>, h: int -> real, s: int, G: seq<Dist>, F: seq<Dist>, P: seq<int>,
                       via: seq<real>, rank: seq<nat>, closed: seq<bool>, done: set<int>, pq: seq<Entry>,
                       last: real, u: int, k: nat)
    requires Inv(adj, h, s, G, F, P, via, rank, closed, done, pq, u, k) && u != -1 && k < |adj[u]|
    requires OptInv(adj, h, G, done, pq, last, u, k) && Consistent(adj, h)
    requires !closed[adj[u][k].to] && Less(Fin(G[u].x + adj[u][k].w), G[adj[u][k].to])
    ensures var v, w := adj[u][k].to, adj[u][k].w;
      var tentative := G[u].x + w;
      OptInv(adj, h, G[v := Fin(tentative)], done, pq + [Entry(tentative + h(v), v)], last, u, k + 1)
  {
    var v, w := adj[u][k].to, adj[u][k].w;
    var tentative := G[u].x + w;
    var G', pq' := G[v := Fin(tentative)], pq + [Entry(tentative + h(v), v)];
    var k' := k + 1;
    assert NodeInv(adj, h, s, G, F, P, via, rank, closed, done, pq, u, k, v);
    assert v !in done && u != v;
    assert h(u) <= w + h(v);
    forall x | 0 <= x < |adj| ensures OptNode(adj, h, G', done, last, u, k', x) {
      assert OptNode(adj, h, G, done, last, u, k, x);
      if x in done {
        forall i | 0 <= i < |adj[x]| && (x != u || i < k') ensures Bounded(adj, G', x, i) {
          if x != u || i < k {
            assert Bounded(adj, G, x, i);
          }
        }
      }
    }
    forall j | 0 <= j < |pq'| ensures OptEntry(G', h, pq', last, j) {
      if j < |pq| {
        assert OptEntry(G, h, pq, last, j);
      }
    }
  }

  lemma RelaxDoneOpt(adj: seq<seq<Edge>>, h: int -> real, G: seq<Dist>, done: set<int>, pq: seq<Entry>,
                     last: real, u: int)
    requires 0 <= u < |adj| && OptInv(adj, h, G, done, pq, last, u, |adj[u]|)
    ensures OptInv(adj, h, G, done, pq, last, -1, 0)
  {
    forall v | 0 <= v < |adj| ensures OptNode(adj, h, G, done, last, -1, 0, v) {
      assert OptNode(adj, h, G, done, last, u, |adj[u]|, v);
    }
  }

  /** Along any walk from `s` of weight `x`, either the last node's g-score is within
      `x`, or some earlier node is open with a g-score and its f-score is within `x`
      plus the heuristic at the walk's end. */
  lemma {:induction false} FrontierBoundOpt(adj: seq<seq<Edge>>, h: int -> real, s: int, G: seq<Dist>,
                                            done: set<int>, pq: seq<Entry>, last: real, p: seq<int>, x: real)
    requires OptInv(adj, h, G, done, pq, last, -1, 0) && Consistent(adj, h)
    requires 0 <= s < |G| && G[s] == Fin(0.0)
    requires IsWalk(adj, p, x) && p[0] == s
    ensures 0 <= p[|p| - 1] < |G|
    ensures (G[p[|p| - 1]].Fin? && G[p[|p| - 1]].x <= x) ||
            (exists j :: 0 <= j < |p| - 1 && 0 <= p[j] < |G| && p[j] !in done && G[p[j]].Fin? &&
                         G[p[j]].x + h(p[j]) <= x + h(p[|p| - 1]))
    decreases |p|
  {
    if |p| == 1 {
      assert x == 0.0;
    } else {
      var pre := p[..|p| - 1];
      var w := WalkLastEdge(adj, p, x);
      var a, b := p[|p| - 2], p[|p| - 1];
      var ei :| 0 <= ei < |adj[a]| && adj[a][ei] == Edge(b, w);
      assert h(a) <= w + h(b);
      FrontierBoundOpt(adj, h, s, G, done, pq, last, pre, x - w);
      assert pre[|pre| - 1] == a;
      if G[a].Fin? && G[a].x <= x - w {
        if a in done {
          assert OptNode(adj, h, G, done, last, -1, 0, a);
          assert Bounded(adj, G, a, ei);
        } else {
          assert p[|p| - 2] == a;
        }
      } else {
        var j :| 0 <= j < |pre| - 1 && 0 <= pre[j] < |G| && pre[j] !in done && G[pre[j]].Fin? &&
                 G[pre[j]].x + h(pre[j]) <= x - w + h(a);
        assert p[j] == pre[j];
      }
    }
  }

  /** The open list ran empty: every node with a g-score is closed, so no walk to `t`
      is lighter than `G[t]`. */
  lemma ExhaustedOpt(adj: seq<seq<Edge>>, h: int -> real, s: int, t: int, G: seq<Dist>, F: seq<Dist>, P: seq<int>,
                     via: seq<real>, rank: seq<nat>, closed: seq<bool>, done: set<int>, last: real)
    requires Inv(adj, h, s, G, F, P, via, rank, closed, done, [], -1, 0) && 0 <= t < |adj|
    requires OptInv(adj, h, G, done, [], last, -1, 0) && Consistent(adj, h)
    ensures Optimal(adj, s, t, G)
  {
    forall p, x | WalkFromTo(adj, p, s, t, x) ensures G[t].Fin? && G[t].x <= x {
      FrontierBoundOpt(adj, h, s, G, done, [], last, p, x);
      forall j | 0 <= j < |p| - 1 && 0 <= p[j] < |G| && G[p[j]].Fin? ensures p[j] in done {
        assert NodeInv(adj, h, s, G, F, P, via, rank, closed, done, [], -1, 0, p[j]);
      }
    }
  }

  /** `t` is about to be closed from a least entry: any walk to it either ends within
      its weight or crosses an open node whose entry is no smaller. */
  lemma AtTargetOpt(adj: seq<seq<Edge>>, h: int -> real, s: int, t: int, G: seq<Dist>, F: seq<Dist>, P: seq<int>,
                    via: seq<real>, rank: seq<nat>, closed: seq<bool>, done: set<int>, pq: seq<Entry>,
                    last: real, i: nat)
    requires Inv(adj, h, s, G, F, P, via, rank, closed, done, pq, -1, 0) && 0 <= t < |adj|
    requires OptInv(adj, h, G, done, pq, last, -1, 0) && Consistent(adj, h)
    requires IsKeyMin(pq, i) && pq[i].node == t
    ensures Optimal(adj, s, t, G)
  {
    assert OptEntry(G, h, pq, last, i);
    forall p, x | WalkFromTo(adj, p, s, t, x) ensures G[t].Fin? && G[t].x <= x {
      FrontierBoundOpt(adj, h, s, G, done, pq, last, p, x);
      forall j | 0 <= j < |p| - 1 && 0 <= p[j] < |G| && p[j] !in done && G[p[j]].Fin?
        ensures pq[i].key <= G[p[j]].x + h(p[j])
      {
        assert NodeInv(adj, h, s, G, F, P, via, rank, closed, done, pq, -1, 0, p[j]);
        var m :| 0 <= m < |pq| && pq[m] == Entry(F[p[j]].x, p[j]);
        assert pq[i].key <= pq[m].key;
      }
    }
  }

}

/** `astar_search` (planner.cpp:81-133): best-first search on `f = g + h` that closes
    each node once and never relaxes an edge into a closed node. The heuristic `h` is
    a parameter of the model. */
module AStar {
  import opened GraphModel
  import opened Walks
  import opened Frontier
  import opened Planner
  import opened AStarProof

  /** The loop over the out-edges of the just-closed node `u` (planner.cpp:115-125):
      closed targets are skipped; an edge that gives its target a smaller g-score
      records `u` as its parent, sets its f-score and pushes it. G-scores only
      decrease, and those of closed nodes do not change. */
  method RelaxEdges(adj: seq<seq<Edge>>, h: int -> real, s: int, gscore: seq<Dist>, fscore: seq<Dist>,
                    parent: seq<int>, closed: seq<bool>, u: int, open: seq<Entry>,
                    ghost via: seq<real>, ghost rank: seq<nat>, ghost done: set<int>, ghost last: real)
    returns (gscore': seq<Dist>, fscore': seq<Dist>, parent': seq<int>, open': seq<Entry>, ghost via': seq<real>)
    requires Inv(adj, h, s, gscore, fscore, parent, via, rank, closed, done, open, u, 0) && u != -1
    ensures Inv(adj, h, s, gscore', fscore', parent', via', rank, closed, done, open', -1, 0)
    ensures Consistent(adj, h) && OptInv(adj, h, gscore, done, open, last, u, 0) ==>
            OptInv(adj, h, gscore', done, open', last, -1, 0)
    ensures |gscore'| == |gscore|
    ensures forall v :: 0 <= v < |gscore| ==> !Less(gscore[v], gscore'[v]) && (closed[v] ==> gscore'[v] == gscore[v])
  {
    gscore', fscore', parent', open', via' := gscore, fscore, parent, open, via;
    ghost var opt := Consistent(adj, h) && OptInv(adj, h, gscore, done, open, last, u, 0);
    var k := 0;
    while k < |adj[u]|
      invariant 0 <= k <= |adj[u]|
      invariant Inv(adj, h, s, gscore', fscore', parent', via', rank, closed, done, open', u, k)
      invariant opt ==> OptInv(adj, h, gscore', done, open', last, u, k)
      invariant forall v :: 0 <= v < |gscore| ==> !Less(gscore[v], gscore'[v]) && (closed[v] ==> gscore'[v] == gscore[v])
    {
      var e := adj[u][k];
      if closed[e.to] {
        if opt { RelaxSkipOpt(adj, h, s, gscore', fscore', parent', via', rank, closed, done, open', last, u, k); }
        RelaxSkip(adj, h, s, gscore', fscore', parent', via', rank, closed, done, open', u, k);
      } else if Less(Fin(gscore'[u].x + e.w), gscore'[e.to]) {
        if opt { RelaxUpdateOpt(adj, h, s, gscore', fscore', parent', via', rank, closed, done, open', last, u, k); }
        RelaxUpdate(adj, h, s, gscore', fscore', parent', via', rank, closed, done, open', u, k);
        var tentative := gscore'[u].x + e.w;
        gscore' := gscore'[e.to := Fin(tentative)];
        parent' := parent'[e.to := u];
        fscore' := fscore'[e.to := Fin(tentative + h(e.to))];
        via' := via'[e.to := e.w];
        open' := open' + [Entry(tentative + h(e.to), e.to)];
      } else {
        if opt { RelaxSkipOpt(adj, h, s, gscore', fscore', parent', via', rank, closed, done, open', last, u, k); }
        RelaxSkip(adj, h, s, gscore', fscore', parent', via', rank, closed, done, open', u, k);
      }
      k := k + 1;
    }
    if opt { RelaxDoneOpt(adj, h, gscore', done, open', last, u); }
    RelaxDone(adj, h, s, gscore', fscore', parent', via', rank, closed, done, open', u);
  }

  /** The main loop of `astar_search` (planner.cpp:108-126): pop an entry of least
      f-score, skip it when its node is closed, otherwise close and count the node,
      stop at `t`, and relax its edges. */
  method Settle(adj: seq<seq<Edge>>, h: int -> real, s: int, t: int)
    returns (gscore: seq<Dist>, parent: seq<int>, expanded: nat, ghost via: seq<real>, ghost rank: seq<nat>)
    requires EdgesInRange(adj) && 0 <= s < |adj| && 0 <= t < |adj|
    ensures Settled(adj, s, t, gscore, parent, via, rank)
    ensures Consistent(adj, h) ==> Optimal(adj, s, t, gscore)
    ensures 1 <= expanded <= |adj| && (s == t ==> expanded == 1)
  {
    var n := |adj|;
    gscore := seq(n, v => if v == s then Fin(0.0) else Inf);
    var fscore: seq<Dist> := seq(n, v => if v == s then Fin(h(s)) else Inf);
    parent := seq(n, _ => -1);
    var closed: seq<bool> := seq(n, _ => false);
    var open := [Entry(h(s), s)];
    expanded := 0;
    via := seq(n, _ => 0.0);
    rank := seq(n, _ => n);
    ghost var done: set<int> := {};
    ghost var last := h(s);
    ghost var opt := Consistent(adj, h);
    InitInv(adj, h, s);
    InitOpt(adj, h, s);
    while open != []
      invariant Inv(adj, h, s, gscore, fscore, parent, via, rank, closed, done, open, -1, 0)
      invariant opt ==> OptInv(adj, h, gscore, done, open, last, -1, 0)
      invariant expanded == |done|
      invariant done == {} ==> open == [Entry(h(s), s)]
      invariant s == t ==> done == {}
      decreases n - |done|, |open|
    {
      KeyMinExists(open);
      var i :| 0 <= i < |open| && IsKeyMin(open, i);
      var u := open[i].node;
      assert EntryInv(gscore, open, i);
      ghost var open0 := open;
      open := RemoveAt(open, i);
      if closed[u] {
        if opt { ClosedPopOpt(adj, h, gscore, done, open0, last, i); }
        ClosedPop(adj, h, s, gscore, fscore, parent, via, rank, closed, done, open0, i);
        continue;
      }
      if opt {
        if u == t { AtTargetOpt(adj, h, s, t, gscore, fscore, parent, via, rank, closed, done, open0, last, i); }
        OpenPopOpt(adj, h, s, gscore, fscore, parent, via, rank, closed, done, open0, last, i);
      }
      OpenPop(adj, h, s, gscore, fscore, parent, via, rank, closed, done, open0, i);
      closed := closed[u := true];
      rank := rank[u := |done|];
      done := done + {u};
      expanded := expanded + 1;
      last := open0[i].key;
      if u == t {
        AtTarget(adj, h, s, t, gscore, fscore, parent, via, rank, closed, done, open);
        return;
      }
      gscore, fscore, parent, open, via := RelaxEdges(adj, h, s, gscore, fscore, parent, closed, u, open, via, rank, done, last);
    }
    Exhausted(adj, h, s, t, gscore, fscore, parent, via, rank, closed, done);
    if opt { ExhaustedOpt(adj, h, s, t, gscore, fscore, parent, via, rank, closed, done, last); }
  }

  /** `astar_search(g, s, t)` with heuristic `h`. For valid `s` and `t` the distance
      is the weight of the returned path, which is a walk from `s` to `t`; it is
      infinite, with an empty path, only when no walk leads from `s` to `t`; and when
      `h` is consistent no walk from `s` to `t` is lighter, so the distance is the
      least walk weight, the one Dijkstra returns. Out-of-range indices give the
      default `Stats`. */
  method AStarSearch(g: Graph, h: int -> real, s: int, t: int) returns (st: Stats)
    requires g.Valid()
    ensures !(0 <= s < |g.adj| && 0 <= t < |g.adj|) ==> st == DefaultStats
    ensures 0 <= s < |g.adj| && 0 <= t < |g.adj| ==>
      && 1 <= st.nodesExpanded <= |g.adj|
      && (st.distance.Inf? <==> st.path == [])
      && (st.distance.Fin? ==> WalkFromTo(g.adj, st.path, s, t, st.distance.x))
      && (forall p, x :: WalkFromTo(g.adj, p, s, t, x) ==> st.distance.Fin?)
      && (Consistent(g.adj, h) ==> forall p, x :: WalkFromTo(g.adj, p, s, t, x) ==> st.distance.Fin? && st.distance.x <= x)
      && (s == t ==> st == Stats(Fin(0.0), 1, 0, [s]))
  {
    var adj := g.Adjacency();
    var n := |adj|;
    if s < 0 || s >= n || t < 0 || t >= n { return DefaultStats; }
    var gscore, parent, expanded, via, rank := Settle(adj, h, s, t);
    var path := ReconstructParent(parent, s, t, rank);
    if gscore[t].Fin? {
      ReconstructedWalk(adj, parent, via, gscore, s, t, path);
    }
    st := Stats(gscore[t], expanded, 0, path);
  }
}
