/** The invariant of `bidir_astar_search` (planner.cpp:142-255): two best-first
    searches, one from `s` and one from `t`, both along the edges of the graph, that
    remember the cheapest meeting node, and the steps that keep it. */
module BidirProof {
  import opened GraphModel
  import opened Walks
  import opened Frontier
  import opened Planner

  // One direction of the search: G = g-scores, P = parents, via[v] = weight of the
  // edge P[v] -> v, stamp[v] = ghost time of the last update of v (below `clock`),
  // closed = the closed flags and done the same nodes as a set, pq = the open list.
  // Unlike plain A*, a closed node's g-score may still drop, so a child's g-score is
  // only bounded by (not equal to) its parent's plus the edge; when it is equal the
  // parent was updated earlier, which is what keeps the parent links acyclic.

  /** The parent-forest facts about node `v`. */
  ghost predicate TreeNode(adj: seq<seq<Edge>>, root: int, G: seq<Dist>, P: seq<int>, via: seq<real>,
                           stamp: seq<nat>, v: int)
    requires |G| == |adj| && |P| == |adj| && |via| == |adj| && |stamp| == |adj| && 0 <= v < |adj|
  {
    (G[v].Fin? ==> G[v].x >= 0.0) &&
    (v != root ==> (G[v].Fin? <==> P[v] != -1)) &&
    (P[v] != -1 ==>
       0 <= P[v] < |adj| && HasEdge(adj, P[v], v, via[v]) && G[P[v]].Fin? && G[v].Fin? &&
       G[P[v]].x + via[v] <= G[v].x && (G[P[v]].x + via[v] == G[v].x ==> stamp[P[v]] < stamp[v]))
  }

  /** The parent forest of one direction, rooted at `root` with g-score 0. */
  ghost predicate Tree(adj: seq<seq<Edge>>, root: int, G: seq<Dist>, P: seq<int>, via: seq<real>, stamp: seq<nat>) {
    |G| == |adj| && |P| == |adj| && |via| == |adj| && |stamp| == |adj| &&
    0 <= root < |adj| && G[root] == Fin(0.0) &&
    forall v :: 0 <= v < |adj| ==> TreeNode(adj, root, G, P, via, stamp, v)
  }

  /** Everything one direction knows about node `v`. */
  ghost predicate SideNode(adj: seq<seq<Edge>>, root: int, G: seq<Dist>, P: seq<int>, via: seq<real>,
                           stamp: seq<nat>, clock: nat, closed: seq<bool>, done: set<int>, v: int)
    requires |G| == |adj| && |P| == |adj| && |via| == |adj| && |stamp| == |adj| && |closed| == |adj|
    requires 0 <= v < |adj|
  {
    TreeNode(adj, root, G, P, via, stamp, v) && stamp[v] < clock && (closed[v] <==> v in done)
  }

  /** Open-list entry `i` names a node with a g-score. */
  ghost predicate SideEntry(G: seq<Dist>, pq: seq<Entry>, i: int)
    requires 0 <= i < |pq|
  {
    0 <= pq[i].node < |G| && G[pq[i].node].Fin?
  }

  /** The invariant of one direction. */
  ghost predicate Side(adj: seq<seq<Edge>>, root: int, G: seq<Dist>, P: seq<int>, via: seq<real>,
                       stamp: seq<nat>, clock: nat, closed: seq<bool>, done: set<int>, pq: seq<Entry>)
  {
    |G| == |adj| && |P| == |adj| && |via| == |adj| && |stamp| == |adj| && |closed| == |adj| &&
    EdgesInRange(adj) && 0 <= root < |adj| && G[root] == Fin(0.0) &&
    (forall v :: v in done ==> 0 <= v < |adj|) && |done| <= |adj| &&
    (forall v :: 0 <= v < |adj| ==> SideNode(adj, root, G, P, via, stamp, clock, closed, done, v)) &&
    (forall i :: 0 <= i < |pq| ==> SideEntry(G, pq, i))
  }

  /** A finite best path goes through `meet`, whose two g-scores add up to no more. */
  ghost predicate Meet(A: seq<Dist>, B: seq<Dist>, best: Dist, meet: int) {
    best.Fin? ==>
      0 <= meet < |A| && 0 <= meet < |B| && A[meet].Fin? && B[meet].Fin? && A[meet].x + B[meet].x <= best.x
  }

  /** `p` is a walk from `s` to some node `p[i]` followed by the reverse of a walk from
      `t` to `p[i]`, the two weighing at most `d` together. */
  ghost predicate SplitWalk(adj: seq<seq<Edge>>, p: seq<int>, s: int, t: int, d: real) {
    p != [] && p[0] == s &&
    exists j, x :: 1 <= j <= |p| && IsWalk(adj, p[..j], x) && WalkWithin(adj, Reverse(p[j - 1..]), t, p[j - 1], d - x)
  }

  // ------------------------------------------------------------ steps of one direction

  /** The initial state of a direction: only the root has a g-score, and it is open. */
  lemma InitSide(adj: seq<seq<Edge>>, root: int, f: real)
    requires EdgesInRange(adj) && 0 <= root < |adj|
    ensures var n := |adj|;
      Side(adj, root, seq(n, v => if v == root then Fin(0.0) else Inf), seq(n, _ => -1), seq(n, _ => 0.0),
           seq(n, _ => 0), 1, seq(n, _ => false), {}, [Entry(f, root)])
  {
    var n := |adj|;
    var G: seq<Dist> := seq(n, v => if v == root then Fin(0.0) else Inf);
    assert SideEntry(G, [Entry(f, root)], 0);
  }

  /** Popping an entry of a closed node only shrinks the open list. */
  lemma PopClosed(adj: seq<seq<Edge>>, root: int, G: seq<Dist>, P: seq<int>, via: seq<real>, stamp: seq<nat>,
                  clock: nat, closed: seq<bool>, done: set<int>, pq: seq<Entry>, i: nat)
    requires Side(adj, root, G, P, via, stamp, clock, closed, done, pq)
    requires i < |pq| && 0 <= pq[i].node < |closed| && closed[pq[i].node]
    ensures pq[i].node in done
    ensures Side(adj, root, G, P, via, stamp, clock, closed, done, RemoveAt(pq, i))
  {
    var r := RemoveAt(pq, i);
    assert SideNode(adj, root, G, P, via, stamp, clock, closed, done, pq[i].node);
    forall j | 0 <= j < |r| ensures SideEntry(G, r, j) {
      assert SideEntry(G, pq, if j < i then j else j + 1);
    }
  }

  /** Popping an entry of an open node closes it. */
  lemma PopOpen(adj: seq<seq<Edge>>, root: int, G: seq<Dist>, P: seq<int>, via: seq<real>, stamp: seq<nat>,
                clock: nat, closed: seq<bool>, done: set<int>, pq: seq<Entry>, i: nat)
    requires Side(adj, root, G, P, via, stamp, clock, closed, done, pq)
    requires i < |pq| && 0 <= pq[i].node < |closed| && !closed[pq[i].node]
    ensures pq[i].node !in done && |done| < |adj| && G[pq[i].node].Fin?
    ensures var u := pq[i].node;
      Side(adj, root, G, P, via, stamp, clock, closed[u := true], done + {u}, RemoveAt(pq, i))
  {
    var u := pq[i].node;
    var closed', done', r := closed[u := true], done + {u}, RemoveAt(pq, i);
    assert SideEntry(G, pq, i);
    assert SideNode(adj, root, G, P, via, stamp, clock, closed, done, u);
    CardRange(done', |adj|);
    forall v | 0 <= v < |adj| ensures SideNode(adj, root, G, P, via, stamp, clock, closed', done', v) {
      assert SideNode(adj, root, G, P, via, stamp, clock, closed, done, v);
    }
    forall j | 0 <= j < |r| ensures SideEntry(G, r, j) {
      assert SideEntry(G, pq, if j < i then j else j + 1);
    }
  }

  /** Edge `k` of `u` gives its target a smaller g-score: the target gets it, `u` as
      its parent, a fresh stamp and a new open-list entry of key `f`. The target is
      neither `u` nor the root, whose g-scores no edge can lower. */
  lemma SideUpdate(adj: seq<seq<Edge>>, root: int, G: seq<Dist>, P: seq<int>, via: seq<real>, stamp: seq<nat>,
                   clock: nat, closed: seq<bool>, done: set<int>, pq: seq<Entry>, u: int, k: nat, f: real)
    requires Side(adj, root, G, P, via, stamp, clock, closed, done, pq) && NonNegativeWeights(adj)
    requires 0 <= u < |adj| && G[u].Fin? && k < |adj[u]| && Less(Fin(G[u].x + adj[u][k].w), G[adj[u][k].to])
    ensures adj[u][k].to != u
    ensures var v, w := adj[u][k].to, adj[u][k].w;
      Side(adj, root, G[v := Fin(G[u].x + w)], P[v := u], via[v := w], stamp[v := clock], clock + 1,
           closed, done, pq + [Entry(f, v)])
  {
    var v, w := adj[u][k].to, adj[u][k].w;
    var G', P', via', stamp', clock', pq' := G[v := Fin(G[u].x + w)], P[v := u], via[v := w], stamp[v := clock],
                                             clock + 1, pq + [Entry(f, v)];
    assert w >= 0.0;
    assert SideNode(adj, root, G, P, via, stamp, clock, closed, done, u);
    assert v != root && v != u;
    assert HasEdge(adj, u, v, w) by { assert adj[u][k] == Edge(v, w); }
    forall x | 0 <= x < |adj| ensures SideNode(adj, root, G', P', via', stamp', clock', closed, done, x) {
      assert SideNode(adj, root, G, P, via, stamp, clock, closed, done, x);
    }
    forall j | 0 <= j < |pq'| ensures SideEntry(G', pq', j) {
      if j < |pq| {
        assert SideEntry(G, pq, j);
      }
    }
  }

  /** The parent forest of a direction's state. */
  lemma SideTree(adj: seq<seq<Edge>>, root: int, G: seq<Dist>, P: seq<int>, via: seq<real>, stamp: seq<nat>,
                 clock: nat, closed: seq<bool>, done: set<int>, pq: seq<Entry>)
    requires Side(adj, root, G, P, via, stamp, clock, closed, done, pq)
    ensures Tree(adj, root, G, P, via, stamp)
  {
    forall v | 0 <= v < |adj| ensures TreeNode(adj, root, G, P, via, stamp, v) {
      assert SideNode(adj, root, G, P, via, stamp, clock, closed, done, v);
    }
  }

  // ------------------------------------------------------------ what one direction reaches

  // While node `u` relaxes its edges, only its edges before `k` have been looked at;
  // `u == -1` means that no node is in the middle of its edge loop.

  /** The reach facts about node `v`: its parent is closed; when closed, it has a
      g-score and so has the target of each of its looked-at edges; when it has a
      g-score but is open, the open list holds it with key g + h. */
  ghost predicate ReachNode(adj: seq<seq<Edge>>, h: (int, int) -> real, goal: int, G: seq<Dist>, P: seq<int>,
                            done: set<int>, pq: seq<Entry>, u: int, k: int, v: int)
    requires |G| == |adj| && |P| == |adj| && EdgesInRange(adj) && 0 <= v < |adj|
  {
    (P[v] != -1 ==> P[v] in done) &&
    (v in done ==> G[v].Fin? && forall j :: 0 <= j < |adj[v]| && (v != u || j < k) ==> G[adj[v][j].to].Fin?) &&
    (G[v].Fin? && v !in done ==> Entry(G[v].x + h(v, goal), v) in pq)
  }

  /** The reach invariant of one direction: nothing reachable is lost, so once the
      open list is empty every node reachable from the root is closed. */
  ghost predicate Reach(adj: seq<seq<Edge>>, h: (int, int) -> real, goal: int, G: seq<Dist>, P: seq<int>,
                        done: set<int>, pq: seq<Entry>, u: int, k: int)
  {
    |G| == |adj| && |P| == |adj| && EdgesInRange(adj) &&
    (u != -1 ==> 0 <= u < |adj| && u in done && 0 <= k <= |adj[u]|) &&
    forall v :: 0 <= v < |adj| ==> ReachNode(adj, h, goal, G, P, done, pq, u, k, v)
  }

  /** The initial state of a direction reaches only its root, which is open. */
  lemma InitReach(adj: seq<seq<Edge>>, h: (int, int) -> real, goal: int, root: int)
    requires EdgesInRange(adj) && 0 <= root < |adj|
    ensures var n := |adj|;
      Reach(adj, h, goal, seq(n, v => if v == root then Fin(0.0) else Inf), seq(n, _ => -1), {},
            [Entry(0.0 + h(root, goal), root)], -1, 0)
  {
    var n := |adj|;
    var G: seq<Dist> := seq(n, v => if v == root then Fin(0.0) else Inf);
    var P: seq<int> := seq(n, _ => -1);
    var none: set<int>, pq := {}, [Entry(0.0 + h(root, goal), root)];
    forall v | 0 <= v < n ensures ReachNode(adj, h, goal, G, P, none, pq, -1, 0, v) {
      if v == root {
        assert Entry(G[v].x + h(v, goal), v) == Entry(0.0 + h(root, goal), root);
      }
    }
  }

  /** Dropping the entry of a closed node loses nothing. */
  lemma ReachPopClosed(adj: seq<seq<Edge>>, h: (int, int) -> real, goal: int, G: seq<Dist>, P: seq<int>,
                       done: set<int>, pq: seq<Entry>, i: nat)
    requires Reach(adj, h, goal, G, P, done, pq, -1, 0) && i < |pq| && pq[i].node in done
    ensures Reach(adj, h, goal, G, P, done, RemoveAt(pq, i), -1, 0)
  {
    var r := RemoveAt(pq, i);
    forall v | 0 <= v < |adj| ensures ReachNode(adj, h, goal, G, P, done, r, -1, 0, v) {
      assert ReachNode(adj, h, goal, G, P, done, pq, -1, 0, v);
    }
  }

  /** Closing an open node with a g-score starts its edge loop. */
  lemma ReachPopOpen(adj: seq<seq<Edge>>, h: (int, int) -> real, goal: int, G: seq<Dist>, P: seq<int>,
                     done: set<int>, pq: seq<Entry>, i: nat)
    requires Reach(adj, h, goal, G, P, done, pq, -1, 0) && i < |pq|
    requires 0 <= pq[i].node < |adj| && pq[i].node !in done && G[pq[i].node].Fin?
    ensures var u := pq[i].node; Reach(adj, h, goal, G, P, done + {u}, RemoveAt(pq, i), u, 0)
  {
    var u, r := pq[i].node, RemoveAt(pq, i);
    forall v | 0 <= v < |adj| ensures ReachNode(adj, h, goal, G, P, done + {u}, r, u, 0, v) {
      assert ReachNode(adj, h, goal, G, P, done, pq, -1, 0, v);
    }
  }

  /** Edge `k` of `u` that lowers nothing still leaves its target with a g-score. */
  lemma ReachSkip(adj: seq<seq<Edge>>, h: (int, int) -> real, goal: int, G: seq<Dist>, P: seq<int>,
                  done: set<int>, pq: seq<Entry>, u: int, k: nat)
    requires Reach(adj, h, goal, G, P, done, pq, u, k) && 0 <= u < |adj| && k < |adj[u]| && G[u].Fin?
    requires !Less(Fin(G[u].x + adj[u][k].w), G[adj[u][k].to])
    ensures Reach(adj, h, goal, G, P, done, pq, u, k + 1)
  {
    var k' := k + 1;
    forall v | 0 <= v < |adj| ensures ReachNode(adj, h, goal, G, P, done, pq, u, k', v) {
      assert ReachNode(adj, h, goal, G, P, done, pq, u, k, v);
    }
  }

  /** Edge `k` of `u` that gives its target a g-score, `u` as parent and an entry. */
  lemma ReachUpdate(adj: seq<seq<Edge>>, h: (int, int) -> real, goal: int, G: seq<Dist>, P: seq<int>,
                    done: set<int>, pq: seq<Entry>, u: int, k: nat)
    requires Reach(adj, h, goal, G, P, done, pq, u, k) && 0 <= u < |adj| && k < |adj[u]| && G[u].Fin?
    ensures var v, w := adj[u][k].to, adj[u][k].w;
      Reach(adj, h, goal, G[v := Fin(G[u].x + w)], P[v := u], done, pq + [Entry(G[u].x + w + h(v, goal), v)], u, k + 1)
  {
    var v, w := adj[u][k].to, adj[u][k].w;
    var G', P', pq', k' := G[v := Fin(G[u].x + w)], P[v := u], pq + [Entry(G[u].x + w + h(v, goal), v)], k + 1;
    forall x | 0 <= x < |adj| ensures ReachNode(adj, h, goal, G', P', done, pq', u, k', x) {
      assert ReachNode(adj, h, goal, G, P, done, pq, u, k, x);
      if x != v && G[x].Fin? && x !in done {
        assert Entry(G[x].x + h(x, goal), x) in pq;
      }
    }
  }

  /** A finished edge loop. */
  lemma ReachEnd(adj: seq<seq<Edge>>, h: (int, int) -> real, goal: int, G: seq<Dist>, P: seq<int>,
                 done: set<int>, pq: seq<Entry>, u: int)
    requires 0 <= u < |adj| && Reach(adj, h, goal, G, P, done, pq, u, |adj[u]|)
    ensures Reach(adj, h, goal, G, P, done, pq, -1, 0)
  {
    forall v | 0 <= v < |adj| ensures ReachNode(adj, h, goal, G, P, done, pq, -1, 0, v) {
      assert ReachNode(adj, h, goal, G, P, done, pq, u, |adj[u]|, v);
    }
  }

  /** With the open list empty, the end of every walk from a node with a g-score is
      closed. */
  lemma {:induction false} ReachedAll(adj: seq<seq<Edge>>, h: (int, int) -> real, goal: int, G: seq<Dist>,
                                      P: seq<int>, done: set<int>, p: seq<int>, x: real)
    requires Reach(adj, h, goal, G, P, done, [], -1, 0) && IsWalk(adj, p, x)
    requires 0 <= p[0] < |adj| && G[p[0]].Fin?
    ensures p[|p| - 1] in done
    decreases |p|
  {
    if |p| == 1 {
      assert ReachNode(adj, h, goal, G, P, done, [], -1, 0, p[0]);
    } else {
      var q := p[..|p| - 1];
      var w := WalkLastEdge(adj, p, x);
      ReachedAll(adj, h, goal, G, P, done, q, x - w);
      var a, b := q[|q| - 1], p[|p| - 1];
      var j :| 0 <= j < |adj[a]| && adj[a][j] == Edge(b, w);
      assert ReachNode(adj, h, goal, G, P, done, [], -1, 0, a);
      assert ReachNode(adj, h, goal, G, P, done, [], -1, 0, b);
    }
  }

  // ------------------------------------------------------------ where the directions cross

  /** Every closed node has a g-score. */
  ghost predicate Scored(G: seq<Dist>, closed: seq<bool>) {
    |G| == |closed| && forall v :: 0 <= v < |closed| && closed[v] ==> G[v].Fin?
  }

  /** Every node other than the root with a g-score that is still open has an edge
      into a closed node (its parent, reached back along the twin of the parent edge). */
  ghost predicate Backed(adj: seq<seq<Edge>>, root: int, G: seq<Dist>, closed: seq<bool>) {
    |G| == |adj| && |closed| == |adj| && EdgesInRange(adj) &&
    forall v :: 0 <= v < |adj| && G[v].Fin? && !closed[v] && v != root ==>
      exists j :: 0 <= j < |adj[v]| && closed[adj[v][j].to]
  }

  /** A node closed in one direction that has a g-score in the other has given the
      search a finite best path. */
  ghost predicate Crossed(closed: seq<bool>, G: seq<Dist>, best: Dist) {
    forall v :: 0 <= v < |closed| && v < |G| && closed[v] && G[v].Fin? ==> best.Fin?
  }

  /** Closed nodes of a direction have g-scores. */
  lemma SideScored(adj: seq<seq<Edge>>, h: (int, int) -> real, goal: int, root: int, G: seq<Dist>, P: seq<int>,
                   via: seq<real>, stamp: seq<nat>, clock: nat, closed: seq<bool>, done: set<int>, pq: seq<Entry>)
    requires Side(adj, root, G, P, via, stamp, clock, closed, done, pq)
    requires Reach(adj, h, goal, G, P, done, pq, -1, 0)
    ensures Scored(G, closed)
  {
    forall v | 0 <= v < |closed| && closed[v] ensures G[v].Fin? {
      assert SideNode(adj, root, G, P, via, stamp, clock, closed, done, v);
      assert ReachNode(adj, h, goal, G, P, done, pq, -1, 0, v);
    }
  }

  /** In a graph whose every edge has a twin, an open node with a g-score other than
      the root has an edge back to its closed parent. */
  lemma SideBacked(adj: seq<seq<Edge>>, h: (int, int) -> real, goal: int, root: int, G: seq<Dist>, P: seq<int>,
                   via: seq<real>, stamp: seq<nat>, clock: nat, closed: seq<bool>, done: set<int>, pq: seq<Entry>)
    requires Side(adj, root, G, P, via, stamp, clock, closed, done, pq) && Symmetric(adj)
    requires Reach(adj, h, goal, G, P, done, pq, -1, 0)
    ensures Backed(adj, root, G, closed)
  {
    forall v | 0 <= v < |adj| && G[v].Fin? && !closed[v] && v != root
      ensures exists j :: 0 <= j < |adj[v]| && closed[adj[v][j].to]
    {
      assert SideNode(adj, root, G, P, via, stamp, clock, closed, done, v);
      assert ReachNode(adj, h, goal, G, P, done, pq, -1, 0, v);
      var y := P[v];
      assert SideNode(adj, root, G, P, via, stamp, clock, closed, done, y);
      assert HasEdge(adj, v, y, via[v]);
      var j :| 0 <= j < |adj[v]| && adj[v][j] == Edge(y, via[v]);
      assert closed[adj[v][j].to];
    }
  }

  /** Closing `u` keeps `Crossed`: if the other direction has closed `u` too, `u`
      itself had crossed; otherwise `u` has an edge into a node the other direction
      closed, and relaxing that edge found a finite best path. */
  lemma CrossClose(adj: seq<seq<Edge>>, otherRoot: int, otherG: seq<Dist>, otherClosed: seq<bool>,
                   G: seq<Dist>, closed: seq<bool>, best: Dist, best': Dist, u: int)
    requires Backed(adj, otherRoot, otherG, otherClosed) && |G| == |adj| && |closed| == |adj|
    requires Crossed(otherClosed, G, best) && Crossed(closed, otherG, best) && !Less(best, best')
    requires 0 <= u < |adj| && G[u].Fin? && (u != otherRoot || otherClosed[otherRoot])
    requires forall j :: 0 <= j < |adj[u]| && otherClosed[adj[u][j].to] ==> best'.Fin?
    ensures Crossed(closed[u := true], otherG, best')
  {
    forall v | 0 <= v < |adj| && closed[u := true][v] && otherG[v].Fin? ensures best'.Fin? {
      if v == u && !otherClosed[u] {
        var j :| 0 <= j < |adj[u]| && otherClosed[adj[u][j].to];
      }
    }
  }

  /** Read backwards, a walk from `s` to `t` in a graph whose every edge has a twin
      is a walk from `t` to `s`. */
  lemma BackWalk(adj: seq<seq<Edge>>, p: seq<int>, s: int, t: int, x: real)
    requires Symmetric(adj) && WalkFromTo(adj, p, s, t, x)
    ensures WalkFromTo(adj, Reverse(p), t, s, x)
  {
    WalkReverse(adj, p, x);
  }

  // ------------------------------------------------------------ the two directions together

  /** The facts the main loop keeps at every point: each direction's invariant, the
      best meeting node, the two roots closed first, and (for a symmetric graph with
      `s != t`) the crossing facts. */
  ghost predicate Both(adj: seq<seq<Edge>>, h: (int, int) -> real, s: int, t: int,
                       gf: seq<Dist>, pf: seq<int>, viaF: seq<real>, stampF: seq<nat>, clockF: nat,
                       closedF: seq<bool>, doneF: set<int>, openF: seq<Entry>,
                       gb: seq<Dist>, pb: seq<int>, viaB: seq<real>, stampB: seq<nat>, clockB: nat,
                       closedB: seq<bool>, doneB: set<int>, openB: seq<Entry>, best: Dist, meet: int)
  {
    Side(adj, s, gf, pf, viaF, stampF, clockF, closedF, doneF, openF) && Reach(adj, h, t, gf, pf, doneF, openF, -1, 0) &&
    Side(adj, t, gb, pb, viaB, stampB, clockB, closedB, doneB, openB) && Reach(adj, h, s, gb, pb, doneB, openB, -1, 0) &&
    Meet(gf, gb, best, meet) &&
    (doneB == {} ==> openB == [Entry(0.0 + h(t, s), t)]) &&
    (doneF != {} ==> s in doneF) && (doneB != {} ==> t in doneB) &&
    (s != t && Symmetric(adj) ==> Crossed(closedF, gb, best) && Crossed(closedB, gf, best))
  }

  /** The loop invariant at the top of a round: before the first round nothing is
      closed and both open lists hold only their roots; afterwards both directions
      have closed something. */
  ghost predicate Rounds(adj: seq<seq<Edge>>, h: (int, int) -> real, s: int, t: int,
                         gf: seq<Dist>, pf: seq<int>, viaF: seq<real>, stampF: seq<nat>, clockF: nat,
                         closedF: seq<bool>, doneF: set<int>, openF: seq<Entry>,
                         gb: seq<Dist>, pb: seq<int>, viaB: seq<real>, stampB: seq<nat>, clockB: nat,
                         closedB: seq<bool>, doneB: set<int>, openB: seq<Entry>, best: Dist, meet: int)
  {
    Both(adj, h, s, t, gf, pf, viaF, stampF, clockF, closedF, doneF, openF,
         gb, pb, viaB, stampB, clockB, closedB, doneB, openB, best, meet) &&
    (doneF == {} ==> openF == [Entry(0.0 + h(s, t), s)] && best.Inf? && doneB == {}) &&
    (doneF != {} ==> doneB != {})
  }

  /** The state between the forward and the backward half of a round. */
  ghost predicate Mid(adj: seq<seq<Edge>>, h: (int, int) -> real, s: int, t: int,
                      gf: seq<Dist>, pf: seq<int>, viaF: seq<real>, stampF: seq<nat>, clockF: nat,
                      closedF: seq<bool>, doneF: set<int>, openF: seq<Entry>,
                      gb: seq<Dist>, pb: seq<int>, viaB: seq<real>, stampB: seq<nat>, clockB: nat,
                      closedB: seq<bool>, doneB: set<int>, openB: seq<Entry>, best: Dist, meet: int)
  {
    Both(adj, h, s, t, gf, pf, viaF, stampF, clockF, closedF, doneF, openF,
         gb, pb, viaB, stampB, clockB, closedB, doneB, openB, best, meet) &&
    doneF != {}
  }

  /** What the other direction offers a half-step: its closed nodes are scored, its
      root is closed once anything is, and (for a symmetric graph) its open scored
      nodes lead back to closed ones. */
  lemma Ready(adj: seq<seq<Edge>>, h: (int, int) -> real, goal: int, root: int, G: seq<Dist>, P: seq<int>,
              via: seq<real>, stamp: seq<nat>, clock: nat, closed: seq<bool>, done: set<int>, pq: seq<Entry>,
              sym: bool)
    requires Side(adj, root, G, P, via, stamp, clock, closed, done, pq)
    requires Reach(adj, h, goal, G, P, done, pq, -1, 0) && (sym ==> Symmetric(adj))
    ensures Scored(G, closed) && (root in done ==> closed[root])
    ensures sym ==> Backed(adj, root, G, closed)
  {
    SideScored(adj, h, goal, root, G, P, via, stamp, clock, closed, done, pq);
    assert SideNode(adj, root, G, P, via, stamp, clock, closed, done, root);
    if sym {
      SideBacked(adj, h, goal, root, G, P, via, stamp, clock, closed, done, pq);
    }
  }

  /** When one open list has run dry, a walk from `s` to `t` ends at a node closed
      by the other direction's root side: forward, `t` is closed forward and scored
      backward; backward, read in reverse, `s` is closed backward and scored forward. */
  lemma Exhausted(adj: seq<seq<Edge>>, h: (int, int) -> real, s: int, t: int,
                  gf: seq<Dist>, pf: seq<int>, viaF: seq<real>, stampF: seq<nat>, clockF: nat, closedF: seq<bool>,
                  doneF: set<int>, openF: seq<Entry>,
                  gb: seq<Dist>, pb: seq<int>, viaB: seq<real>, stampB: seq<nat>, clockB: nat, closedB: seq<bool>,
                  doneB: set<int>, openB: seq<Entry>, best: Dist)
    requires Side(adj, s, gf, pf, viaF, stampF, clockF, closedF, doneF, openF)
    requires Side(adj, t, gb, pb, viaB, stampB, clockB, closedB, doneB, openB)
    requires Reach(adj, h, t, gf, pf, doneF, openF, -1, 0) && Reach(adj, h, s, gb, pb, doneB, openB, -1, 0)
    requires Crossed(closedF, gb, best) && Crossed(closedB, gf, best) && Symmetric(adj)
    requires openF == [] || openB == [] || best.Fin?
    ensures forall p, x :: WalkFromTo(adj, p, s, t, x) ==> best.Fin?
  {
    forall p, x | WalkFromTo(adj, p, s, t, x) ensures best.Fin? {
      if openF == [] {
        ReachedAll(adj, h, t, gf, pf, doneF, p, x);
        assert SideNode(adj, s, gf, pf, viaF, stampF, clockF, closedF, doneF, t);
      } else if openB == [] {
        BackWalk(adj, p, s, t, x);
        ReachedAll(adj, h, s, gb, pb, doneB, Reverse(p), x);
        assert SideNode(adj, t, gb, pb, viaB, stampB, clockB, closedB, doneB, s);
      }
    }
  }

  // ------------------------------------------------------------ the path that is built

  /** The order of nodes with a g-score: by g-score, then by stamp. */
  ghost predicate Below(G: seq<Dist>, stamp: seq<nat>, x: int, v: int)
    requires |stamp| == |G| && 0 <= x < |G| && 0 <= v < |G|
  {
    G[x].Fin? && G[v].Fin? && (G[x].x < G[v].x || (G[x].x == G[v].x && stamp[x] < stamp[v]))
  }

  /** The nodes below `v`. */
  ghost function BelowSet(G: seq<Dist>, stamp: seq<nat>, v: int): (r: set<int>)
    requires |stamp| == |G| && 0 <= v < |G|
    ensures forall x :: x in r <==> 0 <= x < |G| && Below(G, stamp, x, v)
  {
    set x | 0 <= x < |G| && Below(G, stamp, x, v)
  }

  /** The rank of a node: how many nodes are below it. */
  ghost function TreeRank(G: seq<Dist>, stamp: seq<nat>): (rank: seq<nat>)
    requires |stamp| == |G|
    ensures |rank| == |G|
    ensures forall v :: 0 <= v < |G| ==> rank[v] == |BelowSet(G, stamp, v)|
  {
    seq(|G|, v => if 0 <= v < |G| then |BelowSet(G, stamp, v)| else 0)
  }

  /** A node below another has a smaller rank. */
  lemma BelowRank(G: seq<Dist>, stamp: seq<nat>, x: int, v: int)
    requires |stamp| == |G| && 0 <= x < |G| && 0 <= v < |G| && Below(G, stamp, x, v)
    ensures |BelowSet(G, stamp, x)| < |BelowSet(G, stamp, v)|
  {
    var A, B := BelowSet(G, stamp, x), BelowSet(G, stamp, v);
    assert A <= B;
    assert x in B - A;
    assert B == A + (B - A);
  }

  /** A parent is below its child, so the forest is ranked, and every node with a
      g-score other than the root has a parent. */
  lemma TreeRanked(adj: seq<seq<Edge>>, root: int, G: seq<Dist>, P: seq<int>, via: seq<real>, stamp: seq<nat>)
    requires Tree(adj, root, G, P, via, stamp) && NonNegativeWeights(adj)
    ensures Ranked(P, TreeRank(G, stamp))
  {
    var rank := TreeRank(G, stamp);
    forall v | 0 <= v < |P| ensures -1 <= P[v] < |P| && (P[v] != -1 ==> rank[P[v]] < rank[v]) {
      assert TreeNode(adj, root, G, P, via, stamp, v);
      if P[v] != -1 {
        var i :| 0 <= i < |adj[P[v]]| && adj[P[v]][i] == Edge(v, via[v]);
        assert via[v] >= 0.0;
        assert Below(G, stamp, P[v], v);
        BelowRank(G, stamp, P[v], v);
      }
    }
  }

  /** `c` follows the parent links from its first node to a node without a parent. */
  ghost predicate Chain(P: seq<int>, c: seq<int>) {
    c != [] && (forall i :: 0 <= i < |c| ==> 0 <= c[i] < |P|) &&
    P[c[|c| - 1]] == -1 && (forall i :: 0 <= i < |c| - 1 ==> c[i + 1] == P[c[i]])
  }

  /** The walk `for (cur = p[x]; cur != -1; cur = p[cur])` that starts after `x`,
      with `x` put in front, is a chain from `x`. */
  lemma ChainAfter(P: seq<int>, x: int, right: seq<int>)
    requires 0 <= x < |P| && (right == [] <==> P[x] == -1)
    requires forall i :: 0 <= i < |right| ==> 0 <= right[i] < |P|
    requires right != [] ==> right[0] == P[x] && P[right[|right| - 1]] == -1
    requires forall i :: 0 <= i < |right| - 1 ==> right[i + 1] == P[right[i]]
    ensures Chain(P, [x] + right)
  {
  }

  /** A parent chain from a node with a g-score ends at the root, and read backwards it
      is a walk from the root of weight at most that g-score. */
  lemma {:induction false} ChainWalk(adj: seq<seq<Edge>>, root: int, G: seq<Dist>, P: seq<int>, via: seq<real>,
                                     stamp: seq<nat>, chain: seq<int>) returns (x: real)
    requires Tree(adj, root, G, P, via, stamp) && Chain(P, chain) && G[chain[0]].Fin?
    ensures chain[|chain| - 1] == root
    ensures IsWalk(adj, Reverse(chain), x) && x <= G[chain[0]].x
    decreases |chain|
  {
    var m := chain[0];
    assert TreeNode(adj, root, G, P, via, stamp, m);
    if |chain| == 1 {
      x := 0.0;
      assert Reverse(chain) == [m];
    } else {
      var rest := chain[1..];
      assert rest[0] == P[m];
      assert Chain(P, rest);
      var y := ChainWalk(adj, root, G, P, via, stamp, rest);
      assert chain[|chain| - 1] == rest[|rest| - 1];
      assert Reverse(rest)[|Reverse(rest)| - 1] == P[m];
      assert HasEdge(adj, P[m], m, via[m]) && G[P[m]].x + via[m] <= G[m].x;
      WalkExtend(adj, Reverse(rest), y, m, via[m]);
      assert Reverse(chain) == Reverse(rest) + [m];
      x := y + via[m];
    }
  }

  /** The path of planner.cpp:238-253: the forward chain from `meet` reversed, then
      the backward chain after `meet`, is a walk from `s` to `meet` followed by the
      reverse of a walk from `t` to `meet`, weighing at most `best`. */
  lemma Split(adj: seq<seq<Edge>>, s: int, t: int, gf: seq<Dist>, pf: seq<int>, viaF: seq<real>, stampF: seq<nat>,
              gb: seq<Dist>, pb: seq<int>, viaB: seq<real>, stampB: seq<nat>, best: real, meet: int,
              chainF: seq<int>, right: seq<int>)
    requires Tree(adj, s, gf, pf, viaF, stampF) && Tree(adj, t, gb, pb, viaB, stampB)
    requires Meet(gf, gb, Fin(best), meet)
    requires Chain(pf, chainF) && chainF[0] == meet && Chain(pb, [meet] + right)
    ensures SplitWalk(adj, Reverse(chainF) + right, s, t, best)
  {
    var chainB := [meet] + right;
    var x := ChainWalk(adj, s, gf, pf, viaF, stampF, chainF);
    var y := ChainWalk(adj, t, gb, pb, viaB, stampB, chainB);
    SplitJoin(adj, Reverse(chainF), right, s, t, meet, x, y, best);
  }

  /** A walk from `s` to `meet` followed by the nodes after `meet` of a reversed walk
      from `t` to `meet` is a split walk of their total weight. */
  lemma SplitJoin(adj: seq<seq<Edge>>, left: seq<int>, right: seq<int>, s: int, t: int, meet: int,
                  x: real, y: real, best: real)
    requires WalkFromTo(adj, left, s, meet, x) && WalkFromTo(adj, Reverse([meet] + right), t, meet, y)
    requires x + y <= best
    ensures SplitWalk(adj, left + right, s, t, best)
  {
    var p := left + right;
    var j := |left|;
    assert p[..j] == left;
    assert p[j - 1..] == [meet] + right;
    assert WalkWithin(adj, Reverse(p[j - 1..]), t, p[j - 1], best - x);
  }

  /** Reading a sequence backwards twice gives it back. */
  lemma ReverseReverse(q: seq<int>)
    ensures Reverse(Reverse(q)) == q
  {
    var r := Reverse(Reverse(q));
    assert |r| == |q|;
    forall k | 0 <= k < |q| ensures r[k] == q[k] {
      assert r[k] == Reverse(q)[|q| - 1 - k];
    }
  }

  /** Reading `q + [z]` backwards puts `z` first. */
  lemma {:induction false} ReverseSnoc(q: seq<int>, z: int)
    ensures Reverse(q + [z]) == [z] + Reverse(q)
    decreases |q|
  {
    if q == [] {
      assert q + [z] == [z];
    } else {
      assert (q + [z])[1..] == q[1..] + [z];
      ReverseSnoc(q[1..], z);
    }
  }

  /** A position splits a sequence into a prefix ending there and a suffix starting there. */
  lemma SplitAt(p: seq<int>, i: int)
    requires 0 <= i < |p|
    ensures p[..i + 1] + p[i..][1..] == p
  {
    assert p[i..][1..] == p[i + 1..];
  }

  /** An edge into the first node of a walk extends it at the front. */
  lemma WalkPrepend(adj: seq<seq<Edge>>, z: int, w: real, r: seq<int>, y: real)
    requires IsWalk(adj, r, y) && HasEdge(adj, z, r[0], w)
    ensures IsWalk(adj, [z] + r, w + y)
  {
    assert IsWalk(adj, [z], 0.0);
    WalkExtend(adj, [z], 0.0, r[0], w);
    assert [z] + [r[0]] == [z, r[0]];
    WalkJoin(adj, [z, r[0]], 0.0 + w, r, y);
    assert [z, r[0]] + r[1..] == [z] + r;
  }

  /** In a graph whose every edge has a twin the other way, a walk read backwards is
      a walk of the same weight. */
  lemma {:induction false} WalkReverse(adj: seq<seq<Edge>>, q: seq<int>, y: real)
    requires Symmetric(adj) && IsWalk(adj, q, y)
    ensures IsWalk(adj, Reverse(q), y)
    decreases |q|
  {
    if |q| == 1 {
      assert Reverse(q) == q;
    } else {
      var q' := q[..|q| - 1];
      var z := q[|q| - 1];
      var w := WalkLastEdge(adj, q, y);
      WalkReverse(adj, q', y - w);
      var r := Reverse(q');
      TwinEdge(adj, r[0], z, w);
      WalkPrepend(adj, z, w, r, y - w);
      assert w + (y - w) == y;
      ReverseSnoc(q', z);
      assert q' + [z] == q;
    }
  }

  /** The twin of an edge in a graph whose every edge has one. */
  lemma TwinEdge(adj: seq<seq<Edge>>, a: int, b: int, w: real)
    requires Symmetric(adj) && HasEdge(adj, a, b, w)
    ensures HasEdge(adj, b, a, w)
  {
  }

  /** A walk of weight at most `d` from `a` to `b`. */
  ghost predicate WalkWithin(adj: seq<seq<Edge>>, p: seq<int>, a: int, b: int, d: real) {
    exists x :: x <= d && WalkFromTo(adj, p, a, b, x)
  }

  /** In a graph whose every edge has a twin the other way (an undirected load), a
      split walk is a walk from `s` to `t` of weight at most `d`. */
  lemma SymmetricSplitWalk(adj: seq<seq<Edge>>, p: seq<int>, s: int, t: int, d: real)
    requires Symmetric(adj) && SplitWalk(adj, p, s, t, d)
    ensures WalkWithin(adj, p, s, t, d)
  {
    var j, x :| 1 <= j <= |p| && IsWalk(adj, p[..j], x) && WalkWithin(adj, Reverse(p[j - 1..]), t, p[j - 1], d - x);
    var b := p[j - 1..];
    var y :| y <= d - x && WalkFromTo(adj, Reverse(b), t, p[j - 1], y);
    WalkReverse(adj, Reverse(b), y);
    ReverseReverse(b);
    assert b[|b| - 1] == Reverse(b)[0];
    JoinAt(adj, p, s, t, j, x, y, d);
  }

  /** A walk to position `j - 1` and a walk from there to the end make a walk of `p`. */
  lemma JoinAt(adj: seq<seq<Edge>>, p: seq<int>, s: int, t: int, j: int, x: real, y: real, d: real)
    requires 1 <= j <= |p| && p[0] == s && p[|p| - 1] == t && x + y <= d
    requires IsWalk(adj, p[..j], x) && IsWalk(adj, p[j - 1..], y)
    ensures WalkWithin(adj, p, s, t, d)
  {
    WalkJoin(adj, p[..j], x, p[j - 1..], y);
    SplitAt(p, j - 1);
    assert WalkFromTo(adj, p, s, t, x + y);
  }
}

/** `bidir_astar_search` (planner.cpp:142-255). Both directions expand along the
    graph's own edges; the heuristic `h(v, goal)` is a parameter of the model. */
module Bidir {
  import opened GraphModel
  import opened Walks
  import opened Frontier
  import opened Planner
  import opened BidirProof

  /** The edge loop of one direction (planner.cpp:189-202 forward, 210-223 backward):
      an edge that lowers its target's g-score records the parent and pushes the
      target with key g + h; an edge into a node the other direction has closed offers
      the sum of the two g-scores as a new best path through it. Afterwards every
      target of `u` has a g-score within g(u) plus the edge, every target closed by
      the other direction has given a best path within its two g-scores, and g-scores
      and the best path have only decreased. */
  method RelaxSide(adj: seq<seq<Edge>>, h: (int, int) -> real, goal: int, G: seq<Dist>, P: seq<int>,
                   u: int, pq: seq<Entry>, otherG: seq<Dist>, otherClosed: seq<bool>, best: Dist, meet: int,
                   ghost root: int, ghost via: seq<real>, ghost stamp: seq<nat>, ghost clock: nat,
                   ghost closed: seq<bool>, ghost done: set<int>)
    returns (G': seq<Dist>, P': seq<int>, pq': seq<Entry>, best': Dist, meet': int,
             ghost via': seq<real>, ghost stamp': seq<nat>, ghost clock': nat)
    requires NonNegativeWeights(adj) && Side(adj, root, G, P, via, stamp, clock, closed, done, pq)
    requires Reach(adj, h, goal, G, P, done, pq, u, 0)
    requires 0 <= u < |adj| && G[u].Fin? && |otherClosed| == |adj| && Scored(otherG, otherClosed)
    requires Meet(G, otherG, best, meet)
    ensures Side(adj, root, G', P', via', stamp', clock', closed, done, pq')
    ensures Reach(adj, h, goal, G', P', done, pq', -1, 0)
    ensures Meet(G', otherG, best', meet')
    ensures !Less(best, best')
    ensures |G'| == |G| && forall v :: 0 <= v < |G| ==> !Less(G[v], G'[v])
    ensures forall j :: 0 <= j < |adj[u]| ==>
      G'[adj[u][j].to].Fin? && G'[adj[u][j].to].x <= G[u].x + adj[u][j].w
    ensures forall j :: 0 <= j < |adj[u]| && otherClosed[adj[u][j].to] ==>
      best'.Fin? && best'.x <= G'[adj[u][j].to].x + otherG[adj[u][j].to].x
    ensures Crossed(otherClosed, G, best) ==> Crossed(otherClosed, G', best')
  {
    G', P', pq', best', meet', via', stamp', clock' := G, P, pq, best, meet, via, stamp, clock;
    var k := 0;
    while k < |adj[u]|
      invariant 0 <= k <= |adj[u]|
      invariant Side(adj, root, G', P', via', stamp', clock', closed, done, pq')
      invariant Reach(adj, h, goal, G', P', done, pq', u, k)
      invariant Meet(G', otherG, best', meet') && !Less(best, best')
      invariant |G'| == |G| && G'[u] == G[u] && forall v :: 0 <= v < |G| ==> !Less(G[v], G'[v])
      invariant forall j :: 0 <= j < k ==> G'[adj[u][j].to].Fin? && G'[adj[u][j].to].x <= G[u].x + adj[u][j].w
      invariant forall j :: 0 <= j < k && otherClosed[adj[u][j].to] ==>
        best'.Fin? && best'.x <= G'[adj[u][j].to].x + otherG[adj[u][j].to].x
      invariant Crossed(otherClosed, G, best) ==> Crossed(otherClosed, G', best')
    {
      G', P', pq', best', meet', via', stamp', clock' :=
        RelaxEdge(adj, h, goal, G', P', u, k, pq', otherG, otherClosed, best', meet', root, via', stamp', clock', closed, done);
      k := k + 1;
    }
    ReachEnd(adj, h, goal, G', P', done, pq', u);
  }

  /** Edge `k` of `u` in the edge loop: only its target's g-score may change, and
      only downwards to within g(u) plus the edge; when the other direction has closed
      the target, the best path is at most the sum of its two g-scores. */
  method RelaxEdge(adj: seq<seq<Edge>>, h: (int, int) -> real, goal: int, G: seq<Dist>, P: seq<int>,
                   u: int, k: nat, pq: seq<Entry>, otherG: seq<Dist>, otherClosed: seq<bool>, best: Dist, meet: int,
                   ghost root: int, ghost via: seq<real>, ghost stamp: seq<nat>, ghost clock: nat,
                   ghost closed: seq<bool>, ghost done: set<int>)
    returns (G': seq<Dist>, P': seq<int>, pq': seq<Entry>, best': Dist, meet': int,
             ghost via': seq<real>, ghost stamp': seq<nat>, ghost clock': nat)
    requires NonNegativeWeights(adj) && Side(adj, root, G, P, via, stamp, clock, closed, done, pq)
    requires Reach(adj, h, goal, G, P, done, pq, u, k)
    requires 0 <= u < |adj| && k < |adj[u]| && G[u].Fin? && |otherClosed| == |adj| && Scored(otherG, otherClosed)
    requires Meet(G, otherG, best, meet)
    ensures Side(adj, root, G', P', via', stamp', clock', closed, done, pq')
    ensures Reach(adj, h, goal, G', P', done, pq', u, k + 1)
    ensures Meet(G', otherG, best', meet') && !Less(best, best')
    ensures var v := adj[u][k].to;
      && |G'| == |G| && G'[u] == G[u]
      && (forall x :: 0 <= x < |G| && x != v ==> G'[x] == G[x])
      && !Less(G[v], G'[v]) && G'[v].Fin? && G'[v].x <= G[u].x + adj[u][k].w
      && (otherClosed[v] ==> best'.Fin? && best'.x <= G'[v].x + otherG[v].x)
    ensures Crossed(otherClosed, G, best) ==> Crossed(otherClosed, G', best')
  {
    G', P', pq', best', meet', via', stamp', clock' := G, P, pq, best, meet, via, stamp, clock;
    var e := adj[u][k];
    if Less(Fin(G[u].x + e.w), G[e.to]) {
      var tentative := G[u].x + e.w;
      SideUpdate(adj, root, G, P, via, stamp, clock, closed, done, pq, u, k, tentative + h(e.to, goal));
      ReachUpdate(adj, h, goal, G, P, done, pq, u, k);
      G' := G[e.to := Fin(tentative)];
      P' := P[e.to := u];
      via' := via[e.to := e.w];
      stamp' := stamp[e.to := clock];
      clock' := clock + 1;
      pq' := pq + [Entry(tentative + h(e.to, goal), e.to)];
    } else {
      ReachSkip(adj, h, goal, G, P, done, pq, u, k);
    }
    if otherClosed[e.to] {
      var cand := Add(G'[e.to], otherG[e.to]);
      if Less(cand, best') {
        best', meet' := cand, e.to;
      }
    }
  }

  /** One half-step of the main loop (planner.cpp:184-202 forward, 205-223 backward):
      pop the least entry `pq[i]`; a closed node is dropped and nothing else changes,
      an open one is closed and its edges relaxed. When the other direction's open
      nodes lead back to its closed ones, closing a node the other direction has
      scored yields a finite best path. */
  method Expand(adj: seq<seq<Edge>>, h: (int, int) -> real, goal: int, G: seq<Dist>, P: seq<int>,
                closed: seq<bool>, pq: seq<Entry>, i: nat, otherG: seq<Dist>, otherClosed: seq<bool>,
                best: Dist, meet: int, ghost root: int, ghost via: seq<real>, ghost stamp: seq<nat>,
                ghost clock: nat, ghost done: set<int>, ghost otherRoot: int)
    returns (G': seq<Dist>, P': seq<int>, closed': seq<bool>, pq': seq<Entry>, best': Dist, meet': int,
             wasOpen: bool, ghost via': seq<real>, ghost stamp': seq<nat>, ghost clock': nat, ghost done': set<int>)
    requires NonNegativeWeights(adj) && Side(adj, root, G, P, via, stamp, clock, closed, done, pq)
    requires Reach(adj, h, goal, G, P, done, pq, -1, 0)
    requires i < |pq| && |otherClosed| == |adj| && Scored(otherG, otherClosed) && Meet(G, otherG, best, meet)
    ensures Side(adj, root, G', P', via', stamp', clock', closed', done', pq')
    ensures Reach(adj, h, goal, G', P', done', pq', -1, 0)
    ensures Meet(G', otherG, best', meet') && !Less(best, best')
    ensures |G'| == |G| && forall v :: 0 <= v < |G| ==> !Less(G[v], G'[v])
    ensures 0 <= pq[i].node < |adj| && (wasOpen <==> !closed[pq[i].node])
    ensures wasOpen ==> var u := pq[i].node;
      && 0 <= u < |adj| && u !in done && done' == done + {u} && closed' == closed[u := true] && G[u].Fin?
      && forall j :: 0 <= j < |adj[u]| ==> G'[adj[u][j].to].Fin? && G'[adj[u][j].to].x <= G[u].x + adj[u][j].w
    ensures wasOpen ==> done' != {} && |done'| == |done| + 1
    ensures !wasOpen ==>
      && done != {} && pq[i].node in done && done' == done && closed' == closed && pq' == RemoveAt(pq, i)
      && G' == G && P' == P && best' == best && meet' == meet
      && via' == via && stamp' == stamp && clock' == clock
    ensures Crossed(otherClosed, G, best) ==> Crossed(otherClosed, G', best')
    ensures Backed(adj, otherRoot, otherG, otherClosed) && Crossed(otherClosed, G, best) &&
            Crossed(closed, otherG, best) && (pq[i].node != otherRoot || otherClosed[otherRoot]) ==>
            Crossed(closed', otherG, best')
  {
    var u := pq[i].node;
    assert SideEntry(G, pq, i);
    pq' := RemoveAt(pq, i);
    if closed[u] {
      PopClosed(adj, root, G, P, via, stamp, clock, closed, done, pq, i);
      ReachPopClosed(adj, h, goal, G, P, done, pq, i);
      G', P', closed', best', meet', wasOpen := G, P, closed, best, meet, false;
      via', stamp', clock', done' := via, stamp, clock, done;
      return;
    }
    PopOpen(adj, root, G, P, via, stamp, clock, closed, done, pq, i);
    ReachPopOpen(adj, h, goal, G, P, done, pq, i);
    closed' := closed[u := true];
    done' := done + {u};
    wasOpen := true;
    G', P', pq', best', meet', via', stamp', clock' :=
      RelaxSide(adj, h, goal, G, P, u, pq', otherG, otherClosed, best, meet, root, via, stamp, clock, closed', done');
    if Backed(adj, otherRoot, otherG, otherClosed) && Crossed(otherClosed, G, best) &&
       Crossed(closed, otherG, best) && (u != otherRoot || otherClosed[otherRoot]) {
      CrossClose(adj, otherRoot, otherG, otherClosed, G, closed, best, best', u);
    }
  }

  /** The forward half of a round (planner.cpp:184-202): expand the least forward
      entry. A closed pop leaves the loop invariant as it was, one entry shorter; an
      open pop closes one more node. */
  method ForwardHalf(adj: seq<seq<Edge>>, h: (int, int) -> real, s: int, t: int,
                     gf: seq<Dist>, pf: seq<int>, closedF: seq<bool>, openF: seq<Entry>, i: nat,
                     gb: seq<Dist>, closedB: seq<bool>, best: Dist, meet: int,
                     ghost viaF: seq<real>, ghost stampF: seq<nat>, ghost clockF: nat, ghost doneF: set<int>,
                     ghost pb: seq<int>, ghost viaB: seq<real>, ghost stampB: seq<nat>, ghost clockB: nat,
                     ghost doneB: set<int>, ghost openB: seq<Entry>)
    returns (gf': seq<Dist>, pf': seq<int>, closedF': seq<bool>, openF': seq<Entry>, best': Dist, meet': int,
             wasOpen: bool, ghost viaF': seq<real>, ghost stampF': seq<nat>, ghost clockF': nat, ghost doneF': set<int>)
    requires NonNegativeWeights(adj) && i < |openF|
    requires Rounds(adj, h, s, t, gf, pf, viaF, stampF, clockF, closedF, doneF, openF,
                    gb, pb, viaB, stampB, clockB, closedB, doneB, openB, best, meet)
    ensures 0 <= openF[i].node < |closedF| && (wasOpen <==> !closedF[openF[i].node])
    ensures wasOpen ==>
      && closedF' == closedF[openF[i].node := true]
      && |doneF'| == |doneF| + 1
      && Mid(adj, h, s, t, gf', pf', viaF', stampF', clockF', closedF', doneF', openF',
             gb, pb, viaB, stampB, clockB, closedB, doneB, openB, best', meet')
    ensures !wasOpen ==>
      && openF' == RemoveAt(openF, i)
      && gf' == gf && pf' == pf && closedF' == closedF && best' == best && meet' == meet
      && doneF' == doneF && |openF'| == |openF| - 1
      && Rounds(adj, h, s, t, gf', pf', viaF', stampF', clockF', closedF', doneF', openF',
                gb, pb, viaB, stampB, clockB, closedB, doneB, openB, best', meet')
  {
    ghost var sym := s != t && Symmetric(adj);
    Ready(adj, h, s, t, gb, pb, viaB, stampB, clockB, closedB, doneB, openB, sym);
    gf', pf', closedF', openF', best', meet', wasOpen, viaF', stampF', clockF', doneF' :=
      Expand(adj, h, t, gf, pf, closedF, openF, i, gb, closedB, best, meet, s, viaF, stampF, clockF, doneF, t);
  }

  /** The backward half of a round (planner.cpp:205-223): expand the least backward
      entry, which brings the loop invariant back to the top of a round. */
  method BackwardHalf(adj: seq<seq<Edge>>, h: (int, int) -> real, s: int, t: int,
                      gf: seq<Dist>, closedF: seq<bool>,
                      gb: seq<Dist>, pb: seq<int>, closedB: seq<bool>, openB: seq<Entry>, j: nat,
                      best: Dist, meet: int,
                      ghost pf: seq<int>, ghost viaF: seq<real>, ghost stampF: seq<nat>, ghost clockF: nat,
                      ghost doneF: set<int>, ghost openF: seq<Entry>,
                      ghost viaB: seq<real>, ghost stampB: seq<nat>, ghost clockB: nat, ghost doneB: set<int>)
    returns (gb': seq<Dist>, pb': seq<int>, closedB': seq<bool>, openB': seq<Entry>, best': Dist, meet': int,
             wasOpen: bool, ghost viaB': seq<real>, ghost stampB': seq<nat>, ghost clockB': nat, ghost doneB': set<int>)
    requires NonNegativeWeights(adj) && j < |openB|
    requires Mid(adj, h, s, t, gf, pf, viaF, stampF, clockF, closedF, doneF, openF,
                 gb, pb, viaB, stampB, clockB, closedB, doneB, openB, best, meet)
    ensures 0 <= openB[j].node < |closedB| && (wasOpen <==> !closedB[openB[j].node])
    ensures wasOpen ==>
      && closedB' == closedB[openB[j].node := true] && |doneB'| == |doneB| + 1
    ensures !wasOpen ==>
      && openB' == RemoveAt(openB, j)
      && gb' == gb && pb' == pb && closedB' == closedB && best' == best && meet' == meet
      && doneB' == doneB && |openB'| == |openB| - 1
    ensures Rounds(adj, h, s, t, gf, pf, viaF, stampF, clockF, closedF, doneF, openF,
                   gb', pb', viaB', stampB', clockB', closedB', doneB', openB', best', meet')
  {
    ghost var sym := s != t && Symmetric(adj);
    Ready(adj, h, t, s, gf, pf, viaF, stampF, clockF, closedF, doneF, openF, sym);
    gb', pb', closedB', openB', best', meet', wasOpen, viaB', stampB', clockB', doneB' :=
      Expand(adj, h, s, gb, pb, closedB, openB, j, gf, closedF, best, meet, t, viaB, stampB, clockB, doneB, s);
  }

  /** The main loop of `bidir_astar_search` (planner.cpp:177-224): stop when the two
      least keys together reach the best path; otherwise pop the forward list, and
      when its node is open close it and relax its edges, then do the same backward.
      A pop of an already closed node starts the next round at once. In a graph
      whose every edge has a twin the other way, a walk from `s` to `t` guarantees a
      finite best path. */
  method Search(adj: seq<seq<Edge>>, h: (int, int) -> real, s: int, t: int)
    returns (gf: seq<Dist>, pf: seq<int>, gb: seq<Dist>, pb: seq<int>, best: Dist, meet: int, expanded: nat,
             ghost viaF: seq<real>, ghost stampF: seq<nat>, ghost viaB: seq<real>, ghost stampB: seq<nat>)
    requires EdgesInRange(adj) && NonNegativeWeights(adj) && 0 <= s < |adj| && 0 <= t < |adj|
    ensures Tree(adj, s, gf, pf, viaF, stampF) && Tree(adj, t, gb, pb, viaB, stampB)
    ensures Meet(gf, gb, best, meet)
    ensures 1 <= expanded <= 2 * |adj|
    ensures s != t && Symmetric(adj) ==> forall p, x :: WalkFromTo(adj, p, s, t, x) ==> best.Fin?
  {
    var n := |adj|;
    gf := seq(n, v => if v == s then Fin(0.0) else Inf);
    gb := seq(n, v => if v == t then Fin(0.0) else Inf);
    pf := seq(n, _ => -1);
    pb := seq(n, _ => -1);
    var closedF: seq<bool> := seq(n, _ => false);
    var closedB: seq<bool> := seq(n, _ => false);
    var openF := [Entry(0.0 + h(s, t), s)];
    var openB := [Entry(0.0 + h(t, s), t)];
    best, meet, expanded := Inf, -1, 0;
    viaF, viaB := seq(n, _ => 0.0), seq(n, _ => 0.0);
    stampF, stampB := seq(n, _ => 0), seq(n, _ => 0);
    ghost var clockF: nat, clockB: nat := 1, 1;
    ghost var doneF: set<int>, doneB: set<int> := {}, {};
    InitSide(adj, s, 0.0 + h(s, t));
    InitSide(adj, t, 0.0 + h(t, s));
    InitReach(adj, h, t, s);
    InitReach(adj, h, s, t);
    while openF != [] && openB != []
      invariant Rounds(adj, h, s, t, gf, pf, viaF, stampF, clockF, closedF, doneF, openF,
                       gb, pb, viaB, stampB, clockB, closedB, doneB, openB, best, meet)
      invariant expanded == |doneF| + |doneB| && |doneF| <= n && |doneB| <= n
      decreases 2 * n - |doneF| - |doneB|, |openF| + |openB|
    {
      KeyMinExists(openF);
      var i :| 0 <= i < |openF| && IsKeyMin(openF, i);
      KeyMinExists(openB);
      var j :| 0 <= j < |openB| && IsKeyMin(openB, j);
      if best.Fin? && openF[i].key + openB[j].key >= best.x {
        break;
      }
      var wasOpen;
      gf, pf, closedF, openF, best, meet, wasOpen, viaF, stampF, clockF, doneF :=
        ForwardHalf(adj, h, s, t, gf, pf, closedF, openF, i, gb, closedB, best, meet,
                    viaF, stampF, clockF, doneF, pb, viaB, stampB, clockB, doneB, openB);
      if wasOpen {
        expanded := expanded + 1;
        gb, pb, closedB, openB, best, meet, wasOpen, viaB, stampB, clockB, doneB :=
          BackwardHalf(adj, h, s, t, gf, closedF, gb, pb, closedB, openB, j, best, meet,
                       pf, viaF, stampF, clockF, doneF, openF, viaB, stampB, clockB, doneB);
        if wasOpen {
          expanded := expanded + 1;
        }
      }
    }
    SideTree(adj, s, gf, pf, viaF, stampF, clockF, closedF, doneF, openF);
    SideTree(adj, t, gb, pb, viaB, stampB, clockB, closedB, doneB, openB);
    if s != t && Symmetric(adj) {
      Exhausted(adj, h, s, t, gf, pf, viaF, stampF, clockF, closedF, doneF, openF,
                gb, pb, viaB, stampB, clockB, closedB, doneB, openB, best);
    }
  }

  /** `bidir_astar_search(g, s, t)` with heuristic `h`. Out-of-range indices give the
      default `Stats` and `s == t` the one-node path at distance 0 with no expansion.
      Otherwise the distance is infinite exactly when the path is empty (no meeting
      node was found), and a finite distance comes with a path that walks from `s` to
      a meeting node and then back along a walk from `t`, weighing at most the
      distance. In a graph whose every edge has a twin the other way (an undirected
      load), the distance is finite exactly when some walk leads from `s` to `t`. No
      claim is made that the distance is the shortest. */
  method BidirAStarSearch(g: Graph, h: (int, int) -> real, s: int, t: int) returns (st: Stats)
    requires g.Valid() && NonNegativeWeights(g.adj)
    ensures !(0 <= s < |g.adj| && 0 <= t < |g.adj|) ==> st == DefaultStats
    ensures 0 <= s < |g.adj| && 0 <= t < |g.adj| && s == t ==> st == Stats(Fin(0.0), 0, 0, [s])
    ensures 0 <= s < |g.adj| && 0 <= t < |g.adj| && s != t ==>
      && 1 <= st.nodesExpanded <= 2 * |g.adj|
      && (st.distance.Inf? <==> st.path == [])
      && (st.distance.Fin? ==> SplitWalk(g.adj, st.path, s, t, st.distance.x))
      && (Symmetric(g.adj) ==> (st.distance.Fin? <==> exists p, x :: WalkFromTo(g.adj, p, s, t, x)))
  {
    var adj := g.Adjacency();
    var n := |adj|;
    if s < 0 || s >= n || t < 0 || t >= n { return DefaultStats; }
    if s == t { return Stats(Fin(0.0), 0, 0, [s]); }
    var gf, pf, gb, pb, best, meet, expanded, viaF, stampF, viaB, stampB := Search(adj, h, s, t);
    if best.Inf? {
      return Stats(Inf, expanded, 0, []);
    }
    TreeRanked(adj, s, gf, pf, viaF, stampF);
    TreeRanked(adj, t, gb, pb, viaB, stampB);
    var chainF := ParentChain(pf, meet, TreeRank(gf, stampF));
    var left := Reverse(chainF);
    var right := ParentChain(pb, pb[meet], TreeRank(gb, stampB));
    ChainAfter(pb, meet, right);
    Split(adj, s, t, gf, pf, viaF, stampF, gb, pb, viaB, stampB, best.x, meet, chainF, right);
    st := Stats(best, expanded, 0, left + right);
    if Symmetric(adj) {
      SymmetricSplitWalk(adj, st.path, s, t, best.x);
    }
  }
}
