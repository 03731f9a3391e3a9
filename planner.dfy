/** Shared pieces of the three searches: distances with an infinity, the `Stats`
    result record, and the walks back along a parent array. */
module Planner {
  import opened GraphModel
  import opened Walks

  /** A `double` distance that is either finite or `+infinity`. */
  datatype Dist = Fin(x: real) | Inf

  /** `a < b` on distances: nothing is below infinity's left, infinity is above every finite value. */
  predicate Less(a: Dist, b: Dist) {
    a.Fin? && (b.Inf? || a.x < b.x)
  }

  /** `a + b` on distances: infinity absorbs. */
  function Add(a: Dist, b: Dist): Dist {
    if a.Fin? && b.Fin? then Fin(a.x + b.x) else Inf
  }

  /** `Stats` (planner.h:7-12). `millis` stays 0 in this model: no clock is read. */
  datatype Stats = Stats(distance: Dist, nodesExpanded: nat, millis: int, path: seq<int>)

  /** A default-constructed `Stats`: distance 0.0, no expansions, no time, empty path. */
  const DefaultStats := Stats(Fin(0.0), 0, 0, [])

  /** `std::reverse` of a path. */
  function Reverse(s: seq<int>): (r: seq<int>)
    ensures |r| == |s|
    ensures forall i :: 0 <= i < |s| ==> r[i] == s[|s| - 1 - i]
  {
    if s == [] then [] else Reverse(s[1..]) + [s[0]]
  }

  /** `parent` holds -1 or a node, and `rank` strictly grows from a parent to its
      child, so every backward walk along `parent` ends. */
  ghost predicate Ranked(parent: seq<int>, rank: seq<nat>) {
    |rank| == |parent| &&
    forall v :: 0 <= v < |parent| ==>
      -1 <= parent[v] < |parent| && (parent[v] != -1 ==> rank[parent[v]] < rank[v])
  }

  /** The backward walk from `x` along `parent` meets `s`. */
  ghost predicate Reaches(parent: seq<int>, rank: seq<nat>, s: int, x: int)
    requires Ranked(parent, rank) && 0 <= x < |parent|
    decreases rank[x]
  {
    x == s || (parent[x] != -1 && Reaches(parent, rank, s, parent[x]))
  }

  /** Every step of `p` goes from a node's parent to the node. */
  ghost predicate ParentPath(parent: seq<int>, p: seq<int>) {
    (forall i :: 0 <= i < |p| ==> 0 <= p[i] < |parent|) &&
    (forall i :: 0 <= i < |p| - 1 ==> parent[p[i + 1]] == p[i])
  }

  /** `reconstruct_parent` (planner.cpp:26-38). */
  method ReconstructParent(parent: seq<int>, s: int, t: int, ghost rank: seq<nat>) returns (path: seq<int>)
    requires Ranked(parent, rank)
    ensures !(0 <= t < |parent|) ==> path == []
    ensures 0 <= t < |parent| ==> (path != [] <==> Reaches(parent, rank, s, t))
    ensures path != [] ==> path[0] == s && path[|path| - 1] == t && ParentPath(parent, path)
    ensures 0 <= t < |parent| && s == t ==> path == [s]
  {
    if !(0 <= t < |parent|) { return []; }
    var rev: seq<int> := [];
    var cur := t;
    while cur != -1
      invariant -1 <= cur < |parent|
      invariant forall i :: 0 <= i < |rev| ==> 0 <= rev[i] < |parent| && rev[i] != s
      invariant rev == [] ==> cur == t
      invariant rev != [] ==> rev[0] == t && cur == parent[rev[|rev| - 1]]
      invariant forall i :: 0 <= i < |rev| - 1 ==> rev[i + 1] == parent[rev[i]]
      invariant Reaches(parent, rank, s, t) <==> (cur != -1 && Reaches(parent, rank, s, cur))
      decreases if cur == -1 then 0 else rank[cur] + 1
    {
      rev := rev + [cur];
      if cur == s { break; }
      cur := parent[cur];
    }
    if rev == [] || rev[|rev| - 1] != s { return []; }
    path := Reverse(rev);
    assert s == t ==> rev == [t];
  }

  /** The walks `for (cur = x; cur != -1; cur = p[cur]) push_back(cur)` of
      planner.cpp:240 and 247: `from` and its ancestors, child first. */
  method ParentChain(parent: seq<int>, from: int, ghost rank: seq<nat>) returns (chain: seq<int>)
    requires Ranked(parent, rank) && -1 <= from < |parent|
    ensures chain == [] <==> from == -1
    ensures forall i :: 0 <= i < |chain| ==> 0 <= chain[i] < |parent|
    ensures chain != [] ==> chain[0] == from && parent[chain[|chain| - 1]] == -1
    ensures forall i :: 0 <= i < |chain| - 1 ==> chain[i + 1] == parent[chain[i]]
  {
    chain := [];
    var cur := from;
    while cur != -1
      invariant -1 <= cur < |parent|
      invariant forall i :: 0 <= i < |chain| ==> 0 <= chain[i] < |parent|
      invariant chain == [] ==> cur == from
      invariant chain != [] ==> chain[0] == from && cur == parent[chain[|chain| - 1]]
      invariant forall i :: 0 <= i < |chain| - 1 ==> chain[i + 1] == parent[chain[i]]
      decreases if cur == -1 then 0 else rank[cur] + 1
    {
      chain := chain + [cur];
      cur := parent[cur];
    }
  }

  /** Each node with a parent is reached from it by an edge of weight `via[v]`, and its
      distance is exactly the parent's plus that weight (Dijkstra and A*). */
  ghost predicate TightTree(adj: seq<seq<Edge>>, parent: seq<int>, via: seq<real>, d: seq<Dist>) {
    |parent| == |via| == |d| &&
    forall v :: 0 <= v < |parent| && parent[v] != -1 ==>
      0 <= parent[v] < |parent| && HasEdge(adj, parent[v], v, via[v]) &&
      d[parent[v]].Fin? && d[v].Fin? && d[v].x == d[parent[v]].x + via[v]
  }

  /** In a ranked tight tree rooted at `s`, where every reached node other than `s`
      has a parent, the backward walk from every reached node meets `s`. */
  lemma {:induction false} TreeReaches(adj: seq<seq<Edge>>, parent: seq<int>, via: seq<real>, d: seq<Dist>,
                                       rank: seq<nat>, s: int, v: int)
    requires Ranked(parent, rank) && TightTree(adj, parent, via, d)
    requires forall x :: 0 <= x < |parent| && x != s && d[x].Fin? ==> parent[x] != -1
    requires 0 <= v < |parent| && d[v].Fin?
    ensures Reaches(parent, rank, s, v)
    decreases rank[v]
  {
    if v != s {
      TreeReaches(adj, parent, via, d, rank, s, parent[v]);
    }
  }

  /** A path along a tight parent tree is a walk whose weight is the distance
      difference between its ends. */
  lemma {:induction false} TightTreeWalk(adj: seq<seq<Edge>>, parent: seq<int>, via: seq<real>, d: seq<Dist>, p: seq<int>)
    requires TightTree(adj, parent, via, d)
    requires p != [] && ParentPath(parent, p) && d[p[0]].Fin?
    ensures d[p[|p| - 1]].Fin? && IsWalk(adj, p, d[p[|p| - 1]].x - d[p[0]].x)
    decreases |p|
  {
    if |p| == 1 {
    } else {
      var pre := p[..|p| - 1];
      var v := p[|p| - 1];
      assert ParentPath(parent, pre);
      TightTreeWalk(adj, parent, via, d, pre);
      var u := pre[|pre| - 1];
      assert parent[v] == u;
      assert HasEdge(adj, u, v, via[v]) && d[v].x == d[u].x + via[v];
      WalkExtend(adj, pre, d[u].x - d[p[0]].x, v, via[v]);
      assert pre + [v] == p;
      assert d[u].x - d[p[0]].x + via[v] == d[v].x - d[p[0]].x;
    }
  }

  /** Following `parent` from a node that reaches `s` along a tight tree rooted at
      `s` with distance 0 gives a walk from `s` whose weight is the node's distance. */
  lemma ReconstructedWalk(adj: seq<seq<Edge>>, parent: seq<int>, via: seq<real>, d: seq<Dist>, s: int, t: int, p: seq<int>)
    requires TightTree(adj, parent, via, d) && 0 <= s < |d| && d[s] == Fin(0.0)
    requires p != [] && p[0] == s && p[|p| - 1] == t && ParentPath(parent, p)
    ensures d[t].Fin? && WalkFromTo(adj, p, s, t, d[t].x)
  {
    TightTreeWalk(adj, parent, via, d, p);
    assert d[t].x - d[s].x == d[t].x;
  }

  /** A set of nodes below `n` has at most `n` members. */
  lemma {:induction false} CardRange(done: set<int>, n: nat)
    requires forall v :: v in done ==> 0 <= v < n
    ensures |done| <= n
    decreases n
  {
    if n > 0 {
      var rest := done - {n - 1};
      CardRange(rest, n - 1);
      if n - 1 in done {
        assert done == rest + {n - 1};
      } else {
        assert done == rest;
      }
    } else {
      assert forall v :: v !in done;
      assert done == {};
    }
  }
}
