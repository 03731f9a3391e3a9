/** Walks in an adjacency-list graph: the vocabulary the search contracts are stated in. */
module Walks {
  import opened GraphModel

  /** `p` is a non-empty walk along edges of `adj` whose edge weights, for some choice
      among parallel edges, add up to `x`. */
  ghost predicate IsWalk(adj: seq<seq<Edge>>, p: seq<int>, x: real)
    decreases |p|
  {
    |p| >= 1 &&
    if |p| == 1 then x == 0.0
    else
      var pre := p[..|p| - 1];
      exists y :: IsWalk(adj, pre, y) && HasEdge(adj, p[|p| - 2], p[|p| - 1], x - y)
  }

  /** A walk of weight `x` from `s` to `t`. */
  ghost predicate WalkFromTo(adj: seq<seq<Edge>>, p: seq<int>, s: int, t: int, x: real) {
    IsWalk(adj, p, x) && p[0] == s && p[|p| - 1] == t
  }

  /** Extending a walk by one edge adds that edge's weight. */
  lemma WalkExtend(adj: seq<seq<Edge>>, p: seq<int>, x: real, v: int, w: real)
    requires IsWalk(adj, p, x) && HasEdge(adj, p[|p| - 1], v, w)
    ensures IsWalk(adj, p + [v], x + w)
  {
    var q := p + [v];
    assert q[..|q| - 1] == p;
    assert q[|q| - 2] == p[|p| - 1] && q[|q| - 1] == v;
    assert (x + w) - x == w;
    assert IsWalk(adj, q[..|q| - 1], x) && HasEdge(adj, q[|q| - 2], q[|q| - 1], (x + w) - x);
    assert IsWalk(adj, q, x + w);
  }

  /** A walk drops its last edge: the rest is a walk of smaller weight ending at the
      second-to-last node. */
  lemma WalkLastEdge(adj: seq<seq<Edge>>, p: seq<int>, x: real) returns (w: real)
    requires IsWalk(adj, p, x) && |p| >= 2
    ensures HasEdge(adj, p[|p| - 2], p[|p| - 1], w) && IsWalk(adj, p[..|p| - 1], x - w)
  {
    var y :| IsWalk(adj, p[..|p| - 1], y) && HasEdge(adj, p[|p| - 2], p[|p| - 1], x - y);
    w := x - y;
  }

  /** Two walks that meet join into one whose weight is the sum. */
  lemma {:induction false} WalkJoin(adj: seq<seq<Edge>>, a: seq<int>, x: real, b: seq<int>, y: real)
    requires IsWalk(adj, a, x) && IsWalk(adj, b, y) && a[|a| - 1] == b[0]
    ensures IsWalk(adj, a + b[1..], x + y)
    decreases |b|
  {
    if |b| == 1 {
      assert a + b[1..] == a;
    } else {
      var b' := b[..|b| - 1];
      var z := b[|b| - 1];
      var w := WalkLastEdge(adj, b, y);
      WalkJoin(adj, a, x, b', y - w);
      assert (a + b'[1..])[|a + b'[1..]| - 1] == b[|b| - 2];
      WalkExtend(adj, a + b'[1..], x + (y - w), z, w);
      assert a + b'[1..] + [z] == a + b[1..];
    }
  }
}
