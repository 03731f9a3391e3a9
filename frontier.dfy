/** The search frontiers: `std::priority_queue` modelled as a sequence of entries
    from which a minimum is selected and removed. */
module Frontier {

  /** A frontier entry: priority key and node. */
  datatype Entry = Entry(key: real, node: int)

  /** The pair order of `std::pair<double,int>`: key first, then node. */
  predicate LexLe(a: Entry, b: Entry) {
    a.key < b.key || (a.key == b.key && a.node <= b.node)
  }

  /** Position `i` holds an entry of least key. */
  predicate IsKeyMin(q: seq<Entry>, i: int) {
    0 <= i < |q| && forall j :: 0 <= j < |q| ==> q[i].key <= q[j].key
  }

  /** Removal of the entry at position `i` (the `pop()` after `top()`). */
  function RemoveAt(q: seq<Entry>, i: nat): (r: seq<Entry>)
    requires i < |q|
    ensures |r| == |q| - 1
    ensures multiset(r) == multiset(q) - multiset{q[i]}
    ensures forall e :: e in r ==> e in q
    ensures forall e :: e in q && e != q[i] ==> e in r
    ensures forall j :: 0 <= j < |r| ==> r[j] == q[if j < i then j else j + 1]
  {
    assert q == q[..i] + [q[i]] + q[i + 1..];
    var r := q[..i] + q[i + 1..];
    assert forall e :: e in q && e != q[i] ==> e in r by {
      forall e | e in q && e != q[i] ensures e in r {
        assert e in multiset(q);
      }
    }
    r
  }

  /** `top()` of the Dijkstra heap (`std::greater<std::pair<double,int>>`): the
      position of the least entry in pair order. */
  method LexMinIndex(q: seq<Entry>) returns (i: nat)
    requires |q| > 0
    ensures i < |q|
    ensures forall j :: 0 <= j < |q| ==> LexLe(q[i], q[j])
  {
    i := 0;
    var k := 1;
    while k < |q|
      invariant 0 <= i < k <= |q|
      invariant forall j :: 0 <= j < k ==> LexLe(q[i], q[j])
    {
      if !LexLe(q[i], q[k]) {
        i := k;
      }
      k := k + 1;
    }
  }

  /** Every non-empty frontier has an entry of least key (the heaps of A* compare keys only). */
  lemma {:induction false} KeyMinExists(q: seq<Entry>)
    requires |q| > 0
    ensures exists i :: IsKeyMin(q, i)
    decreases |q|
  {
    if |q| > 1 {
      KeyMinExists(q[1..]);
      var i :| IsKeyMin(q[1..], i);
      if q[0].key <= q[1..][i].key {
        assert IsKeyMin(q, 0);
      } else {
        assert IsKeyMin(q, i + 1);
      }
    } else {
      assert IsKeyMin(q, 0);
    }
  }
}
