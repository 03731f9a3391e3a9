/** The graph representation: per-node coordinates and names plus an outgoing-edge
    list per node, kept in three parallel sequences that grow together, and the
    per-record logic of the two CSV loaders (the byte-level stream parsing is not
    part of this model: a line arrives with its text and the record parsed from it). */
module GraphModel {

  datatype Option<+T> = None | Some(value: T)

  /** A directed edge: target node and weight. `Edge()` in the source is `Edge(-1, 0.0)`. */
  datatype Edge = Edge(to: int, w: real)


  function Max(a: int, b: int): int { if a >= b then a else b }

  /** Every edge points at a node of the graph. */
  ghost predicate EdgesInRange(adj: seq<seq<Edge>>) {
    forall u, i :: 0 <= u < |adj| && 0 <= i < |adj[u]| ==> 0 <= adj[u][i].to < |adj|
  }

  /** No edge has a negative weight. */
  ghost predicate NonNegativeWeights(adj: seq<seq<Edge>>) {
    forall u, i :: 0 <= u < |adj| && 0 <= i < |adj[u]| ==> adj[u][i].w >= 0.0
  }

  /** There is a directed edge u -> v of weight w. */
  ghost predicate HasEdge(adj: seq<seq<Edge>>, u: int, v: int, w: real) {
    0 <= u < |adj| && exists i :: 0 <= i < |adj[u]| && adj[u][i] == Edge(v, w)
  }

  /** Every edge u -> v of weight w has a twin v -> u of the same weight. */
  ghost predicate Symmetric(adj: seq<seq<Edge>>) {
    forall u, v, w :: HasEdge(adj, u, v, w) ==> HasEdge(adj, v, u, w)
  }

  // ---------------------------------------------------------------- trim

  predicate IsSpace(c: char) { c == ' ' || c == '\t' || c == '\r' || c == '\n' }

  ghost predicate AllSpace(s: string) { forall k :: 0 <= k < |s| ==> IsSpace(s[k]) }

  /** `find_first_not_of(" \t\r\n")` starting at `i`; `|s|` plays the part of `npos`. */
  function FirstNonSpace(s: string, i: nat): (r: nat)
    requires i <= |s|
    ensures i <= r <= |s|
    ensures forall k :: i <= k < r ==> IsSpace(s[k])
    ensures r < |s| ==> !IsSpace(s[r])
    decreases |s| - i
  {
    if i == |s| || !IsSpace(s[i]) then i else FirstNonSpace(s, i + 1)
  }

  /** One past `find_last_not_of(" \t\r\n")` among the first `j` characters (0 if none). */
  function EndNonSpace(s: string, j: nat): (r: nat)
    requires j <= |s|
    ensures r <= j
    ensures forall k :: r <= k < j ==> IsSpace(s[k])
    ensures r > 0 ==> !IsSpace(s[r - 1])
  {
    if j == 0 || !IsSpace(s[j - 1]) then j else EndNonSpace(s, j - 1)
  }

  /** `trim` (graph.cpp:6-11): drops leading and trailing blanks, tabs, CRs and LFs. */
  function Trim(s: string): (r: string)
    ensures r == [] <==> AllSpace(s)
    ensures r != [] ==> !IsSpace(r[0]) && !IsSpace(r[|r| - 1])
    ensures exists a, b :: 0 <= a <= b <= |s| && r == s[a..b] && AllSpace(s[..a]) && AllSpace(s[b..])
  {
    var a := FirstNonSpace(s, 0);
    if a == |s| then
      assert s[..0] == [] && s[|s|..] == [];
      []
    else
      var b := EndNonSpace(s, |s|);
      assert !IsSpace(s[a]);
      assert a < b;
      var r := s[a..b];
      assert r[0] == s[a] && r[|r| - 1] == s[b - 1];
      assert !AllSpace(s) by { assert !IsSpace(s[a]); }
      r
  }

  /** Trimming twice gives the same result as trimming once. */
  lemma TrimIdempotent(s: string)
    ensures Trim(Trim(s)) == Trim(s)
  {
    var r := Trim(s);
    if r != [] {
      assert FirstNonSpace(r, 0) == 0;
      assert EndNonSpace(r, |r|) == |r|;
      assert r[0..|r|] == r;
    }
  }

  // ---------------------------------------------------------------- header rule

  predicate IsNumericChar(c: char) { c == '-' || c == '.' || '0' <= c <= '9' }

  ghost predicate AllNumeric(f: string) { forall k :: 0 <= k < |f| ==> IsNumericChar(f[k]) }

  /** The first comma-separated field: `line.substr(0, line.find(','))`. */
  function FirstField(line: string): (f: string)
    ensures |f| <= |line| && f == line[..|f|]
    ensures forall k :: 0 <= k < |f| ==> f[k] != ','
    ensures |f| < |line| ==> line[|f|] == ','
  {
    if line == [] || line[0] == ',' then [] else [line[0]] + FirstField(line[1..])
  }

  /** A line is a header when its first field has a character other than '-', '.' or a digit. */
  ghost predicate IsHeader(line: string) { !AllNumeric(FirstField(line)) }

  /** The `for (char c : first)` scan of the header test. */
  method IsNumericField(f: string) returns (numeric: bool)
    ensures numeric <==> AllNumeric(f)
  {
    numeric := true;
    var k := 0;
    while k < |f|
      invariant 0 <= k <= |f|
      invariant numeric <==> forall j :: 0 <= j < k ==> IsNumericChar(f[j])
    {
      if !IsNumericChar(f[k]) {
        numeric := false;
        break;
      }
      k := k + 1;
    }
  }

  // ---------------------------------------------------------------- lines and records

  /** A node row after `ss >> id >> lat >> lon` and `getline(ss, rest)`. */
  datatype NodeRecord = NodeRecord(id: int, lat: real, lon: real, rest: string)

  /** An edge row after `stoi`, `stoi`, `stod` on its three fields. */
  datatype EdgeRecord = EdgeRecord(u: int, v: int, w: real)

  /** One line of a CSV file: its text and what the stream parse made of it
      (`None` when a field is missing or does not convert). */
  datatype Line<R> = Line(text: string, parsed: Option<R>)

  ghost predicate AllBlank<R>(lines: seq<Line<R>>) {
    forall i :: 0 <= i < |lines| ==> lines[i].text == []
  }

  /** The records a loader applies, in file order: empty lines are skipped, the first
      non-empty line is skipped when it is a header, and unparseable lines are skipped. */
  ghost function DataRecords<R>(lines: seq<Line<R>>): seq<R>
    decreases |lines|
  {
    if lines == [] then []
    else
      var prev := DataRecords(lines[..|lines| - 1]);
      var line := lines[|lines| - 1];
      if line.text == [] || (AllBlank(lines[..|lines| - 1]) && IsHeader(line.text)) || line.parsed.None? then prev
      else prev + [line.parsed.value]
  }

  /** The non-empty lines, in order. */
  ghost function NonBlank<R>(lines: seq<Line<R>>): seq<Line<R>>
    decreases |lines|
  {
    if lines == [] then []
    else NonBlank(lines[..|lines| - 1]) + (if lines[|lines| - 1].text == [] then [] else [lines[|lines| - 1]])
  }

  /** The parsed records of some lines, in order. */
  ghost function Parsed<R>(lines: seq<Line<R>>): seq<R>
    decreases |lines|
  {
    if lines == [] then []
    else
      var last := lines[|lines| - 1];
      Parsed(lines[..|lines| - 1]) + (if last.parsed.Some? then [last.parsed.value] else [])
  }

  lemma {:induction false} NonBlankEmpty<R>(lines: seq<Line<R>>)
    ensures NonBlank(lines) == [] <==> AllBlank(lines)
    decreases |lines|
  {
    if lines != [] {
      var pre := lines[..|lines| - 1];
      NonBlankEmpty(pre);
      if AllBlank(lines) {
        assert AllBlank(pre) by {
          forall i | 0 <= i < |pre| ensures pre[i].text == [] { assert pre[i] == lines[i]; }
        }
      }
      if AllBlank(pre) && lines[|lines| - 1].text == [] {
        forall i | 0 <= i < |lines| ensures lines[i].text == [] {
          if i < |pre| { assert pre[i] == lines[i]; }
        }
      }
    }
  }

  lemma {:induction false} ParsedAppend<R>(a: seq<Line<R>>, b: Line<R>)
    ensures Parsed(a + [b]) == Parsed(a) + (if b.parsed.Some? then [b.parsed.value] else [])
  {
    assert (a + [b])[..|a + [b]| - 1] == a;
  }

  /** One more line: how `DataRecords` and `AllBlank` extend. */
  lemma DataRecordsStep<R>(lines: seq<Line<R>>, i: nat)
    requires i < |lines|
    ensures AllBlank(lines[..i + 1]) == (AllBlank(lines[..i]) && lines[i].text == [])
    ensures var line := lines[i];
      DataRecords(lines[..i + 1]) ==
        if line.text == [] || (AllBlank(lines[..i]) && IsHeader(line.text)) || line.parsed.None?
        then DataRecords(lines[..i]) else DataRecords(lines[..i]) + [line.parsed.value]
  {
    var pre, cur := lines[..i], lines[..i + 1];
    assert cur[..|cur| - 1] == pre && cur[|cur| - 1] == lines[i];
    if AllBlank(cur) {
      forall k | 0 <= k < |pre| ensures pre[k].text == [] { assert pre[k] == cur[k]; }
    }
    if AllBlank(pre) && lines[i].text == [] {
      forall k | 0 <= k < |cur| ensures cur[k].text == [] { if k < i { assert cur[k] == pre[k]; } }
    }
  }

  /** The header rule: only the first non-empty line can be a header, and it is
      dropped exactly when its first field is not numeric; every other non-empty
      line contributes its parsed record, in order. */
  lemma {:induction false} HeaderOnlyFirst<R>(lines: seq<Line<R>>)
    ensures var ne := NonBlank(lines);
      DataRecords(lines) == Parsed(if ne != [] && IsHeader(ne[0].text) then ne[1..] else ne)
    decreases |lines|
  {
    if lines != [] {
      var pre := lines[..|lines| - 1];
      var last := lines[|lines| - 1];
      HeaderOnlyFirst(pre);
      NonBlankEmpty(pre);
      if last.text == [] {
        BlankLine(lines, pre, last);
      } else if AllBlank(pre) {
        HeaderFirstLine(lines, pre, last);
      } else {
        HeaderLaterLine(lines, pre, last, NonBlank(pre));
      }
    }
  }

  lemma BlankLine<R>(lines: seq<Line<R>>, pre: seq<Line<R>>, last: Line<R>)
    requires lines != [] && pre == lines[..|lines| - 1] && last == lines[|lines| - 1] && last.text == []
    ensures NonBlank(lines) == NonBlank(pre) && DataRecords(lines) == DataRecords(pre)
  {
    assert NonBlank(lines) == NonBlank(pre) + [];
  }

  lemma HeaderFirstLine<R>(lines: seq<Line<R>>, pre: seq<Line<R>>, last: Line<R>)
    requires lines != [] && pre == lines[..|lines| - 1] && last == lines[|lines| - 1]
    requires last.text != [] && AllBlank(pre) && NonBlank(pre) == [] && DataRecords(pre) == []
    ensures DataRecords(lines) == Parsed(if IsHeader(last.text) then [] else [last])
    ensures NonBlank(lines) == [last]
  {
    assert NonBlank(lines) == [] + [last];
    ParsedAppend([], last);
    assert [] + [last] == [last];
  }

  lemma DataRecordsLater<R>(lines: seq<Line<R>>, pre: seq<Line<R>>, last: Line<R>)
    requires lines != [] && pre == lines[..|lines| - 1] && last == lines[|lines| - 1]
    requires last.text != [] && !AllBlank(pre)
    ensures NonBlank(lines) == NonBlank(pre) + [last]
    ensures DataRecords(lines) == DataRecords(pre) + (if last.parsed.Some? then [last.parsed.value] else [])
  {
  }

  lemma HeaderLaterLine<R>(lines: seq<Line<R>>, pre: seq<Line<R>>, last: Line<R>, nep: seq<Line<R>>)
    requires lines != [] && pre == lines[..|lines| - 1] && last == lines[|lines| - 1]
    requires last.text != [] && !AllBlank(pre) && nep == NonBlank(pre) && nep != []
    requires DataRecords(pre) == Parsed(if IsHeader(nep[0].text) then nep[1..] else nep)
    ensures var ne := NonBlank(lines);
      ne != [] && DataRecords(lines) == Parsed(if IsHeader(ne[0].text) then ne[1..] else ne)
  {
    DataRecordsLater(lines, pre, last);
    var ne := NonBlank(lines);
    var kept := if IsHeader(nep[0].text) then nep[1..] else nep;
    HeaderKept(ne, nep, last);
    ParsedAppend(kept, last);
  }

  lemma HeaderKept<R>(ne: seq<Line<R>>, nep: seq<Line<R>>, last: Line<R>)
    requires ne == nep + [last] && nep != []
    ensures ne[0] == nep[0]
    ensures (if IsHeader(ne[0].text) then ne[1..] else ne) == (if IsHeader(nep[0].text) then nep[1..] else nep) + [last]
  {
    if IsHeader(nep[0].text) {
      assert ne[1..] == nep[1..] + [last];
    }
  }

  // ---------------------------------------------------------------- the three parallel tables

  /** `resize(n, fill)` when growing; never shrinks. */
  function Grown<T>(s: seq<T>, n: int, fill: T): (r: seq<T>)
    ensures |r| == Max(|s|, n)
    ensures r[..|s|] == s
    ensures forall i :: |s| <= i < |r| ==> r[i] == fill
  {
    if |s| >= n then s else s + seq(n - |s|, _ => fill)
  }

  /** The value of a graph: its coordinate, name and adjacency tables. */
  datatype Tables = Tables(coords: seq<(real, real)>, names: seq<string>, adj: seq<seq<Edge>>) {

    ghost predicate Aligned() { |coords| == |names| == |adj| }

    /** `ensure_size(n)`: all three tables grow to at least `n`, existing slots unchanged,
        new slots `(0.0, 0.0)`, `""` and `[]`. */
    function Grow(n: int): (r: Tables)
      ensures Aligned() ==> r.Aligned()
      ensures |r.coords| == Max(|coords|, n) && |r.names| == Max(|names|, n) && |r.adj| == Max(|adj|, n)
      ensures r.coords[..|coords|] == coords && r.names[..|names|] == names && r.adj[..|adj|] == adj
      ensures forall i :: |coords| <= i < |r.coords| ==> r.coords[i] == (0.0, 0.0)
      ensures forall i :: |names| <= i < |r.names| ==> r.names[i] == ""
      ensures forall i :: |adj| <= i < |r.adj| ==> r.adj[i] == []
    {
      Tables(Grown(coords, n, (0.0, 0.0)), Grown(names, n, ""), Grown(adj, n, []))
    }

    /** One edge row of `load_edges_csv` (graph.cpp:90-94). */
    function AddEdge(r: EdgeRecord, undirected: bool): (res: Tables)
      ensures Aligned() ==> res.Aligned()
      ensures r.u < 0 || r.v < 0 ==> res == this
      ensures r.u >= 0 && r.v >= 0 ==>
        && |res.adj| == Max(|adj|, Max(r.u, r.v) + 1)
        && res.coords == Grown(coords, Max(r.u, r.v) + 1, (0.0, 0.0))
        && res.names == Grown(names, Max(r.u, r.v) + 1, "")
        && forall x :: 0 <= x < |res.adj| ==>
             res.adj[x] == (if x < |adj| then adj[x] else [])
                           + (if x == r.u then [Edge(r.v, r.w)] else [])
                           + (if undirected && x == r.v then [Edge(r.u, r.w)] else [])
    {
      if r.u < 0 || r.v < 0 then this
      else
        var g := Grow(Max(r.u, r.v) + 1);
        var a := g.adj[r.u := g.adj[r.u] + [Edge(r.v, r.w)]];
        var a' := if undirected then a[r.v := a[r.v] + [Edge(r.u, r.w)]] else a;
        Tables(g.coords, g.names, a')
    }

    /** One node row of `load_nodes_csv` with the negative-id guard (see ## Findings);
        returns the new tables and the new `max_id`. */
    function SetNode(maxId: int, r: NodeRecord): (res: (Tables, int))
      ensures Aligned() ==> res.0.Aligned()
      ensures r.id < 0 ==> res == (this, maxId)
      ensures r.id >= 0 ==>
        && res.1 == Max(maxId, r.id)
        && |res.0.coords| == Max(|coords|, res.1 + 1)
        && res.0.coords == Grown(coords, res.1 + 1, (0.0, 0.0))[r.id := (r.lat, r.lon)]
        && res.0.names == Grown(names, res.1 + 1, "")[r.id := Trim(r.rest)]
        && res.0.adj == Grown(adj, res.1 + 1, [])
    {
      if r.id < 0 then (this, maxId)
      else
        var m := if r.id > maxId then r.id else maxId;
        var g := Grow(m + 1);
        (Tables(g.coords[r.id := (r.lat, r.lon)], g.names[r.id := Trim(r.rest)], g.adj), m)
    }

    /** The node row exactly as `load_nodes_csv` writes it: `None` stands for the
        out-of-bounds write `coords[id] = ...` that a negative id performs. */
    function SetNodeAsWritten(maxId: int, r: NodeRecord): (res: Option<(Tables, int)>)
      ensures res.Some? ==> 0 <= r.id
    {
      var m := if r.id > maxId then r.id else maxId;
      var g := Grow(m + 1);
      if 0 <= r.id < |g.coords| && r.id < |g.names| then
        Some((Tables(g.coords[r.id := (r.lat, r.lon)], g.names[r.id := Trim(r.rest)], g.adj), m))
      else None
    }
  }

  /** Applying edge rows one after another. */
  ghost function AddEdges(t: Tables, rs: seq<EdgeRecord>, undirected: bool): Tables
    decreases |rs|
  {
    if rs == [] then t else AddEdges(t, rs[..|rs| - 1], undirected).AddEdge(rs[|rs| - 1], undirected)
  }

  /** Applying node rows one after another, threading `max_id`. */
  ghost function SetNodes(t: Tables, maxId: int, rs: seq<NodeRecord>): (Tables, int)
    decreases |rs|
  {
    if rs == [] then (t, maxId)
    else
      var p := SetNodes(t, maxId, rs[..|rs| - 1]);
      p.0.SetNode(p.1, rs[|rs| - 1])
  }

  // ---------------------------------------------------------------- properties of the tables

  /** The negative-id write of `load_nodes_csv` as written: a row `-3,1.0,2.0,x`
      on an empty graph indexes the coordinate table at -3. */
  lemma NegativeIdWritesOutOfBounds()
    ensures Tables([], [], []).SetNodeAsWritten(-1, NodeRecord(-3, 1.0, 2.0, "x")).None?
  {
  }

  /** For every non-negative id the guarded row agrees with the code as written. */
  lemma SetNodeAgreesOnValidIds(t: Tables, maxId: int, r: NodeRecord)
    requires t.Aligned() && r.id >= 0
    ensures t.SetNodeAsWritten(maxId, r) == Some(t.SetNode(maxId, r))
  {
  }

  lemma HasEdgeGrows(adj: seq<seq<Edge>>, adj': seq<seq<Edge>>, u: int, v: int, w: real)
    requires HasEdge(adj, u, v, w)
    requires |adj'| >= |adj| && forall x :: 0 <= x < |adj| ==> adj[x] <= adj'[x]
    ensures HasEdge(adj', u, v, w)
  {
    var i :| 0 <= i < |adj[u]| && adj[u][i] == Edge(v, w);
    assert adj'[u][i] == adj[u][i];
  }

  /** An edge row keeps every edge pointing into the graph. */
  lemma AddEdgeInRange(t: Tables, r: EdgeRecord, undirected: bool)
    requires EdgesInRange(t.adj)
    ensures EdgesInRange(t.AddEdge(r, undirected).adj)
  {
    var res := t.AddEdge(r, undirected);
    if r.u >= 0 && r.v >= 0 {
      forall x, i | 0 <= x < |res.adj| && 0 <= i < |res.adj[x]| ensures 0 <= res.adj[x][i].to < |res.adj| {
        var old_ := if x < |t.adj| then t.adj[x] else [];
        if i < |old_| {
          assert res.adj[x][i] == t.adj[x][i];
        }
      }
    }
  }

  /** An undirected edge row keeps the adjacency symmetric: the route becomes two
      directed edges of the same weight. */
  lemma AddEdgeSymmetric(t: Tables, r: EdgeRecord)
    requires Symmetric(t.adj)
    ensures Symmetric(t.AddEdge(r, true).adj)
  {
    var res := t.AddEdge(r, true);
    if r.u >= 0 && r.v >= 0 {
      var a, a' := t.adj, res.adj;
      assert |a'| >= |a| && forall x :: 0 <= x < |a| ==> a[x] <= a'[x] by {
        forall x | 0 <= x < |a| ensures a[x] <= a'[x] {
          assert a'[x] == a[x] + (if x == r.u then [Edge(r.v, r.w)] else []) + (if x == r.v then [Edge(r.u, r.w)] else []);
        }
      }
      assert HasEdge(a', r.u, r.v, r.w) by {
        assert a'[r.u][|a'[r.u]| - (if r.u == r.v then 2 else 1)] == Edge(r.v, r.w);
      }
      assert HasEdge(a', r.v, r.u, r.w) by {
        assert a'[r.v][|a'[r.v]| - 1] == Edge(r.u, r.w);
      }
      forall x, y, w | HasEdge(a', x, y, w) ensures HasEdge(a', y, x, w) {
        var i :| 0 <= i < |a'[x]| && a'[x][i] == Edge(y, w);
        var base := if x < |a| then a[x] else [];
        assert a'[x] == base + (if x == r.u then [Edge(r.v, r.w)] else []) + (if x == r.v then [Edge(r.u, r.w)] else []);
        if i < |base| {
          assert a'[x][i] == a[x][i];
          assert HasEdge(a, x, y, w);
          HasEdgeGrows(a, a', y, x, w);
        } else if x == r.u && i == |base| {
          assert a'[x][i] == Edge(r.v, r.w);
        } else {
          assert a'[x][i] == Edge(r.u, r.w);
        }
      }
    }
  }

  /** Loading undirected edge rows into a symmetric graph yields a symmetric graph. */
  lemma {:induction false} AddEdgesSymmetric(t: Tables, rs: seq<EdgeRecord>)
    requires Symmetric(t.adj)
    ensures Symmetric(AddEdges(t, rs, true).adj)
    decreases |rs|
  {
    if rs != [] {
      AddEdgesSymmetric(t, rs[..|rs| - 1]);
      AddEdgeSymmetric(AddEdges(t, rs[..|rs| - 1], true), rs[|rs| - 1]);
    }
  }

  /** Every adjacency list is empty. */
  ghost predicate NoEdges(adj: seq<seq<Edge>>) {
    forall u :: 0 <= u < |adj| ==> adj[u] == []
  }

  /** An edgeless graph is symmetric. */
  lemma NoEdgesSymmetric(adj: seq<seq<Edge>>)
    requires NoEdges(adj)
    ensures Symmetric(adj)
  {
  }

  /** Node rows never add an edge: an edgeless graph stays edgeless. */
  lemma {:induction false} SetNodesNoEdges(t: Tables, maxId: int, rs: seq<NodeRecord>)
    requires NoEdges(t.adj)
    ensures NoEdges(SetNodes(t, maxId, rs).0.adj)
    decreases |rs|
  {
    if rs != [] {
      var p := SetNodes(t, maxId, rs[..|rs| - 1]);
      SetNodesNoEdges(t, maxId, rs[..|rs| - 1]);
      var a, a' := p.0.adj, p.0.SetNode(p.1, rs[|rs| - 1]).0.adj;
      forall u | 0 <= u < |a'| ensures a'[u] == [] {
        if u < |a| {
          assert a'[..|a|][u] == a[u];
        }
      }
    }
  }

  /** A new `Graph` loaded with a node file and then an edge file with the default
      `undirected = true` is symmetric: the node rows leave it edgeless, and the
      edge rows keep it symmetric. */
  lemma LoadedGraphSymmetric(nodes: seq<NodeRecord>, edges: seq<EdgeRecord>)
    ensures Symmetric(AddEdges(SetNodes(Tables([], [], []), -1, nodes).0, edges, true).adj)
  {
    var t := SetNodes(Tables([], [], []), -1, nodes).0;
    SetNodesNoEdges(Tables([], [], []), -1, nodes);
    NoEdgesSymmetric(t.adj);
    AddEdgesSymmetric(t, edges);
  }

  /** Loading edge rows keeps every edge pointing into the graph, and never shrinks it. */
  lemma {:induction false} AddEdgesInRange(t: Tables, rs: seq<EdgeRecord>, undirected: bool)
    requires EdgesInRange(t.adj)
    ensures EdgesInRange(AddEdges(t, rs, undirected).adj)
    ensures |AddEdges(t, rs, undirected).adj| >= |t.adj|
    decreases |rs|
  {
    if rs != [] {
      AddEdgesInRange(t, rs[..|rs| - 1], undirected);
      AddEdgeInRange(AddEdges(t, rs[..|rs| - 1], undirected), rs[|rs| - 1], undirected);
    }
  }

  /** A node row for id k leaves at least k + 1 nodes, and the last row for an id
      decides its coordinates and name. */
  lemma {:induction false} LastNodeRowWins(t: Tables, maxId: int, rs: seq<NodeRecord>, j: nat)
    requires t.Aligned() && maxId < |t.coords|
    requires j < |rs| && rs[j].id >= 0
    requires forall k :: j < k < |rs| ==> rs[k].id != rs[j].id
    ensures var res := SetNodes(t, maxId, rs).0;
      && res.Aligned()
      && rs[j].id < |res.coords|
      && res.coords[rs[j].id] == (rs[j].lat, rs[j].lon)
      && res.names[rs[j].id] == Trim(rs[j].rest)
    decreases |rs|
  {
    SetNodesAligned(t, maxId, rs[..|rs| - 1]);
    if j < |rs| - 1 {
      LastNodeRowWins(t, maxId, rs[..|rs| - 1], j);
    }
  }

  /** Node rows keep the tables aligned and the running `max_id` inside them. */
  lemma {:induction false} SetNodesAligned(t: Tables, maxId: int, rs: seq<NodeRecord>)
    requires t.Aligned() && maxId < |t.coords|
    ensures var res := SetNodes(t, maxId, rs);
      res.0.Aligned() && res.1 < |res.0.coords| && |res.0.coords| >= |t.coords|
    decreases |rs|
  {
    if rs != [] {
      SetNodesAligned(t, maxId, rs[..|rs| - 1]);
    }
  }

  // ---------------------------------------------------------------- the graph object

  /** `Graph` (graph.h): three private parallel vectors; only the loaders change them. */
  class Graph {
    var coords: seq<(real, real)>
    var names: seq<string>
    var adj: seq<seq<Edge>>

    ghost predicate Valid()
      reads this
    {
      |coords| == |names| == |adj| && EdgesInRange(adj)
    }

    ghost function Value(): Tables
      reads this
    {
      Tables(coords, names, adj)
    }

    constructor ()
      ensures Valid() && coords == [] && names == [] && adj == []
    {
      coords, names, adj := [], [], [];
    }

    /** `num_nodes()`: the length of the coordinate vector, which is also the
        number of adjacency lists. */
    function NumNodes(): (n: int)
      reads this
      ensures n >= 0 && n == |coords|
      ensures Valid() ==> n == |adj| && n == |names|
    {
      |coords|
    }

    function Coords(): seq<(real, real)> reads this { coords }
    function Names(): seq<string> reads this { names }
    function Adjacency(): seq<seq<Edge>> reads this { adj }

    /** `ensure_size(n)` (graph.cpp:13-19). */
    method EnsureSize(n: int) returns (ok: bool)
      requires Valid()
      modifies this
      ensures Valid() && ok
      ensures Value() == old(Value()).Grow(n)
    {
      ok := true;
      if |coords| >= n { return; }
      coords := coords + seq(n - |coords|, _ => (0.0, 0.0));
      names := names + seq(n - |names|, _ => "");
      adj := adj + seq(n - |adj|, _ => []);
    }

    /** One node row of `load_nodes_csv` (graph.cpp:47-50), skipping a negative id. */
    method SetNodeRow(r: NodeRecord, maxId: int) returns (newMax: int)
      requires Valid() && maxId < |coords|
      modifies this
      ensures Valid() && newMax < |coords|
      ensures (Value(), newMax) == old(Value()).SetNode(maxId, r)
    {
      newMax := maxId;
      if r.id < 0 { return; }
      if r.id > newMax { newMax := r.id; }
      var _ := EnsureSize(newMax + 1);
      coords := coords[r.id := (r.lat, r.lon)];
      names := names[r.id := Trim(r.rest)];
    }

    /** One edge row of `load_edges_csv` (graph.cpp:90-94). */
    method AddEdgeRow(r: EdgeRecord, undirected: bool)
      requires Valid()
      modifies this
      ensures Valid()
      ensures Value() == old(Value()).AddEdge(r, undirected)
    {
      if r.u < 0 || r.v < 0 { return; }
      AddEdgeInRange(Value(), r, undirected);
      var _ := EnsureSize(Max(r.u, r.v) + 1);
      adj := adj[r.u := adj[r.u] + [Edge(r.v, r.w)]];
      if undirected {
        adj := adj[r.v := adj[r.v] + [Edge(r.u, r.w)]];
      }
    }

    /** `load_nodes_csv` (graph.cpp:21-54) over the lines of the file, `isOpen` telling
        whether it could be opened. */
    method LoadNodes(isOpen: bool, lines: seq<Line<NodeRecord>>) returns (ok: bool)
      requires Valid()
      modifies this
      ensures Valid() && ok == isOpen
      ensures !isOpen ==> Value() == old(Value())
      ensures isOpen ==> Value() == SetNodes(old(Value()), -1, DataRecords(lines)).0
    {
      if !isOpen { return false; }
      var headerChecked := false;
      var maxId := -1;
      var i := 0;
      while i < |lines|
        invariant 0 <= i <= |lines|
        invariant Valid() && maxId < |coords|
        invariant headerChecked == !AllBlank(lines[..i])
        invariant (Value(), maxId) == SetNodes(old(Value()), -1, DataRecords(lines[..i]))
      {
        var line := lines[i];
        DataRecordsStep(lines, i);
        i := i + 1;
        if line.text == [] { continue; }
        if !headerChecked {
          var numeric := IsNumericField(FirstField(line.text));
          headerChecked := true;
          if !numeric { continue; }
        }
        if line.parsed.None? { continue; }
        var rs := DataRecords(lines[..i]);
        assert rs[..|rs| - 1] == DataRecords(lines[..i - 1]) && rs[|rs| - 1] == line.parsed.value;
        maxId := SetNodeRow(line.parsed.value, maxId);
      }
      assert lines[..|lines|] == lines;
      if maxId >= 0 {
        var _ := EnsureSize(maxId + 1);
      }
      ok := true;
    }

    /** `load_edges_csv` (graph.cpp:56-97), `undirected` defaulting to true as in graph.h:18. */
    method LoadEdges(isOpen: bool, lines: seq<Line<EdgeRecord>>, undirected: bool := true) returns (ok: bool)
      requires Valid()
      modifies this
      ensures Valid() && ok == isOpen
      ensures !isOpen ==> Value() == old(Value())
      ensures isOpen ==> Value() == AddEdges(old(Value()), DataRecords(lines), undirected)
    {
      if !isOpen { return false; }
      var headerChecked := false;
      var i := 0;
      while i < |lines|
        invariant 0 <= i <= |lines|
        invariant Valid()
        invariant headerChecked == !AllBlank(lines[..i])
        invariant Value() == AddEdges(old(Value()), DataRecords(lines[..i]), undirected)
      {
        var line := lines[i];
        DataRecordsStep(lines, i);
        i := i + 1;
        if line.text == [] { continue; }
        if !headerChecked {
          var numeric := IsNumericField(FirstField(line.text));
          headerChecked := true;
          if !numeric { continue; }
        }
        if line.parsed.None? { continue; }
        var rs := DataRecords(lines[..i]);
        assert rs[..|rs| - 1] == DataRecords(lines[..i - 1]) && rs[|rs| - 1] == line.parsed.value;
        AddEdgeRow(line.parsed.value, undirected);
      }
      assert lines[..|lines|] == lines;
      ok := true;
    }
  }
}
