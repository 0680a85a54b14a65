/**
 `Orchestrator.function_iter`: the call graph over quoted function names,
 the part of it reachable from `"main_0"`, the order in which networkx
 hands the reachable functions back, and the records yielded for them.

 networkx chooses the concrete order; the model takes it as a parameter
 and states what the library guarantees about it: a reversed topological
 order when the reachable subgraph is acyclic, otherwise a depth-first
 post-order from `"main_0"`.
 */
module CallGraph {
  import opened Outcomes
  import opened Records

  datatype Graph = Graph(nodes: set<string>, edges: set<(string, string)>)

  /** Every edge joins two nodes of the graph. */
  predicate WellFormed(g: Graph) {
    forall e :: e in g.edges ==> e.0 in g.nodes && e.1 in g.nodes
  }

  /** `'"{}"'.format(name)`: graph nodes are names wrapped in double quotes. */
  function Quote(n: string): string {
    "\"" + n + "\""
  }

  const MainNode: string := Quote("main_0")

  lemma QuoteInjective(a: string, b: string)
    requires Quote(a) == Quote(b)
    ensures a == b
  {
    assert a == Quote(a)[1..|Quote(a)| - 1];
    assert b == Quote(b)[1..|Quote(b)| - 1];
  }

  // ---------------------------------------------------------------------
  // Building the graph

  /** The nodes one record adds: none when it has no `calledFunctions`. */
  function RecordNodes(r: FuncRecord): set<string> {
    match r.calledFunctions
    case None => {}
    case Some(cs) => {Quote(r.name)} + (set c | c in cs :: Quote(c))
  }

  /** The edges one record adds, from it to each of its callees. */
  function RecordEdges(r: FuncRecord): set<(string, string)> {
    match r.calledFunctions
    case None => {}
    case Some(cs) => set c | c in cs :: (Quote(r.name), Quote(c))
  }

  lemma RecordWellFormed(r: FuncRecord)
    ensures forall e :: e in RecordEdges(r) ==> e.0 in RecordNodes(r) && e.1 in RecordNodes(r)
  {
  }

  /** The union of a list of sets. */
  function UnionOf<T>(parts: seq<set<T>>): set<T>
    decreases |parts|
  {
    if |parts| == 0 then {} else UnionOf(parts[..|parts| - 1]) + parts[|parts| - 1]
  }

  /** The union holds each part and nothing else. */
  lemma {:induction false} UnionOfMembers<T>(parts: seq<set<T>>)
    ensures forall k :: 0 <= k < |parts| ==> parts[k] <= UnionOf(parts)
    ensures forall x :: x in UnionOf(parts) ==> exists k :: 0 <= k < |parts| && x in parts[k]
    decreases |parts|
  {
    if |parts| > 0 {
      var init := parts[..|parts| - 1];
      UnionOfMembers(init);
      forall k | 0 <= k < |init|
        ensures parts[k] == init[k]
      {
      }
    }
  }

  /** The sets of nodes the records contribute, record by record. */
  function NodeParts(recs: seq<FuncRecord>): (p: seq<set<string>>)
    ensures |p| == |recs| && forall k :: 0 <= k < |recs| ==> p[k] == RecordNodes(recs[k])
  {
    seq(|recs|, k requires 0 <= k < |recs| => RecordNodes(recs[k]))
  }

  /** The sets of edges the records contribute, record by record. */
  function EdgeParts(recs: seq<FuncRecord>): (p: seq<set<(string, string)>>)
    ensures |p| == |recs| && forall k :: 0 <= k < |recs| ==> p[k] == RecordEdges(recs[k])
  {
    seq(|recs|, k requires 0 <= k < |recs| => RecordEdges(recs[k]))
  }

  /**
   The graph `function_iter` builds from the analysis records: every
   record adds its nodes and edges.
   */
  function BuildGraph(recs: seq<FuncRecord>): (g: Graph)
    ensures WellFormed(g)
  {
    PartsWellFormed(recs);
    Graph(UnionOf(NodeParts(recs)), UnionOf(EdgeParts(recs)))
  }

  /** Nodes and edges of the graph are exactly those some record contributes. */
  lemma BuildGraphMembers(recs: seq<FuncRecord>)
    ensures forall k :: 0 <= k < |recs| ==> RecordNodes(recs[k]) <= BuildGraph(recs).nodes
    ensures forall k :: 0 <= k < |recs| ==> RecordEdges(recs[k]) <= BuildGraph(recs).edges
    ensures forall n :: n in BuildGraph(recs).nodes ==> exists k :: 0 <= k < |recs| && n in RecordNodes(recs[k])
    ensures forall e :: e in BuildGraph(recs).edges ==> exists k :: 0 <= k < |recs| && e in RecordEdges(recs[k])
  {
    var np, ep := NodeParts(recs), EdgeParts(recs);
    UnionOfMembers(np);
    UnionOfMembers(ep);
    forall n | n in BuildGraph(recs).nodes
      ensures exists k :: 0 <= k < |recs| && n in RecordNodes(recs[k])
    {
      var k :| 0 <= k < |np| && n in np[k];
    }
    forall e | e in BuildGraph(recs).edges
      ensures exists k :: 0 <= k < |recs| && e in RecordEdges(recs[k])
    {
      var k :| 0 <= k < |ep| && e in ep[k];
    }
  }

  /** Every edge some record contributes joins two nodes some record contributes. */
  lemma PartsWellFormed(recs: seq<FuncRecord>)
    ensures WellFormed(Graph(UnionOf(NodeParts(recs)), UnionOf(EdgeParts(recs))))
  {
    var np, ep := NodeParts(recs), EdgeParts(recs);
    UnionOfMembers(np);
    UnionOfMembers(ep);
    forall e: (string, string) | e in UnionOf(ep)
      ensures e.0 in UnionOf(np) && e.1 in UnionOf(np)
    {
      var k :| 0 <= k < |ep| && e in ep[k];
      RecordWellFormed(recs[k]);
      assert np[k] <= UnionOf(np);
    }
  }

  /** A function whose records all lack `calledFunctions` has no edge out of its node. */
  lemma NoCalleesNoOutEdges(recs: seq<FuncRecord>, n: string)
    requires forall k :: 0 <= k < |recs| && recs[k].name == n ==> recs[k].calledFunctions.None?
    ensures forall e :: e in BuildGraph(recs).edges ==> e.0 != Quote(n)
  {
    BuildGraphMembers(recs);
    forall e | e in BuildGraph(recs).edges
      ensures e.0 != Quote(n)
    {
      var k :| 0 <= k < |recs| && e in RecordEdges(recs[k]);
      var r := recs[k];
      assert r.calledFunctions.Some?;
      assert e.0 == Quote(r.name);
      if e.0 == Quote(n) {
        QuoteInjective(r.name, n);
        assert false;
      }
    }
  }

  // ---------------------------------------------------------------------
  // Reachability

  /** The targets of the edges leaving `s`. */
  function Succ(g: Graph, s: set<string>): set<string> {
    set e | e in g.edges && e.0 in s :: e.1
  }

  /** No edge leaves `s`. */
  predicate Closed(g: Graph, s: set<string>) {
    forall e :: e in g.edges && e.0 in s ==> e.1 in s
  }

  lemma StrictSubsetSmaller(a: set<string>, b: set<string>)
    requires a < b
    ensures |a| < |b|
  {
    var x :| x in b && x !in a;
    assert b == a + (b - a);
    assert a * (b - a) == {};
    assert x in b - a;
  }

  /** `s` together with every node reachable from it. */
  function Closure(g: Graph, s: set<string>): (r: set<string>)
    requires WellFormed(g) && s <= g.nodes
    ensures s <= r <= g.nodes
    ensures Closed(g, r)
    decreases |g.nodes - s|
  {
    var next := s + Succ(g, s);
    if next <= s then s
    else
      StrictSubsetSmaller(g.nodes - next, g.nodes - s);
      Closure(g, next)
  }

  /** The closure is the least closed set containing `s`. */
  lemma {:induction false} ClosureLeast(g: Graph, s: set<string>, t: set<string>)
    requires WellFormed(g) && s <= g.nodes
    requires s <= t && Closed(g, t)
    ensures Closure(g, s) <= t
    decreases |g.nodes - s|
  {
    var next := s + Succ(g, s);
    if !(next <= s) {
      StrictSubsetSmaller(g.nodes - next, g.nodes - s);
      ClosureLeast(g, next, t);
    }
  }

  /** A non-empty walk along edges. */
  predicate IsPath(g: Graph, p: seq<string>) {
    |p| > 0 && forall i :: 0 <= i < |p| - 1 ==> (p[i], p[i + 1]) in g.edges
  }

  /** Every node of the closure is the end of a walk from `s` that stays in the closure. */
  lemma {:induction false} ClosureSound(g: Graph, s: set<string>, v: string) returns (p: seq<string>)
    requires WellFormed(g) && s <= g.nodes
    requires v in Closure(g, s)
    ensures IsPath(g, p) && p[0] in s && p[|p| - 1] == v
    ensures forall i :: 0 <= i < |p| ==> p[i] in Closure(g, s)
    decreases |g.nodes - s|
  {
    var next := s + Succ(g, s);
    if next <= s {
      p := [v];
    } else {
      StrictSubsetSmaller(g.nodes - next, g.nodes - s);
      assert Closure(g, s) == Closure(g, next);
      var q := ClosureSound(g, next, v);
      if q[0] in s {
        p := q;
      } else {
        var e :| e in g.edges && e.0 in s && e.1 == q[0];
        p := [e.0] + q;
        assert forall i :: 1 <= i < |p| ==> p[i] == q[i - 1];
      }
    }
  }

  /** A walk that starts inside a closed set never leaves it. */
  lemma {:induction false} PathStaysClosed(g: Graph, t: set<string>, p: seq<string>, i: nat)
    requires IsPath(g, p) && Closed(g, t) && p[0] in t
    requires i < |p|
    ensures p[i] in t
  {
    if i > 0 {
      PathStaysClosed(g, t, p, i - 1);
      assert (p[i - 1], p[i]) in g.edges;
    }
  }

  /** The subgraph induced by `r`. */
  function Induced(g: Graph, r: set<string>): (h: Graph)
    requires r <= g.nodes
    ensures WellFormed(h)
  {
    Graph(r, set e | e in g.edges && e.0 in r && e.1 in r)
  }

  /**
   `nx.descendants(G, '"main_0"') | {'"main_0"'}`; networkx raises
   `NetworkXError` when the graph has no `"main_0"` node.
   */
  function ReachableFromMain(g: Graph): (r: Result<set<string>>)
    requires WellFormed(g)
    ensures MainNode !in g.nodes <==> r.Err?
    ensures r.Err? ==> r.exc.NetworkXError?
    ensures r.Ok? ==> MainNode in r.value && r.value <= g.nodes && Closed(g, r.value)
  {
    if MainNode !in g.nodes then Err(NetworkXError("The node \"main_0\" is not in the digraph."))
    else Ok(Closure(g, {MainNode}))
  }

  /** `b` is `a` or lies on a walk from `a`. */
  predicate Reaches(g: Graph, a: string, b: string)
    requires WellFormed(g)
  {
    a in g.nodes && b in Closure(g, {a})
  }

  /** The reachable set is exactly what walks from `"main_0"` can reach. */
  lemma ReachableIsWalks(g: Graph, v: string)
    requires WellFormed(g) && MainNode in g.nodes
    ensures v in ReachableFromMain(g).value <==> exists p :: IsPath(g, p) && p[0] == MainNode && p[|p| - 1] == v
  {
    var r := ReachableFromMain(g).value;
    if v in r {
      var p := ClosureSound(g, {MainNode}, v);
    }
    if p :| IsPath(g, p) && p[0] == MainNode && p[|p| - 1] == v {
      PathStaysClosed(g, r, p, |p| - 1);
    }
  }

  /** Every node of the reachable subgraph is joined to `"main_0"` inside it. */
  ghost predicate JoinedToMain(h: Graph) {
    forall v :: v in h.nodes ==> exists p :: IsPath(h, p) && p[0] == MainNode && p[|p| - 1] == v
  }

  /**
   The `assert` on weakly connected components never fails: every node of
   the reachable subgraph is joined to `"main_0"` by a walk inside the
   subgraph, so the subgraph is one weakly connected component.
   */
  lemma ReachableConnected(g: Graph)
    requires WellFormed(g) && MainNode in g.nodes
    ensures JoinedToMain(Induced(g, ReachableFromMain(g).value))
  {
    var r := ReachableFromMain(g).value;
    var h := Induced(g, r);
    forall v | v in h.nodes
      ensures exists p :: IsPath(h, p) && p[0] == MainNode && p[|p| - 1] == v
    {
      var p := ClosureSound(g, {MainNode}, v);
      forall i | 0 <= i < |p| - 1
        ensures (p[i], p[i + 1]) in h.edges
      {
        assert (p[i], p[i + 1]) in g.edges;
      }
      assert IsPath(h, p);
    }
  }

  // ---------------------------------------------------------------------
  // The order networkx returns

  predicate Distinct(xs: seq<string>) {
    forall i, j :: 0 <= i < j < |xs| ==> xs[i] != xs[j]
  }

  /** `order` lists every node of `h` exactly once. */
  predicate Lists(h: Graph, order: seq<string>) {
    Distinct(order)
    && (forall i :: 0 <= i < |order| ==> order[i] in h.nodes)
    && (forall x :: x in h.nodes ==> x in order)
  }

  /** Some node lies on a cycle: it reaches itself along at least one edge. */
  predicate Cyclic(h: Graph)
    requires WellFormed(h)
  {
    exists u :: u in h.nodes && u in Closure(h, Succ(h, {u}))
  }

  /**
   `reversed(list(nx.topological_sort(h)))`: every node once, and no edge
   runs from a node to itself or to a node listed after it, so callees come
   before their callers.
   */
  predicate ReverseTopo(h: Graph, order: seq<string>) {
    Lists(h, order)
    && forall i, j :: 0 <= i <= j < |order| ==> (order[i], order[j]) !in h.edges
  }

  /**
   What `nx.dfs_postorder_nodes(h, source=root)` guarantees when every node
   is reachable from `root`: every node once, `root` last (it finishes
   last), and an edge to a node listed later is a back edge, so its target
   reaches its source.
   */
  predicate DfsPostorder(h: Graph, root: string, order: seq<string>)
    requires WellFormed(h)
  {
    Lists(h, order) && |order| > 0 && order[|order| - 1] == root
    && forall i, j :: 0 <= i < j < |order| && (order[i], order[j]) in h.edges ==> Reaches(h, order[j], order[i])
  }

  /**
   The order `function_iter` walks: topological sort succeeds exactly on
   an acyclic graph, and the post-order is the fallback otherwise.
   */
  predicate NxOrder(h: Graph, order: seq<string>)
    requires WellFormed(h)
  {
    if Cyclic(h) then DfsPostorder(h, MainNode, order) else ReverseTopo(h, order)
  }

  function IndexOf(xs: seq<string>, x: string): (k: nat)
    requires x in xs
    ensures k < |xs| && xs[k] == x
  {
    if xs[0] == x then 0 else 1 + IndexOf(xs[1..], x)
  }

  /** The nodes listed strictly before position `k`. */
  function Before(order: seq<string>, k: nat): set<string>
    requires k <= |order|
  {
    set i | 0 <= i < k :: order[i]
  }

  /** In a reverse topological order the nodes before position `k` have no edge leaving them. */
  lemma BeforeClosed(h: Graph, order: seq<string>, k: nat)
    requires WellFormed(h) && ReverseTopo(h, order) && k <= |order|
    ensures Closed(h, Before(order, k))
  {
    forall e | e in h.edges && e.0 in Before(order, k)
      ensures e.1 in Before(order, k)
    {
      var i :| 0 <= i < k && order[i] == e.0;
      var j := IndexOf(order, e.1);
      if i <= j {
        assert false;
      }
    }
  }

  /** A graph with a reverse topological order has no cycle. */
  lemma TopoMeansAcyclic(h: Graph, order: seq<string>)
    requires WellFormed(h) && ReverseTopo(h, order)
    ensures !Cyclic(h)
  {
    forall u | u in h.nodes
      ensures u !in Closure(h, Succ(h, {u}))
    {
      var k := IndexOf(order, u);
      BeforeClosed(h, order, k);
      forall v | v in Succ(h, {u})
        ensures v in Before(order, k)
      {
        var j := IndexOf(order, v);
        if k <= j {
          assert false;
        }
      }
      ClosureLeast(h, Succ(h, {u}), Before(order, k));
    }
  }

  /** On an acyclic graph a depth-first post-order is also a reverse topological order. */
  lemma AcyclicPostorderIsTopo(h: Graph, root: string, order: seq<string>)
    requires WellFormed(h) && !Cyclic(h) && DfsPostorder(h, root, order)
    ensures ReverseTopo(h, order)
  {
    forall i, j | 0 <= i <= j < |order|
      ensures (order[i], order[j]) !in h.edges
    {
      if (order[i], order[j]) in h.edges {
        var u := order[i];
        var below := Closure(h, Succ(h, {u}));
        assert order[j] in Succ(h, {u});
        if i < j {
          assert Reaches(h, order[j], order[i]);
          ClosureLeast(h, {order[j]}, below);
        }
        assert false;
      }
    }
  }

  /** A node with no edge leaving it. */
  predicate Sink(h: Graph, s: string) {
    forall e :: e in h.edges ==> e.0 != s
  }

  /**
   On an acyclic graph every node reaches a sink: a successor `v` of `u`
   reaches strictly fewer nodes than `u`, since `u` cannot reach itself.
   */
  lemma {:induction false} SinkBelow(h: Graph, u: string) returns (s: string)
    requires WellFormed(h) && !Cyclic(h) && u in h.nodes
    ensures s in Closure(h, {u}) && Sink(h, s)
    decreases |Closure(h, {u})|
  {
    if e :| e in h.edges && e.0 == u {
      var v := e.1;
      var cu := Closure(h, {u});
      var below := Closure(h, Succ(h, {u}));
      assert v in Succ(h, {u});
      assert v in cu;
      ClosureLeast(h, {v}, cu);
      ClosureLeast(h, {v}, below);
      assert u !in below;
      StrictSubsetSmaller(Closure(h, {v}), cu);
      s := SinkBelow(h, v);
    } else {
      s := u;
    }
  }

  /** Removing nodes and edges cannot create a cycle. */
  lemma SubgraphAcyclic(h: Graph, k: Graph)
    requires WellFormed(h) && WellFormed(k) && k.nodes <= h.nodes && k.edges <= h.edges
    requires !Cyclic(h)
    ensures !Cyclic(k)
  {
    forall u | u in k.nodes
      ensures u !in Closure(k, Succ(k, {u}))
    {
      var c := Closure(h, Succ(h, {u})) * k.nodes;
      assert u !in c;
      ClosureLeast(k, Succ(k, {u}), c);
    }
  }

  /**
   Every acyclic graph has a reverse topological order: a sink first,
   then an order of the rest.
   */
  lemma {:induction false} AcyclicHasTopo(h: Graph) returns (order: seq<string>)
    requires WellFormed(h) && !Cyclic(h)
    ensures ReverseTopo(h, order)
    decreases |h.nodes|
  {
    if h.nodes == {} {
      order := [];
    } else {
      var u :| u in h.nodes;
      var s := SinkBelow(h, u);
      var rest := Induced(h, h.nodes - {s});
      SubgraphAcyclic(h, rest);
      assert rest.nodes < h.nodes;
      StrictSubsetSmaller(rest.nodes, h.nodes);
      var tail := AcyclicHasTopo(rest);
      order := [s] + tail;
      SinkThenTopo(h, s, tail);
    }
  }

  /** A sink followed by a reverse topological order of the other nodes is one of the whole graph. */
  lemma SinkThenTopo(h: Graph, s: string, tail: seq<string>)
    requires WellFormed(h) && s in h.nodes && Sink(h, s)
    requires ReverseTopo(Induced(h, h.nodes - {s}), tail)
    ensures ReverseTopo(h, [s] + tail)
  {
    var rest := Induced(h, h.nodes - {s});
    var order := [s] + tail;
    assert forall i :: 0 < i < |order| ==> order[i] == tail[i - 1];
    assert Lists(h, order);
    forall i, j | 0 <= i <= j < |order|
      ensures (order[i], order[j]) !in h.edges
    {
      if 0 < i {
        assert (order[i], order[j]) !in rest.edges;
      }
    }
  }

  /**
   `topological_sort` succeeds exactly on an acyclic graph, so the order
   `NxOrder` asks for exists for every acyclic graph.
   */
  lemma TopoExistsIffAcyclic(h: Graph)
    requires WellFormed(h)
    ensures (exists order :: ReverseTopo(h, order)) <==> !Cyclic(h)
    ensures !Cyclic(h) ==> exists order :: NxOrder(h, order)
  {
    if order :| ReverseTopo(h, order) {
      TopoMeansAcyclic(h, order);
    }
    if !Cyclic(h) {
      var order := AcyclicHasTopo(h);
      assert NxOrder(h, order);
    }
  }

  /** In a list without repeats, a prefix that holds the last element is the whole list. */
  lemma PrefixHoldingLast(order: seq<string>, k: nat)
    requires Distinct(order) && k < |order| && order[|order| - 1] in Before(order, k + 1)
    ensures k == |order| - 1
  {
    var i :| 0 <= i < k + 1 && order[i] == order[|order| - 1];
  }

  /** `"main_0"` comes last in a reverse topological order of the nodes it reaches. */
  lemma TopoRootLast(h: Graph, order: seq<string>)
    requires WellFormed(h) && ReverseTopo(h, order)
    requires MainNode in h.nodes && h.nodes <= Closure(h, {MainNode})
    ensures |order| > 0 && order[|order| - 1] == MainNode
  {
    var k := IndexOf(order, MainNode);
    var prefix := Before(order, k + 1);
    BeforeClosed(h, order, k + 1);
    assert MainNode in prefix;
    ClosureLeast(h, {MainNode}, prefix);
    var last := order[|order| - 1];
    assert last in h.nodes;
    assert last in prefix;
    PrefixHoldingLast(order, k);
  }

  // ---------------------------------------------------------------------
  // From node names back to records

  /** A name with no double quote at either end. */
  predicate PlainName(n: string) {
    |n| == 0 || (n[0] != '"' && n[|n| - 1] != '"')
  }

  function LStripQuotes(s: string): (r: string)
    ensures |r| <= |s| && r == s[|s| - |r|..]
    ensures forall i :: 0 <= i < |s| - |r| ==> s[i] == '"'
    ensures |r| == 0 || r[0] != '"'
  {
    if |s| > 0 && s[0] == '"' then LStripQuotes(s[1..]) else s
  }

  function RStripQuotes(s: string): (r: string)
    ensures |r| <= |s| && r == s[..|r|]
    ensures forall i :: |r| <= i < |s| ==> s[i] == '"'
    ensures |r| == 0 || r[|r| - 1] != '"'
  {
    if |s| > 0 && s[|s| - 1] == '"' then RStripQuotes(s[..|s| - 1]) else s
  }

  /** `s.strip('"')`: every double quote at either end is removed. */
  function StripQuotes(s: string): (r: string)
    ensures PlainName(r) && |r| <= |s|
    ensures PlainName(s) ==> r == s
  {
    var l := LStripQuotes(s);
    var r := RStripQuotes(l);
    if |r| > 0 then
      assert r[0] == l[0];
      r
    else r
  }

  lemma {:induction false} LStripAppendQuote(s: string)
    ensures LStripQuotes(s + "\"") == if |LStripQuotes(s)| == 0 then "" else LStripQuotes(s) + "\""
  {
    if |s| == 0 {
      assert s + "\"" == "\"";
      assert "\""[1..] == "";
    } else if s[0] == '"' {
      assert (s + "\"")[1..] == s[1..] + "\"";
      LStripAppendQuote(s[1..]);
    }
  }

  lemma RStripAppendQuote(x: string)
    ensures RStripQuotes(x + "\"") == RStripQuotes(x)
  {
    assert (x + "\"")[..|x|] == x;
  }

  /** One more pair of surrounding quotes makes no difference to `strip('"')`. */
  lemma StripQuoteOuter(s: string)
    ensures StripQuotes(Quote(s)) == StripQuotes(s)
  {
    var q := Quote(s);
    assert q[0] == '"' && q[1..] == s + "\"";
    assert LStripQuotes(q) == LStripQuotes(s + "\"");
    LStripAppendQuote(s);
    var l := LStripQuotes(s);
    if |l| > 0 {
      RStripAppendQuote(l);
      assert StripQuotes(q) == RStripQuotes(l + "\"");
    } else {
      assert StripQuotes(q) == RStripQuotes("");
    }
  }

  /** Stripping undoes the quoting of a plain name. */
  lemma StripQuote(n: string)
    requires PlainName(n)
    ensures StripQuotes(Quote(n)) == n
  {
    StripQuoteOuter(n);
  }

  /** A name that itself carries quotes loses them on the way back. */
  lemma QuotedNameLosesQuotes()
    ensures StripQuotes(Quote("\"f\"")) == "f"
  {
    assert Quote("f") == "\"f\"";
    StripQuoteOuter("\"f\"");
    StripQuote("f");
  }

  /** Every name and callee name in the records is plain. */
  predicate PlainNames(recs: seq<FuncRecord>) {
    forall k :: 0 <= k < |recs| ==>
      PlainName(recs[k].name)
      && (recs[k].calledFunctions.Some? ==> forall c :: c in recs[k].calledFunctions.value ==> PlainName(c))
  }

  lemma RecordNodeIsQuotedPlain(r: FuncRecord, x: string)
    requires PlainName(r.name) && x in RecordNodes(r)
    requires r.calledFunctions.Some? ==> forall c :: c in r.calledFunctions.value ==> PlainName(c)
    ensures PlainName(StripQuotes(x)) && Quote(StripQuotes(x)) == x
  {
    if x == Quote(r.name) {
      StripQuote(r.name);
    } else {
      var c :| c in r.calledFunctions.value && x == Quote(c);
      StripQuote(c);
    }
  }

  /** Every node of a graph built from plain names is the quoting of a plain name. */
  lemma NodeIsQuotedPlain(recs: seq<FuncRecord>, x: string)
    requires PlainNames(recs) && x in BuildGraph(recs).nodes
    ensures PlainName(StripQuotes(x)) && Quote(StripQuotes(x)) == x
  {
    BuildGraphMembers(recs);
    var k :| 0 <= k < |recs| && x in RecordNodes(recs[k]);
    RecordNodeIsQuotedPlain(recs[k], x);
  }

  /** `[f for f in records if f['name'] == name]`, first element or nothing. */
  function FirstNamed(recs: seq<FuncRecord>, name: string): (r: Option<FuncRecord>)
    ensures r.None? <==> forall k :: 0 <= k < |recs| ==> recs[k].name != name
    ensures r.Some? ==> r.value.name == name && r.value in recs
  {
    if |recs| == 0 then None
    else if recs[0].name == name then Some(recs[0])
    else
      var r := FirstNamed(recs[1..], name);
      assert forall k :: 1 <= k < |recs| ==> recs[k] == recs[1..][k - 1];
      r
  }

  /** The record found is the earliest one with the name. */
  lemma {:induction false} FirstNamedIsFirst(recs: seq<FuncRecord>, name: string, k: nat)
    requires k < |recs| && recs[k].name == name
    requires forall j :: 0 <= j < k ==> recs[j].name != name
    ensures FirstNamed(recs, name) == Some(recs[k])
  {
    if k > 0 {
      assert recs[1..][k - 1] == recs[k];
      FirstNamedIsFirst(recs[1..], name, k - 1);
    }
  }

  /** The loop of `function_iter`: one record per name that has one, in order. */
  function Yield(recs: seq<FuncRecord>, names: seq<string>): (out: seq<FuncRecord>)
    ensures |out| <= |names|
    ensures forall i :: 0 <= i < |out| ==> out[i].name in names && FirstNamed(recs, out[i].name) == Some(out[i])
  {
    if |names| == 0 then []
    else
      var rest := Yield(recs, names[1..]);
      match FirstNamed(recs, names[0])
      case None => rest
      case Some(f) => [f] + rest
  }

  /** A relation that holds between earlier and later names holds between earlier and later records. */
  lemma {:induction false} YieldPairwise(recs: seq<FuncRecord>, names: seq<string>, rel: (string, string) -> bool)
    requires forall i, j :: 0 <= i < j < |names| ==> rel(names[i], names[j])
    ensures forall i, j :: 0 <= i < j < |Yield(recs, names)| ==> rel(Yield(recs, names)[i].name, Yield(recs, names)[j].name)
  {
    if |names| > 0 {
      var tail := names[1..];
      YieldPairwise(recs, tail, rel);
      var rest := Yield(recs, tail);
      if FirstNamed(recs, names[0]).Some? {
        var out := Yield(recs, names);
        assert out == [out[0]] + rest;
        forall j | 0 < j < |out|
          ensures rel(out[0].name, out[j].name)
        {
          assert out[j] == rest[j - 1];
          var m :| 0 <= m < |tail| && tail[m] == out[j].name;
          assert names[m + 1] == tail[m];
        }
      }
    }
  }

  /** Every listed name that has a record gets its first record yielded. */
  lemma {:induction false} YieldComplete(recs: seq<FuncRecord>, names: seq<string>, n: string)
    requires n in names && FirstNamed(recs, n).Some?
    ensures FirstNamed(recs, n).value in Yield(recs, names)
  {
    if names[0] != n {
      assert n in names[1..];
      YieldComplete(recs, names[1..], n);
    }
  }

  /** A record for the last name is the last record yielded. */
  lemma {:induction false} YieldLast(recs: seq<FuncRecord>, names: seq<string>)
    requires |names| > 0 && FirstNamed(recs, names[|names| - 1]).Some?
    ensures |Yield(recs, names)| > 0
    ensures Yield(recs, names)[|Yield(recs, names)| - 1] == FirstNamed(recs, names[|names| - 1]).value
  {
    if |names| > 1 {
      var tail := names[1..];
      assert tail[|tail| - 1] == names[|names| - 1];
      YieldLast(recs, tail);
      YieldCons(recs, names);
      LastOfAppend(YieldHead(recs, names[0]), Yield(recs, tail));
    }
  }

  /** What the first name contributes: its first record, if it has one. */
  function YieldHead(recs: seq<FuncRecord>, name: string): seq<FuncRecord> {
    match FirstNamed(recs, name)
    case None => []
    case Some(f) => [f]
  }

  lemma YieldCons(recs: seq<FuncRecord>, names: seq<string>)
    requires |names| > 0
    ensures Yield(recs, names) == YieldHead(recs, names[0]) + Yield(recs, names[1..])
  {
  }

  lemma LastOfAppend<T>(a: seq<T>, b: seq<T>)
    requires |b| > 0
    ensures (a + b)[|a + b| - 1] == b[|b| - 1]
  {
  }

  /** `[f.strip('"') for f in order]`. */
  function StripAll(order: seq<string>): (names: seq<string>)
    ensures |names| == |order|
    ensures forall k :: 0 <= k < |order| ==> names[k] == StripQuotes(order[k])
  {
    seq(|order|, k requires 0 <= k < |order| => StripQuotes(order[k]))
  }

  /**
   `function_iter` given the records and the order networkx returns for
   the reachable subgraph: the records yielded, or `NetworkXError` when
   there is no `"main_0"` node.
   */
  function FunctionIter(recs: seq<FuncRecord>, order: seq<string>): (r: Result<seq<FuncRecord>>)
    ensures MainNode !in BuildGraph(recs).nodes <==> r.Err?
    ensures r.Err? ==> r.exc.NetworkXError?
    ensures r.Ok? ==> forall i :: 0 <= i < |r.value| ==>
      FirstNamed(recs, r.value[i].name) == Some(r.value[i]) && r.value[i].name in StripAll(order)
  {
    var g := BuildGraph(recs);
    var reach :- ReachableFromMain(g);
    Ok(Yield(recs, StripAll(order)))
  }

  /** The nodes reachable from `"main_0"`. */
  function Reach(recs: seq<FuncRecord>): set<string>
    requires MainNode in BuildGraph(recs).nodes
  {
    ReachableFromMain(BuildGraph(recs)).value
  }

  /** The subgraph `function_iter` orders. */
  function SubGraph(recs: seq<FuncRecord>): (h: Graph)
    requires MainNode in BuildGraph(recs).nodes
    ensures WellFormed(h)
  {
    Induced(BuildGraph(recs), Reach(recs))
  }

  /** Stripping the listed nodes gives distinct plain names whose quotings are the nodes. */
  lemma OrderNames(recs: seq<FuncRecord>, order: seq<string>)
    requires PlainNames(recs) && MainNode in BuildGraph(recs).nodes
    requires NxOrder(SubGraph(recs), order)
    ensures forall k :: 0 <= k < |order| ==> Quote(StripAll(order)[k]) == order[k] && order[k] in Reach(recs)
    ensures Distinct(StripAll(order))
  {
    var names := StripAll(order);
    assert Lists(SubGraph(recs), order);
    forall k | 0 <= k < |order|
      ensures Quote(names[k]) == order[k]
    {
      NodeIsQuotedPlain(recs, order[k]);
    }
    forall i, j | 0 <= i < j < |order|
      ensures names[i] != names[j]
    {
      assert order[i] != order[j];
    }
  }

  /** A quoted name in the reachable set is plain, and it is listed by the order. */
  lemma ReachableNameListed(recs: seq<FuncRecord>, order: seq<string>, n: string)
    requires PlainNames(recs) && MainNode in BuildGraph(recs).nodes
    requires NxOrder(SubGraph(recs), order)
    requires Quote(n) in Reach(recs)
    ensures n in StripAll(order)
  {
    assert Lists(SubGraph(recs), order);
    var k := IndexOf(order, Quote(n));
    NodeIsQuotedPlain(recs, Quote(n));
    QuoteInjective(StripQuotes(Quote(n)), n);
    assert StripAll(order)[k] == n;
  }

  /**
   What `function_iter` yields: records of reachable functions only, each
   function at most once and as its first record, and every reachable
   function that has a record.
   */
  lemma FunctionIterYields(recs: seq<FuncRecord>, order: seq<string>, out: seq<FuncRecord>)
    requires PlainNames(recs) && MainNode in BuildGraph(recs).nodes
    requires NxOrder(SubGraph(recs), order)
    requires FunctionIter(recs, order) == Ok(out)
    ensures forall i :: 0 <= i < |out| ==> Quote(out[i].name) in Reach(recs)
    ensures forall i, j :: 0 <= i < j < |out| ==> out[i].name != out[j].name
    ensures forall n :: Quote(n) in Reach(recs) && FirstNamed(recs, n).Some? ==> FirstNamed(recs, n).value in out
  {
    YieldedReachable(recs, order, out);
    YieldedOnce(recs, order, out);
    ReachableYielded(recs, order, out);
  }

  lemma YieldedReachable(recs: seq<FuncRecord>, order: seq<string>, out: seq<FuncRecord>)
    requires PlainNames(recs) && MainNode in BuildGraph(recs).nodes
    requires NxOrder(SubGraph(recs), order)
    requires FunctionIter(recs, order) == Ok(out)
    ensures forall i :: 0 <= i < |out| ==> Quote(out[i].name) in Reach(recs)
  {
    var names := StripAll(order);
    assert out == Yield(recs, names);
    OrderNames(recs, order);
    forall i | 0 <= i < |out|
      ensures Quote(out[i].name) in Reach(recs)
    {
      var k := IndexOf(names, out[i].name);
      assert Quote(names[k]) == order[k] && order[k] in Reach(recs);
    }
  }

  lemma YieldedOnce(recs: seq<FuncRecord>, order: seq<string>, out: seq<FuncRecord>)
    requires PlainNames(recs) && MainNode in BuildGraph(recs).nodes
    requires NxOrder(SubGraph(recs), order)
    requires FunctionIter(recs, order) == Ok(out)
    ensures forall i, j :: 0 <= i < j < |out| ==> out[i].name != out[j].name
  {
    var names := StripAll(order);
    assert out == Yield(recs, names);
    OrderNames(recs, order);
    YieldPairwise(recs, names, (a, b) => a != b);
  }

  lemma ReachableYielded(recs: seq<FuncRecord>, order: seq<string>, out: seq<FuncRecord>)
    requires PlainNames(recs) && MainNode in BuildGraph(recs).nodes
    requires NxOrder(SubGraph(recs), order)
    requires FunctionIter(recs, order) == Ok(out)
    ensures forall n :: Quote(n) in Reach(recs) && FirstNamed(recs, n).Some? ==> FirstNamed(recs, n).value in out
  {
    var names := StripAll(order);
    assert out == Yield(recs, names);
    forall n | Quote(n) in Reach(recs) && FirstNamed(recs, n).Some?
      ensures FirstNamed(recs, n).value in out
    {
      ReachableNameListed(recs, order, n);
      YieldComplete(recs, names, n);
    }
  }

  /** When the reachable subgraph is acyclic, no yielded function calls one yielded after it. */
  lemma CalleesFirst(recs: seq<FuncRecord>, order: seq<string>, out: seq<FuncRecord>)
    requires PlainNames(recs) && MainNode in BuildGraph(recs).nodes
    requires NxOrder(SubGraph(recs), order) && !Cyclic(SubGraph(recs))
    requires FunctionIter(recs, order) == Ok(out)
    ensures forall i, j :: 0 <= i < j < |out| ==> (Quote(out[i].name), Quote(out[j].name)) !in BuildGraph(recs).edges
  {
    var g := BuildGraph(recs);
    var h := SubGraph(recs);
    var names := StripAll(order);
    assert out == Yield(recs, names);
    OrderNames(recs, order);
    var rel := (a, b) => (Quote(a), Quote(b)) !in g.edges;
    forall i, j | 0 <= i < j < |names|
      ensures rel(names[i], names[j])
    {
      assert (order[i], order[j]) !in h.edges;
    }
    YieldPairwise(recs, names, rel);
  }

  /** Inside the reachable subgraph `"main_0"` still reaches every node. */
  lemma SubGraphFromMain(recs: seq<FuncRecord>)
    requires MainNode in BuildGraph(recs).nodes
    ensures MainNode in SubGraph(recs).nodes
    ensures SubGraph(recs).nodes <= Closure(SubGraph(recs), {MainNode})
  {
    var g := BuildGraph(recs);
    var h := SubGraph(recs);
    var t := Closure(h, {MainNode});
    forall e | e in g.edges && e.0 in t
      ensures e.1 in t
    {
      assert e in h.edges;
    }
    ClosureLeast(g, {MainNode}, t);
  }

  /** Either order networkx returns ends at `"main_0"`. */
  lemma OrderEndsAtMain(recs: seq<FuncRecord>, order: seq<string>)
    requires MainNode in BuildGraph(recs).nodes
    requires NxOrder(SubGraph(recs), order)
    ensures |order| > 0 && order[|order| - 1] == MainNode
  {
    var h := SubGraph(recs);
    if !Cyclic(h) {
      SubGraphFromMain(recs);
      TopoRootLast(h, order);
    }
  }

  /** The last stripped name is `main_0`. */
  lemma LastNameIsMain(recs: seq<FuncRecord>, order: seq<string>)
    requires PlainNames(recs) && MainNode in BuildGraph(recs).nodes
    requires NxOrder(SubGraph(recs), order)
    ensures |StripAll(order)| > 0 && StripAll(order)[|order| - 1] == "main_0"
  {
    OrderEndsAtMain(recs, order);
    OrderNames(recs, order);
    var last := StripAll(order)[|order| - 1];
    assert Quote(last) == Quote("main_0");
    QuoteInjective(last, "main_0");
  }

  /** The record of `main_0`, when there is one, is yielded last. */
  lemma MainYieldedLast(recs: seq<FuncRecord>, order: seq<string>, out: seq<FuncRecord>)
    requires PlainNames(recs) && MainNode in BuildGraph(recs).nodes
    requires NxOrder(SubGraph(recs), order)
    requires FunctionIter(recs, order) == Ok(out)
    requires FirstNamed(recs, "main_0").Some?
    ensures |out| > 0 && out[|out| - 1] == FirstNamed(recs, "main_0").value
  {
    var names := StripAll(order);
    assert out == Yield(recs, names);
    LastNameIsMain(recs, order);
    YieldLast(recs, names);
  }
}
