/**
 * The graph representation of graph.py: a dictionary from a node to the list
 * of its out-neighbours, built from an edge list read one row at a time.
 * Python dictionaries remember the order in which keys were inserted; that
 * order is carried beside the map as a sequence of keys.
 */
module GraphModel {

  type Node = int
  type Edge = (Node, Node)
  type Graph = map<Node, seq<Node>>

  /** No element occurs twice in `s`. */
  predicate Distinct<T(==)>(s: seq<T>)
  {
    forall i, j :: 0 <= i < j < |s| ==> s[i] != s[j]
  }

  /** Every node listed as a neighbour is itself a key of the graph. */
  ghost predicate Closed(g: Graph)
  {
    forall u, v :: u in g && v in g[u] ==> v in g
  }

  /** `keys` lists every key of `g` exactly once (a dictionary's iteration order). */
  ghost predicate Enumerates(keys: seq<Node>, g: Graph)
  {
    Distinct(keys) && forall k :: k in keys <==> k in g
  }

  /** Position of `x` in `s` (its first occurrence). */
  function IndexOf<T(==)>(s: seq<T>, x: T): (r: nat)
    requires x in s
    ensures r < |s| && s[r] == x
    ensures forall k :: 0 <= k < r ==> s[k] != x
  {
    if s[0] == x then 0 else 1 + IndexOf(s[1..], x)
  }

  lemma IndexOfDistinct<T>(s: seq<T>, i: nat)
    requires Distinct(s) && i < |s|
    ensures IndexOf(s, s[i]) == i
  {
  }

  /** A distinct sequence has as many elements as the set of its elements. */
  lemma {:induction false} DistinctCard<T>(s: seq<T>)
    requires Distinct(s)
    ensures |set x | x in s| == |s|
  {
    if s != [] {
      var t := s[..|s| - 1];
      DistinctCard(t);
      assert (set x | x in s) == (set x | x in t) + {s[|s| - 1]};
      assert s[|s| - 1] !in (set x | x in t);
    }
  }

  /** A subset has at most as many elements, and as many only when it is the whole set. */
  lemma SubsetCard<T>(a: set<T>, b: set<T>)
    requires a <= b
    ensures |a| <= |b|
    ensures |a| == |b| ==> a == b
  {
    assert b == (b - a) + a;
    assert (b - a) * a == {};
    assert |b - a| == 0 ==> b - a == {};
  }

  /**
   * One row of the edge list, as the loop body of read_graph handles it:
   * append the destination to the source's list (creating the entry), then
   * make sure the destination has an entry.
   */
  function AddEdge(g: Graph, e: Edge): Graph
  {
    var withSource := g[e.0 := if e.0 in g then g[e.0] + [e.1] else [e.1]];
    if e.1 in withSource then withSource else withSource[e.1 := []]
  }

  /** The graph read_graph builds from `edges`, row by row. */
  function Build(edges: seq<Edge>): Graph
  {
    if edges == [] then map[] else AddEdge(Build(edges[..|edges| - 1]), edges[|edges| - 1])
  }

  /** The order in which Build inserts keys into the dictionary. */
  function KeyOrder(edges: seq<Edge>): seq<Node>
  {
    if edges == [] then []
    else
      var init := edges[..|edges| - 1];
      var g := Build(init);
      var (s, d) := edges[|edges| - 1];
      KeyOrder(init) + (if s in g then [] else [s]) + (if s == d || d in g then [] else [d])
  }

  /** Destinations of the edges leaving `s`, in input order. */
  function Dests(edges: seq<Edge>, s: Node): seq<Node>
  {
    if edges == [] then []
    else Dests(edges[..|edges| - 1], s) + (if edges[|edges| - 1].0 == s then [edges[|edges| - 1].1] else [])
  }

  /** Every edge reversed; the rows read_double_graph files into the in-edge dictionary. */
  function Swap(edges: seq<Edge>): (r: seq<Edge>)
    ensures |r| == |edges|
    ensures forall i :: 0 <= i < |edges| ==> r[i] == (edges[i].1, edges[i].0)
  {
    seq(|edges|, i requires 0 <= i < |edges| => (edges[i].1, edges[i].0))
  }

  /**
   * Reversing the rows twice gives them back, and the reversed list holds
   * (v, u) exactly as often as the original holds (u, v).
   */
  lemma {:induction false} SwapInvolution(edges: seq<Edge>, u: Node, v: Node)
    ensures Swap(Swap(edges)) == edges
    ensures multiset(Swap(edges))[(v, u)] == multiset(edges)[(u, v)]
  {
    if edges != [] {
      var init, last := edges[..|edges| - 1], edges[|edges| - 1];
      SwapInvolution(init, u, v);
      assert edges == init + [last];
      assert Swap(edges) == Swap(init) + [(last.1, last.0)];
    }
  }

  /** Total length of the lists stored under `ks`. */
  function SumLens(g: Graph, ks: seq<Node>): nat
    requires forall k :: k in ks ==> k in g
  {
    if ks == [] then 0
    else
      var last := ks[|ks| - 1];
      assert last in ks;
      SumLens(g, ks[..|ks| - 1]) + |g[last]|
  }

  /** The keys of the built graph are exactly the endpoints of the edges. */
  lemma {:induction false} BuildKeys(edges: seq<Edge>)
    ensures forall x :: x in Build(edges) <==> exists e :: e in edges && (x == e.0 || x == e.1)
  {
    if edges != [] {
      var init := edges[..|edges| - 1];
      var last := edges[|edges| - 1];
      BuildKeys(init);
      assert edges == init + [last];
      forall x | x in Build(edges)
        ensures exists e :: e in edges && (x == e.0 || x == e.1)
      {
        if x != last.0 && x != last.1 {
          assert x in Build(init);
          var e :| e in init && (x == e.0 || x == e.1);
          assert e in edges;
        }
      }
      forall x, e | e in edges && (x == e.0 || x == e.1)
        ensures x in Build(edges)
      {
        if e != last {
          assert e in init;
        }
      }
    }
  }

  /** Each list holds the destinations of the edges from its key, in input order. */
  lemma {:induction false} BuildAdjacency(edges: seq<Edge>)
    ensures forall s :: s in Build(edges) ==> Build(edges)[s] == Dests(edges, s)
  {
    if edges != [] {
      var init := edges[..|edges| - 1];
      BuildAdjacency(init);
      BuildKeys(init);
      var (a, b) := edges[|edges| - 1];
      forall s | s in Build(init) && s != a
        ensures Dests(init, s) == Build(init)[s]
      {
      }
      forall s | s !in Build(init)
        ensures Dests(init, s) == []
      {
        DestsOfAbsent(init, s);
      }
    }
  }

  /** A node that is no key has no outgoing edge. */
  lemma {:induction false} DestsOfAbsent(edges: seq<Edge>, s: Node)
    requires s !in Build(edges)
    ensures Dests(edges, s) == []
  {
    if edges != [] {
      var init := edges[..|edges| - 1];
      assert s !in Build(init);
      DestsOfAbsent(init, s);
    }
  }

  /** `v` is listed under `u` exactly when the row (u, v) was read. */
  lemma {:induction false} BuildEdges(edges: seq<Edge>)
    ensures forall u, v :: u in Build(edges) && v in Build(edges)[u] <==> (u, v) in edges
  {
    BuildAdjacency(edges);
    BuildKeys(edges);
    forall u, v
      ensures v in Dests(edges, u) <==> (u, v) in edges
    {
      DestsMembership(edges, u, v);
    }
    forall u, v | (u, v) in edges
      ensures u in Build(edges)
    {
      var e := (u, v);
      assert e in edges && u == e.0;
    }
  }

  lemma {:induction false} DestsMembership(edges: seq<Edge>, u: Node, v: Node)
    ensures v in Dests(edges, u) <==> (u, v) in edges
  {
    if edges != [] {
      var init := edges[..|edges| - 1];
      DestsMembership(init, u, v);
      assert edges == init + [edges[|edges| - 1]];
    }
  }

  /** The built dictionary has no dangling neighbour. */
  lemma BuildClosed(edges: seq<Edge>)
    ensures Closed(Build(edges))
  {
    BuildEdges(edges);
    BuildKeys(edges);
    forall u, v | u in Build(edges) && v in Build(edges)[u]
      ensures v in Build(edges)
    {
      var e := (u, v);
      assert e in edges && v == e.1;
    }
  }

  lemma {:induction false} SumLensUpdate(g: Graph, ks: seq<Node>, k: Node, l: seq<Node>)
    requires Distinct(ks) && forall x :: x in ks ==> x in g
    ensures SumLens(g[k := l], ks) == SumLens(g, ks) - (if k in ks then |g[k]| else 0) + (if k in ks then |l| else 0)
  {
    if ks != [] {
      var init := ks[..|ks| - 1];
      assert forall x :: x in init ==> x in ks;
      SumLensUpdate(g, init, k, l);
      assert k in ks <==> k in init || k == ks[|ks| - 1];
    }
  }

  /** Storing a list under a new key, listed last, adds that list's length. */
  lemma AppendKey(g: Graph, ks: seq<Node>, k: Node, l: seq<Node>)
    requires Enumerates(ks, g) && k !in g
    ensures Enumerates(ks + [k], g[k := l])
    ensures SumLens(g[k := l], ks + [k]) == SumLens(g, ks) + |l|
  {
    SumLensUpdate(g, ks, k, l);
    assert (ks + [k])[..|ks|] == ks;
  }

  /** Replacing the list of an existing key changes the total by the difference in length. */
  lemma ReplaceList(g: Graph, ks: seq<Node>, k: Node, l: seq<Node>)
    requires Enumerates(ks, g) && k in g
    ensures Enumerates(ks, g[k := l])
    ensures SumLens(g[k := l], ks) == SumLens(g, ks) - |g[k]| + |l|
  {
    SumLensUpdate(g, ks, k, l);
  }

  /** Appending the destination to the source's list adds one entry, and a new source is listed last. */
  lemma SourceStep(g: Graph, ks: seq<Node>, s: Node, d: Node, g1: Graph, ks1: seq<Node>)
    requires Enumerates(ks, g)
    requires g1 == g[s := if s in g then g[s] + [d] else [d]]
    requires ks1 == ks + (if s in g then [] else [s])
    ensures Enumerates(ks1, g1) && SumLens(g1, ks1) == SumLens(g, ks) + 1
  {
    if s in g {
      ReplaceList(g, ks, s, g[s] + [d]);
      assert ks1 == ks;
    } else {
      AppendKey(g, ks, s, [d]);
    }
  }

  /** Giving a new destination an empty list adds no entry, and the new key is listed last. */
  lemma DestStep(g1: Graph, ks1: seq<Node>, d: Node, g2: Graph, ks2: seq<Node>)
    requires Enumerates(ks1, g1)
    requires g2 == if d in g1 then g1 else g1[d := []]
    requires ks2 == ks1 + (if d in g1 then [] else [d])
    ensures Enumerates(ks2, g2) && SumLens(g2, ks2) == SumLens(g1, ks1)
  {
    if d !in g1 {
      AppendKey(g1, ks1, d, []);
    } else {
      assert ks2 == ks1;
    }
  }

  /** Reading one more row adds one entry to exactly one list. */
  lemma AddEdgeCount(g: Graph, ks: seq<Node>, e: Edge)
    requires Enumerates(ks, g)
    ensures var ks' := ks + (if e.0 in g then [] else [e.0]) + (if e.0 == e.1 || e.1 in g then [] else [e.1]);
      Enumerates(ks', AddEdge(g, e)) && SumLens(AddEdge(g, e), ks') == SumLens(g, ks) + 1
  {
    var (s, d) := e;
    var g1 := g[s := if s in g then g[s] + [d] else [d]];
    var ks1 := ks + (if s in g then [] else [s]);
    SourceStep(g, ks, s, d, g1, ks1);
    assert (d in g1) == (s == d || d in g);
    DestStep(g1, ks1, d, AddEdge(g, e), ks1 + (if d in g1 then [] else [d]));
  }

  /** Duplicates and self-loops are kept: the lists together hold one entry per row. */
  lemma {:induction false} BuildEdgeCount(edges: seq<Edge>)
    ensures Enumerates(KeyOrder(edges), Build(edges))
    ensures SumLens(Build(edges), KeyOrder(edges)) == |edges|
  {
    if edges != [] {
      var init := edges[..|edges| - 1];
      BuildEdgeCount(init);
      AddEdgeCount(Build(init), KeyOrder(init), edges[|edges| - 1]);
    }
  }

  /** The in-edge rows, swapped back, list the sources of the edges into `v` in input order. */
  function Sources(edges: seq<Edge>, v: Node): seq<Node>
  {
    if edges == [] then []
    else Sources(edges[..|edges| - 1], v) + (if edges[|edges| - 1].1 == v then [edges[|edges| - 1].0] else [])
  }

  lemma {:induction false} DestsOfSwap(edges: seq<Edge>, v: Node)
    ensures Dests(Swap(edges), v) == Sources(edges, v)
  {
    if edges != [] {
      var init := edges[..|edges| - 1];
      DestsOfSwap(init, v);
      assert Swap(edges)[..|edges| - 1] == Swap(init);
    }
  }

  /** `v` occurs under `u` as many times as the row (u, v) was read. */
  lemma {:induction false} DestsCount(edges: seq<Edge>, u: Node, v: Node)
    ensures multiset(Dests(edges, u))[v] == multiset(edges)[(u, v)]
  {
    if edges != [] {
      var init, last := edges[..|edges| - 1], edges[|edges| - 1];
      DestsCount(init, u, v);
      assert edges == init + [last];
      assert multiset(edges) == multiset(init) + multiset{last};
      var tail := if last.0 == u then [last.1] else [];
      assert multiset(Dests(edges, u)) == multiset(Dests(init, u)) + multiset(tail);
    }
  }

  /** `u` occurs among the sources into `v` as many times as the row (u, v) was read. */
  lemma {:induction false} SourcesCount(edges: seq<Edge>, u: Node, v: Node)
    ensures multiset(Sources(edges, v))[u] == multiset(edges)[(u, v)]
  {
    if edges != [] {
      var init, last := edges[..|edges| - 1], edges[|edges| - 1];
      SourcesCount(init, u, v);
      assert edges == init + [last];
      assert multiset(edges) == multiset(init) + multiset{last};
      var tail := if last.1 == v then [last.0] else [];
      assert multiset(Sources(edges, v)) == multiset(Sources(init, v)) + multiset(tail);
    }
  }

  /**
   * The two dictionaries of read_double_graph: the out-graph is the one
   * read_graph builds; the in-graph lists, under each node, the sources of
   * the edges into it in input order; both have the same keys; and `u`
   * occurs in in[v] exactly as often as `v` occurs in out[u].
   */
  lemma DualGraph(edges: seq<Edge>)
    ensures Build(Swap(edges)).Keys == Build(edges).Keys
    ensures forall v :: v in Build(Swap(edges)) ==> Build(Swap(edges))[v] == Sources(edges, v)
    ensures forall u, v :: u in Build(edges) && v in Build(edges) ==>
      multiset(Build(Swap(edges))[v])[u] == multiset(Build(edges)[u])[v]
  {
    var out, inG := Build(edges), Build(Swap(edges));
    BuildKeys(edges);
    BuildKeys(Swap(edges));
    BuildAdjacency(edges);
    BuildAdjacency(Swap(edges));
    forall x | x in out
      ensures x in inG
    {
      var e :| e in edges && (x == e.0 || x == e.1);
      var i :| 0 <= i < |edges| && edges[i] == e;
      assert Swap(edges)[i] in Swap(edges);
    }
    forall x | x in inG
      ensures x in out
    {
      var e :| e in Swap(edges) && (x == e.0 || x == e.1);
      var i :| 0 <= i < |edges| && Swap(edges)[i] == e;
      assert edges[i] in edges;
    }
    forall v | v in inG
      ensures inG[v] == Sources(edges, v)
    {
      DestsOfSwap(edges, v);
    }
    forall u, v | u in out && v in out
      ensures multiset(inG[v])[u] == multiset(out[u])[v]
    {
      DestsOfSwap(edges, v);
      DestsCount(edges, u, v);
      SourcesCount(edges, u, v);
    }
  }

  /**
   * The loop of read_graph over already parsed rows: returns the dictionary
   * and the order in which its keys were inserted.
   */
  method ReadGraph(edges: seq<Edge>) returns (g: Graph, keys: seq<Node>)
    ensures g == Build(edges) && keys == KeyOrder(edges)
    ensures Enumerates(keys, g) && Closed(g)
    ensures forall x :: x in g <==> exists e :: e in edges && (x == e.0 || x == e.1)
    ensures forall u, v :: u in g && v in g[u] <==> (u, v) in edges
    ensures SumLens(g, keys) == |edges|
  {
    g, keys := map[], [];
    for i := 0 to |edges|
      invariant g == Build(edges[..i]) && keys == KeyOrder(edges[..i])
    {
      assert edges[..i + 1][..i] == edges[..i];
      var (s, d) := edges[i];
      if s !in g {
        g := g[s := [d]];
        keys := keys + [s];
      } else {
        g := g[s := g[s] + [d]];
      }
      if d !in g {
        g := g[d := []];
        keys := keys + [d];
      }
    }
    assert edges[..|edges|] == edges;
    BuildClosed(edges);
    BuildKeys(edges);
    BuildEdges(edges);
    BuildEdgeCount(edges);
  }

  /**
   * The loop of read_double_graph: one pass that files every row (s, d) under
   * s in the out-graph and under d in the in-graph.
   */
  method ReadDoubleGraph(edges: seq<Edge>) returns (outGraph: Graph, inGraph: Graph)
    ensures outGraph == Build(edges)
    ensures inGraph == Build(Swap(edges))
    ensures inGraph.Keys == outGraph.Keys
    ensures forall v :: v in inGraph ==> inGraph[v] == Sources(edges, v)
    ensures forall u, v :: u in outGraph && v in outGraph ==>
      multiset(inGraph[v])[u] == multiset(outGraph[u])[v]
  {
    outGraph, inGraph := map[], map[];
    for i := 0 to |edges|
      invariant outGraph == Build(edges[..i])
      invariant inGraph == Build(Swap(edges[..i]))
    {
      assert edges[..i + 1][..i] == edges[..i];
      assert Swap(edges[..i + 1])[..i] == Swap(edges[..i]);
      var (s, d) := edges[i];
      if s !in outGraph {
        outGraph := outGraph[s := [d]];
      } else {
        outGraph := outGraph[s := outGraph[s] + [d]];
      }
      if d !in outGraph {
        outGraph := outGraph[d := []];
      }

      if d !in inGraph {
        inGraph := inGraph[d := [s]];
      } else {
        inGraph := inGraph[d := inGraph[d] + [s]];
      }
      if s !in inGraph {
        inGraph := inGraph[s := []];
      }
    }
    assert edges[..|edges|] == edges;
    DualGraph(edges);
  }
}
