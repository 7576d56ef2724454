/**
 * generate_random_DAG and random_permutation of graph.py. The generator
 * first lays out a scaffold: for i from num_nodes - 1 down to 0 it samples
 * a set of smaller numbers and emits the edges (i, j) for them in
 * ascending j, so every edge goes from a larger number to a smaller one.
 * It then renames every node through a random permutation and shuffles
 * the rows. The random choices are parameters here: `picks[i]` is the
 * sample drawn for i, `shuffled` the shuffled copy of range(num_nodes) that
 * random_permutation zips with the original, and `rowOrder` the order in
 * which shuffle leaves the rows (row k of the result is row rowOrder[k] of
 * its input).
 */
module DagGenerator {
  import opened GraphModel
  import opened Acyclicity

  /** range(n). */
  function Range(n: nat): (r: seq<Node>)
    ensures |r| == n && forall k :: 0 <= k < n ==> r[k] == k
  {
    seq(n, k => k)
  }

  /** The number of nodes range(num_nodes) yields: none for a negative count. */
  function NodeCount(n: int): nat
  {
    if n < 0 then 0 else n
  }

  /** `s` lists 0, ..., n - 1 in some order: what shuffle makes of range(n). */
  ghost predicate IsPermutation(s: seq<Node>, n: nat)
  {
    |s| == n && multiset(s) == multiset(Range(n))
  }

  /** A distinct sequence holds each value at most once. */
  lemma {:induction false} AtMostOnce(s: seq<Node>, x: Node)
    requires Distinct(s)
    ensures multiset(s)[x] <= 1
  {
    if s != [] {
      var init, last := s[..|s| - 1], s[|s| - 1];
      assert s == init + [last];
      AtMostOnce(init, x);
      assert last !in init;
    }
  }

  /** A value found at two positions is counted at least twice. */
  lemma CountTwo(s: seq<Node>, a: nat, b: nat)
    requires a < b < |s|
    ensures s[a] == s[b] ==> multiset(s)[s[a]] >= 2
  {
    assert s == s[..b] + [s[b]] + s[b + 1..];
    assert s[a] in s[..b];
  }

  /** A sequence with the same elements as a distinct one is distinct. */
  lemma SameMultisetDistinct(s: seq<Node>, t: seq<Node>)
    requires Distinct(t) && multiset(s) == multiset(t)
    ensures Distinct(s)
  {
    forall a, b | 0 <= a < b < |s|
      ensures s[a] != s[b]
    {
      AtMostOnce(t, s[a]);
      CountTwo(s, a, b);
    }
  }

  /** A permutation of range(n) lists each of 0, ..., n - 1 exactly once. */
  lemma PermutationFacts(s: seq<Node>, n: nat)
    requires IsPermutation(s, n)
    ensures |s| == n && Distinct(s)
    ensures forall k :: 0 <= k < |s| ==> 0 <= s[k] < n
    ensures forall x :: 0 <= x < n ==> x in s
  {
    var r := Range(n);
    SameMultisetDistinct(s, r);
    forall k | 0 <= k < |s|
      ensures 0 <= s[k] < n
    {
      assert s[k] in multiset(s);
      assert s[k] in r;
    }
    forall x | 0 <= x < n
      ensures x in s
    {
      assert r[x] == x;
      assert x in multiset(r);
    }
  }

  /** dict(zip(nodes, vals)): later pairs overwrite earlier ones with the same key. */
  function Zip(nodes: seq<Node>, vals: seq<Node>): (p: map<Node, Node>)
    requires |vals| == |nodes|
    ensures forall x :: x in p <==> x in nodes
  {
    if nodes == [] then map[]
    else
      var n := |nodes| - 1;
      Zip(nodes[..n], vals[..n])[nodes[n] := vals[n]]
  }

  /** With distinct keys, the zip sends the k-th node to the k-th value. */
  lemma {:induction false} ZipAt(nodes: seq<Node>, vals: seq<Node>, k: nat)
    requires |vals| == |nodes| && Distinct(nodes) && k < |nodes|
    ensures nodes[k] in Zip(nodes, vals) && Zip(nodes, vals)[nodes[k]] == vals[k]
  {
    var n := |nodes| - 1;
    if k < n {
      assert nodes[k] != nodes[n];
      assert nodes[..n][k] == nodes[k] && vals[..n][k] == vals[k];
      ZipAt(nodes[..n], vals[..n], k);
    }
  }

  /** random_permutation(nodes), given the shuffled copy of `nodes` that shuffle produced. */
  function RandomPermutation(nodes: seq<Node>, shuffled: seq<Node>): (p: map<Node, Node>)
    requires |shuffled| == |nodes|
    ensures forall x :: x in p <==> x in nodes
  {
    Zip(nodes, shuffled)
  }

  /**
   * random_permutation returns a bijection of the node set onto itself:
   * defined on every node, onto every node, and one-to-one.
   */
  lemma PermutationIsBijection(nodes: seq<Node>, shuffled: seq<Node>)
    requires Distinct(nodes) && |shuffled| == |nodes| && multiset(shuffled) == multiset(nodes)
    ensures forall x :: x in RandomPermutation(nodes, shuffled) <==> x in nodes
    ensures forall x :: x in nodes ==> RandomPermutation(nodes, shuffled)[x] in nodes
    ensures forall y :: y in nodes ==> exists x :: x in nodes && RandomPermutation(nodes, shuffled)[x] == y
    ensures forall x, y :: x in nodes && y in nodes && x != y ==>
      RandomPermutation(nodes, shuffled)[x] != RandomPermutation(nodes, shuffled)[y]
  {
    SameMultisetDistinct(shuffled, nodes);
    var p := RandomPermutation(nodes, shuffled);
    forall x, y | x in nodes && y in nodes && x != y
      ensures x in p && y in p && p[x] != p[y]
    {
      PermutationOneToOne(nodes, shuffled, x, y);
    }
    forall x | x in nodes
      ensures p[x] in nodes
    {
      PermutationInto(nodes, shuffled, x);
    }
    forall y | y in nodes
      ensures exists x :: x in nodes && p[x] == y
    {
      var x := PermutationOnto(nodes, shuffled, y);
    }
  }

  lemma PermutationInto(nodes: seq<Node>, shuffled: seq<Node>, x: Node)
    requires Distinct(nodes) && |shuffled| == |nodes| && multiset(shuffled) == multiset(nodes)
    requires x in nodes
    ensures x in Zip(nodes, shuffled) && Zip(nodes, shuffled)[x] in nodes
  {
    var k := IndexOf(nodes, x);
    ZipAt(nodes, shuffled, k);
    assert shuffled[k] in multiset(shuffled);
  }

  lemma PermutationOnto(nodes: seq<Node>, shuffled: seq<Node>, y: Node) returns (x: Node)
    requires Distinct(nodes) && |shuffled| == |nodes| && multiset(shuffled) == multiset(nodes)
    requires y in nodes
    ensures x in nodes && Zip(nodes, shuffled)[x] == y
  {
    assert y in multiset(shuffled);
    var k := IndexOf(shuffled, y);
    ZipAt(nodes, shuffled, k);
    x := nodes[k];
  }

  lemma PermutationOneToOne(nodes: seq<Node>, shuffled: seq<Node>, x: Node, y: Node)
    requires Distinct(nodes) && |shuffled| == |nodes| && Distinct(shuffled)
    requires x in nodes && y in nodes && x != y
    ensures x in Zip(nodes, shuffled) && y in Zip(nodes, shuffled)
    ensures Zip(nodes, shuffled)[x] != Zip(nodes, shuffled)[y]
  {
    var a, b := IndexOf(nodes, x), IndexOf(nodes, y);
    ZipAt(nodes, shuffled, a);
    ZipAt(nodes, shuffled, b);
  }

  /** sorted(s) for a set of numbers: its members below k in ascending order. */
  function SortedBelow(s: set<Node>, k: nat): (r: seq<Node>)
    ensures forall x :: x in r <==> x in s && 0 <= x < k
    ensures forall a :: 0 <= a < |r| ==> 0 <= r[a] < k
    ensures forall a, b :: 0 <= a < b < |r| ==> r[a] < r[b]
    ensures |r| <= k
  {
    if k == 0 then []
    else SortedBelow(s, k - 1) + (if k - 1 in s then [k - 1] else [])
  }

  /** The edges (i, j) for the listed j, in list order. */
  function Row(i: Node, js: seq<Node>): (r: seq<Edge>)
    ensures |r| == |js| && forall k :: 0 <= k < |js| ==> r[k] == (i, js[k])
  {
    seq(|js|, k requires 0 <= k < |js| => (i, js[k]))
  }

  /** The scaffold rows of the nodes lo, ..., |picks| - 1, largest node first. */
  function Scaffold(picks: seq<set<Node>>, lo: nat): seq<Edge>
    decreases |picks| - lo
  {
    if lo >= |picks| then []
    else Scaffold(picks, lo + 1) + Row(lo, SortedBelow(picks[lo], lo))
  }

  /** Each sample is drawn from range(i). */
  ghost predicate SampledBelow(picks: seq<set<Node>>)
  {
    forall i, x :: 0 <= i < |picks| && x in picks[i] ==> 0 <= x < i
  }

  /** Edge `a` comes before edge `b` in the scaffold: larger source first, then smaller target. */
  predicate Precedes(a: Edge, b: Edge)
  {
    a.0 > b.0 || (a.0 == b.0 && a.1 < b.1)
  }

  /**
   * The scaffold edges are exactly the pairs (i, j) with j sampled for i,
   * all with 0 <= j < i, listed by descending i and, within a row,
   * ascending j.
   */
  lemma {:induction false} ScaffoldShape(picks: seq<set<Node>>, lo: nat)
    requires SampledBelow(picks)
    ensures forall e :: e in Scaffold(picks, lo) <==> lo <= e.0 < |picks| && e.1 in picks[e.0]
    ensures forall e :: e in Scaffold(picks, lo) ==> 0 <= e.1 < e.0
    ensures forall a, b :: 0 <= a < b < |Scaffold(picks, lo)| ==> Precedes(Scaffold(picks, lo)[a], Scaffold(picks, lo)[b])
    decreases |picks| - lo
  {
    if lo < |picks| {
      ScaffoldShape(picks, lo + 1);
      var front := Scaffold(picks, lo + 1);
      var row := Row(lo, SortedBelow(picks[lo], lo));
      var s := Scaffold(picks, lo);
      assert s == front + row;
      forall e
        ensures e in s <==> lo <= e.0 < |picks| && e.1 in picks[e.0]
      {
        if e in row {
          var k :| 0 <= k < |row| && row[k] == e;
        }
      }
      ConcatOrdered(front, row, lo);
    }
  }

  /** Rows of larger sources followed by one row of source `lo` in ascending target order stay ordered. */
  lemma ConcatOrdered(front: seq<Edge>, row: seq<Edge>, lo: Node)
    requires forall a, b :: 0 <= a < b < |front| ==> Precedes(front[a], front[b])
    requires forall e :: e in front ==> e.0 > lo
    requires forall k :: 0 <= k < |row| ==> row[k].0 == lo
    requires forall a, b :: 0 <= a < b < |row| ==> row[a].1 < row[b].1
    ensures forall a, b :: 0 <= a < b < |front + row| ==> Precedes((front + row)[a], (front + row)[b])
  {
    var s := front + row;
    forall a, b | 0 <= a < b < |s|
      ensures Precedes(s[a], s[b])
    {
      if b < |front| {
        assert s[a] == front[a] && s[b] == front[b];
      } else if a < |front| {
        assert s[a] == front[a] && s[a] in front && s[b] == row[b - |front|];
      } else {
        assert s[a] == row[a - |front|] && s[b] == row[b - |front|];
      }
    }
  }

  /** A list strictly ordered by Precedes has no repeated edge. */
  lemma OrderedDistinct(s: seq<Edge>)
    requires forall a, b :: 0 <= a < b < |s| ==> Precedes(s[a], s[b])
    ensures Distinct(s)
  {
  }

  /**
   * The scaffold loop of generate_random_DAG (lines 86-90): edges (i, j)
   * with 0 <= j < i, exactly one per sampled j, by descending i and
   * ascending j, none repeated.
   */
  method GenerateScaffold(picks: seq<set<Node>>) returns (edges: seq<Edge>)
    requires SampledBelow(picks)
    ensures edges == Scaffold(picks, 0)
    ensures forall e :: e in edges <==> 0 <= e.0 < |picks| && e.1 in picks[e.0]
    ensures forall e :: e in edges ==> 0 <= e.1 < e.0 < |picks|
    ensures forall a, b :: 0 <= a < b < |edges| ==> Precedes(edges[a], edges[b])
    ensures Distinct(edges)
  {
    edges := [];
    var i := |picks|;
    while i > 0
      invariant 0 <= i <= |picks|
      invariant edges == Scaffold(picks, i)
    {
      i := i - 1;
      var neighbors := SortedBelow(picks[i], i);
      for k := 0 to |neighbors|
        invariant edges == Scaffold(picks, i + 1) + Row(i, neighbors[..k])
      {
        assert Row(i, neighbors[..k + 1]) == Row(i, neighbors[..k]) + [(i, neighbors[k])];
        edges := edges + [(i, neighbors[k])];
      }
      assert neighbors[..|neighbors|] == neighbors;
    }
    ScaffoldShape(picks, 0);
    OrderedDistinct(edges);
  }

  /** Every row with both of its endpoints renamed through `p`, rows kept in order. */
  function Relabel(p: map<Node, Node>, edges: seq<Edge>): (r: seq<Edge>)
    requires forall e :: e in edges ==> e.0 in p && e.1 in p
    ensures |r| == |edges|
    ensures forall k :: 0 <= k < |edges| ==> r[k] == (p[edges[k].0], p[edges[k].1])
  {
    seq(|edges|, k requires 0 <= k < |edges| && edges[k] in edges => (p[edges[k].0], p[edges[k].1]))
  }

  /** shuffle(rows), given the order it leaves them in: row k of the result is row order[k]. */
  function ShuffleRows(rows: seq<Edge>, order: seq<Node>): (r: seq<Edge>)
    requires forall k :: 0 <= k < |order| ==> 0 <= order[k] < |rows|
    ensures |r| == |order|
    ensures forall k :: 0 <= k < |order| ==> r[k] == rows[order[k]]
  {
    seq(|order|, k requires 0 <= k < |order| => rows[order[k]])
  }

  /** Shuffling by a permutation keeps exactly the same rows, and keeps them distinct. */
  lemma ShufflePreserves(rows: seq<Edge>, order: seq<Node>)
    requires IsPermutation(order, |rows|)
    ensures forall k :: 0 <= k < |order| ==> 0 <= order[k] < |rows|
    ensures forall e :: e in ShuffleRows(rows, order) <==> e in rows
    ensures Distinct(rows) ==> Distinct(ShuffleRows(rows, order))
  {
    PermutationFacts(order, |rows|);
    var r := ShuffleRows(rows, order);
    forall e | e in rows
      ensures e in r
    {
      var idx := IndexOf(rows, e);
      var k := IndexOf(order, idx);
      assert r[k] == e;
    }
  }

  /**
   * A list of edges each of which goes from a later to an earlier position
   * of `s` builds an acyclic graph: ranking a node by minus its position
   * increases along every edge.
   */
  lemma BackwardEdgesAcyclic(edges: seq<Edge>, s: seq<Node>)
    requires forall e :: e in edges ==> e.0 in s && e.1 in s && IndexOf(s, e.0) > IndexOf(s, e.1)
    ensures Acyclic(Build(edges))
  {
    var g := Build(edges);
    BuildKeys(edges);
    BuildEdges(edges);
    var rank: map<Node, int> := map x | x in s :: 0 - IndexOf(s, x);
    forall u | u in g
      ensures u in rank
    {
      var e :| e in edges && (u == e.0 || u == e.1);
    }
    forall u, v | u in g && v in g[u]
      ensures v in rank && rank[u] < rank[v]
    {
      assert (u, v) in edges;
    }
    assert Ranks(g, rank);
  }

  /**
   * generate_random_DAG. Every edge joins two distinct nodes of
   * range(num_nodes); no edge is repeated; the edges are exactly the images
   * (p(i), p(j)) of the sampled pairs j < i under the permutation; every
   * edge goes from a later to an earlier position of the shuffled node
   * list, so listing that list backwards is a topological order; and the
   * graph built from the edges is acyclic.
   */
  method GenerateRandomDag(n: int, picks: seq<set<Node>>, shuffled: seq<Node>, rowOrder: seq<Node>)
    returns (permuted: seq<Edge>)
    requires |picks| == NodeCount(n) && SampledBelow(picks)
    requires IsPermutation(shuffled, NodeCount(n))
    requires IsPermutation(rowOrder, |Scaffold(picks, 0)|)
    ensures |permuted| == |Scaffold(picks, 0)|
    ensures forall e :: e in permuted ==> 0 <= e.0 < NodeCount(n) && 0 <= e.1 < NodeCount(n) && e.0 != e.1
    ensures Distinct(permuted)
    ensures forall i, j :: 0 <= j < i < |picks| && j in picks[i] ==> (shuffled[i], shuffled[j]) in permuted
    ensures forall e :: e in permuted ==>
      exists i, j :: 0 <= j < i < |picks| && j in picks[i] && e == (shuffled[i], shuffled[j])
    ensures forall e :: e in permuted ==> e.0 in shuffled && e.1 in shuffled && IndexOf(shuffled, e.0) > IndexOf(shuffled, e.1)
    ensures Acyclic(Build(permuted))
  {
    var m := NodeCount(n);
    var edges := GenerateScaffold(picks);
    var nodes := Range(m);
    PermutationFacts(shuffled, m);
    var p := RandomPermutation(nodes, shuffled);
    assert Distinct(nodes);
    forall x | 0 <= x < m
      ensures x in p && p[x] == shuffled[x]
    {
      ZipAt(nodes, shuffled, x);
    }
    var relabelled := Relabel(p, edges);
    ShufflePreserves(relabelled, rowOrder);
    permuted := ShuffleRows(relabelled, rowOrder);
    Relabelled(picks, shuffled, edges, relabelled);
    BackwardEdgesAcyclic(permuted, shuffled);
  }

  /** The relabelled scaffold: the images of the sampled pairs, distinct and ordered backwards along `shuffled`. */
  lemma Relabelled(picks: seq<set<Node>>, shuffled: seq<Node>, edges: seq<Edge>, relabelled: seq<Edge>)
    requires Distinct(shuffled) && |shuffled| == |picks|
    requires forall k :: 0 <= k < |shuffled| ==> 0 <= shuffled[k] < |picks|
    requires forall e :: e in edges <==> 0 <= e.0 < |picks| && e.1 in picks[e.0]
    requires forall e :: e in edges ==> 0 <= e.1 < e.0 < |picks|
    requires Distinct(edges)
    requires |relabelled| == |edges|
    requires forall k :: 0 <= k < |edges| ==> relabelled[k] == (shuffled[edges[k].0], shuffled[edges[k].1])
    ensures Distinct(relabelled)
    ensures forall e :: e in relabelled ==> 0 <= e.0 < |picks| && 0 <= e.1 < |picks| && e.0 != e.1
    ensures forall i, j :: 0 <= j < i < |picks| && j in picks[i] ==> (shuffled[i], shuffled[j]) in relabelled
    ensures forall e :: e in relabelled ==>
      exists i, j :: 0 <= j < i < |picks| && j in picks[i] && e == (shuffled[i], shuffled[j])
    ensures forall e :: e in relabelled ==> e.0 in shuffled && e.1 in shuffled && IndexOf(shuffled, e.0) > IndexOf(shuffled, e.1)
  {
    forall e | e in relabelled
      ensures exists i, j :: 0 <= j < i < |picks| && j in picks[i] && e == (shuffled[i], shuffled[j])
      ensures 0 <= e.0 < |picks| && 0 <= e.1 < |picks| && e.0 != e.1
      ensures e.0 in shuffled && e.1 in shuffled && IndexOf(shuffled, e.0) > IndexOf(shuffled, e.1)
    {
      RelabelledEdge(picks, shuffled, edges, relabelled, IndexOf(relabelled, e));
    }
    forall i, j | 0 <= j < i < |picks| && j in picks[i]
      ensures (shuffled[i], shuffled[j]) in relabelled
    {
      var k := IndexOf(edges, (i, j));
      assert relabelled[k] == (shuffled[i], shuffled[j]);
    }
    RelabelledDistinct(shuffled, edges, relabelled);
  }

  /** One relabelled edge: the image of a sampled pair, going backwards along `shuffled`. */
  lemma RelabelledEdge(picks: seq<set<Node>>, shuffled: seq<Node>, edges: seq<Edge>, relabelled: seq<Edge>, k: nat)
    requires Distinct(shuffled) && |shuffled| == |picks|
    requires forall k :: 0 <= k < |shuffled| ==> 0 <= shuffled[k] < |picks|
    requires forall e :: e in edges <==> 0 <= e.0 < |picks| && e.1 in picks[e.0]
    requires forall e :: e in edges ==> 0 <= e.1 < e.0 < |picks|
    requires |relabelled| == |edges| && k < |edges|
    requires relabelled[k] == (shuffled[edges[k].0], shuffled[edges[k].1])
    ensures var e := relabelled[k];
      (exists i, j :: 0 <= j < i < |picks| && j in picks[i] && e == (shuffled[i], shuffled[j])) &&
      0 <= e.0 < |picks| && 0 <= e.1 < |picks| && e.0 != e.1 &&
      e.0 in shuffled && e.1 in shuffled && IndexOf(shuffled, e.0) > IndexOf(shuffled, e.1)
  {
    var i, j := edges[k].0, edges[k].1;
    assert edges[k] in edges;
    IndexOfDistinct(shuffled, i);
    IndexOfDistinct(shuffled, j);
  }

  /** Relabelling distinct edges through a one-to-one renaming keeps them distinct. */
  lemma RelabelledDistinct(shuffled: seq<Node>, edges: seq<Edge>, relabelled: seq<Edge>)
    requires Distinct(shuffled)
    requires forall e :: e in edges ==> 0 <= e.1 < |shuffled| && 0 <= e.0 < |shuffled|
    requires Distinct(edges)
    requires |relabelled| == |edges|
    requires forall k :: 0 <= k < |edges| ==> relabelled[k] == (shuffled[edges[k].0], shuffled[edges[k].1])
    ensures Distinct(relabelled)
  {
    forall a, b | 0 <= a < b < |relabelled|
      ensures relabelled[a] != relabelled[b]
    {
      assert edges[a] in edges && edges[b] in edges;
      assert edges[a] != edges[b];
    }
  }
}
