/**
 * Acyclicity and topological orders. A graph is taken to be acyclic when
 * some ranking of its nodes increases strictly along every edge; such a
 * ranking rules out every cycle, and a topological order yields one.
 */
module Acyclicity {
  import opened GraphModel

  /** `rank` is defined on every node involved and increases strictly along every edge. */
  ghost predicate Ranks(g: Graph, rank: map<Node, int>)
  {
    (forall u :: u in g ==> u in rank) &&
    forall u, v :: u in g && v in g[u] ==> v in rank && rank[u] < rank[v]
  }

  ghost predicate Acyclic(g: Graph)
  {
    exists rank :: Ranks(g, rank)
  }

  /** A closed walk along edges of `g`; a self-loop is the cycle [x, x]. */
  ghost predicate IsCycle(g: Graph, path: seq<Node>)
  {
    |path| >= 2 && path[0] == path[|path| - 1] &&
    forall i :: 0 <= i < |path| - 1 ==> path[i] in g && path[i + 1] in g[path[i]]
  }

  /**
   * A valid, complete topological order: every key exactly once, and no node
   * has an edge to itself or to a node placed before it.
   */
  ghost predicate IsTopoOrder(g: Graph, order: seq<Node>)
  {
    Distinct(order) && (forall v :: v in order <==> v in g) &&
    forall i, j :: 0 <= j <= i < |order| ==> order[i] in g && order[j] !in g[order[i]]
  }

  lemma {:induction false} RankAlongPath(g: Graph, rank: map<Node, int>, path: seq<Node>, i: nat)
    requires Ranks(g, rank) && 1 <= i < |path|
    requires forall k :: 0 <= k < |path| - 1 ==> path[k] in g && path[k + 1] in g[path[k]]
    ensures path[0] in rank && path[i] in rank && rank[path[0]] < rank[path[i]]
  {
    var a, b := path[i - 1], path[i];
    assert a in g && b in g[a];
    assert a in rank && b in rank && rank[a] < rank[b];
    if i > 1 {
      RankAlongPath(g, rank, path, i - 1);
    }
  }

  /** A graph with a cycle has no ranking: it is not acyclic. */
  lemma CycleMeansCyclic(g: Graph, path: seq<Node>)
    requires IsCycle(g, path)
    ensures !Acyclic(g)
  {
    forall rank | Ranks(g, rank)
      ensures false
    {
      RankAlongPath(g, rank, path, |path| - 1);
    }
  }

  /** A node with an edge to itself makes the graph cyclic. */
  lemma SelfLoopIsCyclic(g: Graph, x: Node)
    requires x in g && x in g[x]
    ensures !Acyclic(g)
  {
    assert IsCycle(g, [x, x]);
    CycleMeansCyclic(g, [x, x]);
  }

  /**
   * A non-empty set has an element. A proof step only: the verifier does not
   * derive this by itself before a `:|` choice from the set.
   */
  lemma Inhabited(s: set<Node>)
    requires s != {}
    ensures exists y :: y in s
  {
    if forall y :: y !in s {
      assert false;
    }
  }

  lemma {:induction false} MinRank(s: set<Node>, rank: map<Node, int>) returns (m: Node)
    requires s != {} && s <= rank.Keys
    ensures m in s && forall x :: x in s ==> rank[m] <= rank[x]
    decreases s
  {
    Inhabited(s);
    var y :| y in s;
    if s == {y} {
      m := y;
    } else {
      var m' := MinRank(s - {y}, rank);
      m := if rank[y] < rank[m'] then y else m';
    }
  }

  lemma {:induction false} MaxRank(s: set<Node>, rank: map<Node, int>) returns (m: Node)
    requires s != {} && s <= rank.Keys
    ensures m in s && forall x :: x in s ==> rank[x] <= rank[m]
    decreases s
  {
    Inhabited(s);
    var y :| y in s;
    if s == {y} {
      m := y;
    } else {
      var m' := MaxRank(s - {y}, rank);
      m := if rank[y] > rank[m'] then y else m';
    }
  }

  /**
   * In an acyclic graph every non-empty set of nodes has a member without a
   * predecessor inside the set (the member of least rank).
   */
  lemma SourceWithin(g: Graph, left: set<Node>) returns (v: Node)
    requires Acyclic(g) && left != {} && left <= g.Keys
    ensures v in left && forall u :: u in left ==> v !in g[u]
  {
    var rank :| Ranks(g, rank);
    forall x | x in left
      ensures x in rank
    {
      assert x in g;
    }
    v := MinRank(left, rank);
  }

  /** A closed acyclic graph with at least one node has a node without out-edges. */
  lemma SinkExists(g: Graph) returns (v: Node)
    requires Closed(g) && Acyclic(g) && g != map[]
    ensures v in g && g[v] == []
  {
    var rank :| Ranks(g, rank);
    assert g.Keys == {} ==> g == map[];
    forall x | x in g
      ensures x in rank
    {
    }
    v := MaxRank(g.Keys, rank);
    if g[v] != [] {
      var w := Element(g[v]);
      RankedSuccessor(g, rank, v, w);
      assert false;
    }
  }

  lemma RankedSuccessor(g: Graph, rank: map<Node, int>, u: Node, v: Node)
    requires Closed(g) && Ranks(g, rank) && u in g && v in g[u]
    ensures v in g.Keys && v in rank && rank[u] < rank[v]
  {
  }

  /**
   * Some element of a non-empty sequence. A proof step only: it names a
   * witness so that callers need not quantify over the sequence.
   */
  lemma Element(s: seq<Node>) returns (x: Node)
    requires s != []
    ensures x in s
  {
    x := s[0];
  }

  /**
   * A non-empty set of nodes in which every member has a predecessor inside
   * the set (`pred` picks one) holds a cycle: walking back from predecessor to predecessor must
   * revisit a node once the walk is longer than the set.
   */
  lemma CycleAmong(g: Graph, s: set<Node>, pred: map<Node, Node>) returns (path: seq<Node>)
    requires s != {}
    requires forall v :: v in s ==> v in pred && pred[v] in s && pred[v] in g && v in g[pred[v]]
    ensures IsCycle(g, path)
    ensures forall k :: 0 <= k < |path| ==> path[k] in s
  {
    Inhabited(s);
    var v :| v in s;
    var walk := [v];
    while Distinct(walk)
      invariant walk != []
      invariant forall k :: 0 <= k < |walk| ==> walk[k] in s
      invariant forall k :: 0 <= k < |walk| - 1 ==> walk[k] in g && walk[k + 1] in g[walk[k]]
      decreases |s| - |walk|
    {
      WalkWithin(walk, s);
      var w := walk[0];
      assert w in s;
      walk := [pred[w]] + walk;
    }
    var a, b :| 0 <= a < b < |walk| && walk[a] == walk[b];
    path := walk[a..b + 1];
  }

  /** A walk that repeats no node and stays inside `s` is no longer than `s` is large. */
  lemma WalkWithin(walk: seq<Node>, s: set<Node>)
    requires Distinct(walk) && forall k :: 0 <= k < |walk| ==> walk[k] in s
    ensures |walk| <= |s|
  {
    DistinctCard(walk);
    forall x | x in walk
      ensures x in s
    {
      var k := IndexOf(walk, x);
    }
    SubsetCard((set x | x in walk), s);
  }

  /** Positions in a topological order form a ranking, so the graph is acyclic. */
  lemma TopoOrderIsAcyclic(g: Graph, order: seq<Node>)
    requires Closed(g) && IsTopoOrder(g, order)
    ensures Acyclic(g)
  {
    var rank := map v | v in order :: IndexOf(order, v);
    forall u, v | u in g && v in g[u]
      ensures v in rank && rank[u] < rank[v]
    {
      var i, j := IndexOf(order, u), IndexOf(order, v);
      assert order[i] == u && order[j] == v;
    }
    assert Ranks(g, rank);
  }
}
