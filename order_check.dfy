/**
 * The checks of src.py on a finished graph: check_TPS, which decides
 * whether a node list is a topological order, and contains_sink_node.
 * check_TPS walks the list from its last position down; for each position
 * i it looks for an earlier position j < i whose node is an out-neighbour
 * of tps[i] (a backward edge), and only then compares the length of the
 * list with the number of keys.
 */
module OrderCheck {
  import opened GraphModel
  import opened Acyclicity

  /**
   * What check_TPS does: return True, return False because of a backward
   * edge (after reporting it) or because of the length, or raise KeyError
   * when it looks up a listed node that is not a key.
   */
  datatype Verdict = Accepted | BackwardEdge(u: Node, v: Node) | LengthMismatch | KeyError(key: Node)

  /** Rows `lo` and above of the scan are clean: each is a key with no edge back to an earlier position. */
  ghost predicate Clean(g: Graph, tps: seq<Node>, lo: int)
  {
    (forall r :: lo <= r < |tps| && 0 < r ==> tps[r] in g) &&
    forall r, j :: lo <= r < |tps| && 0 <= j < r && tps[r] in g ==> tps[j] !in g[tps[r]]
  }

  /** The backward edge check_TPS reports: the highest faulty row, and its first earlier position. */
  ghost predicate FirstFault(g: Graph, tps: seq<Node>, i: int, j: int)
  {
    0 <= j < i < |tps| && Clean(g, tps, i + 1) && tps[i] in g && tps[j] in g[tps[i]] &&
    forall k :: 0 <= k < j ==> tps[k] !in g[tps[i]]
  }

  /**
   * check_TPS. It accepts exactly when no position has an edge back to an
   * earlier one and the list is as long as the key set; a backward edge it
   * reports is a real one, found in the scan order; a KeyError names a
   * listed node, other than the first, that is not a key.
   */
  method CheckTps(g: Graph, tps: seq<Node>) returns (r: Verdict)
    ensures r == Accepted <==> Clean(g, tps, 0) && |tps| == |g|
    ensures r == LengthMismatch <==> Clean(g, tps, 0) && |tps| != |g|
    ensures r.BackwardEdge? ==> exists i, j :: FirstFault(g, tps, i, j) && r.u == tps[i] && r.v == tps[j]
    ensures r.KeyError? ==> exists i :: 1 <= i < |tps| && Clean(g, tps, i + 1) && tps[i] == r.key && r.key !in g
  {
    var i := |tps|;
    while i > 0
      invariant 0 <= i <= |tps|
      invariant Clean(g, tps, i)
    {
      i := i - 1;
      var j := 0;
      while j < i
        invariant 0 <= j <= i
        invariant j > 0 ==> tps[i] in g
        invariant forall k :: 0 <= k < j ==> tps[i] in g && tps[k] !in g[tps[i]]
      {
        if tps[i] !in g {
          return KeyError(tps[i]);
        }
        if tps[j] in g[tps[i]] {
          assert FirstFault(g, tps, i, j);
          return BackwardEdge(tps[i], tps[j]);
        }
        j := j + 1;
      }
    }
    if |g| != |tps| {
      return LengthMismatch;
    }
    return Accepted;
  }

  /**
   * A checker that accepts exactly the topological orders: every listed
   * node is a key, none is listed twice, none has an edge to itself or to a
   * node listed before it, and every key is listed.
   */
  method CheckTopoOrder(g: Graph, tps: seq<Node>) returns (ok: bool)
    ensures ok <==> IsTopoOrder(g, tps)
  {
    var i := |tps|;
    while i > 0
      invariant 0 <= i <= |tps|
      invariant forall r, j :: i <= r < |tps| && 0 <= j <= r ==>
        tps[r] in g && tps[j] !in g[tps[r]] && (j < r ==> tps[j] != tps[r])
    {
      i := i - 1;
      if tps[i] !in g {
        return false;
      }
      var j := 0;
      while j <= i
        invariant 0 <= j <= i + 1
        invariant forall k :: 0 <= k < j ==> tps[k] !in g[tps[i]] && (k < i ==> tps[k] != tps[i])
      {
        if tps[j] in g[tps[i]] || (j < i && tps[j] == tps[i]) {
          return false;
        }
        j := j + 1;
      }
    }
    ListedKeys(g, tps);
    ok := |tps| == |g|;
  }

  /** Distinct listed keys cover the key set exactly when there are as many of them as keys. */
  lemma ListedKeys(g: Graph, tps: seq<Node>)
    requires Distinct(tps) && forall k :: 0 <= k < |tps| ==> tps[k] in g
    ensures |tps| == |g| <==> forall v :: v in g ==> v in tps
  {
    forall v | v in tps
      ensures v in g.Keys
    {
      var k := IndexOf(tps, v);
    }
    DistinctCard(tps);
    SubsetCard((set v | v in tps), g.Keys);
    if forall v :: v in g ==> v in tps {
      SubsetCard(g.Keys, (set v | v in tps));
    }
  }

  /**
   * What check_TPS leaves unchecked: a list is a topological order exactly
   * when check_TPS accepts it, no node is listed twice, and every listed
   * node (the first one included) is a key without a self-loop.
   */
  lemma AcceptedGap(g: Graph, tps: seq<Node>)
    ensures IsTopoOrder(g, tps) <==>
      Clean(g, tps, 0) && |tps| == |g| && Distinct(tps) &&
      forall k :: 0 <= k < |tps| ==> tps[k] in g && tps[k] !in g[tps[k]]
  {
    if IsTopoOrder(g, tps) {
      forall k | 0 <= k < |tps|
        ensures tps[k] in g
      {
        var v := tps[k];
        assert v in tps;
      }
      ListedKeys(g, tps);
    }
    if Clean(g, tps, 0) && |tps| == |g| && Distinct(tps) &&
       forall k :: 0 <= k < |tps| ==> tps[k] in g && tps[k] !in g[tps[k]] {
      ListedKeys(g, tps);
      forall v | v in tps
        ensures v in g
      {
        var k := IndexOf(tps, v);
      }
    }
  }

  /** A topological order passes check_TPS; in particular, so does Kahn's output on an acyclic graph. */
  lemma TopoOrderAccepted(g: Graph, tps: seq<Node>)
    requires IsTopoOrder(g, tps)
    ensures Clean(g, tps, 0) && |tps| == |g|
  {
    AcceptedGap(g, tps);
  }

  /** check_TPS accepts a node listed twice in place of another: [0, 0] over the keys 0 and 1. */
  lemma DuplicateAccepted()
    ensures var g := map[0 := [], 1 := []];
      Clean(g, [0, 0], 0) && |[0, 0]| == |g| && !IsTopoOrder(g, [0, 0])
  {
    var g: Graph := map[0 := [], 1 := []];
    assert g.Keys == {0, 1};
    assert 1 in g && 1 !in [0, 0];
  }

  /** check_TPS never looks up the first listed node: [5] over the single key 0 passes. */
  lemma ForeignFirstAccepted()
    ensures var g := map[0 := []];
      Clean(g, [5], 0) && |[5]| == |g| && !IsTopoOrder(g, [5])
  {
    var g: Graph := map[0 := []];
    assert g.Keys == {0};
    assert 5 in [5] && 5 !in g;
  }

  /** check_TPS never compares a node with itself: a self-loop passes although the graph has a cycle. */
  lemma SelfLoopAccepted()
    ensures var g := map[0 := [0]];
      Clean(g, [0], 0) && |[0]| == |g| && !IsTopoOrder(g, [0]) && !Acyclic(g)
  {
    var g: Graph := map[0 := [0]];
    assert g.Keys == {0};
    assert [0][0] in g[[0][0]];
    SelfLoopIsCyclic(g, 0);
  }

  /**
   * contains_sink_node: the conjunction, over the keys in dict order, of
   * "this node has an out-edge". It is true exactly when every node has an
   * out-edge, that is, when the graph has no sink.
   */
  function ContainsSinkNode(g: Graph, keys: seq<Node>): (r: bool)
    requires forall k :: k in keys ==> k in g
    ensures r <==> forall k :: k in keys ==> g[k] != []
  {
    if keys == [] then true
    else
      var k := keys[0];
      assert k in keys && keys == [k] + keys[1..];
      g[k] != [] && ContainsSinkNode(g, keys[1..])
  }

  /** contains_sink_node answers False exactly when some node has no out-edge. */
  lemma SinkNodeAnswer(g: Graph, keys: seq<Node>)
    requires Enumerates(keys, g)
    ensures !ContainsSinkNode(g, keys) <==> exists v :: v in g && g[v] == []
  {
    if !ContainsSinkNode(g, keys) {
      var k :| k in keys && g[k] == [];
      assert k in g;
    }
  }

  /** On a nonempty acyclic graph contains_sink_node answers False: such a graph has a sink. */
  lemma SinkNodeOnAcyclic(g: Graph, keys: seq<Node>)
    requires Closed(g) && Enumerates(keys, g) && Acyclic(g) && g != map[]
    ensures !ContainsSinkNode(g, keys)
  {
    var v := SinkExists(g);
    SinkNodeAnswer(g, keys);
  }
}
