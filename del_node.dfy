/**
 * del_node of graph.py: remove a node from the out-edge graph, using the
 * in-edge graph to find the lists that mention it. The node's own entry is
 * popped first; then, for each entry of the node's in-edge list, one
 * occurrence of the node is removed from that predecessor's out-list. The
 * in-edge graph is only read. Python raises KeyError for a missing key and
 * ValueError when a list does not contain the node; the changes made before
 * the error stay.
 */
module NodeDeletion {
  import opened GraphModel

  datatype DelError = KeyError(key: Node) | ValueError(owner: Node)

  datatype DelOutcome = Done | Raised(error: DelError)

  /** The out-edge graph as del_node leaves it, and how the call ended. */
  datatype Deletion = Deletion(after: Graph, outcome: DelOutcome)

  /** list.remove: drop the first occurrence of `x`, keeping the rest in order. */
  function RemoveFirst(s: seq<Node>, x: Node): (r: seq<Node>)
    requires x in s
    ensures |r| == |s| - 1
    ensures multiset(r) == multiset(s) - multiset{x}
    ensures forall k :: 0 <= k < IndexOf(s, x) ==> r[k] == s[k]
    ensures forall k :: IndexOf(s, x) <= k < |r| ==> r[k] == s[k + 1]
  {
    var i := IndexOf(s, x);
    DropAt(s, i, s[..i] + s[i + 1..]);
    s[..i] + s[i + 1..]
  }

  /** Dropping position `i` shortens the list by one, removes one copy of its element and shifts the tail. */
  lemma DropAt(s: seq<Node>, i: nat, r: seq<Node>)
    requires i < |s| && r == s[..i] + s[i + 1..]
    ensures |r| == |s| - 1
    ensures multiset(r) == multiset(s) - multiset{s[i]}
    ensures forall k :: 0 <= k < i ==> r[k] == s[k]
    ensures forall k :: i <= k < |r| ==> r[k] == s[k + 1]
  {
    assert s == s[..i] + [s[i]] + s[i + 1..];
  }

  /** The loop of del_node from the predecessor list `preds` onwards, on the graph `g` it has reached. */
  function RemoveEach(g: Graph, preds: seq<Node>, node: Node): Deletion
    decreases |preds|
  {
    if preds == [] then Deletion(g, Done)
    else
      var q := preds[0];
      if q !in g then Deletion(g, Raised(KeyError(q)))
      else if node !in g[q] then Deletion(g, Raised(ValueError(q)))
      else RemoveEach(g[q := RemoveFirst(g[q], node)], preds[1..], node)
  }

  /** del_node(out_graph, in_graph, node) as a function of the two graphs it is given. */
  function DelNodeSpec(out: Graph, inG: Graph, node: Node): Deletion
  {
    if node !in out then Deletion(out, Raised(KeyError(node)))
    else if node !in inG then Deletion(out - {node}, Raised(KeyError(node)))
    else RemoveEach(out - {node}, inG[node], node)
  }

  /**
   * del_node. A node that is not a key of the out-edge graph leaves it
   * unchanged; a node that is not a key of the in-edge graph is still
   * removed from the out-edge graph before the KeyError.
   */
  method DelNode(out: Graph, inG: Graph, node: Node) returns (after: Graph, outcome: DelOutcome)
    ensures Deletion(after, outcome) == DelNodeSpec(out, inG, node)
    ensures node !in out ==> after == out && outcome == Raised(KeyError(node))
    ensures node in out && node !in inG ==> after == out - {node} && outcome == Raised(KeyError(node))
    ensures node !in after
  {
    if node !in out {
      return out, Raised(KeyError(node));
    }
    after := out - {node};
    if node !in inG {
      return after, Raised(KeyError(node));
    }
    var preds := inG[node];
    for k := 0 to |preds|
      invariant RemoveEach(after, preds[k..], node) == RemoveEach(out - {node}, preds, node)
      invariant node !in after
    {
      assert preds[k..][1..] == preds[k + 1..];
      var q := preds[k];
      if q !in after {
        return after, Raised(KeyError(q));
      }
      if node !in after[q] {
        return after, Raised(ValueError(q));
      }
      after := after[q := RemoveFirst(after[q], node)];
    }
    assert preds[|preds|..] == [];
    outcome := Done;
  }

  /**
   * The loop succeeds exactly when every predecessor is a key whose list
   * holds the node at least as often as the predecessor is listed.
   */
  lemma {:induction false} RemoveEachDone(g: Graph, preds: seq<Node>, node: Node)
    ensures RemoveEach(g, preds, node).outcome == Done <==>
      forall q :: q in preds ==> q in g && multiset(g[q])[node] >= multiset(preds)[q]
  {
    if preds != [] {
      var q0 := preds[0];
      var rest := preds[1..];
      assert preds == [q0] + rest;
      assert multiset(preds) == multiset{q0} + multiset(rest);
      if q0 in g && node in g[q0] {
        var g' := g[q0 := RemoveFirst(g[q0], node)];
        RemoveEachDone(g', rest, node);
        assert multiset(g'[q0])[node] == multiset(g[q0])[node] - 1;
        forall q | q in preds
          ensures (q in g && multiset(g[q])[node] >= multiset(preds)[q]) <==>
                  (q in rest ==> q in g' && multiset(g'[q])[node] >= multiset(rest)[q])
        {
          if q == q0 {
            assert multiset(g[q0])[node] >= 1;
          }
        }
        assert (forall q :: q in preds ==> q in g && multiset(g[q])[node] >= multiset(preds)[q]) <==>
               (forall q :: q in rest ==> q in g' && multiset(g'[q])[node] >= multiset(rest)[q]);
      } else if q0 in g {
        assert multiset(g[q0])[node] == 0;
      }
    }
  }

  /** Removing one occurrence of the node from the list of `q0` changes no other list and no key. */
  lemma RemoveOne(g: Graph, q0: Node, node: Node, q: Node)
    requires q0 in g && node in g[q0] && q in g
    ensures var g' := g[q0 := RemoveFirst(g[q0], node)];
      g'.Keys == g.Keys &&
      multiset(g'[q]) + (if q == q0 then multiset{node} else multiset{}) == multiset(g[q])
  {
  }

  /**
   * After a successful loop every predecessor's list has lost one
   * occurrence of the node per listing, and lists of nodes not listed as
   * predecessors are untouched.
   */
  lemma RemoveEachEffect(g: Graph, preds: seq<Node>, node: Node)
    requires RemoveEach(g, preds, node).outcome == Done
    ensures RemoveEach(g, preds, node).after.Keys == g.Keys
    ensures forall q :: q in g ==>
      multiset(RemoveEach(g, preds, node).after[q]) + multiset{}[node := multiset(preds)[q]] == multiset(g[q])
    ensures forall q :: q in g && q !in preds ==> RemoveEach(g, preds, node).after[q] == g[q]
  {
    forall q | q in g
      ensures q in RemoveEach(g, preds, node).after
      ensures multiset(RemoveEach(g, preds, node).after[q]) + multiset{}[node := multiset(preds)[q]] == multiset(g[q])
      ensures q !in preds ==> RemoveEach(g, preds, node).after[q] == g[q]
    {
      RemoveEachAt(g, preds, node, q);
      if q !in preds {
        RemoveEachUntouched(g, preds, node, q);
      }
    }
    RemoveEachKeys(g, preds, node);
  }

  lemma {:induction false} RemoveEachKeys(g: Graph, preds: seq<Node>, node: Node)
    ensures RemoveEach(g, preds, node).after.Keys == g.Keys
  {
    if preds != [] && preds[0] in g && node in g[preds[0]] {
      RemoveEachKeys(g[preds[0] := RemoveFirst(g[preds[0]], node)], preds[1..], node);
    }
  }

  /** The effect of a successful loop on the list of one key `q`. */
  lemma {:induction false} RemoveEachAt(g: Graph, preds: seq<Node>, node: Node, q: Node)
    requires RemoveEach(g, preds, node).outcome == Done && q in g
    ensures q in RemoveEach(g, preds, node).after
    ensures multiset(RemoveEach(g, preds, node).after[q]) + multiset{}[node := multiset(preds)[q]] == multiset(g[q])
  {
    RemoveEachKeys(g, preds, node);
    if preds == [] {
      assert multiset{}[node := 0] == multiset{};
    } else {
      var q0 := preds[0];
      var rest := preds[1..];
      var g' := g[q0 := RemoveFirst(g[q0], node)];
      RemoveOne(g, q0, node, q);
      RemoveEachAt(g', rest, node, q);
      RemoveEachCountStep(preds, q, node);
      RemoveEachKeys(g', rest, node);
    }
  }

  lemma RemoveEachCountStep(preds: seq<Node>, q: Node, node: Node)
    requires preds != []
    ensures multiset{}[node := multiset(preds)[q]] ==
      multiset{}[node := multiset(preds[1..])[q]] + (if q == preds[0] then multiset{node} else multiset{})
  {
    assert preds == [preds[0]] + preds[1..];
    assert multiset(preds) == multiset{preds[0]} + multiset(preds[1..]);
  }

  /** A successful loop leaves the list of a key that is not a listed predecessor as it was. */
  lemma {:induction false} RemoveEachUntouched(g: Graph, preds: seq<Node>, node: Node, q: Node)
    requires RemoveEach(g, preds, node).outcome == Done && q in g && q !in preds
    ensures q in RemoveEach(g, preds, node).after && RemoveEach(g, preds, node).after[q] == g[q]
  {
    RemoveEachKeys(g, preds, node);
    if preds != [] {
      var q0 := preds[0];
      assert q != q0;
      assert q !in preds[1..];
      RemoveEachUntouched(g[q0 := RemoveFirst(g[q0], node)], preds[1..], node, q);
    }
  }

  /**
   * del_node succeeds exactly when the node is a key of both graphs and
   * each of its in-edge entries names another key whose out-list holds the
   * node at least as often as that entry is repeated.
   */
  lemma DelNodeSucceeds(out: Graph, inG: Graph, node: Node)
    ensures DelNodeSpec(out, inG, node).outcome == Done <==>
      node in out && node in inG &&
      forall q :: q in inG[node] ==> q != node && q in out && multiset(out[q])[node] >= multiset(inG[node])[q]
  {
    if node in out && node in inG {
      RemoveEachDone(out - {node}, inG[node], node);
    }
  }

  /**
   * A successful del_node drops the node's key, removes one occurrence of
   * the node from a predecessor's list per in-edge entry, and leaves every
   * other list as it was.
   */
  lemma DelNodeEffect(out: Graph, inG: Graph, node: Node)
    requires DelNodeSpec(out, inG, node).outcome == Done
    ensures DelNodeSpec(out, inG, node).after.Keys == out.Keys - {node}
    ensures forall q :: q in out && q != node ==>
      multiset(DelNodeSpec(out, inG, node).after[q]) + multiset{}[node := multiset(inG[node])[q]] == multiset(out[q])
    ensures forall q :: q in out && q != node && q !in inG[node] ==> DelNodeSpec(out, inG, node).after[q] == out[q]
  {
    RemoveEachEffect(out - {node}, inG[node], node);
  }

  /** A node with a self-loop listed in its in-edge list makes del_node fail: its own key is already gone. */
  lemma SelfLoopFails(out: Graph, inG: Graph, node: Node)
    requires node in inG && node in inG[node]
    ensures DelNodeSpec(out, inG, node).outcome != Done
  {
    DelNodeSucceeds(out, inG, node);
  }

  /**
   * On the two graphs read_double_graph builds from an edge list, del_node
   * succeeds exactly when the node occurs in some edge and is not the
   * endpoint of a self-loop.
   */
  lemma DualDelete(edges: seq<Edge>, node: Node)
    ensures DelNodeSpec(Build(edges), Build(Swap(edges)), node).outcome == Done <==>
      node in Build(edges) && (node, node) !in edges
  {
    var out, inG := Build(edges), Build(Swap(edges));
    DualGraph(edges);
    BuildClosed(Swap(edges));
    BuildEdges(edges);
    DelNodeSucceeds(out, inG, node);
    if node in out {
      forall q | q in inG[node]
        ensures q in out && multiset(out[q])[node] >= multiset(inG[node])[q]
      {
        assert q in inG;
      }
      assert node in inG[node] <==> multiset(inG[node])[node] > 0;
      assert node in out[node] <==> multiset(out[node])[node] > 0;
    }
  }
}
