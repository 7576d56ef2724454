/**
 * Kahn's topological sort as compute_tps of src.py runs it: an in-degree
 * table, a deque of nodes whose in-degree is zero, and the list `tps` of
 * emitted nodes. The deque receives nodes with appendleft and gives them up
 * with pop, so it is first-in first-out; here it is a sequence listed from
 * its pop end, so appendleft appends and pop takes the head.
 */
module TopoSort {
  import opened GraphModel
  import opened InDegrees
  import opened Acyclicity

  /**
   * The step at which `v` became ready: the position in `tps` of the last
   * emitted node with an edge to `v`, or -1 when no emitted node has one.
   */
  function ReadyAt(g: Graph, tps: seq<Node>, v: Node): (r: int)
    requires forall k :: 0 <= k < |tps| ==> tps[k] in g
    ensures -1 <= r < |tps|
    ensures r >= 0 ==> v in g[tps[r]] && forall k :: r < k < |tps| ==> v !in g[tps[k]]
    ensures r == -1 ==> forall k :: 0 <= k < |tps| ==> v !in g[tps[k]]
  {
    if tps == [] then -1
    else if v in g[tps[|tps| - 1]] then |tps| - 1
    else ReadyAt(g, tps[..|tps| - 1], v)
  }

  /** The position of the last occurrence of `v` in `s`, or -1 when `v` does not occur. */
  function LastIndex(s: seq<Node>, v: Node): (r: int)
    ensures -1 <= r < |s|
    ensures r >= 0 ==> s[r] == v && forall k :: r < k < |s| ==> s[k] != v
    ensures r == -1 ==> v !in s
  {
    if s == [] then -1
    else if s[|s| - 1] == v then |s| - 1
    else LastIndex(s[..|s| - 1], v)
  }

  /** An occurrence of `v` with none after it is the last one. */
  lemma LastIndexAt(s: seq<Node>, p: nat, v: Node)
    requires p < |s| && s[p] == v && v !in s[p + 1..]
    ensures LastIndex(s, v) == p
  {
  }

  /** The nodes of `ks` with in-degree zero, in order: the deque compute_tps starts from. */
  function ZeroInDegree(g: Graph, keys: seq<Node>, ks: seq<Node>): seq<Node>
    requires forall k :: k in keys ==> k in g
  {
    if ks == [] then []
    else
      var last := ks[|ks| - 1];
      ZeroInDegree(g, keys, ks[..|ks| - 1]) + (if InDegree(g, keys, last) == 0 then [last] else [])
  }

  lemma {:induction false} ZeroInDegreeShape(g: Graph, keys: seq<Node>, ks: seq<Node>)
    requires forall k :: k in keys ==> k in g
    requires Distinct(ks)
    ensures Distinct(ZeroInDegree(g, keys, ks))
    ensures forall v :: v in ZeroInDegree(g, keys, ks) <==> v in ks && InDegree(g, keys, v) == 0
  {
    if ks != [] {
      ZeroInDegreeShape(g, keys, ks[..|ks| - 1]);
    }
  }

  /**
   * The bookkeeping of Kahn's loop. `left` holds the keys not yet emitted;
   * everything emitted or queued is a key, and nothing is emitted or queued
   * twice.
   */
  ghost predicate Shape(g: Graph, keys: seq<Node>, left: set<Node>, tps: seq<Node>, q: seq<Node>)
  {
    && Closed(g) && Enumerates(keys, g)
    && (forall v :: v in left <==> v in g && v !in tps)
    && (forall k :: 0 <= k < |tps| ==> tps[k] in g)
    && (forall k :: 0 <= k < |q| ==> q[k] in g)
    && Distinct(tps + q)
  }

  /**
   * Every in-degree counts the edges into the node from keys not yet
   * emitted, plus the ones in `pending`: the out-neighbours of the last
   * emitted node that are still to be visited.
   */
  ghost predicate Counts(g: Graph, keys: seq<Node>, left: set<Node>, inDeg: map<Node, int>, pending: seq<Node>)
  {
    && Enumerates(keys, g)
    && inDeg.Keys == g.Keys
    && forall v :: v in g ==> inDeg[v] == CountFrom(g, keys, left, v) + multiset(pending)[v]
  }

  /** A key has in-degree zero exactly when it has been queued or emitted. */
  ghost predicate Zeroes(g: Graph, inDeg: map<Node, int>, tps: seq<Node>, q: seq<Node>)
  {
    inDeg.Keys == g.Keys && forall v :: v in g ==> (v in tps + q <==> inDeg[v] == 0)
  }

  /** Every emitted node comes after all of its predecessors. */
  ghost predicate Respects(g: Graph, tps: seq<Node>)
  {
    forall j, u :: 0 <= j < |tps| && u in g && tps[j] in g[u] ==> u in tps[..j]
  }

  /** Emitted and queued nodes are ordered by the step at which they became ready. */
  ghost predicate Fifo(g: Graph, tps: seq<Node>, q: seq<Node>)
  {
    (forall k :: 0 <= k < |tps| ==> tps[k] in g) &&
    forall i, j :: 0 <= i < j < |tps + q| ==> ReadyAt(g, tps, (tps + q)[i]) <= ReadyAt(g, tps, (tps + q)[j])
  }

  /**
   * Nodes readied by the same pop are ordered by the place where their
   * in-degree reached zero: their last occurrence in the popped node's list.
   * While that list is being visited, `pending` is its unvisited tail, and
   * every node the current pop has readied occurs for the last time before it.
   */
  ghost predicate Ties(g: Graph, tps: seq<Node>, q: seq<Node>, pending: seq<Node>)
  {
    (forall k :: 0 <= k < |tps| ==> tps[k] in g) &&
    (forall r, i, j {:trigger LastIndex(g[tps[r]], (tps + q)[i]), LastIndex(g[tps[r]], (tps + q)[j])} ::
       0 <= r < |tps| && 0 <= i < j < |tps + q| && ReadyAt(g, tps, (tps + q)[i]) == r && ReadyAt(g, tps, (tps + q)[j]) == r
       ==> LastIndex(g[tps[r]], (tps + q)[i]) < LastIndex(g[tps[r]], (tps + q)[j])) &&
    (tps != [] ==> Visiting(g[tps[|tps| - 1]], g, tps, q, pending))
  }

  /** `pending` is the tail of `xs` still to visit, and the nodes readied from `xs` so far occur last before it. */
  ghost predicate Visiting(xs: seq<Node>, g: Graph, tps: seq<Node>, q: seq<Node>, pending: seq<Node>)
    requires tps != [] && forall k :: 0 <= k < |tps| ==> tps[k] in g
  {
    |pending| <= |xs| && pending == xs[|xs| - |pending|..] &&
    forall k :: 0 <= k < |tps + q| && ReadyAt(g, tps, (tps + q)[k]) == |tps| - 1 ==>
      LastIndex(xs, (tps + q)[k]) < |xs| - |pending|
  }

  /** The invariant of Kahn's loop. */
  ghost predicate KahnState(g: Graph, keys: seq<Node>, left: set<Node>, inDeg: map<Node, int>,
                            tps: seq<Node>, q: seq<Node>, pending: seq<Node>)
  {
    Shape(g, keys, left, tps, q) && Counts(g, keys, left, inDeg, pending) &&
    Zeroes(g, inDeg, tps, q) && Respects(g, tps) && Fifo(g, tps, q)
  }

  /** A node whose in-degree from `left` is zero has all its predecessors outside `left`. */
  lemma PredecessorsOutside(g: Graph, keys: seq<Node>, left: set<Node>, v: Node)
    requires Enumerates(keys, g)
    requires CountFrom(g, keys, left, v) == 0
    ensures forall u :: u in g && v in g[u] ==> u !in left
  {
    CountFromZero(g, keys, left, v);
    forall u | u in g && v in g[u]
      ensures u !in left
    {
      assert u in keys;
    }
  }

  /** Between two visits of the inner loop, a queued or emitted node has no predecessor left. */
  lemma Waiting(g: Graph, keys: seq<Node>, left: set<Node>, inDeg: map<Node, int>,
                tps: seq<Node>, q: seq<Node>, w: Node)
    requires Counts(g, keys, left, inDeg, []) && Zeroes(g, inDeg, tps, q)
    requires w in g && w in tps + q
    ensures forall u :: u in g && w in g[u] ==> u !in left
  {
    var none: seq<Node> := [];
    assert multiset(none) == multiset{};
    assert inDeg[w] == 0;
    PredecessorsOutside(g, keys, left, w);
  }

  /** The state right after the in-degree table and the initial deque are built. */
  lemma InitialState(g: Graph, keys: seq<Node>, inDeg: map<Node, int>, q: seq<Node>)
    requires Closed(g) && Enumerates(keys, g)
    requires inDeg.Keys == g.Keys && forall v :: v in g ==> inDeg[v] == InDegree(g, keys, v)
    requires q == ZeroInDegree(g, keys, keys)
    ensures KahnState(g, keys, g.Keys, inDeg, [], q, [])
    ensures Ties(g, [], q, [])
  {
    ZeroInDegreeShape(g, keys, keys);
    assert [] + q == q;
    var none: seq<Node> := [];
    assert multiset(none) == multiset{};
    forall k | 0 <= k < |q|
      ensures q[k] in g
    {
      var v := q[k];
      assert v in q;
    }
    forall i, j | 0 <= i < j < |q|
      ensures ReadyAt(g, [], q[i]) <= ReadyAt(g, [], q[j])
    {
    }
  }

  /** pop: the head of the deque is emitted; its out-edges become pending. */
  lemma PopStep(g: Graph, keys: seq<Node>, left: set<Node>, left': set<Node>, inDeg: map<Node, int>,
                tps: seq<Node>, tps': seq<Node>, q: seq<Node>, q': seq<Node>)
    requires KahnState(g, keys, left, inDeg, tps, q, []) && q != []
    requires tps' == tps + [q[0]] && q' == q[1..] && left' == left - {q[0]}
    ensures q[0] in left && q[0] in g
    ensures tps' + q' == tps + q
    ensures KahnState(g, keys, left', inDeg, tps', q', g[q[0]])
    ensures forall k :: 0 <= k < |tps + q| ==> (tps + q)[k] !in g[q[0]]
  {
    var x := q[0];
    PopShape(g, keys, left, tps, q);
    PopCounts(g, keys, left, inDeg, x);
    Waiting(g, keys, left, inDeg, tps, q, x);
    forall u | u in g && x in g[u]
      ensures u in tps
    {
    }
    PopRespects(g, tps, x);
    forall k | 0 <= k < |tps + q|
      ensures (tps + q)[k] !in g[x]
    {
      var w := (tps + q)[k];
      assert w in tps + q;
      assert w in g by {
        if k < |tps| {
          assert w == tps[k];
        } else {
          assert w == q[k - |tps|];
        }
      }
      Waiting(g, keys, left, inDeg, tps, q, w);
    }
    PopFifo(g, tps, q);
  }

  lemma PopShape(g: Graph, keys: seq<Node>, left: set<Node>, tps: seq<Node>, q: seq<Node>)
    requires Shape(g, keys, left, tps, q) && q != []
    ensures q[0] in g && q[0] in left
    ensures (tps + [q[0]]) + q[1..] == tps + q
    ensures Shape(g, keys, left - {q[0]}, tps + [q[0]], q[1..])
  {
    var x := q[0];
    assert (tps + [x]) + q[1..] == tps + q;
    assert (tps + q)[|tps|] == x;
    assert x !in tps by {
      NotBefore(tps + q, |tps|);
      assert (tps + q)[..|tps|] == tps;
    }
  }

  lemma PopCounts(g: Graph, keys: seq<Node>, left: set<Node>, inDeg: map<Node, int>, x: Node)
    requires Counts(g, keys, left, inDeg, []) && x in left && x in g
    ensures Counts(g, keys, left - {x}, inDeg, g[x])
  {
    var none: seq<Node> := [];
    assert multiset(none) == multiset{};
    forall v | v in g
      ensures inDeg[v] == CountFrom(g, keys, left - {x}, v) + multiset(g[x])[v]
    {
      assert x in keys;
      CountFromRemove(g, keys, left, x, v);
    }
  }

  lemma PopRespects(g: Graph, tps: seq<Node>, x: Node)
    requires Respects(g, tps)
    requires forall u :: u in g && x in g[u] ==> u in tps
    ensures Respects(g, tps + [x])
  {
    var tps' := tps + [x];
    forall j, u | 0 <= j < |tps'| && u in g && tps'[j] in g[u]
      ensures u in tps'[..j]
    {
      if j < |tps| {
        assert tps'[..j] == tps[..j];
      } else {
        assert tps'[..j] == tps;
      }
    }
  }

  lemma PopFifo(g: Graph, tps: seq<Node>, q: seq<Node>)
    requires Fifo(g, tps, q) && q != [] && q[0] in g
    requires forall k :: 0 <= k < |tps + q| ==> (tps + q)[k] !in g[q[0]]
    ensures Fifo(g, tps + [q[0]], q[1..])
  {
    var x := q[0];
    assert (tps + [x]) + q[1..] == tps + q;
    forall k | 0 <= k < |tps + q|
      ensures ReadyAt(g, tps + [x], (tps + q)[k]) == ReadyAt(g, tps, (tps + q)[k])
    {
      ReadyAtExtend(g, tps, x, (tps + q)[k]);
    }
  }

  lemma PopTies(g: Graph, tps: seq<Node>, q: seq<Node>)
    requires Ties(g, tps, q, []) && q != [] && q[0] in g
    requires forall k :: 0 <= k < |tps + q| ==> (tps + q)[k] !in g[q[0]]
    ensures Ties(g, tps + [q[0]], q[1..], g[q[0]])
  {
    var x := q[0];
    var tps' := tps + [x];
    assert tps' + q[1..] == tps + q;
    forall k | 0 <= k < |tps + q|
      ensures ReadyAt(g, tps', (tps + q)[k]) == ReadyAt(g, tps, (tps + q)[k])
    {
      ReadyAtExtend(g, tps, x, (tps + q)[k]);
    }
    assert forall r :: 0 <= r < |tps| ==> tps'[r] == tps[r];
    assert g[x][|g[x]| - |g[x]|..] == g[x];
  }

  /** Emitting a node that has no edge to `w` leaves the step at which `w` became ready alone. */
  lemma ReadyAtExtend(g: Graph, tps: seq<Node>, x: Node, w: Node)
    requires forall k :: 0 <= k < |tps| ==> tps[k] in g
    requires x in g && w !in g[x]
    ensures forall k :: 0 <= k < |tps + [x]| ==> (tps + [x])[k] in g
    ensures ReadyAt(g, tps + [x], w) == ReadyAt(g, tps, w)
  {
    assert (tps + [x])[..|tps|] == tps;
  }

  /** A node at position `k` of a distinct sequence does not occur before `k`. */
  lemma NotBefore(s: seq<Node>, k: nat)
    requires Distinct(s) && k < |s|
    ensures s[k] !in s[..k]
  {
  }

  /**
   * One visit of the inner loop: the in-degree of the next pending neighbour
   * drops by one, and it is appended to the deque when it reaches zero.
   */
  lemma RelaxStep(g: Graph, keys: seq<Node>, left: set<Node>, inDeg: map<Node, int>, inDeg': map<Node, int>,
                  tps: seq<Node>, q: seq<Node>, q': seq<Node>, pending: seq<Node>)
    requires KahnState(g, keys, left, inDeg, tps, q, pending)
    requires pending != [] && tps != []
    requires forall k :: 0 <= k < |pending| ==> pending[k] in g[tps[|tps| - 1]]
    requires pending[0] in inDeg && inDeg' == inDeg[pending[0] := inDeg[pending[0]] - 1]
    requires q' == if inDeg'[pending[0]] == 0 then q + [pending[0]] else q
    ensures KahnState(g, keys, left, inDeg', tps, q', pending[1..])
    ensures q' != q ==> q' == q + [pending[0]] && pending[0] !in pending[1..]
  {
    var d := pending[0];
    var x := tps[|tps| - 1];
    assert x in g && d in g[x];
    assert d in g;
    RelaxCounts(g, keys, left, inDeg, pending);
    RelaxZeroes(g, inDeg, tps, q, d);
    if inDeg'[d] == 0 {
      RelaxShape(g, keys, left, tps, q, d);
      RelaxFifo(g, tps, q, d);
      assert multiset(pending[1..])[d] == 0;
    }
  }

  lemma RelaxCounts(g: Graph, keys: seq<Node>, left: set<Node>, inDeg: map<Node, int>, pending: seq<Node>)
    requires Counts(g, keys, left, inDeg, pending) && pending != [] && pending[0] in g
    ensures inDeg[pending[0]] >= 1
    ensures Counts(g, keys, left, inDeg[pending[0] := inDeg[pending[0]] - 1], pending[1..])
  {
    var d := pending[0];
    assert pending == [d] + pending[1..];
    assert multiset(pending) == multiset{d} + multiset(pending[1..]);
  }

  lemma RelaxZeroes(g: Graph, inDeg: map<Node, int>, tps: seq<Node>, q: seq<Node>, d: Node)
    requires Zeroes(g, inDeg, tps, q) && d in g && inDeg[d] >= 1
    ensures d !in tps + q
    ensures var inDeg' := inDeg[d := inDeg[d] - 1];
      Zeroes(g, inDeg', tps, if inDeg'[d] == 0 then q + [d] else q)
  {
    var inDeg' := inDeg[d := inDeg[d] - 1];
    if inDeg'[d] == 0 {
      assert tps + (q + [d]) == (tps + q) + [d];
    }
  }

  lemma RelaxShape(g: Graph, keys: seq<Node>, left: set<Node>, tps: seq<Node>, q: seq<Node>, d: Node)
    requires Shape(g, keys, left, tps, q) && d in g && d !in tps + q
    ensures Shape(g, keys, left, tps, q + [d])
  {
    assert tps + (q + [d]) == (tps + q) + [d];
  }

  lemma RelaxFifo(g: Graph, tps: seq<Node>, q: seq<Node>, d: Node)
    requires Fifo(g, tps, q) && tps != [] && d in g[tps[|tps| - 1]]
    ensures Fifo(g, tps, q + [d])
  {
    assert tps + (q + [d]) == (tps + q) + [d];
    assert ReadyAt(g, tps, d) == |tps| - 1;
  }

  /**
   * Visiting the next pending neighbour moves the boundary of the visited
   * part by one; a neighbour that joins the deque has its last occurrence
   * there.
   */
  lemma RelaxTies(g: Graph, tps: seq<Node>, q: seq<Node>, q': seq<Node>, pending: seq<Node>)
    requires Ties(g, tps, q, pending) && tps != [] && pending != []
    requires q' == q || (q' == q + [pending[0]] && pending[0] !in pending[1..])
    ensures Ties(g, tps, q', pending[1..])
  {
    var xs := g[tps[|tps| - 1]];
    var p := |xs| - |pending|;
    assert xs[p] == pending[0];
    assert pending[1..] == xs[p + 1..];
    if q' != q {
      var d := pending[0];
      assert ReadyAt(g, tps, d) == |tps| - 1;
      LastIndexAt(xs, p, d);
      assert tps + q' == (tps + q) + [d];
    }
  }

  /**
   * Kahn's algorithm as compute_tps runs it. The result lists distinct keys;
   * a node is emitted only after every node with an edge to it; all keys are
   * emitted exactly when the graph is acyclic, otherwise fewer; the nodes of
   * in-degree zero come first, in key order; and nodes are emitted in the
   * order in which they became ready (first in, first out): by the pop that
   * readied them, and within one pop by where their count reached zero.
   */
  method TopologicalSort(g: Graph, keys: seq<Node>) returns (tps: seq<Node>)
    requires Closed(g) && Enumerates(keys, g)
    ensures Distinct(tps) && forall v :: v in tps ==> v in g
    ensures forall k :: 0 <= k < |tps| ==> tps[k] in g
    ensures |tps| <= |g|
    ensures forall j, u :: 0 <= j < |tps| && u in g && tps[j] in g[u] ==> u in tps[..j]
    ensures |tps| == |g| <==> Acyclic(g)
    ensures Acyclic(g) ==> IsTopoOrder(g, tps)
    ensures ZeroInDegree(g, keys, keys) <= tps
    ensures forall i, j :: 0 <= i < j < |tps| ==> ReadyAt(g, tps, tps[i]) <= ReadyAt(g, tps, tps[j])
    ensures forall r, i, j {:trigger LastIndex(g[tps[r]], tps[i]), LastIndex(g[tps[r]], tps[j])} ::
      0 <= r < |tps| && 0 <= i < j < |tps| && ReadyAt(g, tps, tps[i]) == r && ReadyAt(g, tps, tps[j]) == r ==>
      LastIndex(g[tps[r]], tps[i]) < LastIndex(g[tps[r]], tps[j])
    ensures |tps| < |g| ==> exists path :: IsCycle(g, path) && forall k :: 0 <= k < |path| ==> path[k] !in tps
    ensures forall v :: NotEmitted(g, tps, v) ==> exists u :: u in g && u !in tps && v in g[u]
    ensures Acyclic(g) <==> forall path :: !IsCycle(g, path)
  {
    var inDeg := ComputeInDegrees(g, keys);
    var q := InitialQueue(g, keys, inDeg);
    InitialState(g, keys, inDeg, q);
    ghost var left;
    tps, left, inDeg := Drain(g, keys, inDeg, q);
    Finish(g, keys, left, inDeg, tps, q);
    TiesDrained(g, tps);
  }

  /**
   * The main loop of compute_tps: while the deque is not empty, pop its head,
   * emit it and relax its out-edges. It ends with the deque empty and the
   * loop's invariant intact, having emitted the initial deque first.
   */
  method Drain(g: Graph, keys: seq<Node>, inDeg0: map<Node, int>, q0: seq<Node>)
    returns (tps: seq<Node>, ghost left: set<Node>, inDeg: map<Node, int>)
    requires KahnState(g, keys, g.Keys, inDeg0, [], q0, []) && Ties(g, [], q0, [])
    ensures KahnState(g, keys, left, inDeg, tps, [], []) && Ties(g, tps, [], [])
    ensures q0 <= tps
  {
    var q := q0;
    inDeg := inDeg0;
    tps := [];
    left := g.Keys;
    assert tps + q == q0;
    while q != []
      invariant KahnState(g, keys, left, inDeg, tps, q, [])
      invariant Ties(g, tps, q, [])
      invariant q0 <= tps + q
      decreases left
    {
      var x := q[0];
      ghost var tpsBefore, qBefore, leftBefore := tps, q, left;
      q := q[1..];
      tps := tps + [x];
      left := left - {x};
      PopStep(g, keys, leftBefore, left, inDeg, tpsBefore, tps, qBefore, q);
      PopTies(g, tpsBefore, qBefore);
      ghost var before := q;
      inDeg, q := Relax(g, keys, left, inDeg, tps, q, x);
      PrefixExtend(q0, tps, before, q);
    }
    assert tps + q == tps;
  }

  /** A prefix of `front + q0` stays a prefix when `q0` grows to `q`. */
  lemma PrefixExtend(initial: seq<Node>, front: seq<Node>, q0: seq<Node>, q: seq<Node>)
    requires initial <= front + q0 && q0 <= q
    ensures initial <= front + q
  {
    assert front + q0 == (front + q)[..|front + q0|];
  }

  /** The deque compute_tps starts from: the keys of in-degree zero, in key order. */
  method InitialQueue(g: Graph, keys: seq<Node>, inDeg: map<Node, int>) returns (q: seq<Node>)
    requires Enumerates(keys, g)
    requires inDeg.Keys == g.Keys && forall v :: v in g ==> inDeg[v] == InDegree(g, keys, v)
    ensures q == ZeroInDegree(g, keys, keys)
  {
    q := [];
    for i := 0 to |keys|
      invariant q == ZeroInDegree(g, keys, keys[..i])
    {
      assert keys[..i + 1][..i] == keys[..i];
      var c := keys[i];
      assert c in keys;
      if inDeg[c] == 0 {
        q := q + [c];
      }
    }
    assert keys[..|keys|] == keys;
  }

  /**
   * The inner loop of compute_tps: every out-neighbour of the node just
   * emitted loses one unit of in-degree, and joins the deque when that
   * reaches zero. Nodes already queued stay queued, in order.
   */
  method Relax(g: Graph, ghost keys: seq<Node>, ghost left: set<Node>, inDeg0: map<Node, int>,
               ghost tps: seq<Node>, q0: seq<Node>, x: Node)
    returns (inDeg: map<Node, int>, q: seq<Node>)
    requires tps != [] && tps[|tps| - 1] == x && x in g
    requires KahnState(g, keys, left, inDeg0, tps, q0, g[x]) && Ties(g, tps, q0, g[x])
    ensures KahnState(g, keys, left, inDeg, tps, q, []) && Ties(g, tps, q, [])
    ensures q0 <= q
  {
    inDeg, q := inDeg0, q0;
    var neighbors := g[x];
    for j := 0 to |neighbors|
      invariant KahnState(g, keys, left, inDeg, tps, q, neighbors[j..])
      invariant Ties(g, tps, q, neighbors[j..])
      invariant q0 <= q
    {
      var d := neighbors[j];
      assert d in g[x];
      ghost var inDegBefore, qBefore := inDeg, q;
      inDeg := inDeg[d := inDeg[d] - 1];
      if inDeg[d] == 0 {
        q := q + [d];
      }
      RelaxStep(g, keys, left, inDegBefore, inDeg, tps, qBefore, q, neighbors[j..]);
      RelaxTies(g, tps, qBefore, q, neighbors[j..]);
      assert neighbors[j..][1..] == neighbors[j + 1..];
    }
    assert neighbors[|neighbors|..] == [];
  }

  /** When the deque runs empty: the postconditions of TopologicalSort. */
  lemma Finish(g: Graph, keys: seq<Node>, left: set<Node>, inDeg: map<Node, int>, tps: seq<Node>, initial: seq<Node>)
    requires KahnState(g, keys, left, inDeg, tps, [], []) && initial <= tps + []
    ensures Distinct(tps) && forall v :: v in tps ==> v in g
    ensures forall k :: 0 <= k < |tps| ==> tps[k] in g
    ensures |tps| <= |g|
    ensures forall j, u :: 0 <= j < |tps| && u in g && tps[j] in g[u] ==> u in tps[..j]
    ensures |tps| == |g| <==> Acyclic(g)
    ensures Acyclic(g) ==> IsTopoOrder(g, tps)
    ensures initial <= tps
    ensures forall i, j :: 0 <= i < j < |tps| ==> ReadyAt(g, tps, tps[i]) <= ReadyAt(g, tps, tps[j])
    ensures |tps| < |g| ==> exists path :: IsCycle(g, path) && forall k :: 0 <= k < |path| ==> path[k] !in tps
    ensures forall v :: NotEmitted(g, tps, v) ==> exists u :: u in g && u !in tps && v in g[u]
    ensures Acyclic(g) <==> forall path :: !IsCycle(g, path)
  {
    assert tps + [] == tps;
    Drained(g, keys, left, inDeg, tps);
    Blocked(g, keys, left, tps);
    Counted(g, left, tps);
    if Acyclic(g) {
      Exhausted(g, keys, left);
      forall path | IsCycle(g, path)
        ensures false
      {
        CycleMeansCyclic(g, path);
      }
    }
    if |tps| == |g| {
      Ordered(g, tps);
    } else {
      var path := Stuck(g, keys, left);
      forall k | 0 <= k < |path|
        ensures path[k] !in tps
      {
        assert path[k] in left;
      }
    }
  }

  /** `v` is a key that is not in the emitted list. */
  ghost predicate NotEmitted(g: Graph, tps: seq<Node>, v: Node)
  {
    v in g && v !in tps
  }

  /** When the deque runs empty, every key never emitted still has a predecessor that was never emitted. */
  lemma Blocked(g: Graph, keys: seq<Node>, left: set<Node>, tps: seq<Node>)
    requires Enumerates(keys, g)
    requires forall v :: v in left <==> v in g && v !in tps
    requires forall v :: v in left ==> CountFrom(g, keys, left, v) != 0
    ensures forall v :: NotEmitted(g, tps, v) ==> exists u :: u in g && u !in tps && v in g[u]
  {
    forall v
      ensures NotEmitted(g, tps, v) ==> exists u :: u in g && u !in tps && v in g[u]
    {
      if NotEmitted(g, tps, v) {
        var u := PredecessorIn(g, keys, left, v);
      }
    }
  }

  /**
   * When the deque runs empty with keys left over, every left key still
   * has a predecessor among them, so they hold a cycle.
   */
  lemma Stuck(g: Graph, keys: seq<Node>, left: set<Node>) returns (path: seq<Node>)
    requires Enumerates(keys, g) && left != {}
    requires forall v :: v in left ==> CountFrom(g, keys, left, v) != 0
    ensures IsCycle(g, path) && forall k :: 0 <= k < |path| ==> path[k] in left
  {
    var pred := map v | v in left :: PredecessorIn(g, keys, left, v);
    path := CycleAmong(g, left, pred);
  }

  /** A key still counted as having an in-edge from `left` has a predecessor in `left`. */
  ghost function PredecessorIn(g: Graph, keys: seq<Node>, left: set<Node>, v: Node): (u: Node)
    requires Enumerates(keys, g) && CountFrom(g, keys, left, v) != 0
    ensures u in left && u in g && v in g[u]
  {
    CountFromZero(g, keys, left, v);
    var u :| u in keys && u in left && v in g[u];
    u
  }

  /** The facts the final lemmas need from the loop state once the deque is empty. */
  lemma Drained(g: Graph, keys: seq<Node>, left: set<Node>, inDeg: map<Node, int>, tps: seq<Node>)
    requires KahnState(g, keys, left, inDeg, tps, [], [])
    ensures Closed(g) && Enumerates(keys, g) && Distinct(tps)
    ensures forall k :: 0 <= k < |tps| ==> tps[k] in g
    ensures forall v :: v in left <==> v in g && v !in tps
    ensures forall v :: v in left ==> CountFrom(g, keys, left, v) != 0
    ensures forall j, u :: 0 <= j < |tps| && u in g && tps[j] in g[u] ==> u in tps[..j]
  {
    assert tps + [] == tps;
    var none: seq<Node> := [];
    assert multiset(none) == multiset{};
  }

  /** With the deque empty, the emitted nodes readied by one pop are in the order of their last occurrences. */
  lemma TiesDrained(g: Graph, tps: seq<Node>)
    requires Ties(g, tps, [], [])
    ensures forall k :: 0 <= k < |tps| ==> tps[k] in g
    ensures forall r, i, j {:trigger LastIndex(g[tps[r]], tps[i]), LastIndex(g[tps[r]], tps[j])} ::
      0 <= r < |tps| && 0 <= i < j < |tps| && ReadyAt(g, tps, tps[i]) == r && ReadyAt(g, tps, tps[j]) == r ==>
      LastIndex(g[tps[r]], tps[i]) < LastIndex(g[tps[r]], tps[j])
  {
    assert tps + [] == tps;
  }

  /** Emitted nodes are distinct keys; all keys are emitted exactly when none is left. */
  lemma Counted(g: Graph, left: set<Node>, tps: seq<Node>)
    requires Distinct(tps) && forall k :: 0 <= k < |tps| ==> tps[k] in g
    requires forall v :: v in left <==> v in g && v !in tps
    ensures forall v :: v in tps ==> v in g
    ensures |tps| <= |g|
    ensures |tps| == |g| <==> left == {}
  {
    forall v | v in tps
      ensures v in g
    {
      var k := IndexOf(tps, v);
    }
    DistinctCard(tps);
    SubsetCard((set v | v in tps), g.Keys);
    forall v | v in left
      ensures |tps| < |g|
    {
      assert v in g.Keys && v !in (set v | v in tps);
    }
    if left == {} {
      forall v | v in g
        ensures v in (set v | v in tps)
      {
        assert v !in left;
      }
      SubsetCard(g.Keys, (set v | v in tps));
    }
  }

  /** In an acyclic graph the loop leaves no key behind: some left key would have in-degree zero. */
  lemma Exhausted(g: Graph, keys: seq<Node>, left: set<Node>)
    requires Closed(g) && Enumerates(keys, g) && Acyclic(g)
    requires left <= g.Keys
    requires forall v :: v in left ==> CountFrom(g, keys, left, v) != 0
    ensures left == {}
  {
    if left != {} {
      var v := SourceWithin(g, left);
      CountFromZero(g, keys, left, v);
      assert false;
    }
  }

  /** A complete emission order that respects every edge is a topological order. */
  lemma Ordered(g: Graph, tps: seq<Node>)
    requires Closed(g) && Distinct(tps)
    requires forall v :: v in tps <==> v in g
    requires forall k :: 0 <= k < |tps| ==> tps[k] in g
    requires forall j, u :: 0 <= j < |tps| && u in g && tps[j] in g[u] ==> u in tps[..j]
    ensures IsTopoOrder(g, tps) && Acyclic(g)
  {
    forall i, j | 0 <= j <= i < |tps|
      ensures tps[j] !in g[tps[i]]
    {
      var u := tps[i];
      assert u in g;
      assert u !in tps[..j] by {
        NotBefore(tps, i);
        assert tps[..j] == tps[..i][..j];
      }
    }
    TopoOrderIsAcyclic(g, tps);
  }

  /**
   * compute_tps on the rows of an edge list: the graph is read with
   * read_graph, then sorted, so every promise of TopologicalSort holds for
   * the graph read_graph builds. A cycle in the graph makes the result
   * shorter than the node count; no error is raised.
   */
  method ComputeTps(edges: seq<Edge>) returns (tps: seq<Node>)
    ensures Distinct(tps) && forall v :: v in tps ==> v in Build(edges)
    ensures forall k :: 0 <= k < |tps| ==> tps[k] in Build(edges)
    ensures forall j, u :: 0 <= j < |tps| && u in Build(edges) && tps[j] in Build(edges)[u] ==> u in tps[..j]
    ensures Acyclic(Build(edges)) ==> IsTopoOrder(Build(edges), tps) && |tps| == |Build(edges)|
    ensures !Acyclic(Build(edges)) ==> |tps| < |Build(edges)|
    ensures forall path :: IsCycle(Build(edges), path) ==> |tps| < |Build(edges)|
    ensures |tps| < |Build(edges)| ==>
      exists path :: IsCycle(Build(edges), path) && forall k :: 0 <= k < |path| ==> path[k] !in tps
    ensures forall v :: NotEmitted(Build(edges), tps, v) ==> exists u :: u in Build(edges) && u !in tps && v in Build(edges)[u]
    ensures Acyclic(Build(edges)) <==> forall path :: !IsCycle(Build(edges), path)
    ensures Enumerates(KeyOrder(edges), Build(edges))
    ensures ZeroInDegree(Build(edges), KeyOrder(edges), KeyOrder(edges)) <= tps
    ensures forall i, j :: 0 <= i < j < |tps| ==> ReadyAt(Build(edges), tps, tps[i]) <= ReadyAt(Build(edges), tps, tps[j])
    ensures forall r, i, j {:trigger LastIndex(Build(edges)[tps[r]], tps[i]), LastIndex(Build(edges)[tps[r]], tps[j])} ::
      0 <= r < |tps| && 0 <= i < j < |tps| && ReadyAt(Build(edges), tps, tps[i]) == r && ReadyAt(Build(edges), tps, tps[j]) == r ==>
      LastIndex(Build(edges)[tps[r]], tps[i]) < LastIndex(Build(edges)[tps[r]], tps[j])
  {
    var g, keys := ReadGraph(edges);
    tps := TopologicalSort(g, keys);
    forall path | IsCycle(g, path)
      ensures !Acyclic(g)
    {
      CycleMeansCyclic(g, path);
    }
  }
}
