/**
 * compute_in_degrees of graph.py (and the identical table that compute_tps
 * of src.py builds inline): every key starts at zero and every occurrence of
 * a node in some neighbour list adds one to it.
 */
module InDegrees {
  import opened GraphModel

  /**
   * The number of occurrences of `v` in the lists stored under those keys of
   * `ks` that belong to `from`: the edges into `v` whose source is in `from`.
   */
  function CountFrom(g: Graph, ks: seq<Node>, from: set<Node>, v: Node): nat
    requires forall k :: k in ks ==> k in g
  {
    if ks == [] then 0
    else
      var last := ks[|ks| - 1];
      assert last in ks;
      CountFrom(g, ks[..|ks| - 1], from, v) + (if last in from then multiset(g[last])[v] else 0)
  }

  /** The in-degree of `v`: its number of occurrences across all neighbour lists. */
  function InDegree(g: Graph, keys: seq<Node>, v: Node): nat
    requires forall k :: k in keys ==> k in g
  {
    CountFrom(g, keys, g.Keys, v)
  }

  /** Taking one source out of `from` removes exactly its edges into `v`. */
  lemma {:induction false} CountFromRemove(g: Graph, ks: seq<Node>, from: set<Node>, x: Node, v: Node)
    requires forall k :: k in ks ==> k in g
    requires Distinct(ks) && x in ks && x in from
    ensures CountFrom(g, ks, from - {x}, v) + multiset(g[x])[v] == CountFrom(g, ks, from, v)
  {
    var init, last := ks[..|ks| - 1], ks[|ks| - 1];
    assert forall k :: k in init ==> k in ks;
    if last == x {
      assert x !in init;
      CountFromOutside(g, init, from, x, v);
    } else {
      assert x in init;
      CountFromRemove(g, init, from, x, v);
    }
  }

  lemma {:induction false} CountFromOutside(g: Graph, ks: seq<Node>, from: set<Node>, x: Node, v: Node)
    requires forall k :: k in ks ==> k in g
    requires x !in ks
    ensures CountFrom(g, ks, from - {x}, v) == CountFrom(g, ks, from, v)
  {
    if ks != [] {
      var init := ks[..|ks| - 1];
      assert forall k :: k in init ==> k in ks;
      CountFromOutside(g, init, from, x, v);
    }
  }

  /** No edge into `v` comes from `from` exactly when the count is zero. */
  lemma {:induction false} CountFromZero(g: Graph, ks: seq<Node>, from: set<Node>, v: Node)
    requires forall k :: k in ks ==> k in g
    ensures CountFrom(g, ks, from, v) == 0 <==> forall u :: u in ks && u in from ==> v !in g[u]
  {
    if ks != [] {
      var init, last := ks[..|ks| - 1], ks[|ks| - 1];
      assert forall k :: k in init ==> k in ks;
      CountFromZero(g, init, from, v);
      assert forall u :: u in ks <==> u in init || u == last;
    }
  }

  /** Occurrences in `s` of the nodes of `vs`, summed over `vs`. */
  function OccurrenceSum(vs: seq<Node>, s: seq<Node>): nat
  {
    if vs == [] then 0 else OccurrenceSum(vs[..|vs| - 1], s) + multiset(s)[vs[|vs| - 1]]
  }

  lemma {:induction false} OccurrenceSumAppend(vs: seq<Node>, s: seq<Node>, x: Node)
    ensures OccurrenceSum(vs, s + [x]) == OccurrenceSum(vs, s) + multiset(vs)[x]
  {
    if vs != [] {
      var init := vs[..|vs| - 1];
      OccurrenceSumAppend(init, s, x);
      assert vs == init + [vs[|vs| - 1]];
      assert multiset(s + [x]) == multiset(s) + multiset{x};
    }
  }

  /** When `vs` lists every element of `s` once, the occurrences add up to |s|. */
  lemma {:induction false} OccurrenceSumAll(vs: seq<Node>, s: seq<Node>)
    requires Distinct(vs) && forall x :: x in s ==> x in vs
    ensures OccurrenceSum(vs, s) == |s|
  {
    if s == [] {
      OccurrenceSumEmpty(vs);
    } else {
      var init, last := s[..|s| - 1], s[|s| - 1];
      assert forall x :: x in init ==> x in s;
      OccurrenceSumAll(vs, init);
      assert s == init + [last];
      OccurrenceSumAppend(vs, init, last);
      DistinctCount(vs, IndexOf(vs, last));
    }
  }

  lemma {:induction false} OccurrenceSumEmpty(vs: seq<Node>)
    ensures OccurrenceSum(vs, []) == 0
  {
    if vs != [] {
      OccurrenceSumEmpty(vs[..|vs| - 1]);
    }
  }

  lemma {:induction false} DistinctCount(vs: seq<Node>, i: nat)
    requires Distinct(vs) && i < |vs|
    ensures multiset(vs)[vs[i]] == 1
  {
    var init, last := vs[..|vs| - 1], vs[|vs| - 1];
    assert vs == init + [last];
    if i == |vs| - 1 {
      assert last !in init;
    } else {
      DistinctCount(init, i);
    }
  }

  /** In-degrees of the nodes of `vs`, counted over the keys `ks`, summed. */
  function InDegreeTotal(g: Graph, vs: seq<Node>, ks: seq<Node>): nat
    requires forall k :: k in ks ==> k in g
  {
    if vs == [] then 0 else InDegreeTotal(g, vs[..|vs| - 1], ks) + CountFrom(g, ks, g.Keys, vs[|vs| - 1])
  }

  lemma {:induction false} InDegreeTotalAppend(g: Graph, vs: seq<Node>, ks: seq<Node>, u: Node)
    requires forall k :: k in ks ==> k in g
    requires u in g
    ensures InDegreeTotal(g, vs, ks + [u]) == InDegreeTotal(g, vs, ks) + OccurrenceSum(vs, g[u])
  {
    assert (ks + [u])[..|ks|] == ks;
    if vs != [] {
      InDegreeTotalAppend(g, vs[..|vs| - 1], ks, u);
    }
  }

  lemma {:induction false} InDegreeTotalPrefix(g: Graph, keys: seq<Node>, n: nat)
    requires Closed(g) && Enumerates(keys, g) && n <= |keys|
    ensures InDegreeTotal(g, keys, keys[..n]) == SumLens(g, keys[..n])
  {
    if n == 0 {
      InDegreeTotalNone(g, keys);
    } else {
      var ks, u := keys[..n - 1], keys[n - 1];
      assert keys[..n] == ks + [u];
      InDegreeTotalPrefix(g, keys, n - 1);
      InDegreeTotalAppend(g, keys, ks, u);
      OccurrenceSumAll(keys, g[u]);
    }
  }

  lemma {:induction false} InDegreeTotalNone(g: Graph, vs: seq<Node>)
    ensures InDegreeTotal(g, vs, []) == 0
  {
    if vs != [] {
      InDegreeTotalNone(g, vs[..|vs| - 1]);
    }
  }

  /** The in-degrees add up to the total length of the neighbour lists. */
  lemma InDegreeTotalIsEdgeCount(g: Graph, keys: seq<Node>)
    requires Closed(g) && Enumerates(keys, g)
    ensures InDegreeTotal(g, keys, keys) == SumLens(g, keys)
  {
    InDegreeTotalPrefix(g, keys, |keys|);
    assert keys[..|keys|] == keys;
  }

  /** For a graph read from an edge list, the in-degrees add up to the number of rows. */
  lemma BuildInDegreeTotal(edges: seq<Edge>)
    ensures Enumerates(KeyOrder(edges), Build(edges))
    ensures InDegreeTotal(Build(edges), KeyOrder(edges), KeyOrder(edges)) == |edges|
  {
    BuildEdgeCount(edges);
    BuildClosed(edges);
    InDegreeTotalIsEdgeCount(Build(edges), KeyOrder(edges));
  }

  /**
   * compute_in_degrees: a table with exactly the graph's keys, each mapped to
   * its number of occurrences across all neighbour lists. A neighbour that is
   * not a key would raise KeyError, hence `Closed(g)`.
   */
  method ComputeInDegrees(g: Graph, keys: seq<Node>) returns (inDegree: map<Node, int>)
    requires Closed(g) && Enumerates(keys, g)
    ensures inDegree.Keys == g.Keys
    ensures forall v :: v in g ==> inDegree[v] == InDegree(g, keys, v)
  {
    inDegree := map k | k in g :: 0;
    for i := 0 to |keys|
      invariant inDegree.Keys == g.Keys
      invariant forall v :: v in g ==> inDegree[v] == CountFrom(g, keys[..i], g.Keys, v)
    {
      assert keys[..i + 1][..i] == keys[..i];
      var u := keys[i];
      assert u in keys;
      var neighbors := g[u];
      for j := 0 to |neighbors|
        invariant inDegree.Keys == g.Keys
        invariant forall v :: v in g ==>
          inDegree[v] == CountFrom(g, keys[..i], g.Keys, v) + multiset(neighbors[..j])[v]
      {
        assert neighbors[..j + 1] == neighbors[..j] + [neighbors[j]];
        var n := neighbors[j];
        assert n in neighbors;
        inDegree := inDegree[n := inDegree[n] + 1];
      }
      assert neighbors[..|neighbors|] == neighbors;
    }
    assert keys[..|keys|] == keys;
  }
}
