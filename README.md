# Graphs, Kahn's topological sort and a random DAG generator

This project models the graph toolkit of Assignment7 in Dafny: `graph.py` and `src.py`.

A graph is a dictionary that maps each node (an integer) to the list of its out-neighbours. It is modelled as `map<int, seq<int>>`. Python dictionaries remember insertion order, and both the in-degree loop and Kahn's loop visit keys in that order. The model carries that order as an explicit key sequence: `Enumerates(keys, g)` says it lists every key exactly once.

The modules:

- `GraphModel` (graph_model.dfy). Builds a graph from a list of (source, destination) pairs. This is the loop of `read_graph` and `read_double_graph`. The module also proves what the built dictionaries contain.
- `InDegrees` (in_degrees.dfy). Covers `compute_in_degrees` and the identical table that `compute_tps` builds.
- `Acyclicity` (acyclicity.dfy). Defines rankings, cycles and topological orders. A graph is acyclic when some integer ranking of its nodes increases strictly along every edge.
- `TopoSort` (topo_sort.dfy). Kahn's algorithm as `compute_tps` runs it: an in-degree table, a deque used first-in first-out, and the emitted list.
- `OrderCheck` (order_check.dfy). Covers `check_TPS` and `contains_sink_node`.
- `NodeDeletion` (del_node.dfy). Covers `del_node` on the pair of graphs that `read_double_graph` returns.
- `DagGenerator` (dag_generator.dfy). Covers `random_permutation` and `generate_random_DAG`. Their random choices are parameters.

The deque is a sequence whose first element is the end `pop` takes from. `appendleft` therefore appends at the back of the sequence.

## Model

| member | source | states |
|---|---|---|
| GraphModel.ReadGraph | graph.py:23-31 | The dictionary built from the pairs has a key for every source and every destination and no other key. Its adjacency is exactly the edge list (u in g and v in g[u] iff (u, v) is an edge). It has no dangling neighbour. The key order lists each key once. The list lengths add up to the number of pairs, so duplicates and self-loops are kept. |
| GraphModel.BuildKeys | graph.py:24-30 | A node is a key of the built graph exactly when it is the source or the destination of some pair. |
| GraphModel.BuildAdjacency | graph.py:25-28 | The list of each key is the destinations of the pairs leaving it, in input order. |
| GraphModel.BuildEdges | graph.py:24-30 | v occurs in the list of u exactly when (u, v) is one of the pairs. |
| GraphModel.DestsMembership | graph.py:25-28 | v is among the destinations listed for u exactly when (u, v) is a pair. |
| GraphModel.BuildClosed | graph.py:29-30 | Every destination is itself a key, possibly with an empty list. |
| GraphModel.BuildEdgeCount | graph.py:24-30 | Summed in key order, the lengths of all lists equal the number of pairs. |
| GraphModel.AddEdgeCount | graph.py:25-30 | One pair adds exactly one list entry. It extends the key order by the new source and then by the new destination, each only if it is new. |
| GraphModel.DestsCount | graph.py:25-28 | The number of times v is listed for u is the number of times the pair (u, v) occurs. |
| GraphModel.SourcesCount | graph.py:60-63 | The number of times u is listed as a source of v is the number of times the pair (u, v) occurs. |
| GraphModel.DualGraph | graph.py:52-65 | The in-edge dictionary has the same keys as the out-edge one. Each in-list holds the sources of the pairs into that node, in input order. u occurs in in_graph[v] exactly as often as v occurs in out_graph[u]. |
| GraphModel.ReadDoubleGraph | graph.py:50-66 | The out-graph is what read_graph builds. The in-graph is the same construction on the reversed pairs. It has the same keys, lists sources in input order and matches occurrence for occurrence. |
| GraphModel.SwapInvolution | graph.py:60-65 | Reversing every pair twice gives the list back. The reversed list holds (v, u) exactly as often as the original holds (u, v). |
| InDegrees.ComputeInDegrees | graph.py:34-42 | The table has exactly the graph's keys. Each entry is the number of occurrences of the key across all neighbour lists. The graph must have no dangling neighbour, since one would raise KeyError. |
| InDegrees.CountFromZero | graph.py:38-41 | A node's count is zero exactly when no counted list mentions it. |
| InDegrees.CountFromRemove | src.py:77-78 | Removing an emitted node from the counted sources lowers each count by the node's occurrences in that node's list. |
| InDegrees.InDegreeTotalIsEdgeCount | graph.py:38-41 | The in-degrees add up to the total length of the neighbour lists. |
| InDegrees.BuildInDegreeTotal | graph.py:23-42 | On a graph built from pairs, the in-degrees add up to the number of pairs. |
| Acyclicity.CycleMeansCyclic | src.py:73-81 | A graph with a closed walk along its edges has no ranking. |
| Acyclicity.SelfLoopIsCyclic | src.py:73-81 | A node with an edge to itself makes the graph cyclic. |
| Acyclicity.CycleAmong | src.py:73-81 | A non-empty set of nodes in which every member has a predecessor inside the set contains a cycle through its members. |
| Acyclicity.SourceWithin | src.py:73-81 | In an acyclic graph, every non-empty set of nodes has a member with no predecessor inside the set. This is why Kahn's loop never gets stuck on an acyclic graph. |
| Acyclicity.SinkExists | src.py:19-23 | A non-empty acyclic graph has a node with no out-edges. |
| Acyclicity.TopoOrderIsAcyclic | src.py:26-36 | A graph that has a topological order is acyclic. |
| TopoSort.ReadyAt | src.py:77-81 | The position in the emitted list of a node's last emitted predecessor, or -1 when there is none. That is the pop during which the node's in-degree reached zero. |
| TopoSort.InitialQueue | src.py:66-69 | The starting deque is the zero-in-degree keys, in dictionary order. |
| TopoSort.Relax | src.py:77-81 | Decrementing the successors of the popped node keeps the loop invariant. The in-degree of each node not yet emitted is the number of its predecessors not yet emitted. The deque holds exactly the waiting nodes whose count is zero, in the order they reached it. Nodes are only appended to the deque. |
| TopoSort.PopStep | src.py:73-75 | Popping the front of the deque and emitting it keeps the invariant with the node's successors still pending. |
| TopoSort.TopologicalSort | src.py:58-81 | Kahn's loop emits each node at most once, and only keys. A node is emitted only after all its predecessors. All keys are emitted exactly when the graph is acyclic, and then the list is a topological order. A shorter list leaves a cycle among the nodes never emitted. The loop stops only when no key is ready: every key never emitted has a predecessor that was never emitted. The graph is acyclic exactly when it has no cycle. The list begins with the initial deque. Nodes come out ordered by the pop that readied them. Two nodes readied by the same pop come out in the order of their last occurrences in the popped node's list, which is where each count reached zero. |
| TopoSort.Drain | src.py:73-81 | The while loop runs until the deque is empty. It keeps the loop's invariant, including the order among nodes readied by the same pop, and it emits the initial deque first. |
| TopoSort.Finish | src.py:73-81 | When the deque runs empty, the loop's invariant yields every postcondition of the sort except the order within one pop. This includes the cycle among the unemitted nodes when keys are left, and a predecessor never emitted for every key never emitted. |
| TopoSort.Blocked | src.py:73-81 | When the deque runs empty, every key never emitted still has a predecessor that was never emitted, so no key was ready when the loop stopped. |
| TopoSort.RelaxTies | src.py:77-81 | Visiting the next out-neighbour keeps nodes readied by the current pop ordered. A neighbour that joins the deque is at its last occurrence in the popped node's list. |
| TopoSort.Counted | src.py:73-81 | Distinct emitted keys number at most the key count. They equal it exactly when no key is left waiting. |
| TopoSort.Stuck | src.py:73-81 | When the deque is empty but keys are left, each left key still has a predecessor among them, and they contain a cycle. |
| TopoSort.ComputeTps | src.py:53-81 | On the graph read_graph builds from the pairs, every promise of the sort holds. The list is a topological order of all keys when the graph is acyclic. It is strictly shorter exactly when the graph has a cycle, and then some cycle avoids every emitted node. Predecessors come first, the stop happens only when no key is ready, the list begins with the zero-in-degree keys in dictionary order, and nodes come out first-in first-out, including ties within one pop. It raises nothing. |
| OrderCheck.CheckTps | src.py:26-36 | check_TPS accepts exactly when no position has an edge back to an earlier one and the list is as long as the key set. It reports a real backward edge, the highest faulty position and its first earlier partner. It raises KeyError only for a listed node other than the first that is not a key. |
| OrderCheck.TopoOrderAccepted | src.py:26-36 | Every topological order passes check_TPS. In particular Kahn's output on an acyclic graph passes. |
| OrderCheck.AcceptedGap | src.py:29-36 | A list is a topological order exactly when check_TPS accepts it, no node is listed twice, and every listed node is a key without a self-loop. |
| OrderCheck.DuplicateAccepted | src.py:34-36 | check_TPS accepts [0, 0] over the keys 0 and 1, which is not a topological order. |
| OrderCheck.ForeignFirstAccepted | src.py:29-31 | check_TPS accepts [5] over the single key 0, because the first node is never looked up. |
| OrderCheck.SelfLoopAccepted | src.py:29-31 | check_TPS accepts [0] for a node with a self-loop, although the graph is cyclic. |
| OrderCheck.CheckTopoOrder | src.py:26-36 | The corrected checker accepts exactly the topological orders. |
| OrderCheck.ContainsSinkNode | src.py:19-23 | contains_sink_node is true exactly when every node has a non-empty out-list. |
| OrderCheck.SinkNodeAnswer | src.py:19-23 | contains_sink_node is false exactly when some node has no out-edge. |
| OrderCheck.SinkNodeOnAcyclic | src.py:19-23 | On a non-empty acyclic graph, contains_sink_node is false. |
| NodeDeletion.RemoveFirst | graph.py:73 | list.remove drops exactly one occurrence, the first, and keeps the other elements in order. |
| NodeDeletion.DelNode | graph.py:69-73 | del_node matches its specification step by step. A node that is not an out-graph key raises KeyError and changes nothing. A node missing from the in-graph is still popped before the KeyError. Afterwards the node is never a key. |
| NodeDeletion.DelNodeSucceeds | graph.py:71-73 | del_node completes exactly when the node is a key of both graphs and each in-edge entry names another key whose list holds the node at least as often as that entry repeats. |
| NodeDeletion.DelNodeEffect | graph.py:69-73 | A completed del_node removes the node's key. It removes one occurrence of the node per in-edge entry from each predecessor's list and leaves every other list unchanged. |
| NodeDeletion.RemoveEachDone | graph.py:72-73 | The removal loop completes exactly when every listed predecessor is a key holding the node often enough. |
| NodeDeletion.RemoveEachEffect | graph.py:72-73 | A completed removal loop keeps the keys, removes the right number of occurrences per predecessor and touches no other list. |
| NodeDeletion.SelfLoopFails | graph.py:71-73 | A node listed among its own predecessors makes del_node fail, because its own key is popped first. |
| NodeDeletion.DualDelete | graph.py:50-73 | On the two graphs read_double_graph builds, del_node completes exactly when the node occurs in some pair and has no self-loop. |
| DagGenerator.RandomPermutation | graph.py:76-80 | The zipped dictionary is defined exactly on the given nodes. |
| DagGenerator.ZipAt | graph.py:80 | With distinct nodes, the zip sends the k-th node to the k-th shuffled value. |
| DagGenerator.PermutationIsBijection | graph.py:76-80 | random_permutation maps the node set into, onto and one-to-one onto itself. |
| DagGenerator.PermutationFacts | graph.py:79 | A shuffled copy of range(n) lists each of 0, ..., n - 1 exactly once. |
| DagGenerator.SortedBelow | graph.py:88-89 | The sorted sample lists exactly the sampled numbers below i, in strictly ascending order. There are at most i of them. |
| DagGenerator.ScaffoldShape | graph.py:86-90 | The scaffold edges are exactly the pairs (i, j) with j sampled for i, all with 0 <= j < i. They are listed by descending i and then ascending j. |
| DagGenerator.GenerateScaffold | graph.py:86-90 | The scaffold loop produces exactly those edges, in that order, with none repeated. |
| DagGenerator.ShufflePreserves | graph.py:96 | Shuffling rows by a permutation keeps exactly the same rows, and keeps them distinct. |
| DagGenerator.BackwardEdgesAcyclic | graph.py:91-93 | Edges that all go from a later to an earlier position of one node list build an acyclic graph. |
| DagGenerator.Relabelled | graph.py:94-95 | The relabelled scaffold is the image of the sampled pairs under the permutation. Its edges are distinct, join distinct nodes, and run backwards along the shuffled node list. |
| DagGenerator.GenerateRandomDag | graph.py:83-97 | The generated edges join distinct nodes of range(num_nodes) with no repeats. They are exactly the images (p(i), p(j)) of the sampled pairs j < i. Every edge runs from a later to an earlier position of the shuffled node list, so every edge respects that list read backwards. The graph they build is acyclic. |

## Left out

- File and console input/output: `read_lines`, `read_numbers_by_row`, `parse_line`, `read_topo_sort_from_file`, `parse_tps`, `write_tps_to_file`, `gen_and_write_DAG`, every `print` and both `__main__` blocks. Graphs start from lists of integer pairs. The fault message that check_TPS prints becomes the `BackwardEdge` verdict.
- The timing in `compute_tps` (`time.time()` and the reported duration) is wall-clock reporting only.
- `compute_tps` appends `str(node)` to its list. The model emits the integers themselves, since the strings only feed the file writer.
- Randomness is left out. `sample`, `randint` and `shuffle` become parameters: the set of numbers sampled for each i, the shuffled copy of `range(num_nodes)`, and the order in which the rows come out of the shuffle. Python's random generator and the probability distribution of these choices are not modelled.
- Dictionary insertion order is an explicit key sequence beside the map rather than a property of the map.
- NodeDeletion.DelNode works on values. It returns the out-graph as the call leaves it, including after an exception, instead of mutating a shared dictionary, so aliasing between callers is not captured.
- Acyclicity.Acyclic is defined by the existence of a ranking. Its equivalence with having no cycle is proved for every graph without a dangling neighbour. It is a postcondition of TopoSort.TopologicalSort, which runs for every such graph. No separate lemma proves it without the sort.
- TopoSort.TopologicalSort states first-in first-out order through ReadyAt, the position of a node's last emitted predecessor, and through LastIndex within one pop. It does not follow the deque as a separate history.
- InDegrees.ComputeInDegrees requires a graph with no dangling neighbour. compute_in_degrees raises KeyError on a neighbour that is not a key (graph.py:41), and that error path is not modelled. Graphs from read_graph never have one (GraphModel.BuildClosed).
- OrderCheck.CheckTps reports the KeyError that check_TPS raises for a listed node that is not a key. It does not require every listed node to be a key.
- The code differs in places from what a reader of the function names and docstrings might expect. The model follows the code:
  - `compute_tps` never signals a cycle. It only emits a shorter list, which is what TopoSort.ComputeTps states.
  - `generate_random_DAG` returns only edges. A node of range(num_nodes) that gets no edge is missing once the list is read back by `read_graph`. DagGenerator.GenerateRandomDag states only which edges are produced.
  - The docstring of `del_node` speaks of removing the node's edges. The code removes one occurrence per entry of the in-edge list, which is what NodeDeletion.DelNodeEffect states.

## Findings

| source | as written | input that shows it | evidently intended | confidence | as-written member | corrected member |
|---|---|---|---|---|---|---|
| src.py:34-36 | Only the length of the list is compared with the number of keys, so a repeated node can stand in for a missing one | graph {0: [], 1: []}, list [0, 0] is accepted | accept only lists holding every key exactly once | not executed | OrderCheck.DuplicateAccepted | OrderCheck.CheckTopoOrder |
| src.py:29-31 | The first listed node is never looked up, since the inner loop is empty for i = 0 | graph {0: []}, list [5] is accepted | every listed node must be a key | not executed | OrderCheck.ForeignFirstAccepted | OrderCheck.CheckTopoOrder |
| src.py:30 | `range(i)` never compares a node with itself, so a self-loop goes unnoticed | graph {0: [0]}, list [0] is accepted, although the graph is cyclic | reject a node that has an edge to itself | not executed | OrderCheck.SelfLoopAccepted | OrderCheck.CheckTopoOrder |
