# firepipe dependency graph, process model and layered rendering in Dafny

This project models the deterministic core of firepipe, a task orchestrator
whose processes are directed acyclic graphs of tasks:

- **The graph** (`firepipe/graph.py`), module `Graphs`. It is a class `Graph`
  with a node set and forward and backward adjacency maps.
  - `add_node` and `add_edge` change those fields in place. Each is specified
    by a pure function on a `Snapshot` of the fields (`WithNode`, `WithEdge`).
  - `topological_sort` is Kahn's algorithm on copies of the maps. It returns
    `Success(order)` or `Failure(GraphIsCyclic)` where the source raises
    `Exception('Graph is cyclic')`.
  - The module `Digraph` holds the graph theory that Kahn's algorithm relies
    on: a topological order excludes cycles, and a set of nodes that each have
    a predecessor inside the set contains a cycle.
- **Tasks and processes** (`firepipe/process.py`), module `Processes`.
  - A `Task` owns one `TaskNode`, and the node points back to its task. Nodes
    are told apart by object identity.
  - A `Process` owns a `Graph<TaskNode>`. It grows through `add`, `connect`,
    `fork` and `join`.
- **Rendering** (`firepipe/visualiser.py`), module `Visualiser`.
  - `center_text` is modelled with Python's semantics, quirk included: a name
    that is too long becomes the single character at Python index `width - 5`
    followed by `"..."`. A negative index counts from the end. An index before
    the start raises `IndexError`, modelled as `None`.
  - The layering loop of `render_process` is a method over a topological
    order. It is proved to split the order into non-empty layers, each node
    after all of its predecessors, breaking the order exactly where a node
    has a predecessor outside the closed layers. That rule leaves one way to
    split an order, so the layers and the lines drawn for an order are
    determined by it.
  - The line generator is a method that returns the lines yielded before the
    generator ends or raises.

In three places the source does something a reader might not expect. The
model follows the source:

- Kahn's seed queue is read from a Python set. Its order is therefore
  whatever the set iteration gives, not a deterministic tie-break. The model
  picks the seeds in any order.
- The failure of `topological_sort` is a plain `Exception`, not a dedicated
  error type.
- `add(task)` on a task whose node is already present keeps that node's
  edges. The node is isolated only when it is new.

## Model

| member | source | states |
|---|---|---|
| Graphs.WithNode | firepipe/graph.py:24-29 | `add_node(n)` makes `n` a node; the node set grows by exactly `n` |
| Graphs.WithNodeKeepsEdges | firepipe/graph.py:24-29 | `add_node` keeps the two maps consistent and adds no edge; on a node already present it changes nothing, so calling it twice equals calling it once |
| Graphs.WithEdge | firepipe/graph.py:31-39 | `add_edge(s, t)` makes both endpoints nodes; the node set grows by exactly `s` and `t` |
| Graphs.Linked | firepipe/graph.py:35-39 | recording the edge in both maps keeps the node set; `LinkedAddsOneEdge` states what it adds |
| Graphs.LinkedAddsOneEdge | firepipe/graph.py:35-39 | recording `t` in `outgoing[s]` and `s` in `incoming[t]` keeps the maps consistent and adds exactly the edge `(s, t)` |
| Graphs.WithEdgeAddsOneEdge | firepipe/graph.py:31-39 | `add_edge(s, t)` keeps the graph consistent and its edge set becomes the old one plus `(s, t)`; no other adjacency changes |
| Graphs.AddEdgeSteps | firepipe/graph.py:31-39 | the four steps of `add_edge`, in source order, give the graph `WithEdge` describes |
| Graphs.SameEdgesSameGraph | firepipe/graph.py:15-17 | a consistent graph is determined by its nodes and its edge set |
| Graphs.WithEdgeIdempotent | firepipe/graph.py:35-39 | adding the same edge twice gives the same graph as adding it once |
| Graphs.WithEdges | firepipe/process.py:96-102 | a run of `add_edge` calls adds exactly the endpoints of its pairs as nodes |
| Graphs.OutFan | firepipe/process.py:96-98 | `fork(u, ds)` connects, in order, exactly the pairs `(u, d)` for each `d` of `ds` |
| Graphs.InFan | firepipe/process.py:100-102 | `join(us, d)` connects, in order, exactly the pairs `(u, d)` for each `u` of `us` |
| Graphs.WithEdgesAddsEdges | firepipe/process.py:96-102 | a run of `add_edge` calls keeps the graph consistent and adds exactly the pairs it names |
| Graphs.WithEdgesOrderIrrelevant | firepipe/process.py:96-102 | two runs naming the same set of pairs, in any order and with repeats, give the same graph |
| Graphs.WithEdgesIdempotent | firepipe/process.py:93-102 | repeating a run of `add_edge` calls changes nothing |
| Graphs.Graph.constructor | firepipe/graph.py:19-22 | a new graph is consistent, with no nodes and no edges |
| Graphs.Graph.AddNode | firepipe/graph.py:24-29 | the new fields are `WithNode` of the old ones; on a consistent graph the result is consistent with the same edges |
| Graphs.Graph.AddEdge | firepipe/graph.py:31-39 | the new fields are `WithEdge` of the old ones; the graph stays consistent and gains exactly the edge `(source, target)` |
| Graphs.Graph.TopologicalSort | firepipe/graph.py:41-79 | succeeds if and only if the graph has no cycle; on success the result lists every node exactly once and the source of each edge before its target; the stored graph is not modified (no `modifies` clause) |
| Graphs.Roots | firepipe/graph.py:44-48 | the seed queue holds, once each, exactly the nodes with no incoming edge |
| Graphs.ReleaseSuccessors | firepipe/graph.py:66-75 | every edge out of the node just output is removed from both copies, each removal finds what it removes, and a target is queued exactly when its last incoming edge goes, so no node is queued twice |
| Graphs.PopStep | firepipe/graph.py:60-64 | the head of the queue has not been output and has no incoming edge left; the rest of the queue is still distinct and ready |
| Graphs.OutputStep | firepipe/graph.py:64 | appending a node whose predecessors are all output keeps the output distinct and each node after its predecessors |
| Graphs.ReleaseStep | firepipe/graph.py:66-75 | after the release, the copies hold exactly the edges not leaving an output node |
| Graphs.StuckMeansCycle | firepipe/graph.py:76-78 | an edge left once the queue is empty means the graph has a cycle |
| Graphs.StuckCoreSelfFed | firepipe/graph.py:76-78 | once the queue is empty, every node not output has a predecessor that is not output either |
| Graphs.DrainedMeansOrder | firepipe/graph.py:76-79 | with no edge left, the output is a topological order of the whole graph and the graph has no cycle |
| Digraph.TopologicalOrderExcludesCycle | firepipe/graph.py:41-79 | a graph that has a topological order has no cycle |
| Digraph.SelfFedCoreHasCycle | firepipe/graph.py:76-78 | a non-empty set of nodes that each have a predecessor inside the set lies on a cycle |
| Digraph.WalkClimbsOrder | firepipe/graph.py:41-79 | along a walk, positions in a topological order strictly increase |
| Processes.TaskNode.constructor | firepipe/process.py:11-14 | a node is created with no task yet; `Task.constructor` sets its back-reference at once |
| Processes.Task.constructor | firepipe/process.py:65-68 | a task gets a fresh node pointing back to it, so two tasks of the same name have distinct nodes, and an empty resource map |
| Processes.Process.constructor | firepipe/process.py:85-88 | a process starts with an empty, consistent graph; missing resources default to an empty map |
| Processes.Process.Add | firepipe/process.py:90-91 | the task's node joins the graph; no edge changes; a node that was new has empty adjacency sets |
| Processes.Process.Connect | firepipe/process.py:93-94 | exactly the edge `upstream.node -> downstream.node` is added, and its endpoints as nodes |
| Processes.Process.Fork | firepipe/process.py:96-98 | the graph is the old one after one `add_edge` per downstream in order; the edges added are exactly those from `upstream`; `upstream` becomes a node only if there is a downstream |
| Processes.Process.Join | firepipe/process.py:100-102 | the graph is the old one after one `add_edge` per upstream in order; the edges added are exactly those into `downstream`; `downstream` becomes a node only if there is an upstream |
| Processes.FanPairs | firepipe/process.py:96-102 | the pairs of a fork or join, as a set, are the hub paired with each task, and they touch exactly those nodes and the hub when there is a task |
| Visualiser.Repeat | firepipe/visualiser.py:16 | `s * n` is empty for `n <= 0`; a one-character string repeated `n` times has length `n` and only that character |
| Visualiser.RepeatLength | firepipe/visualiser.py:40-42 | `len(s * n) == n * len(s)` for positive `n`, and 0 otherwise |
| Visualiser.PyIndex | firepipe/visualiser.py:12 | Python indexing: defined exactly for `-len <= i < len`, a negative index counting from the end |
| Visualiser.Centre | firepipe/visualiser.py:13-16 | the padded text is `text` between runs of spaces, the right run equal to the left or one longer, of length `max(width, len(text))` |
| Visualiser.CenterText | firepipe/visualiser.py:10-17 | `center_text` raises `IndexError` exactly when the name is longer than `width - 2` and `len(name) + width < 5`; it never fails for `width >= 3` |
| Visualiser.CenterTextCentres | firepipe/visualiser.py:10-17 | a name that fits in `width - 2` is centred in exactly `width` characters; a longer one is shown as its character at Python index `width - 5` plus `"..."`, centred in `max(width, 4)` characters |
| Visualiser.CenterTextWidth | firepipe/visualiser.py:10-17 | for `width >= 4` every name is shown in exactly `width` characters |
| Visualiser.CentredSplit | firepipe/visualiser.py:13-16 | centring is unique: the left padding is half the room rounded down and the right padding the rest |
| Visualiser.NameLeTotal | firepipe/visualiser.py:31 | any two task names compare one way or the other |
| Visualiser.NameLeTransitive | firepipe/visualiser.py:31 | name order is transitive |
| Visualiser.Insert | firepipe/visualiser.py:31 | inserting a task adds exactly it to the multiset of the layer |
| Visualiser.InsertKeepsSorted | firepipe/visualiser.py:31 | inserting into a name-sorted layer keeps it sorted |
| Visualiser.SortByName | firepipe/visualiser.py:31 | `sorted(layer, key=name)` is a permutation of the layer in name order |
| Visualiser.SortedPairwise | firepipe/visualiser.py:31 | in a sorted layer any earlier task's name is at most any later one's |
| Visualiser.SortedSameElems | firepipe/visualiser.py:31 | sorting a layer keeps its nodes, and a non-empty layer stays non-empty |
| Visualiser.TopologicalOrderPredecessorsFirst | firepipe/visualiser.py:24-26 | in the order `topological_sort` returns, every node's incoming neighbours come before it |
| Visualiser.Layering | firepipe/visualiser.py:21-34 | the layers as built concatenate back to the order; the layers as stored are a permutation of it; every stored layer but the last is exactly its built layer put through the stable sort by name (`SortByName`, a name-ordered permutation), and the last is stored as built; no layers exactly for an empty order; the built layers keep the grouping rule (`GreedyLayers`): a node extends a layer, or starts the first one, exactly when all its predecessors are in the layers before it, and any other node starts a new layer; on an order that lists predecessors first, every layer is non-empty and every node's predecessors lie in strictly earlier layers |
| Visualiser.GroupNodes | firepipe/visualiser.py:21-32 | after the `for` loop the closed and open layers cover the order, keep the grouping rule, and `committed` holds the closed layers' nodes |
| Visualiser.GreedyStep | firepipe/visualiser.py:26-32 | one turn of the loop keeps the grouping rule |
| Visualiser.JoinGreedy | firepipe/visualiser.py:26-27 | a node whose predecessors are all committed extends the open layer without breaking the rule |
| Visualiser.BreakGreedy | firepipe/visualiser.py:28-32 | any other node closes the open layer and starts the next one without breaking the rule |
| Visualiser.FinishGreedy | firepipe/visualiser.py:33-34 | storing the open layer, if any, keeps the rule |
| Visualiser.UnplaceGreedy | firepipe/visualiser.py:25-32 | taking back the last node of a layering that keeps the rule leaves one that keeps it, for the order one shorter |
| Visualiser.TrimGreedy | firepipe/visualiser.py:26-27 | dropping the last node of the open layer keeps the rule |
| Visualiser.TakeGreedy | firepipe/visualiser.py:28-32 | the first layers of a layering that keeps the rule keep it |
| Visualiser.PlaceUnplace | firepipe/visualiser.py:26-32 | a layering that keeps the rule is what the loop's turn for its last node makes of the layering without it |
| Visualiser.LastLayerNonEmpty | firepipe/visualiser.py:32-34 | the open layer is empty only before the first node |
| Visualiser.OpenGreedyUnique | firepipe/visualiser.py:25-32 | two layerings of the same order with the open layer last that keep the rule are equal |
| Visualiser.GreedyUnique | firepipe/visualiser.py:21-34 | the grouping rule fixes how an order splits into layers |
| Visualiser.LayersOfUnique | firepipe/visualiser.py:21-34 | the layers built and stored for an order are determined by it |
| Visualiser.IndependentShareLayer | firepipe/visualiser.py:26-27 | tasks without dependencies are all drawn in one layer |
| Visualiser.LayerStep | firepipe/visualiser.py:25-32 | one turn of the loop, joining or breaking, keeps the layering invariant |
| Visualiser.JoinShape | firepipe/visualiser.py:26-27 | a node whose predecessors are all committed extends the open layer and keeps the layers covering the prefix |
| Visualiser.JoinReady | firepipe/visualiser.py:26-27 | the node joining the open layer has its predecessors committed |
| Visualiser.BreakShape | firepipe/visualiser.py:28-32 | closing the open layer stores it sorted, and the layers still cover the prefix |
| Visualiser.BreakCovers | firepipe/visualiser.py:28-32 | the closed layer joins the built layers, and with the new node they cover the prefix one longer |
| Visualiser.BreakStores | firepipe/visualiser.py:31 | the closed layer is stored as its stable sort by name, keeping the same nodes in the stored layers |
| Visualiser.SortAllAt | firepipe/visualiser.py:31 | stored layer `i` is built layer `i` sorted by name |
| Visualiser.SortAllSnoc | firepipe/visualiser.py:31 | storing one more layer appends its sorted form to the stored layers |
| Visualiser.BreakReady | firepipe/visualiser.py:28-32 | closing the open layer commits exactly its nodes and keeps every stored node after its predecessors |
| Visualiser.BreakEarlier | firepipe/visualiser.py:28-32 | a closed layer whose nodes have their predecessors committed keeps every layer after its predecessors |
| Visualiser.OpenReady | firepipe/visualiser.py:28-32 | the node opening a new layer has its predecessors committed once the old layer is |
| Visualiser.FinishLayers | firepipe/visualiser.py:33-34 | appending the open layer unsorted, if non-empty, completes the layering with all the facts `Layering` promises |
| Visualiser.FinishShape | firepipe/visualiser.py:33-34 | the final layers cover the whole order, each sorted but the last |
| Visualiser.FinishReady | firepipe/visualiser.py:33-34 | on an order listing predecessors first, the final layers are non-empty and each node follows its predecessors |
| Visualiser.CentredRow | firepipe/visualiser.py:39 | the row of names exists exactly when `center_text` succeeds on every name of the layer |
| Visualiser.CentredRowWidth | firepipe/visualiser.py:39 | with `node_width >= 4` the row is `len(layer) * node_width` characters wide |
| Visualiser.NameLine | firepipe/visualiser.py:39-45 | the name line is `center_text` of the joined centred names in the row, when both steps succeed; it then has at least two characters, so it is never empty |
| Visualiser.BarLine | firepipe/visualiser.py:36-40 | the bar line is `center_text` of `center_text('|', node_width)` repeated once per task, when both succeed; it then is never empty |
| Visualiser.SplitLine | firepipe/visualiser.py:42-43 | the separator is `center_text` of `'-' * node_width` repeated one time fewer than the wider of the two layers, when it succeeds; it then is never empty |
| Visualiser.SeparatorLines | firepipe/visualiser.py:41-44 | yields exactly the dashed separator (one cell narrower than the wider of the two layers) and then the layer's bar line, each centred in the row; it fails only if one of them raises; no line is empty |
| Visualiser.NameLines | firepipe/visualiser.py:45-47 | yields the layer's name line and, when another layer follows, its bar line; it fails only if one of them raises; no line is empty |
| Visualiser.LayerLines | firepipe/visualiser.py:39-48 | one layer yields, in this order, the separator and bar line when its size differs from the previous layer's, its name line, and a bar line when another layer follows, each with the text `center_text` gives; it cannot fail with both widths at least 3; no line is empty |
| Visualiser.DrawnStep | firepipe/visualiser.py:38-48 | appending a layer's lines keeps the earlier layers' lines in place and puts the new layer's lines where `LayerDrawn` says; the count grows by two per layer and two per size change |
| Visualiser.DrawnHere | firepipe/visualiser.py:41-47 | a layer's block placed right after the lines of the earlier layers puts its name line at `NameIndex`, its bar line below and its separator lines above |
| Visualiser.DrawnKept | firepipe/visualiser.py:38-49 | lines yielded later never move the lines of a layer already drawn |
| Visualiser.SizeChangesSnoc | firepipe/visualiser.py:41 | the size changes up to a layer are those before it, plus one when its size differs from the previous layer's |
| Visualiser.RenderLines | firepipe/visualiser.py:36-49 | with both widths at least 3 the generator ends; then layer `i`'s name line is at `2i + 2 * (size changes up to i)`, with its bar line below unless it is last and the separator and bar line above when its size changed; that is `2 * layers + 2 * size changes` lines in all (1 for no layers), the last one empty; when it raises, no line yielded so far is empty; `node_width < 3` fails on the bar before any line |
| Visualiser.DrawingUnique | firepipe/visualiser.py:38-49 | only one list of lines draws given layers: the blocks follow one another with no gap, and the empty line closes them |
| Visualiser.SameBlock | firepipe/visualiser.py:41-47 | two drawings of the same layers agree on each layer's block |
| Visualiser.DrawnFrom | firepipe/visualiser.py:38-48 | two drawings that agree on every block agree on every line from a block on |
| Visualiser.DrawnOrderUnique | firepipe/visualiser.py:21-49 | the layers and the lines drawn for an order are determined by it |
| Visualiser.RenderOrder | firepipe/visualiser.py:21-49 | for an order listing predecessors first, the layers drawn (`LayersOf`) are a non-empty partition of the order into its built layers under the grouping rule, sorted as stored, with predecessors in earlier layers; the lines are the full drawing of those layers (`Drawing`) when the generator ends, and contain no empty line when it raises |
| Visualiser.RenderProcess | firepipe/visualiser.py:20-49 | fails with a cyclic-graph error before any line exactly when the graph has a cycle; otherwise the layers are those of a topological order of all nodes, built under the grouping rule and stored as `LayersOf` says with the tasks' own names (so fixed by the order), and the lines draw each layer's task names, bars and separators at the positions `LayerDrawn` gives; with both widths at least 3 it never raises; an empty process draws just the empty line |

## Left out

- The orchestrator is not part of this model: its run loop, statuses, broadcasts and `TaskRef`. Its substance is parallel dispatch over worker processes.
- `render_orchestrator` is not modelled: it formats wall-clock values with an external table library.
- `TaskMetrics` is not modelled: it is timing data with no logic.
- `Task.execute` is not modelled: it is abstract, and its implementations do I/O.
- The command-line wiring, the package re-exports and the tests are not modelled.
- Resource pools and admission are not modelled; resources are carried only as a map value. No code in the core reads them. Python's `Resource` is an unhashable dataclass, so it could not actually key the map.
- Processes.Process.constructor: the resource map is copied as a value. The model does not capture that Python shares the caller's dict.
- The `logging.debug` call in `render_process` is not modelled.
- Visualiser.RenderProcess: the generator is modelled as the finished list of lines it yields before it ends or raises, not as lazy production.
- Visualiser.SortByName: stable because it inserts each task before the tasks with an equal name that follow it; this is how it is built, not a separate lemma.
- Visualiser.RenderLines: when the generator raises, states only that no line yielded so far is empty, not which partial lines they are.
- Graphs.Graph.TopologicalSort: the order of the seed queue and of each node's successors is left open, since Python takes both from set iteration. The statement covers every such order but does not fix one.
- The O(V+E) running time of Kahn's algorithm is not modelled.
- Graphs.Graph: nodes are any type with equality. The identity hash of `TaskNode` and its dataclass equality, which compares the `task` field, agree with reference equality here, because each task creates exactly one node.
