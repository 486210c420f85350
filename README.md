# Task sorter graph engine

This project models the graph engine of a small task sorter.

- `DirectedGraph` is a mutable directed graph keyed by string labels. It holds:
  - a `HashMap` from label to insertion index;
  - an array of adjacency bags;
  - an edge counter.
- `TopologicalSorter` holds three depth-first algorithms over that graph:
  - cycle detection;
  - a reverse-postorder topological sort;
  - a Kosaraju-style split into strongly connected components.

The model is imperative, as the Java is.

- `DirectedGraphs.DirectedGraph` is a class with the same fields:
  - `initialVertexCount` and `edgeCount` are integers;
  - `adj` is an `array<Bag>`, where a bag is a `seq<string>` with the most recently added entry first;
  - `vertexIndices` is a `map<string, int>`.
- A ghost field `names` lists the labels by index.
- The invariant `Valid()` also reproduces the source's growth quirk:
  - `initialVertexCount` is never written after the constructor, so the array has 20 slots, then 40;
  - from the 41st vertex on, `addVertex` stores the label in the map and then fails writing the array.
- Each method returns its exception as a value: an `Outcome`, or a `Result` whose errors are `IllegalName`, `DuplicateVertex`, `SelfLoop`, `UnknownVertex` and `IndexOutOfBounds`.
- A Java `null` argument is `Option.None`.

The algorithms are methods over `boolean[]` arrays (`array<bool>`). They keep the recursion of the source, and each loop body is a method of its own.

- Their correctness is stated against a ghost adjacency graph on indices (module `IndexGraphs`).
- The invariant behind every search is `Marking`: black vertices form the finishing order and grey vertices form the current path.
- `ClosedFrom` says every vertex finished after all of its successors. It is the invariant that gives:
  - acyclicity (`ClosedAcyclic`);
  - the topological order (`ReverseClosed`).
- The searches index the label array, which `getVertices` fills in the map's key order, by the vertex's insertion index. So the graph the source actually explores is `Explored(vertexIndices, adj, vertices)`. It is the real graph when the key order is the insertion order (`IndexConsistent`).
- The map's key order is modelled as an arbitrary enumeration, because `HashMap` gives no order.
- The classifying searches (`HasCycleDfs`, `PostorderDfs`) may fail only where `getAdjacencyList` throws. `Healthy()` names the states in which it cannot throw, and every algorithm states `Healthy() ==> r.Ok?`.

## Model

| member | source | states |
|---|---|---|
| Bags.Add | DirectedGraph.java:237-242 | the new item is first, the bag grows by one, and its multiset gains exactly that item |
| Bags.Remove | DirectedGraph.java:98-104 | unlinking entry `k` keeps the other entries in order and removes one copy of `bag[k]` from the multiset; this is the unlinking the corrected `RemoveEdge` performs, since the `remove` called there (DirectedGraph.java:257-258) is empty |
| Bags.RemoveAdded | DirectedGraph.java:98-104 | removing the first occurrence of an item just added gives back the old bag; this is the unlinking the corrected `RemoveEdge` performs, since the `remove` called there (DirectedGraph.java:257-258) is empty |
| Bags.TotalUpdate | DirectedGraph.java:76-77 | replacing one bag changes the edge total by the difference in sizes |
| DirectedGraphs.DirectedGraph.constructor | DirectedGraph.java:20-29 | an empty map, 20 empty bags, no edges; the invariant holds and the counter agrees with the bags |
| DirectedGraphs.DirectedGraph.AddVertex | DirectedGraph.java:37-48 | `null` is refused and a present name is refused, each with nothing changed; otherwise the name gets index `size()` and the other indices stay; the array doubles to 40 at the 21st vertex; from the 41st on, the name is stored and then `IndexOutOfBounds` is reported; edges are untouched and the invariant is kept |
| DirectedGraphs.DirectedGraph.ResizeArray | DirectedGraph.java:50-55 | a fresh array of twice `initialVertexCount` slots holds the old bags followed by empty slots; `initialVertexCount` keeps its value |
| DirectedGraphs.DirectedGraph.AddEdge | DirectedGraph.java:64-78 | the checks come in source order (null or empty, then self-loop, then unknown vertex); on success the target is prepended to the source vertex's bag only and `edgeCount` grows by one; a failure changes nothing; the counter keeps agreeing with the bags |
| DirectedGraphs.DirectedGraph.DeleteEdge | DirectedGraph.java:90-109 | the same checks as addEdge, except that there is no self-loop check; the answer is whether the target is in the bag; on true, `edgeCount` drops by one while the bags stay unchanged (the iterator's `remove` at 257-258 does nothing), so a counter that agreed no longer does |
| DirectedGraphs.DirectedGraph.RemoveEdge | DirectedGraph.java:90-109 | the corrected deleteEdge: the same answers, but on true the first occurrence is unlinked from the bag, so the counter keeps agreeing with the bags |
| DirectedGraphs.DirectedGraph.IsValidVertex | DirectedGraph.java:126-131 | an error exactly for null or empty names; otherwise true exactly when the name is a vertex |
| DirectedGraphs.DirectedGraph.Size | DirectedGraph.java:116-118 | in a valid graph, the number of vertices, with every vertex index below it, so arrays of this size have a slot for each vertex |
| DirectedGraphs.DirectedGraph.GetAdjacencyList | DirectedGraph.java:140-162 | null or empty and unknown names are refused; otherwise the vertex's bag in iteration order, or `IndexOutOfBounds` when the vertex has no slot or its bag is longer than `size()` (the copy array has `size()` cells) |
| DirectedGraphs.DirectedGraph.GetVertices | DirectedGraph.java:169-181 | every label exactly once, in some key order |
| DirectedGraphs.DirectedGraph.VerticesByIndex | DirectedGraph.java:169-181 | the corrected label array: every label exactly once, at its own index |
| DirectedGraphs.DirectedGraph.MakeReverseGraph | DirectedGraph.java:189-206 | fails (`IndexOutOfBounds`) exactly when the graph has more than 40 vertices; otherwise it returns a fresh valid graph with the same vertices, in which each edge `u -> w` occurs as often as `w -> u` occurs in the original, and whose counter is the original's number of bag entries |
| DirectedGraphs.DirectedGraph.InsertAll | DirectedGraph.java:192-195 | inserting the key list into an empty graph succeeds exactly when there are at most 40 keys, and then the vertex set is the key set |
| DirectedGraphs.DirectedGraph.InsertKey | DirectedGraph.java:194 | inserting the next key after the earlier ones succeeds exactly while fewer than 40 vertices are present, and then appends the key to the labels; the graph stays valid with no edges |
| DirectedGraphs.DirectedGraph.AddReversedBags | DirectedGraph.java:197-203 | after the loop over all keys, every edge `x -> y` of the reverse graph occurs as often as `y -> x` does in the original, and the reverse graph's counter is the sum of the original's bag sizes |
| DirectedGraphs.DirectedGraph.AddReversedBagAt | DirectedGraph.java:198-202 | one step of the loop over the keys extends the mirrored edge counts to one more key, and the counter grows by that key's bag size |
| DirectedGraphs.DirectedGraph.AddReversedBag | DirectedGraph.java:200-202 | adding the reversed edges of one vertex's bag accounts for exactly that vertex's out-edges, and the counter grows by the bag's size |
| DirectedGraphs.DirectedGraph.AddReversedEdge | DirectedGraph.java:201 | adding the reversed edge `w -> vertex` adds one copy of it to the mirrored counts, keeps the graph valid and raises the counter by one |
| DirectedGraphs.EnumerationTotal | DirectedGraph.java:197-203 | summing bag sizes over any enumeration of the keys gives the total number of bag entries |
| DirectedGraphs.InsertKeepsInvariant | DirectedGraph.java:46-47 | giving a new name the next index keeps the label-index bijection and the well-formedness of the bags |
| DirectedGraphs.AddKeepsInvariant | DirectedGraph.java:76 | prepending another known vertex to a bag keeps the bags well formed |
| DirectedGraphs.RemoveKeepsInvariant | DirectedGraph.java:98-104 | unlinking an entry from a bag keeps the bags well formed; this is the unlinking the corrected `RemoveEdge` performs, since the `remove` called there (DirectedGraph.java:257-258) is empty |
| DirectedGraphs.EmptyHealthy | TopologicalSorter.java:21-31 | a valid graph without vertices is one on which no adjacency lookup can fail |
| DirectedGraphs.ConsistentExplored | TopologicalSorter.java:39-40 | when the label array lists each label at its index, the explored graph is the graph itself |
| IndexGraphs.MarkingBound | TopologicalSorter.java:42-43 | while a vertex is still unmarked, the grey path and the finished vertices leave room for it, which bounds the recursion |
| IndexGraphs.MarkingEnter | TopologicalSorter.java:35-36 | marking an unmarked vertex and putting it on the path keeps the marking invariant |
| IndexGraphs.MarkingFinish | TopologicalSorter.java:53 | taking the top of the path off and finishing it keeps the marking invariant |
| IndexGraphs.ClosedFinish | TopologicalSorter.java:101 | finishing a vertex whose successors have all finished keeps the order closed |
| IndexGraphs.BackEdgeCycle | TopologicalSorter.java:47-49 | an edge from the top of a walk back to a vertex on it closes a cycle |
| IndexGraphs.ClosedAcyclic | TopologicalSorter.java:26-31 | a closed finishing order of all vertices means the graph has no cycle |
| IndexGraphs.ClosedJoin | TopologicalSorter.java:26-30 | finishing orders that are each closed concatenate into a closed order |
| IndexGraphs.ReverseClosed | TopologicalSorter.java:80-83 | in a closed finishing order, no edge leads from an earlier-finished vertex to a later-finished one |
| Sequences.LabelsEnumeration | TopologicalSorter.java:80-83 | the labels of a permutation of all positions enumerate the labels again |
| Sequences.ReversedEnumeration | TopologicalSorter.java:80-83 | reversing an enumeration gives an enumeration |
| Sequences.FlattenLength | TopologicalSorter.java:158-162 | a list of non-empty components has no more components than entries |
| TopologicalSorter.PostorderDfs | TopologicalSorter.java:88-102 | marks `v`, searches its unmarked successors and pushes `vertices[v]`; the finishing order extends the old one and ends with `v`; the stack grows by exactly the labels that finished; with no cycle, every vertex finished after its successors |
| TopologicalSorter.SearchSuccessors | TopologicalSorter.java:92-98 | after the loop over `v`'s adjacency list, and with no cycle, every successor of `v` has finished |
| TopologicalSorter.SearchSuccessor | TopologicalSorter.java:93-97 | an unmarked successor is searched, and with no cycle, the successor has finished afterwards |
| TopologicalSorter.HasCycleDfs | TopologicalSorter.java:34-55 | true only if the explored graph has a cycle; false means the search finished `v` and everything it reached after their successors, and left `onStack` as it found it |
| TopologicalSorter.CycleSuccessors | TopologicalSorter.java:39-51 | the loop over the adjacency list either finds a cycle or finishes every successor |
| TopologicalSorter.CycleSuccessor | TopologicalSorter.java:40-50 | a grey successor proves a cycle; an unmarked one is searched |
| TopologicalSorter.CycleRoot | TopologicalSorter.java:26-30 | a search from an unmarked root either proves a cycle, or leaves every position up to `v` marked, the finishing order closed and `onStack` as it was |
| TopologicalSorter.CycleSearch | TopologicalSorter.java:21-31 | the outer loop answers true exactly when the explored graph has a cycle (both directions) |
| TopologicalSorter.IsDirectedCycle | TopologicalSorter.java:17-32 | an answer about the explored graph in both directions; the graph's own cycles whenever the key order is the index order; false for an empty graph |
| TopologicalSorter.PostorderAll | TopologicalSorter.java:68-77 | the stack holds every position exactly once in finishing order, a closed order when there is no cycle |
| TopologicalSorter.SearchRoot | TopologicalSorter.java:74-76 | after position `v` of the outer loop, every position up to `v` is marked |
| TopologicalSorter.PopAll | TopologicalSorter.java:80-83 | popping `count` labels gives the top `count` entries of the stack, top first, and leaves the rest |
| TopologicalSorter.TopologicalOrder | TopologicalSorter.java:68-85 | a permutation of all labels; when the explored graph has no cycle, no explored edge goes from a later label to an earlier one |
| TopologicalSorter.SortTopologically | TopologicalSorter.java:64-86 | a permutation of all labels; under index-ordered keys and no cycle, every vertex comes before all vertices it has an edge to; empty for an empty graph |
| TopologicalSorter.SortedFacts | TopologicalSorter.java:80-85 | popping a complete finishing order lists every label once, and a closed order pops into an order in which no explored edge leads backwards |
| TopologicalSorter.ConsistentSorted | TopologicalSorter.java:57-59 | with the label array by index, the explored ordering property is the documented one about the graph's own edges |
| TopologicalSorter.FindStrongComponents | TopologicalSorter.java:115-164 | non-empty components that together list every vertex exactly once, at most as many as vertices; empty for an empty graph; `IndexOutOfBounds` for more than 40 vertices |
| TopologicalSorter.ComponentsInOrder | TopologicalSorter.java:141-163 | the second pass partitions the labels into non-empty components |
| TopologicalSorter.ComponentAt | TopologicalSorter.java:146-155 | an unmarked root adds one non-empty component made of exactly the newly finished labels |
| TopologicalSorter.NewComponent | TopologicalSorter.java:146-154 | a search from an unmarked vertex appends one non-empty component holding exactly the labels that finished in it |
| TopologicalSorter.SearchComponent | TopologicalSorter.java:147 | the search from an unmarked root pushes a non-empty run of labels, exactly those that finished |
| TopologicalSorter.StoreComponent | TopologicalSorter.java:150-152 | storing the next component appends it to the filled prefix |
| TopologicalSorter.Drain | TopologicalSorter.java:150-153 | copying the stack from its top into the last slot downwards gives the stack in bottom-to-top order and leaves it empty |
| TopologicalSorter.IsDirectedCycleByIndex | TopologicalSorter.java:17-32 | the corrected cycle check: true exactly when the graph has a cycle |
| TopologicalSorter.SortTopologicallyByIndex | TopologicalSorter.java:64-86 | the corrected sort: every vertex once, and in a graph without a cycle every vertex comes before all vertices it has an edge to |
| TopologicalSorter.SortKeyOrderCounterexample | TopologicalSorter.java:70 | with `b` inserted before `a`, edge `a -> b` and key order `a, b`, the explored graph has a cycle and the graph has none |
| TopologicalSorter.ConsistentEdge | TopologicalSorter.java:39-40 | with the label array by index, every bag entry is an explored edge |
| TopologicalSorter.KeyOrderCounterexample | TopologicalSorter.java:23 | with `b` inserted before `a`, edge `b -> a` and key order `a, b`, the explored graph has a cycle and the graph has none |

## Left out

- `TaskSorter.java` is not part of this model. It covers reading the task file, the command line and console output.
- `altMakeReverseGraph` (DirectedGraph.java:208-226) is private and never called.
- `HashMap` iteration order is an arbitrary enumeration of the keys. The concrete order of Java's hashing (`a` before `b` for the two one-letter keys) appears only in the doc comments of `KeyOrderCounterexample` and `SortKeyOrderCounterexample`; their statements take the key order as given.
- TopologicalSorter.FindStrongComponents: the model does not state that each component is strongly connected, or that the components are in topological order, which the source's comment promises. The code does not keep that promise.
  - Both passes search the original graph (line 131); the reverse graph only supplies its key order.
  - The second pass looks labels up in `sorted` by vertex index (line 147).
  - Example: edges `A->B`, `B->C`, `C->A` and `C->D`, with index-ordered keys, give one component of all four vertices.
  - Only the partition into non-empty components is proved.
- TopologicalSorter.TopologicalOrder and TopologicalSorter.SortTopologically: on a graph with a cycle the output is only stated to be a permutation. The source promises nothing more there.
- Exceptions are values: `IllegalArgumentException` becomes `IllegalName`, `DuplicateVertex`, `SelfLoop` or `UnknownVertex`, and `ArrayIndexOutOfBoundsException` becomes `IndexOutOfBounds`.
  - A failure inside a search ends the whole call with that error, as an exception would.
  - The `NullPointerException` that `vertexIndices.get(w)` would throw cannot happen: proved, because every bag entry is a vertex.
- `digraph == null` and `vertexIndices == null` checks are not modelled, because Dafny references are never null. The `null` name arguments are `Option.None`.
- Stack overflow from deep recursion is not modelled.
- `edgeCount` is a Java `int`, but the model's counter is an unbounded `int`. Since `deleteEdge` keeps returning true for an edge it never removes, repeated calls would in Java wrap the counter past `Integer.MIN_VALUE`; the model's counter just keeps decreasing. Only the first 40 vertices get an adjacency slot; after that the map keeps growing with every failed insertion, but `size()` could wrap only past 2^31 keys, which no `HashMap` holds in practice, so vertex counts are unbounded too.
- `java.util.Stack` is a `seq<string>` with its top at the end. `EmptyStackException` cannot happen: the number of pops equals the stack size.
- Array slots past `size()` that Java leaves `null` after `resizeArray` are empty bags in the model. They are never read before `addVertex` fills them.
- `Bag`'s linked nodes and its iterator are a `seq<string>` and an index loop.
- `System.arraycopy` and `Arrays.copyOf` are sequence slices.
- TopologicalSorter.HasCycleDfs: `onStack[i] ==> marked[i]` is not a separate clause. It follows from the requirement that `onStack` holds exactly the grey path, which `Marking` marks.
- Facts about the code that the model keeps as they are:
  - `addVertex` refuses only `null`, so it accepts the empty name (DirectedGraph.java:38-41). Its Javadoc (DirectedGraph.java:32-33) promises only the refusal of a duplicate name.
  - `initialVertexCount` is never updated, so storage stops at 40 slots (DirectedGraph.java:42-54).
  - The first pass of `findStrongComponents` searches `digraph`, not `reverse` (TopologicalSorter.java:131). So the Javadoc's promise of strongly connected components in topological order (TopologicalSorter.java:105-110) is not kept.
  - `ListIterator.remove` is empty (DirectedGraph.java:257-258). So `deleteEdge` breaks its Javadoc's promise to remove the edge (DirectedGraph.java:81-84).

## Findings

| source | as written | input that shows it | evidently intended | confidence | as-written member | corrected member |
|---|---|---|---|---|---|---|
| TopologicalSorter.java:23 | the label array comes from the map's key order but is indexed by insertion index (lines 39-40, 92-93) | add vertex `b`, then `a`, then edge `b -> a`; the keys iterate as `a, b`; `isDirectedCycle` then sees an edge from `a`'s slot to itself and answers true for an acyclic graph. `sortTopologically` (lines 70-101) reads the label array the same way: with `b` inserted before `a`, the edge `a -> b` and the same key order, the explored graph has a self-loop at position 0 (`SortKeyOrderCounterexample`), so the ordering promise of `SortTopologically` does not apply, and following lines 73-83 by hand gives `[b, a]`, against the edge; `SortTopologicallyByIndex` is the corrected sort | each label at its own index in the label array | not executed | TopologicalSorter.KeyOrderCounterexample | TopologicalSorter.IsDirectedCycleByIndex |
| DirectedGraph.java:102 | `iterator.remove()` calls the empty `remove` of DirectedGraph.java:257-258, so the bag keeps the edge while `edgeCount` drops | add vertices `a` and `b`, add edge `a -> b`, delete edge `a -> b`; the answer is true and `edgeCount` is 0, but `getAdjacencyList("a")` still lists `b` | the first matching entry is unlinked from the bag | not executed | DirectedGraphs.DirectedGraph.DeleteEdge | DirectedGraphs.DirectedGraph.RemoveEdge |
