# Verified model of a C++ data-structure library

This project is a Dafny model of a header-only C++ library of classic data
structures, with proofs of what each operation does. It covers four headers:

- **graphs/graphs.hpp** — `Graph<T>`, an adjacency-list graph with
  directed and weighted flags. It supports vertex and edge mutation,
  `join`/`+`, BFS, DFS, degrees, connectivity, distance, diameter, radius,
  girth and circumference. It has six variants: null, trivial, complete,
  cyclic, directed acyclic and bipartite.
- **linked_lists/linked_lists.hpp** — singly, doubly, circular and circular
  doubly linked lists: indexed insert and remove, search, reverse, sort,
  `+` and `merge`.
- **trees/trees.hpp** — binary search, AVL and red-black trees, a trie, a
  segment tree, a Fenwick (binary indexed) tree and an n-ary tree.
- **maps/maps.hpp** — three key/value maps: `HashMap` with separate
  chaining, `TreeMap` on an AVL tree, and `LinkedListMap`.

The C++ code changes its objects in place, so each data structure is a Dafny
`class`. Its fields are the object's state: the vertex set and adjacency
map, the list's element sequence and size counter, the tree or the bucket
table. Each method states that state's new value in its `ensures`. Each
class has an invariant, `Valid()`. For a map it ties the stored structure to
a ghost `contents: map<int, int>`, so the three maps share one
specification. Pure definitions sit in their own modules, with the lemmas
about them:

- the shortest-walk distance, BFS and DFS orders, eccentricity;
- acyclicity and two-colourability;
- sorted and stable orders, in-order sequences, red-black and AVL balance;
- range sums.

Loops in the source are `while` loops with invariants. The recursive
traversals (DFSUtil, hasCycleDFS, the tree helpers) are recursive methods
or functions. A thrown exception becomes a `Result`/`Outcome` value, and the
contract states the object's state after the throw.

Files:

- `wrappers.dfy` — `Option`, `Result`, `Outcome` and the error kinds.
- `graph_spec.dfy`, `graph_union.dfy`, `graph_search.dfy`,
  `graph_metrics.dfy`, `graph_dfs.dfy`, `graph_cycles.dfy`,
  `graph_girth.dfy` — the graph specification.
- `graph.dfy` — class `Graph`.
- `graph_variants.dfy` — the null, trivial and complete graphs.
- `graph_checked.dfy` — the acyclic, bipartite and cyclic graphs.
- `list_spec.dfy`, `list_sort.dfy`, `list_scans.dfy` — the sequence and
  sorting specification.
- `list_nodes.dfy` — the node classes `SinglyNode` and `DoublyNode` and
  the link updates the lists share.
- `singly_list.dfy`, `doubly_list.dfy`, `circular_list.dfy`,
  `circular_doubly_list.dfy` — the four list classes. The doubly, circular
  and circular doubly lists are chains of heap nodes; a ghost sequence of
  their nodes ties every `next` and `prev` link to a position.
- `binary_trees.dfy` — the binary tree datatype, search and heights.
- `bst.dfy`, `avl.dfy`, `rb.dfy`, `trie.dfy`, `segment_tree.dfy`,
  `range_sums.dfy`, `fenwick.dfy`, `nary.dfy` — the trees.
- `map_spec.dfy` — the shared map specification.
- `hash_map.dfy`, `tree_map.dfy`, `list_map.dfy` — the three maps.

## Model

| member | source | states |
|---|---|---|
| Graphs.Graph.constructor | graphs/graphs.hpp:43-44 | a new graph has no vertices and no lists, with the given directed and weighted flags (the Undirected, Directed, Connected, Disconnected and Weighted graph constructors are this one with fixed flags) |
| Graphs.Graph.AddVertex | graphs/graphs.hpp:50-56 | the vertex set gains the vertex and a new vertex gets an empty list; a vertex already present changes nothing, numVertices included; the edge count is unchanged |
| Graphs.Graph.AddEdge | graphs/graphs.hpp:64-72 | both endpoints become vertices; (dest, w) is appended to src's list, and (src, w) to dest's when undirected; the edge count grows by exactly one; dest becomes a successor of src (and src of dest when undirected); every neighbour stays a vertex and an undirected graph stays mirrored |
| GraphSpec.AddEdgeFacts | graphs/graphs.hpp:64-72 | adding an edge keeps every entry pointing at a vertex and an undirected graph mirrored, adds exactly dest to src's successors (src to dest's if undirected), leaves every other list alone and adds one to the edge count |
| GraphSpec.AddEdgeCount | graphs/graphs.hpp:431-437 | the edge count (the sum of the list lengths, halved when undirected) after addEdge is one more than before |
| Graphs.Graph.DeleteVertex | graphs/graphs.hpp:79-104 | returns whether the vertex was present; absent: nothing changes; present: the vertex and its list go, every entry pointing at it is removed from every other list, and no remaining list mentions it |
| GraphSpec.DeleteVertexFacts | graphs/graphs.hpp:79-104 | after deleteVertex every remaining successor set is the old one without the vertex, entries still point at vertices, and a mirrored graph stays mirrored |
| Graphs.Graph.DeleteEdge | graphs/graphs.hpp:112-144 | false with nothing changed when an endpoint is missing; otherwise true exactly when src had an entry to dest, every src→dest entry (and dest→src when undirected) is removed and the vertices are unchanged |
| GraphSpec.DeleteEdgeFacts | graphs/graphs.hpp:112-144 | after deleteEdge src's successors lose exactly dest (dest's lose src when undirected), all other lists are unchanged, entries still point at vertices and a mirrored graph stays mirrored |
| Graphs.Graph.Join | graphs/graphs.hpp:151-192 | mismatched directed or weighted flags throw logic_error before any change; otherwise the vertex set becomes the union and the lists become the join of the two graphs |
| GraphSpec.JoinFacts | graphs/graphs.hpp:151-192 | the joined graph has the union of the vertices, keeps every old entry, adds no second entry for an existing src→dest, and has every edge of the other graph (an undirected one once per pair, from the smaller end) |
| GraphUnion.JoinSucc | graphs/graphs.hpp:151-192 | after join, y is a successor of x exactly when it was one before or is one in the other graph (in an undirected graph not counting the other graph's self-loops) |
| GraphSpec.JoinSelf | graphs/graphs.hpp:151-192 | joining a graph with itself leaves it unchanged |
| GraphSpec.JoinCoversUndirected | graphs/graphs.hpp:184-188 | in undirected join every edge u–v of the other graph with u ≠ v ends up in the result, from either end |
| Graphs.Graph.Plus | graphs/graphs.hpp:199-220 | mismatched flags throw logic_error; otherwise a fresh graph whose vertices are the union and whose lists are this graph copied edge by edge and then joined with the other one |
| GraphUnion.PlusFacts | graphs/graphs.hpp:199-220 | in a + b, y is a successor of x exactly when it is one in a or in b, except that an undirected result drops self-loops |
| GraphUnion.CopyAdjFacts | graphs/graphs.hpp:203-215 | copying a graph edge by edge (each undirected pair from its smaller end) gives the same vertices and successor sets, except that undirected self-loops are lost |
| Graphs.Graph.BFS | graphs/graphs.hpp:229-311 | a missing start throws invalid_argument; otherwise the order starts at start, lists every vertex reachable from it exactly once and nothing else, in non-decreasing shortest-walk distance |
| Graphs.Graph.Traverse | graphs/graphs.hpp:255-290 | the queue loop of BFS ends with a BFS order and a visited set equal to the vertices in it |
| GraphSearch.FrontierOrder | graphs/graphs.hpp:258-290 | when the queue is empty, the visiting order is a BFS order |
| GraphSearch.FrontierDone | graphs/graphs.hpp:258-290 | when the queue is empty, the visited set is exactly the set of vertices reachable from start |
| GraphSpec.ShortestWalk | graphs/graphs.hpp:556-593 | any walk from s to t of length k gives a shortest distance of at most k |
| GraphSpec.DistUnique | graphs/graphs.hpp:556-593 | the shortest distance between two vertices is unique |
| Graphs.Graph.DFS | graphs/graphs.hpp:319-369 | a missing start throws invalid_argument; otherwise start first, every vertex reachable from start exactly once and nothing else, each later vertex a successor of one listed before it, in exactly the order of the recursive DFSUtil definition |
| Graphs.Graph.DFSUtil | graphs/graphs.hpp:790-839 | a visit adds the vertex to visited and to the end of the order, keeps visited equal to the order's vertices, returns only after every successor of every finished vertex is visited, and leaves the visited set and order the recursive definition gives |
| GraphDepth.DfsVisit | graphs/graphs.hpp:790-830 | DFSUtil as a function: the vertex is marked and appended, the result keeps every vertex visited before and extends the old order |
| GraphDepth.DfsScan | graphs/graphs.hpp:820-828 | the loop of DFSUtil over a list of entries: an unvisited destination is searched in full before the next entry; visited only grows and the order only extends |
| GraphDepth.DfsVisitDepthFirst | graphs/graphs.hpp:790-830 | the order is depth first: from 1 with lists 1: [2, 3] and 2: [4] it is [1, 2, 4, 3] |
| Graphs.Graph.NumVertices | graphs/graphs.hpp:425 | numVertices equals the number of vertices |
| Graphs.Graph.GetNumEdges | graphs/graphs.hpp:431-437 | the sum of the list lengths, halved when undirected |
| Graphs.Graph.IsConnected | graphs/graphs.hpp:443-465 | true for no vertices; otherwise true exactly when every vertex is reachable from the smallest one, which in an undirected graph means connected |
| GraphSpec.ReachAllConnected | graphs/graphs.hpp:443-465 | in a mirrored graph, reaching every vertex from one vertex is the same as every vertex reaching every other |
| Graphs.Graph.GetDegree | graphs/graphs.hpp:478-493 | a missing vertex throws invalid_argument; otherwise the length of its list, at least the number of distinct successors |
| Graphs.Graph.GetInDegree | graphs/graphs.hpp:500-518 | a missing vertex throws invalid_argument; undirected: its degree; directed: the number of entries pointing at it in all lists, 0 exactly when no list mentions it |
| GraphSpec.InCountZero | graphs/graphs.hpp:508-516 | the in-entry count over a set of vertices is 0 exactly when none of them has the vertex as a successor |
| Graphs.Graph.GetMinDegree | graphs/graphs.hpp:524-533 | 0 for no vertices; otherwise the degree of some vertex and at most every vertex's degree |
| Graphs.Graph.GetMaxDegree | graphs/graphs.hpp:539-548 | 0 for no vertices; otherwise the degree of some vertex and at least every vertex's degree |
| Graphs.Graph.GetDistance | graphs/graphs.hpp:556-593 | a missing endpoint throws invalid_argument; otherwise -1 exactly when dest is unreachable from src, and else the length of a shortest walk from src to dest |
| Graphs.Graph.Eccentricity | graphs/graphs.hpp:632-642 | the inner loop of getDiameter/getRadius for one source: -1 exactly when some vertex is unreachable from it, otherwise its largest distance to any vertex |
| Graphs.Graph.GetDiameter | graphs/graphs.hpp:599-618 | 0 for at most one vertex; -1 exactly when some vertex is unreachable from another; otherwise the largest distance between any two vertices |
| Graphs.Graph.GetRadius | graphs/graphs.hpp:625-648 | 0 for at most one vertex; -1 exactly when some vertex is unreachable from another; otherwise the least eccentricity over all vertices |
| GraphMetrics.RadiusDiameter | graphs/graphs.hpp:599-648 | the radius is at most the diameter, and in an undirected graph the diameter is at most twice the radius |
| GraphMetrics.LeastEcc | graphs/graphs.hpp:631-645 | an eccentricity no larger than any vertex's eccentricity is the radius |
| Graphs.Graph.GetGirth | graphs/graphs.hpp:655-697 | -1 exactly for no vertices or when no per-vertex BFS closes a round; otherwise the shortest round over all the searches, found by one of them, at least 2 and a closed round (in an undirected graph a closed walk) |
| Graphs.Graph.GirthFrom | graphs/graphs.hpp:662-693 | the BFS from one start leaves the shorter of the girth so far and the shortest round that search closes, and every length it records is a closed round of at least 2 |
| Graphs.Graph.GirthSeed | graphs/graphs.hpp:665-673 | the first loop of one search: the start at distance 0, each entry's destination at distance 1 and queued with the start as its parent |
| Graphs.Graph.GirthExpand | graphs/graphs.hpp:680-692 | the inner loop over the entries of one dequeued vertex computes the search state the definition gives, keeping reached vertices, the queue and the girth sound |
| GraphGirth.Shorter | graphs/graphs.hpp:689 | min of two optional lengths: missing only when both are, and no longer than either |
| GraphGirth.Seed | graphs/graphs.hpp:665-673 | the seeding loop reaches only destinations of the start's entries, keeps every queued vertex reached, and leaves the girth alone |
| GraphGirth.Visit | graphs/graphs.hpp:683-690 | one entry current→w: the reached set grows by w at most, no distance already set changes, the queue grows by one exactly when w is new |
| GraphGirth.Expand | graphs/graphs.hpp:680-692 | the entries of one vertex in order: reached vertices only grow, by destinations of those entries, no old distance changes, and the queue grows by one per newly reached vertex |
| GraphGirth.ExpandGirth | graphs/graphs.hpp:680-692 | expanding a vertex moves the same vertices whatever the girth so far, and lowers that girth to the shortest round it closes |
| GraphGirth.DrainGirth | graphs/graphs.hpp:675-693 | a search started with a girth already found ends with the shorter of that girth and the round it finds alone |
| GraphGirth.ShortestStep | graphs/graphs.hpp:660-697 | after one more start, the girth is still the shortest round of all searches so far, found by one of them, and missing exactly when none finds one |
| GraphMetrics.RoundIsClosedWalk | graphs/graphs.hpp:686-689 | in an undirected graph a closed round of length r is a closed walk of length r |
| Graphs.Graph.GetCircumference | graphs/graphs.hpp:703-717 | -1 for no vertices or when no start has a cycle back to itself; otherwise the largest value dfsLongestCycle gives over all starts, between 3 and the vertex count, with a closed walk of that length |
| GraphDepth.LongestCycle | graphs/graphs.hpp:916-939 | dfsLongestCycle gives 0 or a length between 3 and the vertex count of a closed walk through start |
| GraphDepth.CycleFrom | graphs/graphs.hpp:709-713 | the value of dfsLongestCycle from start with nothing visited: 0 or the length of a closed walk through start of at least 3 |
| Graphs.Graph.HasEntryTo | graphs/graphs.hpp:170-182 | the scan for an existing entry from src finds one exactly when dest is a successor of src |
| GraphVariants.NullGraph.constructor | graphs/graphs.hpp:956 | a null graph starts empty, undirected and without edges |
| GraphVariants.NullGraph.AddVertex | graphs/graphs.hpp:961-963 | the vertex is added and the graph still has no edges |
| GraphVariants.NullGraph.AddEdge | graphs/graphs.hpp:968-970 | always throws logic_error, so the edge count stays 0 |
| GraphVariants.JoinRefusingEdges | graphs/graphs.hpp:151-192 | the base join on an edgeless graph whose addEdge always throws: the vertices of both graphs, still no edges, and it passes exactly when the other graph has no entry from a smaller to a larger vertex |
| GraphVariants.RefuseEntries | graphs/graphs.hpp:166-191 | the copy loop for one source vertex reaches addEdge exactly when some entry goes to a larger vertex |
| GraphVariants.NullGraph.Join | graphs/graphs.hpp:151-192 | join on a null graph: the other graph's vertices are added, and it passes exactly when there is no entry to copy, throwing logic_error otherwise |
| GraphVariants.EdgeFreeCount | graphs/graphs.hpp:431-437 | a graph whose lists are all empty has edge count 0 |
| GraphVariants.TrivialGraph.constructor | graphs/graphs.hpp:1000-1002 | a trivial graph has exactly its one vertex and no edges |
| GraphVariants.TrivialGraph.AddEdge | graphs/graphs.hpp:1007-1009 | always throws logic_error |
| GraphVariants.TrivialGraph.Join | graphs/graphs.hpp:151-192 | join on a trivial graph: the other graph's vertices stay added, and it passes exactly when there is no entry to copy, throwing logic_error otherwise |
| GraphVariants.CompleteGraph.constructor | graphs/graphs.hpp:1119 | a complete graph starts empty and undirected |
| GraphVariants.CompleteGraph.AddVertex | graphs/graphs.hpp:1124-1135 | corrected addVertex: a present vertex changes nothing; a new one is joined to every old vertex, so every vertex has degree n - 1 and there are n(n-1)/2 edges |
| GraphVariants.CompleteGraph.AddVertexAsWritten | graphs/graphs.hpp:1124-1135 | addVertex as written: when some old vertex is smaller than the new one, the new vertex ends up with a self-loop and the graph is no longer complete |
| GraphVariants.CompleteCounts | graphs/graphs.hpp:1111-1135 | in a complete simple undirected graph every vertex has every other vertex as a successor, its degree is n - 1, and there are n(n-1)/2 edges |
| GraphVariants.LinkedComplete | graphs/graphs.hpp:1130-1134 | linking a new vertex to every vertex of a complete graph gives a complete graph on one more vertex |
| GraphVariants.SelfLoopIncomplete | graphs/graphs.hpp:1130-1134 | a graph with a self-loop is not complete |
| GraphVariants.AddEdgeUndo | graphs/graphs.hpp:1244-1263 | deleting a freshly added edge (not present before) gives back the old graph plus the two endpoints as vertices |
| GraphCycles.BackEntryCycle | graphs/graphs.hpp:1217-1233 | an entry back to a vertex on the current recursion path closes a directed cycle |
| GraphCycles.FinishedAcyclic | graphs/graphs.hpp:1217-1233 | when every vertex has finished without a back entry, the graph has no directed cycle |
| CheckedGraphs.DirectedAcyclicGraph.constructor | graphs/graphs.hpp:1239 | a DAG starts empty and directed |
| CheckedGraphs.DirectedAcyclicGraph.HasCycleDFS | graphs/graphs.hpp:1217-1233 | a reported cycle is a real directed cycle; otherwise the vertex and all it reaches are finished, and the recursion stack is as before |
| CheckedGraphs.DirectedAcyclicGraph.FindCycle | graphs/graphs.hpp:1248-1262 | the search from every unvisited vertex finds a cycle exactly when the graph has a directed cycle |
| CheckedGraphs.DirectedAcyclicGraph.AddEdge | graphs/graphs.hpp:1244-1263 | passes exactly when the graph with the edge is acyclic, and then the edge is in; otherwise throws logic_error, the edge is removed again, and the endpoints stay as vertices |
| CheckedGraphs.DirectedAcyclicGraph.Join | graphs/graphs.hpp:151-192 | join with the virtual addEdge: mismatched flags throw with nothing changed; otherwise the vertices of both graphs, the graph stays acyclic, and when no addEdge throws the lists are exactly the base join |
| CheckedGraphs.DirectedAcyclicGraph.CopyEntries | graphs/graphs.hpp:166-191 | the entries of one source vertex copied through the acyclicity-checking addEdge: the vertices stay, and if none throws the lists are the join of those entries |
| CheckedGraphs.DagRollback | graphs/graphs.hpp:1253-1258 | removing the rejected edge gives the old graph plus the endpoints, which is still acyclic |
| CheckedGraphs.AcyclicAddVertex | graphs/graphs.hpp:1245 | adding a vertex keeps a graph acyclic |
| GraphCycles.OddRound | graphs/graphs.hpp:1297-1303 | two walks from one start with lengths of the same parity, ending at the two ends of an edge, mean the graph is not two-colourable |
| CheckedGraphs.BipartiteGraph.constructor | graphs/graphs.hpp:1314 | a bipartite graph starts empty and undirected |
| CheckedGraphs.BipartiteGraph.ColourFrom | graphs/graphs.hpp:1286-1305 | the BFS from one uncoloured start either extends the colouring properly over start's component, or shows the graph is not two-colourable |
| CheckedGraphs.PaintNeighbours | graphs/graphs.hpp:1297-1304 | colouring one vertex's neighbours keeps the BFS colouring state or shows an odd cycle |
| CheckedGraphs.BipartiteGraph.IsBipartiteCheck | graphs/graphs.hpp:1281-1308 | true exactly when the graph has a proper two-colouring |
| CheckedGraphs.SettledProper | graphs/graphs.hpp:1306-1307 | a colouring that covers every vertex with no clash is a proper two-colouring |
| CheckedGraphs.BipartiteGraph.AddEdge | graphs/graphs.hpp:1319-1340 | passes exactly when the graph with the edge is two-colourable, and then the edge is in; otherwise throws logic_error, both directions are removed, and the endpoints stay as vertices |
| CheckedGraphs.BipartiteGraph.Join | graphs/graphs.hpp:151-192 | join with the virtual addEdge: mismatched flags throw with nothing changed; otherwise the vertices of both graphs, the graph stays two-colourable, and when no addEdge throws the lists are exactly the base join |
| CheckedGraphs.BipartiteGraph.CopyEntries | graphs/graphs.hpp:166-191 | the entries of one source vertex copied through the colouring-checking addEdge: the vertices stay, and if none throws the lists are the join of those entries |
| CheckedGraphs.BipartiteRollback | graphs/graphs.hpp:1324-1336 | removing the rejected edge in both directions gives the old graph plus the endpoints, still two-colourable |
| GraphCycles.SameSuccColourable | graphs/graphs.hpp:1319-1340 | graphs with the same successor sets are two-colourable together |
| CheckedGraphs.CyclicGraph.constructor | graphs/graphs.hpp:1176 | a cyclic graph starts empty, with the given directed flag |
| CheckedGraphs.CyclicGraph.HasCycleDFS | graphs/graphs.hpp:1156-1169 | with no edges it never reports a cycle; in an undirected graph a report means a self-loop, a repeated entry or a ring of three or more vertices; when it reports none, every vertex it visited has only entries to its DFS parent or children |
| CheckedGraphs.CyclicGraph.HasCycle | graphs/graphs.hpp:1182-1193 | no edges: false; a self-loop: true; false only when every entry joins a parent and a child of one DFS forest; in an undirected graph true only for a repeated entry or a graph that is no such forest |
| CheckedGraphs.RingNotForest | graphs/graphs.hpp:1156-1193 | a ring of three or more distinct vertices cannot have all its entries follow a DFS forest |
| CheckedGraphs.SeenNotForest | graphs/graphs.hpp:1156-1193 | whatever hasCycleDFS runs into in an undirected graph is a repeated entry or shows the graph is no DFS forest |
| CheckedGraphs.DirectedForestReported | graphs/graphs.hpp:1156-1193 | the directed limit of hasCycle: the graph 1 → 2, 3 → 2 is a forest without repeated entries, yet the search from 3 meets the already visited 2, which is not its parent |
| CheckedGraphs.ForestNoSelfLoops | graphs/graphs.hpp:1156-1169 | a graph whose entries all follow a DFS forest has no self-loop |
| GraphSpec.AddVertexAdj | graphs/graphs.hpp:50-56 | the lists after addVertex: the vertex gets an empty list if new, and every old list is kept |
| GraphSpec.RemoveDest | graphs/graphs.hpp:94-101 | removing the entries to one vertex keeps every other entry and shortens the list by the number removed |
| GraphSpec.SuccBound | graphs/graphs.hpp:478-493 | a list has at least as many entries as distinct successors |
| GraphSpec.CountDest | graphs/graphs.hpp:508-516 | the inner loop of getInDegree counts the entries to the vertex in one list |
| GraphSpec.SetMin | graphs/graphs.hpp:449 | the first vertex of the ordered vertex set is its least element |
| GraphSpec.WalkReverse | graphs/graphs.hpp:443-465 | in an undirected graph every walk can be walked back with the same length |
| GraphSpec.Dist | graphs/graphs.hpp:556-593 | the shortest-walk distance between reachable vertices |
| GraphMetrics.EccUnique | graphs/graphs.hpp:632-642 | a vertex has one eccentricity |
| GraphMetrics.ThroughCentre | graphs/graphs.hpp:599-648 | in an undirected graph any two vertices are joined through a centre, at distance at most twice its eccentricity |
| GraphDepth.CycleScan | graphs/graphs.hpp:924-936 | the loop over one vertex's entries in dfsLongestCycle gives 0 or the length, between 3 and the vertex count, of a closed walk through start |
| GraphDepth.DiscoveredSnoc | graphs/graphs.hpp:790-839 | appending a successor of an already listed vertex keeps every DFS entry discovered from an earlier one |
| GraphVariants.UndoDirected | graphs/graphs.hpp:1253-1258 | in a directed graph, deleting a fresh edge right after adding it restores the lists |
| GraphVariants.UndoUndirected | graphs/graphs.hpp:1324-1336 | in an undirected graph, deleting both directions of a fresh non-loop edge right after adding it restores the lists |
| GraphVariants.Next | graphs/graphs.hpp:1130-1132 | the next vertex in the ordered set after x, or none when x is the largest |
| GraphVariants.CompleteGraph.LinkAll | graphs/graphs.hpp:1130-1132 | the corrected loop joins the new vertex to each old vertex in order |
| GraphVariants.CompleteGraph.Sweep | graphs/graphs.hpp:1130-1132 | the loop as written: when an old vertex is smaller than the new one the loop later reaches the new vertex itself and links it to itself |
| GraphCycles.WalkColour | graphs/graphs.hpp:1281-1308 | under a proper two-colouring, walking k steps flips the colour k times |
| GraphCycles.SameSuccWalks | graphs/graphs.hpp:1319-1340 | graphs with the same successor sets have the same walks |
| CheckedGraphs.DirectedAcyclicGraph.DagRoot | graphs/graphs.hpp:1249-1261 | the body of the loop over all vertices: a reported cycle is real; otherwise the vertex and all it reaches are finished |
| CheckedGraphs.DirectedAcyclicGraph.Rollback | graphs/graphs.hpp:1253-1258 | deleting the rejected edge leaves the old lists plus the two endpoints as vertices |
| CheckedGraphs.BipartiteGraph.Rollback | graphs/graphs.hpp:1324-1336 | deleting both directions of the rejected edge leaves the old lists plus the two endpoints as vertices |
| CheckedGraphs.CyclicGraph.SearchRoot | graphs/graphs.hpp:1185-1190 | the body of hasCycle's loop: no edges means no cycle reported; an undirected report is a self-loop, repeated entry or ring; otherwise the vertex and all it reaches are visited with forest entries |
| CheckedGraphs.CycForest | graphs/graphs.hpp:1182-1193 | a search that visited every vertex without reporting a cycle shows that every entry joins a DFS parent and child |
| CheckedGraphs.ForestNoSelfLoop | graphs/graphs.hpp:1156-1169 | a graph whose entries all follow a DFS forest has no self-loop at a given vertex |
| SinglyLists.SinglyLinkedList.constructor | linked_lists/linked_lists.hpp:88 | singly linked list: a new list is empty with listSize 0 |
| SinglyLists.SinglyLinkedList.Copy | linked_lists/linked_lists.hpp:94-100 | singly linked list: the copy holds the same elements in the same order |
| SinglyLists.SinglyLinkedList.AddFirst | linked_lists/linked_lists.hpp:114-119 | singly linked list: the value becomes element 0, the old elements follow in order, and listSize still counts the elements |
| SinglyLists.SinglyLinkedList.AddLast | linked_lists/linked_lists.hpp:121-134 | singly linked list: the value is appended after the old elements |
| SinglyLists.SinglyLinkedList.AddAt | linked_lists/linked_lists.hpp:136-151 | singly linked list: an index past the size throws out_of_range with the list unchanged; otherwise the value is inserted at that index and the others keep their order |
| SinglyLists.SinglyLinkedList.RemoveFirst | linked_lists/linked_lists.hpp:153-164 | singly linked list: an empty list throws runtime_error unchanged; otherwise it returns the old first element and the list loses exactly it |
| SinglyLists.SinglyLinkedList.RemoveLast | linked_lists/linked_lists.hpp:166-185 | singly linked list: an empty list throws runtime_error unchanged; otherwise it returns the old last element and the list loses exactly it |
| SinglyLists.SinglyLinkedList.RemoveAt | linked_lists/linked_lists.hpp:187-203 | singly linked list: an index at or past the size throws out_of_range unchanged; otherwise it returns that element and the list loses exactly that position |
| SinglyLists.SinglyLinkedList.Remove | linked_lists/linked_lists.hpp:205-227 | singly linked list: true exactly when the value occurs; then only its first occurrence is removed, otherwise the list is unchanged |
| SinglyLists.SinglyLinkedList.Get | linked_lists/linked_lists.hpp:229-234 | singly linked list: out_of_range at or past the size, otherwise the element at the index |
| SinglyLists.SinglyLinkedList.Front | linked_lists/linked_lists.hpp:251-254 | singly linked list: runtime_error on an empty list, otherwise the first element |
| SinglyLists.SinglyLinkedList.Back | linked_lists/linked_lists.hpp:256-261 | singly linked list: runtime_error on an empty list, otherwise the last element |
| SinglyLists.SinglyLinkedList.IndexOf | linked_lists/linked_lists.hpp:263-272 | singly linked list: the first index holding the value, -1 exactly when it is absent |
| SinglyLists.SinglyLinkedList.LastIndexOf | linked_lists/linked_lists.hpp:274-284 | singly linked list: the last index holding the value, -1 exactly when it is absent |
| SinglyLists.SinglyLinkedList.Contains | linked_lists/linked_lists.hpp:286-288 | singly linked list: true exactly when the value occurs |
| SinglyLists.SinglyLinkedList.Size | linked_lists/linked_lists.hpp:290-292 | singly linked list: the size field equals the number of elements |
| SinglyLists.SinglyLinkedList.IsEmpty | linked_lists/linked_lists.hpp:294-296 | singly linked list: true exactly when there are no elements |
| SinglyLists.SinglyLinkedList.Clear | linked_lists/linked_lists.hpp:298-305 | singly linked list: the list is empty afterwards |
| SinglyLists.SinglyLinkedList.Reverse | linked_lists/linked_lists.hpp:307-320 | singly linked list: the elements in reverse order |
| SinglyLists.SinglyLinkedList.Sort | linked_lists/linked_lists.hpp:322-330 | singly linked list: the merge sort with <= (or >=) gives a stably sorted permutation of the old elements, ascending or descending |
| SinglyLists.SinglyLinkedList.Plus | linked_lists/linked_lists.hpp:332-340 | singly linked list: a fresh list holding this list followed by the other; both operands are unchanged |
| SinglyLists.SinglyLinkedList.Merge | linked_lists/linked_lists.hpp:342-348 | singly linked list: the other list's elements appended in order |
| DoublyLists.DoublyLinkedList.constructor | linked_lists/linked_lists.hpp:431 | doubly linked list: a new list is empty with listSize 0 |
| DoublyLists.DoublyLinkedList.Copy | linked_lists/linked_lists.hpp:437-443 | doubly linked list: the copy holds the same elements in the same order |
| DoublyLists.DoublyLinkedList.AddFirst | linked_lists/linked_lists.hpp:457-467 | doubly linked list: the value becomes element 0, the old elements follow in order, and listSize still counts the elements |
| DoublyLists.DoublyLinkedList.AddLast | linked_lists/linked_lists.hpp:469-479 | doubly linked list: the value is appended after the old elements |
| DoublyLists.DoublyLinkedList.AddAt | linked_lists/linked_lists.hpp:481-504 | doubly linked list: an index past the size throws out_of_range with the list unchanged; otherwise the value is inserted at that index and the others keep their order |
| DoublyLists.DoublyLinkedList.RemoveFirst | linked_lists/linked_lists.hpp:506-524 | doubly linked list: an empty list throws runtime_error unchanged; otherwise it returns the old first element and the list loses exactly it |
| DoublyLists.DoublyLinkedList.RemoveLast | linked_lists/linked_lists.hpp:526-544 | doubly linked list: an empty list throws runtime_error unchanged; otherwise it returns the old last element and the list loses exactly it |
| DoublyLists.DoublyLinkedList.RemoveAt | linked_lists/linked_lists.hpp:546-568 | doubly linked list: an index at or past the size throws out_of_range unchanged; otherwise it returns that element and the list loses exactly that position |
| DoublyLists.DoublyLinkedList.Remove | linked_lists/linked_lists.hpp:570-589 | doubly linked list: true exactly when the value occurs; then only its first occurrence is removed, otherwise the list is unchanged |
| DoublyLists.DoublyLinkedList.Get | linked_lists/linked_lists.hpp:591-596 | doubly linked list: out_of_range at or past the size, otherwise the element at the index |
| DoublyLists.DoublyLinkedList.Front | linked_lists/linked_lists.hpp:613-616 | doubly linked list: runtime_error on an empty list, otherwise the first element |
| DoublyLists.DoublyLinkedList.Back | linked_lists/linked_lists.hpp:618-621 | doubly linked list: runtime_error on an empty list, otherwise the last element |
| DoublyLists.DoublyLinkedList.IndexOf | linked_lists/linked_lists.hpp:623-632 | doubly linked list: the first index holding the value, -1 exactly when it is absent |
| DoublyLists.DoublyLinkedList.LastIndexOf | linked_lists/linked_lists.hpp:634-643 | doubly linked list: the last index holding the value, -1 exactly when it is absent |
| DoublyLists.DoublyLinkedList.Contains | linked_lists/linked_lists.hpp:645-647 | doubly linked list: true exactly when the value occurs |
| DoublyLists.DoublyLinkedList.Size | linked_lists/linked_lists.hpp:649-651 | doubly linked list: the size field equals the number of elements |
| DoublyLists.DoublyLinkedList.IsEmpty | linked_lists/linked_lists.hpp:653-655 | doubly linked list: true exactly when there are no elements |
| DoublyLists.DoublyLinkedList.Clear | linked_lists/linked_lists.hpp:657-665 | doubly linked list: the list is empty afterwards |
| DoublyLists.DoublyLinkedList.Reverse | linked_lists/linked_lists.hpp:667-682 | doubly linked list: the elements in reverse order |
| DoublyLists.DoublyLinkedList.Sort | linked_lists/linked_lists.hpp:684-705 | doubly linked list: the bubble sort with strict comparisons gives a stably sorted permutation of the old elements, ascending or descending, the same list the merge sort gives |
| DoublyLists.DoublyLinkedList.Plus | linked_lists/linked_lists.hpp:707-715 | doubly linked list: a fresh list holding this list followed by the other; both operands are unchanged |
| DoublyLists.DoublyLinkedList.Merge | linked_lists/linked_lists.hpp:717-723 | doubly linked list: the other list's elements appended in order |
| DoublyLists.DoublyLinkedList.NodeAt | linked_lists/linked_lists.hpp:414-428 | getNodeAt: the walk from the head (first half) or back from the tail (second half) ends at the node holding position index |
| DoublyLists.DoublyLinkedList.LinkBefore | linked_lists/linked_lists.hpp:496-503 | the splice of addAt: a fresh node holding the value takes position index, the old nodes and elements after it move up by one, and the list stays linked both ways |
| DoublyLists.DoublyLinkedList.Unlink | linked_lists/linked_lists.hpp:559-566 | the unlinking of removeAt and remove: the inner node at index leaves, the nodes and elements after it move down by one, and the list stays linked both ways |
| DoublyLists.DoublyLinkedList.ExchangeLinks | linked_lists/linked_lists.hpp:668-676 | the loop of reverse: every node's prev and next are exchanged, so the chain is linked from the old tail to the old head, and the loop ends holding the old tail's predecessor |
| DoublyLists.DoublyLinkedList.ExchangeData | linked_lists/linked_lists.hpp:696-701 | the exchange of sort: the nodes stay, and the elements at j and j + 1 trade places |
| DoublyLists.DoublyLinkedList.PassStep | linked_lists/linked_lists.hpp:691-702 | one step of a sort pass: data is exchanged exactly when the strict comparison rejects the pair, keeping the pass invariant (same elements, equal keys in order, the settled tail, everything before the step no larger) one position further |
| DoublyLists.DoublyLinkedList.SortPass | linked_lists/linked_lists.hpp:689-703 | one pass of sort: the nodes stay, the elements are a stable permutation, one more position at the end is settled, and a pass without exchanges means the list was already sorted |
| CircularLists.CircularLinkedList.constructor | linked_lists/linked_lists.hpp:804 | circular singly linked list: a new list is empty with listSize 0 |
| CircularLists.CircularLinkedList.Copy | linked_lists/linked_lists.hpp:811-819 | circular singly linked list: the copy holds the same elements in the same order |
| CircularLists.CircularLinkedList.AddFirst | linked_lists/linked_lists.hpp:837-848 | circular singly linked list: the value becomes element 0, the old elements follow in order, and listSize still counts the elements |
| CircularLists.CircularLinkedList.AddLast | linked_lists/linked_lists.hpp:850-853 | circular singly linked list: the value is appended after the old elements |
| CircularLists.CircularLinkedList.AddAt | linked_lists/linked_lists.hpp:855-875 | circular singly linked list: an index past the size throws out_of_range with the list unchanged; otherwise the value is inserted at that index and the others keep their order |
| CircularLists.CircularLinkedList.RemoveFirst | linked_lists/linked_lists.hpp:878-896 | circular singly linked list: an empty list throws runtime_error unchanged; otherwise it returns the old first element and the list loses exactly it |
| CircularLists.CircularLinkedList.RemoveLast | linked_lists/linked_lists.hpp:898-920 | circular singly linked list: an empty list throws runtime_error unchanged; otherwise it returns the old last element and the list loses exactly it |
| CircularLists.CircularLinkedList.RemoveAt | linked_lists/linked_lists.hpp:922-942 | circular singly linked list: an index at or past the size throws out_of_range unchanged; otherwise it returns that element and the list loses exactly that position |
| CircularLists.CircularLinkedList.Remove | linked_lists/linked_lists.hpp:944-970 | circular singly linked list: true exactly when the value occurs; then only its first occurrence is removed, otherwise the list is unchanged |
| CircularLists.CircularLinkedList.Get | linked_lists/linked_lists.hpp:973-978 | circular singly linked list: out_of_range at or past the size, otherwise the element at the index |
| CircularLists.CircularLinkedList.Front | linked_lists/linked_lists.hpp:995-998 | circular singly linked list: runtime_error on an empty list, otherwise the first element |
| CircularLists.CircularLinkedList.Back | linked_lists/linked_lists.hpp:1000-1003 | circular singly linked list: runtime_error on an empty list, otherwise the last element |
| CircularLists.CircularLinkedList.IndexOf | linked_lists/linked_lists.hpp:1006-1018 | circular singly linked list: the first index holding the value, -1 exactly when it is absent |
| CircularLists.CircularLinkedList.LastIndexOf | linked_lists/linked_lists.hpp:1020-1033 | circular singly linked list: the last index holding the value, -1 exactly when it is absent |
| CircularLists.CircularLinkedList.Contains | linked_lists/linked_lists.hpp:1035-1037 | circular singly linked list: true exactly when the value occurs |
| CircularLists.CircularLinkedList.Size | linked_lists/linked_lists.hpp:1040-1042 | circular singly linked list: the size field equals the number of elements |
| CircularLists.CircularLinkedList.IsEmpty | linked_lists/linked_lists.hpp:1044-1046 | circular singly linked list: true exactly when there are no elements |
| CircularLists.CircularLinkedList.Clear | linked_lists/linked_lists.hpp:1048-1061 | circular singly linked list: the list is empty afterwards |
| CircularLists.CircularLinkedList.Reverse | linked_lists/linked_lists.hpp:1063-1079 | circular singly linked list: the elements in reverse order |
| CircularLists.CircularLinkedList.Sort | linked_lists/linked_lists.hpp:1081-1106 | circular singly linked list: the bubble sort with strict comparisons gives a stably sorted permutation of the old elements, ascending or descending, the same list the merge sort gives |
| CircularLists.CircularLinkedList.Plus | linked_lists/linked_lists.hpp:1109-1119 | circular singly linked list: a fresh list holding this list followed by the other; both operands are unchanged |
| CircularLists.CircularLinkedList.Merge | linked_lists/linked_lists.hpp:1121-1129 | circular singly linked list: the other list's elements appended in order |
| CircularLists.CircularLinkedList.NodeAt | linked_lists/linked_lists.hpp:793-800 | getNodeAt: the walk from the head ends at the node holding position index |
| CircularLists.CircularLinkedList.LinkAfter | linked_lists/linked_lists.hpp:870-874 | the splice of addAt: a fresh node holding the value takes position index after its predecessor, the later nodes and elements move up, and the ring stays closed |
| CircularLists.CircularLinkedList.UnlinkTail | linked_lists/linked_lists.hpp:956-963 | remove at the tail: its predecessor becomes the tail and links back to the head, dropping the last node and element |
| CircularLists.CircularLinkedList.UnlinkAfter | linked_lists/linked_lists.hpp:935-941 | the unlinking of removeAt: the inner node at index leaves and its element is returned, the later nodes and elements move down by one, and the ring stays closed |
| CircularLists.CircularLinkedList.UnlinkNext | linked_lists/linked_lists.hpp:956-963 | the unlinking of remove: the node after the current one leaves, whether or not it is the tail |
| CircularLists.CircularLinkedList.RemoveAhead | linked_lists/linked_lists.hpp:954-969 | the loop of remove after the head was checked: the first node holding the value leaves, or false with nothing changed when no node holds it |
| CircularLists.CircularLinkedList.TurnLinks | linked_lists/linked_lists.hpp:1066-1076 | the loop of reverse: every next link is turned to point at the node before it on the ring |
| CircularLists.CircularLinkedList.ExchangeData | linked_lists/linked_lists.hpp:1095-1100 | the exchange of sort: the nodes stay, and the elements at j and j + 1 trade places |
| CircularLists.CircularLinkedList.PassStep | linked_lists/linked_lists.hpp:1091-1103 | one step of a sort pass: data is exchanged exactly when the strict comparison rejects the pair, keeping the pass invariant one position further |
| CircularLists.CircularLinkedList.SortPass | linked_lists/linked_lists.hpp:1086-1104 | one pass of sort: the nodes stay, the elements are a stable permutation, one more position at the end is settled, and a pass without exchanges means the list was already sorted |
| CircularDoublyLists.CircularDoublyLinkedList.constructor | linked_lists/linked_lists.hpp:1248 | circular doubly linked list: a new list is empty with listSize 0 |
| CircularDoublyLists.CircularDoublyLinkedList.Copy | linked_lists/linked_lists.hpp:1254-1262 | circular doubly linked list: the copy holds the same elements in the same order |
| CircularDoublyLists.CircularDoublyLinkedList.AddFirst | linked_lists/linked_lists.hpp:1278-1294 | circular doubly linked list: the value becomes element 0, the old elements follow in order, and listSize still counts the elements |
| CircularDoublyLists.CircularDoublyLinkedList.AddLast | linked_lists/linked_lists.hpp:1296-1310 | circular doubly linked list: the value is appended after the old elements |
| CircularDoublyLists.CircularDoublyLinkedList.AddAt | linked_lists/linked_lists.hpp:1312-1335 | circular doubly linked list: an index past the size throws out_of_range with the list unchanged; otherwise the value is inserted at that index and the others keep their order |
| CircularDoublyLists.CircularDoublyLinkedList.RemoveFirst | linked_lists/linked_lists.hpp:1337-1358 | circular doubly linked list: an empty list throws runtime_error unchanged; otherwise it returns the old first element and the list loses exactly it |
| CircularDoublyLists.CircularDoublyLinkedList.RemoveLast | linked_lists/linked_lists.hpp:1360-1378 | circular doubly linked list: an empty list throws runtime_error unchanged; otherwise it returns the old last element and the list loses exactly it |
| CircularDoublyLists.CircularDoublyLinkedList.RemoveAt | linked_lists/linked_lists.hpp:1380-1402 | circular doubly linked list: an index at or past the size throws out_of_range unchanged; otherwise it returns that element and the list loses exactly that position |
| CircularDoublyLists.CircularDoublyLinkedList.Remove | linked_lists/linked_lists.hpp:1404-1428 | circular doubly linked list: true exactly when the value occurs; then only its first occurrence is removed, otherwise the list is unchanged |
| CircularDoublyLists.CircularDoublyLinkedList.Get | linked_lists/linked_lists.hpp:1430-1435 | circular doubly linked list: out_of_range at or past the size, otherwise the element at the index |
| CircularDoublyLists.CircularDoublyLinkedList.Front | linked_lists/linked_lists.hpp:1452-1455 | circular doubly linked list: runtime_error on an empty list, otherwise the first element |
| CircularDoublyLists.CircularDoublyLinkedList.Back | linked_lists/linked_lists.hpp:1457-1460 | circular doubly linked list: runtime_error on an empty list, otherwise the last element |
| CircularDoublyLists.CircularDoublyLinkedList.IndexOf | linked_lists/linked_lists.hpp:1462-1474 | circular doubly linked list: the first index holding the value, -1 exactly when it is absent |
| CircularDoublyLists.CircularDoublyLinkedList.LastIndexOf | linked_lists/linked_lists.hpp:1476-1489 | circular doubly linked list: the last index holding the value, -1 exactly when it is absent |
| CircularDoublyLists.CircularDoublyLinkedList.Contains | linked_lists/linked_lists.hpp:1491-1493 | circular doubly linked list: true exactly when the value occurs |
| CircularDoublyLists.CircularDoublyLinkedList.Size | linked_lists/linked_lists.hpp:1495-1497 | circular doubly linked list: the size field equals the number of elements |
| CircularDoublyLists.CircularDoublyLinkedList.IsEmpty | linked_lists/linked_lists.hpp:1499-1501 | circular doubly linked list: true exactly when there are no elements |
| CircularDoublyLists.CircularDoublyLinkedList.Clear | linked_lists/linked_lists.hpp:1503-1515 | circular doubly linked list: the list is empty afterwards |
| CircularDoublyLists.CircularDoublyLinkedList.Reverse | linked_lists/linked_lists.hpp:1517-1529 | circular doubly linked list: the elements in reverse order |
| CircularDoublyLists.CircularDoublyLinkedList.Sort | linked_lists/linked_lists.hpp:1531-1554 | circular doubly linked list: the bubble sort with strict comparisons gives a stably sorted permutation of the old elements, ascending or descending, the same list the merge sort gives |
| CircularDoublyLists.CircularDoublyLinkedList.Plus | linked_lists/linked_lists.hpp:1556-1566 | circular doubly linked list: a fresh list holding this list followed by the other; both operands are unchanged |
| CircularDoublyLists.CircularDoublyLinkedList.Merge | linked_lists/linked_lists.hpp:1568-1576 | circular doubly linked list: the other list's elements appended in order |
| CircularDoublyLists.CircularDoublyLinkedList.NodeAt | linked_lists/linked_lists.hpp:1231-1245 | getNodeAt: the walk along next from the head (first half) or along prev from the head, one step per position from the size down to the index, ends at the node holding position index |
| CircularDoublyLists.CircularDoublyLinkedList.LinkBefore | linked_lists/linked_lists.hpp:1327-1334 | the splice of addAt: a fresh node holding the value takes position index, the later nodes and elements move up, and the ring stays linked both ways |
| CircularDoublyLists.CircularDoublyLinkedList.Unlink | linked_lists/linked_lists.hpp:1393-1400 | the unlinking of removeAt: the inner node at index leaves, the later nodes and elements move down, and the ring stays linked both ways |
| CircularDoublyLists.CircularDoublyLinkedList.UnlinkFromRing | linked_lists/linked_lists.hpp:1413-1419 | the unlinking of remove from a ring of two or more: the node at index leaves, the head moves on when it was the head, and the ring stays linked both ways |
| CircularDoublyLists.CircularDoublyLinkedList.ExchangeLinks | linked_lists/linked_lists.hpp:1520-1526 | the loop of reverse: once round the ring every node's prev and next are exchanged |
| CircularDoublyLists.CircularDoublyLinkedList.ExchangeData | linked_lists/linked_lists.hpp:1544-1549 | the exchange of sort: the nodes stay, and the elements at j and j + 1 trade places |
| CircularDoublyLists.CircularDoublyLinkedList.PassStep | linked_lists/linked_lists.hpp:1540-1551 | one step of a sort pass: data is exchanged exactly when the successor is not the head and the strict comparison rejects the pair, keeping the pass invariant one position further |
| CircularDoublyLists.CircularDoublyLinkedList.SortPass | linked_lists/linked_lists.hpp:1536-1552 | one pass of sort: the nodes stay, the elements are a stable permutation, one more position at the end is settled, and a pass without exchanges means the list was already sorted |
| ListSpec.IndexOf | linked_lists/linked_lists.hpp:263-272 | -1 exactly when the value is absent; otherwise the position of its first occurrence |
| ListSpec.LastIndexOf | linked_lists/linked_lists.hpp:274-284 | -1 exactly when the value is absent; otherwise the position of its last occurrence |
| ListSpec.InsertAt | linked_lists/linked_lists.hpp:136-151 | the value sits at the index; the elements before it stay put and those after it move up by one |
| ListSpec.RemoveAt | linked_lists/linked_lists.hpp:187-203 | the element at the index is gone; those before it stay put and those after it move down by one |
| ListSpec.RemoveInserted | linked_lists/linked_lists.hpp:136-203 | removeAt(i) undoes addAt(i, v) |
| ListSpec.InsertRemoved | linked_lists/linked_lists.hpp:136-203 | addAt(i, x) with the removed element x undoes removeAt(i) |
| ListSpec.RemoveAtMultiset | linked_lists/linked_lists.hpp:187-203 | removeAt takes exactly the one element at the index out of the list |
| ListSpec.Reverse | linked_lists/linked_lists.hpp:307-320 | the i-th element of the reversal is the i-th element from the end |
| ListSpec.ReverseTwice | linked_lists/linked_lists.hpp:307-320 | reversing twice gives the list back |
| ListSpec.ReverseMultiset | linked_lists/linked_lists.hpp:307-320 | reversing keeps the same elements |
| ListNodes.Splice | linked_lists/linked_lists.hpp:499-502 | the four link writes of a splice put the new node between its neighbours and change nothing else about the three nodes |
| ListNodes.Bypass | linked_lists/linked_lists.hpp:562-563 | the two link writes of an unlinking join the neighbours to each other and change nothing else about them |
| ListNodes.ReversedChain | linked_lists/linked_lists.hpp:667-682 | a chain whose links all point the other way is, read from its far end, a chain linked both ways holding the reversed elements |
| ListScans.FindFirst | linked_lists/linked_lists.hpp:263-272 | the forward scan of indexOf returns the first occurrence, or -1 |
| ListScans.FindLast | linked_lists/linked_lists.hpp:274-284 | the forward scan of lastIndexOf, remembering the latest hit, returns the last occurrence, or -1 |
| ListScans.Reversed | linked_lists/linked_lists.hpp:307-320 | the pointer-reversing loop produces the reversed list |
| ListSort.MergeSort | linked_lists/linked_lists.hpp:66-85 | the recursive merge sort keeps the same elements |
| ListSort.MergeStable | linked_lists/linked_lists.hpp:50-64 | merging two sorted runs keeps, for each key, the left run's elements with that key before the right run's |
| ListSort.MergeSortCorrect | linked_lists/linked_lists.hpp:50-85 | merge sort orders the elements by key (ascending or descending as asked) and keeps equal keys in their original order |
| ListSort.SortedStablyUnique | linked_lists/linked_lists.hpp:50-85 | only one ordering of a list is both sorted by key and stable |
| ListSort.SortsAgree | linked_lists/linked_lists.hpp:684-705 | any stable sort by key gives the merge sort's result, so the bubble sorts of the doubly and circular lists agree with the singly list's merge sort |
| BinaryTrees.Inorder | trees/trees.hpp:132-137 | the inorder walk lists exactly the tree's values |
| BinaryTrees.OrderedInorder | trees/trees.hpp:132-137 | a tree is a binary search tree (left below, right above every node) exactly when its inorder walk is strictly increasing |
| BinaryTrees.WeaklyOrderedInorder | trees/trees.hpp:783-811 | a tree whose duplicates go right is ordered in that weak sense exactly when its inorder walk is non-decreasing |
| BinaryTrees.SearchHelper | trees/trees.hpp:115-128 | in an ordered tree the search finds v exactly when v is in the tree; a hit is reported at or below the starting level |
| BinaryTrees.SearchLocates | trees/trees.hpp:115-128 | the search hits exactly when the descent reaches a node holding v, and then reports that node's level and left-to-right position |
| BinaryTrees.SearchFromRoot | trees/trees.hpp:207-212 | a hit from the root reports level ≥ 1 and a position below 2^(level-1), and the node at that level and position is the one holding v |
| BinaryTrees.Find | trees/trees.hpp:142-155 | the node found holds v and is in the tree; in an ordered tree it exists exactly when v is in the tree |
| BinaryTrees.Height | trees/trees.hpp:161-168 | the height is -1 exactly for an empty tree |
| BinaryTrees.HeightBoundsDepth | trees/trees.hpp:161-168 | no node lies deeper than the height |
| BinaryTrees.HeightReached | trees/trees.hpp:161-168 | some node lies at depth equal to the height |
| BinaryTrees.NodeHeight | trees/trees.hpp:142-155 | the height of the subtree rooted at v's node, or logic_error when the search does not reach v |
| BinaryTrees.NodeDepth | trees/trees.hpp:173-186 | a depth is returned exactly when the search reaches v, otherwise logic_error |
| BinaryTrees.DepthIsLevel | trees/trees.hpp:173-186 | the depth of v is one less than the level the search reports |
| BinaryTrees.SameLevel | trees/trees.hpp:115-128 | the starting position does not affect whether or at which level the search hits |
| BinarySearchTrees.InsertHelper | trees/trees.hpp:97-109 | the values after insert are the old ones plus v; an ordered tree stays ordered; inserting a present value changes nothing |
| BinarySearchTrees.InsertKeepsInorderIncreasing | trees/trees.hpp:97-109 | insert keeps the inorder walk strictly increasing, adds exactly v, and leaves it unchanged when v is present |
| BinarySearchTrees.BinarySearchTree.constructor | trees/trees.hpp:189 | a new tree is empty |
| BinarySearchTrees.BinarySearchTree.Insert | trees/trees.hpp:195-197 | the tree stays a search tree and its values gain v |
| BinarySearchTrees.BinarySearchTree.Search | trees/trees.hpp:207-212 | an empty tree throws runtime_error; otherwise found exactly when v is in the tree, with the level and position of the node holding v |
| BinarySearchTrees.BinarySearchTree.GetNodeHeight | trees/trees.hpp:229-234 | empty: runtime_error; v absent: logic_error; otherwise the height of v's subtree |
| BinarySearchTrees.BinarySearchTree.GetNodeDepth | trees/trees.hpp:244-249 | empty: runtime_error; v absent: logic_error; otherwise one less than the level search reports for v |
| BinarySearchTrees.BinarySearchTree.GetTreeHeight | trees/trees.hpp:255-258 | -1 exactly for an empty tree, otherwise its height |
| AvlTrees.Make | trees/trees.hpp:320-322 | a node built from two subtrees stores one more than the larger stored child height |
| AvlTrees.StoredHeight | trees/trees.hpp:320-322 | when the stored heights are consistent, the stored height is the real height plus one |
| AvlTrees.RightRotate | trees/trees.hpp:334-345 | the right rotation keeps the inorder walk and the values, and consistent stored heights |
| AvlTrees.LeftRotate | trees/trees.hpp:350-361 | the left rotation keeps the inorder walk and the values, and consistent stored heights |
| AvlTrees.SameInorderOrdered | trees/trees.hpp:334-361 | a tree with the inorder walk of a search tree is a search tree, so rotations keep the order |
| AvlTrees.Rebalance | trees/trees.hpp:379-405 | the four rotation cases after an insert give a balanced tree with the same values; a balanced node is left alone; a rotation lowers the height by one |
| AvlTrees.InsertHelper | trees/trees.hpp:366-406 | insert gives a balanced search tree with the values plus v, grows by at most one level, and changes nothing when v is present |
| AvlTrees.StoredNodeHeight | trees/trees.hpp:435-448 | the node height read from stored heights equals the height of v's subtree |
| AvlTrees.AvlTree.constructor | trees/trees.hpp:469 | a new tree is empty |
| AvlTrees.AvlTree.Insert | trees/trees.hpp:475-477 | the tree stays balanced and ordered, its values gain v, and a present v changes nothing |
| AvlTrees.AvlTree.Search | trees/trees.hpp:532-537 | an empty tree throws logic_error; otherwise found exactly when v is in the tree, with the level and position of the node holding v |
| AvlTrees.AvlTree.GetNodeHeight | trees/trees.hpp:502-507 | empty: runtime_error; v absent: logic_error; otherwise the height of v's subtree |
| AvlTrees.AvlTree.GetNodeDepth | trees/trees.hpp:516-521 | empty: runtime_error; v absent: logic_error; otherwise one less than the level search reports for v |
| AvlTrees.AvlTree.GetTreeHeight | trees/trees.hpp:527-530 | the stored root height minus one, which is the tree's height |
| RedBlackTrees.RotateLeft | trees/trees.hpp:689-709 | the left rotation keeps the inorder walk |
| RedBlackTrees.RotateRight | trees/trees.hpp:714-734 | the right rotation keeps the inorder walk |
| RedBlackTrees.Attach | trees/trees.hpp:783-811 | the plain insert adds v to the values and keeps the weak order (duplicates to the right) |
| RedBlackTrees.AttachMultiset | trees/trees.hpp:783-811 | the plain insert adds exactly one copy of v to the inorder walk |
| RedBlackTrees.Descend | trees/trees.hpp:787-810 | the descent records the path to the insertion point; zipping the path back gives the old tree, or with the new red node the plainly inserted tree |
| RedBlackTrees.RecolorStep | trees/trees.hpp:739-778 | when the uncle is red, recolouring and moving up two levels keeps the fix-up state and the inorder walk |
| RedBlackTrees.RestructureStep | trees/trees.hpp:739-778 | when the uncle is black, the one or two rotations end the fix-up with a valid red-black subtree and the same inorder walk |
| RedBlackTrees.RestructureRedBlack | trees/trees.hpp:739-778 | the restructured subtree is red-black with a black root and black height one more than the red node's |
| RedBlackTrees.ZipRedBlack | trees/trees.hpp:739-778 | placing a red-black subtree of the right black height back into its path gives a red-black tree |
| RedBlackTrees.Blacken | trees/trees.hpp:777 | colouring the root black keeps the inorder walk and the red-black property |
| RedBlackTrees.FixInsert | trees/trees.hpp:739-778 | the fix-up ends with a red-black tree with a black root and the same inorder walk |
| RedBlackTrees.InsertInto | trees/trees.hpp:783-811 | insert keeps a red-black weakly ordered tree with a black root and adds one copy of v |
| RedBlackTrees.RedBlackTree.constructor | trees/trees.hpp:814-818 | a new tree is empty |
| RedBlackTrees.RedBlackTree.Insert | trees/trees.hpp:824-827 | the tree stays red-black with a black root and gains one copy of v |
| RedBlackTrees.RedBlackTree.Search | trees/trees.hpp:829-834 | an empty tree throws runtime_error; otherwise found exactly when v is in the tree, with the level and position of the node holding v |
| RedBlackTrees.RedBlackTree.GetNodeHeight | trees/trees.hpp:852-857 | empty: runtime_error; v absent: logic_error; otherwise the height of v's subtree |
| RedBlackTrees.RedBlackTree.GetNodeDepth | trees/trees.hpp:866-871 | empty: runtime_error; v absent: logic_error; otherwise one less than the level search reports for v |
| RedBlackTrees.RedBlackTree.GetTreeHeight | trees/trees.hpp:877-880 | -1 exactly for an empty tree, otherwise its height |
| Tries.Prefixes | trees/trees.hpp:1002-1013 | the nodes an insert passes through are exactly the prefixes of the word |
| Tries.PrefixesStep | trees/trees.hpp:1005-1011 | each step of the insert loop adds the next longer prefix |
| Tries.Trie.constructor | trees/trees.hpp:994-996 | a new trie has only the root node and no word ends |
| Tries.Trie.Insert | trees/trees.hpp:1002-1013 | the trie gains every prefix of the word as a node and the word as a word end |
| Tries.Trie.AddChild | trees/trees.hpp:1006-1008 | one loop step adds the next prefix node and nothing else |
| Tries.Trie.Search | trees/trees.hpp:1059-1070 | true exactly when the word was inserted |
| Tries.Trie.StartsWith | trees/trees.hpp:1076-1087 | true exactly when the prefix is empty or a prefix of an inserted word |
| Tries.Trie.NodesArePrefixes | trees/trees.hpp:1002-1013 | the trie's nodes are exactly the empty string and the prefixes of inserted words |
| Tries.Trie.GetWordDepth | trees/trees.hpp:1095-1116 | logic_error when the word leaves the trie, its length when it is an inserted word, and -1 otherwise |
| Tries.Trie.GetMaxDepth | trees/trees.hpp:1122-1151 | the length of the longest inserted word (0 for none), which bounds every node's depth |
| RangeSums.SumSplit | trees/trees.hpp:1230-1244 | a range sum splits at any middle point |
| RangeSums.SumAdd | trees/trees.hpp:1346-1352 | adding d at one position changes a range sum by d exactly when the range covers it |
| SegmentTrees.SegmentTree.constructor | trees/trees.hpp:1250-1254 | a new tree over a non-empty array holds that array and a node array of size 4n whose every node stores its segment's sum |
| SegmentTrees.SegmentTree.Build | trees/trees.hpp:1199-1208 | every node under the given one stores the sum of its segment of the array, and no other node changes |
| SegmentTrees.SegmentTree.UpdateHelper | trees/trees.hpp:1213-1225 | after setting the clamped index to the value, every node under the given one again stores its segment's sum, and no other node changes |
| SegmentTrees.SegmentTree.Update | trees/trees.hpp:1260-1262 | the array element at the index (clamped into 0..n-1 by the descent) becomes the value and all node sums stay right |
| SegmentTrees.GoodVals | trees/trees.hpp:1213-1225 | node sums over a segment stay right when only elements outside it change |
| SegmentTrees.SegmentTree.QueryHelper | trees/trees.hpp:1230-1244 | the sum of the array over the part of [L, R] inside the node's segment |
| SegmentTrees.SegmentTree.Query | trees/trees.hpp:1268-1270 | the sum of the array over [L, R] clipped to 0..n-1 |
| FenwickTrees.LowBit | trees/trees.hpp:1350 | the lowest set bit of a positive index is between 1 and the index |
| FenwickTrees.NextCovers | trees/trees.hpp:1346-1352 | the slot reached by adding the lowest bit still covers the updated position |
| FenwickTrees.BinaryIndexedTree.constructor | trees/trees.hpp:1338-1340 | a new tree has n + 1 zero slots and all point values zero |
| FenwickTrees.BinaryIndexedTree.Update | trees/trees.hpp:1346-1352 | the point value at idx grows by delta when idx < n, and nothing changes otherwise; the slots stay consistent |
| FenwickTrees.BinaryIndexedTree.Query | trees/trees.hpp:1358-1366 | the sum of the point values 0..idx |
| FenwickTrees.BinaryIndexedTree.RangeQuery | trees/trees.hpp:1372-1374 | query(R) - query(L-1): the sum over L..R, or its negation when R < L - 1 |
| NaryTrees.HeightReached | trees/trees.hpp:1562-1573 | some leaf lies at a depth equal to the height |
| NaryTrees.CalculateHeight | trees/trees.hpp:1562-1573 | the height of the subtree: the longest path from it to a leaf |
| NaryTrees.FindNode | trees/trees.hpp:1546-1557 | the first node holding v in depth-first order, if any |
| NaryTrees.NodeDepthHelper | trees/trees.hpp:1578-1586 | the depth of the first node holding v in depth-first order, or -1 |
| NaryTrees.ScanLevel | trees/trees.hpp:1466-1479 | a level scan finds the first node holding v, or collects the next level when none does |
| NaryTrees.LeastDepth | trees/trees.hpp:1456-1483 | a value absent from the first e levels lies at depth at least e |
| NaryTrees.AddAt | trees/trees.hpp:1498-1501 | adding a child appends a leaf holding v to the addressed node and leaves the rest of the tree addressable as before |
| NaryTrees.AddAtElements | trees/trees.hpp:1498-1501 | adding a child adds exactly v to the values |
| NaryTrees.NaryTree.constructor | trees/trees.hpp:1485 | a new tree has no root |
| NaryTrees.NaryTree.CreateRoot | trees/trees.hpp:1490-1492 | the root becomes a leaf holding v |
| NaryTrees.NaryTree.AddChild | trees/trees.hpp:1498-1501 | a leaf holding v is appended under the addressed node; a missing root or parent changes nothing |
| NaryTrees.NaryTree.Search | trees/trees.hpp:1456-1483 | found exactly when v is in the tree, reporting the first level holding v and the first position on it |
| NaryTrees.NaryTree.GetNodeHeight | trees/trees.hpp:1526-1531 | no root: logic_error; v absent: -1; otherwise the height of the first node holding v |
| NaryTrees.NaryTree.GetNodeDepth | trees/trees.hpp:1533-1535 | -1 with no root or v absent; otherwise the length of a valid path from the root to the first node holding v in preorder |
| NaryTrees.NaryTree.GetTreeHeight | trees/trees.hpp:1537-1539 | -1 with no root, otherwise the root's height |
| MapSpecs.ToMap | maps/maps.hpp:106-115 | the map a pair list stands for has exactly the listed keys, each with a value listed for it |
| MapSpecs.AgreesToMap | maps/maps.hpp:141-151 | a pair list that lists exactly a map's entries stands for that map |
| MapSpecs.DistinctAgreesCard | maps/maps.hpp:285 | a duplicate-free listing of a map's entries is as long as the map is large, so the stored size counts the entries |
| MapSpecs.PermutationDistinct | maps/maps.hpp:249-283 | reordering a duplicate-free pair list keeps it duplicate-free |
| MapSpecs.PermutedAgrees | maps/maps.hpp:249-283 | reordering the listing of a map's entries still lists that map |
| MapSpecs.KeySeqAgrees | maps/maps.hpp:117-127 | the keys of a duplicate-free listing are exactly the map's keys, each once |
| MapSpecs.ValueSeqAgrees | maps/maps.hpp:129-139 | the values of a listing are exactly the values the map holds |
| MapSpecs.IncreasingUnique | maps/maps.hpp:527-531 | there is only one listing of a map with strictly increasing keys |
| MapSpecs.Zip | maps/maps.hpp:106-115 | pairs up the i-th key with the i-th value |
| MapSpecs.Without | maps/maps.hpp:201-209 | the map without the listed keys; the other entries keep their values |
| MapSpecs.WithoutSnoc | maps/maps.hpp:201-209 | each step of the erase loop removes one more listed key |
| MapSpecs.Reverse | maps/maps.hpp:809-812 | the i-th pair of the reversal is the i-th pair from the end |
| MapSpecs.Flip | maps/maps.hpp:256-271 | the reversed criterion orders b before a exactly when the original orders a before b |
| MapSpecs.SortedReverse | maps/maps.hpp:809-812 | reversing a list sorted by a criterion sorts it by the reversed criterion |
| MapSpecs.InsertSorted | maps/maps.hpp:249-283 | inserting one pair into a sorted list keeps it sorted and adds exactly that pair |
| MapSpecs.SortPairs | maps/maps.hpp:249-283 | std::sort's result: sorted by the criterion and a permutation of the input |
| ListMaps.LinkedListMap.constructor | maps/maps.hpp:657 | a new map is empty |
| ListMaps.LinkedListMap.FindNode | maps/maps.hpp:647-654 | finds the position of the key's node, and finds none exactly when the key is absent |
| ListMaps.LinkedListMap.Insert | maps/maps.hpp:663-674 | the key maps to the value; an existing key keeps the size and the key order; a new key is pushed in front and the size grows by one |
| ListMaps.LinkedListMap.CreateMapFromArrays | maps/maps.hpp:676-683 | unequal lengths throw MapException with nothing changed; otherwise the map gains every key with its paired value, a later duplicate winning |
| ListMaps.LinkedListMap.Keys | maps/maps.hpp:685-693 | the keys in list order: exactly the map's keys |
| ListMaps.LinkedListMap.Values | maps/maps.hpp:695-703 | the values in list order: exactly the values the map holds |
| ListMaps.LinkedListMap.Pairs | maps/maps.hpp:705-713 | the pairs in list order, which list exactly the map's entries |
| ListMaps.LinkedListMap.At | maps/maps.hpp:715-721 | the key's value, or KeyNotFoundException for a missing key |
| ListMaps.LinkedListMap.Index | maps/maps.hpp:723-730 | the key's value; a missing key is first inserted with value 0 |
| ListMaps.LinkedListMap.Erase | maps/maps.hpp:732-758 | a missing key throws KeyNotFoundException with nothing changed; otherwise exactly that key's node is unlinked and the size drops by one |
| ListMaps.LinkedListMap.EraseAll | maps/maps.hpp:760-768 | every listed key is removed, missing ones skipped |
| ListMaps.LinkedListMap.Update | maps/maps.hpp:776-781 | the map gains the other map's entries, the other's values winning |
| ListMaps.LinkedListMap.Plus | maps/maps.hpp:770-774 | a new map holding this map's entries updated with the other's, the other's values winning; neither operand changes |
| ListMaps.LinkedListMap.Find | maps/maps.hpp:783-789 | true exactly when the key is present (find and exists) |
| ListMaps.LinkedListMap.ExistsValue | maps/maps.hpp:791-798 | true exactly when some key maps to the value |
| ListMaps.LinkedListMap.Clear | maps/maps.hpp:817-824 | the map becomes empty with size 0 |
| ListMaps.LinkedListMap.InsertAllFresh | maps/maps.hpp:809-812 | re-inserting distinct pairs into an empty list leaves them in reverse order, standing for the same map |
| ListMaps.LinkedListMap.SortByAsWritten | maps/maps.hpp:800-813 | sort_by as written: same entries, but "key" leaves the keys in descending order, "value" the values descending, and any other criterion reverses the list |
| ListMaps.LinkedListMap.SortBy | maps/maps.hpp:800-813 | corrected sort_by: same entries, "key" leaves the keys strictly increasing, "value" the values non-decreasing, and any other criterion changes nothing |
| ListMaps.ReverseReverse | maps/maps.hpp:809-812 | reversing twice gives the list back |
| HashMaps.BucketOf | maps/maps.hpp:51-53 | the bucket index is below the capacity |
| HashMaps.HashMap.constructor | maps/maps.hpp:74-76 | a new table has cap empty buckets and no entries |
| HashMaps.HashMap.Put | maps/maps.hpp:87-103 | with the load below the limit, the key maps to the value; a present key keeps the size; a new key is pushed on the front of its bucket and the size grows by one |
| HashMaps.HashMap.Insert | maps/maps.hpp:82-104 | the key maps to the value; the capacity doubles exactly when size/capacity ≥ 0.75 beforehand; the size grows exactly for a new key, which without rehash goes on the front of its bucket |
| HashMaps.HashMap.Rehash | maps/maps.hpp:55-71 | the capacity doubles and the entries and size stay the same |
| HashMaps.HashMap.ReinsertBucket | maps/maps.hpp:62-70 | re-inserting one old bucket adds exactly the entries of that bucket |
| HashMaps.HashMap.InsertAll | maps/maps.hpp:112-114 | inserting a pair list in order gains every listed key, a later duplicate winning |
| HashMaps.HashMap.CreateMapFromArrays | maps/maps.hpp:106-115 | unequal lengths throw MapException with nothing changed; otherwise the map gains every key with its paired value |
| HashMaps.HashMap.Pairs | maps/maps.hpp:141-151 | the pairs bucket by bucket, each chain in order: every entry once, as many as the size |
| HashMaps.HashMap.Keys | maps/maps.hpp:117-127 | the keys bucket by bucket: every key once, as many as the size |
| HashMaps.HashMap.Values | maps/maps.hpp:129-139 | the values bucket by bucket: exactly the values held, as many as the size |
| HashMaps.HashMap.At | maps/maps.hpp:153-163 | the key's value, or KeyNotFoundException for a missing key |
| HashMaps.HashMap.Index | maps/maps.hpp:165-177 | the key's value; a missing key is first inserted with value 0 and the size grows by one |
| HashMaps.HashMap.Erase | maps/maps.hpp:179-199 | a missing key throws KeyNotFoundException with nothing changed; otherwise exactly that node is unlinked from its bucket and the size drops by one |
| HashMaps.HashMap.EraseAll | maps/maps.hpp:201-209 | every listed key is removed, missing ones skipped, the capacity kept |
| HashMaps.HashMap.Update | maps/maps.hpp:217-222 | the map gains the other map's entries, the other's values winning |
| HashMaps.HashMap.Plus | maps/maps.hpp:211-215 | a new map holding this map's entries updated with the other's, the other's values winning; neither operand changes |
| HashMaps.HashMap.Find | maps/maps.hpp:224-236 | true exactly when the key is present (find and exists) |
| HashMaps.HashMap.ExistsValue | maps/maps.hpp:238-247 | true exactly when some key maps to the value |
| HashMaps.HashMap.Clear | maps/maps.hpp:287-298 | every bucket becomes empty and the size 0, the capacity kept |
| HashMaps.ParseOrder | maps/maps.hpp:249-283 | the criteria sort_by accepts are exactly key, key-reverse, keyreverse, value, value-reverse and valuereverse |
| HashMaps.HashMap.ReinsertSorted | maps/maps.hpp:278-281 | re-inserting a sorted distinct list into an empty table leaves every bucket sorted the reverse way, holding exactly the listed entries |
| HashMaps.HashMap.SortBy | maps/maps.hpp:249-283 | an unknown criterion throws logic_error with the table unchanged; otherwise the same entries, size and capacity, with every bucket ordered opposite to the criterion (insert pushes to the front) |
| TreeMaps.Make | maps/maps.hpp:351-355 | a node stores one more than the larger child height |
| TreeMaps.RotateRight | maps/maps.hpp:357-365 | the right rotation keeps the in-order pairs and consistent heights |
| TreeMaps.RotateLeft | maps/maps.hpp:367-375 | the left rotation keeps the in-order pairs and consistent heights |
| TreeMaps.Balance | maps/maps.hpp:377-394 | gives a balanced search tree with the same entries; a balanced node is only re-heighted; a single or double rotation lowers the height by one |
| TreeMaps.InsertNode | maps/maps.hpp:396-413 | gives a balanced search tree in which the key maps to the value; reports an addition exactly for a new key; grows by at most one level |
| TreeMaps.FindMin | maps/maps.hpp:415-418 | the entry with the smallest key |
| TreeMaps.EraseNode | maps/maps.hpp:420-443 | gives a balanced search tree without the key; found exactly when the key was present; nothing changes otherwise; shrinks by at most one level |
| TreeMaps.FindNode | maps/maps.hpp:445-450 | in a search tree, the key's value exactly when the key is present |
| TreeMaps.PairsDetermined | maps/maps.hpp:452-457 | two search trees with the same entries have the same in-order pairs |
| TreeMaps.TreeMap.constructor | maps/maps.hpp:487 | a new map is empty |
| TreeMaps.TreeMap.Insert | maps/maps.hpp:493-496 | the key maps to the value and the size grows exactly for a new key |
| TreeMaps.TreeMap.InsertAll | maps/maps.hpp:502-504 | inserting a pair list in order gains every listed key, a later duplicate winning |
| TreeMaps.TreeMap.CreateMapFromArrays | maps/maps.hpp:498-505 | unequal lengths throw MapException with nothing changed; otherwise the map gains every key with its paired value |
| TreeMaps.TreeMap.Pairs | maps/maps.hpp:527-531 | the in-order pairs: every entry once, keys strictly increasing |
| TreeMaps.TreeMap.Keys | maps/maps.hpp:507-515 | the keys, strictly increasing, exactly the map's keys |
| TreeMaps.TreeMap.Values | maps/maps.hpp:517-525 | the values in key order: exactly the values held |
| TreeMaps.TreeMap.At | maps/maps.hpp:533-539 | the key's value, or KeyNotFoundException for a missing key |
| TreeMaps.TreeMap.Index | maps/maps.hpp:541-548 | the key's value; a missing key is first inserted with value 0 |
| TreeMaps.TreeMap.Erase | maps/maps.hpp:550-556 | a missing key throws KeyNotFoundException with the tree unchanged; otherwise the key is removed and the size drops by one |
| TreeMaps.TreeMap.EraseAll | maps/maps.hpp:558-566 | every listed key is removed, missing ones skipped |
| TreeMaps.TreeMap.EraseSkipping | maps/maps.hpp:560-564 | erase with KeyNotFoundException caught: the key is gone either way |
| TreeMaps.TreeMap.Update | maps/maps.hpp:574-579 | the map gains the other map's entries, the other's values winning |
| TreeMaps.TreeMap.Plus | maps/maps.hpp:568-572 | a new map holding this map's entries updated with the other's, the other's values winning; neither operand changes |
| TreeMaps.TreeMap.Find | maps/maps.hpp:581-587 | true exactly when the key is present (find and exists) |
| TreeMaps.TreeMap.ExistsValue | maps/maps.hpp:589-592 | true exactly when some key maps to the value |
| TreeMaps.TreeMap.SortBy | maps/maps.hpp:594-605 | the entries and their key order never change; only "value" rebuilds the tree |
| TreeMaps.TreeMap.Clear | maps/maps.hpp:609-613 | the map becomes empty with size 0 |

## Left out

- Display: every display, print, cprint, printBFSTree, printDFSTree and displayProperties function, the ANSI colour constants and the demo programs write to the console only, so they are not modelled. The same goes for BFS's and DFS's console output, and for the Trie's display order.
- Element types: vertices, tree data and map keys and values are `int`. List elements are generic, with an `int` sort key where the lists sort. Edge weights are carried in the lists but not interpreted, since no core operation computes with them.
- Graph subclasses: UndirectedGraph, DirectedGraph, ConnectedGraph, DisconnectedGraph and WeightedGraph (graphs/graphs.hpp:1029, 1047, 1065, 1092, 1365) only fix the constructor flags and print. They are covered by `Graphs.Graph.constructor` with those flags.
- BFS bookkeeping: the per-level inner loop and the parent, level, discovery and finish maps of BFS/DFS only feed the printed trees, so they are left out. The same holds for the distance map of dfsLongestCycle, which nothing reads.
- Graphs.Graph.GetGirth: on a directed graph the value is the length of a closed round (two BFS walks from one start joined by one entry) and need not be a directed cycle. For example, a→b, a→c, b→c gives 3. The contract states only that.
- Graphs.Graph.GetCircumference: dfsLongestCycle only credits a cycle that returns to the start of its own search. The contract therefore states a closed walk of the returned length, not that it is the longest cycle of the graph.
- CheckedGraphs.CyclicGraph.HasCycleDFS: the source marks "no parent" with a default-constructed vertex (`T()`, that is 0). The model uses `None`, so a real vertex 0 is not mistaken for a missing parent.
- Integer limits: `INT_MAX` distances and sentinels (graphs/graphs.hpp:629, 658) become `Option` values. Integer overflow is not modelled; all arithmetic is unbounded.
- SinglyLists.SinglyLinkedList: its chain of nodes is modelled by the sequence of their values plus the stored size counter, so its pointer updates (and the merge sort's relinking) are not modelled; the other three lists keep real nodes and links.
- Parent pointers: the trees' parent pointers are not modelled; the red-black tree replaces them by a zipper of frames.
- References: the references returned by get, front, back, at and operator[] become values, so writing through them is not modelled.
- Memory: iterators, destructors, copy assignment, and new/delete are not modelled.
- SinglyLists.SinglyLinkedList.Merge (and the same member of the other three lists): merging a non-empty list into itself never terminates in the source, so that call is excluded by a precondition.
- Map addition: operator+ of the three maps (maps/maps.hpp:211-215, 568-572, 770-774) copies the node pointers, so the result shares nodes with the left operand. The model gives each result its own copy (value semantics) and does not model the sharing or the double free it leads to.
- Hashing: std::hash is an abstract `hash: int -> nat` parameter of the hash map.
- HashMaps.HashMap.Insert: the floating-point load test `size / capacity >= 0.75` is the integer test `4 * size >= 3 * capacity`. The capacity must be positive, since a zero capacity divides by zero in the source.
- Sort stability: std::sort leaves equal-key pairs in an unspecified order. The model fixes one order (insertion sort), so the contracts only speak of sortedness and permutation.
- B-tree: BTree (trees/trees.hpp:580-647) is not part of this model. Its insert keeps only the first key, so it has no search-tree behaviour to state.
- Trie search_index (trees/trees.hpp:1022-1053): it depends on character arithmetic and the iteration order of an unordered_map, so it is not part of this model.
- SegmentTrees.SegmentTree.constructor: for an empty array (n = 0) the source's build reads past the end of the array, so the constructor requires a non-empty array.
- FenwickTrees.BinaryIndexedTree.Update: with a negative index the source's loop reaches slot 0, where `idx & -idx` is 0, and never ends; below -1 it also writes outside the array. Update therefore requires idx ≥ 0.
- FenwickTrees.BinaryIndexedTree.Query: an index of n or more reads past the end of the source's array, so Query requires idx < n.
- NaryTrees.NaryTree.Search: the source dereferences a null root, so Search requires a root.
- Helper methods: Dequeue, Expand, Visit, Seek, SeekVisit, SeekRound, DiameterStep, RadiusStep, GirthVisit, ScanLevel, ReinsertChain, ReinsertNode and EraseSkipping each hold the body of one source loop. They add no behaviour of their own.
- CheckedGraphs.DirectedAcyclicGraph.Join: when an addEdge throws part way, the contract states the vertices and that the graph stays acyclic, but not which entries were copied before the throw. The same holds for CheckedGraphs.BipartiteGraph.Join.
- CheckedGraphs.CyclicGraph.HasCycle: for a directed graph a reported cycle need not be real, since the source's parent test also fires on an entry into a vertex finished by an earlier search (1→2 and 3→2 report a cycle). The contract states the directed case only in the direction "no report ⇒ DFS forest"; CheckedGraphs.DirectedForestReported shows that graph.

## Findings

| source | as written | input that shows it | evidently intended | confidence | as-written member | corrected member |
|---|---|---|---|---|---|---|
| graphs/graphs.hpp:1124-1135 | CompleteGraph::addVertex loops over `vertices` while addEdge inserts the new vertex into that set, so the loop also reaches the new vertex and adds a self-loop | vertices {1}, addVertex(2): 2's list becomes [1, 2, 2] | join the new vertex to the old vertices only, keeping the graph complete | not executed | GraphVariants.CompleteGraph.AddVertexAsWritten | GraphVariants.CompleteGraph.AddVertex |
| maps/maps.hpp:800-813 | LinkedListMap::sort_by re-inserts the sorted pairs with insert, which pushes each one to the front, so the list ends up in reverse order | insert(1, 0), insert(2, 0), sort_by("key"): keys() gives [2, 1] | keys ascending after sort_by("key"), values ascending after sort_by("value") | not executed | ListMaps.LinkedListMap.SortByAsWritten | ListMaps.LinkedListMap.SortBy |
