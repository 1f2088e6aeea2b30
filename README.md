# Graph container — a Dafny model

This project models the generic `Graph<Vertex, Weight>` container of `main.cpp`.
It is a weighted, directed graph. It keeps two structures:

- an adjacency map from each source vertex to the ordered list of its outgoing
  `(destination, weight)` edges, with parallel edges allowed;
- a set of vertex identifiers.

The container offers these operations:

- insertion of vertices and edges;
- bulk removal of edges by source or by destination;
- removal of a vertex;
- clearing;
- the queries `empty`, `size`, `degree_in`, `degree_out` and `loop`;
- copy, move and swap;
- saving and loading a flat file of `source destination weight` lines.

Files:

- `graph_spec.dfy`, module `GraphSpec`: the adjacency map as a Dafny value
  (`map<V, seq<(V, W)>>`), one function per effect an operation has on it, and
  lemmas about those functions.
- `graph.dfy`, module `Graphs`: class `Graph` with the fields `adj` and `vertices`.
  It has one method per member function of the C++ class. Each method states
  its result and the whole new state of both fields through the functions of
  `GraphSpec`. The loops of `degree_in`, `loop`, `erase_edges_go_to`,
  `erase_node`, `save_to_file` and `load_from_file` are `while` loops with
  invariants.
- `persistence.dfy`, module `Persistence`: the saved file as a sequence of
  `(source, destination, weight)` records, and loading as a fold of
  `insert_or_assign_edge` over such records.

The code never ties the two fields together:

- `addVertex` only touches the map.
- `insert_node` only touches the set.

So the class has no invariant linking them. Every method says what happens
to each field.

Where the C++ does not compile or has undefined behaviour, the model follows
what the code evidently means:

- `list::find(key)` (main.cpp:139) is a search for an edge whose destination
  is `key`.
- `vertices.find(x)` used as a bool (main.cpp:215, 218) is a membership test.
- `push_back(u, w)` (main.cpp:228) appends the pair `(u, w)`.
- `adjList.erase(it1)` with a list iterator (main.cpp:261, 281) erases that
  edge from its list.
- `adjList.erase(adjList.find(key))` (main.cpp:248, 276) does nothing when
  `key` has no entry.
- The copy and move operations copy from `other`: their loops compare against
  the wrong `end()` and push whole lists.
- The move assignment's `this != other` check means "not the same object".

In several places the code does something other than what a graph container
is evidently meant to do. The model follows the code in each:

- `degree_in` counts the *sources* other than `key` that have at least one edge
  to `key`, not the edges: it does `count++` once per list (main.cpp:138-141).
- `insert_edge` appends the edge even when the returned flag is false, that is,
  when an endpoint is not a vertex (main.cpp:205-206).
- `insert_or_assign_edge` appends; it never replaces the weight of an existing
  edge (main.cpp:228).
- When an endpoint is missing, `insert_or_assign_edge` still evaluates
  `adjList[v]` at main.cpp:232. That creates an empty list for `v` if it had
  none.
- `degree_out` and `loop` return 0 or false when `key` has no adjacency
  entry; the error is only printed (main.cpp:159-165, 179-181).
- `degree_in` prints its error and returns 0 whenever no other source has an
  edge to `key`, whether or not `key` is a vertex (main.cpp:143-146). A key
  outside the vertex set can have a non-zero in-degree, since `insert_edge`
  appends even when an endpoint is unknown.
- Copy assignment clears both structures before copying (main.cpp:63-64). So
  assigning a graph to itself leaves it empty. `swap` still works when both
  sides are the same graph.

## Model

| member | source | states |
|---|---|---|
| `Graphs.Graph.constructor` | main.cpp:19 | a new graph has no adjacency entries and no vertices |
| `Graphs.Graph.Copy` | main.cpp:38-45 | the copy has exactly `other`'s adjacency map and vertex set |
| `Graphs.Graph.Move` | main.cpp:48-59 | the new graph takes `other`'s map and set; `other` is left with both empty |
| `Graphs.Graph.Assign` | main.cpp:62-72 | after assignment from a different graph both fields equal `other`'s; assigning a graph to itself empties it |
| `Graphs.Graph.MoveAssign` | main.cpp:75-89 | this graph gets `other`'s old fields; a different `other` is emptied; self-move changes nothing |
| `Graphs.Graph.Swap` | main.cpp:108-112 | the two graphs exchange both their fields |
| `Graphs.Graph.AddVertex` | main.cpp:22-28 | `v` gets an empty list if it had no entry; an existing list is kept; the vertex set is unchanged |
| `GraphSpec.WithVertex` | main.cpp:22-28 | the keys become old keys plus `v`; `v`'s list is its old one or empty; every other entry is unchanged |
| `GraphSpec.WithVertexIdempotent` | main.cpp:22-28 | adding a vertex twice equals adding it once, and adding a vertex that has an entry changes nothing |
| `Graphs.Graph.InsertNode` | main.cpp:186-188 | `node` joins the vertex set; the flag is true iff it was not there; the map is unchanged |
| `Graphs.Graph.Empty` | main.cpp:92-94 | true iff the vertex set is empty |
| `Graphs.Graph.Size` | main.cpp:97-99 | the number of vertices; 0 iff there are none |
| `Graphs.Graph.Clear` | main.cpp:102-105 | both the map and the vertex set are empty afterwards |
| `Graphs.Graph.ClearEdges` | main.cpp:237-239 | the map is empty afterwards; the vertex set is unchanged |
| `Graphs.Graph.DegreeIn` | main.cpp:135-151 | the loop's count equals the number of sources other than `key` whose list has an edge to `key`; it is at most the number of other entries, and 0 iff no other list has an edge to `key` |
| `GraphSpec.InDegreeBound` | main.cpp:135-151 | the in-degree is at most the number of entries other than `key`, and it is 0 iff no other list has an edge to `key` |
| `GraphSpec.InDegreeAfterEdge` | main.cpp:138-141 | appending an edge u -> v raises v's in-degree by one iff u != v and u had no edge to v before: parallel edges count once and a self-edge never counts (`it.first != key`) |
| `Graphs.Graph.DegreeOut` | main.cpp:154-167 | the length of `key`'s list, and 0 when `key` has no entry |
| `GraphSpec.OutDegreeAfterEdge` | main.cpp:154-167 | appending an edge raises its source's out-degree by one and leaves every other out-degree unchanged |
| `Graphs.Graph.Loop` | main.cpp:170-183 | the loop's result is true iff `key` has an entry holding an edge whose destination is `key`; false without an entry |
| `GraphSpec.SelfLoopAfterEdge` | main.cpp:170-183 | after the edge v -> v is appended, `loop(v)` holds |
| `Graphs.Graph.InsertEdge` | main.cpp:194-208 | the flag is true iff both `u` and `v` are vertices; `(v, w)` is appended to `u`'s list in either case, creating the list if absent; other lists and the vertex set are unchanged |
| `GraphSpec.WithEdge` | main.cpp:205-206 | `u`'s list grows by one, with its old edges as a prefix and the new edge last; the key set gains `u`; other entries are unchanged |
| `Graphs.Graph.InsertOrAssignEdge` | main.cpp:211-234 | the flag is true iff both endpoints are vertices; then `(u, w)` is appended to `v`'s list; otherwise the only change is an empty entry for `v` if it had none; the vertex set is unchanged |
| `GraphSpec.WithEdgeIfKnown` | main.cpp:211-234 | the source's list grows by one exactly when both endpoints are vertices; the key set gains the source; every other entry is unchanged |
| `Graphs.Graph.EraseEdgesGoFrom` | main.cpp:242-250 | the flag is true iff `key` is a vertex; only `key`'s entry is removed; the vertex set is unchanged |
| `Graphs.EraseEdgesTo` | main.cpp:259-263 | the loop's result is the list without its edges to `key`, the others in their original order |
| `Graphs.Graph.StripEdgesTo` | main.cpp:258-264 | every list loses its edges to `key` and keeps the rest in order; no entry is added or removed; the vertex set is unchanged |
| `Graphs.Graph.EraseEdgesGoTo` | main.cpp:253-266 | the flag is true iff `key` is a vertex; every list loses exactly its edges to `key`, the rest keeping their order; the vertex set is unchanged |
| `GraphSpec.StripDest` | main.cpp:258-264 | stripping edges keeps exactly the same set of entries |
| `GraphSpec.WithoutDestAppend` | main.cpp:259-263 | filtering a concatenation is concatenating the filtered parts, so surviving edges keep their relative order |
| `GraphSpec.WithoutDestCount` | main.cpp:259-263 | an edge to `key` is removed with all its copies; any other edge keeps its multiplicity |
| `GraphSpec.WithoutDestHasNoEdgeTo` | main.cpp:259-263 | no edge to `key` is left in a filtered list |
| `GraphSpec.WithoutDestIdentity` | main.cpp:259-263 | filtering leaves a list unchanged iff it has no edge to `key` |
| `GraphSpec.WithoutDestShorter` | main.cpp:259-263 | a filtered list is never longer, and is as long iff nothing was removed |
| `GraphSpec.StripDestRemovesEdgesTo` | main.cpp:253-266 | after `erase_edges_go_to(key)` no list has an edge to `key`, and every other edge keeps its multiplicity |
| `GraphSpec.StripDestIsolates` | main.cpp:253-266 | after `erase_edges_go_to(key)`, `key` has in-degree 0 and no self-loop |
| `GraphSpec.StripDestIdempotent` | main.cpp:253-266 | erasing the edges to `key` a second time changes nothing |
| `Graphs.Graph.EraseNode` | main.cpp:269-287 | the flag is true iff `key` was a vertex; `key` leaves the vertex set; the map loses `key`'s entry and every edge to `key` |
| `GraphSpec.WithoutNode` | main.cpp:274-284 | erasing a vertex removes exactly its own key from the map |
| `GraphSpec.WithoutNodeSpec` | main.cpp:269-287 | after `erase_node(key)`: `key` has no entry, no edge goes to it, lists without such edges are unchanged, every other edge keeps its multiplicity, and `key`'s in- and out-degree are 0 |
| `GraphSpec.WithoutNodeUndoesWithVertex` | main.cpp:269-287 | erasing a vertex that had no entry and no incoming edge right after `addVertex` gives back the original map |
| `Graphs.Graph.SaveRecords` | main.cpp:314-333 | the lines written are, key by key in the map's order and each list in order, one `(source, destination, weight)` record per edge; there are as many as there are edges |
| `Persistence.LinesSpec` | main.cpp:324-326 | a source's lines carry that source and exactly its list's edges, one per line, in order |
| `Persistence.SavedLength` | main.cpp:323-327 | the saved file has as many lines as the lists of the enumerated keys have edges together |
| `Graphs.Graph.LoadRecords` | main.cpp:290-311 | each record is applied through `insert_or_assign_edge` in order; the vertex set never changes |
| `Persistence.LoadWithoutVerticesAddsNoEdge` | main.cpp:302-304 | loading into a graph with no vertices and no edges adds no edge, whatever the records are |
| `Persistence.LoadIntoFreshGraphLosesEdges` | main.cpp:302-304 | the one-edge graph 1 -> 2 (weight 5) saves as the line (1, 2, 5); loading that line into a new graph gives only an empty list for 1 |
| `Graphs.Graph.LoadRecordsCreatingVertices` | main.cpp:302-304 | the corrected load: both endpoints of each record become vertices, then the edge is appended |
| `Persistence.LoadedCreatingAppend` | main.cpp:302-304 | loading two files in a row is loading their concatenation |
| `Persistence.SaveLoadRoundTrip` | main.cpp:290-333 | with the corrected load, saving and loading into a new graph gives back every non-empty list edge for edge, in order, and exactly the endpoints of the edges as vertices |

## Left out

- Files and streams are not modelled: opening the `ifstream` or `ofstream`,
  and the `>>` and `<<` text formatting and parsing (main.cpp:290-333). Saving
  and loading work on record sequences instead.
- `load_from_file` returns `false` only when the file cannot be opened. That
  flag is I/O, so `Graphs.Graph.LoadRecords` returns nothing.
- The error messages printed to `cout` are a side channel. Only the returned
  flags and counts are modelled.
- The iterator accessors `begin`, `end`, `cbegin` and `cend` (main.cpp:115-132)
  are left out. The `vertices` field gives the same enumeration.
- Some results also hold an iterator: the `pair` of `insert_node`, the `pair`
  of `insert_edge`, and `pos` in `insert_or_assign_edge`, which is dropped by
  the comma operator anyway. Only their boolean part is modelled.
- `insert_or_assign_node` (main.cpp:191) is declared without a body.
- The constructor from a map is commented out in the source (main.cpp:30-35).
- The copy and move constructors' C++ ownership mechanics are left out. The
  model keeps only their effect on the contents: Dafny maps and sets are
  values, so a copy is always independent of the original.
- The order of map keys: Dafny maps are unordered. `Graphs.Graph.SaveRecords`
  takes the map's key order as the parameter `keys`, required to list every
  key once.
- `Graphs.Graph.Size`, `Graphs.Graph.DegreeIn`, `Graphs.Graph.DegreeOut`: the
  counts are unbounded naturals. `size_t` cannot overflow for a graph that
  fits in memory.
- Concurrency: the container is single-threaded, so there is none to model.

## Findings

| source | as written | input that shows it | evidently intended | confidence | as-written member | corrected member |
|---|---|---|---|---|---|---|
| main.cpp:302-304 | `load_from_file` passes every line to `insert_or_assign_edge`, which adds an edge only when both endpoints are already vertices and never inserts vertices, so a file loaded into a new graph adds no edge | the graph with vertices {1, 2} and one edge 1 -> 2 of weight 5 saves the line `1 2 5`; loading it into a new graph leaves no vertices, an empty list for 1, and no edge | loading a saved file rebuilds its edges, creating their endpoints as vertices (the comment at main.cpp:225-227 treats inserting both nodes as harmless) | medium, not executed | `Persistence.LoadIntoFreshGraphLosesEdges` | `Persistence.SaveLoadRoundTrip` |
