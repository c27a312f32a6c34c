# Graph traversals, an adventure-map walker and an ancestry search, in Dafny

This project models three small graph programs and proves what they compute.

- **The adventure walker** (`GraphWalker`). It explores a world of rooms joined by exits `n`, `e`, `s`
  and `w`.
  - It keeps a map of the rooms it has seen and a counter of exits still marked `'?'`.
  - From its current room it goes through the first `'?'` exit in the order n, e, s, w.
  - When its room has no `'?'` exit left, it walks back to the nearest room that has one. That room is
    found by a breadth-first search over walks.
  - It stops when the counter reaches zero.
- **The graph** (`Graph`). It is a directed graph kept as a map from each vertex to the set of its
  neighbours.
  - It has two insertion operations, `add_vertex` and `add_edge`.
  - It has three traversals that print vertices: breadth-first, depth-first, and a recursive
    depth-first one whose work is done by a helper, `_dft_recursive`.
  - It has three path searches.
- **The family tree** (`FamilyTree` and `earliest_ancestor`). It maps each child to its set of
  recorded parents.
  - It lists every chain of parents from a person up to someone with no recorded parents.
  - The earliest ancestor is the end of a longest chain. Ties go to the smallest id. The answer is -1
    when the person has no recorded parents.

The files:

| file | contents |
|---|---|
| `wrappers.dfy` | `Option` |
| `sets.dfy` (module `Sets`) | `Choose`, any member of a set, for loops over sets |
| `rooms.dfy` (module `Rooms`) | the world the walker explores, its map of rooms (`Atlas`), the invariant the walker keeps (`Inv`), and walks through rooms |
| `graph_walker.dfy` (module `Walker`) | the class `GraphWalker`, the loop invariant of its exploration (`Progress`), and the search `_walk_back` runs |
| `digraph.dfy` (module `Digraph`) | adjacency maps, paths, reachability and shortest paths |
| `graph.dfy` (module `AdjacencyGraph`) | the class `Graph`, its traversals and searches, and the loop invariants they keep |
| `ancestor.dfy` (module `Ancestry`) | the class `FamilyTree`, lineages, and `EarliestAncestor` |

How the model represents the source:

- **The rooms and the player.** Both are replaced by a map, `World`. `world[r].Keys` is the set of
  exits of room `r`, and `world[r][d]` is the room behind exit `d`.
  - `Consistent(world)` is what the walker assumes of the rooms: every exit leads to a room, and the
    opposite exit leads back.
- **Exceptions.** Each exception a graph operation raises for a vertex that is not in the graph is an
  `Outcome.Missing` result.
- **Printing.** Each traversal returns the sequence of vertices it prints.
- **Set iteration.** Python iterates a set in an order that is not specified. Loops over a set take an
  arbitrary member each time, so every result is proved for every iteration order.

The walk ends as soon as the counter of `'?'` entries reaches zero, wherever the walker then stands.
It makes no final trip back to the starting room: it ends there only when its last move happens to lead
there, as on a cycle of four rooms. It need not cross every edge twice. Going once round a
cycle of four rooms resolves all eight entries, so that walk has 4 moves. Three rooms in a line,
explored from one end, take 2 moves. `Walker.GraphWalker.Walk` promises that every exit is crossed at
least once, in one direction or the other.

## Model

| member | source | states |
|---|---|---|
| `Walker.GraphWalker.constructor` | projects/adventure/graph_walker.py:4-7 | A new walker has no moves, an empty map of rooms and a zero counter. |
| `Walker.GraphWalker.Walk` | projects/adventure/graph_walker.py:9-11 | The first `walk` from a room returns the walker's own list of moves. The moves are legal from that room. They pass through exactly the rooms reachable from it. They cross every exit of each such room, one way or the other. They are empty only when the start has no exit. |
| `Walker.GraphWalker.WalkToEnd` | projects/adventure/graph_walker.py:13-21 | The loop ends with the counter at zero, the map invariant intact, and the exploration complete as for `Walk`. It terminates: each turn records a new room, lowers the counter by 2, or moves from a room with no `'?'` exit to one with a `'?'` exit. |
| `Walker.GraphWalker.Advance` | projects/adventure/graph_walker.py:16-21 | One loop turn keeps the exploration invariant. When the room has a `'?'` exit, the first one in the order n, e, s, w is taken: the walker moves to the room behind it, appends that move, the map becomes the map after that step, and the counter grows by the new room's exits (none if the room was known) minus 2. Otherwise the map and counter are unchanged, and the moves gain a non-empty shortest walk through rooms without `'?'` exits to the returned room, which has one. |
| `Walker.GraphWalker.Forward` | projects/adventure/graph_walker.py:17-19 | Walking through the first `'?'` exit `d` moves to `world[room][d]` and appends `d` to the moves. The map becomes the map after that step, the counter grows by the new room's exits (none if it was known) minus 2, and the invariant still holds. |
| `Walker.GraphWalker.Backward` | projects/adventure/graph_walker.py:20-21 | The old moves are kept and a non-empty walk is appended. It passes only rooms without `'?'` exits and ends in the returned room, which has one, and no such walk is shorter. The map and counter are unchanged and the invariant still holds. |
| `Walker.GraphWalker.FillMap` | projects/adventure/graph_walker.py:23-29 | A room seen for the first time gets a record with every one of its exits `'?'`, and the counter grows by its number of exits. A known room changes nothing. The moves are untouched. |
| `Walker.GraphWalker.GetWalkDirection` | projects/adventure/graph_walker.py:41-52 | `None` exactly when the room has no `'?'` exit. Otherwise it returns a `'?'` exit that no other `'?'` exit of the room precedes in the order n, e, s, w. |
| `Walker.GraphWalker.WalkStep` | projects/adventure/graph_walker.py:34-39 | Returns the room behind the exit and appends the move. The map gains that room, if it is new, with the exit and its reverse resolved. The counter grows by the new room's exits minus 2, and the map invariant still holds. |
| `Walker.GraphWalker.WalkBack` | projects/adventure/graph_walker.py:54-66 | Appends to the moves a non-empty walk through rooms with no `'?'` exit. The walk ends at the returned room, which has a `'?'` exit. No such walk is shorter. The map and counter are unchanged. |
| `Walker.GraphWalker.Retrace` | projects/adventure/graph_walker.py:64-65 | The moves found are appended to the walker's moves in order, and nothing else changes. |
| `Walker.GraphWalker.AddConnection` | projects/adventure/graph_walker.py:78-93 | Exit `d` of the first room is resolved to the second room, and the opposite exit of the second room to the first. The counter falls by 2 and the moves are untouched. |
| `Walker.SearchBack` | projects/adventure/graph_walker.py:54-76 | The breadth-first search over walks finds a non-empty walk through rooms without `'?'` exits to a room with one, and a shortest such walk. |
| `Walker.SearchStep` | projects/adventure/graph_walker.py:59-76 | One dequeue looks at the walk at the head of the queue and its room. It is returned exactly when that room has a `'?'` exit, and it is then a shortest walk to such a room. Otherwise the new queue is the old tail followed by one walk per exit of the room, each the head walk plus that exit, no exit twice. The queues then stay sorted by length and still cover every walk `_walk_back` could return, and the termination weight falls. |
| `Walker.ExpandExits` | projects/adventure/graph_walker.py:69-76 | The exit loop visits every exit of the room exactly once. For each exit, in the order visited, it appends the walk plus that exit to the path queue and the room list plus the room behind it to the room queue. The queues are otherwise unchanged. |
| `Walker.Extended` | projects/adventure/graph_walker.py:69-76 | Appending the extensions through any set of exits keeps each queued walk's room list, keeps the path queue sorted with lengths within one of each other, and covers every walk `_walk_back` could return that the old queue covered or that goes on from the head walk through one of those exits. The weight grows by one walk one move longer per exit. |
| `Walker.Refilled` | projects/adventure/graph_walker.py:59-76 | Replacing the head, whose room has no `'?'` exit, by its extensions through all exits of its room restores the search invariant, and the termination weight falls. |
| `Walker.ProgressInit` | projects/adventure/graph_walker.py:13-15 | After the first `_fill_map` the exploration invariant holds, with the counter equal to the start's number of exits. |
| `Walker.ProgressStep` | projects/adventure/graph_walker.py:34-39 | A move through a `'?'` exit keeps the exploration invariant: the moves stay legal, the map records exactly the rooms passed through, and every resolved exit has been crossed. |
| `Walker.ProgressBack` | projects/adventure/graph_walker.py:54-66 | Appending the walk back keeps the exploration invariant. |
| `Walker.ProgressTarget` | projects/adventure/graph_walker.py:16-21 | While the counter is positive, some room with a `'?'` exit can be reached through rooms without one. This is why `_walk_back` always returns a room. |
| `Walker.ProgressDone` | projects/adventure/graph_walker.py:16-21 | Once the counter is zero, the moves have visited exactly the reachable rooms and crossed every exit of each. |
| `Walker.StepGrows` | projects/adventure/graph_walker.py:34-39 | A move keeps every room and resolved exit of the map and resolves the exit taken and its reverse. |
| `Walker.StepWalked` | projects/adventure/graph_walker.py:34-39 | After a move, every resolved exit of the map has been crossed by some move. |
| `Rooms.FilledRecord` | projects/adventure/graph_walker.py:23-29 | `_fill_map` is idempotent. It adds only the new room, whose record has the room's exits, all `'?'`. The other records are unchanged, and the number of `'?'` entries grows by the new room's exits. |
| `Rooms.FilledInv` | projects/adventure/graph_walker.py:23-29 | `_fill_map` keeps the invariant that the counter equals the number of `'?'` entries and that resolved exits agree with the world. |
| `Rooms.ReverseUnexplored` | projects/adventure/graph_walker.py:34-37 | When a `'?'` exit leads to a room already recorded, that room's opposite exit is still `'?'`. So the counter's decrement by 2 is exact. |
| `Rooms.ConnectedInv` | projects/adventure/graph_walker.py:78-93 | `_add_connection` on a `'?'` exit keeps the map invariant with the counter lowered by 2, and the number of `'?'` entries falls by exactly 2. |
| `Rooms.ConnectedOpen` | projects/adventure/graph_walker.py:78-93 | Resolving two `'?'` entries lowers the number of `'?'` entries by 2. |
| `Rooms.OpenZero` | projects/adventure/graph_walker.py:16 | The counter is zero exactly when no recorded room has a `'?'` exit. |
| `Rooms.ClearOrTarget` | projects/adventure/graph_walker.py:63-76 | A walk through resolved exits either passes only rooms without `'?'`, or has a prefix that does and ends in a room with a `'?'` exit. |
| `Rooms.SomeClearTarget` | projects/adventure/graph_walker.py:54-76 | A room with a `'?'` exit connected to the current room yields a walk that `_walk_back` can return. |
| `Rooms.Covered` | projects/adventure/graph_walker.py:16-21 | With no `'?'` left, every room reachable from a recorded room is recorded. |
| `AdjacencyGraph.WithVertex` | projects/graph/graph.py:11-16 | `add_vertex` adds the vertex with no neighbours if it is new, and changes no existing entry. |
| `AdjacencyGraph.WithVertexIdempotent` | projects/graph/graph.py:15-16 | Adding a vertex twice is the same as adding it once. |
| `AdjacencyGraph.Connect` | projects/graph/graph.py:18-27 | `add_edge` fails, naming `v1` and then `v2`, exactly when one is absent. Otherwise only `v1`'s neighbours change, gaining `v2`. |
| `AdjacencyGraph.ConnectIdempotent` | projects/graph/graph.py:26-27 | Adding the same edge twice is the same as adding it once. |
| `AdjacencyGraph.Graph.constructor` | projects/graph/graph.py:8-9 | A new graph is empty and closed. |
| `AdjacencyGraph.Graph.AddVertex` | projects/graph/graph.py:11-16 | The graph becomes `WithVertex` of the old one, and every edge still leads to a vertex of the graph. |
| `AdjacencyGraph.Graph.AddEdge` | projects/graph/graph.py:18-27 | The exception for a missing endpoint leaves the graph unchanged. Otherwise the edge is added. Every edge still leads to a vertex of the graph. |
| `AdjacencyGraph.Graph.GetNeighbors` | projects/graph/graph.py:29-36 | `None` exactly for a vertex not in the graph, and otherwise its set of neighbours. |
| `AdjacencyGraph.Graph.Bft` | projects/graph/graph.py:38-52 | Fails exactly when the start is not in the graph. Otherwise it prints the start first and then every vertex reachable from it, each exactly once, and nothing else. |
| `AdjacencyGraph.Graph.Dft` | projects/graph/graph.py:54-68 | The same as `Bft`, for the stack-based traversal. |
| `AdjacencyGraph.Discover` | projects/graph/graph.py:49-52 | The neighbour loop discovers every neighbour of the printed vertex. Each newly discovered vertex is queued exactly once, and everything discovered is reachable. |
| `AdjacencyGraph.ScanDone` | projects/graph/graph.py:46-52 | When the queue or stack is empty, the printed vertices are exactly those reachable from the start, each once. |
| `AdjacencyGraph.Graph.DftFrom` | projects/graph/graph.py:70-75 | One call prints its vertex first and never a vertex twice. It adds to `discovered` exactly the vertices it prints, all reachable from its vertex, and leaves every printed vertex with all its neighbours discovered. |
| `AdjacencyGraph.VisitInto` | projects/graph/graph.py:73-75 | A recursive call on an undiscovered neighbour extends the caller's printed vertices and discovered set while keeping that description. |
| `AdjacencyGraph.Graph.DftRecursive` | projects/graph/graph.py:77-85 | Fails exactly when the start is not in the graph. Otherwise it prints the start and then every reachable vertex, each exactly once. |
| `AdjacencyGraph.Graph.Bfs` | projects/graph/graph.py:87-106 | It raises exactly when the start is not in the graph and is not the destination. Otherwise it returns nothing exactly when the destination is unreachable, and a shortest path from the start to the destination when one exists. A start outside the graph that equals the destination is returned as a one-vertex path. |
| `AdjacencyGraph.Enqueue` | projects/graph/graph.py:101-106 | Extending the dequeued path by each undiscovered neighbour keeps the queue sorted by length, every queued path a shortest path to its end, and the discovered set accounted for. |
| `AdjacencyGraph.NextShortest` | projects/graph/graph.py:101-106 | A shortest path extended by a neighbour not yet discovered is a shortest path to that neighbour. |
| `AdjacencyGraph.LayerRebase` | projects/graph/graph.py:96-106 | Once the queue holds only longer paths, every vertex at a shorter distance has been dequeued. |
| `AdjacencyGraph.SearchPop` | projects/graph/graph.py:97-100 | The path taken from the queue or stack leads from the start to its last vertex. If that vertex is not the destination, the search state holds with that vertex's neighbours to scan. |
| `AdjacencyGraph.SearchDone` | projects/graph/graph.py:96-106 | When the queue or stack empties without meeting the destination, the destination is unreachable. |
| `AdjacencyGraph.Graph.Dfs` | projects/graph/graph.py:108-127 | Fails as `Bfs` does. Otherwise it returns nothing exactly when the destination is unreachable, and a path from the start to the destination when one exists. |
| `AdjacencyGraph.Push` | projects/graph/graph.py:122-127 | Extending the popped path by each undiscovered neighbour keeps every stacked path a path from the start and the discovered set accounted for. |
| `AdjacencyGraph.Graph.DfsFrom` | projects/graph/graph.py:129-139 | One call discovers its vertex and everything it goes on to reach. It leaves each of them with all neighbours discovered. If it discovers the destination, it appends one path from the start to the destination to `end_path`; otherwise it leaves `end_path` as it was. |
| `AdjacencyGraph.Append` | projects/graph/graph.py:132-133 | The path is appended to `end_path` element by element: the old contents come first and the path follows. |
| `AdjacencyGraph.ProbeInto` | projects/graph/graph.py:135-139 | A recursive call on an undiscovered neighbour keeps the caller's description of what it discovered and collected. |
| `AdjacencyGraph.Graph.DfsRecursive` | projects/graph/graph.py:141-153 | Fails exactly when the start is not in the graph, even when the start is the destination. Otherwise it returns `[]` exactly when the destination is unreachable, and otherwise a path from the start to the destination. |
| `AdjacencyGraph.ProbeAll` | projects/graph/graph.py:149-153 | The collected path is empty exactly when the destination is unreachable, and is otherwise a path from the start to it. |
| `Ancestry.Link` | projects/ancestor/ancestor.py:9-13 | The child gets an entry holding the parent and all the parents it had before. No other entry changes. |
| `Ancestry.TreeContents` | projects/ancestor/ancestor.py:4-13 | The tree built from the pairs has an entry for exactly the children named in the pairs. Each child's entry lists exactly the parents paired with it. |
| `Ancestry.FamilyTree.constructor` | projects/ancestor/ancestor.py:4-7 | The tree is the result of adding each `(parent, child)` pair in order, and every entry lists at least one parent. |
| `Ancestry.FamilyTree.AddConnection` | projects/ancestor/ancestor.py:9-13 | The map becomes `Link` of the old one and every entry still lists a parent. |
| `Ancestry.FamilyTree.HasParents` | projects/ancestor/ancestor.py:44-47 | True exactly when the child has an entry with at least one parent. |
| `Ancestry.FamilyTree.FindAllPaths` | projects/ancestor/ancestor.py:15-30 | Returns a non-empty list. Each element is a chain of parents from the child to someone without recorded parents, and every such chain is in the list. |
| `Ancestry.ExpandParents` | projects/ancestor/ancestor.py:26-29 | Queueing the path extended by each parent keeps every chain still to be found covered by the queue. The termination measure falls. |
| `Ancestry.EnumeratePop` | projects/ancestor/ancestor.py:20-25 | Taking the head of the queue keeps every chain covered: it is either collected or left to be extended. |
| `Ancestry.EnumerateEdge` | projects/ancestor/ancestor.py:26-29 | Queueing one extension keeps every chain covered. |
| `Ancestry.EnumerateDone` | projects/ancestor/ancestor.py:19-30 | When the queue is empty, every lineage has been collected and the result is non-empty. |
| `Ancestry.FamilyTree.FindLongestPath` | projects/ancestor/ancestor.py:32-42 | Returns `[]` for no paths. Otherwise it returns one of the paths that has the greatest length and, among those, the smallest last id; among those it returns the first. |
| `Ancestry.EarliestAncestor` | projects/ancestor/ancestor.py:49-55 | Returns -1 for a person who is not a child in any pair. Otherwise it returns the end of a longest lineage, the smallest such id among the longest. That ancestor is not the person and is not a child in any pair. |
| `Ancestry.Farthest` | projects/ancestor/ancestor.py:53-55 | The path `find_longest_path` keeps out of all lineages ends at an earliest ancestor, who has no recorded parents. |

## Left out

- The `print` calls of `bft`, `dft` and `_dft_recursive`: each traversal returns the vertices it prints, in order.
- `Bft`, `Dft` and `DftRecursive`, with a start that is not in the graph: the source prints the start before the error is raised. `_dft_recursive` also adds the start to `discovered` first. The model returns `Missing` with nothing printed.
- `Bft`: the breadth-first order of the printed vertices is not stated. The model proves only that each reachable vertex is printed exactly once, starting with the start.
- `Dft`: the depth-first order of the printed vertices is not stated either. Only the same every-vertex-once guarantee is proved.
- `DftRecursive`: the depth-first order of the printed vertices is not stated. Only the every-vertex-once guarantee is proved, for it and for `DftFrom`.
- The `Stack` and `Queue` of `util` and Python's `deque`: they are modelled as sequences. `util` is not part of this model.
- The `__main__` demonstration block of graph.py: a script, not part of the class.
- The `Room` and `Player` classes: they are replaced by the `World` map. Their own code is not part of this model.
- `GraphWalker` calls beyond the first: `Walk` is modelled for a walker with no moves and an empty map of rooms. The source keeps the walker's state between calls, but a second call is not modelled.
- `_get_map`: it is inlined as `atlas[room]`.
- The `''` placeholder at the head of each walk in `_walk_back`'s path queue: the model's walks hold only the moves, so the placeholder and the copy loop's start at index 1 disappear.
- The `is not None` test in `_walk_back`: it is always true of an entry, so the model extends a walk through every exit.
- `WalkBack` and `SearchBack`: they require that some room with a `'?'` exit can be reached. `ProgressTarget` proves this holds whenever the walk loop calls them. Called without such a room, the source's `_walk_back` loops forever if the starting room has an exit, and returns `None` if it has none.
- The aliasing of `discovered` and `end_path` in `_dft_recursive` and `_dfs_recursive`: they are passed in and returned as values. Python mutates them in place.
- Exceptions: the `Exception(v)` of `add_edge`, and the `TypeError` raised when iterating the `None` that `get_neighbors` returns, are the `Missing` outcome naming the vertex.
- `FindLongestPath`: it requires every path to be non-empty. It does not model what an empty path does. While `longest` is still 0, an empty path raises `IndexError`; after a non-empty path it is skipped. `find_all_paths` never produces an empty path.
- `FindAllPaths` and `EarliestAncestor`: they require that no one in the whole tree is their own ancestor, and a ghost `rank` witnesses this. The source needs less: its queue never empties only when the person's own ancestors include a cycle. A cycle elsewhere in the tree does not matter, and a person with no recorded parents gets -1 at once.
- `EarliestAncestor`: the -1 it returns for a person with no parents cannot be told apart from an ancestor whose id is -1. The model states both cases separately.
- `Person`, `Vertex` and `RoomId` are unbounded integers: the source compares ids with `<` and never does arithmetic on them.
