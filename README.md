# Pathfinding visualizer: the graph searches, modelled in Dafny

This project models the search core of the pathfinding visualizer, an app
that animates graph searches over a city's road network. A city's node data
is a dictionary from node id to `{lat, lon, adj}`. On it the app runs five
searches from a start id to an end id:

- Dijkstra's algorithm with unit edge weights;
- A\* over a class of search nodes;
- greedy best-first search keyed by straight-line distance to the goal;
- breadth-first search with `null` level markers in its queue;
- depth-first search, whose predecessor links are lists.

Three dispatchers choose and run a search and then turn the ids it found
into map points:

- the current web worker (`src/pathfinding.worker.ts`);
- an older worker (`src/Worker.ts`), whose table sends `greedy` to Dijkstra;
- a direct `findPath` (`src/pathfinding.tsx`) that always runs DFS.

## How the model is organised

Each source file keeps its own shape:

- `graph.dfy` (module `Graph`): the node data as a `map` from non-empty id
  strings to node records, plus edges, walks and reachability.
- `chains.dfy` (module `Chains`): the `while (previous[x])` predecessor walk
  that Dijkstra, greedy and BFS share. It is a method with a loop.
  - It is specified against a step function.
  - It is proved to report divergence exactly when the source's loop would
    never end.
- `render.dfy` (module `Render`): the `rendered` / `nextRender` / callback
  bookkeeping that A\* and greedy share.
- `dijkstra.dfy`, `astar.dfy`, `greedy.dfy`, `bfs.dfy`, `dfs.dfy`: one
  module per search. Each search is imperative, as in the source:
  - `while` loops with invariants;
  - `for` loops for the `forEach` over neighbours;
  - for A\*, a `SearchNode` class whose fields `visited`, `closed`, `parent`,
    `g`, `h` and `f` are updated in place, and a `NodeTable` class for the
    module-level `graph` dictionary.
- The priority queues are sequences of entries:
  - `Heapify` in Dijkstra, `TinyQueue` in greedy, `BinaryHeap` in A\*;
  - `pop` takes some entry of least key, with ties broken arbitrarily.
- `dispatch.dfy` (module `Dispatch`): what the dispatchers share:
  - the algorithm names;
  - the id-to-point conversion;
  - the messages a worker posts.
- `worker.dfy`, `legacy_worker.dfy`, `pathfinding.dfy`: the three `findPath`
  functions.

Several things become parameters:

- the city data;
- the straight-line distance (`Math.sqrt` over floating-point numbers);
- A\*'s cost and heuristic;
- the timer reading;
- the floating-point render tests of BFS and DFS;
- how a dispatched search was called.

What each search promises, proved over all inputs:

- A path it returns follows edges of the graph and ends at the goal, in the
  orientation that search returns it in. For Dijkstra, A\* and BFS it is a
  walk from the start; for greedy it is one when the instance is well posed
  and the goal is reachable (see "## Left out"). A DFS path need not begin at the start and may
  repeat ids.
- When a search gives up, that says something about the goal, in each
  search's own terms:
  - an empty heap in A\* or an empty stack in DFS means the goal is
    unreachable;
  - Dijkstra's `[start]` for a goal other than the start means the goal is
    unreachable or is not a node. A goal that is not a node is never
    relaxed, even when an adjacency list names it;
  - greedy's empty heap means the goal is not a node;
  - BFS does not give up on its own (see "## Left out").
- The exact edge cases of the code are kept:
  - start equal to end;
  - an id that is not a node;
  - a neighbour id with no entry, which makes A\* and DFS throw;
  - a predecessor chain that would loop forever.
- Dijkstra additionally returns a shortest walk.

## Model

| member | source | states |
|---|---|---|
| Graph.Adj | src/algorithms/dijkstra.tsx:49-51 | the neighbours a search expands for an id are exactly the heads of the edges leaving it; an id that is not a key of the node data has none |
| Graph.Reverse | src/algorithms/dijkstra.tsx:66 | `reverse()`: same length, the i-th element is the i-th from the end |
| Chains.WalkBack | src/algorithms/dijkstra.tsx:41-44 | when it returns a sequence, that sequence is exactly what following truthy `previous` entries pushes from `x`; it returns none exactly when that walk never ends |
| Chains.ChainIsWalk | src/algorithms/dijkstra.tsx:41-44 | if every truthy entry `previous[v] = u` is an edge u -> v, the pushed chain reversed, preceded by the id the walk stops at, is a walk ending at `x` |
| Chains.RankedEnds | src/algorithms/greedy.tsx:103-109 | if every truthy entry leads to an id of strictly smaller rank, the predecessor walk ends |
| Render.Initial | src/algorithms/astar.tsx:84-86 | nothing has been rendered or sent, and the bookkeeping is consistent |
| Render.Note | src/algorithms/astar.tsx:110-121 | one pass of the render step (also greedy.tsx:86-99): a taken id joins `rendered`, a batch is sent whole or not at all, ids sent or pending were all rendered, an id never rendered before goes out or waits in the batch, and the ids already waiting stay waiting or go out in the batch sent; consistency is kept |
| Render.Final | src/algorithms/greedy.tsx:102 | greedy's last callback appends the pending batch to those sent; the batches sent are pairwise disjoint |
| Dijkstra.Init | src/algorithms/dijkstra.tsx:27-35 | the start has distance 0; every other node has Infinity and a null predecessor; the heap holds only the start at key 0 |
| Dijkstra.Relax | src/algorithms/dijkstra.tsx:53-61 | after the `forEach`, every neighbour whose distance was above `distances[u] + 1` has that distance, predecessor `u` and a new heap entry; nothing else changes |
| Dijkstra.PoppedIsOptimal | src/algorithms/dijkstra.tsx:37-38 | a popped id that is not yet settled has a distance no greater than the number of edges of any walk to it from the start |
| Dijkstra.ChainShorter | src/algorithms/dijkstra.tsx:41-44 | along the predecessor chain from `x`, the i-th id has a finite distance at least `i` below x's |
| Dijkstra.FoundWalk | src/algorithms/dijkstra.tsx:41-44 | from an id with a finite distance, the predecessor walk ends, and the chain it pushes, reversed and preceded by the start, is a walk from the start |
| Dijkstra.FoundResult | src/algorithms/dijkstra.tsx:40-66 | when the goal is popped, `path.concat(start).reverse()` is a walk from the start to the goal and no walk between them is shorter; when start and goal coincide the chain is empty |
| Dijkstra.ExhaustedUnreachable | src/algorithms/dijkstra.tsx:37-64 | when the heap runs empty without popping the goal, and the goal is a node or the start, the goal is unreachable |
| Dijkstra.Finish | src/algorithms/dijkstra.tsx:40-66 | the returned sequence is a shortest walk from the start to the goal, and is `[start]` when they coincide |
| Dijkstra.Expand | src/algorithms/dijkstra.tsx:49-63 | expanding a popped id other than the goal keeps the search invariant (settled distances optimal, predecessors record edges one step closer, the heap holds every unsettled finite distance) and lowers the unreached count unless the pop was stale |
| Dijkstra.Search | src/algorithms/dijkstra.tsx:20-67 | the result starts at the start and is a walk; it ends at the goal or is just `[start]`; ending at the goal, it is a shortest walk; if the goal is reachable (and is a node or the start), the result ends at it; start equal to goal gives `[start]` |
| AStar.SearchNode.constructor | src/algorithms/astar.tsx:37-46 | a fresh search node: the given id and neighbours, zero scores, not visited, not closed, no parent |
| AStar.PathTo | src/algorithms/astar.tsx:59-68 | the returned ids are those of the parent chain from `node` up to (excluding) the first parentless node, root-most first, each the `ref` of its chain node, every chain node's parent the one before |
| AStar.Visit | src/algorithms/astar.tsx:140-151 | only the neighbour's node changes, and only on a first visit or a strictly smaller `gScore`: it becomes visited, gets the current node as parent and the new `g`, keeps a non-zero `h` or takes the heuristic, and `f = h + g`; it is pushed only when it was not visited before |
| AStar.Overwrite | src/algorithms/astar.tsx:141-145 | the five assignments change the neighbour's node and no other: it is visited, has the given parent, `h` and `g`, `f` is their sum, and `closed` is kept |
| AStar.Close | src/algorithms/astar.tsx:123 | only the current node's `closed` flag changes, to true |
| AStar.VisitKeeps | src/algorithms/astar.tsx:129-153 | improving a neighbour of a closed node keeps the search invariant (parents are closed nodes with an edge to their child, closed first; the heap holds exactly the visited nodes and the start, while not closed; the goal is not closed) |
| AStar.CloseKeeps | src/algorithms/astar.tsx:123 | closing a popped node other than the goal keeps the search invariant, with the node closed at the current step |
| AStar.CloseKeepsExpanded | src/algorithms/astar.tsx:123 | closing a node leaves every other closed node expanded, and never increases the count of untouched nodes |
| AStar.Pop | src/algorithms/astar.tsx:103 | the popped node has the least `f` in the heap |
| AStar.Expand | src/algorithms/astar.tsx:125-154 | the `forEach` over a closed node's neighbours only marks nodes (visited or closed never reset), keeps the invariant and leaves every neighbour visited or closed; a neighbour id without a node (TypeError in the source) happens only when the graph is not closed |
| AStar.Pass | src/algorithms/astar.tsx:110-154 | one pass over a popped node other than the goal keeps the invariant and strictly decreases the heap size plus untouched count, or faults only on a graph that is not closed |
| AStar.GoalPath | src/algorithms/astar.tsx:106-107 | when the goal is popped, `[start] + pathTo(goal)` is a walk from the start to the goal, and the path is empty when they coincide |
| AStar.FoundIsWalk | src/algorithms/astar.tsx:59-68 | the parent chain of the popped goal, preceded by the start, is a walk from the start to the goal |
| AStar.ExhaustedUnreachable | src/algorithms/astar.tsx:156 | when the heap runs empty, the goal is unreachable from the start |
| AStar.InitialWired | src/algorithms/astar.tsx:97-99 | a freshly built table with only the start on the heap satisfies the search invariant |
| AStar.Step | src/algorithms/astar.tsx:102-154 | one turn of the loop: popping the goal yields a walk to it, start equal to goal yields the empty path at once, a fault implies a non-closed graph, otherwise the invariant holds and the measure drops |
| AStar.Run | src/algorithms/astar.tsx:97-156 | a found path is a walk when preceded by the start, with the timer's reading; start equal to goal gives `[[], time]`; exhausting the heap means unreachable; a throw means a non-closed graph; on a closed graph the goal is found iff it is reachable; the render batches are disjoint |
| AStar.NodeTable.constructor | src/algorithms/astar.tsx:57 | the module-level `graph` starts empty |
| AStar.NodeTable.Rebuild | src/algorithms/astar.tsx:88-92 | every node of the data gets a fresh search node with its id and adjacency and initial fields; other entries are kept |
| AStar.NodeTable.Search | src/algorithms/astar.tsx:76-157 | `astar`: undefined exactly when start or goal is not a node; otherwise as `AStar.Run`, with the table keyed by the city's nodes |
| Greedy.GetDistance | src/algorithms/greedy.tsx:39-52 | -1 when either id is not a node; with a non-negative straight-line distance, the result is non-negative exactly when both are nodes |
| Greedy.Init | src/algorithms/greedy.tsx:68-78 | the start gets key 0, every other node Infinity and a null predecessor; the heap holds the sentinel `"_"` at key 1 and one entry per node with its key |
| Greedy.InitialKept | src/algorithms/greedy.tsx:68-78 | the initial dictionaries and heap satisfy the loop invariant: nothing is written yet, and in a well-posed instance only the start is finite and its entry is in the heap |
| Greedy.PushNodes | src/algorithms/greedy.tsx:72-78 | the `forEach` over the node ids pushes each node once, with its key |
| Greedy.StartPoppedFirst | src/algorithms/greedy.tsx:69-83 | when the start is a node, the first pop is the start at key 0 |
| Greedy.Relax | src/algorithms/greedy.tsx:113-128 | every neighbour whose key is above its straight-line distance to the goal gets that key, the popped id as predecessor and a heap entry; nothing else changes |
| Greedy.SoundKept | src/algorithms/greedy.tsx:113-128 | a pass keeps the bookkeeping facts (each node written at most once, with key equal to its distance to the goal and an edge from its predecessor; the goal keeps a heap entry) and shrinks the unwritten set unless nothing changed |
| Greedy.InfiniteUnreachable | src/algorithms/greedy.tsx:82-129 | popping an entry of key Infinity means the goal is unreachable from the start |
| Greedy.ChainToStart | src/algorithms/greedy.tsx:103-109 | when the goal is popped at a finite key, its predecessor walk ends and the chain, reversed and preceded by the start, is a walk from the start to the goal |
| Greedy.Finish | src/algorithms/greedy.tsx:101-131 | the result starts at the start, with the timer's reading; beyond its first id it is a walk ending at the goal; an unlinked goal gives `[start]`; it hangs exactly when the walk never ends; a reachable goal gives a full walk from the start |
| Greedy.Expand | src/algorithms/greedy.tsx:113-128 | expanding a popped id other than the goal keeps the bookkeeping and the ranking facts and shrinks the measure |
| Greedy.WalkOut | src/algorithms/greedy.tsx:101-110 | on links that are edges: the result starts at the start and beyond it is a walk ending at the goal; an unlinked goal gives `[start]`; it hangs exactly when the walk never ends; when the walk is known to stop on a walk from the start, that walk is the result |
| Greedy.GoalFacts | src/algorithms/greedy.tsx:101-110 | once the goal is popped, every link is an edge, and a reachable goal in a well-posed instance has a walk back that stops on a walk from the start |
| Greedy.Exhausted | src/algorithms/greedy.tsx:131 | with the heap empty the result is `[start]` with the timer's reading, the goal is not a node, each node was written at most once, and the batches are disjoint |
| Greedy.Pass | src/algorithms/greedy.tsx:83-128 | one loop pass: when it ends the search, the result has the shape `Greedy.Finish` states, at least one batch has been sent, and start equal to goal gives `[start]` |
| Greedy.Search | src/algorithms/greedy.tsx:26-132 | the returned path starts at the start, and beyond it is a walk ending at the goal; an unvisited goal gives `[start]`, and a goal that is a node is always popped, so the pending batch is sent and at least one batch goes out; start equal to goal (a node) gives `[start]`; in a well-posed instance (both ends nodes, no node named `"_"`, distances non-negative) a reachable goal gives a walk from the start; every node is written at most once and the start never; the batches are disjoint |
| Bfs.Init | src/algorithms/bfs.tsx:32-34 | every node of the data gets predecessor null |
| Bfs.ScanFacts | src/algorithms/bfs.tsx:78-84 | the neighbour scan adds at most the popped id to `discovered`, changes only entries of neighbours not discovered before (to the popped id), keeps truthy entries truthy and only appends linked neighbours to the queue |
| Bfs.Expand | src/algorithms/bfs.tsx:74-85 | the `forEach` computes the neighbour scan of the popped node |
| Bfs.MarkerKeeps | src/algorithms/bfs.tsx:41-50 | a popped `null` marker, pushed back at the end, keeps the search invariant |
| Bfs.ExpandKeeps | src/algorithms/bfs.tsx:74-85 | expanding a popped node keeps the search invariant (queued ids reachable, predecessors discovered with an edge to their entry, the start never linked to anything but itself) |
| Bfs.ChainFromStart | src/algorithms/bfs.tsx:62-71 | when the goal is popped, its chain reversed and preceded by the start is a walk from the start to the goal, and the start is not in the chain |
| Bfs.StartNotInChain | src/algorithms/bfs.tsx:64-70 | the predecessor chain never contains the start |
| Bfs.NullsHold | src/algorithms/bfs.tsx:32-34 | the dictionary the search starts from holds null for exactly the node ids |
| Bfs.PassesAdd | src/algorithms/bfs.tsx:38-86 | running the loop for `a + b` passes is running it for `a` and then for `b` |
| Bfs.PassesNext | src/algorithms/bfs.tsx:38-86 | while the deque is non-empty and the goal is not at its head, the next pass is one more turn of the loop body |
| Bfs.PassesStop | src/algorithms/bfs.tsx:62-72 | once the goal heads the deque, further passes change nothing (the loop has returned) |
| Bfs.PassKeepsRest | src/algorithms/bfs.tsx:39-50 | a pass removes the head and keeps the rest of the deque, in order, in front of anything it pushes; a marker in the deque stays in it |
| Bfs.PassesKeepMarker | src/algorithms/bfs.tsx:36-50 | a marker in the deque stays in it after any number of passes, so the deque never runs empty |
| Bfs.Shift | src/algorithms/bfs.tsx:38-40 | first in, first out: the id in slot `k` heads the deque `k` passes later, unless the goal heads it first |
| Bfs.ScanPushes | src/algorithms/bfs.tsx:78-84 | a neighbour of the popped node that is not discovered and not the popped node itself is pushed on the deque |
| Bfs.DiscoveredHeaded | src/algorithms/bfs.tsx:78-84 | an id is only in `discovered` if it headed the deque at an earlier pass |
| Bfs.WalkHeads | src/algorithms/bfs.tsx:38-85 | every id on a walk from the start heads the deque at some pass, unless the goal does first |
| Bfs.GoalPass | src/algorithms/bfs.tsx:62 | a goal the start reaches heads the deque after this many passes from the beginning |
| Bfs.RankKeeps | src/algorithms/bfs.tsx:78-84 | a neighbour scan keeps the discovery numbering: every predecessor link goes to an id discovered earlier, or is a loop edge |
| Bfs.LoopEdge | src/algorithms/bfs.tsx:64-70 | with that numbering, a walk back over `previous` that never stops exists only if the graph has a loop edge |
| Bfs.ExpandKept | src/algorithms/bfs.tsx:74-85 | expanding a node other than the goal keeps the search invariant, the goal undiscovered and the discovery numbering |
| Bfs.PassKept | src/algorithms/bfs.tsx:39-85 | every pass whose head is not the goal (marker, node, or an id that is not a node) keeps the same three facts |
| Bfs.KeptAlong | src/algorithms/bfs.tsx:38-86 | those facts hold after any number of passes from a state that has them |
| Bfs.Invariants | src/algorithms/bfs.tsx:32-86 | those facts hold after any number of passes from the beginning |
| Bfs.ChainAtGoal | src/algorithms/bfs.tsx:62-71 | when the goal heads the deque, the walk back from it follows edges backwards, reversed after the start is a walk from the start to the goal, and does not contain the start |
| Bfs.GoalReachable | src/algorithms/bfs.tsx:38-62 | a goal that heads the deque is reachable from the start |
| Bfs.HangsAtGoal | src/algorithms/bfs.tsx:64-70 | a walk back from the goal that never stops needs a loop edge in the graph |
| Bfs.Started | src/algorithms/bfs.tsx:32-37 | the state built before the loop is the beginning of the passes |
| Bfs.Exhausted | src/algorithms/bfs.tsx:38 | when the fuel runs out, the goal has not headed the deque and the fuel is at most `GoalPass` for a reachable goal |
| Bfs.Finish | src/algorithms/bfs.tsx:62-72 | at the goal, the reply is the walk back over that pass's `previous`: a chain that follows edges backwards and, reversed after the start, is a walk; `Hangs` only when the walk back never stops, which needs a loop edge; a goal popped at the first pass gives `[]` |
| Bfs.Turn | src/algorithms/bfs.tsx:39-85 | one turn of the loop whose head is not the goal computes exactly the next pass |
| Bfs.Search | src/algorithms/bfs.tsx:16-88 | the search stops with the goal exactly when the goal heads the deque within the fuel, and its reply is the walk back over that pass's `previous`; a returned path starts at the goal, follows edges backwards, reversed after the start is a walk, and never contains the start; `Hangs` only with a loop edge in the graph; a reachable goal is always found once the fuel exceeds `GoalPass`, an unreachable one never; start equal to goal returns `[]`; with no delay nothing is sent, otherwise one batch per level marker |
| Dfs.Init | src/algorithms/dfs.tsx:29-31 | every node of the data gets an empty predecessor list |
| Dfs.AppendAllFacts | src/algorithms/dfs.tsx:68-71 | pushing the popped id on each neighbour's list appends it once per occurrence of that neighbour and keeps every list's old prefix |
| Dfs.Expand | src/algorithms/dfs.tsx:64-72 | the push succeeds exactly when every neighbour has a list (otherwise TypeError), and then the stack gets the neighbours in order and the lists the popped id |
| Dfs.Unwind | src/algorithms/dfs.tsx:54-59 | the unwinding loop: each step moves to the first unshifted entry of the current id's list, and stops when that list is used up |
| Dfs.UnwindIsWalk | src/algorithms/dfs.tsx:54-59 | when every list entry records an edge into its owner, the unwound path follows edges backwards from `x`, and reversed and followed by `x` it is a walk |
| Dfs.ExpandKeeps | src/algorithms/dfs.tsx:62-73 | expanding an unvisited node keeps the search invariant (visited nodes' neighbours visited or on the stack, list entries visited with an edge, the goal never visited) |
| Dfs.ExhaustedUnreachable | src/algorithms/dfs.tsx:75 | an empty stack means the goal is unreachable |
| Dfs.Finish | src/algorithms/dfs.tsx:53-61 | at the goal it throws exactly when the goal is not a node; otherwise the path excludes the goal, the goal is reachable, and the reversed path followed by the goal is a walk; an empty list gives `[]` |
| Dfs.TallySkips | src/algorithms/dfs.tsx:61-63 | popping an id that is visited already or is not a node adds one popped id and nothing to the expanded nodes |
| Dfs.TallyGrows | src/algorithms/dfs.tsx:62-72 | popping a new node adds it once to the expanded nodes and pushes exactly its degree |
| Dfs.Pop | src/algorithms/dfs.tsx:35-73 | one pass: an end keeps the finishing facts, a throw implies a non-closed graph or a start that is not a node, otherwise the invariant holds, the visited set grows or the stack shrinks, and the stack plus the ids popped so far is one id plus the degrees of the expanded nodes |
| Dfs.Search | src/algorithms/dfs.tsx:15-76 | a path excludes the goal, the goal is reachable, the path follows edges backwards from it and reversed is a walk; `false` means unreachable; on a closed graph from a node it never throws and finds a path iff reachable; start equal to goal gives `[]` or throws; each node is expanded at most once, and the number of passes is at most one plus the degrees of the expanded nodes, exactly that when the stack runs empty; with no delay nothing is sent |
| Dispatch.ToPoints | src/pathfinding.worker.ts:67-73 | the conversion loop yields the points of the known ids, in order |
| Dispatch.PointsAppend | src/pathfinding.worker.ts:67-73 | converting two stretches one after the other gives their points one after the other |
| Dispatch.PointsLength | src/pathfinding.worker.ts:68-72 | never more points than ids, and exactly as many precisely when every id is a node |
| Dispatch.PointsOfNodes | src/pathfinding.worker.ts:68-72 | when every id is a node, the i-th point is the i-th id's latitude and longitude |
| Dispatch.Transcript | src/pathfinding.worker.ts:24-42 | the messages posted: one `updateNodes` per batch, in order, then one `setPath` exactly when `findPath` resolved to a pair, as the last message |
| PathfindingWorker.Table | src/pathfinding.worker.ts:13-19 | exactly the five keys select an algorithm, each the one listed under its own name |
| PathfindingWorker.TableRoundTrip | src/pathfinding.worker.ts:13-19 | every algorithm is found under its own name |
| PathfindingWorker.FindPath | src/pathfinding.worker.ts:44-77 | empty start, goal or algorithm, or an unknown name, gives `undefined`; a result exists iff the inputs pass and the search's path is truthy; then it is the path's points with the search's time |
| LegacyWorker.Table | src/Worker.ts:10-16 | the same five keys, but `greedy` selects Dijkstra; no key selects greedy |
| LegacyWorker.FindPath | src/Worker.ts:38-68 | as `PathfindingWorker.FindPath`, with the older table |
| Pathfinding.FindPath | src/pathfinding.tsx:9-37 | empty start or goal gives `undefined`; a drawn path is the points of the DFS path, which excludes the goal, reversed is a walk to it, and shows the goal reachable; `undefined` with both ids given means unreachable; on a closed graph from a node it never throws and draws iff reachable; with no delay nothing is sent |

## Left out

- Node ids are non-empty strings. So the checks `if (!prev) continue` (bfs.tsx:52), `if (!popped) return` (dfs.tsx:36) and `if (!first) continue` (dfs.tsx:56) never fire and are not modelled.
- `hasKey` is modelled as membership in the dictionary's own keys. `utils.ts` is not part of this model.
- The node data of a city (`getCityData`, the bundled JSON) is the parameter `g`. The quadtree and city loading are not part of this model.
- Floating-point arithmetic, `Math.sqrt` and `NaN` are not modelled. The straight-line distance of greedy and A\*'s cost and heuristic are function parameters. Keys are reals or Infinity.
- AStar.Run: A\*'s cost is a parameter. As written, `manhattan(currentNode, neighbor)` passes a `Node` object where an id is expected, so `hasKey` fails and every cost is -1. The proved properties hold for any cost. The code is meant to find shortest paths: the comments at astar.tsx:135-136 call the g score the shortest distance from the start. As written, every edge costs -1, so it does not, and the model does not claim it.
- AStar.NodeTable.Search: requires that the table holds no node outside the city's data. Entries left over from another city would otherwise stay in the module-level `graph`.
- Heap internals are not modelled: tie-breaking, sift order and `rescoreElement` (astar.tsx:150). `pop` returns some entry of least key, and A\*'s heap is re-read by its current `f` scores.
- `Node.getCost` (astar.tsx:48-50) is never called and is not modelled. The `hasKey` re-check at astar.tsx:125 always holds for a popped node.
- Greedy.Search: `maxDist` (greedy.tsx:117,120) is computed but never read, and is left out. The result is a walk from the start only when the instance is well posed and the goal is reachable. Well posed means both ends are nodes, no node is named `"_"`, and distances are non-negative. Outside that, only the shape of the result is stated. Reachability is needed even in a well-posed instance. Take nodes S, E, A with `S.adj = []`, `E.adj = [A]`, `A.adj = [E]`, and a search from S to E. A and E tie at Infinity, and A may be popped first. It gives `previous[E] = A` and pushes E (greedy.tsx:119-124), and the walk back from E stops at once, because `previous[A]` is null. The result is `[S, E]`, and S and E are not adjacent.
- Greedy.Finish: a goal whose predecessor walk never ends is the outcome `Hangs`. The source loops there forever.
- Bfs.Search: the source's loop never ends when the goal is unreachable, because the level marker is pushed back forever. The model runs for at most `fuel` passes and then reports `OutOfFuel`. A reachable goal is found once the fuel exceeds `Bfs.GoalPass`, but no bound on `GoalPass` in terms of the graph's size is stated.
- Bfs.Search: it does not state that the path is shortest: the source marks the popped node as discovered instead of the neighbour (bfs.tsx:80), so it is not.
- Bfs.Search: the walk back from the goal (bfs.tsx:64-70) never ends when it reaches an id whose predecessor is itself. bfs.tsx:80-81 creates one for a node listed in its own adjacency list: with `S.adj = [S, E]`, `E.adj = []` and a search from S to E, `previous[S] = S`. The model reports that walk as `Hangs`, and proves that `Hangs` needs such a loop edge.
- Bfs.Search: the render test `total % (level * 0.5) == 0` is a parameter `shows`. The model states only how many batches are sent, not what they contain.
- Dfs.Search: a returned path need not begin at the start and may repeat ids. The unwinding (dfs.tsx:54-59) follows each id's first recorded predecessor. With `S.adj = [A]`, `A.adj = [S, E]`, `E.adj = [A]` and a search from S to E, `previous` is `{A: [S], S: [A], E: [A]}` and the path is `[A, S, A]`; reversed and followed by E it is the walk A, S, A, E. The model states only that it is a walk ending at the goal.
- Dfs.Search: the render-flush test `total % (0.0001 * total) === 0` is a parameter `flush`. With a delay, the contents of the sent batches are not stated.
- Timers (`timer-machine`) are a parameter `elapsed`: the reading the search returns. `sleep`, `await` and the asynchronous interleaving are not modelled.
- Message handling is not modelled: JSON parsing, `postMessage`'s serialisation and `console.log` (astar.tsx:62, pathfinding.tsx:23).
- PathfindingWorker.FindPath and LegacyWorker.FindPath: the selected search is the parameter `run`, and each search's own result is taken as that search's reply. The workers destructure the reply as `[shortestPath, timeTaken]` (pathfinding.worker.ts:56, Worker.ts:48), but Dijkstra, BFS and DFS return a bare array of ids (dijkstra.tsx:66, bfs.tsx:71, dfs.tsx:60), and DFS may return `false`. Only A\* and greedy return a pair; for the others the model assumes a pair, which the code does not produce. The workers call the searches with argument lists that do not match the searches' parameters: the current worker passes `city` first, and only greedy takes it. What a search does with shifted arguments is not modelled.
- Dispatch.Transcript: batches are sequences of ids. For A\* and greedy they are sets expanded with `[...nodes]`, in insertion order, which is not modelled.
