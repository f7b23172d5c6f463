/** The web worker of src/pathfinding.worker.ts: it looks the requested
    algorithm up in its dispatch table, runs it on the chosen city's node
    data and converts the found ids to map points. The run itself is the
    parameter `run`: the table's searches are called with an argument list
    of their own (city, start, end, delay, handler), and what they resolve
    to is taken as the `Reply` they hand back. */
module PathfindingWorker {
  import opened Graph
  import opened Dispatch

  /** `algorithmDict` (pathfinding.worker.ts:13-19) looked up with `hasKey`
      (54-55): exactly the five keys select a search, each its own one. */
  function Table(name: string): (r: Option<Algorithm>)
    ensures r.Some? <==> name in Names
    ensures r.Some? ==> Name(r.value) == name
  {
    if name == "dijkstras" then Some(DijkstraSearch)
    else if name == "astar" then Some(AStarSearch)
    else if name == "greedy" then Some(GreedySearch)
    else if name == "bfs" then Some(BfsSearch)
    else if name == "dfs" then Some(DfsSearch)
    else None
  }

  /** Every search is listed under its own name. */
  lemma TableRoundTrip(a: Algorithm)
    ensures Table(Name(a)) == Some(a)
  {
    match a
    case DijkstraSearch =>
    case AStarSearch =>
    case GreedySearch =>
    case BfsSearch =>
    case DfsSearch =>
  }

  /** `findPath` (pathfinding.worker.ts:44-77) on the city's node data `g`.
      An empty `startNode`, `endNode` or `algorithm` (falsy), a name not in
      the table and a falsy path all resolve to `undefined` (`None`);
      otherwise the result is the reply's path converted to points, in
      order and without the unknown ids, with the reply's time unchanged. */
  method FindPath(g: Graph, algorithm: string, startNode: string, endNode: string, delay: real,
                  run: (Algorithm, NodeId, NodeId, real) -> Reply)
    returns (r: Option<(seq<LatLng>, real)>)
    ensures startNode == "" || endNode == "" || algorithm == "" || algorithm !in Names ==> r == None
    ensures r.Some? <==> (startNode != "" && endNode != "" && Table(algorithm).Some? &&
                          run(Table(algorithm).value, startNode, endNode, delay).path.Some?)
    ensures r.Some? ==> (startNode != "" && endNode != "" && Table(algorithm).Some? &&
                         var reply := run(Table(algorithm).value, startNode, endNode, delay);
                         reply.path.Some? && r.value == (Points(g, reply.path.value), reply.time))
  {
    r := None;
    if startNode != "" && endNode != "" && algorithm != "" {
      var selected := Table(algorithm);
      if selected.Some? {
        var reply := run(selected.value, startNode, endNode, delay);
        if reply.path.None? {
          return;
        }
        var path := ToPoints(g, reply.path.value);
        r := Some((path, reply.time));
      }
    }
  }
}
