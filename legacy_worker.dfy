/** The older worker of src/Worker.ts: the same dispatch as the city
    worker, but over the San Francisco node data only and with a table
    whose `greedy` entry runs Dijkstra's search. */
module LegacyWorker {
  import opened Graph
  import opened Dispatch

  /** `algorithmDict` (Worker.ts:10-16) looked up with `hasKey` (46):
      exactly the five keys select a search; `greedy` selects Dijkstra's
      and every other key its own one. */
  function Table(name: string): (r: Option<Algorithm>)
    ensures r.Some? <==> name in Names
    ensures name == "greedy" ==> r == Some(DijkstraSearch)
    ensures r.Some? && name != "greedy" ==> Name(r.value) == name
    ensures r != Some(GreedySearch)
  {
    if name == "dijkstras" then Some(DijkstraSearch)
    else if name == "astar" then Some(AStarSearch)
    else if name == "greedy" then Some(DijkstraSearch)
    else if name == "bfs" then Some(BfsSearch)
    else if name == "dfs" then Some(DfsSearch)
    else None
  }

  /** `findPath` (Worker.ts:38-68) on the node data `g`: an empty
      `startNode`, `endNode` or `algorithm`, a name not in the table and a
      falsy path resolve to `undefined`; otherwise the reply's path as
      points, in order and without the unknown ids, with its time. */
  method FindPath(g: Graph, algorithm: string, startNode: string, endNode: string, delay: real,
                  run: (Algorithm, NodeId, NodeId, real) -> Reply)
    returns (r: Option<(seq<LatLng>, real)>)
    ensures startNode == "" || endNode == "" || algorithm == "" || algorithm !in Names ==> r == None
    ensures r.Some? <==> (startNode != "" && endNode != "" && Table(algorithm).Some? &&
                          run(Table(algorithm).value, startNode, endNode, delay).path.Some?)
    ensures r.Some? ==> (startNode != "" && endNode != "" && Table(algorithm).Some? &&
                         var reply := run(Table(algorithm).value, startNode, endNode, delay);
                         reply.path.Some? && r.value == (Points(g, reply.path.value), reply.time))
  {
    r := None;
    if startNode != "" && endNode != "" && algorithm != "" {
      var selected := Table(algorithm);
      if selected.Some? {
        var reply := run(selected.value, startNode, endNode, delay);
        if reply.path.None? {
          return;
        }
        var path := ToPoints(g, reply.path.value);
        r := Some((path, reply.time));
      }
    }
  }
}
