/** The in-page entry point of src/pathfinding.tsx: whatever the caller
    wants, it runs the depth-first search over the San Francisco node data
    and converts what it finds to map points. */
module Pathfinding {
  import opened Graph
  import opened Dispatch
  import Dfs

  /** What `findPath` resolves to: `undefined`, the points of the path, or
      the TypeError the search throws. */
  datatype Result = Undefined | Drawn(path: seq<LatLng>) | Thrown

  /** `findPath` (pathfinding.tsx:9-37) on the node data `g`, `flush` being
      the depth-first search's batch test. An empty `startNode` or `endNode`
      resolves to `undefined`, and so does a search returning `false`, which
      it does only for an unreachable goal; a found path, even an empty one,
      is drawn: its ids' points, in order, without the unknown ids. `ids`
      is the path the search found and `sent` its progress batches. */
  method FindPath(g: Graph, startNode: string, endNode: string, delay: real, flush: nat -> bool)
    returns (r: Result, ids: seq<NodeId>, sent: seq<seq<NodeId>>)
    ensures startNode == "" || endNode == "" ==> r == Undefined
    ensures r.Drawn? ==> (startNode != "" && endNode != "" && r.path == Points(g, ids) &&
                          endNode !in ids && Reachable(g, startNode, endNode) && IsWalk(g, Reverse(ids) + [endNode]))
    ensures r.Undefined? && startNode != "" && endNode != "" ==> !Reachable(g, startNode, endNode)
    ensures startNode != "" && endNode != "" && Closed(g) && startNode in g ==>
      !r.Thrown? && (r.Drawn? <==> Reachable(g, startNode, endNode))
    ensures delay <= 0.0 ==> sent == []
  {
    r, ids, sent := Undefined, [], [];
    if startNode != "" && endNode != "" {
      var shortestPath, batches, _, _ := Dfs.Search(g, startNode, endNode, delay, flush);
      sent := batches;
      match shortestPath
      case NoPath =>
        return;
      case Fault =>
        r := Thrown;
      case Path(found) =>
        ids := found;
        var path := ToPoints(g, found);
        r := Drawn(path);
    }
  }
}
