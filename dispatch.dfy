/** What the three dispatchers share (src/pathfinding.worker.ts,
    src/Worker.ts, src/pathfinding.tsx): the algorithms named in the
    dispatch tables, the reply a search hands back, the conversion of the
    found ids to map points, and the messages a worker posts. */
module Dispatch {
  import opened Graph

  /** The searches a dispatch table can select. */
  datatype Algorithm = DijkstraSearch | AStarSearch | GreedySearch | BfsSearch | DfsSearch

  /** The table key under which each search is listed. */
  function Name(a: Algorithm): (s: string)
    ensures s != ""
  {
    match a
    case DijkstraSearch => "dijkstras"
    case AStarSearch => "astar"
    case GreedySearch => "greedy"
    case BfsSearch => "bfs"
    case DfsSearch => "dfs"
  }

  /** The keys of a dispatch table. */
  const Names: set<string> := {"dijkstras", "astar", "greedy", "bfs", "dfs"}

  /** The `[shortestPath, timeTaken]` a search resolves to; `None` stands
      for a falsy `shortestPath` (`false` or `undefined`; an array, even an
      empty one, is truthy). */
  datatype Reply = Reply(path: Option<seq<NodeId>>, time: real)

  /** A map point `{lat, lng}` (a Leaflet `LatLng` in pathfinding.tsx). */
  datatype LatLng = LatLng(lat: real, lng: real)

  /** The point of a node: its latitude and longitude. */
  function Coords(info: NodeInfo): LatLng {
    LatLng(info.lat, info.lon)
  }

  /** The ids known to the node data, turned into points, in order. */
  function Points(g: Graph, ids: seq<NodeId>): seq<LatLng>
    decreases |ids|
  {
    if ids == [] then []
    else
      var last := ids[|ids| - 1];
      Points(g, ids[..|ids| - 1]) + if last in g then [Coords(g[last])] else []
  }

  /** The `for (const nodeId of shortestPath)` loop (pathfinding.worker.ts:67-73,
      Worker.ts:58-64, pathfinding.tsx:28-34): each id that is a key of the
      node data pushes its point; other ids are skipped. */
  method ToPoints(g: Graph, ids: seq<NodeId>) returns (path: seq<LatLng>)
    ensures path == Points(g, ids)
  {
    path := [];
    for j := 0 to |ids|
      invariant path == Points(g, ids[..j])
    {
      assert ids[..j + 1][..j] == ids[..j];
      var nodeId := ids[j];
      if nodeId in g {
        path := path + [Coords(g[nodeId])];
      }
    }
    assert ids[..|ids|] == ids;
  }

  /** The conversion keeps order: converting two stretches of ids one after
      the other gives the points of each stretch one after the other. */
  lemma {:induction false} PointsAppend(g: Graph, a: seq<NodeId>, b: seq<NodeId>)
    ensures Points(g, a + b) == Points(g, a) + Points(g, b)
    decreases |b|
  {
    if b != [] {
      var b' := b[..|b| - 1];
      assert (a + b)[..|a + b| - 1] == a + b';
      assert (a + b)[|a + b| - 1] == b[|b| - 1];
      PointsAppend(g, a, b');
    } else {
      assert a + b == a;
    }
  }

  /** One point per known id: never more points than ids, and exactly as
      many precisely when every id is a node. */
  lemma {:induction false} PointsLength(g: Graph, ids: seq<NodeId>)
    ensures |Points(g, ids)| <= |ids|
    ensures |Points(g, ids)| == |ids| <==> forall i :: 0 <= i < |ids| ==> ids[i] in g
    decreases |ids|
  {
    if ids != [] {
      var init := ids[..|ids| - 1];
      PointsLength(g, init);
      if forall i :: 0 <= i < |init| ==> init[i] in g {
        assert forall i :: 0 <= i < |ids| - 1 ==> ids[i] == init[i];
      } else {
        var i :| 0 <= i < |init| && init[i] !in g;
        assert ids[i] !in g;
      }
    }
  }

  /** When every id is a node, the i-th point is the i-th id's. */
  lemma {:induction false} PointsOfNodes(g: Graph, ids: seq<NodeId>)
    requires forall i :: 0 <= i < |ids| ==> ids[i] in g
    ensures |Points(g, ids)| == |ids|
    ensures forall i :: 0 <= i < |ids| ==> Points(g, ids)[i] == Coords(g[ids[i]])
    decreases |ids|
  {
    if ids != [] {
      var init := ids[..|ids| - 1];
      PointsOfNodes(g, init);
      forall i | 0 <= i < |ids| ensures Points(g, ids)[i] == Coords(g[ids[i]]) {
        if i < |init| {
          assert ids[i] == init[i];
        }
      }
    }
  }

  /** A message a worker posts to the page. */
  datatype Message = UpdateNodes(nodes: seq<NodeId>) | SetPath(path: seq<LatLng>, timeTaken: real)

  /** What a worker posts for one request (pathfinding.worker.ts:24-42,
      Worker.ts:21-36): one `updateNodes` per progress batch, carrying that
      batch's ids, then one `setPath` with the converted path and the time.
      When `findPath` resolves to `undefined` the destructuring of its result
      throws, and no `setPath` follows. */
  function Transcript(batches: seq<seq<NodeId>>, result: Option<(seq<LatLng>, real)>): (m: seq<Message>)
    ensures |m| == |batches| + (if result.Some? then 1 else 0)
    ensures forall i :: 0 <= i < |batches| ==> m[i] == UpdateNodes(batches[i])
    ensures result.Some? ==> m[|batches|] == SetPath(result.value.0, result.value.1)
    ensures forall i :: 0 <= i < |m| ==> (m[i].SetPath? <==> i == |batches|)
  {
    seq(|batches|, i requires 0 <= i < |batches| => UpdateNodes(batches[i]))
      + if result.Some? then [SetPath(result.value.0, result.value.1)] else []
  }
}
