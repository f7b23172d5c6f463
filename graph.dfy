/** The road-network graph every search runs over: a dictionary from node id
    to the node's coordinates and adjacency list (src/types.ts), and the
    notions of walk and reachability the searches' contracts are stated in. */
module Graph {

  datatype Option<T> = None | Some(value: T)

  /** Node ids are the non-empty strings of the city data. The empty string
      would be falsy in the truthiness tests the searches and dispatchers
      make, so it is excluded by the type. */
  type NodeId = s: string | s != "" witness "0"

  /** `nodeInfo`: latitude, longitude and the ids of the neighbours. */
  datatype NodeInfo = NodeInfo(lat: real, lon: real, adj: seq<NodeId>)

  /** A city's node data: id to `nodeInfo`. */
  type Graph = map<NodeId, NodeInfo>

  /** The adjacency list a search expands for `u`: the searches only expand
      ids that are keys of the node data (`hasKey`). It lists exactly the
      heads of the edges out of `u`, and nothing for an id that is not a node. */
  function Adj(g: Graph, u: NodeId): (r: seq<NodeId>)
    ensures forall v :: v in r <==> Edge(g, u, v)
    ensures u !in g ==> r == []
  {
    if u in g then g[u].adj else []
  }

  /** An edge u -> v: u is a node and v is in its adjacency list. */
  predicate Edge(g: Graph, u: NodeId, v: NodeId) {
    u in g && v in g[u].adj
  }

  /** Every adjacency list only names nodes of the data. */
  predicate Closed(g: Graph) {
    forall u, v :: u in g && v in g[u].adj ==> v in g
  }

  /** A non-empty sequence of ids in which each id is adjacent to the one before. */
  ghost predicate IsWalk(g: Graph, p: seq<NodeId>) {
    |p| > 0 && forall i :: 0 <= i < |p| - 1 ==> Edge(g, p[i], p[i + 1])
  }

  ghost predicate IsWalkBetween(g: Graph, p: seq<NodeId>, s: NodeId, t: NodeId) {
    IsWalk(g, p) && p[0] == s && p[|p| - 1] == t
  }

  ghost predicate Reachable(g: Graph, s: NodeId, t: NodeId) {
    exists p :: IsWalkBetween(g, p, s, t)
  }

  /** `reverse()` of a JavaScript array. */
  function Reverse<T>(s: seq<T>): (r: seq<T>)
    ensures |r| == |s|
    ensures forall i :: 0 <= i < |s| ==> r[i] == s[|s| - 1 - i]
  {
    if s == [] then [] else Reverse(s[1..]) + [s[0]]
  }

  /** `queue` with its `i`-th entry removed: one entry shorter, and it
      keeps every entry other than the removed one. */
  function Remove<E>(queue: seq<E>, i: nat): (r: seq<E>)
    requires i < |queue|
    ensures |r| == |queue| - 1
    ensures forall e :: e in r ==> e in queue
    ensures forall e :: e in queue && e != queue[i] ==> e in r
  {
    var r := queue[..i] + queue[i + 1..];
    assert forall e :: e in queue && e != queue[i] ==> e in r by {
      forall e | e in queue && e != queue[i] ensures e in r {
        var j :| 0 <= j < |queue| && queue[j] == e;
        if j < i { assert r[j] == e; } else { assert r[j - 1] == e; }
      }
    }
    r
  }

  lemma ReachableRefl(g: Graph, s: NodeId)
    ensures Reachable(g, s, s)
  {
    assert IsWalkBetween(g, [s], s, s);
  }

  /** A walk from `s` to `t` makes `t` reachable from `s`. */
  lemma WalkReaches(g: Graph, p: seq<NodeId>, s: NodeId, t: NodeId)
    requires IsWalkBetween(g, p, s, t)
    ensures Reachable(g, s, t)
  {
  }

  /** Extending a walk by one edge. */
  lemma {:induction false} ReachableStep(g: Graph, s: NodeId, u: NodeId, v: NodeId)
    requires Reachable(g, s, u) && Edge(g, u, v)
    ensures Reachable(g, s, v)
  {
    var p :| IsWalkBetween(g, p, s, u);
    var q := p + [v];
    forall i | 0 <= i < |q| - 1 ensures Edge(g, q[i], q[i + 1]) {
      if i + 1 < |p| { assert Edge(g, p[i], p[i + 1]); }
    }
    assert IsWalkBetween(g, q, s, v);
  }

  /** A prefix of a walk is a walk. */
  lemma {:induction false} WalkPrefix(g: Graph, p: seq<NodeId>, n: nat)
    requires IsWalk(g, p) && 0 < n <= |p|
    ensures IsWalk(g, p[..n])
  {
    forall i | 0 <= i < n - 1 ensures Edge(g, p[..n][i], p[..n][i + 1]) {
      assert Edge(g, p[i], p[i + 1]);
    }
  }

  /** A suffix of a walk is a walk. */
  lemma {:induction false} WalkSuffix(g: Graph, p: seq<NodeId>, n: nat)
    requires IsWalk(g, p) && n < |p|
    ensures IsWalk(g, p[n..])
  {
    forall i | 0 <= i < |p| - n - 1 ensures Edge(g, p[n..][i], p[n..][i + 1]) {
      assert Edge(g, p[n + i], p[n + i + 1]);
    }
  }

  /** A set of ids that contains `s` and is closed under the edges into the
      dictionary `dom` contains every member of `dom` (and every node) that
      is reachable from `s`. */
  lemma {:induction false} ClosedSetContainsReachable(g: Graph, s: NodeId, t: NodeId, S: set<NodeId>, dom: set<NodeId>)
    requires s in S && t in dom && g.Keys <= dom
    requires forall u, v :: u in S && Edge(g, u, v) && v in dom ==> v in S
    requires Reachable(g, s, t)
    ensures t in S
  {
    var p :| IsWalkBetween(g, p, s, t);
    var i := 0;
    while i < |p| - 1
      invariant 0 <= i < |p|
      invariant p[i] in S
    {
      assert Edge(g, p[i], p[i + 1]);
      assert p[i + 1] in dom by {
        if i + 1 < |p| - 1 { assert Edge(g, p[i + 1], p[i + 2]); }
      }
      i := i + 1;
    }
  }
}
