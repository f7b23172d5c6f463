/** The predecessor walk that Dijkstra, greedy best-first and BFS end with
    (src/algorithms/dijkstra.tsx:41-44, greedy.tsx:103-109, bfs.tsx:64-70):
    starting at the goal, `while (previous[node]) { path.push(node); node =
    previous[node]; }`. A `previous` dictionary maps an id to its predecessor
    or to null; an entry is truthy when it is present and not null. */
module Chains {
  import opened Graph

  type Links = map<NodeId, Option<NodeId>>

  /** `previous[v]` is truthy. */
  predicate Linked(prev: Links, v: NodeId) {
    v in prev && prev[v].Some?
  }

  /** Where the walk from `x` stands after `k` steps, or None if it stopped before. */
  ghost function Step(prev: Links, x: NodeId, k: nat): Option<NodeId>
  {
    if k == 0 then Some(x)
    else match Step(prev, x, k - 1)
      case Some(y) => if Linked(prev, y) then Some(prev[y].value) else None
      case None => None
  }

  /** The walk from `x` never ends: however many steps it has taken, the
      entry it stands on is truthy. */
  ghost predicate Diverges(prev: Links, x: NodeId) {
    forall k: nat {:trigger Step(prev, x, k)} :: Step(prev, x, k).Some? && Linked(prev, Step(prev, x, k).value)
  }

  /** The id the walk stops at once it has pushed `path`. */
  function Stop(prev: Links, x: NodeId, path: seq<NodeId>): NodeId
    requires forall i :: 0 <= i < |path| ==> Linked(prev, path[i])
  {
    if path == [] then x
    else
      assert Linked(prev, path[|path| - 1]);
      prev[path[|path| - 1]].value
  }

  /** `path` is what the walk from `x` pushes: `x` first, then each entry's
      predecessor, every pushed entry truthy, until an entry that is not. */
  ghost predicate IsChain(prev: Links, x: NodeId, path: seq<NodeId>) {
    && (forall i :: 0 <= i < |path| ==> Linked(prev, path[i]))
    && (|path| > 0 ==> path[0] == x)
    && (forall i :: 0 <= i < |path| - 1 ==> path[i + 1] == prev[path[i]].value)
    && !Linked(prev, Stop(prev, x, path))
  }

  /** Every truthy entry `previous[v] = u` records an edge u -> v. */
  ghost predicate LinksAreEdges(g: Graph, prev: Links) {
    forall v :: Linked(prev, v) ==> Edge(g, prev[v].value, v)
  }

  /** The walk, run for at most one step more than the dictionary has
      entries. If it has not stopped by then it has stood on some entry
      twice, and then it never stops: the source's loop does not end. */
  method WalkBack(prev: Links, x: NodeId) returns (r: Option<seq<NodeId>>)
    ensures r.Some? ==> IsChain(prev, x, r.value)
    ensures r.None? <==> Diverges(prev, x)
  {
    var node := x;
    var path: seq<NodeId> := [];
    while Linked(prev, node) && |path| <= |prev|
      invariant |path| <= |prev| + 1
      invariant forall i :: 0 <= i < |path| ==> Step(prev, x, i) == Some(path[i]) && Linked(prev, path[i])
      invariant Step(prev, x, |path|) == Some(node)
      invariant |path| > 0 ==> path[0] == x
      invariant forall i :: 0 <= i < |path| - 1 ==> path[i + 1] == prev[path[i]].value
      invariant node == Stop(prev, x, path)
      decreases |prev| + 1 - |path|
    {
      path := path + [node];
      node := prev[node].value;
    }
    if Linked(prev, node) {
      assert |path| == |prev| + 1;
      forall i | 0 <= i < |path| ensures path[i] in prev.Keys {
      }
      var i, j := Duplicate(path, prev.Keys);
      forall k: nat ensures Step(prev, x, k).Some? && Linked(prev, Step(prev, x, k).value) {
        Periodic(prev, x, i, j, k);
      }
      r := None;
    } else {
      assert !Diverges(prev, x) by {
        assert Step(prev, x, |path|) == Some(node);
      }
      r := Some(path);
    }
  }

  /** More entries in `s` than members of `S` that hold them: two coincide. */
  lemma {:induction false} Duplicate(s: seq<NodeId>, S: set<NodeId>) returns (i: nat, j: nat)
    requires forall k :: 0 <= k < |s| ==> s[k] in S
    requires |s| > |S|
    ensures i < j < |s| && s[i] == s[j]
  {
    var n := |s| - 1;
    var last := s[n];
    if k :| 0 <= k < n && s[k] == last {
      i, j := k, n;
    } else {
      forall k | 0 <= k < n ensures s[..n][k] in S - {last} {
      }
      i, j := Duplicate(s[..n], S - {last});
    }
  }

  /** Once the walk has returned to an entry it stood on `j - i` steps
      before, it repeats itself for ever. */
  lemma {:induction false} Periodic(prev: Links, x: NodeId, i: nat, j: nat, k: nat)
    requires i < j && Step(prev, x, i) == Step(prev, x, j)
    requires forall m :: 0 <= m < j ==> Step(prev, x, m).Some? && Linked(prev, Step(prev, x, m).value)
    ensures Step(prev, x, k).Some? && Linked(prev, Step(prev, x, k).value)
    ensures k >= j ==> Step(prev, x, k) == Step(prev, x, k - (j - i))
    decreases k
  {
    if k < j {
    } else if k == j {
    } else {
      var d := j - i;
      Periodic(prev, x, i, j, k - 1);
      Periodic(prev, x, i, j, k - 1 - d);
      Periodic(prev, x, i, j, k - d);
    }
  }

  /** When every truthy entry leads to an id of strictly smaller rank, the
      walk cannot go on for ever. */
  lemma RankedEnds(prev: Links, x: NodeId, rank: map<NodeId, nat>)
    requires x in rank
    requires forall v :: Linked(prev, v) && v in rank ==> prev[v].value in rank && rank[prev[v].value] < rank[v]
    ensures !Diverges(prev, x)
  {
    if Diverges(prev, x) {
      var k := rank[x] + 1;
      RankDrops(prev, x, rank, k);
    }
  }

  lemma {:induction false} RankDrops(prev: Links, x: NodeId, rank: map<NodeId, nat>, k: nat)
    requires x in rank
    requires forall v :: Linked(prev, v) && v in rank ==> prev[v].value in rank && rank[prev[v].value] < rank[v]
    requires forall m: nat :: m < k ==> Step(prev, x, m).Some? && Linked(prev, Step(prev, x, m).value)
    ensures Step(prev, x, k).Some? && Step(prev, x, k).value in rank
    ensures rank[Step(prev, x, k).value] + k <= rank[x]
  {
    if k > 0 {
      RankDrops(prev, x, rank, k - 1);
    }
  }

  /** The pushed chain, reversed and preceded by the id the walk stopped at,
      is a walk in the graph from that id to `x`. */
  lemma {:induction false} ChainIsWalk(g: Graph, prev: Links, x: NodeId, path: seq<NodeId>)
    requires IsChain(prev, x, path) && LinksAreEdges(g, prev)
    ensures IsWalkBetween(g, [Stop(prev, x, path)] + Reverse(path), Stop(prev, x, path), x)
  {
    var t := Stop(prev, x, path);
    var w := [t] + Reverse(path);
    var n := |path|;
    forall i | 0 <= i < |w| - 1 ensures Edge(g, w[i], w[i + 1]) {
      // w[i + 1] == path[n - 1 - i]; w[i] is the entry after it in the chain
      var p := path[n - 1 - i];
      assert Linked(prev, p);
      if i == 0 {
        assert w[i] == prev[path[n - 1]].value;
      } else {
        assert w[i] == path[n - i];
        assert path[n - i] == prev[path[n - 1 - i]].value;
      }
    }
    if n > 0 {
      assert w[|w| - 1] == path[0];
    }
  }
}
