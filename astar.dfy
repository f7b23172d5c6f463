/** A* search over per-call search nodes with mutable scores
    (src/algorithms/astar.tsx). The module-level `graph` dictionary is the
    `NodeTable` class; the binary heap keyed on `f` is a sequence from which
    `pop` takes a node of least current `f` (so `rescoreElement` leaves the
    sequence as it is). The edge cost `manhattan(currentNode, neighbor)` and
    the heuristic `manhattan(neighbor, end)` are parameters. */
module AStar {
  import opened Graph
  import Render

  /** `class Node` (astar.tsx:27-51). */
  class SearchNode {
    var f: real
    var g: real
    var h: real
    const ref: NodeId
    var visited: bool
    var closed: bool
    const neighbors: seq<NodeId>
    var parent: SearchNode?

    /** A node starts with all scores 0, neither visited nor closed, and no parent. */
    constructor (nodeId: NodeId, neighbors: seq<NodeId>)
      ensures ref == nodeId && this.neighbors == neighbors
      ensures f == 0.0 && g == 0.0 && h == 0.0
      ensures !visited && !closed && parent == null
    {
      f, g, h := 0.0, 0.0, 0.0;
      visited, closed := false, false;
      ref := nodeId;
      this.neighbors := neighbors;
      parent := null;
    }
  }

  /** What `astar` resolves to: `undefined`, `[pathTo(end), time]` on
      reaching the goal, `[[], time]` when the heap runs dry, or a TypeError
      when a neighbour id has no search node. */
  datatype Outcome = Undefined | Found(path: seq<NodeId>, time: real) | Exhausted(time: real) | Thrown

  /** The walk along parents from `node` to the first node without one
      (astar.tsx:59-68): `pathTo` lists the refs after that node, nearest to
      it first and `node` last; each listed node's parent is the node listed
      before it, and the first one's parent is `root`. `rank` is a measure
      the parent links decrease, so that the walk ends. */
  method PathTo(node: SearchNode, ghost rank: map<SearchNode, nat>)
    returns (path: seq<NodeId>, ghost chain: seq<SearchNode>, ghost root: SearchNode)
    requires node in rank
    requires forall n :: n in rank && n.parent != null ==> n.parent in rank && rank[n.parent] < rank[n]
    ensures root.parent == null && |chain| == |path|
    ensures forall i :: 0 <= i < |path| ==> chain[i].ref == path[i] && chain[i].parent != null
    ensures path == [] ==> root == node
    ensures path != [] ==> chain[|path| - 1] == node && chain[0].parent == root
    ensures forall i :: 0 < i < |path| ==> chain[i].parent == chain[i - 1]
  {
    var curr := node;
    path, chain := [], [];
    while curr.parent != null
      invariant curr in rank && |chain| == |path|
      invariant forall i :: 0 <= i < |path| ==> chain[i].ref == path[i] && chain[i].parent != null
      invariant path == [] ==> curr == node
      invariant path != [] ==> chain[|path| - 1] == node && chain[0].parent == curr
      invariant forall i :: 0 < i < |path| ==> chain[i].parent == chain[i - 1]
      decreases rank[curr]
    {
      path := [curr.ref] + path;
      chain := [curr] + chain;
      curr := curr.parent;
    }
    root := curr;
  }

  /** A node's mutable fields at one moment. */
  datatype NodeView = NodeView(f: real, g: real, h: real, visited: bool, closed: bool, parent: SearchNode?)

  /** The fields of every node of the table, by id. */
  ghost function View(T: map<NodeId, SearchNode>): (V: map<NodeId, NodeView>)
    reads T.Values
    ensures V.Keys == T.Keys
  {
    map k | k in T :: NodeView(T[k].f, T[k].g, T[k].h, T[k].visited, T[k].closed, T[k].parent)
  }

  /** The relaxation rule of astar.tsx:140-146 on one node's fields: on a
      first visit or a strictly smaller `gScore` the node becomes visited,
      takes `current` as parent, keeps a non-zero `h` or takes `hEnd`, takes
      `gScore` as `g` and `h + g` as `f`; otherwise nothing changes. */
  function Relaxed(v: NodeView, current: SearchNode, gScore: real, hEnd: real): (w: NodeView)
  {
    if !v.visited || gScore < v.g then
      var h := if v.h != 0.0 then v.h else hEnd;
      NodeView(h + gScore, gScore, h, true, v.closed, current)
    else v
  }

  /** The view after the relaxation rule is applied to id `k`. */
  ghost function Relaxing(V: map<NodeId, NodeView>, k: NodeId, current: SearchNode, gScore: real, hEnd: real): map<NodeId, NodeView>
    requires k in V
  {
    V[k := Relaxed(V[k], current, gScore, hEnd)]
  }

  /** The view after id `k` is closed. */
  ghost function Closing(V: map<NodeId, NodeView>, k: NodeId): map<NodeId, NodeView>
    requires k in V
  {
    V[k := V[k].(closed := true)]
  }

  /** The relaxation of the edge into `n` with score `gScore`
      (astar.tsx:137-152): `n` is updated by the rule above and pushed on
      its first visit; no other node changes. */
  method Visit(ghost T: map<NodeId, SearchNode>, current: SearchNode, n: SearchNode, gScore: real, hEnd: real,
               heap: seq<SearchNode>)
    returns (heap': seq<SearchNode>)
    requires n.ref in T && T[n.ref] == n && forall k :: k in T ==> T[k].ref == k
    modifies n
    ensures View(T) == Relaxing(old(View(T)), n.ref, current, gScore, hEnd)
    ensures heap' == if old(n.visited) then heap else heap + [n]
  {
    ghost var V0 := View(T);
    assert V0[n.ref] == NodeView(n.f, n.g, n.h, n.visited, n.closed, n.parent);
    var wasVisited := n.visited;
    heap' := heap;
    if !wasVisited || gScore < n.g {
      var h := if n.h != 0.0 then n.h else hEnd;
      Overwrite(T, n, current, h, gScore);
      if !wasVisited {
        heap' := heap + [n];
      }
    } else {
      assert Relaxing(V0, n.ref, current, gScore, hEnd) == V0;
    }
  }

  /** The assignments of astar.tsx:141-145 on `n`: visited, with parent
      `current`, scores `h` and `gScore`, and `f` their sum. */
  method Overwrite(ghost T: map<NodeId, SearchNode>, n: SearchNode, current: SearchNode, h: real, gScore: real)
    requires n.ref in T && T[n.ref] == n && forall k :: k in T ==> T[k].ref == k
    modifies n
    ensures View(T) == old(View(T))[n.ref := NodeView(h + gScore, gScore, h, true, old(n.closed), current)]
  {
    ghost var V0 := View(T);
    ghost var closed := n.closed;
    n.visited := true;
    n.parent := current;
    n.h := h;
    n.g := gScore;
    n.f := n.h + n.g;
    ghost var V1 := View(T);
    forall k | k in V1 ensures V1[k] == V0[n.ref := NodeView(h + gScore, gScore, h, true, closed, current)][k] {
      if k != n.ref {
        assert T[k].ref == k;
      }
    }
  }

  /** `currentNode.closed = true` (astar.tsx:123): no other field and no
      other node changes. */
  method Close(ghost T: map<NodeId, SearchNode>, node: SearchNode)
    requires node.ref in T && T[node.ref] == node && forall k :: k in T ==> T[k].ref == k
    modifies node
    ensures View(T) == Closing(old(View(T)), node.ref)
  {
    ghost var V0 := View(T);
    node.closed := true;
    ghost var V1 := View(T);
    forall k | k in V1 ensures V1[k] == Closing(V0, node.ref)[k] {
      if k != node.ref {
        assert T[k].ref == k;
      }
    }
  }

  // ---------------------------------------------------------------------
  // What the main loop keeps, stated on a view `V` of the table `T`.
  // `order` is the step at which each closed id was closed, `count` the
  // number of nodes closed.

  /** The table holds one node per node id, with that id and its adjacency. */
  predicate Indexed(g: Graph, T: map<NodeId, SearchNode>) {
    T.Keys == g.Keys && forall k :: k in T ==> T[k].ref == k && T[k].neighbors == g[k].adj
  }

  /** The ids whose nodes are neither visited nor closed. */
  ghost function Untouched(V: map<NodeId, NodeView>): set<NodeId> {
    set k | k in V && !V[k].visited && !V[k].closed
  }

  /** Every parent is the table node of a closed id with an edge to its
      child, closed before the child; every visited node has a parent;
      every closed node is the start or has a parent. */
  ghost predicate Parents(g: Graph, T: map<NodeId, SearchNode>, V: map<NodeId, NodeView>, start: NodeId,
                          order: map<NodeId, nat>, count: nat)
  {
    && (forall k :: k in V && V[k].parent != null ==>
          && V[k].parent.ref in T && V[k].parent.ref in V && T[V[k].parent.ref] == V[k].parent
          && V[V[k].parent.ref].closed && Edge(g, V[k].parent.ref, k))
    && (forall k :: k in V && V[k].closed ==> k in order && order[k] < count && (k == start || V[k].parent != null))
    && (forall k :: k in V && V[k].parent != null && V[k].closed ==>
          V[k].parent.ref in order && k in order && order[V[k].parent.ref] < order[k])
    && (forall k :: k in V && V[k].visited ==> V[k].parent != null)
  }

  /** The heap holds distinct table nodes of open ids that are the start or
      visited; every visited id, and the start, is closed or has its node
      in the heap. */
  ghost predicate Frontier(T: map<NodeId, SearchNode>, V: map<NodeId, NodeView>, start: NodeId, heap: seq<SearchNode>)
  {
    && (forall i :: 0 <= i < |heap| ==>
          && heap[i].ref in T && T[heap[i].ref] == heap[i] && heap[i].ref in V
          && !V[heap[i].ref].closed && (heap[i].ref == start || V[heap[i].ref].visited))
    && (forall i, j :: 0 <= i < j < |heap| ==> heap[i] != heap[j])
    && (forall k :: k in V && (V[k].visited || k == start) ==> V[k].closed || (k in T && T[k] in heap))
  }

  /** The start keeps no parent and is the first id closed; the goal is never closed. */
  ghost predicate Ends(T: map<NodeId, SearchNode>, V: map<NodeId, NodeView>, start: NodeId, end: NodeId,
                       heap: seq<SearchNode>, count: nat)
  {
    && start in T && start in V && end in V && V[start].parent == null && !V[end].closed
    && (count == 0 ==> heap == [T[start]] && forall k :: k in V ==> !V[k].closed)
    && (count > 0 ==> V[start].closed)
  }

  /** Id `u` has been expanded: each of its neighbours is visited or closed. */
  ghost predicate Expanded(g: Graph, V: map<NodeId, NodeView>, u: NodeId)
    requires u in g
  {
    forall v :: v in g[u].adj ==> v in V && (V[v].visited || V[v].closed)
  }

  /** Every closed id other than `except` has been expanded. */
  ghost predicate ClosedExpanded(g: Graph, V: map<NodeId, NodeView>, except: set<NodeId>) {
    forall u :: u in g && u in V && V[u].closed && u !in except ==> Expanded(g, V, u)
  }

  ghost predicate Wired(g: Graph, T: map<NodeId, SearchNode>, V: map<NodeId, NodeView>, start: NodeId, end: NodeId,
                        heap: seq<SearchNode>, order: map<NodeId, nat>, count: nat)
  {
    && Indexed(g, T) && V.Keys == T.Keys
    && Parents(g, T, V, start, order, count)
    && Frontier(T, V, start, heap)
    && Ends(T, V, start, end, heap, count)
  }

  /** From one view to the next no id is closed or reopened, visited stays
      visited, and a closed id keeps all its fields. */
  ghost predicate Grows(V0: map<NodeId, NodeView>, V1: map<NodeId, NodeView>) {
    V1.Keys == V0.Keys &&
    forall k :: k in V0 ==>
      && V1[k].closed == V0[k].closed
      && (V0[k].visited ==> V1[k].visited)
      && (V0[k].closed ==> V1[k] == V0[k])
  }

  lemma GrowsTrans(V0: map<NodeId, NodeView>, V1: map<NodeId, NodeView>, V2: map<NodeId, NodeView>)
    requires Grows(V0, V1) && Grows(V1, V2)
    ensures Grows(V0, V2)
  {
  }

  /** While the view grows, expanded ids stay expanded. */
  lemma GrowsKeepsExpanded(g: Graph, V0: map<NodeId, NodeView>, V1: map<NodeId, NodeView>, except: set<NodeId>)
    requires Grows(V0, V1) && ClosedExpanded(g, V0, except)
    ensures ClosedExpanded(g, V1, except)
  {
    forall u | u in g && u in V1 && V1[u].closed && u !in except ensures Expanded(g, V1, u) {
      assert Expanded(g, V0, u);
      forall v | v in g[u].adj ensures v in V1 && (V1[v].visited || V1[v].closed) {
        assert v in V0 && (V0[v].visited || V0[v].closed);
      }
    }
  }

  /** One relaxation of the open neighbour `n` of the closed node `current`
      keeps the parent structure: `current` is a closed table node with an
      edge to `n`. */
  lemma VisitKeepsParents(g: Graph, T: map<NodeId, SearchNode>, V: map<NodeId, NodeView>, V1: map<NodeId, NodeView>,
                          start: NodeId, current: SearchNode, n: SearchNode, gScore: real, hEnd: real,
                          order: map<NodeId, nat>, count: nat)
    requires Parents(g, T, V, start, order, count) && V.Keys == T.Keys
    requires current.ref in T && T[current.ref] == current && V[current.ref].closed
    requires n.ref in V && !V[n.ref].closed && Edge(g, current.ref, n.ref)
    requires V1 == Relaxing(V, n.ref, current, gScore, hEnd)
    ensures Parents(g, T, V1, start, order, count)
  {
    forall k | k in V1 && V1[k].parent != null
      ensures V1[k].parent.ref in T && V1[k].parent.ref in V1 && T[V1[k].parent.ref] == V1[k].parent
      ensures V1[k].closed == V[k].closed && V1[V1[k].parent.ref].closed && Edge(g, V1[k].parent.ref, k)
    {
      if k != n.ref {
        assert V1[k] == V[k];
      }
    }
  }

  /** The same relaxation keeps the frontier: `n`, now visited, is pushed
      exactly when it was not visited before, and then it was not in the heap. */
  lemma VisitKeepsFrontier(T: map<NodeId, SearchNode>, V: map<NodeId, NodeView>, V1: map<NodeId, NodeView>,
                           start: NodeId, current: SearchNode, n: SearchNode, gScore: real, hEnd: real,
                           heap: seq<SearchNode>, heap1: seq<SearchNode>)
    requires Frontier(T, V, start, heap) && V.Keys == T.Keys
    requires n.ref in T && T[n.ref] == n && !V[n.ref].closed && n.ref != start
    requires V1 == Relaxing(V, n.ref, current, gScore, hEnd)
    requires heap1 == if V[n.ref].visited then heap else heap + [n]
    ensures Frontier(T, V1, start, heap1)
  {
    if !V[n.ref].visited {
      forall i | 0 <= i < |heap| ensures heap[i] != n {
        assert heap[i].ref != n.ref;
      }
    }
  }

  /** One relaxation of the open neighbour `n` of the closed node `current`
      keeps the table wired, lets the view grow, and uses up `n` exactly when
      it pushes it. */
  lemma VisitKeeps(g: Graph, T: map<NodeId, SearchNode>, V: map<NodeId, NodeView>, V1: map<NodeId, NodeView>,
                   start: NodeId, end: NodeId, current: SearchNode, n: SearchNode, gScore: real, hEnd: real,
                   heap: seq<SearchNode>, heap1: seq<SearchNode>, order: map<NodeId, nat>, count: nat)
    requires Wired(g, T, V, start, end, heap, order, count) && count > 0
    requires current.ref in T && T[current.ref] == current && V[current.ref].closed
    requires n.ref in T && T[n.ref] == n && !V[n.ref].closed && Edge(g, current.ref, n.ref)
    requires V1 == Relaxing(V, n.ref, current, gScore, hEnd)
    requires heap1 == if V[n.ref].visited then heap else heap + [n]
    ensures Wired(g, T, V1, start, end, heap1, order, count)
    ensures Grows(V, V1) && V1[n.ref].visited
    ensures |heap1| + |Untouched(V1)| == |heap| + |Untouched(V)|
  {
    assert n.ref != start;
    VisitKeepsParents(g, T, V, V1, start, current, n, gScore, hEnd, order, count);
    VisitKeepsFrontier(T, V, V1, start, current, n, gScore, hEnd, heap, heap1);
    VisitUses(V, V1, n, current, gScore, hEnd, heap, heap1);
  }

  /** A relaxation of an open id lets the view grow, and uses that id up
      exactly when it pushes it. */
  lemma VisitUses(V: map<NodeId, NodeView>, V1: map<NodeId, NodeView>, n: SearchNode, current: SearchNode,
                  gScore: real, hEnd: real, heap: seq<SearchNode>, heap1: seq<SearchNode>)
    requires n.ref in V && !V[n.ref].closed
    requires V1 == Relaxing(V, n.ref, current, gScore, hEnd)
    requires heap1 == if V[n.ref].visited then heap else heap + [n]
    ensures Grows(V, V1) && V1[n.ref].visited
    ensures |heap1| + |Untouched(V1)| == |heap| + |Untouched(V)|
  {
    if !V[n.ref].visited {
      assert Untouched(V1) == Untouched(V) - {n.ref};
    } else {
      assert Untouched(V1) == Untouched(V);
    }
  }

  /** Closing the open id `id` at step `count` keeps the parent structure:
      it is the start or has a parent, and that parent was closed earlier. */
  lemma CloseKeepsParents(g: Graph, T: map<NodeId, SearchNode>, V: map<NodeId, NodeView>, V1: map<NodeId, NodeView>,
                          start: NodeId, id: NodeId, order: map<NodeId, nat>, count: nat, order1: map<NodeId, nat>)
    requires Parents(g, T, V, start, order, count) && V.Keys == T.Keys
    requires id in V && !V[id].closed && (id == start || V[id].visited)
    requires V1 == Closing(V, id) && order1 == order[id := count]
    ensures Parents(g, T, V1, start, order1, count + 1)
  {
    assert V1[id] == V[id].(closed := true) && forall k :: k in V && k != id ==> V1[k] == V[k];
    forall k | k in V1 && V1[k].parent != null
      ensures V1[k].parent.ref in T && V1[k].parent.ref in V1 && T[V1[k].parent.ref] == V1[k].parent
      ensures V1[V1[k].parent.ref].closed && Edge(g, V1[k].parent.ref, k)
    {
      assert V1[k].parent == V[k].parent;
      var p := V[k].parent.ref;
      assert V[p].closed;
      if p != id {
        assert V1[p] == V[p];
      }
    }
    forall k | k in V1 && V1[k].closed ensures k in order1 && order1[k] < count + 1 && (k == start || V1[k].parent != null) {
      if k != id {
        assert V1[k] == V[k];
      }
    }
    forall k | k in V1 && V1[k].parent != null && V1[k].closed
      ensures V1[k].parent.ref in order1 && k in order1 && order1[V1[k].parent.ref] < order1[k]
    {
      var p := V1[k].parent.ref;
      assert V[p].closed && p != id;
      if k != id {
        assert V1[k] == V[k];
      }
    }
    forall k | k in V1 && V1[k].visited ensures V1[k].parent != null {
      if k != id {
        assert V1[k] == V[k];
      }
    }
  }

  /** Closing `heap[i]` and taking it out of the heap keeps the frontier. */
  lemma CloseKeepsFrontier(T: map<NodeId, SearchNode>, V: map<NodeId, NodeView>, V1: map<NodeId, NodeView>,
                           start: NodeId, heap: seq<SearchNode>, i: nat)
    requires Frontier(T, V, start, heap) && V.Keys == T.Keys && forall k :: k in T ==> T[k].ref == k
    requires i < |heap|
    requires V1 == Closing(V, heap[i].ref)
    ensures Frontier(T, V1, start, heap[..i] + heap[i + 1..])
  {
    var id := heap[i].ref;
    var rest := heap[..i] + heap[i + 1..];
    forall j | 0 <= j < |rest| ensures rest[j].ref != id {
      if j < i { assert rest[j] == heap[j]; } else { assert rest[j] == heap[j + 1]; }
    }
    forall k | k in V1 && (V1[k].visited || k == start) ensures V1[k].closed || (k in T && T[k] in rest) {
      if k != id && !V1[k].closed {
        var j :| 0 <= j < |heap| && heap[j] == T[k];
        assert heap[j].ref == k;
        if j < i { assert rest[j] == heap[j]; } else { assert rest[j - 1] == heap[j]; }
      }
    }
  }

  /** Closing the popped node `heap[i]` (astar.tsx:123) keeps the table
      wired, with the id closed at step `count`. */
  lemma CloseKeeps(g: Graph, T: map<NodeId, SearchNode>, V: map<NodeId, NodeView>, V1: map<NodeId, NodeView>,
                   start: NodeId, end: NodeId, heap: seq<SearchNode>, i: nat,
                   order: map<NodeId, nat>, count: nat, order1: map<NodeId, nat>)
    requires Wired(g, T, V, start, end, heap, order, count)
    requires i < |heap| && heap[i].ref != end
    requires V1 == Closing(V, heap[i].ref) && order1 == order[heap[i].ref := count]
    ensures Wired(g, T, V1, start, end, heap[..i] + heap[i + 1..], order1, count + 1)
  {
    var id := heap[i].ref;
    assert id in V && !V[id].closed && (id == start || V[id].visited);
    CloseKeepsParents(g, T, V, V1, start, id, order, count, order1);
    CloseKeepsFrontier(T, V, V1, start, heap, i);
    CloseKeepsEnds(T, V, V1, start, end, heap, i, count);
  }

  /** The first node closed is the start, and the goal is still open. */
  lemma CloseKeepsEnds(T: map<NodeId, SearchNode>, V: map<NodeId, NodeView>, V1: map<NodeId, NodeView>,
                       start: NodeId, end: NodeId, heap: seq<SearchNode>, i: nat, count: nat)
    requires Ends(T, V, start, end, heap, count) && forall k :: k in T ==> T[k].ref == k
    requires i < |heap| && heap[i].ref in V && heap[i].ref != end
    requires V1 == Closing(V, heap[i].ref)
    ensures Ends(T, V1, start, end, heap[..i] + heap[i + 1..], count + 1)
  {
    if count == 0 {
      assert heap[i] == T[start];
    }
  }

  /** Closing `id` leaves the other closed ids expanded and uses up nothing but `id`. */
  lemma CloseKeepsExpanded(g: Graph, V: map<NodeId, NodeView>, V1: map<NodeId, NodeView>, id: NodeId)
    requires ClosedExpanded(g, V, {}) && id in V
    requires V1 == Closing(V, id)
    ensures ClosedExpanded(g, V1, {id})
    ensures |Untouched(V1)| <= |Untouched(V)| && V1[id].closed
  {
    forall u | u in g && u in V1 && V1[u].closed && u != id ensures Expanded(g, V1, u) {
      assert Expanded(g, V, u);
    }
    if id in Untouched(V) {
      assert Untouched(V1) == Untouched(V) - {id};
    } else {
      assert Untouched(V1) == Untouched(V);
    }
  }

  /** `heap[i]` has least `f`: the node `pop` may return. */
  predicate IsMinF(heap: seq<SearchNode>, i: nat)
    reads heap
  {
    i < |heap| && forall j :: 0 <= j < |heap| ==> heap[i].f <= heap[j].f
  }

  lemma {:induction false} MinFExists(heap: seq<SearchNode>)
    requires |heap| > 0
    ensures exists i :: IsMinF(heap, i)
  {
    if |heap| > 1 {
      MinFExists(heap[1..]);
      var i: nat :| IsMinF(heap[1..], i);
      if heap[0].f <= heap[1..][i].f {
        assert IsMinF(heap, 0);
      } else {
        assert IsMinF(heap, i + 1);
      }
    } else {
      assert IsMinF(heap, 0);
    }
  }

  /** `openHeap.pop()`: the index of a node of least `f`; which one of
      several is left open. */
  method Pop(heap: seq<SearchNode>) returns (i: nat)
    requires |heap| > 0
    ensures i < |heap| && IsMinF(heap, i)
  {
    MinFExists(heap);
    i :| IsMinF(heap, i);
  }

  /** The rank PathTo walks down: the closing step, or `count` for a node
      not yet closed. */
  ghost function Rank(T: map<NodeId, SearchNode>, V: map<NodeId, NodeView>, order: map<NodeId, nat>, count: nat): map<SearchNode, nat>
  {
    map n | n in T.Values && n.ref in V :: if V[n.ref].closed && n.ref in order then order[n.ref] else count
  }

  lemma RankDecreases(g: Graph, T: map<NodeId, SearchNode>, start: NodeId, order: map<NodeId, nat>, count: nat)
    requires Indexed(g, T) && Parents(g, T, View(T), start, order, count)
    ensures forall n :: n in Rank(T, View(T), order, count) && n.parent != null ==>
      n.parent in Rank(T, View(T), order, count) && Rank(T, View(T), order, count)[n.parent] < Rank(T, View(T), order, count)[n]
  {
    var V := View(T);
    var rank := Rank(T, V, order, count);
    forall n | n in rank && n.parent != null
      ensures n.parent in rank && rank[n.parent] < rank[n]
    {
      var k :| k in T && T[k] == n;
      assert V[k].parent == n.parent;
    }
  }

  /** What PathTo lists from a table node: every listed node is the table
      node of its id, and so is the root. */
  lemma {:induction false} ChainInTable(g: Graph, T: map<NodeId, SearchNode>, start: NodeId, order: map<NodeId, nat>, count: nat,
                     node: SearchNode, path: seq<NodeId>, chain: seq<SearchNode>, root: SearchNode)
    requires Indexed(g, T) && Parents(g, T, View(T), start, order, count)
    requires node.ref in T && T[node.ref] == node
    requires |chain| == |path|
    requires forall j :: 0 <= j < |path| ==> chain[j].ref == path[j] && chain[j].parent != null
    requires path != [] ==> chain[|path| - 1] == node && chain[0].parent == root
    requires forall j :: 0 < j < |path| ==> chain[j].parent == chain[j - 1]
    ensures forall j :: 0 <= j < |path| ==> path[j] in T && chain[j] == T[path[j]]
    ensures path != [] ==> root.ref in T && T[root.ref] == root && root.closed
  {
    var V := View(T);
    if path != [] {
      var j := |path| - 1;
      while j > 0
        invariant 0 <= j < |path|
        invariant forall m :: j <= m < |path| ==> path[m] in T && chain[m] == T[path[m]]
      {
        assert chain[j].parent == chain[j - 1];
        assert V[path[j]].parent != null;
        j := j - 1;
      }
      assert V[path[0]].parent == root;
    }
  }

  /** A non-empty parent chain listed by PathTo from a table node ends at
      the start, and preceded by the start it follows the edges parents
      record. */
  lemma ChainWalk(g: Graph, T: map<NodeId, SearchNode>, start: NodeId, order: map<NodeId, nat>, count: nat,
                  node: SearchNode, path: seq<NodeId>, chain: seq<SearchNode>, root: SearchNode)
    requires Indexed(g, T) && Parents(g, T, View(T), start, order, count)
    requires node.ref in T && T[node.ref] == node
    requires root.parent == null && |chain| == |path| && path != []
    requires forall j :: 0 <= j < |path| ==> chain[j].ref == path[j] && chain[j].parent != null
    requires chain[|path| - 1] == node && chain[0].parent == root
    requires forall j :: 0 < j < |path| ==> chain[j].parent == chain[j - 1]
    ensures IsWalkBetween(g, [start] + path, start, node.ref)
  {
    var V := View(T);
    ChainInTable(g, T, start, order, count, node, path, chain, root);
    var w := [start] + path;
    assert V[root.ref].parent == null;
    assert root.ref == start;
    forall j | 0 <= j < |w| - 1 ensures Edge(g, w[j], w[j + 1]) {
      assert w[j + 1] == path[j];
      if j == 0 {
        assert V[path[0]].parent == root;
      } else {
        assert V[path[j]].parent == chain[j - 1];
      }
    }
  }

  /** When the goal is popped, `[start] + pathTo(goal)` is a walk from the
      start to the goal: the goal is the start or has been visited, and a
      visited node has a parent. */
  lemma FoundIsWalk(g: Graph, T: map<NodeId, SearchNode>, start: NodeId, end: NodeId,
                    order: map<NodeId, nat>, count: nat, node: SearchNode,
                    path: seq<NodeId>, chain: seq<SearchNode>, root: SearchNode)
    requires Indexed(g, T) && Parents(g, T, View(T), start, order, count)
    requires start in T && T[start].parent == null
    requires node.ref == end && end in T && T[end] == node && (end == start || node.visited)
    requires root.parent == null && |chain| == |path|
    requires forall j :: 0 <= j < |path| ==> chain[j].ref == path[j] && chain[j].parent != null
    requires path == [] ==> root == node
    requires path != [] ==> chain[|path| - 1] == node && chain[0].parent == root
    requires forall j :: 0 < j < |path| ==> chain[j].parent == chain[j - 1]
    ensures IsWalkBetween(g, [start] + path, start, end)
    ensures start == end ==> path == []
  {
    var V := View(T);
    if path == [] {
      assert V[end].parent == null;
    } else {
      ChainWalk(g, T, start, order, count, node, path, chain, root);
      assert V[end].parent != null;
    }
  }

  /** When the heap runs dry, the closed ids contain the start and every
      neighbour of a closed id, so the goal, never closed, is unreachable. */
  lemma ExhaustedUnreachable(g: Graph, T: map<NodeId, SearchNode>, V: map<NodeId, NodeView>, start: NodeId, end: NodeId,
                             order: map<NodeId, nat>, count: nat)
    requires Wired(g, T, V, start, end, [], order, count) && ClosedExpanded(g, V, {})
    ensures !Reachable(g, start, end)
  {
    var S := set k | k in V && V[k].closed;
    forall u, v | u in S && Edge(g, u, v) && v in g.Keys ensures v in S {
      assert Expanded(g, V, u);
    }
    if Reachable(g, start, end) {
      ClosedSetContainsReachable(g, start, end, S, g.Keys);
    }
  }

  /** The first `j` neighbours are visited or closed. */
  ghost predicate Covered(adj: seq<NodeId>, j: nat, V: map<NodeId, NodeView>) {
    forall m :: 0 <= m < j && m < |adj| ==> adj[m] in V && (V[adj[m]].visited || V[adj[m]].closed)
  }

  lemma CoveredStep(adj: seq<NodeId>, j: nat, V: map<NodeId, NodeView>, V1: map<NodeId, NodeView>)
    requires Covered(adj, j, V) && Grows(V, V1) && j < |adj|
    requires adj[j] in V1 && (V1[adj[j]].visited || V1[adj[j]].closed)
    ensures Covered(adj, j + 1, V1)
  {
    forall m | 0 <= m < j + 1 && m < |adj| ensures adj[m] in V1 && (V1[adj[m]].visited || V1[adj[m]].closed) {
      if m < j {
        assert adj[m] in V && (V[adj[m]].visited || V[adj[m]].closed);
      }
    }
  }

  /** The `neighbors.forEach` relaxation of the just-closed node `current`
      (astar.tsx:125-153). A neighbour without a search node makes
      `neighborNode.closed` throw. Closed ids are skipped and keep all their
      fields; ids only ever become visited; every neighbour ends up visited
      or closed, so `current` is expanded; each push uses up an untouched id. */
  method Expand(g: Graph, T: map<NodeId, SearchNode>, start: NodeId, end: NodeId, current: SearchNode,
                heap: seq<SearchNode>, ghost order: map<NodeId, nat>, ghost count: nat,
                cost: (NodeId, NodeId) -> real, heuristic: (NodeId, NodeId) -> real)
    returns (heap': seq<SearchNode>, fault: bool)
    requires Wired(g, T, View(T), start, end, heap, order, count) && count > 0
    requires current.ref in T && T[current.ref] == current && current.closed
    requires ClosedExpanded(g, View(T), {current.ref})
    modifies T.Values
    ensures Grows(old(View(T)), View(T))
    ensures |heap'| + |Untouched(View(T))| <= |heap| + |Untouched(old(View(T)))|
    ensures !fault ==> Wired(g, T, View(T), start, end, heap', order, count) && ClosedExpanded(g, View(T), {})
    ensures fault ==> !Closed(g)
  {
    ghost var V0 := View(T);
    var adj := current.neighbors;
    heap', fault := heap, false;
    for j := 0 to |adj|
      invariant Wired(g, T, View(T), start, end, heap', order, count)
      invariant Grows(V0, View(T))
      invariant |heap'| + |Untouched(View(T))| <= |heap| + |Untouched(V0)|
      invariant Covered(adj, j, View(T))
    {
      var neighbor := adj[j];
      if neighbor !in T {
        fault := true;
        return;
      }
      var n := T[neighbor];
      ghost var V := View(T);
      assert V[neighbor].closed == n.closed;
      if n.closed {
        CoveredStep(adj, j, V, V);
        continue;
      }
      var gScore := current.g + cost(current.ref, neighbor);
      ghost var h := heap';
      heap' := Visit(T, current, n, gScore, heuristic(neighbor, end), heap');
      VisitKeeps(g, T, V, View(T), start, end, current, n, gScore, heuristic(neighbor, end), h, heap', order, count);
      GrowsTrans(V0, V, View(T));
      CoveredStep(adj, j, V, View(T));
    }
    GrowsKeepsExpanded(g, V0, View(T), {current.ref});
    assert Covered(adj, |adj|, View(T));
    assert Expanded(g, View(T), current.ref);
  }

  /** One pass of the main loop (astar.tsx:123-154) on the popped node
      `heap[i]`, not the goal: it is closed, as the `count`-th node (the
      closing steps become `order'`), and expanded; the table stays wired and
      the untouched ids plus the heap shrink. */
  method Pass(g: Graph, T: map<NodeId, SearchNode>, start: NodeId, end: NodeId, heap: seq<SearchNode>, i: nat,
              ghost order: map<NodeId, nat>, ghost count: nat, ghost order': map<NodeId, nat>,
              cost: (NodeId, NodeId) -> real, heuristic: (NodeId, NodeId) -> real)
    returns (heap': seq<SearchNode>, fault: bool)
    requires Wired(g, T, View(T), start, end, heap, order, count) && ClosedExpanded(g, View(T), {})
    requires i < |heap| && heap[i].ref != end && order' == order[heap[i].ref := count]
    modifies T.Values
    ensures |heap'| + |Untouched(View(T))| < |heap| + |Untouched(old(View(T)))|
    ensures !fault ==> Wired(g, T, View(T), start, end, heap', order', count + 1) && ClosedExpanded(g, View(T), {})
    ensures fault ==> !Closed(g)
  {
    var current := heap[i];
    ghost var V := View(T);
    Close(T, current);
    CloseKeeps(g, T, V, View(T), start, end, heap, i, order, count, order');
    CloseKeepsExpanded(g, V, View(T), current.ref);
    heap' := heap[..i] + heap[i + 1..];
    heap', fault := Expand(g, T, start, end, current, heap', order', count + 1, cost, heuristic);
  }

  /** `pathTo(currentNode)` once the goal `heap[i]` is popped (astar.tsx:106-107):
      preceded by the start it is a walk from the start to the goal, and it
      is empty when the two coincide. */
  method GoalPath(g: Graph, T: map<NodeId, SearchNode>, start: NodeId, end: NodeId,
                  heap: seq<SearchNode>, i: nat, ghost order: map<NodeId, nat>, ghost count: nat)
    returns (path: seq<NodeId>)
    requires Wired(g, T, View(T), start, end, heap, order, count)
    requires i < |heap| && heap[i].ref == end
    ensures IsWalkBetween(g, [start] + path, start, end)
    ensures start == end ==> path == []
  {
    RankDecreases(g, T, start, order, count);
    ghost var chain, root;
    path, chain, root := PathTo(heap[i], Rank(T, View(T), order, count));
    assert View(T)[end].visited || end == start;
    FoundIsWalk(g, T, start, end, order, count, heap[i], path, chain, root);
  }

  /** Right after the rebuild, with only the start in the heap, the table is wired. */
  lemma InitialWired(g: Graph, T: map<NodeId, SearchNode>, start: NodeId, end: NodeId)
    requires Indexed(g, T) && start in T && end in T
    requires forall k :: k in T ==> !T[k].visited && !T[k].closed && T[k].parent == null
    ensures Wired(g, T, View(T), start, end, [T[start]], map[], 0) && ClosedExpanded(g, View(T), {})
  {
    var V := View(T);
    assert forall k :: k in V ==> !V[k].visited && !V[k].closed && V[k].parent == null;
  }

  /** What one pass of the main loop produced. */
  datatype Turn = Goal(path: seq<NodeId>) | Closes(id: NodeId) | Fails(id: NodeId)

  /** One pass of the main loop (astar.tsx:103-154): a node of least `f` is
      popped; if it is the goal its `pathTo` is returned, and otherwise it is
      closed as the `count`-th node and expanded, or the expansion throws. */
  method Step(g: Graph, T: map<NodeId, SearchNode>, start: NodeId, end: NodeId, heap: seq<SearchNode>,
              ghost order: map<NodeId, nat>, ghost count: nat,
              cost: (NodeId, NodeId) -> real, heuristic: (NodeId, NodeId) -> real)
    returns (turn: Turn, heap': seq<SearchNode>, ghost order': map<NodeId, nat>)
    requires |heap| > 0 && Wired(g, T, View(T), start, end, heap, order, count) && ClosedExpanded(g, View(T), {})
    requires start == end ==> count == 0
    modifies T.Values
    ensures turn.Goal? ==> IsWalkBetween(g, [start] + turn.path, start, end) && Reachable(g, start, end)
    ensures start == end ==> turn == Goal([])
    ensures turn.Fails? ==> !Closed(g)
    ensures turn.Closes? ==> Wired(g, T, View(T), start, end, heap', order', count + 1) && ClosedExpanded(g, View(T), {})
    ensures turn.Closes? ==> |heap'| + |Untouched(View(T))| < |heap| + |Untouched(old(View(T)))|
  {
    var i := Pop(heap);
    var current := heap[i];
    if start == end {
      assert heap == [T[start]] && i == 0;
    }
    if current.ref == end {
      var path := GoalPath(g, T, start, end, heap, i, order, count);
      WalkReaches(g, [start] + path, start, end);
      return Goal(path), heap, order;
    }
    order' := order[current.ref := count];
    var fault;
    heap', fault := Pass(g, T, start, end, heap, i, order, count, order', cost, heuristic);
    turn := if fault then Fails(current.ref) else Closes(current.ref);
  }

  /** The search loop (astar.tsx:98-156) over the rebuilt table `T`: passes
      run until the goal is popped, with its `pathTo`, or the heap runs dry.
      Each popped node other than the goal joins a batch for `cb` (`total` is
      never incremented, so every pass renders). `elapsed` stands for
      `timer.time()`. */
  method Run(g: Graph, T: map<NodeId, SearchNode>, start: NodeId, end: NodeId, cost: (NodeId, NodeId) -> real,
             heuristic: (NodeId, NodeId) -> real, elapsed: real)
    returns (r: Outcome, batches: seq<set<NodeId>>)
    requires start in T && Wired(g, T, View(T), start, end, [T[start]], map[], 0) && ClosedExpanded(g, View(T), {})
    modifies T.Values
    ensures !r.Undefined?
    ensures r.Found? ==> IsWalkBetween(g, [start] + r.path, start, end) && r.time == elapsed
    ensures start == end ==> r == Found([], elapsed)
    ensures r.Exhausted? ==> !Reachable(g, start, end) && r.time == elapsed
    ensures r.Thrown? ==> !Closed(g)
    ensures Closed(g) ==> (r.Found? <==> Reachable(g, start, end))
    ensures Render.Disjoint(batches)
  {
    var heap := [T[start]];
    var rb := Render.Initial();
    ghost var order: map<NodeId, nat> := map[];
    ghost var count: nat := 0;
    while |heap| > 0
      invariant Wired(g, T, View(T), start, end, heap, order, count) && ClosedExpanded(g, View(T), {})
      invariant start == end ==> count == 0
      invariant Render.Sound(rb)
      decreases |Untouched(View(T))| + |heap|
    {
      var turn;
      turn, heap, order := Step(g, T, start, end, heap, order, count, cost, heuristic);
      match turn
      case Goal(path) =>
        return Found(path, elapsed), rb.sent;
      case Fails(id) =>
        rb := Render.Note(rb, id, true);
        return Thrown, rb.sent;
      case Closes(id) =>
        rb := Render.Note(rb, id, true);
        count := count + 1;
    }
    ExhaustedUnreachable(g, T, View(T), start, end, order, count);
    assert start != end by {
      ReachableRefl(g, start);
    }
    return Exhausted(elapsed), rb.sent;
  }

  /** The module-level `graph` dictionary (astar.tsx:53-57). */
  class NodeTable {
    var nodes: map<NodeId, SearchNode>

    constructor ()
      ensures nodes == map[]
    {
      nodes := map[];
    }

    /** The `Object.keys(nodeData).forEach` rebuild (astar.tsx:88-92): every
        node id gets a new search node in its initial state; entries of
        other ids are kept. */
    method Rebuild(g: Graph)
      modifies this
      ensures nodes.Keys == old(nodes.Keys) + g.Keys
      ensures forall k :: k in old(nodes) && k !in g ==> nodes[k] == old(nodes)[k]
      ensures forall k :: k in g ==> fresh(nodes[k]) && nodes[k].ref == k && nodes[k].neighbors == g[k].adj
      ensures forall k :: k in g ==> nodes[k].f == 0.0 && nodes[k].g == 0.0 && nodes[k].h == 0.0
      ensures forall k :: k in g ==> !nodes[k].visited && !nodes[k].closed && nodes[k].parent == null
    {
      var keys := g.Keys;
      while keys != {}
        invariant keys <= g.Keys
        invariant nodes.Keys == old(nodes.Keys) + (g.Keys - keys)
        invariant forall k :: k in old(nodes) && k !in g - keys ==> nodes[k] == old(nodes)[k]
        invariant forall k :: k in g - keys ==> fresh(nodes[k]) && nodes[k].ref == k && nodes[k].neighbors == g[k].adj
        invariant forall k :: k in g - keys ==> nodes[k].f == 0.0 && nodes[k].g == 0.0 && nodes[k].h == 0.0
        invariant forall k :: k in g - keys ==> !nodes[k].visited && !nodes[k].closed && nodes[k].parent == null
        decreases keys
      {
        var key :| key in keys;
        var n := new SearchNode(key, g[key].adj);
        nodes := nodes[key := n];
        keys := keys - {key};
      }
    }

    /** `astar(start, end, delay, cb)` (astar.tsx:76-157): after the
        rebuild, `undefined` unless both ids have nodes, and otherwise the
        search loop over the rebuilt table. */
    method Search(g: Graph, start: NodeId, end: NodeId, cost: (NodeId, NodeId) -> real,
                  heuristic: (NodeId, NodeId) -> real, elapsed: real)
      returns (r: Outcome, batches: seq<set<NodeId>>)
      requires nodes.Keys <= g.Keys
      modifies this
      ensures nodes.Keys == g.Keys
      ensures r.Undefined? <==> start !in g || end !in g
      ensures r.Found? ==> IsWalkBetween(g, [start] + r.path, start, end) && r.time == elapsed
      ensures start == end && start in g ==> r == Found([], elapsed)
      ensures r.Exhausted? ==> !Reachable(g, start, end) && r.time == elapsed
      ensures r.Thrown? ==> !Closed(g)
      ensures start in g && end in g && Closed(g) ==> (r.Found? <==> Reachable(g, start, end))
      ensures Render.Disjoint(batches)
    {
      Rebuild(g);
      if start !in nodes || end !in nodes {
        return Undefined, [];
      }
      InitialWired(g, nodes, start, end);
      r, batches := Run(g, nodes, start, end, cost, heuristic, elapsed);
    }
  }
}
