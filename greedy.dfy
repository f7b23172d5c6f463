/** Greedy best-first search (src/algorithms/greedy.tsx). Every node is
    pushed up front, with the start at key 0 and every other node at
    Infinity, after a sentinel entry `"_"` at key 1; a popped node's
    neighbours are keyed by their straight-line distance to the goal and
    get the popped node as predecessor whenever that key is strictly below
    the one they hold. The heap (TinyQueue) is a sequence of entries; `pop`
    removes an entry of least key, ties broken in no particular order. The
    straight-line distance itself is the parameter `line`. */
module Greedy {
  import opened Graph
  import opened Chains
  import Render

  /** A key: a number, or Infinity. */
  datatype Key = Fin(r: real) | Inf

  /** The test `alt < distances[v]`. */
  predicate Less(alt: real, d: Key) {
    d.Inf? || alt < d.r
  }

  /** The heap's order on keys. */
  predicate AtMost(a: Key, b: Key) {
    b.Inf? || (a.Fin? && a.r <= b.r)
  }

  /** A heap entry `{ key, distance }`. */
  datatype Entry = Entry(id: NodeId, key: Key)

  /** The id of the entry pushed first (greedy.tsx:70). */
  const Sentinel: NodeId := "_"

  /** `queue[i]` is an entry `pop()` may return. */
  predicate IsMin(queue: seq<Entry>, i: nat) {
    i < |queue| && forall j :: 0 <= j < |queue| ==> AtMost(queue[i].key, queue[j].key)
  }

  lemma {:induction false} MinExists(queue: seq<Entry>)
    requires |queue| > 0
    ensures exists i :: IsMin(queue, i)
  {
    if |queue| > 1 {
      MinExists(queue[1..]);
      var i: nat :| IsMin(queue[1..], i);
      if AtMost(queue[0].key, queue[1..][i].key) {
        assert IsMin(queue, 0);
      } else {
        assert IsMin(queue, i + 1);
      }
    } else {
      assert IsMin(queue, 0);
    }
  }

  /** A straight-line distance is never negative. */
  ghost predicate NonNegative(line: (NodeId, NodeId) -> real) {
    forall a, b :: line(a, b) >= 0.0
  }

  /** `getDistance(a, b)` (greedy.tsx:39-52): the straight-line distance
      between two nodes of the data, and -1 when either id is not a node. */
  function GetDistance(g: Graph, line: (NodeId, NodeId) -> real, a: NodeId, b: NodeId): (d: real)
    ensures !(a in g && b in g) ==> d == -1.0
    ensures NonNegative(line) ==> (d >= 0.0 <==> a in g && b in g)
  {
    if a in g && b in g then line(a, b) else -1.0
  }

  /** The key a neighbour `v` is offered: its distance to the goal. It does
      not depend on the node being expanded. */
  function Alt(g: Graph, line: (NodeId, NodeId) -> real, end: NodeId, v: NodeId): real {
    GetDistance(g, line, end, v)
  }

  // ---------------------------------------------------------------------
  // Set-up (greedy.tsx:69-78)

  /** The state before the loop: the start at 0, every other node at
      Infinity with a null predecessor, and the heap holding the sentinel at
      key 1 followed by one entry per node carrying that node's key. */
  ghost predicate Initial(g: Graph, start: NodeId, dist: map<NodeId, Key>, prev: Links, queue: seq<Entry>) {
    && dist.Keys == g.Keys + {start} && dist[start] == Fin(0.0)
    && (forall v :: v in g && v != start ==> dist[v] == Inf)
    && prev.Keys == g.Keys - {start} && (forall v :: v in prev ==> prev[v] == None)
    && |queue| > 0 && queue[0] == Entry(Sentinel, Fin(1.0))
    && (forall i, j :: 1 <= i < j < |queue| ==> queue[i].id != queue[j].id)
    && (forall i :: 1 <= i < |queue| ==> queue[i].id in g && queue[i].key == dist[queue[i].id])
    && (forall v :: v in g ==> Entry(v, dist[v]) in queue[1..])
  }

  method Init(g: Graph, start: NodeId) returns (dist: map<NodeId, Key>, prev: Links, queue: seq<Entry>)
    ensures Initial(g, start, dist, prev, queue)
  {
    var nodes;
    dist, prev, nodes := PushNodes(g, start);
    queue := [Entry(Sentinel, Fin(1.0))] + nodes;
    assert queue[1..] == nodes;
  }

  /** The `Object.keys(nodeData).forEach` loop (greedy.tsx:72-78). */
  method PushNodes(g: Graph, start: NodeId) returns (dist: map<NodeId, Key>, prev: Links, nodes: seq<Entry>)
    ensures dist.Keys == g.Keys + {start}
    ensures forall v :: v in dist ==> dist[v] == if v == start then Fin(0.0) else Inf
    ensures prev.Keys == g.Keys - {start} && forall v :: v in prev ==> prev[v] == None
    ensures forall i, j :: 0 <= i < j < |nodes| ==> nodes[i].id != nodes[j].id
    ensures forall i :: 0 <= i < |nodes| ==> nodes[i].id in g && nodes[i].key == dist[nodes[i].id]
    ensures forall v :: v in g ==> Entry(v, dist[v]) in nodes
  {
    dist := map[start := Fin(0.0)];
    prev := map[];
    nodes := [];
    var keys := g.Keys;
    ghost var done: set<NodeId> := {};
    while keys != {}
      invariant done + keys == g.Keys && done !! keys
      invariant dist.Keys == done + {start}
      invariant forall v :: v in dist ==> dist[v] == if v == start then Fin(0.0) else Inf
      invariant prev.Keys == done - {start} && forall v :: v in prev ==> prev[v] == None
      invariant forall i, j :: 0 <= i < j < |nodes| ==> nodes[i].id != nodes[j].id
      invariant forall i :: 0 <= i < |nodes| ==> nodes[i].id in done && nodes[i].key == dist[nodes[i].id]
      invariant forall v :: v in done ==> Entry(v, dist[v]) in nodes
      decreases keys
    {
      var node :| node in keys;
      if node != start {
        dist := dist[node := Inf];
        prev := prev[node := None];
      }
      PushKeeps(nodes, done, Entry(node, dist[node]));
      nodes := nodes + [Entry(node, dist[node])];
      keys := keys - {node};
      done := done + {node};
    }
  }

  /** Pushing an entry whose id is not yet listed keeps the ids distinct
      and every entry listed. */
  lemma PushKeeps(nodes: seq<Entry>, done: set<NodeId>, e: Entry)
    requires forall i, j :: 0 <= i < j < |nodes| ==> nodes[i].id != nodes[j].id
    requires forall i :: 0 <= i < |nodes| ==> nodes[i].id in done
    requires e.id !in done
    ensures forall i, j :: 0 <= i < j < |nodes + [e]| ==> (nodes + [e])[i].id != (nodes + [e])[j].id
    ensures forall x :: x in nodes ==> x in nodes + [e]
    ensures e in nodes + [e]
  {
  }

  /** The heap's first pop, when the start is a node, is the start's entry:
      key 0 is below the sentinel's 1 and every other node's Infinity. */
  lemma StartPoppedFirst(g: Graph, start: NodeId, dist: map<NodeId, Key>, prev: Links, queue: seq<Entry>, i: nat)
    requires Initial(g, start, dist, prev, queue) && start in g
    requires IsMin(queue, i)
    ensures queue[i] == Entry(start, Fin(0.0))
  {
    var j :| 0 <= j < |queue| - 1 && queue[1..][j] == Entry(start, Fin(0.0));
    assert AtMost(queue[i].key, queue[j + 1].key);
  }

  // ---------------------------------------------------------------------
  // Relaxation (greedy.tsx:113-128)

  /** The ids in u's adjacency list. */
  ghost function Neighbours(g: Graph, u: NodeId): set<NodeId> {
    set v | v in Adj(g, u)
  }

  /** Looking at a neighbour `v` among the ones `S` looked at so far lowers
      its distance. */
  ghost predicate Improves(g: Graph, line: (NodeId, NodeId) -> real, end: NodeId,
                           S: set<NodeId>, dist: map<NodeId, Key>, v: NodeId) {
    v in S && v in dist && Less(Alt(g, line, end, v), dist[v])
  }

  /** What relaxing the neighbours `S` of `u` does: every neighbour whose
      key improves gets that key, predecessor `u`, one more write in the
      ghost count `writes`, and an entry pushed after the existing ones;
      nothing else changes. */
  ghost predicate Relaxed(g: Graph, line: (NodeId, NodeId) -> real, end: NodeId, S: set<NodeId>, u: NodeId,
                          dist: map<NodeId, Key>, prev: Links, writes: map<NodeId, nat>, queue: seq<Entry>,
                          dist': map<NodeId, Key>, prev': Links, writes': map<NodeId, nat>, queue': seq<Entry>)
  {
    && DistRelaxed(g, line, end, S, dist, dist')
    && PrevRelaxed(g, line, end, S, u, dist, prev, prev')
    && WritesRelaxed(g, line, end, S, dist, writes, writes')
    && QueueRelaxed(g, line, end, S, dist, queue, queue')
    && (dist' == dist ==> prev' == prev && writes' == writes && queue' == queue)
  }

  ghost predicate DistRelaxed(g: Graph, line: (NodeId, NodeId) -> real, end: NodeId, S: set<NodeId>,
                              dist: map<NodeId, Key>, dist': map<NodeId, Key>) {
    && dist'.Keys == dist.Keys
    && (forall v :: v in dist ==>
          dist'[v] == if Improves(g, line, end, S, dist, v) then Fin(Alt(g, line, end, v)) else dist[v])
  }

  ghost predicate PrevRelaxed(g: Graph, line: (NodeId, NodeId) -> real, end: NodeId, S: set<NodeId>, u: NodeId,
                              dist: map<NodeId, Key>, prev: Links, prev': Links) {
    && (forall v :: v in prev' <==> v in prev || Improves(g, line, end, S, dist, v))
    && (forall v :: v in prev' ==> prev'[v] == if Improves(g, line, end, S, dist, v) then Some(u) else prev[v])
  }

  ghost predicate WritesRelaxed(g: Graph, line: (NodeId, NodeId) -> real, end: NodeId, S: set<NodeId>,
                                dist: map<NodeId, Key>, writes: map<NodeId, nat>, writes': map<NodeId, nat>) {
    && (forall v :: v in writes' <==> v in writes || Improves(g, line, end, S, dist, v))
    && (forall v :: v in writes' ==>
          writes'[v] == if !Improves(g, line, end, S, dist, v) then writes[v]
                        else if v in writes then writes[v] + 1 else 1)
  }

  ghost predicate QueueRelaxed(g: Graph, line: (NodeId, NodeId) -> real, end: NodeId, S: set<NodeId>,
                               dist: map<NodeId, Key>, queue: seq<Entry>, queue': seq<Entry>) {
    && |queue'| >= |queue| && queue'[..|queue|] == queue
    && (forall i :: |queue| <= i < |queue'| ==>
          queue'[i].key == Fin(Alt(g, line, end, queue'[i].id)) && Improves(g, line, end, S, dist, queue'[i].id))
    && (forall v :: Improves(g, line, end, S, dist, v) ==> Entry(v, Fin(Alt(g, line, end, v))) in queue')
  }

  /** Looking at one more neighbour `n`. */
  lemma RelaxOne(g: Graph, line: (NodeId, NodeId) -> real, end: NodeId, S: set<NodeId>, n: NodeId, u: NodeId,
                 dist: map<NodeId, Key>, prev: Links, writes: map<NodeId, nat>, queue: seq<Entry>,
                 d1: map<NodeId, Key>, p1: Links, w1: map<NodeId, nat>, q1: seq<Entry>,
                 d2: map<NodeId, Key>, p2: Links, w2: map<NodeId, nat>, q2: seq<Entry>)
    requires Relaxed(g, line, end, S, u, dist, prev, writes, queue, d1, p1, w1, q1)
    requires n in d1 && Less(Alt(g, line, end, n), d1[n]) ==>
      && d2 == d1[n := Fin(Alt(g, line, end, n))] && p2 == p1[n := Some(u)]
      && w2 == w1[n := if n in w1 then w1[n] + 1 else 1] && q2 == q1 + [Entry(n, Fin(Alt(g, line, end, n)))]
    requires !(n in d1 && Less(Alt(g, line, end, n), d1[n])) ==> d2 == d1 && p2 == p1 && w2 == w1 && q2 == q1
    ensures Relaxed(g, line, end, S + {n}, u, dist, prev, writes, queue, d2, p2, w2, q2)
  {
    var T := S + {n};
    if n in d1 && Less(Alt(g, line, end, n), d1[n]) {
      assert !Improves(g, line, end, S, dist, n) && Improves(g, line, end, T, dist, n);
      assert d1[n] == dist[n] && d2[n] != dist[n];
      DistWrite(g, line, end, S, n, dist, d1, d2);
      PrevWrite(g, line, end, S, n, u, dist, prev, p1, p2);
      WritesWrite(g, line, end, S, n, dist, writes, w1, w2);
      QueueWrite(g, line, end, S, n, dist, queue, q1, q2);
    } else {
      assert forall v :: Improves(g, line, end, T, dist, v) <==> Improves(g, line, end, S, dist, v);
    }
  }

  lemma DistWrite(g: Graph, line: (NodeId, NodeId) -> real, end: NodeId, S: set<NodeId>, n: NodeId,
                  dist: map<NodeId, Key>, d1: map<NodeId, Key>, d2: map<NodeId, Key>)
    requires DistRelaxed(g, line, end, S, dist, d1)
    requires !Improves(g, line, end, S, dist, n) && Improves(g, line, end, S + {n}, dist, n)
    requires d2 == d1[n := Fin(Alt(g, line, end, n))]
    ensures DistRelaxed(g, line, end, S + {n}, dist, d2)
  {
  }

  lemma PrevWrite(g: Graph, line: (NodeId, NodeId) -> real, end: NodeId, S: set<NodeId>, n: NodeId, u: NodeId,
                  dist: map<NodeId, Key>, prev: Links, p1: Links, p2: Links)
    requires PrevRelaxed(g, line, end, S, u, dist, prev, p1)
    requires !Improves(g, line, end, S, dist, n) && Improves(g, line, end, S + {n}, dist, n)
    requires p2 == p1[n := Some(u)]
    ensures PrevRelaxed(g, line, end, S + {n}, u, dist, prev, p2)
  {
  }

  lemma WritesWrite(g: Graph, line: (NodeId, NodeId) -> real, end: NodeId, S: set<NodeId>, n: NodeId,
                    dist: map<NodeId, Key>, writes: map<NodeId, nat>, w1: map<NodeId, nat>, w2: map<NodeId, nat>)
    requires WritesRelaxed(g, line, end, S, dist, writes, w1)
    requires !Improves(g, line, end, S, dist, n) && Improves(g, line, end, S + {n}, dist, n)
    requires w2 == w1[n := if n in w1 then w1[n] + 1 else 1]
    ensures WritesRelaxed(g, line, end, S + {n}, dist, writes, w2)
  {
  }

  lemma QueueWrite(g: Graph, line: (NodeId, NodeId) -> real, end: NodeId, S: set<NodeId>, n: NodeId,
                   dist: map<NodeId, Key>, queue: seq<Entry>, q1: seq<Entry>, q2: seq<Entry>)
    requires QueueRelaxed(g, line, end, S, dist, queue, q1)
    requires !Improves(g, line, end, S, dist, n) && Improves(g, line, end, S + {n}, dist, n)
    requires q2 == q1 + [Entry(n, Fin(Alt(g, line, end, n)))]
    ensures QueueRelaxed(g, line, end, S + {n}, dist, queue, q2)
  {
    assert q2[..|queue|] == q1[..|queue|];
  }

  /** The `neighbors.forEach` loop (greedy.tsx:118-127). The running
      maximum `maxDist` it also computes is never read and is not modelled. */
  method Relax(g: Graph, line: (NodeId, NodeId) -> real, end: NodeId, u: NodeId,
               dist: map<NodeId, Key>, prev: Links, queue: seq<Entry>, ghost writes: map<NodeId, nat>)
    returns (dist': map<NodeId, Key>, prev': Links, queue': seq<Entry>, ghost writes': map<NodeId, nat>)
    requires u in g
    ensures Relaxed(g, line, end, Neighbours(g, u), u, dist, prev, writes, queue, dist', prev', writes', queue')
  {
    var adj := g[u].adj;
    ghost var seen: set<NodeId> := {};
    dist', prev', queue', writes' := dist, prev, queue, writes;
    for j := 0 to |adj|
      invariant seen == set v | v in adj[..j]
      invariant Relaxed(g, line, end, seen, u, dist, prev, writes, queue, dist', prev', writes', queue')
    {
      assert adj[..j + 1] == adj[..j] + [adj[j]];
      ghost var d1, p1, w1, q1 := dist', prev', writes', queue';
      var neighbor := adj[j];
      var alt := GetDistance(g, line, end, neighbor);
      if neighbor in dist' && Less(alt, dist'[neighbor]) {
        dist' := dist'[neighbor := Fin(alt)];
        prev' := prev'[neighbor := Some(u)];
        queue' := queue' + [Entry(neighbor, Fin(alt))];
        writes' := writes'[neighbor := if neighbor in writes' then writes'[neighbor] + 1 else 1];
      }
      RelaxOne(g, line, end, seen, neighbor, u, dist, prev, writes, queue, d1, p1, w1, q1, dist', prev', writes', queue');
      seen := seen + {neighbor};
    }
    assert adj[..|adj|] == adj;
  }

  // ---------------------------------------------------------------------
  // What every pass keeps

  /** `previous[v]` was written exactly once, and holds an edge into `v`
      from a node; `v` holds the key it was offered. */
  ghost predicate Written(g: Graph, line: (NodeId, NodeId) -> real, end: NodeId,
                          dist: map<NodeId, Key>, prev: Links, writes: map<NodeId, nat>, v: NodeId) {
    && v in writes && writes[v] == 1
    && v in dist && dist[v] == Fin(Alt(g, line, end, v))
    && Linked(prev, v) && Edge(g, prev[v].value, v)
  }

  /** The start and the goal are nodes, no node is called `"_"`, and the
      straight-line distance is never negative. */
  ghost predicate WellPosed(g: Graph, line: (NodeId, NodeId) -> real, start: NodeId, end: NodeId) {
    start in g && end in g && Sentinel !in g && NonNegative(line)
  }

  /** Facts every pass keeps, whatever the input: the dictionaries' keys; an
      id below Infinity other than the start, and an id with a truthy
      predecessor, was written exactly once; the goal, if a node, still has
      an entry; and the start keeps key 0 and is never written when both ends
      are nodes and distances are not negative. */
  ghost predicate Sound(g: Graph, line: (NodeId, NodeId) -> real, start: NodeId, end: NodeId,
                        dist: map<NodeId, Key>, prev: Links, writes: map<NodeId, nat>, queue: seq<Entry>) {
    && dist.Keys == g.Keys + {start}
    && g.Keys - {start} <= prev.Keys <= dist.Keys
    && (forall v :: v in dist && dist[v].Fin? && v != start ==> v in writes)
    && (forall v :: Linked(prev, v) ==> v in writes)
    && (forall v :: v in writes ==> Written(g, line, end, dist, prev, writes, v))
    && (end in g ==> exists j :: 0 <= j < |queue| && queue[j].id == end)
    && (start in g && end in g && NonNegative(line) ==> dist[start] == Fin(0.0) && start !in writes)
  }

  /** `distances[v]` is a number. */
  predicate Finite(dist: map<NodeId, Key>, v: NodeId) {
    v in dist && dist[v].Fin?
  }

  /** While only entries of finite key have been popped, with `order` the
      nodes expanded so far and the pass each was first expanded in: each
      expanded node is the start or has a predecessor; every predecessor was
      expanded, and before its successor; an entry of finite key carries its
      id's key (or is the sentinel); every id of finite key not yet expanded
      has its entry; every node next to an expanded one has a finite key; and
      the goal has not been expanded. */
  ghost predicate Ranked(g: Graph, start: NodeId, end: NodeId,
                         dist: map<NodeId, Key>, prev: Links, queue: seq<Entry>, order: map<NodeId, nat>, count: nat) {
    && RankedLinks(start, prev, order, count)
    && QueueKeys(dist, queue)
    && Pending(dist, queue, order)
    && (forall u, v :: u in order && Edge(g, u, v) && v in g ==> Finite(dist, v))
    && end !in order
  }

  /** Expanded nodes and predecessors: each expanded node is the start or
      linked, and every predecessor was expanded before its successor. */
  ghost predicate RankedLinks(start: NodeId, prev: Links, order: map<NodeId, nat>, count: nat) {
    && (forall v :: v in order ==> order[v] < count && (v == start || Linked(prev, v)))
    && (forall v :: Linked(prev, v) ==>
          prev[v].value in order && (v in order ==> order[prev[v].value] < order[v]))
  }

  /** Each heap entry of finite key carries its id's key, or is the sentinel. */
  ghost predicate QueueKeys(dist: map<NodeId, Key>, queue: seq<Entry>) {
    forall i :: 0 <= i < |queue| && queue[i].key.Fin? ==>
      queue[i].id == Sentinel || (queue[i].id in dist && dist[queue[i].id] == queue[i].key)
  }

  /** Every id of finite key not yet expanded has its entry in the heap. */
  ghost predicate Pending(dist: map<NodeId, Key>, queue: seq<Entry>, order: map<NodeId, nat>) {
    forall v {:trigger Finite(dist, v)} :: Finite(dist, v) && v !in order ==> Entry(v, dist[v]) in queue
  }

  ghost function Unwritten(g: Graph, line: (NodeId, NodeId) -> real, end: NodeId, dist: map<NodeId, Key>): set<NodeId> {
    set v | v in dist && dist[v] != Fin(Alt(g, line, end, v))
  }

  lemma InitialKept(g: Graph, line: (NodeId, NodeId) -> real, start: NodeId, end: NodeId,
                    dist: map<NodeId, Key>, prev: Links, queue: seq<Entry>)
    requires Initial(g, start, dist, prev, queue)
    ensures Sound(g, line, start, end, dist, prev, map[], queue)
    ensures WellPosed(g, line, start, end) ==> Ranked(g, start, end, dist, prev, queue, map[], 0)
  {
    InitialSound(g, line, start, end, dist, prev, queue);
    if WellPosed(g, line, start, end) {
      InitialRanked(g, start, end, dist, prev, queue);
    }
  }

  /** The initial dictionaries and heap: nothing written, the goal's entry
      (if it is a node) in the heap. */
  lemma InitialSound(g: Graph, line: (NodeId, NodeId) -> real, start: NodeId, end: NodeId,
                     dist: map<NodeId, Key>, prev: Links, queue: seq<Entry>)
    requires Initial(g, start, dist, prev, queue)
    ensures Sound(g, line, start, end, dist, prev, map[], queue)
  {
    if end in g {
      var j :| 0 <= j < |queue| - 1 && queue[1..][j] == Entry(end, dist[end]);
      assert queue[j + 1].id == end;
    }
  }

  /** Nothing expanded yet: only the start is finite, and its entry is in the heap. */
  lemma InitialRanked(g: Graph, start: NodeId, end: NodeId, dist: map<NodeId, Key>, prev: Links, queue: seq<Entry>)
    requires Initial(g, start, dist, prev, queue) && start in g
    ensures Ranked(g, start, end, dist, prev, queue, map[], 0)
  {
    var j :| 0 <= j < |queue| - 1 && queue[1..][j] == Entry(start, dist[start]);
    assert queue[j + 1] == Entry(start, dist[start]);
    assert forall v :: Finite(dist, v) ==> v == start;
  }

  /** A key below Infinity is never lowered again: the start's 0 is below
      every offered key, and any other id already holds its offered key. */
  lemma FiniteFixed(g: Graph, line: (NodeId, NodeId) -> real, start: NodeId, end: NodeId,
                    dist: map<NodeId, Key>, prev: Links, writes: map<NodeId, nat>, queue: seq<Entry>, v: NodeId)
    requires WellPosed(g, line, start, end) && Sound(g, line, start, end, dist, prev, writes, queue)
    requires Finite(dist, v)
    ensures !Less(Alt(g, line, end, v), dist[v])
  {
    if v != start {
      assert Written(g, line, end, dist, prev, writes, v);
    }
  }

  /** Relaxing the neighbours `S` of `u` writes only ids never written
      before, once each, with their distance to the goal and an edge from
      `u`; every truthy predecessor and finite key other than the start's
      stays accounted for in `writes`. */
  lemma WrittenKept(g: Graph, line: (NodeId, NodeId) -> real, end: NodeId, S: set<NodeId>, u: NodeId,
                    dist: map<NodeId, Key>, prev: Links, writes: map<NodeId, nat>,
                    dist': map<NodeId, Key>, prev': Links, writes': map<NodeId, nat>)
    requires forall v :: v in writes ==> Written(g, line, end, dist, prev, writes, v)
    requires forall v :: Linked(prev, v) ==> v in writes
    requires forall v :: v in S ==> Edge(g, u, v)
    requires DistRelaxed(g, line, end, S, dist, dist') && PrevRelaxed(g, line, end, S, u, dist, prev, prev')
    requires WritesRelaxed(g, line, end, S, dist, writes, writes')
    ensures forall v :: v in writes' ==> Written(g, line, end, dist', prev', writes', v)
    ensures forall v :: Linked(prev', v) ==> v in writes'
    ensures forall v :: v in dist && dist'[v] != dist[v] ==> v in writes'
  {
    forall v | v in writes ensures !Improves(g, line, end, S, dist, v) {
      assert Written(g, line, end, dist, prev, writes, v);
    }
    forall v | v in writes' ensures Written(g, line, end, dist', prev', writes', v) {
      if !Improves(g, line, end, S, dist, v) {
        assert Written(g, line, end, dist, prev, writes, v);
      }
    }
    forall v | Linked(prev', v) ensures v in writes' {
      if !Improves(g, line, end, S, dist, v) {
        assert Linked(prev, v);
      }
    }
  }

  /** Every pass keeps `Sound`, and either lowers a key or only shrinks the heap. */
  lemma SoundKept(g: Graph, line: (NodeId, NodeId) -> real, start: NodeId, end: NodeId,
                  dist: map<NodeId, Key>, prev: Links, writes: map<NodeId, nat>, queue: seq<Entry>,
                  i: nat, S: set<NodeId>, rest: seq<Entry>,
                  dist': map<NodeId, Key>, prev': Links, writes': map<NodeId, nat>, queue': seq<Entry>)
    requires Sound(g, line, start, end, dist, prev, writes, queue)
    requires i < |queue| && queue[i].id != end && rest == Remove(queue, i)
    requires forall v :: v in S ==> Edge(g, queue[i].id, v)
    requires Relaxed(g, line, end, S, queue[i].id, dist, prev, writes, rest, dist', prev', writes', queue')
    ensures Sound(g, line, start, end, dist', prev', writes', queue')
    ensures Unwritten(g, line, end, dist') < Unwritten(g, line, end, dist) || (dist' == dist && queue' == rest)
  {
    var u := queue[i].id;
    WrittenKept(g, line, end, S, u, dist, prev, writes, dist', prev', writes');
    if end in g {
      GoalEntryKept(end, queue, i, rest, queue');
    }
    UnwrittenShrinks(g, line, end, S, dist, dist');
  }

  /** The goal keeps an entry when another entry is popped and more are pushed. */
  lemma GoalEntryKept(end: NodeId, queue: seq<Entry>, i: nat, rest: seq<Entry>, queue': seq<Entry>)
    requires exists j :: 0 <= j < |queue| && queue[j].id == end
    requires i < |queue| && queue[i].id != end && rest == Remove(queue, i)
    requires |queue'| >= |rest| && queue'[..|rest|] == rest
    ensures exists k :: 0 <= k < |queue'| && queue'[k].id == end
  {
    var j :| 0 <= j < |queue| && queue[j].id == end;
    assert queue[j] in rest;
    var k :| 0 <= k < |rest| && rest[k] == queue[j];
    assert queue'[k] == rest[k];
  }

  /** A relaxation that changes a key sets it to the id's distance to the
      goal, so fewer ids are left whose key is not that distance. */
  lemma UnwrittenShrinks(g: Graph, line: (NodeId, NodeId) -> real, end: NodeId, S: set<NodeId>,
                         dist: map<NodeId, Key>, dist': map<NodeId, Key>)
    requires DistRelaxed(g, line, end, S, dist, dist')
    ensures Unwritten(g, line, end, dist') < Unwritten(g, line, end, dist) || dist' == dist
  {
    if dist' != dist {
      var v :| v in dist && dist'[v] != dist[v];
      assert v in Unwritten(g, line, end, dist) && v !in Unwritten(g, line, end, dist');
    }
  }

  /** A pop of key Infinity while `Ranked` holds: every id of finite key was
      expanded, so the expanded nodes contain the start and are closed under
      edges, and the goal, never expanded, is unreachable. */
  lemma InfiniteUnreachable(g: Graph, line: (NodeId, NodeId) -> real, start: NodeId, end: NodeId,
                            dist: map<NodeId, Key>, prev: Links, writes: map<NodeId, nat>, queue: seq<Entry>,
                            order: map<NodeId, nat>, count: nat, i: nat)
    requires WellPosed(g, line, start, end) && Sound(g, line, start, end, dist, prev, writes, queue)
    requires Ranked(g, start, end, dist, prev, queue, order, count)
    requires IsMin(queue, i) && queue[i].key.Inf?
    ensures !Reachable(g, start, end)
  {
    forall j | 0 <= j < |queue| ensures queue[j].key.Inf? {
      assert AtMost(queue[i].key, queue[j].key);
    }
    assert forall v :: Finite(dist, v) ==> v in order;
    assert Finite(dist, start);
    forall u, v | u in order.Keys && Edge(g, u, v) && v in dist.Keys ensures v in order.Keys {
      assert Finite(dist, v);
    }
    if Reachable(g, start, end) {
      ClosedSetContainsReachable(g, start, end, order.Keys, dist.Keys);
    }
  }

  /** A pass that changes nothing but the heap — an expanded node popped
      again, or the sentinel — keeps `Ranked`. */
  lemma QuietKept(g: Graph, line: (NodeId, NodeId) -> real, start: NodeId, end: NodeId,
                  dist: map<NodeId, Key>, prev: Links, writes: map<NodeId, nat>, queue: seq<Entry>,
                  order: map<NodeId, nat>, count: nat, i: nat)
    requires Ranked(g, start, end, dist, prev, queue, order, count)
    requires i < |queue| && (queue[i].id in order || queue[i].id !in dist)
    ensures Ranked(g, start, end, dist, prev, Remove(queue, i), order, count)
  {
    var rest := Remove(queue, i);
    forall j | 0 <= j < |rest| ensures rest[j] in queue {
    }
    forall v | Finite(dist, v) && v !in order ensures Entry(v, dist[v]) in rest {
      assert Entry(v, dist[v]) in queue;
    }
  }

  /** An expanded node popped again relaxes nothing: its neighbours all
      hold keys that cannot be lowered. */
  lemma StaleUnchanged(g: Graph, line: (NodeId, NodeId) -> real, start: NodeId, end: NodeId,
                       dist: map<NodeId, Key>, prev: Links, writes: map<NodeId, nat>, queue: seq<Entry>,
                       order: map<NodeId, nat>, count: nat, u: NodeId, rest: seq<Entry>,
                       dist': map<NodeId, Key>, prev': Links, writes': map<NodeId, nat>, queue': seq<Entry>)
    requires WellPosed(g, line, start, end) && Sound(g, line, start, end, dist, prev, writes, queue)
    requires Ranked(g, start, end, dist, prev, queue, order, count) && u in order && u in g
    requires Relaxed(g, line, end, Neighbours(g, u), u, dist, prev, writes, rest, dist', prev', writes', queue')
    ensures dist' == dist && prev' == prev && queue' == rest
  {
    forall v | Improves(g, line, end, Neighbours(g, u), dist, v) ensures false {
      assert Edge(g, u, v);
      assert Finite(dist, v);
      FiniteFixed(g, line, start, end, dist, prev, writes, queue, v);
    }
    assert dist' == dist by {
      assert forall v :: v in dist ==> dist'[v] == dist[v];
    }
  }

  ghost predicate Fresh(g: Graph, line: (NodeId, NodeId) -> real, start: NodeId, end: NodeId,
                        dist: map<NodeId, Key>, prev: Links, writes: map<NodeId, nat>, queue: seq<Entry>,
                        order: map<NodeId, nat>, count: nat, i: nat,
                        dist': map<NodeId, Key>, prev': Links, writes': map<NodeId, nat>, queue': seq<Entry>)
  {
    && WellPosed(g, line, start, end) && Sound(g, line, start, end, dist, prev, writes, queue)
    && Ranked(g, start, end, dist, prev, queue, order, count)
    && i < |queue| && queue[i].id in g && queue[i].id !in order && queue[i].id != end
    && queue[i].id in dist && dist[queue[i].id] == queue[i].key && queue[i].key.Fin?
    && Relaxed(g, line, end, Neighbours(g, queue[i].id), queue[i].id, dist, prev, writes, Remove(queue, i),
               dist', prev', writes', queue')
  }

  /** What a first expansion changes: only ids at Infinity, none of them
      expanded nor the popped node, and every neighbour ends finite. */
  lemma FreshFacts(g: Graph, line: (NodeId, NodeId) -> real, start: NodeId, end: NodeId,
                   dist: map<NodeId, Key>, prev: Links, writes: map<NodeId, nat>, queue: seq<Entry>,
                   order: map<NodeId, nat>, count: nat, i: nat,
                   dist': map<NodeId, Key>, prev': Links, writes': map<NodeId, nat>, queue': seq<Entry>)
    requires Fresh(g, line, start, end, dist, prev, writes, queue, order, count, i, dist', prev', writes', queue')
    ensures forall v :: Improves(g, line, end, Neighbours(g, queue[i].id), dist, v) ==>
      dist[v].Inf? && v !in order && v != queue[i].id
    ensures forall v :: Finite(dist, v) ==> dist'[v] == dist[v] && (Linked(prev, v) ==> prev'[v] == prev[v])
    ensures forall v :: v in Neighbours(g, queue[i].id) && v in g ==> Finite(dist', v)
  {
    var u := queue[i].id;
    forall v | Finite(dist, v) ensures !Improves(g, line, end, Neighbours(g, u), dist, v) {
      FiniteFixed(g, line, start, end, dist, prev, writes, queue, v);
    }
    forall v | v in order ensures Finite(dist, v) {
      if v != start {
        assert Written(g, line, end, dist, prev, writes, v);
      }
    }
  }

  /** A node of finite key popped for the first time keeps `Ranked` once
      it is recorded as expanded in this pass. */
  lemma FreshKept(g: Graph, line: (NodeId, NodeId) -> real, start: NodeId, end: NodeId,
                  dist: map<NodeId, Key>, prev: Links, writes: map<NodeId, nat>, queue: seq<Entry>,
                  order: map<NodeId, nat>, count: nat, i: nat, order': map<NodeId, nat>,
                  dist': map<NodeId, Key>, prev': Links, writes': map<NodeId, nat>, queue': seq<Entry>)
    requires Fresh(g, line, start, end, dist, prev, writes, queue, order, count, i, dist', prev', writes', queue')
    requires order' == order[queue[i].id := count]
    ensures Ranked(g, start, end, dist', prev', queue', order', count + 1)
  {
    var u := queue[i].id;
    FreshFacts(g, line, start, end, dist, prev, writes, queue, order, count, i, dist', prev', writes', queue');
    assert u == start || Linked(prev, u) by {
      if u != start {
        assert Written(g, line, end, dist, prev, writes, u);
      }
    }
    FreshKeptLinks(g, line, start, end, Neighbours(g, u), u, dist, prev, prev', order, count, order');
    FreshKeptQueue(g, line, start, end, dist, prev, writes, queue, order, count, i, order', dist', prev', writes', queue');
    FreshKeptClosure(g, line, start, end, dist, prev, writes, queue, order, count, i, order', dist', prev', writes', queue');
  }

  /** Expanding `u`, the start or a linked id, links only ids neither
      expanded nor `u` itself, to `u`: the link order is kept with `u`
      ranked last. */
  lemma FreshKeptLinks(g: Graph, line: (NodeId, NodeId) -> real, start: NodeId, end: NodeId, S: set<NodeId>, u: NodeId,
                       dist: map<NodeId, Key>, prev: Links, prev': Links,
                       order: map<NodeId, nat>, count: nat, order': map<NodeId, nat>)
    requires RankedLinks(start, prev, order, count)
    requires u == start || Linked(prev, u)
    requires u !in order && order' == order[u := count]
    requires PrevRelaxed(g, line, end, S, u, dist, prev, prev')
    requires forall v :: Improves(g, line, end, S, dist, v) ==> v !in order && v != u
    ensures RankedLinks(start, prev', order', count + 1)
  {
    forall v | v in order' ensures order'[v] < count + 1 && (v == start || Linked(prev', v)) {
      if v != start {
        assert Linked(prev, v);
        assert !Improves(g, line, end, S, dist, v);
      }
    }
    forall v | Linked(prev', v) ensures prev'[v].value in order' && (v in order' ==> order'[prev'[v].value] < order'[v]) {
      if !Improves(g, line, end, S, dist, v) {
        assert Linked(prev, v);
      }
    }
  }

  lemma FreshKeptQueue(g: Graph, line: (NodeId, NodeId) -> real, start: NodeId, end: NodeId,
                  dist: map<NodeId, Key>, prev: Links, writes: map<NodeId, nat>, queue: seq<Entry>,
                  order: map<NodeId, nat>, count: nat, i: nat, order': map<NodeId, nat>,
                  dist': map<NodeId, Key>, prev': Links, writes': map<NodeId, nat>, queue': seq<Entry>)
    requires Fresh(g, line, start, end, dist, prev, writes, queue, order, count, i, dist', prev', writes', queue')
    requires order' == order[queue[i].id := count]
    ensures QueueKeys(dist', queue') && Pending(dist', queue', order')
  {
    var u := queue[i].id;
    var S := Neighbours(g, u);
    var rest := Remove(queue, i);
    FreshFacts(g, line, start, end, dist, prev, writes, queue, order, count, i, dist', prev', writes', queue');
    forall j | 0 <= j < |queue'| && queue'[j].key.Fin?
      ensures queue'[j].id == Sentinel || (queue'[j].id in dist' && dist'[queue'[j].id] == queue'[j].key)
    {
      if j < |rest| {
        assert queue'[j] == rest[j] && rest[j] in queue;
      }
    }
    forall v | Finite(dist', v) && v !in order' ensures Entry(v, dist'[v]) in queue' {
      if !Improves(g, line, end, S, dist, v) {
        assert Finite(dist, v);
        assert Entry(v, dist[v]) in rest;
        assert queue'[..|rest|] == rest;
      }
    }
  }

  lemma FreshKeptClosure(g: Graph, line: (NodeId, NodeId) -> real, start: NodeId, end: NodeId,
                  dist: map<NodeId, Key>, prev: Links, writes: map<NodeId, nat>, queue: seq<Entry>,
                  order: map<NodeId, nat>, count: nat, i: nat, order': map<NodeId, nat>,
                  dist': map<NodeId, Key>, prev': Links, writes': map<NodeId, nat>, queue': seq<Entry>)
    requires Fresh(g, line, start, end, dist, prev, writes, queue, order, count, i, dist', prev', writes', queue')
    requires order' == order[queue[i].id := count]
    ensures forall w, v :: w in order' && Edge(g, w, v) && v in g ==> Finite(dist', v)
    ensures end !in order'
  {
    var u := queue[i].id;
    var S := Neighbours(g, u);
    FreshFacts(g, line, start, end, dist, prev, writes, queue, order, count, i, dist', prev', writes', queue');
    forall w, v | w in order' && Edge(g, w, v) && v in g ensures Finite(dist', v) {
      if w == u {
        assert v in S;
      } else {
        assert Finite(dist, v);
      }
    }
  }

  // ---------------------------------------------------------------------
  // The goal (greedy.tsx:101-110, 131)

  /** When the goal is popped with a finite key while `Ranked` holds, it
      is the start or has a predecessor, and every predecessor was expanded. */
  lemma GoalLinked(g: Graph, line: (NodeId, NodeId) -> real, start: NodeId, end: NodeId,
                   dist: map<NodeId, Key>, prev: Links, writes: map<NodeId, nat>, queue: seq<Entry>,
                   order: map<NodeId, nat>, count: nat, i: nat)
    requires WellPosed(g, line, start, end) && Sound(g, line, start, end, dist, prev, writes, queue)
    requires Ranked(g, start, end, dist, prev, queue, order, count)
    requires i < |queue| && queue[i].id == end && queue[i].key.Fin?
    ensures end == start || Linked(prev, end)
    ensures LinksAreEdges(g, prev)
  {
    if end != start {
      assert Written(g, line, end, dist, prev, writes, end);
    }
    forall v | Linked(prev, v) ensures Edge(g, prev[v].value, v) {
      assert Written(g, line, end, dist, prev, writes, v);
    }
  }

  /** ... and then its predecessors lead back to the start: the walk ends,
      and the chain it pushes, reversed after the start, is a walk from the
      start to the goal. */
  lemma ChainToStart(g: Graph, line: (NodeId, NodeId) -> real, start: NodeId, end: NodeId,
                     dist: map<NodeId, Key>, prev: Links, writes: map<NodeId, nat>, queue: seq<Entry>,
                     order: map<NodeId, nat>, count: nat, i: nat)
    requires WellPosed(g, line, start, end) && Sound(g, line, start, end, dist, prev, writes, queue)
    requires Ranked(g, start, end, dist, prev, queue, order, count)
    requires i < |queue| && queue[i].id == end && queue[i].key.Fin?
    ensures !Diverges(prev, end)
    ensures forall chain :: IsChain(prev, end, chain) ==> IsWalkBetween(g, [start] + Reverse(chain), start, end)
  {
    GoalLinked(g, line, start, end, dist, prev, writes, queue, order, count, i);
    RankedGoal(start, end, prev, order, count);
    forall chain | IsChain(prev, end, chain) ensures IsWalkBetween(g, [start] + Reverse(chain), start, end) {
      ChainIsWalk(g, prev, end, chain);
      if chain != [] {
        assert Linked(prev, chain[|chain| - 1]);
      }
    }
  }

  /** Ranking the goal after every expanded node, each truthy predecessor
      has a lower rank: the walk from the goal ends. */
  lemma RankedGoal(start: NodeId, end: NodeId, prev: Links, order: map<NodeId, nat>, count: nat)
    requires forall v :: v in order ==> order[v] < count
    requires forall v :: Linked(prev, v) ==>
      prev[v].value in order && (v in order ==> order[prev[v].value] < order[v])
    requires end !in order
    ensures !Diverges(prev, end)
  {
    var rank := map v | v in order.Keys + {end} :: if v == end then count else order[v];
    RankedEnds(prev, end, rank);
  }

  /** How the search ends: the path (start first) and the timer's value,
      or, when the predecessor walk never stops, no result at all. */
  datatype Outcome = Returned(path: seq<NodeId>, time: real) | Hangs

  /** The walk back from the popped goal (greedy.tsx:101-110, 131). The
      result starts with the start; what follows it is a walk ending at the
      goal; it is `[start]` alone when the goal has no predecessor; and it is
      a walk from the start when the goal was reached the right way. */
  method Finish(g: Graph, line: (NodeId, NodeId) -> real, start: NodeId, end: NodeId, prev: Links, elapsed: real,
                ghost dist: map<NodeId, Key>, ghost writes: map<NodeId, nat>, ghost queue: seq<Entry>, ghost i: nat,
                ghost tidy: bool, ghost order: map<NodeId, nat>, ghost count: nat)
    returns (r: Outcome)
    requires Sound(g, line, start, end, dist, prev, writes, queue)
    requires IsMin(queue, i) && queue[i].id == end
    requires tidy ==> WellPosed(g, line, start, end) && Ranked(g, start, end, dist, prev, queue, order, count)
    requires WellPosed(g, line, start, end) && !tidy ==> !Reachable(g, start, end)
    ensures r.Returned? ==> r.time == elapsed && |r.path| > 0 && r.path[0] == start
    ensures r.Returned? && |r.path| > 1 ==> IsWalk(g, r.path[1..]) && r.path[|r.path| - 1] == end
    ensures !Linked(prev, end) ==> r == Returned([start], elapsed)
    ensures r.Hangs? <==> Diverges(prev, end)
    ensures WellPosed(g, line, start, end) && Reachable(g, start, end) ==>
      r.Returned? && IsWalkBetween(g, r.path, start, end)
  {
    GoalFacts(g, line, start, end, dist, prev, writes, queue, i, tidy, order, count);
    r := WalkOut(g, start, end, prev, elapsed, WellPosed(g, line, start, end) && Reachable(g, start, end));
  }

  /** What the invariants say once the goal is popped: every link is an
      edge, and when the goal is reachable in a well-posed instance the walk
      back stops, on a walk from the start. */
  lemma GoalFacts(g: Graph, line: (NodeId, NodeId) -> real, start: NodeId, end: NodeId,
                  dist: map<NodeId, Key>, prev: Links, writes: map<NodeId, nat>, queue: seq<Entry>, i: nat,
                  tidy: bool, order: map<NodeId, nat>, count: nat)
    requires Sound(g, line, start, end, dist, prev, writes, queue)
    requires IsMin(queue, i) && queue[i].id == end
    requires tidy ==> WellPosed(g, line, start, end) && Ranked(g, start, end, dist, prev, queue, order, count)
    requires WellPosed(g, line, start, end) && !tidy ==> !Reachable(g, start, end)
    ensures LinksAreEdges(g, prev)
    ensures WellPosed(g, line, start, end) && Reachable(g, start, end) ==>
      && !Diverges(prev, end)
      && forall chain :: IsChain(prev, end, chain) ==> IsWalkBetween(g, [start] + Reverse(chain), start, end)
  {
    if tidy && queue[i].key.Inf? {
      InfiniteUnreachable(g, line, start, end, dist, prev, writes, queue, order, count, i);
    }
    if tidy && queue[i].key.Fin? {
      ChainToStart(g, line, start, end, dist, prev, writes, queue, order, count, i);
    }
    forall v | Linked(prev, v) ensures Edge(g, prev[v].value, v) {
      assert Written(g, line, end, dist, prev, writes, v);
    }
  }

  /** The walk back itself (greedy.tsx:101-110): on links that are edges,
      the start followed by the reversed chain, or no result when the walk
      never stops. When `reached` promises that it stops on a walk from the
      start, the result is that walk. */
  method WalkOut(g: Graph, start: NodeId, end: NodeId, prev: Links, elapsed: real, ghost reached: bool)
    returns (r: Outcome)
    requires LinksAreEdges(g, prev)
    requires reached ==>
      && !Diverges(prev, end)
      && forall chain :: IsChain(prev, end, chain) ==> IsWalkBetween(g, [start] + Reverse(chain), start, end)
    ensures r.Returned? ==> r.time == elapsed && |r.path| > 0 && r.path[0] == start
    ensures r.Returned? && |r.path| > 1 ==> IsWalk(g, r.path[1..]) && r.path[|r.path| - 1] == end
    ensures !Linked(prev, end) ==> r == Returned([start], elapsed)
    ensures r.Hangs? <==> Diverges(prev, end)
    ensures reached ==> r.Returned? && IsWalkBetween(g, r.path, start, end)
  {
    var w := WalkBack(prev, end);
    if w.None? {
      assert Step(prev, end, 0).Some? && Linked(prev, Step(prev, end, 0).value);
      return Hangs;
    }
    var chain := w.value;
    assert Reverse(chain + [start]) == [start] + Reverse(chain);
    r := Returned(Reverse(chain + [start]), elapsed);
    if chain != [] {
      ChainIsWalk(g, prev, end, chain);
      var t := Stop(prev, end, chain);
      WalkSuffix(g, [t] + Reverse(chain), 1);
      assert ([t] + Reverse(chain))[1..] == r.path[1..];
    }
  }

  // ---------------------------------------------------------------------
  // The main loop (greedy.tsx:82-129)

  /** A pass over an entry other than the goal's: its neighbours are
      relaxed if it is a node. `Sound` is kept; while `tidy` (only finite
      keys popped so far, and the instance well posed) `Ranked` is kept too,
      and once a key of Infinity is popped the goal is known unreachable. */
  method Expand(g: Graph, line: (NodeId, NodeId) -> real, start: NodeId, end: NodeId,
                dist: map<NodeId, Key>, prev: Links, smallest: NodeId, rest: seq<Entry>,
                ghost writes: map<NodeId, nat>, ghost queue: seq<Entry>, ghost i: nat,
                ghost tidy: bool, ghost order: map<NodeId, nat>, ghost count: nat)
    returns (dist': map<NodeId, Key>, prev': Links, queue': seq<Entry>, ghost writes': map<NodeId, nat>,
             ghost tidy': bool, ghost order': map<NodeId, nat>, ghost count': nat)
    requires Sound(g, line, start, end, dist, prev, writes, queue)
    requires IsMin(queue, i) && smallest == queue[i].id && rest == Remove(queue, i) && smallest != end
    requires tidy ==> WellPosed(g, line, start, end) && Ranked(g, start, end, dist, prev, queue, order, count)
    requires WellPosed(g, line, start, end) && !tidy ==> !Reachable(g, start, end)
    ensures Sound(g, line, start, end, dist', prev', writes', queue')
    ensures tidy' ==> WellPosed(g, line, start, end) && Ranked(g, start, end, dist', prev', queue', order', count')
    ensures WellPosed(g, line, start, end) && !tidy' ==> !Reachable(g, start, end)
    ensures Unwritten(g, line, end, dist') < Unwritten(g, line, end, dist) || (dist' == dist && queue' == rest)
  {
    ghost var S: set<NodeId> := {};
    if smallest in g {
      dist', prev', queue', writes' := Relax(g, line, end, smallest, dist, prev, rest, writes);
      S := Neighbours(g, smallest);
    } else {
      dist', prev', queue', writes' := dist, prev, rest, writes;
    }
    SoundKept(g, line, start, end, dist, prev, writes, queue, i, S, rest, dist', prev', writes', queue');
    tidy', order', count' := tidy, order, count;
    if tidy {
      if queue[i].key.Inf? {
        InfiniteUnreachable(g, line, start, end, dist, prev, writes, queue, order, count, i);
        tidy' := false;
      } else if smallest in order || smallest !in dist {
        if smallest in g {
          StaleUnchanged(g, line, start, end, dist, prev, writes, queue, order, count, smallest, rest,
                         dist', prev', writes', queue');
        }
        QuietKept(g, line, start, end, dist, prev, writes, queue, order, count, i);
      } else {
        order' := order[smallest := count];
        count' := count + 1;
        FreshKept(g, line, start, end, dist, prev, writes, queue, order, count, i, order', dist', prev', writes', queue');
      }
    }
  }

  /** Each `previous[v]` written at most once, and `previous[start]` never
      when both ends are nodes and distances are not negative. */
  ghost predicate Counted(g: Graph, line: (NodeId, NodeId) -> real, start: NodeId, end: NodeId, writes: map<NodeId, nat>) {
    && (forall v :: v in writes ==> writes[v] == 1)
    && (start in g && end in g && NonNegative(line) ==> start !in writes)
  }

  lemma SoundCounted(g: Graph, line: (NodeId, NodeId) -> real, start: NodeId, end: NodeId,
                     dist: map<NodeId, Key>, prev: Links, writes: map<NodeId, nat>, queue: seq<Entry>)
    requires Sound(g, line, start, end, dist, prev, writes, queue)
    ensures Counted(g, line, start, end, writes)
    ensures end in g ==> |queue| > 0
  {
    forall v | v in writes ensures writes[v] == 1 {
      assert Written(g, line, end, dist, prev, writes, v);
    }
  }

  /** What holds at the head of the loop: `Sound`; `Ranked` while `tidy`;
      the goal known unreachable once not `tidy` on a well-posed instance;
      and, before the first pass, the set-up state. */
  ghost predicate Looping(g: Graph, line: (NodeId, NodeId) -> real, start: NodeId, end: NodeId,
                          dist: map<NodeId, Key>, prev: Links, writes: map<NodeId, nat>, queue: seq<Entry>,
                          tidy: bool, order: map<NodeId, nat>, count: nat, first: bool) {
    && Sound(g, line, start, end, dist, prev, writes, queue)
    && (tidy ==> WellPosed(g, line, start, end) && Ranked(g, start, end, dist, prev, queue, order, count))
    && (WellPosed(g, line, start, end) && !tidy ==> !Reachable(g, start, end))
    && (first ==> Initial(g, start, dist, prev, queue))
  }

  /** The pass that pops the goal (greedy.tsx:101-111): the pending batch
      is sent and the walk back gives the result. */
  method Arrive(g: Graph, line: (NodeId, NodeId) -> real, start: NodeId, end: NodeId, elapsed: real,
                prev: Links, b: Render.Batches,
                ghost dist: map<NodeId, Key>, ghost writes: map<NodeId, nat>, ghost queue: seq<Entry>, ghost i: nat,
                ghost tidy: bool, ghost order: map<NodeId, nat>, ghost count: nat, ghost first: bool)
    returns (r: Outcome, batches: seq<set<NodeId>>)
    requires Render.Sound(b) && IsMin(queue, i) && queue[i].id == end
    requires Looping(g, line, start, end, dist, prev, writes, queue, tidy, order, count, first)
    requires start in g && start == end ==> first
    ensures r.Returned? ==> r.time == elapsed && |r.path| > 0 && r.path[0] == start
    ensures r.Returned? && |r.path| > 1 ==> IsWalk(g, r.path[1..]) && r.path[|r.path| - 1] == end
    ensures start in g && start == end ==> r == Returned([start], elapsed)
    ensures WellPosed(g, line, start, end) && Reachable(g, start, end) ==>
      r.Returned? && IsWalkBetween(g, r.path, start, end)
    ensures Render.Disjoint(batches) && Counted(g, line, start, end, writes)
    ensures |batches| > 0
  {
    SoundCounted(g, line, start, end, dist, prev, writes, queue);
    batches := Render.Final(b);
    r := Finish(g, line, start, end, prev, elapsed, dist, writes, queue, i, tidy, order, count);
  }

  /** One pass of the loop (greedy.tsx:83-128): an entry of least key is
      popped and noted for rendering (`total % 2 == 0`); on the goal the walk
      back gives the result and the pending batch is sent, otherwise the entry
      is expanded. A pass that does not stop lowers a key or shrinks the heap. */
  method Pass(g: Graph, line: (NodeId, NodeId) -> real, start: NodeId, end: NodeId, elapsed: real,
              dist: map<NodeId, Key>, prev: Links, queue: seq<Entry>, b: Render.Batches, total: int,
              ghost writes: map<NodeId, nat>, ghost tidy: bool, ghost order: map<NodeId, nat>, ghost count: nat,
              ghost first: bool)
    returns (done: bool, r: Outcome, batches: seq<set<NodeId>>,
             dist': map<NodeId, Key>, prev': Links, queue': seq<Entry>, b': Render.Batches, total': int,
             ghost writes': map<NodeId, nat>, ghost tidy': bool, ghost order': map<NodeId, nat>, ghost count': nat)
    requires |queue| > 0 && Render.Sound(b)
    requires Looping(g, line, start, end, dist, prev, writes, queue, tidy, order, count, first)
    requires start in g && start == end ==> first
    ensures done ==> r.Returned? ==> r.time == elapsed && |r.path| > 0 && r.path[0] == start
    ensures done ==> r.Returned? && |r.path| > 1 ==> IsWalk(g, r.path[1..]) && r.path[|r.path| - 1] == end
    ensures done && start in g && start == end ==> r == Returned([start], elapsed)
    ensures done && WellPosed(g, line, start, end) && Reachable(g, start, end) ==>
      r.Returned? && IsWalkBetween(g, r.path, start, end)
    ensures done ==> Render.Disjoint(batches) && Counted(g, line, start, end, writes') && |batches| > 0
    ensures !done ==> Looping(g, line, start, end, dist', prev', writes', queue', tidy', order', count', false)
    ensures !done ==> Render.Sound(b') && !(start in g && start == end)
    ensures !done ==> (Unwritten(g, line, end, dist') < Unwritten(g, line, end, dist) ||
                       (dist' == dist && |queue'| < |queue|))
  {
    SoundCounted(g, line, start, end, dist, prev, writes, queue);
    MinExists(queue);
    var i: nat :| IsMin(queue, i);
    var smallest := queue[i].id;
    if first && start in g {
      StartPoppedFirst(g, start, dist, prev, queue, i);
    }
    var rest := Remove(queue, i);
    total' := total + 1;
    b' := Render.Note(b, smallest, total' % 2 == 0);
    if smallest == end {
      done := true;
      r, batches := Arrive(g, line, start, end, elapsed, prev, b', dist, writes, queue, i, tidy, order, count, first);
      dist', prev', queue', writes', tidy', order', count' := dist, prev, rest, writes, tidy, order, count;
      return;
    }
    done, r, batches := false, Hangs, [];
    dist', prev', queue', writes', tidy', order', count' :=
      Expand(g, line, start, end, dist, prev, smallest, rest, writes, queue, i, tidy, order, count);
  }

  /** The whole search (greedy.tsx:26-132). The ghost results are
      instrumentation with no counterpart in the code: `reached`, whether
      the loop left by the `break` at the goal, and `writes`, how often each
      `previous[v]` was written.

      - A result always starts with the start, its time is the timer's.
      - Every node is pushed up front, so a goal that is a node is always
        popped, and the pending batch is then sent however empty it is, so
        at least one batch goes out; when the goal is not popped the result
        is `[start]`.
      - After the start comes a walk that ends at the goal; when the start
        and the goal are nodes, no node is called `"_"`, distances are not
        negative and the goal is reachable, the whole result is a walk from
        the start to the goal.
      - Each `previous[v]` is written at most once, and `previous[start]`
        never when both ends are nodes and distances are not negative.
      - No id is in two of the progress batches. */
  method Search(g: Graph, start: NodeId, end: NodeId, line: (NodeId, NodeId) -> real, elapsed: real)
    returns (r: Outcome, batches: seq<set<NodeId>>, ghost reached: bool, ghost writes: map<NodeId, nat>)
    ensures r.Returned? ==> r.time == elapsed && |r.path| > 0 && r.path[0] == start
    ensures end in g ==> reached
    ensures end in g ==> |batches| > 0
    ensures !reached ==> r == Returned([start], elapsed)
    ensures r.Returned? && |r.path| > 1 ==> IsWalk(g, r.path[1..]) && r.path[|r.path| - 1] == end
    ensures start in g && start == end ==> r == Returned([start], elapsed)
    ensures WellPosed(g, line, start, end) && Reachable(g, start, end) ==>
      r.Returned? && IsWalkBetween(g, r.path, start, end)
    ensures forall v :: v in writes ==> writes[v] == 1
    ensures start in g && end in g && NonNegative(line) ==> start !in writes
    ensures Render.Disjoint(batches)
  {
    var dist, prev, queue := Init(g, start);
    writes := map[];
    InitialKept(g, line, start, end, dist, prev, queue);
    ghost var tidy := WellPosed(g, line, start, end);
    ghost var order: map<NodeId, nat> := map[];
    ghost var count: nat := 0;
    ghost var first := true;
    var b := Render.Initial();
    var total := 0;
    while |queue| > 0
      invariant Looping(g, line, start, end, dist, prev, writes, queue, tidy, order, count, first)
      invariant start in g && start == end ==> first
      invariant Render.Sound(b)
      decreases Unwritten(g, line, end, dist), |queue|
    {
      var done;
      done, r, batches, dist, prev, queue, b, total, writes, tidy, order, count :=
        Pass(g, line, start, end, elapsed, dist, prev, queue, b, total, writes, tidy, order, count, first);
      if done {
        reached := true;
        return;
      }
      first := false;
    }
    reached := false;
    r, batches := Exhausted(g, line, start, end, elapsed, dist, prev, writes, queue, b);
  }

  /** The loop ends with the heap empty (greedy.tsx:131): the walk back
      from a goal with no predecessor gives `[start]`, and the goal is no
      node, since a node's entry is popped before the heap runs dry. */
  method Exhausted(g: Graph, line: (NodeId, NodeId) -> real, start: NodeId, end: NodeId, elapsed: real,
                   ghost dist: map<NodeId, Key>, ghost prev: Links, ghost writes: map<NodeId, nat>,
                   ghost queue: seq<Entry>, b: Render.Batches)
    returns (r: Outcome, batches: seq<set<NodeId>>)
    requires Sound(g, line, start, end, dist, prev, writes, queue) && |queue| == 0 && Render.Sound(b)
    ensures r == Returned([start], elapsed) && end !in g
    ensures Counted(g, line, start, end, writes) && Render.Disjoint(batches)
  {
    SoundCounted(g, line, start, end, dist, prev, writes, queue);
    batches := b.sent;
    r := Returned(Reverse([] + [start]), elapsed);
  }
}
