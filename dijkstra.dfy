/** Dijkstra's search over the unweighted road graph with a lazy min-heap
    (src/algorithms/dijkstra.tsx). The heap (Heapify) is a sequence of
    (id, priority) entries; `pop` removes an entry of least priority, ties
    broken in no particular order. */
module Dijkstra {
  import opened Graph
  import opened Chains

  /** A tentative distance in hops, or Infinity. */
  datatype Dist = Fin(n: nat) | Inf

  /** The test `alt < distances[v]` for a finite `alt`. */
  predicate Below(alt: nat, d: Dist) {
    d.Inf? || alt < d.n
  }

  /** A heap entry: the id and the priority it was pushed with. */
  datatype Entry = Entry(id: NodeId, key: nat)

  /** `queue[i]` is an entry `pop()` may return. */
  predicate IsMin(queue: seq<Entry>, i: nat) {
    i < |queue| && forall j :: 0 <= j < |queue| ==> queue[i].key <= queue[j].key
  }

  lemma {:induction false} MinExists(queue: seq<Entry>)
    requires |queue| > 0
    ensures exists i :: IsMin(queue, i)
  {
    if |queue| > 1 {
      MinExists(queue[1..]);
      var i: nat :| IsMin(queue[1..], i);
      if queue[0].key <= queue[1..][i].key {
        assert IsMin(queue, 0);
      } else {
        assert IsMin(queue, i + 1);
      }
    } else {
      assert IsMin(queue, 0);
    }
  }

  /** The set-up before the loop (dijkstra.tsx:27-35): the start at distance
      0 and alone in the heap, every other node at Infinity with a null
      predecessor. */
  method Init(g: Graph, start: NodeId) returns (dist: map<NodeId, Dist>, prev: Links, queue: seq<Entry>)
    ensures dist.Keys == g.Keys + {start} && dist[start] == Fin(0)
    ensures forall v :: v in g && v != start ==> dist[v] == Inf
    ensures prev.Keys == g.Keys - {start}
    ensures forall v :: v in prev ==> prev[v] == None
    ensures queue == [Entry(start, 0)]
  {
    dist := map[start := Fin(0)];
    queue := [Entry(start, 0)];
    prev := map[];
    var keys := g.Keys;
    while keys != {}
      invariant keys <= g.Keys
      invariant dist.Keys == (g.Keys - keys) + {start} && dist[start] == Fin(0)
      invariant forall v :: v in dist && v != start ==> dist[v] == Inf
      invariant prev.Keys == (g.Keys - keys) - {start}
      invariant forall v :: v in prev ==> prev[v] == None
      decreases keys
    {
      var node :| node in keys;
      if node != start {
        dist := dist[node := Inf];
        prev := prev[node := None];
      }
      keys := keys - {node};
    }
  }

  /** The ids in u's adjacency list. */
  ghost function Neighbours(g: Graph, u: NodeId): set<NodeId> {
    set v | v in Adj(g, u)
  }

  /** Relaxing an edge into `v`, one of the neighbours `S` looked at so far,
      with `alt = distances[u] + 1` lowers v's distance. */
  ghost predicate Improves(S: set<NodeId>, alt: nat, dist: map<NodeId, Dist>, v: NodeId) {
    v in S && v in dist && Below(alt, dist[v])
  }

  /** What relaxing the edges from `u` into `S` does to the three
      dictionaries: every neighbour whose distance `alt` improves gets
      distance `alt`, predecessor `u` and a heap entry `(v, alt)` pushed after
      the existing ones; nothing else changes. */
  ghost predicate Relaxed(S: set<NodeId>, u: NodeId, alt: nat,
                          dist: map<NodeId, Dist>, prev: Links, queue: seq<Entry>,
                          dist': map<NodeId, Dist>, prev': Links, queue': seq<Entry>)
  {
    && dist'.Keys == dist.Keys && prev'.Keys == prev.Keys
    && (forall v :: v in dist ==> dist'[v] == if Improves(S, alt, dist, v) then Fin(alt) else dist[v])
    && (forall v :: v in prev ==> prev'[v] == if Improves(S, alt, dist, v) then Some(u) else prev[v])
    && |queue'| >= |queue| && queue'[..|queue|] == queue
    && (forall i :: |queue| <= i < |queue'| ==> queue'[i].key == alt && Improves(S, alt, dist, queue'[i].id))
    && (forall v :: Improves(S, alt, dist, v) ==> Entry(v, alt) in queue')
    && (dist' == dist ==> queue' == queue)
  }

  /** Looking at one more neighbour `n`: `alt < distances[n]` updates all
      three dictionaries, otherwise nothing changes. */
  lemma RelaxOne(S: set<NodeId>, n: NodeId, start: NodeId, u: NodeId, alt: nat,
                 dist: map<NodeId, Dist>, prev: Links, queue: seq<Entry>,
                 d1: map<NodeId, Dist>, p1: Links, q1: seq<Entry>,
                 d2: map<NodeId, Dist>, p2: Links, q2: seq<Entry>)
    requires alt > 0 && start in dist && dist[start] == Fin(0) && prev.Keys == dist.Keys - {start}
    requires Relaxed(S, u, alt, dist, prev, queue, d1, p1, q1)
    requires n in d1 && Below(alt, d1[n]) ==> d2 == d1[n := Fin(alt)] && p2 == p1[n := Some(u)] && q2 == q1 + [Entry(n, alt)]
    requires !(n in d1 && Below(alt, d1[n])) ==> d2 == d1 && p2 == p1 && q2 == q1
    ensures Relaxed(S + {n}, u, alt, dist, prev, queue, d2, p2, q2)
  {
    if n in d1 && Below(alt, d1[n]) {
      assert d2[n] != dist[n];
      assert q2[..|queue|] == q1[..|queue|];
    }
  }

  /** An id that is not a node has no neighbours to relax. */
  lemma NothingToRelax(g: Graph, u: NodeId, alt: nat, dist: map<NodeId, Dist>, prev: Links, queue: seq<Entry>)
    requires u !in g
    ensures Relaxed(Neighbours(g, u), u, alt, dist, prev, queue, dist, prev, queue)
  {
    assert Neighbours(g, u) == {};
  }

  /** The `neighbors.forEach` relaxation loop (dijkstra.tsx:53-62). */
  method Relax(g: Graph, start: NodeId, u: NodeId, dist: map<NodeId, Dist>, prev: Links, queue: seq<Entry>)
    returns (dist': map<NodeId, Dist>, prev': Links, queue': seq<Entry>)
    requires u in dist && dist[u].Fin?
    requires start in dist && dist[start] == Fin(0) && prev.Keys == dist.Keys - {start}
    ensures Relaxed(Neighbours(g, u), u, dist[u].n + 1, dist, prev, queue, dist', prev', queue')
  {
    var adj := Adj(g, u);
    ghost var a := dist[u].n + 1;
    ghost var seen: set<NodeId> := {};
    dist', prev', queue' := dist, prev, queue;
    for j := 0 to |adj|
      invariant seen == set v | v in adj[..j]
      invariant Relaxed(seen, u, a, dist, prev, queue, dist', prev', queue')
      invariant dist'[u] == dist[u]
    {
      ghost var d1, p1, q1 := dist', prev', queue';
      var neighbor := adj[j];
      assert adj[..j + 1] == adj[..j] + [neighbor];
      var alt := dist'[u].n + 1;
      if neighbor in dist' && Below(alt, dist'[neighbor]) {
        dist' := dist'[neighbor := Fin(alt)];
        prev' := prev'[neighbor := Some(u)];
        queue' := queue' + [Entry(neighbor, alt)];
      }
      RelaxOne(seen, neighbor, start, u, a, dist, prev, queue, d1, p1, q1, dist', prev', queue');
      seen := seen + {neighbor};
    }
    assert adj[..|adj|] == adj;
  }

  // ---------------------------------------------------------------------
  // The loop invariant. `settled` holds the ids popped and expanded so far,
  // `lvl` the priority of the last entry popped.

  /** `distances[v]` is a number. The invariants below that speak about
      every such id fire only on this predicate, so that the facts about
      predecessors do not chase each other along the chain. */
  predicate Finite(dist: map<NodeId, Dist>, v: NodeId) {
    v in dist && dist[v].Fin?
  }

  ghost predicate Frame(g: Graph, start: NodeId, dist: map<NodeId, Dist>, prev: Links) {
    dist.Keys == g.Keys + {start} && dist[start] == Fin(0) && prev.Keys == g.Keys - {start}
  }

  /** `previous[v] = u` records an edge u -> v between ids of finite
      distance, u strictly closer to the start than v. */
  ghost predicate LinksDescend(g: Graph, dist: map<NodeId, Dist>, prev: Links) {
    forall v :: Linked(prev, v) ==>
      && v in dist && prev[v].value in dist && dist[v].Fin? && dist[prev[v].value].Fin?
      && dist[prev[v].value].n < dist[v].n && Edge(g, prev[v].value, v)
  }

  /** Every id of finite distance other than the start has a predecessor. */
  ghost predicate FiniteLinked(start: NodeId, dist: map<NodeId, Dist>, prev: Links) {
    forall v {:trigger Finite(dist, v)} :: Finite(dist, v) && v != start ==> Linked(prev, v)
  }

  /** Each heap entry is for an id whose distance is at most the entry's
      priority, and all priorities lie in `lvl .. lvl + 1`. */
  ghost predicate QueueSound(dist: map<NodeId, Dist>, queue: seq<Entry>, lvl: nat) {
    forall i :: 0 <= i < |queue| ==>
      && queue[i].id in dist && dist[queue[i].id].Fin? && dist[queue[i].id].n <= queue[i].key
      && lvl <= queue[i].key <= lvl + 1
  }

  /** Every id of finite distance not yet expanded has an entry carrying that distance. */
  ghost predicate QueueComplete(dist: map<NodeId, Dist>, queue: seq<Entry>, settled: set<NodeId>) {
    forall v {:trigger Finite(dist, v)} :: Finite(dist, v) && v !in settled ==> Entry(v, dist[v].n) in queue
  }

  ghost predicate SettledBelow(dist: map<NodeId, Dist>, settled: set<NodeId>, lvl: nat) {
    forall u :: u in settled ==> u in dist && dist[u].Fin? && dist[u].n <= lvl
  }

  /** Every edge out of an expanded id is relaxed. */
  ghost predicate SettledRelaxed(g: Graph, dist: map<NodeId, Dist>, settled: set<NodeId>) {
    forall u, v :: u in settled && Edge(g, u, v) && v in dist ==>
      u in dist && dist[u].Fin? && dist[v].Fin? && dist[v].n <= dist[u].n + 1
  }

  /** The distance of an expanded id is the length of a shortest walk to it. */
  ghost predicate SettledOptimal(g: Graph, start: NodeId, dist: map<NodeId, Dist>, settled: set<NodeId>) {
    forall u, p :: u in settled && IsWalkBetween(g, p, start, u) ==> u in dist && dist[u].Fin? && dist[u].n < |p|
  }

  ghost predicate Inv(g: Graph, start: NodeId, end: NodeId, dist: map<NodeId, Dist>, prev: Links,
                      queue: seq<Entry>, settled: set<NodeId>, lvl: nat)
  {
    && Frame(g, start, dist, prev)
    && LinksDescend(g, dist, prev)
    && FiniteLinked(start, dist, prev)
    && QueueSound(dist, queue, lvl)
    && QueueComplete(dist, queue, settled)
    && SettledBelow(dist, settled, lvl)
    && SettledRelaxed(g, dist, settled)
    && SettledOptimal(g, start, dist, settled)
    && end !in settled
  }

  ghost function Unreached(dist: map<NodeId, Dist>): set<NodeId> {
    set v | v in dist && dist[v].Inf?
  }

  /** An id popped with least priority and not expanded before has that
      priority as its distance, and no walk to it is shorter. */
  lemma {:induction false} PoppedIsOptimal(g: Graph, start: NodeId, end: NodeId, dist: map<NodeId, Dist>, prev: Links,
                         queue: seq<Entry>, settled: set<NodeId>, lvl: nat, u: NodeId, k: nat, p: seq<NodeId>)
    requires Inv(g, start, end, dist, prev, queue, settled, lvl)
    requires u in dist && u !in settled && dist[u] == Fin(k)
    requires forall j :: 0 <= j < |queue| ==> k <= queue[j].key
    requires IsWalkBetween(g, p, start, u)
    ensures k < |p|
  {
    var i := 0;
    while p[i] in settled
      invariant 0 <= i < |p|
      invariant i > 0 ==> p[i - 1] in settled
      decreases |p| - i
    {
      i := i + 1;
    }
    var y := p[i];
    assert y in dist && dist[y].Fin? && dist[y].n <= i by {
      if i > 0 {
        WalkPrefix(g, p, i);
        assert IsWalkBetween(g, p[..i], start, p[i - 1]);
        assert Edge(g, p[i - 1], y);
        if i < |p| - 1 {
          assert Edge(g, p[i], p[i + 1]);
        }
      }
    }
    assert Finite(dist, y);
    assert Entry(y, dist[y].n) in queue;
  }

  /** The popped entry of least priority: its id's distance if the id was
      not expanded before; and no neighbour that relaxation improves had a
      finite distance. */
  lemma PoppedFacts(g: Graph, start: NodeId, end: NodeId, dist: map<NodeId, Dist>, prev: Links,
                    queue: seq<Entry>, settled: set<NodeId>, lvl: nat, i: nat)
    requires Inv(g, start, end, dist, prev, queue, settled, lvl)
    requires IsMin(queue, i)
    ensures lvl <= queue[i].key
    ensures queue[i].id !in settled ==> dist[queue[i].id] == Fin(queue[i].key)
    ensures queue[i].id !in settled ==>
      forall v :: Improves(Neighbours(g, queue[i].id), dist[queue[i].id].n + 1, dist, v) ==> dist[v].Inf?
  {
    var u, k := queue[i].id, queue[i].key;
    if u !in settled {
      assert Finite(dist, u);
      assert Entry(u, dist[u].n) in queue;
      forall v | Improves(Neighbours(g, u), k + 1, dist, v) ensures dist[v].Inf? {
        if dist[v].Fin? && v !in settled {
          assert Finite(dist, v);
          assert Entry(v, dist[v].n) in queue;
        }
      }
    }
  }

  /** A stale entry — its id was expanded before — changes nothing. */
  lemma StaleUnchanged(g: Graph, dist: map<NodeId, Dist>, prev: Links, settled: set<NodeId>, u: NodeId, rest: seq<Entry>,
                       dist': map<NodeId, Dist>, prev': Links, queue': seq<Entry>)
    requires SettledRelaxed(g, dist, settled) && u in settled && u in dist && dist[u].Fin?
    requires Relaxed(Neighbours(g, u), u, dist[u].n + 1, dist, prev, rest, dist', prev', queue')
    ensures dist' == dist && prev' == prev && queue' == rest
  {
    var a := dist[u].n + 1;
    forall v | Improves(Neighbours(g, u), a, dist, v) ensures false {
      assert Edge(g, u, v);
    }
    assert dist' == dist by {
      assert forall v :: v in dist ==> dist'[v] == dist[v];
    }
    assert prev' == prev by {
      assert forall v :: v in prev ==> prev'[v] == prev[v];
    }
  }

  /** What a relaxation from `u` at distance `k` keeps, when every neighbour
      it improves was at Infinity. */
  ghost predicate FreshStep(g: Graph, u: NodeId, k: nat,
                            dist: map<NodeId, Dist>, prev: Links, rest: seq<Entry>,
                            dist': map<NodeId, Dist>, prev': Links, queue': seq<Entry>)
  {
    && u in dist && dist[u] == Fin(k)
    && Relaxed(Neighbours(g, u), u, dist[u].n + 1, dist, prev, rest, dist', prev', queue')
    && (forall v :: Improves(Neighbours(g, u), dist[u].n + 1, dist, v) ==> dist[v].Inf?)
  }

  lemma FreshKeepsFinite(g: Graph, u: NodeId, k: nat,
                         dist: map<NodeId, Dist>, prev: Links, rest: seq<Entry>,
                         dist': map<NodeId, Dist>, prev': Links, queue': seq<Entry>)
    requires FreshStep(g, u, k, dist, prev, rest, dist', prev', queue')
    ensures forall v :: v in dist && dist[v].Fin? ==> dist'[v] == dist[v]
    ensures forall v :: v in dist && dist'[v].Fin? ==> dist'[v].n <= k + 1 || dist'[v] == dist[v]
    ensures forall v :: v in dist ==> dist[v].Fin? ==> dist'[v].Fin?
    ensures forall v :: v in Neighbours(g, u) ==> Edge(g, u, v)
  {
  }

  lemma FreshLinks(g: Graph, start: NodeId, u: NodeId, k: nat,
                   dist: map<NodeId, Dist>, prev: Links, rest: seq<Entry>,
                   dist': map<NodeId, Dist>, prev': Links, queue': seq<Entry>)
    requires FreshStep(g, u, k, dist, prev, rest, dist', prev', queue')
    requires Frame(g, start, dist, prev) && LinksDescend(g, dist, prev) && FiniteLinked(start, dist, prev)
    ensures Frame(g, start, dist', prev') && LinksDescend(g, dist', prev') && FiniteLinked(start, dist', prev')
  {
    FreshKeepsFinite(g, u, k, dist, prev, rest, dist', prev', queue');
    var S := Neighbours(g, u);
    forall v | Linked(prev', v)
      ensures v in dist' && prev'[v].value in dist' && dist'[v].Fin? && dist'[prev'[v].value].Fin?
      ensures dist'[prev'[v].value].n < dist'[v].n && Edge(g, prev'[v].value, v)
    {
      if !Improves(S, dist[u].n + 1, dist, v) {
        assert Linked(prev, v);
      }
    }
    forall v | Finite(dist', v) && v != start ensures Linked(prev', v) {
      if !Improves(S, dist[u].n + 1, dist, v) {
        assert Finite(dist, v);
      }
    }
  }

  lemma FreshQueue(g: Graph, u: NodeId, k: nat, lvl: nat, queue: seq<Entry>, i: nat, settled: set<NodeId>,
                   dist: map<NodeId, Dist>, prev: Links,
                   dist': map<NodeId, Dist>, prev': Links, queue': seq<Entry>)
    requires IsMin(queue, i) && queue[i] == Entry(u, k) && lvl <= k
    requires FreshStep(g, u, k, dist, prev, Remove(queue, i), dist', prev', queue')
    requires QueueSound(dist, queue, lvl) && QueueComplete(dist, queue, settled)
    ensures QueueSound(dist', queue', k) && QueueComplete(dist', queue', settled + {u})
  {
    FreshKeepsFinite(g, u, k, dist, prev, Remove(queue, i), dist', prev', queue');
    var rest := Remove(queue, i);
    forall j | 0 <= j < |queue'|
      ensures queue'[j].id in dist' && dist'[queue'[j].id].Fin? && dist'[queue'[j].id].n <= queue'[j].key
      ensures k <= queue'[j].key <= k + 1
    {
      if j < |rest| {
        assert queue'[j] == rest[j] && rest[j] in queue;
      }
    }
    forall v | Finite(dist', v) && v !in settled + {u} ensures Entry(v, dist'[v].n) in queue' {
      if !Improves(Neighbours(g, u), dist[u].n + 1, dist, v) {
        assert Finite(dist, v);
        assert Entry(v, dist[v].n) in rest;
        assert queue'[..|rest|] == rest;
      }
    }
  }

  lemma FreshSettled(g: Graph, start: NodeId, end: NodeId, dist: map<NodeId, Dist>, prev: Links,
                     queue: seq<Entry>, settled: set<NodeId>, lvl: nat, i: nat,
                     dist': map<NodeId, Dist>, prev': Links, queue': seq<Entry>)
    requires Inv(g, start, end, dist, prev, queue, settled, lvl)
    requires IsMin(queue, i) && lvl <= queue[i].key && queue[i].id !in settled
    requires FreshStep(g, queue[i].id, queue[i].key, dist, prev, Remove(queue, i), dist', prev', queue')
    ensures SettledBelow(dist', settled + {queue[i].id}, queue[i].key)
    ensures SettledRelaxed(g, dist', settled + {queue[i].id})
    ensures SettledOptimal(g, start, dist', settled + {queue[i].id})
  {
    var u, k := queue[i].id, queue[i].key;
    FreshKeepsFinite(g, u, k, dist, prev, Remove(queue, i), dist', prev', queue');
    forall w, v | w in settled + {u} && Edge(g, w, v) && v in dist'
      ensures w in dist' && dist'[w].Fin? && dist'[v].Fin? && dist'[v].n <= dist'[w].n + 1
    {
      if w == u {
        assert v in Neighbours(g, u);
      }
    }
    forall w, p | w in settled + {u} && IsWalkBetween(g, p, start, w)
      ensures w in dist' && dist'[w].Fin? && dist'[w].n < |p|
    {
      if w == u {
        PoppedIsOptimal(g, start, end, dist, prev, queue, settled, lvl, u, k, p);
      }
    }
  }

  /** The state of the loop body once `u`, the `i`-th entry of `queue`, a
      least one and not the goal, has been popped, leaving `rest`, and its
      edges relaxed. */
  ghost predicate Popped(g: Graph, start: NodeId, end: NodeId,
                         dist: map<NodeId, Dist>, prev: Links, queue: seq<Entry>, settled: set<NodeId>, lvl: nat,
                         i: nat, u: NodeId, rest: seq<Entry>,
                         dist': map<NodeId, Dist>, prev': Links, queue': seq<Entry>)
  {
    && Inv(g, start, end, dist, prev, queue, settled, lvl)
    && IsMin(queue, i) && u == queue[i].id && rest == Remove(queue, i)
    && u != end && u in dist && dist[u].Fin?
    && Relaxed(Neighbours(g, u), u, dist[u].n + 1, dist, prev, rest, dist', prev', queue')
  }

  /** A stale entry — its id was expanded before — changes nothing but the
      heap, and the invariant holds. */
  lemma StalePreserves(g: Graph, start: NodeId, end: NodeId,
                       dist: map<NodeId, Dist>, prev: Links, queue: seq<Entry>, settled: set<NodeId>, lvl: nat,
                       i: nat, u: NodeId, rest: seq<Entry>,
                       dist': map<NodeId, Dist>, prev': Links, queue': seq<Entry>)
    requires Popped(g, start, end, dist, prev, queue, settled, lvl, i, u, rest, dist', prev', queue')
    requires u in settled
    ensures Inv(g, start, end, dist', prev', queue', settled + {u}, queue[i].key)
    ensures dist' == dist && queue' == rest
  {
    var k := queue[i].key;
    PoppedFacts(g, start, end, dist, prev, queue, settled, lvl, i);
    StaleUnchanged(g, dist, prev, settled, u, rest, dist', prev', queue');
    assert settled + {u} == settled;
    assert QueueSound(dist, rest, k) by {
      forall j | 0 <= j < |rest| ensures rest[j] in queue {
      }
    }
    assert QueueComplete(dist, rest, settled) by {
      forall v | Finite(dist, v) && v !in settled ensures Entry(v, dist[v].n) in rest {
        assert Entry(v, dist[v].n) in queue;
      }
    }
  }

  /** A fresh entry keeps the invariant with its id expanded, and lowers an
      infinite distance unless it changes nothing but the heap. */
  lemma FreshPreserves(g: Graph, start: NodeId, end: NodeId,
                       dist: map<NodeId, Dist>, prev: Links, queue: seq<Entry>, settled: set<NodeId>, lvl: nat,
                       i: nat, u: NodeId, rest: seq<Entry>,
                       dist': map<NodeId, Dist>, prev': Links, queue': seq<Entry>)
    requires Popped(g, start, end, dist, prev, queue, settled, lvl, i, u, rest, dist', prev', queue')
    requires u !in settled
    ensures Inv(g, start, end, dist', prev', queue', settled + {u}, queue[i].key)
    ensures Unreached(dist') < Unreached(dist) || (dist' == dist && queue' == rest)
  {
    var k := queue[i].key;
    PoppedFacts(g, start, end, dist, prev, queue, settled, lvl, i);
    assert FreshStep(g, u, k, dist, prev, rest, dist', prev', queue');
    FreshLinks(g, start, u, k, dist, prev, rest, dist', prev', queue');
    FreshQueue(g, u, k, lvl, queue, i, settled, dist, prev, dist', prev', queue');
    FreshSettled(g, start, end, dist, prev, queue, settled, lvl, i, dist', prev', queue');
    if dist' != dist {
      var v :| v in dist && dist'[v] != dist[v];
      assert v in Unreached(dist) && v !in Unreached(dist');
    }
  }

  /** When the heap runs dry, every node reachable from the start has been
      expanded, so a goal that was never popped is unreachable. */
  lemma {:induction false} ExhaustedUnreachable(g: Graph, start: NodeId, end: NodeId,
                         dist: map<NodeId, Dist>, prev: Links, settled: set<NodeId>, lvl: nat)
    requires Inv(g, start, end, dist, prev, [], settled, lvl)
    requires end in g || end == start
    ensures !Reachable(g, start, end)
  {
    assert Finite(dist, start);
    forall u, v | u in settled && Edge(g, u, v) && v in dist.Keys ensures v in settled {
      assert Finite(dist, v);
    }
    if Reachable(g, start, end) {
      ClosedSetContainsReachable(g, start, end, settled, dist.Keys);
    }
  }

  /** Along the predecessor chain distances fall by at least one per step. */
  lemma {:induction false} ChainShorter(g: Graph, dist: map<NodeId, Dist>, prev: Links, x: NodeId, path: seq<NodeId>)
    requires LinksDescend(g, dist, prev) && IsChain(prev, x, path)
    requires x in dist && dist[x].Fin?
    ensures forall i :: 0 <= i < |path| ==> dist[path[i]].Fin? && dist[path[i]].n + i <= dist[x].n
  {
    var i := 0;
    while i < |path|
      invariant 0 <= i <= |path|
      invariant forall j :: 0 <= j < i ==> dist[path[j]].Fin? && dist[path[j]].n + j <= dist[x].n
    {
      if i > 0 {
        assert path[i] == prev[path[i - 1]].value;
      }
      i := i + 1;
    }
  }

  /** The predecessors of a node of finite distance lead back to the start:
      the walk ends, and what it pushes, reversed after the start, is a walk
      from the start no longer than the distance plus one. */
  lemma FoundWalk(g: Graph, start: NodeId, end: NodeId, dist: map<NodeId, Dist>, prev: Links, x: NodeId)
    requires Frame(g, start, dist, prev) && LinksDescend(g, dist, prev) && FiniteLinked(start, dist, prev)
    requires x in dist && dist[x].Fin?
    ensures !Diverges(prev, x)
    ensures forall path :: IsChain(prev, x, path) ==>
      IsWalkBetween(g, [start] + Reverse(path), start, x) && |path| <= dist[x].n
  {
    RankedEnds(prev, x, map v | v in dist && dist[v].Fin? :: dist[v].n);
    forall path | IsChain(prev, x, path)
      ensures IsWalkBetween(g, [start] + Reverse(path), start, x) && |path| <= dist[x].n
    {
      var t := Stop(prev, x, path);
      ChainShorter(g, dist, prev, x, path);
      assert Finite(dist, t) by {
        if path != [] {
          assert Linked(prev, path[|path| - 1]);
        }
      }
      ChainIsWalk(g, prev, x, path);
      if path != [] {
        assert Linked(prev, path[|path| - 1]);
      }
    }
  }

  /** The answer when the goal is popped: the start followed by the
      reversed chain is a shortest walk from the start to the goal. */
  lemma FoundResult(g: Graph, start: NodeId, end: NodeId, dist: map<NodeId, Dist>, prev: Links,
                    queue: seq<Entry>, settled: set<NodeId>, lvl: nat, i: nat, path: seq<NodeId>)
    requires Inv(g, start, end, dist, prev, queue, settled, lvl)
    requires IsMin(queue, i) && queue[i].id == end
    requires IsChain(prev, end, path)
    ensures |[start] + Reverse(path)| > 0 && ([start] + Reverse(path))[0] == start
    ensures IsWalkBetween(g, [start] + Reverse(path), start, end)
    ensures forall p :: IsWalkBetween(g, p, start, end) ==> |[start] + Reverse(path)| <= |p|
    ensures start == end ==> path == []
  {
    var k := queue[i].key;
    PoppedFacts(g, start, end, dist, prev, queue, settled, lvl, i);
    FoundWalk(g, start, end, dist, prev, end);
    forall p | IsWalkBetween(g, p, start, end) ensures |[start] + Reverse(path)| <= |p| {
      PoppedIsOptimal(g, start, end, dist, prev, queue, settled, lvl, end, k, p);
    }
  }

  lemma ReverseAppend(path: seq<NodeId>, x: NodeId)
    ensures Reverse(path + [x]) == [x] + Reverse(path)
  {
  }

  /** Popping the goal ends the loop (dijkstra.tsx:40-45, 66): the walk back
      along the predecessors, reversed after the start, is a shortest walk
      from the start to the goal. */
  method Finish(g: Graph, start: NodeId, end: NodeId, dist: map<NodeId, Dist>, prev: Links,
                ghost queue: seq<Entry>, ghost settled: set<NodeId>, ghost lvl: nat, ghost i: nat)
    returns (r: seq<NodeId>)
    requires Inv(g, start, end, dist, prev, queue, settled, lvl)
    requires IsMin(queue, i) && queue[i].id == end
    ensures IsWalkBetween(g, r, start, end)
    ensures forall p :: IsWalkBetween(g, p, start, end) ==> |r| <= |p|
    ensures start == end ==> r == [start]
  {
    FoundWalk(g, start, end, dist, prev, end);
    var w := WalkBack(prev, end);
    var path := w.value;
    FoundResult(g, start, end, dist, prev, queue, settled, lvl, i, path);
    ReverseAppend(path, start);
    r := Reverse(path + [start]);
  }

  /** Popping any other id (dijkstra.tsx:50-63): its neighbours are relaxed
      if it is a node; the invariant is kept with the id expanded, and either
      an infinite distance falls or only the heap shrinks. */
  method Expand(g: Graph, start: NodeId, end: NodeId, dist: map<NodeId, Dist>, prev: Links,
                smallest: NodeId, rest: seq<Entry>,
                ghost queue: seq<Entry>, ghost settled: set<NodeId>, ghost lvl: nat, ghost i: nat)
    returns (dist': map<NodeId, Dist>, prev': Links, queue': seq<Entry>)
    requires Inv(g, start, end, dist, prev, queue, settled, lvl)
    requires IsMin(queue, i) && smallest == queue[i].id && rest == Remove(queue, i) && smallest != end
    ensures Inv(g, start, end, dist', prev', queue', settled + {smallest}, queue[i].key)
    ensures Unreached(dist') < Unreached(dist) || (dist' == dist && queue' == rest)
  {
    PoppedFacts(g, start, end, dist, prev, queue, settled, lvl, i);
    assert Finite(dist, smallest) by {
      if smallest in settled {
      } else {
        assert Entry(smallest, dist[smallest].n) in queue;
      }
    }
    if smallest in g {
      dist', prev', queue' := Relax(g, start, smallest, dist, prev, rest);
    } else {
      dist', prev', queue' := dist, prev, rest;
      NothingToRelax(g, smallest, dist[smallest].n + 1, dist, prev, rest);
    }
    if smallest in settled {
      StalePreserves(g, start, end, dist, prev, queue, settled, lvl, i, smallest, rest, dist', prev', queue');
    } else {
      FreshPreserves(g, start, end, dist, prev, queue, settled, lvl, i, smallest, rest, dist', prev', queue');
    }
  }

  /** The whole search (dijkstra.tsx:20-67): the result starts with the start,
      is a walk in the graph, and either ends at the goal and is a shortest
      walk to it, or is `[start]` alone; it ends at the goal whenever the goal
      is reachable and is the start or a node. */
  method Search(g: Graph, start: NodeId, end: NodeId) returns (r: seq<NodeId>)
    ensures |r| > 0 && r[0] == start
    ensures IsWalk(g, r)
    ensures r[|r| - 1] == end || r == [start]
    ensures r[|r| - 1] == end ==> forall p :: IsWalkBetween(g, p, start, end) ==> |r| <= |p|
    ensures Reachable(g, start, end) && (end in g || end == start) ==> r[|r| - 1] == end
    ensures start == end ==> r == [start]
  {
    var dist: map<NodeId, Dist>, prev: Links, queue: seq<Entry> := Init(g, start);
    ghost var settled: set<NodeId> := {};
    ghost var lvl: nat := 0;
    while |queue| > 0
      invariant Inv(g, start, end, dist, prev, queue, settled, lvl)
      decreases Unreached(dist), |queue|
    {
      MinExists(queue);
      var i: nat :| IsMin(queue, i);
      var smallest := queue[i].id;
      ghost var before := queue;
      queue := Remove(queue, i);
      if smallest == end {
        r := Finish(g, start, end, dist, prev, before, settled, lvl, i);
        return;
      }
      dist, prev, queue := Expand(g, start, end, dist, prev, smallest, queue, before, settled, lvl, i);
      settled := settled + {smallest};
      lvl := before[i].key;
    }
    if end in g || end == start {
      ExhaustedUnreachable(g, start, end, dist, prev, settled, lvl);
    }
    r := Reverse([] + [start]);
    assert r == [start];
  }
}
