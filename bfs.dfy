/** Breadth-first search with level markers (src/algorithms/bfs.tsx). The
    deque (double-ended-queue) is a sequence of ids and `null` markers,
    `None` here: `shift` takes the head, `push` appends. The main loop only
    stops when it dequeues the goal; on a goal it cannot reach it runs for
    ever, so the model runs it for at most `fuel` passes. */
module Bfs {
  import opened Graph
  import opened Chains

  /** A deque slot: an id, or the `null` level marker. */
  type Slot = Option<NodeId>

  /** How the search ends: the path the walk back from the goal pushed
      (goal first, start left out, not reversed); a walk back that never
      stops; or the fuel exhausted with the loop still running. */
  datatype Outcome = Returned(path: seq<NodeId>) | Hangs | OutOfFuel

  /** The `forEach` over the node ids (bfs.tsx:32-34): `previous[node] = null`. */
  method Init(g: Graph) returns (prev: Links)
    ensures prev.Keys == g.Keys
    ensures forall v :: v in prev ==> prev[v] == None
  {
    prev := map[];
    var keys := g.Keys;
    while keys != {}
      invariant keys <= g.Keys
      invariant prev.Keys == g.Keys - keys
      invariant forall v :: v in prev ==> prev[v] == None
      decreases keys
    {
      var node :| node in keys;
      prev := prev[node := None];
      keys := keys - {node};
    }
  }

  /** The search's state: `discovered`, `previous` and the deque. */
  datatype State = State(discovered: set<NodeId>, prev: Links, queue: seq<Slot>)

  /** The expansion of `u` over the neighbours `adj` (bfs.tsx:78-84), taken
      in order: a neighbour not in `discovered` makes `u` discovered, gets
      `u` as predecessor and is pushed. */
  function Scan(u: NodeId, adj: seq<NodeId>, D: set<NodeId>, prev: Links, queue: seq<Slot>): State
    decreases |adj|
  {
    if adj == [] then State(D, prev, queue)
    else if adj[0] !in D then Scan(u, adj[1..], D + {u}, prev[adj[0] := Some(u)], queue + [Some(adj[0])])
    else Scan(u, adj[1..], D, prev, queue)
  }

  /** What a scan of `u`'s neighbours does:
      - at most `u` is added to `discovered`, and it is added whenever
        anything else changes;
      - `previous` entries only change for neighbours that were not in
        `discovered` when the scan began, and they then hold `u`; in
        particular no entry of a discovered id changes;
      - truthy entries stay truthy;
      - the deque keeps its contents and gains neighbours, each with a
        truthy entry. */
  lemma {:induction false} ScanFacts(u: NodeId, adj: seq<NodeId>, D: set<NodeId>, prev: Links, queue: seq<Slot>)
    ensures var s := Scan(u, adj, D, prev, queue);
      && D <= s.discovered <= D + {u}
      && (u !in s.discovered ==> s.prev == prev && s.queue == queue)
      && prev.Keys <= s.prev.Keys
      && (forall v :: v in s.prev && (v !in prev || s.prev[v] != prev[v]) ==>
            v in adj && v !in D && s.prev[v] == Some(u) && u in s.discovered)
      && (forall v :: Linked(prev, v) ==> Linked(s.prev, v))
      && |s.queue| >= |queue| && s.queue[..|queue|] == queue
      && (forall k :: |queue| <= k < |s.queue| ==>
            s.queue[k].Some? && s.queue[k].value in adj && Linked(s.prev, s.queue[k].value))
    decreases |adj|
  {
    if adj != [] {
      var n := adj[0];
      if n !in D {
        var D1, p1, q1 := D + {u}, prev[n := Some(u)], queue + [Some(n)];
        ScanFacts(u, adj[1..], D1, p1, q1);
        var s := Scan(u, adj[1..], D1, p1, q1);
        assert s.queue[..|queue|] == q1[..|queue|];
        forall v | v in s.prev && (v !in prev || s.prev[v] != prev[v])
          ensures v in adj && v !in D && s.prev[v] == Some(u) && u in s.discovered
        {
          if v != n {
            assert v !in p1 || s.prev[v] != p1[v];
            assert v in adj[1..];
          }
        }
        forall k | |queue| <= k < |s.queue|
          ensures s.queue[k].Some? && s.queue[k].value in adj && Linked(s.prev, s.queue[k].value)
        {
          if k == |queue| {
            assert s.queue[k] == q1[k] == Some(n);
            assert Linked(p1, n);
          } else {
            assert s.queue[k].value in adj[1..];
          }
        }
      } else {
        ScanFacts(u, adj[1..], D, prev, queue);
        var s := Scan(u, adj[1..], D, prev, queue);
        forall v | v in s.prev && (v !in prev || s.prev[v] != prev[v]) ensures v in adj {
          assert v in adj[1..];
        }
        forall k | |queue| <= k < |s.queue| ensures s.queue[k].value in adj {
          assert s.queue[k].value in adj[1..];
        }
      }
    }
  }

  /** The `neighbors.forEach` loop (bfs.tsx:78-84) computes `Scan`. */
  method Expand(g: Graph, u: NodeId, D: set<NodeId>, prev: Links, queue: seq<Slot>)
    returns (D': set<NodeId>, prev': Links, queue': seq<Slot>)
    requires u in g
    ensures State(D', prev', queue') == Scan(u, g[u].adj, D, prev, queue)
  {
    var adj := g[u].adj;
    D', prev', queue' := D, prev, queue;
    for j := 0 to |adj|
      invariant Scan(u, adj[j..], D', prev', queue') == Scan(u, adj, D, prev, queue)
    {
      var neighbor := adj[j];
      assert adj[j..][1..] == adj[j + 1..];
      if neighbor !in D' {
        D' := D' + {u};
        prev' := prev'[neighbor := Some(u)];
        queue' := queue' + [Some(neighbor)];
      }
    }
  }

  /** A dictionary holding null for each of `keys`. */
  ghost function Nulls(keys: set<NodeId>): Links
    decreases keys
  {
    if keys == {} then map[] else var k :| k in keys; Nulls(keys - {k})[k := None]
  }

  /** `Nulls(keys)` has exactly `keys` as keys, each holding null. */
  lemma {:induction false} NullsHold(keys: set<NodeId>)
    ensures Nulls(keys).Keys == keys && forall v :: v in Nulls(keys) ==> Nulls(keys)[v] == None
    decreases keys
  {
    if keys != {} {
      var k :| k in keys && Nulls(keys) == Nulls(keys - {k})[k := None];
      NullsHold(keys - {k});
    }
  }

  /** The state before the main loop (bfs.tsx:32-37): nothing discovered,
      every node's predecessor null, the start and a marker queued. */
  ghost function Begin(g: Graph, start: NodeId): State {
    State({}, Nulls(g.Keys), [Some(start), None])
  }

  /** `v` heads the deque. */
  predicate Heads(s: State, v: NodeId) {
    |s.queue| > 0 && s.queue[0] == Some(v)
  }

  /** One pass of the main loop (bfs.tsx:39-85) whose head is not the goal:
      a marker goes to the back, a node is expanded, any other id is
      dropped. */
  function Pass(g: Graph, s: State): State
    requires |s.queue| > 0
  {
    if s.queue[0] == None then State(s.discovered, s.prev, s.queue[1..] + [None])
    else if s.queue[0].value in g then Scan(s.queue[0].value, g[s.queue[0].value].adj, s.discovered, s.prev, s.queue[1..])
    else State(s.discovered, s.prev, s.queue[1..])
  }

  /** The state after `n` passes from `s`; the loop stops early when the
      goal heads the deque or the deque is empty. */
  function Passes(g: Graph, end: NodeId, s: State, n: nat): State
    decreases n
  {
    if n == 0 || |s.queue| == 0 || Heads(s, end) then s
    else Passes(g, end, Pass(g, s), n - 1)
  }

  /** `a + b` passes are `b` passes after `a`. */
  lemma {:induction false} PassesAdd(g: Graph, end: NodeId, s: State, a: nat, b: nat)
    ensures Passes(g, end, s, a + b) == Passes(g, end, Passes(g, end, s, a), b)
    decreases a
  {
    if a > 0 && |s.queue| > 0 && !Heads(s, end) {
      PassesAdd(g, end, Pass(g, s), a - 1, b);
    }
  }

  /** Pass `n + 1` is one pass after pass `n`, unless the loop had stopped. */
  lemma PassesNext(g: Graph, end: NodeId, s: State, n: nat)
    requires |Passes(g, end, s, n).queue| > 0 && !Heads(Passes(g, end, s, n), end)
    ensures Passes(g, end, s, n + 1) == Pass(g, Passes(g, end, s, n))
  {
    PassesAdd(g, end, s, n, 1);
  }

  /** Once the goal heads the deque the state stays as it is. */
  lemma PassesStop(g: Graph, end: NodeId, s: State, a: nat, b: nat)
    requires a <= b && Heads(Passes(g, end, s, a), end)
    ensures Passes(g, end, s, b) == Passes(g, end, s, a)
  {
    PassesAdd(g, end, s, a, b - a);
  }

  /** A pass takes the head off and keeps the rest of the deque, in order,
      in front of what it pushes; a marker in the deque stays in it. */
  lemma PassKeepsRest(g: Graph, s: State)
    requires |s.queue| > 0
    ensures |Pass(g, s).queue| >= |s.queue| - 1 && Pass(g, s).queue[..|s.queue| - 1] == s.queue[1..]
    ensures None in s.queue ==> None in Pass(g, s).queue
  {
    var t := Pass(g, s);
    if s.queue[0] == None {
      assert t.queue[|s.queue| - 1] == None;
    } else {
      if s.queue[0].value in g {
        ScanFacts(s.queue[0].value, g[s.queue[0].value].adj, s.discovered, s.prev, s.queue[1..]);
      }
      if None in s.queue {
        var k :| 0 <= k < |s.queue| && s.queue[k] == None;
        assert t.queue[k - 1] == s.queue[1..][k - 1];
      }
    }
  }

  /** A marker in the deque is there after any number of passes. */
  lemma {:induction false} PassesKeepMarker(g: Graph, end: NodeId, s: State, n: nat)
    requires None in s.queue
    ensures None in Passes(g, end, s, n).queue
    decreases n
  {
    if n > 0 && !Heads(s, end) {
      PassKeepsRest(g, s);
      PassesKeepMarker(g, end, Pass(g, s), n - 1);
    }
  }

  /** First in, first out: slot `k` of the deque heads it after `k` passes,
      unless the goal came to the head first. */
  lemma {:induction false} Shift(g: Graph, end: NodeId, s: State, k: nat)
    requires None in s.queue && k < |s.queue|
    ensures Heads(Passes(g, end, s, k), end) ||
            (|Passes(g, end, s, k).queue| > 0 && Passes(g, end, s, k).queue[0] == s.queue[k])
    decreases k
  {
    if k > 0 && !Heads(s, end) {
      PassKeepsRest(g, s);
      var t := Pass(g, s);
      assert t.queue[k - 1] == s.queue[1..][k - 1];
      Shift(g, end, t, k - 1);
    }
  }

  /** A neighbour outside `discovered`, other than `u` itself, is pushed by
      the scan. */
  lemma {:induction false} ScanPushes(u: NodeId, adj: seq<NodeId>, D: set<NodeId>, prev: Links, queue: seq<Slot>, v: NodeId)
    requires v in adj && v !in D && v != u
    ensures exists k :: |queue| <= k < |Scan(u, adj, D, prev, queue).queue| && Scan(u, adj, D, prev, queue).queue[k] == Some(v)
    decreases |adj|
  {
    var s := Scan(u, adj, D, prev, queue);
    if adj[0] == v {
      var D1, p1, q1 := D + {u}, prev[v := Some(u)], queue + [Some(v)];
      ScanFacts(u, adj[1..], D1, p1, q1);
      assert s.queue[|queue|] == q1[|queue|];
    } else {
      assert v in adj[1..];
      if adj[0] !in D {
        ScanPushes(u, adj[1..], D + {u}, prev[adj[0] := Some(u)], queue + [Some(adj[0])], v);
      } else {
        ScanPushes(u, adj[1..], D, prev, queue, v);
      }
    }
  }

  /** Every discovered id headed the deque at an earlier pass. */
  lemma {:induction false} DiscoveredHeaded(g: Graph, end: NodeId, s: State, n: nat, v: NodeId)
    requires s.discovered == {}
    requires v in Passes(g, end, s, n).discovered
    ensures exists t: nat :: t < n && Heads(Passes(g, end, s, t), v)
    decreases n
  {
    if n > 0 {
      var x := Passes(g, end, s, n - 1);
      if |x.queue| == 0 || Heads(x, end) {
        PassesAdd(g, end, s, n - 1, 1);
        DiscoveredHeaded(g, end, s, n - 1, v);
      } else {
        PassesNext(g, end, s, n - 1);
        if v in x.discovered {
          DiscoveredHeaded(g, end, s, n - 1, v);
        } else {
          if x.queue[0].Some? && x.queue[0].value in g {
            ScanFacts(x.queue[0].value, g[x.queue[0].value].adj, x.discovered, x.prev, x.queue[1..]);
          }
          assert Heads(x, v);
        }
      }
    }
  }

  /** Every id of a walk from the start heads the deque at some pass,
      unless the goal does first. */
  lemma {:induction false} WalkHeads(g: Graph, start: NodeId, end: NodeId, p: seq<NodeId>, i: nat)
    requires IsWalk(g, p) && p[0] == start && i < |p|
    ensures exists t: nat :: Heads(Passes(g, end, Begin(g, start), t), end) || Heads(Passes(g, end, Begin(g, start), t), p[i])
    decreases i
  {
    var s0 := Begin(g, start);
    if i == 0 {
      assert Heads(Passes(g, end, s0, 0), p[0]);
    } else {
      WalkHeads(g, start, end, p, i - 1);
      var t: nat :| Heads(Passes(g, end, s0, t), end) || Heads(Passes(g, end, s0, t), p[i - 1]);
      var x := Passes(g, end, s0, t);
      if !Heads(x, end) {
        var u, v := p[i - 1], p[i];
        assert Edge(g, u, v);
        PassesNext(g, end, s0, t);
        if v != u && v in x.discovered {
          DiscoveredHeaded(g, end, s0, t, v);
        } else if v != u {
          ScanPushes(u, g[u].adj, x.discovered, x.prev, x.queue[1..], v);
          var y := Pass(g, x);
          var k :| |x.queue[1..]| <= k < |y.queue| && y.queue[k] == Some(v);
          assert s0.queue[1] == None;
          PassesKeepMarker(g, end, s0, t + 1);
          Shift(g, end, y, k);
          PassesAdd(g, end, s0, t + 1, k);
          assert Heads(Passes(g, end, s0, t + 1 + k), end) || Heads(Passes(g, end, s0, t + 1 + k), v);
        }
      }
    }
  }

  /** The number of passes after which a goal the start reaches heads the
      deque. */
  ghost function GoalPass(g: Graph, start: NodeId, end: NodeId): (n: nat)
    ensures Reachable(g, start, end) ==> Heads(Passes(g, end, Begin(g, start), n), end)
  {
    if Reachable(g, start, end) then
      var p :| IsWalkBetween(g, p, start, end);
      WalkHeads(g, start, end, p, |p| - 1);
      var t: nat :| Heads(Passes(g, end, Begin(g, start), t), end) || Heads(Passes(g, end, Begin(g, start), t), p[|p| - 1]);
      t
    else 0
  }

  /** `order` numbers the discovered ids, below `count`, in the order they
      were discovered; a truthy entry of a discovered id other than a loop
      edge points to an id discovered before it. */
  ghost predicate Ranked(D: set<NodeId>, prev: Links, order: map<NodeId, nat>, count: nat) {
    && order.Keys == D
    && (forall v :: v in order ==> order[v] < count)
    && (forall v :: Linked(prev, v) && v in order ==>
          prev[v].value in order && (prev[v].value == v || order[prev[v].value] < order[v]))
  }

  /** A scan of `u` keeps the numbering once `u`, if it is newly
      discovered, is given the next number. */
  lemma RankKeeps(u: NodeId, adj: seq<NodeId>, D: set<NodeId>, prev: Links, queue: seq<Slot>, order: map<NodeId, nat>, count: nat)
    requires Ranked(D, prev, order, count)
    requires forall v :: Linked(prev, v) ==> prev[v].value in D
    ensures var s := Scan(u, adj, D, prev, queue);
      Ranked(s.discovered, s.prev, if u in s.discovered - D then order[u := count] else order, count + 1)
  {
    var s := Scan(u, adj, D, prev, queue);
    ScanFacts(u, adj, D, prev, queue);
    var order' := if u in s.discovered - D then order[u := count] else order;
    forall v | Linked(s.prev, v) && v in order'
      ensures s.prev[v].value in order' && (s.prev[v].value == v || order'[s.prev[v].value] < order'[v])
    {
      if v in prev && s.prev[v] == prev[v] {
        assert Linked(prev, v);
      }
    }
  }

  /** A walk back from the goal that never stops meets a loop edge: without
      one, each step goes to an id discovered earlier. */
  lemma LoopEdge(g: Graph, D: set<NodeId>, prev: Links, order: map<NodeId, nat>, count: nat, end: NodeId)
    requires Ranked(D, prev, order, count) && end !in D
    requires forall v :: Linked(prev, v) ==> prev[v].value in D && Edge(g, prev[v].value, v)
    requires Diverges(prev, end)
    ensures exists v :: Edge(g, v, v)
  {
    if forall v :: Linked(prev, v) ==> prev[v].value != v {
      var rank := order[end := count];
      forall v | Linked(prev, v) && v in rank ensures prev[v].value in rank && rank[prev[v].value] < rank[v] {
        assert prev[v].value in D;
      }
      RankedEnds(prev, end, rank);
      assert false;
    }
    var v :| Linked(prev, v) && prev[v].value == v;
    assert Edge(g, prev[v].value, v);
  }

  /** The loop invariant, `discovered` holding the ids that were expanded
      and found a neighbour outside it:
      - a marker is always in the deque, so it never runs empty;
      - every queued id is reachable from the start and is the start or has
        a truthy predecessor;
      - every discovered id is the start or has a truthy predecessor;
      - every truthy entry `previous[v] = u` has `u` discovered and records
        the edge u -> v;
      - the start's own entry, if truthy, is the start (a loop edge);
      - before the start is discovered nothing else has happened. */
  ghost predicate Inv(g: Graph, start: NodeId, D: set<NodeId>, prev: Links, queue: seq<Slot>) {
    && None in queue
    && (forall k :: 0 <= k < |queue| && queue[k].Some? ==>
          Reachable(g, start, queue[k].value) && (queue[k].value == start || Linked(prev, queue[k].value)))
    && (forall v :: v in D ==> v == start || Linked(prev, v))
    && (forall v :: Linked(prev, v) ==> prev[v].value in D && Edge(g, prev[v].value, v))
    && (Linked(prev, start) ==> prev[start] == Some(start))
    && (start !in D ==> D == {} && (forall v :: !Linked(prev, v)) &&
                        (forall k :: 0 <= k < |queue| ==> queue[k] == None || queue[k] == Some(start)))
  }

  lemma InitialInv(g: Graph, start: NodeId, prev: Links)
    requires forall v :: v in prev ==> prev[v] == None
    ensures Inv(g, start, {}, prev, [Some(start), None])
  {
    ReachableRefl(g, start);
    assert [Some(start), None][1] == None;
  }

  /** A marker at the head is pushed back: the invariant holds. */
  lemma MarkerKeeps(g: Graph, start: NodeId, D: set<NodeId>, prev: Links, queue: seq<Slot>)
    requires Inv(g, start, D, prev, queue) && queue[0] == None
    ensures Inv(g, start, D, prev, queue[1..] + [None])
  {
    var q := queue[1..] + [None];
    forall k | 0 <= k < |q| && q[k].Some?
      ensures Reachable(g, start, q[k].value) && (q[k].value == start || Linked(prev, q[k].value))
    {
      assert q[k] == queue[k + 1];
    }
    forall k | 0 <= k < |q| && start !in D ensures q[k] == None || q[k] == Some(start) {
      if k < |q| - 1 { assert q[k] == queue[k + 1]; }
    }
  }

  /** An id at the head that is not a node is dropped: the invariant holds. */
  lemma DropKeeps(g: Graph, start: NodeId, D: set<NodeId>, prev: Links, queue: seq<Slot>)
    requires Inv(g, start, D, prev, queue) && queue[0].Some?
    ensures Inv(g, start, D, prev, queue[1..])
  {
    var k :| 0 <= k < |queue| && queue[k] == None;
    assert queue[1..][k - 1] == None;
  }

  /** A node at the head, not the goal, is expanded: the invariant holds. */
  lemma ExpandKeeps(g: Graph, start: NodeId, D: set<NodeId>, prev: Links, queue: seq<Slot>, u: NodeId, s: State)
    requires Inv(g, start, D, prev, queue) && queue[0] == Some(u) && u in g
    requires s == Scan(u, g[u].adj, D, prev, queue[1..])
    ensures Inv(g, start, s.discovered, s.prev, s.queue)
  {
    var rest := queue[1..];
    ScanFacts(u, g[u].adj, D, prev, rest);
    assert Reachable(g, start, u) && (u == start || Linked(prev, u));
    DropKeeps(g, start, D, prev, queue);
    assert None in s.queue by {
      var k :| 0 <= k < |rest| && rest[k] == None;
      assert s.queue[k] == None;
    }
    forall k | 0 <= k < |s.queue| && s.queue[k].Some?
      ensures Reachable(g, start, s.queue[k].value) && (s.queue[k].value == start || Linked(s.prev, s.queue[k].value))
    {
      if k < |rest| {
        assert s.queue[k] == rest[k] == queue[k + 1];
      } else {
        ReachableStep(g, start, u, s.queue[k].value);
      }
    }
    forall v | v in s.discovered ensures v == start || Linked(s.prev, v) {
      if v != u {
        assert v in D;
      }
    }
    forall v | Linked(s.prev, v) ensures s.prev[v].value in s.discovered && Edge(g, s.prev[v].value, v) {
      if v in prev && s.prev[v] == prev[v] {
        assert Linked(prev, v);
      }
    }
    if start !in s.discovered {
      assert u == start && D == {} && u !in s.discovered;
    }
  }

  /** The walk back from the goal, when it stops, pushed the goal first and
      each id's predecessor after it; reversed after the start it is a walk
      from the start to the goal, and the start is not in it. */
  lemma ChainFromStart(g: Graph, start: NodeId, end: NodeId, D: set<NodeId>, prev: Links, queue: seq<Slot>, path: seq<NodeId>)
    requires Inv(g, start, D, prev, queue) && queue[0] == Some(end)
    requires IsChain(prev, end, path)
    ensures IsWalkBetween(g, [start] + Reverse(path), start, end)
    ensures start !in path
  {
    assert LinksAreEdges(g, prev);
    ChainIsWalk(g, prev, end, path);
    if path != [] {
      assert Linked(prev, path[|path| - 1]);
    }
    forall i | 0 <= i < |path| ensures path[i] != start {
      StartNotInChain(prev, start, end, path, i);
    }
  }

  /** A truthy entry for the start can only be a loop edge, so a walk
      that reached the start would never stop: a chain does not hold it. */
  lemma {:induction false} StartNotInChain(prev: Links, start: NodeId, x: NodeId, path: seq<NodeId>, i: nat)
    requires IsChain(prev, x, path)
    requires Linked(prev, start) ==> prev[start] == Some(start)
    requires i < |path|
    ensures path[i] != start
    decreases |path| - i
  {
    if i < |path| - 1 {
      StartNotInChain(prev, start, x, path, i + 1);
    }
  }

  /** The numbering after a pass of `x`: the popped node gets `count` if
      the pass discovers it. */
  ghost function Renumber(g: Graph, x: State, order: map<NodeId, nat>, count: nat): map<NodeId, nat>
    requires |x.queue| > 0
  {
    if x.queue[0].Some? && x.queue[0].value in Pass(g, x).discovered - x.discovered then order[x.queue[0].value := count]
    else order
  }

  /** The discovery numbering after `n` passes from `s`, numbered on from
      `order` and `count`: the pass numbered `k` gives `k` to the node it
      discovers. */
  ghost function Order(g: Graph, end: NodeId, s: State, order: map<NodeId, nat>, count: nat, n: nat): map<NodeId, nat>
    decreases n
  {
    if n == 0 || |s.queue| == 0 || Heads(s, end) then order
    else Order(g, end, Pass(g, s), Renumber(g, s, order, count), count + 1, n - 1)
  }

  /** What every pass of the loop keeps: the search invariant, the goal never
      discovered (it is never expanded), and the discovery numbering. */
  ghost predicate Kept(g: Graph, start: NodeId, end: NodeId, x: State, order: map<NodeId, nat>, count: nat) {
    && Inv(g, start, x.discovered, x.prev, x.queue)
    && end !in x.discovered
    && Ranked(x.discovered, x.prev, order, count)
  }

  /** Expanding the node at the head, not the goal, keeps `Kept`. */
  lemma ExpandKept(g: Graph, start: NodeId, end: NodeId, x: State, order: map<NodeId, nat>, count: nat)
    requires Kept(g, start, end, x, order, count) && |x.queue| > 0 && x.queue[0].Some?
    requires x.queue[0].value in g && x.queue[0].value != end
    ensures Kept(g, start, end, Pass(g, x), Renumber(g, x, order, count), count + 1)
  {
    var u := x.queue[0].value;
    ExpandKeeps(g, start, x.discovered, x.prev, x.queue, u, Pass(g, x));
    RankKeeps(u, g[u].adj, x.discovered, x.prev, x.queue[1..], order, count);
    ScanFacts(u, g[u].adj, x.discovered, x.prev, x.queue[1..]);
  }

  /** A pass whose head is not the goal keeps `Kept`. */
  lemma PassKept(g: Graph, start: NodeId, end: NodeId, x: State, order: map<NodeId, nat>, count: nat)
    requires Kept(g, start, end, x, order, count) && |x.queue| > 0 && !Heads(x, end)
    ensures Kept(g, start, end, Pass(g, x), Renumber(g, x, order, count), count + 1)
  {
    if x.queue[0] == None {
      MarkerKeeps(g, start, x.discovered, x.prev, x.queue);
    } else if x.queue[0].value in g {
      ExpandKept(g, start, end, x, order, count);
    } else {
      DropKeeps(g, start, x.discovered, x.prev, x.queue);
    }
  }

  /** `Kept` holds along any number of passes. */
  lemma {:induction false} KeptAlong(g: Graph, start: NodeId, end: NodeId, s: State, order: map<NodeId, nat>, count: nat, n: nat)
    requires Kept(g, start, end, s, order, count)
    ensures Kept(g, start, end, Passes(g, end, s, n), Order(g, end, s, order, count, n), count + n)
    decreases n
  {
    if n > 0 && |s.queue| > 0 && !Heads(s, end) {
      PassKept(g, start, end, s, order, count);
      KeptAlong(g, start, end, Pass(g, s), Renumber(g, s, order, count), count + 1, n - 1);
    }
  }

  /** The discovery numbering after `n` passes from the beginning. */
  ghost function Numbering(g: Graph, start: NodeId, end: NodeId, n: nat): map<NodeId, nat> {
    Order(g, end, Begin(g, start), map[], 0, n)
  }

  /** `Kept` holds after any number of passes from the beginning. */
  lemma Invariants(g: Graph, start: NodeId, end: NodeId, n: nat)
    ensures Kept(g, start, end, Passes(g, end, Begin(g, start), n), Numbering(g, start, end, n), n)
  {
    NullsHold(g.Keys);
    InitialInv(g, start, Nulls(g.Keys));
    KeptAlong(g, start, end, Begin(g, start), map[], 0, n);
  }

  /** When the goal heads the deque after `n` passes, a chain pushed from it
      reversed after the start is a walk from the start to the goal,
      following edges backwards, without the start. */
  lemma ChainAtGoal(g: Graph, start: NodeId, end: NodeId, n: nat, path: seq<NodeId>)
    requires Heads(Passes(g, end, Begin(g, start), n), end)
    requires IsChain(Passes(g, end, Begin(g, start), n).prev, end, path)
    ensures forall i :: 0 <= i < |path| - 1 ==> Edge(g, path[i + 1], path[i])
    ensures IsWalkBetween(g, [start] + Reverse(path), start, end) && start !in path
  {
    Invariants(g, start, end, n);
    var x := Passes(g, end, Begin(g, start), n);
    ChainFromStart(g, start, end, x.discovered, x.prev, x.queue, path);
  }

  /** A goal at the head of the deque is reachable from the start. */
  lemma GoalReachable(g: Graph, start: NodeId, end: NodeId, n: nat)
    requires Heads(Passes(g, end, Begin(g, start), n), end)
    ensures Reachable(g, start, end)
  {
    Invariants(g, start, end, n);
  }

  /** A walk back from the goal that never stops, after `n` passes, needs a
      loop edge in the graph. */
  lemma HangsAtGoal(g: Graph, start: NodeId, end: NodeId, n: nat)
    requires Diverges(Passes(g, end, Begin(g, start), n).prev, end)
    ensures exists v :: Edge(g, v, v)
  {
    Invariants(g, start, end, n);
    var x := Passes(g, end, Begin(g, start), n);
    LoopEdge(g, x.discovered, x.prev, Numbering(g, start, end, n), n, end);
  }

  /** Before pass `n` of the main loop the state is `x`: it is the state `n`
      passes from the beginning, and the goal did not head the deque at the
      pass before. */
  ghost predicate Running(g: Graph, start: NodeId, end: NodeId, n: nat, x: State) {
    && x == Passes(g, end, Begin(g, start), n)
    && (n > 0 ==> !Heads(Passes(g, end, Begin(g, start), n - 1), end))
  }

  /** `Running` holds before the first pass: `previous` from `Init` is the
      beginning's. */
  lemma Started(g: Graph, start: NodeId, end: NodeId, prev: Links)
    requires prev.Keys == g.Keys && forall v :: v in prev ==> prev[v] == None
    ensures Running(g, start, end, 0, State({}, prev, [Some(start), None]))
  {
    NullsHold(g.Keys);
    assert prev == Begin(g, start).prev;
  }

  /** When the fuel runs out with the loop still going, the goal did not head
      the deque at the last pass, so the fuel was at most `GoalPass`. */
  lemma Exhausted(g: Graph, start: NodeId, end: NodeId, fuel: nat, x: State)
    requires Running(g, start, end, fuel, x)
    ensures fuel == 0 || !Heads(Passes(g, end, Begin(g, start), fuel - 1), end)
    ensures Reachable(g, start, end) ==> fuel <= GoalPass(g, start, end)
  {
    if Reachable(g, start, end) && fuel > GoalPass(g, start, end) {
      PassesStop(g, end, Begin(g, start), GoalPass(g, start, end), fuel - 1);
      assert false;
    }
  }

  /** The goal heads the deque at pass `n` (bfs.tsx:62-72): the walk back
      from it over `previous`. */
  method Finish(g: Graph, start: NodeId, end: NodeId, fuel: nat, ghost n: nat, ghost x: State, prev: Links)
    returns (r: Outcome)
    requires Running(g, start, end, n, x) && Heads(x, end) && n < fuel && prev == x.prev
    ensures !r.OutOfFuel? && Heads(Passes(g, end, Begin(g, start), fuel - 1), end)
    ensures r.Returned? ==> IsChain(Passes(g, end, Begin(g, start), fuel - 1).prev, end, r.path)
    ensures r.Returned? ==> forall i :: 0 <= i < |r.path| - 1 ==> Edge(g, r.path[i + 1], r.path[i])
    ensures r.Returned? ==> IsWalkBetween(g, [start] + Reverse(r.path), start, end) && start !in r.path
    ensures r.Hangs? ==> Diverges(Passes(g, end, Begin(g, start), fuel - 1).prev, end) && exists v :: Edge(g, v, v)
    ensures Reachable(g, start, end)
    ensures n == 0 ==> r == Returned([])
  {
    PassesStop(g, end, Begin(g, start), n, fuel - 1);
    GoalReachable(g, start, end, n);
    if n == 0 {
      NullsHold(g.Keys);
    }
    var w := WalkBack(prev, end);
    if w.None? {
      HangsAtGoal(g, start, end, n);
      assert Step(prev, end, 0) == Some(end);
      r := Hangs;
    } else {
      ChainAtGoal(g, start, end, n, w.value);
      r := Returned(w.value);
    }
  }

  /** One pass of the main loop whose head is not the goal (bfs.tsx:39-85,
      without the rendering): the marker is pushed back (bfs.tsx:49), a
      node is expanded (bfs.tsx:74-85), any other id dropped. It computes
      `Pass`, so the next pass starts from the state `n + 1` passes from the
      beginning. */
  method Turn(g: Graph, ghost start: NodeId, ghost end: NodeId, ghost n: nat, D: set<NodeId>, prev: Links, queue: seq<Slot>)
    returns (D': set<NodeId>, prev': Links, queue': seq<Slot>)
    requires Running(g, start, end, n, State(D, prev, queue))
    requires |queue| > 0 && queue[0] != Some(end)
    ensures State(D', prev', queue') == Pass(g, State(D, prev, queue))
    ensures Running(g, start, end, n + 1, State(D', prev', queue'))
  {
    PassesNext(g, end, Begin(g, start), n);
    var head := queue[0];
    if head == None {
      D', prev', queue' := D, prev, queue[1..] + [None];
    } else if head.value in g {
      D', prev', queue' := Expand(g, head.value, D, prev, queue[1..]);
    } else {
      D', prev', queue' := D, prev, queue[1..];
    }
  }

  /** The whole search (bfs.tsx:16-88) run for at most `fuel` passes.
      `delay` is the delay argument and `shows(total, level)` the render test
      `total % (level * 0.5) == 0`; `sent` holds the arrays passed to the
      callback and the ghost `markers` counts the markers dequeued.

      - The search ends exactly when the goal heads the deque within the
        fuel, and its result is the walk back from the goal over the
        `previous` of that pass: the chain it pushed, or `Hangs` when it
        never stops, which needs a loop edge in the graph.
      - A returned path is the walk back from the goal: goal first, and
        each id in the adjacency list of the id after it; the start left out
        of it and prepended to its reverse it is a walk from the start to the
        goal.
      - A goal the start reaches is found once the fuel exceeds `GoalPass`;
        on a goal the start cannot reach the loop runs for ever.
      - `start == end` returns the empty path on the first pass.
      - The callback fires once per marker when `delay > 0`, never otherwise. */
  method Search(g: Graph, start: NodeId, end: NodeId, delay: real, shows: (nat, nat) -> bool, fuel: nat)
    returns (r: Outcome, sent: seq<seq<NodeId>>, ghost markers: nat)
    ensures r.OutOfFuel? <==> fuel == 0 || !Heads(Passes(g, end, Begin(g, start), fuel - 1), end)
    ensures r.Returned? ==> fuel > 0 && IsChain(Passes(g, end, Begin(g, start), fuel - 1).prev, end, r.path)
    ensures r.Hangs? ==> fuel > 0 && Diverges(Passes(g, end, Begin(g, start), fuel - 1).prev, end)
    ensures r.Hangs? ==> exists v :: Edge(g, v, v)
    ensures r.Returned? ==> |r.path| > 0 ==> r.path[0] == end
    ensures r.Returned? ==> forall i :: 0 <= i < |r.path| - 1 ==> Edge(g, r.path[i + 1], r.path[i])
    ensures r.Returned? ==> IsWalkBetween(g, [start] + Reverse(r.path), start, end) && start !in r.path
    ensures Reachable(g, start, end) && fuel > GoalPass(g, start, end) ==> !r.OutOfFuel?
    ensures !Reachable(g, start, end) ==> r == OutOfFuel
    ensures start == end && fuel > 0 ==> r == Returned([])
    ensures delay <= 0.0 ==> sent == []
    ensures delay > 0.0 ==> |sent| == markers
  {
    var prev := Init(g);
    var queue: seq<Slot> := [Some(start), None];
    var discovered: set<NodeId> := {};
    var rendered: set<NodeId> := {};
    var level: nat := 0;
    var total: nat := 0;
    var nextRender: seq<NodeId> := [];
    sent, markers := [], 0;
    Started(g, start, end, prev);
    var steps := fuel;
    while |queue| > 0 && steps > 0
      invariant Running(g, start, end, fuel - steps, State(discovered, prev, queue))
      invariant start == end && fuel > 0 ==> steps == fuel && queue == [Some(start), None]
      invariant delay <= 0.0 ==> sent == []
      invariant delay > 0.0 ==> |sent| == markers
      decreases steps
    {
      var head := queue[0];
      if head == None {
        level := level + 1;
        if delay > 0.0 {
          sent := sent + [nextRender];
        }
        markers := markers + 1;
        nextRender := [];
      } else {
        total := total + 1;
        if shows(total, level) && head.value !in rendered {
          nextRender := nextRender + [head.value];
          rendered := rendered + {head.value};
        }
        if head.value == end {
          r := Finish(g, start, end, fuel, fuel - steps, State(discovered, prev, queue), prev);
          return;
        }
      }
      discovered, prev, queue := Turn(g, start, end, fuel - steps, discovered, prev, queue);
      steps := steps - 1;
    }
    // `return []` (bfs.tsx:87) is never reached: the deque always holds a marker.
    Invariants(g, start, end, fuel - steps);
    assert |queue| > 0;
    Exhausted(g, start, end, fuel, State(discovered, prev, queue));
    r := OutOfFuel;
  }
}
