/** Depth-first search over an explicit stack (src/algorithms/dfs.tsx).
    `previous` maps every node to the list of the nodes that pushed it, in
    push order; on reaching the goal the walk back `shift()`s the first
    entry off the current node's list and moves to it, until it stands on an
    exhausted list. A neighbour id that is not a key of the node data has no
    list, so `previous[neighbor].push` (and `previous[end].length` for such a
    goal) throws a TypeError; that is the `Fault` outcome here. */
module Dfs {
  import opened Graph

  /** `previous`: for each node, the nodes that pushed it. */
  type Lists = map<NodeId, seq<NodeId>>

  /** How the search ends: the walk back's path (the goal left out, nearest
      first), `false` once the stack is exhausted, or a thrown TypeError. */
  datatype Outcome = Path(path: seq<NodeId>) | NoPath | Fault

  /** The `forEach` over the node ids (dfs.tsx:29-31): `previous[node] = []`. */
  method Init(g: Graph) returns (prev: Lists)
    ensures prev.Keys == g.Keys
    ensures forall v :: v in prev ==> prev[v] == []
  {
    prev := map[];
    var keys := g.Keys;
    while keys != {}
      invariant keys <= g.Keys
      invariant prev.Keys == g.Keys - keys
      invariant forall v :: v in prev ==> prev[v] == []
      decreases keys
    {
      var node :| node in keys;
      prev := prev[node := []];
      keys := keys - {node};
    }
  }

  /** `previous[neighbor].push(u)` for each neighbour in turn. */
  function AppendAll(prev: Lists, u: NodeId, adj: seq<NodeId>): Lists
    requires forall k :: 0 <= k < |adj| ==> adj[k] in prev
    decreases |adj|
  {
    if adj == [] then prev
    else AppendAll(prev[adj[0] := prev[adj[0]] + [u]], u, adj[1..])
  }

  /** Appending `u` for every neighbour keeps the keys and each list's
      contents, adds only `u`, only to neighbours' lists, and to every
      neighbour's list once per occurrence in `adj`. */
  lemma {:induction false} AppendAllFacts(prev: Lists, u: NodeId, adj: seq<NodeId>)
    requires forall k :: 0 <= k < |adj| ==> adj[k] in prev
    ensures var p := AppendAll(prev, u, adj);
      && p.Keys == prev.Keys
      && (forall v :: v in prev ==> |p[v]| == |prev[v]| + multiset(adj)[v] && p[v][..|prev[v]|] == prev[v])
      && (forall v, k :: v in prev && |prev[v]| <= k < |p[v]| ==> p[v][k] == u)
    decreases |adj|
  {
    if adj != [] {
      var n := adj[0];
      var p1 := prev[n := prev[n] + [u]];
      AppendAllFacts(p1, u, adj[1..]);
      var p := AppendAll(p1, u, adj[1..]);
      assert adj == [n] + adj[1..];
      assert multiset(adj) == multiset{n} + multiset(adj[1..]);
      forall v | v in prev ensures p[v][..|prev[v]|] == prev[v] {
        assert p[v][..|p1[v]|] == p1[v];
        assert p1[v][..|prev[v]|] == prev[v];
      }
      forall v, k | v in prev && |prev[v]| <= k < |p[v]| ensures p[v][k] == u {
        if k < |p1[v]| {
          assert p[v][..|p1[v]|] == p1[v];
          assert p[v][k] == p1[v][k];
        }
      }
    }
  }

  /** The expansion of `u` (dfs.tsx:66-71): push every neighbour onto the
      stack and append `u` to its list, in adjacency order. It throws, `ok`
      false, exactly when some neighbour has no list. */
  method Expand(g: Graph, u: NodeId, stack: seq<NodeId>, prev: Lists)
    returns (ok: bool, stack': seq<NodeId>, prev': Lists)
    requires u in g
    ensures ok <==> forall v :: v in g[u].adj ==> v in prev
    ensures ok ==> stack' == stack + g[u].adj && prev' == AppendAll(prev, u, g[u].adj)
  {
    var adj := g[u].adj;
    stack', prev' := stack, prev;
    for j := 0 to |adj|
      invariant forall k :: 0 <= k < j ==> adj[k] in prev
      invariant prev'.Keys == prev.Keys
      invariant stack' == stack + adj[..j]
      invariant (forall k :: j <= k < |adj| ==> adj[k] in prev') ==> AppendAll(prev', u, adj[j..]) == AppendAll(prev, u, adj)
    {
      var neighbor := adj[j];
      assert adj[..j + 1] == adj[..j] + [neighbor];
      assert adj[j..][1..] == adj[j + 1..];
      stack' := stack' + [neighbor];
      if neighbor !in prev' {
        ok := false;
        return;
      }
      prev' := prev'[neighbor := prev'[neighbor] + [u]];
    }
    ok := true;
    assert adj[..|adj|] == adj;
  }

  /** The ids the walk back stands on: the goal, then each one it moved to. */
  function Stood(x: NodeId, path: seq<NodeId>): seq<NodeId> {
    [x] + path
  }

  /** How many entries of `v`'s list the walk has shifted off after `i` moves. */
  function Shifted(x: NodeId, path: seq<NodeId>, i: nat, v: NodeId): nat
    requires i <= |path|
  {
    multiset(Stood(x, path)[..i])[v]
  }

  /** The (id, position) pairs still in the lists: the walk's measure. */
  ghost function Entries(lists: Lists): set<(NodeId, nat)> {
    set v, k: nat | v in lists && k < |lists[v]| :: (v, k)
  }

  lemma ShiftShrinks(lists: Lists, node: NodeId)
    requires node in lists && |lists[node]| > 0
    ensures Entries(lists[node := lists[node][1..]]) < Entries(lists)
  {
    var after := lists[node := lists[node][1..]];
    assert (node, |lists[node]| - 1) in Entries(lists) - Entries(after);
  }

  /** One more move leaves the earlier counts alone and adds one to the
      count of the id the walk stood on. */
  lemma ShiftCounts(x: NodeId, path: seq<NodeId>, first: NodeId)
    ensures forall i :: 0 <= i <= |path| ==> Stood(x, path + [first])[i] == Stood(x, path)[i]
    ensures forall i, v :: 0 <= i <= |path| ==> Shifted(x, path + [first], i, v) == Shifted(x, path, i, v)
    ensures forall v :: Shifted(x, path + [first], |path| + 1, v) == Shifted(x, path, |path|, v) + (if v == Stood(x, path)[|path|] then 1 else 0)
  {
    var W, W' := Stood(x, path), Stood(x, path + [first]);
    forall i | 0 <= i <= |path| ensures W'[..i] == W[..i] {
    }
    assert W'[..|path| + 1] == W[..|path|] + [W[|path|]];
  }

  /** Each move took the first entry of the current id's list not yet
      shifted off: the i-th pushed id is entry number `Shifted(x, path, i, w)`
      of the list of the id `w` the walk stood on. */
  ghost predicate Moves(prev: Lists, x: NodeId, path: seq<NodeId>) {
    forall i :: 0 <= i < |path| ==>
      var w := Stood(x, path)[i];
      w in prev && Shifted(x, path, i, w) < |prev[w]| && path[i] == prev[w][Shifted(x, path, i, w)]
  }

  /** Each list has lost exactly the entries the walk shifted off it. */
  ghost predicate Consumed(prev: Lists, x: NodeId, path: seq<NodeId>, lists: Lists) {
    && lists.Keys == prev.Keys
    && forall v :: v in prev ==>
         Shifted(x, path, |path|, v) <= |prev[v]| && lists[v] == prev[v][Shifted(x, path, |path|, v)..]
  }

  /** One move of the walk keeps the account of what each list lost. */
  lemma ConsumedKeeps(prev: Lists, x: NodeId, path: seq<NodeId>, lists: Lists, first: NodeId)
    requires Consumed(prev, x, path, lists)
    requires Stood(x, path)[|path|] in prev
    requires |lists[Stood(x, path)[|path|]]| > 0 && first == lists[Stood(x, path)[|path|]][0]
    ensures var node := Stood(x, path)[|path|]; Consumed(prev, x, path + [first], lists[node := lists[node][1..]])
  {
    var node := Stood(x, path)[|path|];
    var path', lists' := path + [first], lists[node := lists[node][1..]];
    ShiftCounts(x, path, first);
    forall v | v in prev
      ensures Shifted(x, path', |path'|, v) <= |prev[v]| && lists'[v] == prev[v][Shifted(x, path', |path'|, v)..]
    {
      if v == node {
        assert lists[v][1..] == prev[v][Shifted(x, path, |path|, v) + 1..];
      }
    }
  }

  /** One move of the walk takes the first entry not yet shifted off. */
  lemma MovesKeeps(prev: Lists, x: NodeId, path: seq<NodeId>, lists: Lists, first: NodeId)
    requires Consumed(prev, x, path, lists) && Moves(prev, x, path)
    requires Stood(x, path)[|path|] in prev
    requires |lists[Stood(x, path)[|path|]]| > 0 && first == lists[Stood(x, path)[|path|]][0]
    ensures Moves(prev, x, path + [first])
  {
    var node := Stood(x, path)[|path|];
    var path' := path + [first];
    ShiftCounts(x, path, first);
    assert Stood(x, path')[|path|] == node;
    assert prev[node][Shifted(x, path, |path|, node)..][0] == first;
    forall i | 0 <= i < |path'|
      ensures var w := Stood(x, path')[i];
        w in prev && Shifted(x, path', i, w) < |prev[w]| && path'[i] == prev[w][Shifted(x, path', i, w)]
    {
      if i < |path| {
        assert path'[i] == path[i];
      }
    }
  }

  /** The walk stood on an id of `prev` at each move and took a member of its list. */
  lemma MovesOnLists(prev: Lists, x: NodeId, path: seq<NodeId>)
    requires Moves(prev, x, path)
    ensures forall i :: 0 <= i < |path| ==> Stood(x, path)[i] in prev && path[i] in prev[Stood(x, path)[i]]
  {
    forall i | 0 <= i < |path| ensures Stood(x, path)[i] in prev && path[i] in prev[Stood(x, path)[i]] {
      var w := Stood(x, path)[i];
      assert path[i] == prev[w][Shifted(x, path, i, w)];
    }
  }

  /** The walk back (dfs.tsx:54-59) on the lists `prev`, from `x`: each move
      shifts the first entry off the current id's list and moves to it, and
      the walk stops on an id whose list it has used up. It always stops:
      each move consumes an entry of a finite list. */
  method Unwind(prev: Lists, x: NodeId) returns (path: seq<NodeId>)
    requires x in prev
    requires forall v, k :: v in prev && 0 <= k < |prev[v]| ==> prev[v][k] in prev
    ensures Moves(prev, x, path)
    ensures var w := Stood(x, path)[|path|]; w in prev && Shifted(x, path, |path|, w) == |prev[w]|
  {
    var lists := prev;
    var node := x;
    path := [];
    while |lists[node]| > 0
      invariant node == Stood(x, path)[|path|] && node in prev
      invariant Consumed(prev, x, path, lists) && Moves(prev, x, path)
      decreases Entries(lists)
    {
      ShiftShrinks(lists, node);
      var first := lists[node][0];
      ConsumedKeeps(prev, x, path, lists, first);
      MovesKeeps(prev, x, path, lists, first);
      assert first in prev[node];
      lists := lists[node := lists[node][1..]];
      path := path + [first];
      node := first;
    }
  }

  /** The walk's path reversed, then the goal, is a walk ending at the
      goal: the goal is in the adjacency list of the first pushed id, and
      each pushed id in that of the id pushed after it. */
  lemma {:induction false} UnwindIsWalk(g: Graph, prev: Lists, x: NodeId, path: seq<NodeId>)
    requires forall v, k :: v in prev && 0 <= k < |prev[v]| ==> Edge(g, prev[v][k], v)
    requires Moves(prev, x, path)
    ensures |path| > 0 ==> Edge(g, path[0], x)
    ensures forall i :: 0 <= i < |path| - 1 ==> Edge(g, path[i + 1], path[i])
    ensures IsWalk(g, Reverse(path) + [x])
  {
    MovesOnLists(prev, x, path);
    var W := Stood(x, path);
    forall i | 0 <= i < |path| ensures Edge(g, path[i], W[i]) {
      var k :| 0 <= k < |prev[W[i]]| && prev[W[i]][k] == path[i];
    }
    forall i | 0 <= i < |path| - 1 ensures Edge(g, path[i + 1], path[i]) {
      assert W[i + 1] == path[i];
    }
    ReversedWalk(g, x, path);
  }

  /** A path in which each id is adjacent to the one before it, the first
      to `x`, read backwards and followed by `x` is a walk. */
  lemma {:induction false} ReversedWalk(g: Graph, x: NodeId, path: seq<NodeId>)
    requires |path| > 0 ==> Edge(g, path[0], x)
    requires forall i :: 0 <= i < |path| - 1 ==> Edge(g, path[i + 1], path[i])
    ensures IsWalk(g, Reverse(path) + [x])
    decreases |path|
  {
    if path == [] {
      assert Reverse(path) + [x] == [x];
    } else {
      var rest := path[1..];
      forall i | 0 <= i < |rest| - 1 ensures Edge(g, rest[i + 1], rest[i]) {
        assert Edge(g, path[i + 2], path[i + 1]);
      }
      if rest != [] {
        assert Edge(g, path[1], path[0]);
      }
      ReversedWalk(g, path[0], rest);
      var w := Reverse(rest) + [path[0]];
      assert Reverse(path) + [x] == w + [x];
      var q := w + [x];
      forall i | 0 <= i < |q| - 1 ensures Edge(g, q[i], q[i + 1]) {
        if i < |w| - 1 {
          assert q[i] == w[i] && q[i + 1] == w[i + 1];
        } else {
          assert q[i] == path[0] && q[i + 1] == x;
        }
      }
    }
  }

  /** The loop invariant, `visited` holding the popped ids:
      - `previous` keeps the node ids as keys, and each list entry is
        visited and has its list's owner in its adjacency list;
      - the goal was never visited (popping it ends the search);
      - every stacked id is reachable from the start, and the start was
        stacked or visited;
      - each visited node's neighbours are visited or stacked;
      - with closed adjacency lists and the start a node, the stack only
        holds nodes. */
  ghost predicate Inv(g: Graph, start: NodeId, end: NodeId, stack: seq<NodeId>, visited: set<NodeId>, prev: Lists) {
    && prev.Keys == g.Keys
    && (forall v, k :: v in prev && 0 <= k < |prev[v]| ==> prev[v][k] in visited && Edge(g, prev[v][k], v))
    && end !in visited
    && (forall k :: 0 <= k < |stack| ==> Reachable(g, start, stack[k]))
    && (start in visited || start in stack)
    && (forall u, v :: u in visited && Edge(g, u, v) ==> v in visited || v in stack)
    && (Closed(g) && start in g ==> forall k :: 0 <= k < |stack| ==> stack[k] in g)
  }

  /** The number of pushes expanding `nodes` makes: their degrees summed. */
  function Degrees(g: Graph, nodes: seq<NodeId>): nat {
    if nodes == [] then 0 else Degrees(g, nodes[..|nodes| - 1]) + |Adj(g, nodes[|nodes| - 1])|
  }

  /** Every id on the stack is on the rest of it or is its top. */
  lemma PopSplits(stack: seq<NodeId>)
    requires |stack| > 0
    ensures forall v :: v in stack ==> v in stack[..|stack| - 1] || v == stack[|stack| - 1]
  {
    forall v | v in stack ensures v in stack[..|stack| - 1] || v == stack[|stack| - 1] {
      var k :| 0 <= k < |stack| && stack[k] == v;
      if k < |stack| - 1 { assert stack[..|stack| - 1][k] == v; }
    }
  }

  /** `expanded` lists the visited nodes, each once, and every push is
      still on the stack or was popped by one of the `popped` passes: the
      pushes are the start plus the degrees of the expanded nodes. */
  ghost predicate Tally(g: Graph, visited: set<NodeId>, expanded: seq<NodeId>, stack: seq<NodeId>, popped: nat) {
    && (forall i, j :: 0 <= i < j < |expanded| ==> expanded[i] != expanded[j])
    && (forall v :: v in expanded <==> v in visited && v in g)
    && |stack| + popped == 1 + Degrees(g, expanded)
  }

  /** Popping an id that is no new node keeps the tally. */
  lemma TallySkips(g: Graph, visited: set<NodeId>, expanded: seq<NodeId>, stack: seq<NodeId>, popped: nat)
    requires Tally(g, visited, expanded, stack, popped) && |stack| > 0
    requires stack[|stack| - 1] in visited || stack[|stack| - 1] !in g
    ensures Tally(g, visited + {stack[|stack| - 1]}, expanded, stack[..|stack| - 1], popped + 1)
  {
  }

  /** Popping a new node and pushing its neighbours adds it once and its
      degree to the pushes. */
  lemma TallyGrows(g: Graph, visited: set<NodeId>, expanded: seq<NodeId>, stack: seq<NodeId>, popped: nat)
    requires Tally(g, visited, expanded, stack, popped) && |stack| > 0
    requires stack[|stack| - 1] !in visited && stack[|stack| - 1] in g
    ensures var node := stack[|stack| - 1];
      Tally(g, visited + {node}, expanded + [node], stack[..|stack| - 1] + g[node].adj, popped + 1)
  {
    var node := stack[|stack| - 1];
    var e := expanded + [node];
    assert e[..|expanded|] == expanded;
    forall i, j | 0 <= i < j < |e| ensures e[i] != e[j] {
      if j == |expanded| {
        assert e[i] in expanded;
      }
    }
  }

  /** Popping an id other than the goal that is visited already or is not
      a node keeps the invariant. */
  lemma SkipKeeps(g: Graph, start: NodeId, end: NodeId, stack: seq<NodeId>, visited: set<NodeId>, prev: Lists)
    requires Inv(g, start, end, stack, visited, prev) && |stack| > 0
    requires stack[|stack| - 1] != end
    requires stack[|stack| - 1] in visited || stack[|stack| - 1] !in g
    ensures Inv(g, start, end, stack[..|stack| - 1], visited + {stack[|stack| - 1]}, prev)
  {
    PopSplits(stack);
  }

  /** Popping an unvisited node other than the goal and expanding it keeps
      the invariant. */
  lemma ExpandKeeps(g: Graph, start: NodeId, end: NodeId, stack: seq<NodeId>, visited: set<NodeId>, prev: Lists)
    requires Inv(g, start, end, stack, visited, prev) && |stack| > 0
    requires stack[|stack| - 1] != end && stack[|stack| - 1] !in visited && stack[|stack| - 1] in g
    requires forall v :: v in g[stack[|stack| - 1]].adj ==> v in prev
    ensures var node := stack[|stack| - 1];
      Inv(g, start, end, stack[..|stack| - 1] + g[node].adj, visited + {node}, AppendAll(prev, node, g[node].adj))
  {
    var node := stack[|stack| - 1];
    PopSplits(stack);
    ExpandKeepsLists(g, visited, prev, node);
    ExpandKeepsReach(g, start, stack);
    ExpandKeepsClosure(g, start, stack, visited);
  }

  /** Appending the expanded node to its neighbours' lists keeps the keys,
      and every entry visited and adjacent to its list's owner. */
  lemma ExpandKeepsLists(g: Graph, visited: set<NodeId>, prev: Lists, node: NodeId)
    requires forall v, k :: v in prev && 0 <= k < |prev[v]| ==> prev[v][k] in visited && Edge(g, prev[v][k], v)
    requires node in g && forall v :: v in g[node].adj ==> v in prev
    ensures var p := AppendAll(prev, node, g[node].adj);
      && p.Keys == prev.Keys
      && forall v, k :: v in p && 0 <= k < |p[v]| ==> p[v][k] in visited + {node} && Edge(g, p[v][k], v)
  {
    var adj := g[node].adj;
    var p := AppendAll(prev, node, adj);
    AppendAllFacts(prev, node, adj);
    forall v, k | v in p && 0 <= k < |p[v]| ensures p[v][k] in visited + {node} && Edge(g, p[v][k], v) {
      if k < |prev[v]| {
        assert p[v][k] == prev[v][k];
      } else {
        assert multiset(adj)[v] > 0;
      }
    }
  }

  /** Replacing the top of a stack of reachable ids by its neighbours keeps
      every stacked id reachable. */
  lemma ExpandKeepsReach(g: Graph, start: NodeId, stack: seq<NodeId>)
    requires |stack| > 0 && stack[|stack| - 1] in g
    requires forall k :: 0 <= k < |stack| ==> Reachable(g, start, stack[k])
    ensures var s := stack[..|stack| - 1] + g[stack[|stack| - 1]].adj;
      forall k :: 0 <= k < |s| ==> Reachable(g, start, s[k])
  {
    var node := stack[|stack| - 1];
    var rest := stack[..|stack| - 1];
    var adj := g[node].adj;
    var s := rest + adj;
    assert Reachable(g, start, node);
    forall k | 0 <= k < |s| ensures Reachable(g, start, s[k]) {
      if k < |rest| {
        assert s[k] == stack[k];
      } else {
        assert s[k] == adj[k - |rest|];
        ReachableStep(g, start, node, s[k]);
      }
    }
  }

  /** Visiting the top of the stack and replacing it by its neighbours keeps
      each visited id's neighbours visited or stacked, the start visited or
      stacked, and, with closed adjacency lists, the stack made of nodes. */
  lemma ExpandKeepsClosure(g: Graph, start: NodeId, stack: seq<NodeId>, visited: set<NodeId>)
    requires |stack| > 0 && stack[|stack| - 1] in g
    requires forall v :: v in stack ==> v in stack[..|stack| - 1] || v == stack[|stack| - 1]
    requires forall u, v :: u in visited && Edge(g, u, v) ==> v in visited || v in stack
    requires start in visited || start in stack
    requires Closed(g) && start in g ==> forall k :: 0 <= k < |stack| ==> stack[k] in g
    ensures var node := stack[|stack| - 1];
      var s := stack[..|stack| - 1] + g[node].adj;
      && (forall u, v :: u in visited + {node} && Edge(g, u, v) ==> v in visited + {node} || v in s)
      && (start in visited + {node} || start in s)
      && (Closed(g) && start in g ==> forall k :: 0 <= k < |s| ==> s[k] in g)
  {
    var node := stack[|stack| - 1];
    var rest := stack[..|stack| - 1];
    var adj := g[node].adj;
    var s := rest + adj;
    forall u, v | u in visited + {node} && Edge(g, u, v) ensures v in visited + {node} || v in s {
      if u == node {
        var k :| 0 <= k < |adj| && adj[k] == v;
        assert s[|rest| + k] == v;
      } else if v in stack && v != node {
        var k :| 0 <= k < |rest| && rest[k] == v;
        assert s[k] == v;
      }
    }
    forall k | Closed(g) && start in g && 0 <= k < |s| ensures s[k] in g {
      if k < |rest| { assert s[k] == stack[k]; } else { assert s[k] == adj[k - |rest|]; }
    }
    assert start in visited + {node} || start in s by {
      if start in rest { var k :| 0 <= k < |rest| && rest[k] == start; assert s[k] == start; }
    }
  }

  /** With the stack exhausted the visited ids are closed under edges, so
      a goal never visited is unreachable. */
  lemma ExhaustedUnreachable(g: Graph, start: NodeId, end: NodeId, visited: set<NodeId>, prev: Lists)
    requires Inv(g, start, end, [], visited, prev)
    ensures !Reachable(g, start, end)
  {
    if Reachable(g, start, end) {
      ClosedSetContainsReachable(g, start, end, visited, g.Keys + {end});
    }
  }

  /** Popping the goal (dfs.tsx:53-61): the walk back from it, or a
      TypeError when the goal has no list. The path leaves the goal out, its
      first id has the goal in its adjacency list and each later id has the
      one before it in its own; reversed and followed by the goal it is a
      walk. */
  method Finish(g: Graph, start: NodeId, end: NodeId, prev: Lists, ghost stack: seq<NodeId>, ghost visited: set<NodeId>)
    returns (r: Outcome)
    requires Inv(g, start, end, stack, visited, prev) && |stack| > 0 && stack[|stack| - 1] == end
    ensures r.Path? || r.Fault?
    ensures r.Fault? <==> end !in g
    ensures r.Path? ==> end !in r.path && Reachable(g, start, end)
    ensures r.Path? && |r.path| > 0 ==> Edge(g, r.path[0], end)
    ensures r.Path? ==> forall i :: 0 <= i < |r.path| - 1 ==> Edge(g, r.path[i + 1], r.path[i])
    ensures r.Path? ==> IsWalk(g, Reverse(r.path) + [end])
    ensures end in prev && prev[end] == [] ==> r == Path([])
  {
    if end !in prev {
      r := Fault;
      return;
    }
    var path := Unwind(prev, end);
    UnwindIsWalk(g, prev, end, path);
    MovesOnLists(prev, end, path);
    forall i | 0 <= i < |path| ensures path[i] != end {
      var k :| 0 <= k < |prev[Stood(end, path)[i]]| && prev[Stood(end, path)[i]][k] == path[i];
    }
    if path != [] {
      assert Shifted(end, path, 0, end) < |prev[end]|;
    }
    r := Path(path);
  }

  /** What popping the goal or a TypeError may end the search with. */
  ghost predicate Ended(g: Graph, start: NodeId, end: NodeId, r: Outcome) {
    && !r.NoPath?
    && (r.Path? ==> end !in r.path && Reachable(g, start, end))
    && (r.Path? && |r.path| > 0 ==> Edge(g, r.path[0], end))
    && (r.Path? ==> forall i :: 0 <= i < |r.path| - 1 ==> Edge(g, r.path[i + 1], r.path[i]))
    && (r.Path? ==> IsWalk(g, Reverse(r.path) + [end]))
  }

  /** One pass of the loop after the render bookkeeping (dfs.tsx:35-37,
      53-73): pop the top of the stack; the goal ends the search; an
      unvisited id is visited and, when it is a node, expanded. A pass that
      does not end the search keeps the invariant and the tally, and either
      visits a new node or shrinks the stack. */
  method Pop(g: Graph, start: NodeId, end: NodeId, stack: seq<NodeId>, visited: set<NodeId>, prev: Lists,
             ghost expanded: seq<NodeId>, ghost popped: nat)
    returns (r: Option<Outcome>, stack': seq<NodeId>, visited': set<NodeId>, prev': Lists,
             ghost expanded': seq<NodeId>)
    requires Inv(g, start, end, stack, visited, prev) && Tally(g, visited, expanded, stack, popped) && |stack| > 0
    ensures r.Some? ==> Ended(g, start, end, r.value) && expanded' == expanded
    ensures r.Some? && r.value.Fault? ==> !(Closed(g) && start in g)
    ensures stack == [start] && start == end && (forall v :: v in prev ==> prev[v] == []) ==>
      r == Some(if start in g then Path([]) else Fault)
    ensures r.None? ==> Inv(g, start, end, stack', visited', prev') && Tally(g, visited', expanded', stack', popped + 1)
    ensures r.None? ==> (g.Keys - visited' < g.Keys - visited) || (g.Keys - visited' == g.Keys - visited && |stack'| < |stack|)
  {
    var node := stack[|stack| - 1];
    stack', visited', prev', expanded' := stack[..|stack| - 1], visited, prev, expanded;
    r := None;
    if node == end {
      var out := Finish(g, start, end, prev, stack, visited);
      r := Some(out);
      return;
    }
    if node !in visited {
      visited' := visited + {node};
      if node in g {
        var ok;
        ok, stack', prev' := Expand(g, node, stack', prev);
        if !ok {
          r := Some(Fault);
          return;
        }
        ExpandKeeps(g, start, end, stack, visited, prev);
        TallyGrows(g, visited, expanded, stack, popped);
        expanded' := expanded + [node];
        return;
      }
    }
    SkipKeeps(g, start, end, stack, visited, prev);
    TallySkips(g, visited, expanded, stack, popped);
  }

  /** The whole search (dfs.tsx:15-76). `delay` is the delay argument and
      `flush(total)` the batch test `total % (0.0001 * total) === 0`;
      `sent` holds the arrays passed to the callback and `passes` is the
      final `total`, the number of passes made. The ghost `expanded` lists
      the expanded nodes in order.

      - A found path leaves the goal out: its first id has the goal in its
        adjacency list, and each id has the one before it in its own;
        reversed and followed by the goal it is a walk.
      - `false` exactly when the goal is unreachable, once no TypeError is
        possible (closed adjacency lists, the start a node).
      - `start == end` returns the empty path, or throws for a non-node.
      - Each node is expanded at most once, and each pass pops one of the
        pushes: the start and the neighbours of the expanded nodes. So there
        are at most one pass plus the sum of the degrees of the nodes, and
        exactly that many when the stack runs empty.
      - The callback fires only when `delay > 0`. */
  method Search(g: Graph, start: NodeId, end: NodeId, delay: real, flush: nat -> bool)
    returns (r: Outcome, sent: seq<seq<NodeId>>, passes: nat, ghost expanded: seq<NodeId>)
    ensures r.Path? ==> end !in r.path && Reachable(g, start, end)
    ensures r.Path? && |r.path| > 0 ==> Edge(g, r.path[0], end)
    ensures r.Path? ==> forall i :: 0 <= i < |r.path| - 1 ==> Edge(g, r.path[i + 1], r.path[i])
    ensures r.Path? ==> IsWalk(g, Reverse(r.path) + [end])
    ensures r.NoPath? ==> !Reachable(g, start, end)
    ensures Closed(g) && start in g ==> !r.Fault? && (r.Path? <==> Reachable(g, start, end))
    ensures start == end ==> r == if start in g then Path([]) else Fault
    ensures forall i, j :: 0 <= i < j < |expanded| ==> expanded[i] != expanded[j]
    ensures forall i :: 0 <= i < |expanded| ==> expanded[i] in g
    ensures passes <= 1 + Degrees(g, expanded)
    ensures r.NoPath? ==> passes == 1 + Degrees(g, expanded)
    ensures delay <= 0.0 ==> sent == []
  {
    var stack := [start];
    var visited: set<NodeId> := {};
    var prev := Init(g);
    var total: nat := 0;
    var nextRender: seq<NodeId> := [];
    sent, expanded := [], [];
    ReachableRefl(g, start);
    assert Tally(g, visited, expanded, stack, total);
    while |stack| > 0
      invariant Inv(g, start, end, stack, visited, prev) && Tally(g, visited, expanded, stack, total)
      invariant start == end ==> stack == [start] && forall v :: v in prev ==> prev[v] == []
      invariant delay <= 0.0 ==> sent == []
      decreases g.Keys - visited, |stack|
    {
      var node := stack[|stack| - 1];
      if total % 50 == 0 {
        nextRender := nextRender + [node];
      }
      total := total + 1;
      if flush(total) {
        if delay > 0.0 {
          sent := sent + [nextRender];
        }
        nextRender := [];
      }
      var out;
      out, stack, visited, prev, expanded := Pop(g, start, end, stack, visited, prev, expanded, total - 1);
      if out.Some? {
        r, passes := out.value, total;
        return;
      }
    }
    ExhaustedUnreachable(g, start, end, visited, prev);
    r, passes := NoPath, total;
  }
}
