/** The progress batches A* and greedy best-first hand to their callback
    (src/algorithms/astar.tsx:110-121, greedy.tsx:86-99, 102): a popped id
    is added to `nextRender` when the pass is a rendering one and the id was
    never rendered; whenever `nextRender.size % 10 === 0` the batch is sent
    and a fresh one begun. The callback itself, the timer stop/start around
    it and the `sleep` are not modelled; a batch sent is recorded in `sent`. */
module Render {
  import opened Graph

  datatype Batches = Batches(rendered: set<NodeId>, next: set<NodeId>, sent: seq<set<NodeId>>)

  /** The empty state of `rendered`, `nextRender` and the callback log. */
  function Initial(): (b: Batches)
    ensures Sound(b) && b.sent == [] && b.rendered == {}
  {
    Batches({}, {}, [])
  }

  /** Every id ever added to a batch is in `rendered`, and no id is in two
      batches, sent or pending. */
  ghost predicate Sound(b: Batches) {
    && b.next <= b.rendered
    && (forall i :: 0 <= i < |b.sent| ==> b.sent[i] <= b.rendered && b.sent[i] !! b.next)
    && Disjoint(b.sent)
  }

  /** One pass over popped id `id`; `take` is the pass's render test
      (`total % 2 == 0`). At most one batch is sent; an id joins a batch only
      on a rendering pass and only if it was never rendered before, and the
      popped id does then join one; the ids already waiting stay waiting or
      go out in the batch sent. */
  function Note(b: Batches, id: NodeId, take: bool): (r: Batches)
    ensures Sound(b) ==> Sound(r)
    ensures r.rendered == if take then b.rendered + {id} else b.rendered
    ensures r.sent == b.sent || (|r.sent| == |b.sent| + 1 && r.sent[..|b.sent|] == b.sent && r.next == {})
    ensures forall x :: x in r.next || (|r.sent| > |b.sent| && x in r.sent[|b.sent|]) ==>
      x in b.next || (take && x == id && id !in b.rendered)
    ensures take && id !in b.rendered ==> id in r.next || (|r.sent| > |b.sent| && id in r.sent[|b.sent|])
    ensures b.next <= r.next + (if |r.sent| > |b.sent| then r.sent[|b.sent|] else {})
  {
    var next := if take && id !in b.rendered then b.next + {id} else b.next;
    var rendered := if take then b.rendered + {id} else b.rendered;
    if |next| % 10 == 0 then Batches(rendered, {}, b.sent + [next])
    else Batches(rendered, next, b.sent)
  }

  /** The last `cb(nextRender)` on reaching the goal (greedy.tsx:102): the
      pending batch is sent too, and still no id is in two batches. */
  function Final(b: Batches): (sent: seq<set<NodeId>>)
    ensures |sent| == |b.sent| + 1 && sent[..|b.sent|] == b.sent && sent[|b.sent|] == b.next
    ensures Sound(b) ==> Disjoint(sent)
  {
    b.sent + [b.next]
  }

  /** No id is in two of the batches. */
  ghost predicate Disjoint(sent: seq<set<NodeId>>) {
    forall i, j :: 0 <= i < j < |sent| ==> sent[i] !! sent[j]
  }
}
