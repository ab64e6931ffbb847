/** What a failure takes out of a pass: every resource that depends on it, at any distance. */
module Blocking {
  import opened Document
  import opened Topology
  import opened Counting
  import opened Graph

  datatype BlockReason = CouldNotBeRead | DidNotVerify(ref: Ref) | DidFail(ref: Ref)

  type BlockedBy = map<Ref, BlockReason>

  ghost predicate Closed(edges: seq<Edge>, marked: set<Ref>) {
    forall e :: e in edges && e.from in marked ==> e.to in marked
  }

  /** What blocking adds: exactly the resources downstream that were not blocked already. */
  ghost predicate BlockedBelow(edges: seq<Edge>, before: BlockedBy, after: BlockedBy, ref: Ref, reason: BlockReason) {
    && (forall r :: r in after <==> r in before || Downstream(edges, ref, r))
    && (forall r :: r in before ==> r in after && after[r] == before[r])
    && (forall r :: r in after && r !in before ==> after[r] == reason)
  }

  ghost predicate Marking(edges: seq<Edge>, before: BlockedBy, now: BlockedBy, ref: Ref, reason: BlockReason) {
    && (forall r :: r in now ==> r in before || Downstream(edges, ref, r))
    && (forall r :: r in before ==> r in now && now[r] == before[r])
    && (forall r :: r in now && r !in before ==> now[r] == reason)
  }

  lemma MarkOne(edges: seq<Edge>, before: BlockedBy, now: BlockedBy, ref: Ref, reason: BlockReason, current: Ref, to: Ref)
    requires Marking(edges, before, now, ref, reason) && Closed(edges, before.Keys)
    requires current == ref || current in now
    requires Linked(edges, current, to) && to !in now
    ensures Marking(edges, before, now[to := reason], ref, reason)
  {
    assert exists e :: e in edges && e.from == current && e.to == to;
    if current !in before {
      DownstreamEdge(edges, current, to);
      if current != ref {
        DownstreamTransitive(edges, ref, current, to);
      }
    }
  }

  lemma MarkedAll(edges: seq<Edge>, before: BlockedBy, now: BlockedBy, ref: Ref, reason: BlockReason)
    requires Marking(edges, before, now, ref, reason)
    requires forall e :: e in edges && (e.from in now || e.from == ref) ==> e.to in now
    ensures BlockedBelow(edges, before, now, ref, reason) && Closed(edges, now.Keys)
  {
    forall r | Downstream(edges, ref, r) ensures r in now {
      ClosedUnderPaths(edges, now.Keys, ref, r);
    }
  }

  /** Everything reached leads on to something marked, but for what is still queued. */
  ghost predicate Explored(edges: seq<Edge>, now: BlockedBy, ref: Ref, pending: seq<Ref>) {
    && (forall q :: q in pending ==> q == ref || q in now)
    && forall e :: e in edges && (e.from in now || e.from == ref) && e.from !in pending ==> e.to in now
  }

  /**
   * Breadth first from the failure. A resource already blocked is not followed again, which is
   * enough because everything below it was blocked with it.
   */
  method Block(g: Graph, before: BlockedBy, ref: Ref, reason: BlockReason) returns (blocked: BlockedBy)
    requires g.WellFormed() && Closed(g.edges, before.Keys)
    ensures BlockedBelow(g.edges, before, blocked, ref, reason) && Closed(g.edges, blocked.Keys)
  {
    blocked := before;
    var queue := [ref];
    while queue != []
      invariant Marking(g.edges, before, blocked, ref, reason)
      invariant Explored(g.edges, blocked, ref, queue)
      decreases g.nodes.Keys - blocked.Keys, |queue|
    {
      var current := queue[0];
      assert current in queue;
      assert queue == [current] + queue[1..];
      var deps := g.Dependents(current);
      OutgoingMembers(g.edges, current);
      OutgoingWithin(g.nodes.Keys, g.edges, current);
      blocked, queue := MarkDependents(g.edges, g.nodes.Keys, before, blocked, ref, reason, current, deps, queue[1..]);
    }
    MarkedAll(g.edges, before, blocked, ref, reason);
  }

  method MarkDependents(ghost edges: seq<Edge>, ghost nodes: set<Ref>, ghost before: BlockedBy, marked: BlockedBy, ghost ref: Ref,
                        reason: BlockReason, ghost current: Ref, deps: seq<Edge>, rest: seq<Ref>)
    returns (blocked: BlockedBy, queue: seq<Ref>)
    requires Closed(edges, before.Keys) && Marking(edges, before, marked, ref, reason)
    requires Explored(edges, marked, ref, [current] + rest)
    requires forall e :: e in deps <==> e in edges && e.from == current
    requires forall k :: 0 <= k < |deps| ==> deps[k].to in nodes
    ensures Marking(edges, before, blocked, ref, reason)
    ensures Explored(edges, blocked, ref, queue)
    ensures (blocked == marked && queue == rest) || nodes - blocked.Keys < nodes - marked.Keys
  {
    blocked, queue := marked, rest;
    for k := 0 to |deps|
      invariant Marking(edges, before, blocked, ref, reason)
      invariant Explored(edges, blocked, ref, [current] + queue)
      invariant forall e :: e in deps[..k] ==> e.to in blocked
      invariant marked.Keys <= blocked.Keys
      invariant (blocked == marked && queue == rest) || nodes - blocked.Keys < nodes - marked.Keys
    {
      var to := deps[k].to;
      assert deps[..k + 1] == deps[..k] + [deps[k]];
      if to in blocked {
        continue;
      }
      MarkNext(edges, before, blocked, ref, reason, current, deps[k], queue);
      assert to in nodes - blocked.Keys;
      blocked := blocked[to := reason];
      queue := queue + [to];
    }
    assert deps[..|deps|] == deps;
  }

  lemma MarkNext(edges: seq<Edge>, before: BlockedBy, now: BlockedBy, ref: Ref, reason: BlockReason, current: Ref, e: Edge, queue: seq<Ref>)
    requires Closed(edges, before.Keys) && Marking(edges, before, now, ref, reason)
    requires Explored(edges, now, ref, [current] + queue)
    requires e in edges && e.from == current && e.to !in now
    ensures Marking(edges, before, now[e.to := reason], ref, reason)
    ensures Explored(edges, now[e.to := reason], ref, [current] + (queue + [e.to]))
  {
    assert current in [current] + queue;
    assert Linked(edges, current, e.to);
    MarkOne(edges, before, now, ref, reason, current, e.to);
    assert [current] + (queue + [e.to]) == [current] + queue + [e.to];
  }
}
