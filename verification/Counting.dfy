/** How many prerequisites a resource still waits for, parallel edges counted each. */
module Counting {
  import opened Document
  import opened Sorting
  import opened Topology

  function Waiting(edges: seq<Edge>, r: Ref, done: set<Ref>): nat {
    if edges == [] then 0
    else
      var last := edges[|edges| - 1];
      Waiting(edges[..|edges| - 1], r, done) + if last.to == r && last.from !in done then 1 else 0
  }

  lemma {:induction false} WaitingZero(edges: seq<Edge>, r: Ref, done: set<Ref>)
    ensures Waiting(edges, r, done) == 0 <==> forall e :: e in edges && e.to == r ==> e.from in done
  {
    if edges != [] {
      var init, last := edges[..|edges| - 1], edges[|edges| - 1];
      WaitingZero(init, r, done);
      assert edges == init + [last];
    }
  }

  /** Placing next releases exactly the edges that leave it. */
  lemma {:induction false} PlacingReleases(edges: seq<Edge>, r: Ref, done: set<Ref>, next: Ref)
    requires next !in done
    ensures Waiting(edges, r, done + {next}) == Waiting(edges, r, done) - Waiting(Outgoing(edges, next), r, {})
  {
    if edges != [] {
      var init, last := edges[..|edges| - 1], edges[|edges| - 1];
      PlacingReleases(init, r, done, next);
      var before := Outgoing(init, next);
      if last.from == next {
        assert Outgoing(edges, next)[..|before|] == before;
      } else {
        assert Outgoing(edges, next) == before;
      }
    }
  }

  lemma {:induction false} WaitingPrefix(edges: seq<Edge>, r: Ref, n: nat)
    requires n <= |edges|
    ensures Waiting(edges[..n], r, {}) <= Waiting(edges, r, {})
  {
    if n < |edges| {
      WaitingPrefix(edges[..|edges| - 1], r, n);
      assert edges[..|edges| - 1][..n] == edges[..n];
    } else {
      assert edges[..n] == edges;
    }
  }

  // Releasing the edges of one placed resource, edge by edge

  ghost predicate Released(nodes: set<Ref>, counts: map<Ref, int>, out: seq<Edge>, waitingFor: map<Ref, int>, freed: seq<Ref>)
    requires counts.Keys == nodes
  {
    && waitingFor.Keys == nodes
    && (forall r :: r in nodes ==> waitingFor[r] == counts[r] - Waiting(out, r, {}))
    && Distinct(freed)
    && (forall r :: r in freed <==> r in nodes && Waiting(out, r, {}) > 0 && waitingFor[r] == 0)
  }

  lemma ReleaseOne(nodes: set<Ref>, counts: map<Ref, int>, out: seq<Edge>, e: Edge,
                   waitingFor: map<Ref, int>, freed: seq<Ref>)
    requires counts.Keys == nodes && Released(nodes, counts, out, waitingFor, freed)
    requires e.to in nodes && Waiting(out + [e], e.to, {}) <= counts[e.to]
    ensures
      var waitingFor' := waitingFor[e.to := waitingFor[e.to] - 1];
      Released(nodes, counts, out + [e], waitingFor', if waitingFor'[e.to] == 0 then freed + [e.to] else freed)
  {
    assert (out + [e])[..|out|] == out;
    forall r: Ref ensures Waiting(out + [e], r, {}) == Waiting(out, r, {}) + if e.to == r then 1 else 0 {}
  }

  lemma OutgoingWithin(nodes: set<Ref>, edges: seq<Edge>, ref: Ref)
    requires Within(nodes, edges)
    ensures forall j :: 0 <= j < |Outgoing(edges, ref)| ==> Outgoing(edges, ref)[j].to in nodes
  {
    OutgoingMembers(edges, ref);
    forall j | 0 <= j < |Outgoing(edges, ref)| ensures Outgoing(edges, ref)[j].to in nodes {
      assert Outgoing(edges, ref)[j] in edges;
    }
  }

  /** A released edge was counted, so no count goes below zero on the way. */
  lemma ReleasableOnce(edges: seq<Edge>, done: set<Ref>, next: Ref, to: Ref, n: nat)
    requires next !in done && n <= |Outgoing(edges, next)|
    ensures Waiting(Outgoing(edges, next)[..n], to, {}) <= Waiting(edges, to, done)
  {
    PlacingReleases(edges, to, done, next);
    WaitingPrefix(Outgoing(edges, next), to, n);
  }

  /** Kahn's release step is exact: the freed resources are those next alone held back. */
  lemma ReleaseAll(nodes: set<Ref>, edges: seq<Edge>, done: set<Ref>, next: Ref, counts: map<Ref, int>,
                   waitingFor: map<Ref, int>, freed: seq<Ref>)
    requires next !in done && Exact(nodes, edges, done, counts)
    requires Released(nodes, counts, Outgoing(edges, next), waitingFor, freed)
    ensures Exact(nodes, edges, done + {next}, waitingFor)
    ensures forall r :: r in freed <==> r in nodes && counts[r] > 0 && waitingFor[r] == 0
  {
    forall r | r in nodes
      ensures waitingFor[r] == Waiting(edges, r, done + {next})
      ensures r in freed <==> counts[r] > 0 && waitingFor[r] == 0
    {
      PlacingReleases(edges, r, done, next);
    }
  }

  // Kahn's algorithm: what holds between two rounds

  /** The counts are exact, ready lists what waits for nothing, and placed is a greedy prefix. */
  ghost predicate Progress(nodes: set<Ref>, edges: seq<Edge>, placed: seq<Ref>, ready: seq<Ref>,
                           waitingFor: map<Ref, int>)
  {
    && Exact(nodes, edges, Members(placed), waitingFor)
    && Distinct(ready) && Sorted(Before, ready)
    && (forall r :: r in ready <==> r in nodes && r !in placed && waitingFor[r] == 0)
    && Distinct(placed)
    && IsGreedy(nodes, edges, placed)
  }

  ghost predicate Exact(nodes: set<Ref>, edges: seq<Edge>, done: set<Ref>, waitingFor: map<Ref, int>) {
    waitingFor.Keys == nodes && forall r :: r in nodes ==> waitingFor[r] == Waiting(edges, r, done)
  }

  function Members(s: seq<Ref>): set<Ref> {
    set r | r in s
  }

  lemma ReadyIsZero(nodes: set<Ref>, edges: seq<Edge>, placed: seq<Ref>, waitingFor: map<Ref, int>, r: Ref)
    requires Exact(nodes, edges, Members(placed), waitingFor)
    ensures Ready(nodes, edges, placed, r) <==> r in nodes && r !in placed && waitingFor[r] == 0
  {
    WaitingZero(edges, r, Members(placed));
  }

  lemma PlaceFirst(nodes: set<Ref>, edges: seq<Edge>, placed: seq<Ref>, ready: seq<Ref>, waitingFor: map<Ref, int>)
    requires Progress(nodes, edges, placed, ready, waitingFor) && ready != []
    ensures ready[0] in nodes && ready[0] !in placed
    ensures Sorted(Before, ready[1..])
    ensures Distinct(placed + [ready[0]]) && IsGreedy(nodes, edges, placed + [ready[0]])
  {
    var next, placed' := ready[0], placed + [ready[0]];
    assert next in ready;
    forall i | 0 <= i < |placed'|
      ensures Ready(nodes, edges, placed'[..i], placed'[i])
      ensures forall r :: r in nodes && Ready(nodes, edges, placed'[..i], r) ==> !Before(r, placed'[i])
    {
      if i < |placed| {
        assert placed'[..i] == placed[..i];
      } else {
        assert placed'[..i] == placed;
        ReadyIsZero(nodes, edges, placed, waitingFor, next);
        forall r | r in nodes && Ready(nodes, edges, placed, r) ensures !Before(r, next) {
          ReadyIsZero(nodes, edges, placed, waitingFor, r);
          assert r in ready;
          BeforeTotal(r, r);
        }
      }
    }
  }

  /** The next round: next has left the list, and what it alone held back has joined it. */
  lemma NextRound(nodes: set<Ref>, edges: seq<Edge>, placed: seq<Ref>, ready: seq<Ref>, waitingFor: map<Ref, int>,
                  freed: seq<Ref>, ready': seq<Ref>, waitingFor': map<Ref, int>)
    requires Progress(nodes, edges, placed, ready, waitingFor) && ready != []
    requires Exact(nodes, edges, Members(placed) + {ready[0]}, waitingFor')
    requires Distinct(freed)
    requires forall r :: r in freed <==> r in nodes && waitingFor[r] > 0 && waitingFor'[r] == 0
    requires multiset(ready') == multiset(ready[1..] + freed) && Sorted(Before, ready')
    ensures Progress(nodes, edges, placed + [ready[0]], ready', waitingFor')
  {
    var next := ready[0];
    PlaceFirst(nodes, edges, placed, ready, waitingFor);
    hide IsGreedy;
    hide Ready;
    hide Before;
    assert Members(placed + [next]) == Members(placed) + {next};
    var list := ready[1..] + freed;
    assert forall r :: r in ready <==> r == next || r in ready[1..] by {
      assert ready == [next] + ready[1..];
    }
    assert Distinct(list) by {
      forall i, j | 0 <= i < j < |list| ensures list[i] != list[j] {
        if i < |ready[1..]| <= j {
          assert list[i] in ready && list[j] in freed;
        }
      }
    }
    SameMembers(ready', list);
    forall r ensures r in ready' <==> r in nodes && r !in placed + [next] && waitingFor'[r] == 0 {
      if r in nodes {
        WaitingZero(edges, r, Members(placed));
        WaitingZero(edges, r, Members(placed) + {next});
      }
      assert r in list <==> r in ready[1..] || r in freed;
      if r in freed {
        ReadyIsZero(nodes, edges, placed, waitingFor, next);
        PlacedIsZero(nodes, edges, placed, waitingFor, r);
      }
      assert next !in ready[1..];
    }
  }

  lemma PlacedIsZero(nodes: set<Ref>, edges: seq<Edge>, placed: seq<Ref>, waitingFor: map<Ref, int>, r: Ref)
    requires Exact(nodes, edges, Members(placed), waitingFor) && IsGreedy(nodes, edges, placed) && r in nodes
    ensures r in placed ==> waitingFor[r] == 0
  {
    if r in placed {
      var i :| 0 <= i < |placed| && placed[i] == r;
      assert Ready(nodes, edges, placed[..i], placed[i]);
      WaitingZero(edges, r, Members(placed));
    }
  }

  /** When nothing is ready any more, the resources left over wait for each other. */
  lemma NothingReady(nodes: set<Ref>, edges: seq<Edge>, placed: seq<Ref>, waitingFor: map<Ref, int>)
    requires Within(nodes, edges) && Progress(nodes, edges, placed, [], waitingFor)
    ensures |placed| == |nodes| ==> LeastTopological(nodes, edges, placed) && Acyclic(edges)
    ensures |placed| != |nodes| ==> Stuck(waitingFor) != {} && Deadlocked(edges, Stuck(waitingFor))
  {
    DistinctCount(placed);
    forall r | r in placed ensures r in nodes {
      var i :| 0 <= i < |placed| && placed[i] == r;
      assert Ready(nodes, edges, placed[..i], placed[i]);
    }
    assert Members(placed) <= nodes;
    var left := nodes - Members(placed);
    assert |nodes| == |Members(placed)| + |left| by {
      assert nodes == Members(placed) + left;
    }
    if |placed| == |nodes| {
      assert left == {};
      assert forall r :: r in nodes ==> r in placed by {
        forall r | r in nodes ensures r in placed {
          assert r !in left;
        }
      }
      GreedyIsTopological(nodes, edges, placed);
      GreedyIsLeast(nodes, edges, placed);
    } else {
      var r :| r in left;
      assert r !in [];
      assert r in Stuck(waitingFor);
      forall r | r in Stuck(waitingFor) ensures HeldBack(edges, Stuck(waitingFor), r) {
        WaitingZero(edges, r, Members(placed));
        var e :| e in edges && e.to == r && e.from !in Members(placed);
        assert e.from in nodes && e.from !in placed;
      }
    }
  }

  function Stuck(waitingFor: map<Ref, int>): set<Ref> {
    set r | r in waitingFor && waitingFor[r] > 0
  }

  /** Resources still waiting, each of them for another one that is. */
  predicate Deadlocked(edges: seq<Edge>, stuck: set<Ref>) {
    forall r {:trigger HeldBack(edges, stuck, r)} :: r in stuck ==> HeldBack(edges, stuck, r)
  }

  predicate HeldBack(edges: seq<Edge>, stuck: set<Ref>, r: Ref) {
    exists e :: e in edges && e.to == r && e.from in stuck
  }
}
