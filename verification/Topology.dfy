/** The edge relation of a manifest, and what it means to order it. */
module Topology {
  import opened Document

  datatype EdgeKind = Requires | RestartOn | ReloadOn {
    predicate Triggers() {
      RestartOn? || ReloadOn?
    }
  }

  /** from has to be placed before to. */
  datatype Edge = Edge(from: Ref, to: Ref, kind: EdgeKind)

  predicate Within(nodes: set<Ref>, edges: seq<Edge>) {
    forall e :: e in edges ==> e.from in nodes && e.to in nodes
  }

  predicate Linked(edges: seq<Edge>, from: Ref, to: Ref) {
    exists e :: e in edges && e.from == from && e.to == to
  }

  function Incoming(edges: seq<Edge>, ref: Ref): seq<Edge> {
    if edges == [] then []
    else
      var last := edges[|edges| - 1];
      Incoming(edges[..|edges| - 1], ref) + if last.to == ref then [last] else []
  }

  function Outgoing(edges: seq<Edge>, ref: Ref): seq<Edge> {
    if edges == [] then []
    else
      var last := edges[|edges| - 1];
      Outgoing(edges[..|edges| - 1], ref) + if last.from == ref then [last] else []
  }

  lemma {:induction false} IncomingMembers(edges: seq<Edge>, ref: Ref)
    ensures forall e :: e in Incoming(edges, ref) <==> e in edges && e.to == ref
  {
    if edges != [] {
      var init, last := edges[..|edges| - 1], edges[|edges| - 1];
      IncomingMembers(init, ref);
      assert edges == init + [last];
    }
  }

  lemma {:induction false} OutgoingMembers(edges: seq<Edge>, ref: Ref)
    ensures forall e :: e in Outgoing(edges, ref) <==> e in edges && e.from == ref
  {
    if edges != [] {
      var init, last := edges[..|edges| - 1], edges[|edges| - 1];
      OutgoingMembers(init, ref);
      assert edges == init + [last];
    }
  }

  // Paths

  /** Consecutive entries are joined by edges, each waiting for the one before it. */
  ghost predicate IsPath(edges: seq<Edge>, p: seq<Ref>) {
    forall i :: 0 <= i < |p| - 1 ==> Linked(edges, p[i], p[i + 1])
  }

  /** to waits for from, directly or through others. */
  ghost predicate Downstream(edges: seq<Edge>, from: Ref, to: Ref) {
    exists p :: IsPath(edges, p) && |p| >= 2 && p[0] == from && p[|p| - 1] == to
  }

  ghost predicate Acyclic(edges: seq<Edge>) {
    forall r :: !Downstream(edges, r, r)
  }

  lemma PathWitness(edges: seq<Edge>, p: seq<Ref>)
    requires IsPath(edges, p) && |p| >= 2
    ensures Downstream(edges, p[0], p[|p| - 1])
  {
  }

  lemma DownstreamEdge(edges: seq<Edge>, from: Ref, to: Ref)
    requires Linked(edges, from, to)
    ensures Downstream(edges, from, to)
  {
    var p := [from, to];
    assert IsPath(edges, p) && p[0] == from && p[|p| - 1] == to;
  }

  lemma DownstreamTransitive(edges: seq<Edge>, a: Ref, b: Ref, c: Ref)
    requires Downstream(edges, a, b) && Downstream(edges, b, c)
    ensures Downstream(edges, a, c)
  {
    var p :| IsPath(edges, p) && |p| >= 2 && p[0] == a && p[|p| - 1] == b;
    var q :| IsPath(edges, q) && |q| >= 2 && q[0] == b && q[|q| - 1] == c;
    var pq := p + q[1..];
    forall i | 0 <= i < |pq| - 1 ensures Linked(edges, pq[i], pq[i + 1]) {
      if i < |p| - 1 {
        assert Linked(edges, p[i], p[i + 1]);
      } else {
        assert Linked(edges, q[i - |p| + 1], q[i - |p| + 2]);
      }
    }
    assert IsPath(edges, pq) && pq[0] == a && pq[|pq| - 1] == c;
  }

  /** A set closed under edges holds everything downstream of its members. */
  lemma {:induction false} ClosedUnderPaths(edges: seq<Edge>, closed: set<Ref>, from: Ref, to: Ref)
    requires forall e :: e in edges && (e.from in closed || e.from == from) ==> e.to in closed
    requires Downstream(edges, from, to)
    ensures to in closed
  {
    var p :| IsPath(edges, p) && |p| >= 2 && p[0] == from && p[|p| - 1] == to;
    var i := 1;
    assert Linked(edges, p[0], p[1]);
    while i < |p| - 1
      invariant 1 <= i < |p|
      invariant p[i] in closed
    {
      assert Linked(edges, p[i], p[i + 1]);
      i := i + 1;
    }
  }

  // Orders

  ghost predicate IsTopological(nodes: set<Ref>, edges: seq<Edge>, order: seq<Ref>) {
    && (forall r :: r in order <==> r in nodes)
    && (forall i, j :: 0 <= i < j < |order| ==> order[i] != order[j])
    && (forall i, j :: 0 <= i < |order| && 0 <= j < |order| && Linked(edges, order[i], order[j]) ==> i < j)
  }

  /** Compared entry by entry, by reference string: a comes no later than b. */
  ghost predicate NoLater(a: seq<Ref>, b: seq<Ref>) {
    a == b || exists i :: 0 <= i < |a| && i < |b| && a[..i] == b[..i] && Before(a[i], b[i])
  }

  ghost predicate LeastTopological(nodes: set<Ref>, edges: seq<Edge>, order: seq<Ref>) {
    && IsTopological(nodes, edges, order)
    && forall other :: IsTopological(nodes, edges, other) ==> NoLater(order, other)
  }

  /** Everything r waits for has been placed, and r has not. */
  predicate Ready(nodes: set<Ref>, edges: seq<Edge>, placed: seq<Ref>, r: Ref) {
    r in nodes && r !in placed && forall e :: e in edges && e.to == r ==> e.from in placed
  }

  /** Each entry is the first by name of those that were ready when it was placed. */
  predicate IsGreedy(nodes: set<Ref>, edges: seq<Edge>, order: seq<Ref>) {
    forall i :: 0 <= i < |order| ==>
      && Ready(nodes, edges, order[..i], order[i])
      && forall r :: r in nodes && Ready(nodes, edges, order[..i], r) ==> !Before(r, order[i])
  }

  lemma GreedyIsTopological(nodes: set<Ref>, edges: seq<Edge>, order: seq<Ref>)
    requires IsGreedy(nodes, edges, order)
    requires forall r :: r in nodes ==> r in order
    ensures IsTopological(nodes, edges, order)
  {
    forall i, j | 0 <= i < j < |order| ensures order[i] != order[j] {
      assert Ready(nodes, edges, order[..j], order[j]);
      assert order[..j][i] == order[i];
    }
    forall i, j | 0 <= i < |order| && 0 <= j < |order| && Linked(edges, order[i], order[j]) ensures i < j {
      assert Ready(nodes, edges, order[..j], order[j]);
      var k :| 0 <= k < j && order[..j][k] == order[i];
    }
    forall r | r in order ensures r in nodes {
      var i :| 0 <= i < |order| && order[i] == r;
      assert Ready(nodes, edges, order[..i], order[i]);
    }
  }

  lemma TopologicalEntryIsReady(nodes: set<Ref>, edges: seq<Edge>, order: seq<Ref>, i: nat)
    requires IsTopological(nodes, edges, order) && Within(nodes, edges) && i < |order|
    ensures Ready(nodes, edges, order[..i], order[i])
  {
    forall e | e in edges && e.to == order[i] ensures e.from in order[..i] {
      var k :| 0 <= k < |order| && order[k] == e.from;
      assert Linked(edges, order[k], order[i]);
      assert order[..i][k] == e.from;
    }
  }

  /** Where two topological orders first part, the greedy one holds the earlier name. */
  lemma GreedyIsNoLater(nodes: set<Ref>, edges: seq<Edge>, greedy: seq<Ref>, other: seq<Ref>)
    requires IsGreedy(nodes, edges, greedy) && IsTopological(nodes, edges, greedy)
    requires IsTopological(nodes, edges, other) && Within(nodes, edges)
    ensures NoLater(greedy, other)
  {
    SameLength(greedy, other);
    if greedy != other {
      var i := FirstDifference(greedy, other);
      TopologicalEntryIsReady(nodes, edges, other, i);
      BeforeTotal(greedy[i], other[i]);
    }
  }

  lemma FirstDifference(a: seq<Ref>, b: seq<Ref>) returns (i: nat)
    requires |a| == |b| && a != b
    ensures i < |a| && a[..i] == b[..i] && a[i] != b[i]
  {
    i := 0;
    while i < |a| && a[i] == b[i]
      invariant 0 <= i <= |a|
      invariant a[..i] == b[..i]
    {
      i := i + 1;
    }
  }

  lemma GreedyIsLeast(nodes: set<Ref>, edges: seq<Edge>, order: seq<Ref>)
    requires IsGreedy(nodes, edges, order) && IsTopological(nodes, edges, order) && Within(nodes, edges)
    ensures LeastTopological(nodes, edges, order) && Acyclic(edges)
  {
    forall other | IsTopological(nodes, edges, other) ensures NoLater(order, other) {
      GreedyIsNoLater(nodes, edges, order, other);
    }
    OrderedIsAcyclic(nodes, edges, order);
  }

  lemma SameLength(a: seq<Ref>, b: seq<Ref>)
    requires forall r :: r in a <==> r in b
    requires forall i, j :: 0 <= i < j < |a| ==> a[i] != a[j]
    requires forall i, j :: 0 <= i < j < |b| ==> b[i] != b[j]
    ensures |a| == |b|
  {
    DistinctCount(a);
    DistinctCount(b);
    assert (set r | r in a) == (set r | r in b);
  }

  lemma {:induction false} DistinctCount(a: seq<Ref>)
    requires forall i, j :: 0 <= i < j < |a| ==> a[i] != a[j]
    ensures |set r | r in a| == |a|
  {
    if a != [] {
      var init, last := a[..|a| - 1], a[|a| - 1];
      DistinctCount(init);
      assert a == init + [last];
      assert last !in init;
      assert (set r | r in a) == (set r | r in init) + {last};
    }
  }

  /** A topological order leaves no room for a cycle. */
  lemma {:induction false} OrderedIsAcyclic(nodes: set<Ref>, edges: seq<Edge>, order: seq<Ref>)
    requires IsTopological(nodes, edges, order) && Within(nodes, edges)
    ensures Acyclic(edges)
  {
    forall r | Downstream(edges, r, r) ensures false {
      DownstreamIsLater(nodes, edges, order, r, r);
    }
  }

  lemma LinkIsLater(nodes: set<Ref>, edges: seq<Edge>, order: seq<Ref>, from: Ref, to: Ref) returns (i: nat, j: nat)
    requires IsTopological(nodes, edges, order) && Within(nodes, edges) && Linked(edges, from, to)
    ensures i < j < |order| && order[i] == from && order[j] == to
  {
    i :| 0 <= i < |order| && order[i] == from;
    j :| 0 <= j < |order| && order[j] == to;
  }

  lemma {:induction false} DownstreamIsLater(nodes: set<Ref>, edges: seq<Edge>, order: seq<Ref>, from: Ref, to: Ref)
    requires IsTopological(nodes, edges, order) && Within(nodes, edges)
    requires Downstream(edges, from, to)
    ensures exists i, j :: 0 <= i < j < |order| && order[i] == from && order[j] == to
    ensures forall j :: 0 <= j < |order| && order[j] == to ==> from in order[..j]
  {
    hide Linked;
    hide Within;
    var p :| IsPath(edges, p) && |p| >= 2 && p[0] == from && p[|p| - 1] == to;
    assert Linked(edges, p[0], p[1]);
    var first, at := LinkIsLater(nodes, edges, order, from, p[1]);
    var k := 1;
    while k < |p| - 1
      invariant 1 <= k < |p|
      invariant first < at < |order| && order[at] == p[k]
    {
      assert Linked(edges, p[k], p[k + 1]);
      var i, next := LinkIsLater(nodes, edges, order, p[k], p[k + 1]);
      assert i == at;
      k, at := k + 1, next;
    }
    forall j | 0 <= j < |order| && order[j] == to ensures from in order[..j] {
      assert j == at;
      assert order[..j][first] == from;
    }
  }

  /** The least order depends on which resources are joined, not on how or how often. */
  lemma LeastOrderIgnoresParallelEdges(nodes: set<Ref>, edges: seq<Edge>, order: seq<Ref>,
                                       edges': seq<Edge>, order': seq<Ref>)
    requires LeastTopological(nodes, edges, order) && LeastTopological(nodes, edges', order')
    requires forall a: Ref, b: Ref :: Linked(edges, a, b) <==> Linked(edges', a, b)
    ensures order == order'
  {
    assert IsTopological(nodes, edges', order);
    assert IsTopological(nodes, edges, order');
    NoLaterAntisymmetric(order, order');
  }

  lemma PrefixAgrees(a: seq<Ref>, b: seq<Ref>, n: nat)
    requires n <= |a| && n <= |b| && a[..n] == b[..n]
    ensures forall i :: 0 <= i < n ==> a[i] == b[i]
  {
    forall i | 0 <= i < n ensures a[i] == b[i] {
      assert a[i] == a[..n][i] == b[..n][i];
    }
  }

  lemma NoLaterAntisymmetric(a: seq<Ref>, b: seq<Ref>)
    requires NoLater(a, b) && NoLater(b, a)
    ensures a == b
  {
    if a != b {
      var i :| 0 <= i < |a| && i < |b| && a[..i] == b[..i] && Before(a[i], b[i]);
      var j :| 0 <= j < |b| && j < |a| && b[..j] == a[..j] && Before(b[j], a[j]);
      PrefixAgrees(a, b, i);
      PrefixAgrees(b, a, j);
      BeforeTotal(a[i], b[i]);
      BeforeTotal(a[j], b[j]);
    }
  }
}
