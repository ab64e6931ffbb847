/** The dependency graph of a manifest: what makes one acceptable, and the order it is worked through in. */
module Graph {
  import opened Text
  import opened Document
  import opened Sorting
  import opened Topology
  import opened Counting

  /** One merged resource of a manifest. */
  datatype Resource = Resource(
    ref: Ref,
    desired: Value,
    requirements: seq<Ref>,
    restartOn: seq<Ref>,
    reloadOn: seq<Ref>,
    layerDir: string)

  datatype Node = Node(resource: Resource, target: string)

  datatype GraphError =
    | NoIdentity(ref: Ref)
    | ProtectedTarget(ref: Ref)
    | DuplicateTarget(refs: seq<Ref>)
    | NotInManifest(ref: Ref, kind: EdgeKind, dependency: Ref)
    | DependsOnItself(ref: Ref)
    | DependencyCycle(path: seq<Ref>)

  /** Answers yes for targets that belong to Datum's own controls. */
  type Protection = (Ref, string, Value) -> bool

  predicate EdgeBefore(a: Edge, b: Edge) {
    if a.to != b.to then Before(a.to, b.to) else Before(a.from, b.from)
  }

  lemma EdgeBeforeRanks()
    ensures Ranks(EdgeBefore)
  {
    BeforeRanks();
    BeforeIsTotal();
    forall a: Edge, b: Edge, c: Edge | !EdgeBefore(b, a) && !EdgeBefore(c, b) ensures !EdgeBefore(c, a) {
      BeforeTotal(a.to, b.to);
      BeforeTotal(b.to, c.to);
    }
  }

  /** Where edges are sorted, the dependencies of a resource come by name. */
  lemma {:induction false} DependenciesByName(edges: seq<Edge>, ref: Ref)
    requires Sorted(EdgeBefore, edges)
    ensures forall i, j :: 0 <= i < j < |Incoming(edges, ref)| ==> !Before(Incoming(edges, ref)[j].from, Incoming(edges, ref)[i].from)
  {
    hide Before;
    if edges != [] {
      var n := |edges| - 1;
      var init, last := edges[..n], edges[n];
      DependenciesByName(init, ref);
      IncomingMembers(init, ref);
      var before := Incoming(init, ref);
      forall i | 0 <= i < |before| && last.to == ref ensures !Before(last.from, before[i].from) {
        assert before[i] in before;
        var k :| 0 <= k < n && init[k] == before[i];
        assert !EdgeBefore(edges[n], edges[k]);
      }
    }
  }

  /** And so do its dependents. */
  lemma {:induction false} DependentsByName(edges: seq<Edge>, ref: Ref)
    requires Sorted(EdgeBefore, edges)
    ensures forall i, j :: 0 <= i < j < |Outgoing(edges, ref)| ==> !Before(Outgoing(edges, ref)[j].to, Outgoing(edges, ref)[i].to)
  {
    hide Before;
    if edges != [] {
      var n := |edges| - 1;
      var init, last := edges[..n], edges[n];
      DependentsByName(init, ref);
      OutgoingMembers(init, ref);
      var before := Outgoing(init, ref);
      forall i | 0 <= i < |before| ensures !Before(last.to, before[i].to) {
        assert before[i] in before;
        var k :| 0 <= k < n && init[k] == before[i];
        assert !EdgeBefore(edges[n], edges[k]);
        BeforeTotal(last.to, before[i].to);
      }
    }
  }

  // What makes a manifest applicable

  predicate Admitted(r: Resource, protected: Protection) {
    && TargetIdentity(r.ref, r.desired).Some?
    && !protected(r.ref, TargetIdentity(r.ref, r.desired).value, r.desired)
  }

  /** A resource is refused because nothing says what it targets, or because its target is protected. */
  ghost predicate Refused(m: seq<Resource>, protected: Protection, err: GraphError) {
    exists r :: r in m && RefusedFor(r, protected, err)
  }

  predicate RefusedFor(r: Resource, protected: Protection, err: GraphError) {
    match TargetIdentity(r.ref, r.desired)
    case None => err == NoIdentity(r.ref)
    case Some(target) => protected(r.ref, target, r.desired) && err == ProtectedTarget(r.ref)
  }

  lemma RefuseMore(m: seq<Resource>, r: Resource, protected: Protection)
    ensures forall err :: Refused(m + [r], protected, err) <==> Refused(m, protected, err) || RefusedFor(r, protected, err)
    ensures (forall q :: q in m + [r] ==> Admitted(q, protected)) <==>
            (Admitted(r, protected) && forall q :: q in m ==> Admitted(q, protected))
  {
    hide RefusedFor;
    hide Admitted;
    forall err | Refused(m, protected, err) || RefusedFor(r, protected, err) ensures Refused(m + [r], protected, err) {
      var q :| (q in m || q == r) && RefusedFor(q, protected, err);
      assert q in m + [r];
    }
  }

  function RefsOf(r: Resource, kind: EdgeKind): seq<Ref> {
    match kind
    case Requires => r.requirements
    case RestartOn => r.restartOn
    case ReloadOn => r.reloadOn
  }

  function NodesOf(m: seq<Resource>, protected: Protection): map<Ref, Node> {
    if m == [] then map[]
    else
      var earlier, last := NodesOf(m[..|m| - 1], protected), m[|m| - 1];
      if Admitted(last, protected) then earlier[last.ref := Node(last, TargetIdentity(last.ref, last.desired).value)]
      else earlier
  }

  function EdgesOf(r: Resource, kind: EdgeKind): seq<Edge> {
    seq(|RefsOf(r, kind)|, i requires 0 <= i < |RefsOf(r, kind)| => Edge(RefsOf(r, kind)[i], r.ref, kind))
  }

  /** Every edge the manifest writes down. */
  function DeclaredEdges(m: seq<Resource>): seq<Edge> {
    if m == [] then []
    else
      var last := m[|m| - 1];
      DeclaredEdges(m[..|m| - 1]) + AllEdgesOf(last)
  }

  function AllEdgesOf(r: Resource): seq<Edge> {
    EdgesOf(r, Requires) + EdgesOf(r, RestartOn) + EdgesOf(r, ReloadOn)
  }

  predicate Usable(nodes: set<Ref>, e: Edge) {
    e.from in nodes && e.from != e.to
  }

  /** What is said about an edge that cannot be used. */
  function Complaint(nodes: set<Ref>, e: Edge): GraphError {
    if e.from !in nodes then NotInManifest(e.to, e.kind, e.from) else DependsOnItself(e.to)
  }

  /** The complaint is about a declared edge into the graph that cannot be used. */
  ghost predicate Complained(nodes: set<Ref>, declared: seq<Edge>, err: GraphError) {
    exists e :: e in declared && e.to in nodes && !Usable(nodes, e) && err == Complaint(nodes, e)
  }

  lemma ComplainMore(nodes: set<Ref>, declared: seq<Edge>, r: Resource)
    ensures forall err :: Complained(nodes, declared + AllEdgesOf(r), err) <==>
      || Complained(nodes, declared, err)
      || (r.ref in nodes && exists e :: e in AllEdgesOf(r) && !Usable(nodes, e) && err == Complaint(nodes, e))
  {
    hide Complaint;
    assert forall e :: e in AllEdgesOf(r) ==> e.to == r.ref;
    assert forall e :: e in declared + AllEdgesOf(r) <==> e in declared || e in AllEdgesOf(r);
  }

  /** The edges kept: those that end in the graph and can be used. */
  ghost predicate KeptFrom(nodes: set<Ref>, kept: seq<Edge>, declared: seq<Edge>) {
    forall e :: e in kept <==> e in declared && e.to in nodes && Usable(nodes, e)
  }

  ghost predicate AllUsable(nodes: set<Ref>, declared: seq<Edge>) {
    forall e :: e in declared && e.to in nodes ==> Usable(nodes, e)
  }

  lemma KeepMore(nodes: set<Ref>, kept: seq<Edge>, declared: seq<Edge>, kept': seq<Edge>, r: Resource)
    requires KeptFrom(nodes, kept, declared)
    requires r.ref !in nodes ==> kept' == kept
    requires r.ref in nodes ==> forall e :: e in kept' <==> e in kept || (e in AllEdgesOf(r) && Usable(nodes, e))
    ensures KeptFrom(nodes, kept', declared + AllEdgesOf(r))
    ensures AllUsable(nodes, declared + AllEdgesOf(r)) <==>
      AllUsable(nodes, declared) && (r.ref in nodes ==> forall e :: e in AllEdgesOf(r) ==> Usable(nodes, e))
  {
    assert forall e :: e in AllEdgesOf(r) ==> e.to == r.ref;
  }

  /** What a build checks, with no host involved. */
  ghost predicate Applicable(m: seq<Resource>, protected: Protection) {
    var nodes := NodesOf(m, protected);
    && (forall r :: r in m ==> Admitted(r, protected))
    && DistinctTargets(nodes)
    && (forall e :: e in DeclaredEdges(m) ==> Usable(nodes.Keys, e))
    && Acyclic(DeclaredEdges(m))
  }

  lemma {:induction false} NodesAreAdmitted(m: seq<Resource>, protected: Protection)
    ensures forall ref :: ref in NodesOf(m, protected) <==> exists r :: r in m && Admitted(r, protected) && r.ref == ref
    ensures forall ref :: ref in NodesOf(m, protected) ==> NodesOf(m, protected)[ref].resource.ref == ref
    ensures forall ref :: ref in NodesOf(m, protected) ==>
      var node := NodesOf(m, protected)[ref];
      node.resource in m && TargetIdentity(ref, node.resource.desired) == Some(node.target)
  {
    if m != [] {
      var init, last := m[..|m| - 1], m[|m| - 1];
      NodesAreAdmitted(init, protected);
      assert m == init + [last];
    }
  }

  lemma {:induction false} DeclaredEdgesEndInManifest(m: seq<Resource>)
    ensures forall e :: e in DeclaredEdges(m) ==> exists r :: r in m && r.ref == e.to
  {
    if m != [] {
      var init, last := m[..|m| - 1], m[|m| - 1];
      DeclaredEdgesEndInManifest(init);
      assert m == init + [last];
      forall e | e in DeclaredEdges(m) ensures exists r :: r in m && r.ref == e.to {
        if e !in DeclaredEdges(init) {
          assert e.to == last.ref && last in m;
        }
      }
    }
  }

  /** Being downstream depends on which edges there are, not on how they are listed. */
  lemma SameEdgesSamePaths(edges: seq<Edge>, edges': seq<Edge>)
    requires forall e :: e in edges <==> e in edges'
    ensures Acyclic(edges) <==> Acyclic(edges')
  {
    if r: Ref :| Downstream(edges, r, r) {
      var p :| IsPath(edges, p) && |p| >= 2 && p[0] == r && p[|p| - 1] == r;
      assert IsPath(edges', p);
      assert Downstream(edges', r, r);
    }
    if r: Ref :| Downstream(edges', r, r) {
      var p :| IsPath(edges', p) && |p| >= 2 && p[0] == r && p[|p| - 1] == r;
      assert IsPath(edges, p);
      assert Downstream(edges, r, r);
    }
  }

  // Two resources managing one thing

  function TargetKey(nodes: map<Ref, Node>, r: Ref): string
    requires r in nodes
  {
    r.typ + " " + nodes[r].target
  }

  lemma TargetKeyInjective(nodes: map<Ref, Node>, a: Ref, b: Ref)
    requires a in nodes && b in nodes
    ensures TargetKey(nodes, a) == TargetKey(nodes, b) <==> a.typ == b.typ && nodes[a].target == nodes[b].target
  {
    var x, y := TargetKey(nodes, a), TargetKey(nodes, b);
    if x == y {
      assert a.typ in RESOURCE_TYPES && b.typ in RESOURCE_TYPES;
      assert x[|a.typ|] == ' ' && y[|b.typ|] == ' ';
      assert forall i :: 0 <= i < |a.typ| ==> x[i] == a.typ[i];
      assert forall i :: 0 <= i < |b.typ| ==> y[i] == b.typ[i];
      TypeHasNoSpace(a);
      TypeHasNoSpace(b);
      assert |a.typ| == |b.typ|;
      assert x[..|a.typ|] == y[..|b.typ|];
      assert x[|a.typ| + 1..] == y[|b.typ| + 1..];
    }
  }

  lemma TypeHasNoSpace(r: Ref)
    ensures forall i :: 0 <= i < |r.typ| ==> r.typ[i] != ' '
  {
    assert r.typ in RESOURCE_TYPES;
  }

  predicate DistinctTargets(nodes: map<Ref, Node>) {
    forall a, b :: a in nodes && b in nodes && a.typ == b.typ && nodes[a].target == nodes[b].target ==> a == b
  }

  /** Consecutive entries follow real dependencies, and only the last one repeats. */
  ghost predicate CycleReport(edges: seq<Edge>, path: seq<Ref>) {
    && |path| >= 2
    && (forall i :: 0 <= i < |path| - 1 ==> Linked(edges, path[i + 1], path[i]))
    && Distinct(path[..|path| - 1])
    && path[|path| - 1] in path[..|path| - 1]
  }

  lemma ReportedCycleIsReal(edges: seq<Edge>, path: seq<Ref>)
    requires CycleReport(edges, path)
    ensures Downstream(edges, path[|path| - 1], path[|path| - 1])
    ensures !Acyclic(edges)
  {
    var n := |path|;
    var k :| 0 <= k < n - 1 && path[..n - 1][k] == path[n - 1];
    var tail := seq(n - k, i requires 0 <= i < n - k => path[n - 1 - i]);
    forall i | 0 <= i < |tail| - 1 ensures Linked(edges, tail[i], tail[i + 1]) {
      assert Linked(edges, path[n - 2 - i + 1], path[n - 2 - i]);
    }
    assert tail[0] == path[n - 1] && tail[|tail| - 1] == path[k] == path[n - 1];
    PathWitness(edges, tail);
  }

  /** The path so far: each entry waits for the next, and none repeats. */
  ghost predicate Walk(edges: seq<Edge>, path: seq<Ref>) {
    && path != []
    && Distinct(path)
    && forall i :: 0 <= i < |path| - 1 ==> Linked(edges, path[i + 1], path[i])
  }

  lemma WalkOn(edges: seq<Edge>, path: seq<Ref>, next: Ref)
    requires Walk(edges, path) && Linked(edges, next, path[|path| - 1])
    ensures next in path ==> CycleReport(edges, path + [next])
    ensures next !in path ==> Walk(edges, path + [next])
  {
    var longer := path + [next];
    assert longer[..|longer| - 1] == path;
    forall i | 0 <= i < |longer| - 1 ensures Linked(edges, longer[i + 1], longer[i]) {
      assert longer[i] == path[i];
      assert i < |path| - 1 ==> longer[i + 1] == path[i + 1];
    }
  }

  /** The visited resources, each listed once under its own key. */
  ghost predicate Grouped(nodes: map<Ref, Node>, unvisited: set<Ref>, byTarget: map<string, seq<Ref>>) {
    && (forall key :: key in byTarget ==> Distinct(byTarget[key]))
    && (forall key, r :: key in byTarget ==>
      (r in byTarget[key] <==> r in nodes && r !in unvisited && TargetKey(nodes, r) == key))
    && (forall r :: r in nodes && r !in unvisited ==> TargetKey(nodes, r) in byTarget)
  }

  lemma {:induction false} GroupOne(nodes: map<Ref, Node>, unvisited: set<Ref>, byTarget: map<string, seq<Ref>>, r: Ref)
    requires Grouped(nodes, unvisited, byTarget) && r in nodes && r in unvisited
    ensures
      var key := TargetKey(nodes, r);
      Grouped(nodes, unvisited - {r}, byTarget[key := (if key in byTarget then byTarget[key] else []) + [r]])
  {
  }

  /** A duplicate report names, in order, every resource that manages the one target, and no other. */
  ghost predicate NamesOneTarget(nodes: map<Ref, Node>, refs: seq<Ref>) {
    && |refs| > 1 && Distinct(refs) && Sorted(Before, refs)
    && (forall r :: r in refs ==> r in nodes)
    && forall r :: r in nodes ==> (r in refs <==> TargetKey(nodes, r) == TargetKey(nodes, refs[0]))
  }

  lemma GroupNamesOneTarget(nodes: map<Ref, Node>, byTarget: map<string, seq<Ref>>, key: string, refs: seq<Ref>)
    requires Grouped(nodes, {}, byTarget) && key in byTarget
    requires Distinct(refs) && Sorted(Before, refs) && |refs| > 1
    requires forall r :: r in refs <==> r in byTarget[key]
    ensures NamesOneTarget(nodes, refs)
  {
    assert refs[0] in refs;
    assert TargetKey(nodes, refs[0]) == key;
  }

  lemma GroupsShowDuplicates(nodes: map<Ref, Node>, byTarget: map<string, seq<Ref>>)
    requires Grouped(nodes, {}, byTarget)
    ensures DistinctTargets(nodes) <==> forall key :: key in byTarget ==> |byTarget[key]| <= 1
  {
    if key :| key in byTarget && |byTarget[key]| > 1 {
      var a, b := byTarget[key][0], byTarget[key][1];
      assert a in byTarget[key] && b in byTarget[key];
      TargetKeyInjective(nodes, a, b);
    } else {
      forall a, b | a in nodes && b in nodes && a.typ == b.typ && nodes[a].target == nodes[b].target ensures a == b {
        TargetKeyInjective(nodes, a, b);
        var group := byTarget[TargetKey(nodes, a)];
        assert a in group && b in group;
      }
    }
  }

  /** Some other resource manages the same target. */
  ghost predicate Shared(nodes: map<Ref, Node>, r: Ref)
    requires r in nodes
  {
    exists other :: other in nodes && other != r && other.typ == r.typ && nodes[other].target == nodes[r].target
  }

  /** Every resource that shares its target is in one report, and nobody is in two. */
  ghost predicate NamesAllShared(nodes: map<Ref, Node>, errs: seq<GraphError>) {
    && (forall e :: e in errs ==> e.DuplicateTarget?)
    && (forall r :: r in nodes ==> (Shared(nodes, r) <==> exists e :: e in errs && e.DuplicateTarget? && r in e.refs))
    && (forall i, j :: 0 <= i < j < |errs| ==> errs[i].DuplicateTarget? && errs[j].DuplicateTarget? && SetsApart(errs[i].refs, errs[j].refs))
  }

  ghost predicate SetsApart(a: seq<Ref>, b: seq<Ref>) {
    forall r :: r in a ==> r !in b
  }

  /** Reporting the groups of more than one names every resource that shares its target, in one report. */
  lemma ReportsCover(nodes: map<Ref, Node>, byTarget: map<string, seq<Ref>>, shared: set<string>, keys: seq<string>, errs: seq<GraphError>)
    requires Grouped(nodes, {}, byTarget) && |errs| == |keys| && Ascending(keys)
    requires forall key :: key in shared <==> key in byTarget && |byTarget[key]| > 1
    requires forall key :: key in keys <==> key in shared
    requires forall k :: 0 <= k < |keys| ==>
      errs[k].DuplicateTarget? && keys[k] in byTarget && forall r :: r in errs[k].refs <==> r in byTarget[keys[k]]
    ensures NamesAllShared(nodes, errs)
  {
    hide TargetKey;
    hide Shared;
    forall r | r in nodes ensures Shared(nodes, r) <==> exists e :: e in errs && e.DuplicateTarget? && r in e.refs {
      var key := TargetKey(nodes, r);
      SharedGroups(nodes, byTarget, r);
      assert Shared(nodes, r) <==> key in shared;
      if key in shared {
        assert key in keys;
        var k :| 0 <= k < |keys| && keys[k] == key;
        assert errs[k] in errs && errs[k].DuplicateTarget? && r in errs[k].refs;
        assert exists e :: e in errs && e.DuplicateTarget? && r in e.refs;
      }
      if e :| e in errs && e.DuplicateTarget? && r in e.refs {
        var k :| 0 <= k < |errs| && errs[k] == e;
        assert keys[k] in keys;
        assert r in byTarget[keys[k]];
        assert TargetKey(nodes, r) == keys[k];
        assert key in shared;
      }
    }
    forall i, j | 0 <= i < j < |errs| ensures SetsApart(errs[i].refs, errs[j].refs) {
      LessTotal(keys[i], keys[j]);
      assert keys[i] != keys[j];
      forall r | r in errs[i].refs ensures r !in errs[j].refs {
        assert r in byTarget[keys[i]];
        assert r in nodes && TargetKey(nodes, r) == keys[i];
        assert r !in byTarget[keys[j]];
      }
    }
  }

  lemma SharedGroups(nodes: map<Ref, Node>, byTarget: map<string, seq<Ref>>, r: Ref)
    requires Grouped(nodes, {}, byTarget) && r in nodes
    ensures TargetKey(nodes, r) in byTarget && r in byTarget[TargetKey(nodes, r)]
    ensures Shared(nodes, r) <==> |byTarget[TargetKey(nodes, r)]| > 1
  {
    var group := byTarget[TargetKey(nodes, r)];
    assert r in group;
    if |group| > 1 {
      var other := if group[0] == r then group[1] else group[0];
      assert other in group && other != r;
      TargetKeyInjective(nodes, r, other);
    }
    if other :| other in nodes && other != r && other.typ == r.typ && nodes[other].target == nodes[r].target {
      TargetKeyInjective(nodes, r, other);
      assert other in group;
    }
  }

  /** What a build can report, and when it does. */
  ghost predicate Reported(m: seq<Resource>, protected: Protection, err: GraphError) {
    var nodes := NodesOf(m, protected);
    match err
    case NoIdentity(ref) => exists r :: r in m && r.ref == ref && TargetIdentity(ref, r.desired).None?
    case ProtectedTarget(ref) =>
      exists r :: r in m && r.ref == ref && TargetIdentity(ref, r.desired).Some? && protected(ref, TargetIdentity(ref, r.desired).value, r.desired)
    case DuplicateTarget(refs) => NamesOneTarget(nodes, refs)
    case NotInManifest(ref, kind, dependency) =>
      ref in nodes && dependency !in nodes && exists r :: r in m && r.ref == ref && dependency in RefsOf(r, kind)
    case DependsOnItself(ref) =>
      ref in nodes && exists r, kind :: r in m && r.ref == ref && ref in RefsOf(r, kind)
    case DependencyCycle(_) => false
  }

  /** An edge is declared by an entry of the list its kind is named for. */
  lemma {:induction false} DeclaredBy(m: seq<Resource>, e: Edge)
    ensures e in DeclaredEdges(m) <==> exists r :: r in m && r.ref == e.to && e.from in RefsOf(r, e.kind)
    ensures forall r: Resource :: RefsOf(r, Requires) == r.requirements && RefsOf(r, RestartOn) == r.restartOn && RefsOf(r, ReloadOn) == r.reloadOn
  {
    if m != [] {
      var init, last := m[..|m| - 1], m[|m| - 1];
      assert m == init + [last];
      DeclaredBy(init, e);
      DeclaredByOne(last, e);
    }
  }

  lemma DeclaredByOne(r: Resource, e: Edge)
    ensures e in AllEdgesOf(r) <==> r.ref == e.to && e.from in RefsOf(r, e.kind)
  {
    if r.ref == e.to && e.from in RefsOf(r, e.kind) {
      var i :| 0 <= i < |RefsOf(r, e.kind)| && RefsOf(r, e.kind)[i] == e.from;
      assert EdgesOf(r, e.kind)[i] == e;
    }
  }

  lemma {:induction false} SameMembersSameBag<T>(a: seq<T>, b: seq<T>)
    requires Distinct(a) && Distinct(b) && forall x :: x in a <==> x in b
    ensures multiset(a) == multiset(b)
  {
    DistinctIsOnce(a);
    DistinctIsOnce(b);
    forall x ensures multiset(a)[x] == multiset(b)[x] {
      assert x in multiset(a) <==> x in a;
      assert x in multiset(b) <==> x in b;
    }
  }

  /** Two reports of one target are the same report. */
  lemma OneReport(nodes: map<Ref, Node>, a: seq<Ref>, b: seq<Ref>, r: Ref)
    requires NamesOneTarget(nodes, a) && NamesOneTarget(nodes, b) && r in a && r in b
    ensures a == b
  {
    hide TargetKey;
    SameMembersSameBag(a, b);
    BeforeRanks();
    BeforeIsTotal();
    SortedUnique(Before, a, b);
  }

  lemma {:induction false} DuplicatesAre(nodes: map<Ref, Node>, errs: seq<GraphError>, refs: seq<Ref>)
    requires NamesAllShared(nodes, errs)
    requires forall e :: e in errs ==> e.DuplicateTarget? && NamesOneTarget(nodes, e.refs)
    ensures DuplicateTarget(refs) in errs <==> NamesOneTarget(nodes, refs)
  {
    if NamesOneTarget(nodes, refs) {
      var r, other := refs[0], refs[1];
      assert r in refs && other in refs;
      TargetKeyInjective(nodes, r, other);
      assert Shared(nodes, r);
      var e :| e in errs && e.DuplicateTarget? && r in e.refs;
      OneReport(nodes, refs, e.refs, r);
    }
  }

  lemma {:induction false} ReportsAre(m: seq<Resource>, protected: Protection,
                                      refused: seq<GraphError>, duplicates: seq<GraphError>, unusable: seq<GraphError>)
    requires forall err :: err in refused <==> Refused(m, protected, err)
    requires NamesAllShared(NodesOf(m, protected), duplicates)
    requires forall e :: e in duplicates ==> e.DuplicateTarget? && NamesOneTarget(NodesOf(m, protected), e.refs)
    requires forall err :: err in unusable <==> Complained(NodesOf(m, protected).Keys, DeclaredEdges(m), err)
    ensures forall err :: err in refused + duplicates + unusable <==> Reported(m, protected, err)
  {
    hide NodesOf;
    hide NamesOneTarget;
    hide NamesAllShared;
    hide Refused;
    hide Complained;
    hide DeclaredEdges;
    hide Reported;
    forall err ensures err in refused + duplicates + unusable <==> Reported(m, protected, err) {
      RefusedReports(m, protected, err);
      ComplaintReports(m, protected, err);
      if err.DuplicateTarget? {
        DuplicatesAre(NodesOf(m, protected), duplicates, err.refs);
        DuplicateReports(m, protected, err);
      }
    }
  }

  lemma DuplicateReports(m: seq<Resource>, protected: Protection, err: GraphError)
    requires err.DuplicateTarget?
    ensures Reported(m, protected, err) <==> NamesOneTarget(NodesOf(m, protected), err.refs)
  {
  }

  lemma RefusedReports(m: seq<Resource>, protected: Protection, err: GraphError)
    ensures Refused(m, protected, err) ==> err.NoIdentity? || err.ProtectedTarget?
    ensures err.NoIdentity? || err.ProtectedTarget? ==> (Refused(m, protected, err) <==> Reported(m, protected, err))
  {
    hide NodesOf;
    hide TargetIdentity;
    hide NamesOneTarget;
  }

  lemma ComplaintReports(m: seq<Resource>, protected: Protection, err: GraphError)
    ensures Complained(NodesOf(m, protected).Keys, DeclaredEdges(m), err) ==> err.NotInManifest? || err.DependsOnItself?
    ensures err.NotInManifest? || err.DependsOnItself? ==>
      (Complained(NodesOf(m, protected).Keys, DeclaredEdges(m), err) <==> Reported(m, protected, err))
    ensures err.DependencyCycle? ==> !Reported(m, protected, err)
  {
    hide NodesOf;
    hide NamesOneTarget;
    hide DeclaredEdges;
    hide RefsOf;
    forall e ensures e in DeclaredEdges(m) <==> exists r :: r in m && r.ref == e.to && e.from in RefsOf(r, e.kind) {
      DeclaredBy(m, e);
    }
    var nodes, declared := NodesOf(m, protected).Keys, DeclaredEdges(m);
    match err
    case NotInManifest(ref, kind, dependency) =>
      var e := Edge(dependency, ref, kind);
      if Reported(m, protected, err) {
        assert e in declared && !Usable(nodes, e) && err == Complaint(nodes, e);
      }
    case DependsOnItself(ref) =>
      if Reported(m, protected, err) {
        var r, kind :| r in m && r.ref == ref && ref in RefsOf(r, kind);
        var e := Edge(ref, ref, kind);
        assert e in declared && !Usable(nodes, e) && err == Complaint(nodes, e);
      }
    case _ =>
  }

  lemma SameEdgesSameReport(edges: seq<Edge>, edges': seq<Edge>, path: seq<Ref>)
    requires CycleReport(edges, path) && forall e :: e in edges <==> e in edges'
    ensures CycleReport(edges', path)
  {
    forall i | 0 <= i < |path| - 1 ensures Linked(edges', path[i + 1], path[i]) {
      assert Linked(edges, path[i + 1], path[i]);
    }
  }

  class Graph {
    var nodes: map<Ref, Node>
    var edges: seq<Edge>
    var order: seq<Ref>

    constructor ()
      ensures nodes == map[] && edges == [] && order == []
    {
      nodes, edges, order := map[], [], [];
    }

    ghost predicate WellFormed()
      reads this
    {
      Within(nodes.Keys, edges)
    }

    /** A graph that came out of a build without errors. */
    ghost predicate Valid()
      reads this
    {
      && WellFormed()
      && DistinctTargets(nodes)
      && (forall r :: r in nodes ==> nodes[r].resource.ref == r)
      && Sorted(EdgeBefore, edges)
      && LeastTopological(nodes.Keys, edges, order)
    }

    method Dependencies(ref: Ref) returns (out: seq<Edge>)
      ensures out == Incoming(edges, ref)
    {
      out := [];
      for i := 0 to |edges|
        invariant out == Incoming(edges[..i], ref)
      {
        assert edges[..i + 1][..i] == edges[..i];
        if edges[i].to == ref {
          out := out + [edges[i]];
        }
      }
      assert edges[..|edges|] == edges;
    }

    method Dependents(ref: Ref) returns (out: seq<Edge>)
      ensures out == Outgoing(edges, ref)
    {
      out := [];
      for i := 0 to |edges|
        invariant out == Outgoing(edges[..i], ref)
      {
        assert edges[..i + 1][..i] == edges[..i];
        if edges[i].from == ref {
          out := out + [edges[i]];
        }
      }
      assert edges[..|edges|] == edges;
    }

    method GroupByTarget() returns (byTarget: map<string, seq<Ref>>)
      ensures Grouped(nodes, {}, byTarget)
    {
      byTarget := map[];
      var unvisited := nodes.Keys;
      while unvisited != {}
        invariant unvisited <= nodes.Keys
        invariant Grouped(nodes, unvisited, byTarget)
      {
        var r :| r in unvisited;
        GroupOne(nodes, unvisited, byTarget, r);
        unvisited := unvisited - {r};
        var key := TargetKey(nodes, r);
        byTarget := byTarget[key := (if key in byTarget then byTarget[key] else []) + [r]];
      }
    }

    /** Groups the resources by what they manage, and reports every group of more than one, once. */
    method FindDuplicateTargets() returns (errs: seq<GraphError>)
      ensures errs == [] <==> DistinctTargets(nodes)
      ensures forall e :: e in errs ==> e.DuplicateTarget? && NamesOneTarget(nodes, e.refs)
      ensures NamesAllShared(nodes, errs)
    {
      hide TargetKey;
      hide Grouped;
      hide NamesOneTarget;
      hide NamesAllShared;
      hide DistinctTargets;
      var byTarget := GroupByTarget();
      var shared := set key | key in byTarget && |byTarget[key]| > 1;
      var keys := SortedKeys(shared);
      errs := [];
      for i := 0 to |keys|
        invariant |errs| == i
        invariant forall k :: 0 <= k < i ==> errs[k].DuplicateTarget? && NamesOneTarget(nodes, errs[k].refs)
        invariant forall k :: 0 <= k < i ==> keys[k] in byTarget && forall r :: r in errs[k].refs <==> r in byTarget[keys[k]]
      {
        assert keys[i] in shared;
        var refs := SortRefs(byTarget[keys[i]]);
        GroupNamesOneTarget(nodes, byTarget, keys[i], refs);
        errs := errs + [DuplicateTarget(refs)];
      }
      ReportsCover(nodes, byTarget, shared, keys, errs);
      GroupsShowDuplicates(nodes, byTarget);
      assert shared == {} <==> forall key :: key in byTarget ==> key !in shared;
    }

    /** Adds one list of dependencies of one resource, or says why it cannot. */
    method AddEdges(r: Resource, kind: EdgeKind) returns (errs: seq<GraphError>)
      requires r.ref in nodes
      modifies this`edges
      ensures forall e :: e in edges <==> e in old(edges) || (e in EdgesOf(r, kind) && Usable(nodes.Keys, e))
      ensures errs == [] <==> forall e :: e in EdgesOf(r, kind) ==> Usable(nodes.Keys, e)
      ensures forall err :: err in errs <==> exists e :: e in EdgesOf(r, kind) && !Usable(nodes.Keys, e) && err == Complaint(nodes.Keys, e)
    {
      errs := [];
      var refs := RefsOf(r, kind);
      var declared := EdgesOf(r, kind);
      for i := 0 to |refs|
        invariant forall e :: e in edges <==> e in old(edges) || (e in declared[..i] && Usable(nodes.Keys, e))
        invariant errs == [] <==> forall e :: e in declared[..i] ==> Usable(nodes.Keys, e)
        invariant forall err :: err in errs <==> exists e :: e in declared[..i] && !Usable(nodes.Keys, e) && err == Complaint(nodes.Keys, e)
      {
        ghost var e := Edge(refs[i], r.ref, kind);
        assert declared[..i + 1] == declared[..i] + [e];
        assert e in declared[..i + 1];
        if refs[i] !in nodes {
          errs := errs + [NotInManifest(r.ref, kind, refs[i])];
        } else if refs[i] == r.ref {
          errs := errs + [DependsOnItself(r.ref)];
        } else {
          edges := edges + [Edge(refs[i], r.ref, kind)];
        }
      }
      assert declared[..|refs|] == declared;
    }

    method AddResource(r: Resource) returns (errs: seq<GraphError>)
      requires r.ref in nodes
      modifies this`edges
      ensures forall e :: e in edges <==> e in old(edges) || (e in AllEdgesOf(r) && Usable(nodes.Keys, e))
      ensures errs == [] <==> forall e :: e in AllEdgesOf(r) ==> Usable(nodes.Keys, e)
      ensures forall err :: err in errs <==> exists e :: e in AllEdgesOf(r) && !Usable(nodes.Keys, e) && err == Complaint(nodes.Keys, e)
    {
      var required := AddEdges(r, Requires);
      var restartOn := AddEdges(r, RestartOn);
      var reloadOn := AddEdges(r, ReloadOn);
      errs := required + restartOn + reloadOn;
    }

    method BuildEdges(m: seq<Resource>) returns (errs: seq<GraphError>)
      requires edges == []
      modifies this`edges
      ensures Sorted(EdgeBefore, edges)
      ensures KeptFrom(nodes.Keys, edges, DeclaredEdges(m))
      ensures errs == [] <==> AllUsable(nodes.Keys, DeclaredEdges(m))
      ensures forall err :: err in errs <==> Complained(nodes.Keys, DeclaredEdges(m), err)
    {
      errs := [];
      for i := 0 to |m|
        invariant KeptFrom(nodes.Keys, edges, DeclaredEdges(m[..i]))
        invariant errs == [] <==> AllUsable(nodes.Keys, DeclaredEdges(m[..i]))
        invariant forall err :: err in errs <==> Complained(nodes.Keys, DeclaredEdges(m[..i]), err)
      {
        assert m[..i + 1][..i] == m[..i];
        ghost var before := edges;
        if m[i].ref in nodes {
          var more := AddResource(m[i]);
          errs := errs + more;
        }
        KeepMore(nodes.Keys, before, DeclaredEdges(m[..i]), edges, m[i]);
        ComplainMore(nodes.Keys, DeclaredEdges(m[..i]), m[i]);
      }
      assert m[..|m|] == m;
      edges := SortEdges(edges);
    }

    method AddNodes(m: seq<Resource>, protected: Protection) returns (errs: seq<GraphError>)
      requires nodes == map[]
      modifies this`nodes
      ensures nodes == NodesOf(m, protected)
      ensures errs == [] <==> forall r :: r in m ==> Admitted(r, protected)
      ensures forall err :: err in errs <==> Refused(m, protected, err)
    {
      errs := [];
      for i := 0 to |m|
        invariant nodes == NodesOf(m[..i], protected)
        invariant errs == [] <==> forall r :: r in m[..i] ==> Admitted(r, protected)
        invariant forall err :: err in errs <==> Refused(m[..i], protected, err)
      {
        assert m[..i + 1][..i] == m[..i];
        assert m[..i + 1] == m[..i] + [m[i]];
        hide Refused;
        hide TargetIdentity;
        RefuseMore(m[..i], m[i], protected);
        var r := m[i];
        var target := TargetIdentity(r.ref, r.desired);
        if target.None? {
          errs := errs + [NoIdentity(r.ref)];
        } else if protected(r.ref, target.value, r.desired) {
          errs := errs + [ProtectedTarget(r.ref)];
        } else {
          nodes := nodes[r.ref := Node(r, target.value)];
        }
      }
      assert m[..|m|] == m;
    }

    /** Validates a manifest. The build succeeds exactly on the applicable ones. */
    method BuildProtecting(m: seq<Resource>, protected: Protection) returns (errs: seq<GraphError>)
      requires nodes == map[] && edges == [] && order == []
      modifies this
      ensures errs == [] <==> Applicable(m, protected)
      ensures errs == [] ==> Valid() && nodes == NodesOf(m, protected)
      ensures errs == [] ==> forall e :: e in edges <==> e in DeclaredEdges(m)
      ensures forall err :: err in errs && !err.DependencyCycle? <==> Reported(m, protected, err)
      ensures forall err :: err in errs && err.DependencyCycle? ==> errs == [err] && CycleReport(DeclaredEdges(m), err.path)
    {
      hide NamesAllShared;
      hide NamesOneTarget;
      hide Refused;
      hide Complained;
      hide Reported;
      hide CycleReport;
      var refused := AddNodes(m, protected);
      var duplicates := FindDuplicateTargets();
      var unusable := BuildEdges(m);
      errs := refused + duplicates + unusable;
      ReportsAre(m, protected, refused, duplicates, unusable);
      forall err | Reported(m, protected, err) ensures !err.DependencyCycle? {
        ComplaintReports(m, protected, err);
      }
      NodesAreAdmitted(m, protected);
      DeclaredEdgesEndInManifest(m);
      if errs == [] {
        SameEdgesSamePaths(edges, DeclaredEdges(m));
        var cycle := Sort();
        if cycle.Some? {
          SameEdgesSameReport(edges, DeclaredEdges(m), cycle.value);
          errs := [DependencyCycle(cycle.value)];
        }
      }
    }

    method CountWaiting() returns (waitingFor: map<Ref, int>)
      requires WellFormed()
      ensures Exact(nodes.Keys, edges, {}, waitingFor)
    {
      waitingFor := map r | r in nodes :: 0;
      for i := 0 to |edges|
        invariant Exact(nodes.Keys, edges[..i], {}, waitingFor)
      {
        assert edges[..i + 1][..i] == edges[..i];
        var to := edges[i].to;
        assert edges[i] in edges;
        waitingFor := waitingFor[to := waitingFor[to] + 1];
      }
      assert edges[..|edges|] == edges;
    }

    /** Takes the edges leaving a placed resource off the counts, and lists what reached zero. */
    method Release(next: Ref, counts: map<Ref, int>, ghost done: set<Ref>)
      returns (waitingFor: map<Ref, int>, freed: seq<Ref>)
      requires WellFormed() && next !in done && Exact(nodes.Keys, edges, done, counts)
      ensures Exact(nodes.Keys, edges, done + {next}, waitingFor)
      ensures Distinct(freed)
      ensures forall r :: r in freed <==> r in nodes && counts[r] > 0 && waitingFor[r] == 0
    {
      var out := Dependents(next);
      OutgoingWithin(nodes.Keys, edges, next);
      forall j | 0 <= j < |out| ensures Waiting(out[..j + 1], out[j].to, {}) <= counts[out[j].to] {
        ReleasableOnce(edges, done, next, out[j].to, j + 1);
      }
      waitingFor, freed := ReleaseEach(out, counts);
      ReleaseAll(nodes.Keys, edges, done, next, counts, waitingFor, freed);
    }

    /** The resources that wait for nothing, in whatever order the map is read. */
    method InitiallyReady(waitingFor: map<Ref, int>) returns (ready: seq<Ref>)
      requires Exact(nodes.Keys, edges, {}, waitingFor)
      ensures Progress(nodes.Keys, edges, [], ready, waitingFor)
    {
      ready := [];
      var unvisited := nodes.Keys;
      while unvisited != {}
        invariant unvisited <= nodes.Keys
        invariant Distinct(ready)
        invariant forall r :: r in ready <==> r in nodes && r !in unvisited && waitingFor[r] == 0
      {
        var r :| r in unvisited;
        unvisited := unvisited - {r};
        if waitingFor[r] == 0 {
          ready := ready + [r];
        }
      }
      ready := SortRefs(ready);
      assert Members([]) == {};
    }

    /** Kahn's algorithm, with the ready list kept in name order. */
    method PlaceReady() returns (placed: seq<Ref>, waitingFor: map<Ref, int>)
      requires WellFormed()
      ensures |placed| == |nodes| ==> LeastTopological(nodes.Keys, edges, placed) && Acyclic(edges)
      ensures |placed| != |nodes| ==> Stuck(waitingFor) != {} && Deadlocked(edges, Stuck(waitingFor))
    {
      waitingFor := CountWaiting();
      var ready := InitiallyReady(waitingFor);
      placed := [];
      while ready != []
        invariant Progress(nodes.Keys, edges, placed, ready, waitingFor)
        decreases nodes.Keys - Members(placed)
      {
        var next := ready[0];
        ghost var counts, list := waitingFor, ready;
        PlaceFirst(nodes.Keys, edges, placed, ready, waitingFor);
        ready := ready[1..];
        var freed;
        waitingFor, freed := Release(next, waitingFor, Members(placed));
        if freed == [] {
          assert ready + freed == ready;
        } else {
          ready := SortRefs(ready + freed);
        }
        NextRound(nodes.Keys, edges, placed, list, counts, freed, ready, waitingFor);
        placed := placed + [next];
        assert next in Members(placed);
      }
      NothingReady(nodes.Keys, edges, placed, waitingFor);
    }

    /** Orders the resources, or reports a cycle that stops them from being ordered. */
    method Sort() returns (cycle: Option<seq<Ref>>)
      requires WellFormed()
      modifies this`order
      ensures cycle.None? <==> Acyclic(edges)
      ensures cycle.None? ==> LeastTopological(nodes.Keys, edges, order)
      ensures cycle.Some? ==> CycleReport(edges, cycle.value) && order == old(order)
    {
      var placed, waitingFor := PlaceReady();
      if |placed| != |nodes| {
        var path := DescribeCycle(waitingFor);
        ReportedCycleIsReal(edges, path);
        return Some(path);
      }
      order := placed;
      return None;
    }

    /** Follows dependencies among the stuck resources until one comes round again. */
    method DescribeCycle(waitingFor: map<Ref, int>) returns (path: seq<Ref>)
      ensures Stuck(waitingFor) == {} ==> path == []
      ensures Stuck(waitingFor) != {} && Deadlocked(edges, Stuck(waitingFor)) ==> CycleReport(edges, path)
    {
      var inCycle := Stuck(waitingFor);
      if inCycle == {} {
        return [];
      }
      var start := FirstByName(inCycle);
      path := [start];
      var seen := {start};
      var current := start;
      while true
        invariant Walk(edges, path) && path[|path| - 1] == current
        invariant seen == Members(path) && seen <= inCycle
        decreases inCycle - seen
      {
        var dependency := StuckDependency(current, inCycle);
        if dependency.None? {
          return;
        }
        var next := dependency.value;
        WalkOn(edges, path, next);
        path := path + [next];
        if next in seen {
          return;
        }
        seen := seen + {next};
        current := next;
      }
    }

    /** The first dependency, in edge order, that is stuck as well. */
    method StuckDependency(current: Ref, inCycle: set<Ref>) returns (next: Option<Ref>)
      ensures next.Some? <==> HeldBack(edges, inCycle, current)
      ensures next.Some? ==> next.value in inCycle && Linked(edges, next.value, current)
    {
      var deps := Dependencies(current);
      IncomingMembers(edges, current);
      for i := 0 to |deps|
        invariant forall k :: 0 <= k < i ==> deps[k].from !in inCycle
      {
        if deps[i].from in inCycle {
          assert deps[i] in edges;
          return Some(deps[i].from);
        }
      }
      assert forall e :: e in edges && e.to == current ==> exists k :: 0 <= k < |deps| && deps[k] == e;
      return None;
    }
  }

  method ReleaseEach(out: seq<Edge>, counts: map<Ref, int>) returns (waitingFor: map<Ref, int>, freed: seq<Ref>)
    requires forall j :: 0 <= j < |out| ==> out[j].to in counts
    requires forall j :: 0 <= j < |out| ==> Waiting(out[..j + 1], out[j].to, {}) <= counts[out[j].to]
    ensures Released(counts.Keys, counts, out, waitingFor, freed)
  {
    waitingFor, freed := counts, [];
    for j := 0 to |out|
      invariant Released(counts.Keys, counts, out[..j], waitingFor, freed)
    {
      assert out[..j + 1] == out[..j] + [out[j]];
      var to := out[j].to;
      ReleaseOne(counts.Keys, counts, out[..j], out[j], waitingFor, freed);
      waitingFor := waitingFor[to := waitingFor[to] - 1];
      if waitingFor[to] == 0 {
        freed := freed + [to];
      }
    }
    assert out[..|out|] == out;
  }

  /** Ties, which are parallel edges of different kinds, may come out either way round. */
  method SortEdges(edges: seq<Edge>) returns (sorted: seq<Edge>)
    ensures Sorted(EdgeBefore, sorted) && forall e :: e in sorted <==> e in edges
  {
    sorted := SortBy(EdgeBefore, edges);
    EdgeBeforeRanks();
    SortBySorts(EdgeBefore, edges);
    SameMembers(edges, sorted);
  }

  method SortRefs(refs: seq<Ref>) returns (sorted: seq<Ref>)
    ensures multiset(sorted) == multiset(refs) && Sorted(Before, sorted) && |sorted| == |refs|
    ensures Distinct(sorted) <==> Distinct(refs)
    ensures forall r :: r in sorted <==> r in refs
  {
    sorted := SortBy(Before, refs);
    BeforeRanks();
    SortBySorts(Before, refs);
    SameMembers(refs, sorted);
  }

  method FirstByName(refs: set<Ref>) returns (first: Ref)
    requires refs != {}
    ensures first in refs && forall r :: r in refs ==> !Before(r, first)
  {
    first :| first in refs;
    BeforeTotal(first, first);
    var rest := refs - {first};
    while rest != {}
      invariant rest <= refs && first in refs
      invariant forall r :: r in refs - rest ==> !Before(r, first)
    {
      var r :| r in rest;
      rest := rest - {r};
      BeforeRanks();
      BeforeTotal(r, first);
      BeforeTotal(r, r);
      if Before(r, first) {
        first := r;
      }
    }
  }
}
