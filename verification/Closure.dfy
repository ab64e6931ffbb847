/** How a change spreads along restartOn and reloadOn edges. */
module Closure {
  import opened Text
  import opened Document
  import opened Topology
  import opened Counting
  import opened Provider

  /** What each resource's own comparison demands. */
  type Actions = map<Ref, Action>

  ghost predicate Fires(edges: seq<Edge>, from: Ref, to: Ref) {
    exists e :: e in edges && e.from == from && e.to == to && e.kind.Triggers()
  }

  /**
   * A path of restartOn and reloadOn edges that starts at a resource whose own comparison
   * demands a change and runs through resources that are not skipped.
   */
  ghost predicate TriggerPath(edges: seq<Edge>, own: Actions, p: seq<Ref>) {
    && p != [] && (forall i :: 0 <= i < |p| ==> p[i] in own)
    && own[p[0]].Changes()
    && forall i :: 0 < i < |p| ==> Fires(edges, p[i - 1], p[i]) && !own[p[i]].Skip?
  }

  ghost predicate WillChange(edges: seq<Edge>, own: Actions, ref: Ref) {
    exists p :: TriggerPath(edges, own, p) && p[|p| - 1] == ref
  }

  lemma ExtendTriggerPath(edges: seq<Edge>, own: Actions, from: Ref, ref: Ref)
    requires ref in own && !own[ref].Skip? && Fires(edges, from, ref) && WillChange(edges, own, from)
    ensures WillChange(edges, own, ref)
  {
    hide Fires;
    var p :| TriggerPath(edges, own, p) && p[|p| - 1] == from;
    var longer := p + [ref];
    assert longer[0] == p[0];
    forall i | 0 < i < |longer| ensures Fires(edges, longer[i - 1], longer[i]) && longer[i] in own && !own[longer[i]].Skip? {
      assert longer[i - 1] == p[i - 1] && (i < |p| ==> longer[i] == p[i]);
    }
    assert TriggerPath(edges, own, longer) && longer[|longer| - 1] == ref;
  }

  /** One step of the closure: a resource changes of its own accord, or because one it reacts to does. */
  lemma WillChangeStep(edges: seq<Edge>, own: Actions, ref: Ref)
    requires ref in own
    ensures WillChange(edges, own, ref) <==>
      || own[ref].Changes()
      || (!own[ref].Skip? && exists from :: Fires(edges, from, ref) && WillChange(edges, own, from))
  {
    if WillChange(edges, own, ref) {
      var p :| TriggerPath(edges, own, p) && p[|p| - 1] == ref;
      if |p| > 1 {
        var before := p[..|p| - 1];
        assert TriggerPath(edges, own, before) && before[|before| - 1] == p[|p| - 2];
        assert Fires(edges, p[|p| - 2], ref);
      }
    }
    if own[ref].Changes() {
      assert TriggerPath(edges, own, [ref]);
    } else if !own[ref].Skip? {
      if from :| Fires(edges, from, ref) && WillChange(edges, own, from) {
        ExtendTriggerPath(edges, own, from, ref);
      }
    }
  }

  ghost function ChangeSet(edges: seq<Edge>, own: Actions): set<Ref> {
    set r | r in own && WillChange(edges, own, r)
  }

  /** Whatever else obeys the same rule holds at least these: the closure is the least one. */
  lemma {:induction false} ChangeSetIsLeast(edges: seq<Edge>, own: Actions, other: set<Ref>)
    requires forall r :: r in own && own[r].Changes() ==> r in other
    requires forall e :: e in edges && e.kind.Triggers() && e.from in other && e.to in own && !own[e.to].Skip? ==> e.to in other
    ensures ChangeSet(edges, own) <= other
  {
    forall r | r in ChangeSet(edges, own) ensures r in other {
      var p :| TriggerPath(edges, own, p) && p[|p| - 1] == r;
      var i := 0;
      while i < |p| - 1
        invariant 0 <= i < |p| && p[i] in other
      {
        assert Fires(edges, p[i], p[i + 1]);
        i := i + 1;
      }
    }
  }

  // Triggers

  function FiredFrom(deps: seq<Edge>, changed: set<Ref>): seq<Ref> {
    if deps == [] then []
    else
      var last := deps[|deps| - 1];
      FiredFrom(deps[..|deps| - 1], changed) + if last.kind.Triggers() && last.from in changed then [last.from] else []
  }

  lemma {:induction false} FiredFromAgrees(deps: seq<Edge>, a: set<Ref>, b: set<Ref>)
    requires forall e :: e in deps ==> (e.from in a <==> e.from in b)
    ensures FiredFrom(deps, a) == FiredFrom(deps, b)
  {
    if deps != [] {
      assert forall e :: e in deps[..|deps| - 1] ==> e in deps;
      FiredFromAgrees(deps[..|deps| - 1], a, b);
    }
  }

  lemma {:induction false} FiredFromMembers(deps: seq<Edge>, changed: set<Ref>)
    ensures forall r :: r in FiredFrom(deps, changed) <==>
      r in changed && exists e :: e in deps && e.from == r && e.kind.Triggers()
  {
    if deps != [] {
      var init, last := deps[..|deps| - 1], deps[|deps| - 1];
      FiredFromMembers(init, changed);
      assert deps == init + [last];
    }
  }

  /** The first edge that triggers decides the operation. */
  function FirstTriggering(deps: seq<Edge>): Option<EdgeKind> {
    if deps == [] then None
    else if deps[0].kind.Triggers() then Some(deps[0].kind)
    else FirstTriggering(deps[1..])
  }

  function OperationOf(kind: Option<EdgeKind>): Trigger {
    match kind
    case Some(RestartOn) => Restart
    case Some(ReloadOn) => Reload
    case _ => NoTrigger
  }

  lemma {:induction false} FirstTriggeringMembers(deps: seq<Edge>)
    ensures FirstTriggering(deps).None? <==> forall e :: e in deps ==> !e.kind.Triggers()
    ensures FirstTriggering(deps).Some? ==>
      FirstTriggering(deps).value.Triggers() && exists e :: e in deps && e.kind == FirstTriggering(deps).value
  {
    if deps != [] {
      FirstTriggeringMembers(deps[1..]);
      assert deps == [deps[0]] + deps[1..];
    }
  }

  /** No resource both restarts and reloads on a change, which resolution has checked. */
  predicate OneOperation(edges: seq<Edge>, ref: Ref) {
    !exists e, f :: e in edges && f in edges && e.to == ref && f.to == ref && e.kind.RestartOn? && f.kind.ReloadOn?
  }

  /** The operation is the one declared, however parallel edges happened to be sorted. */
  lemma OperationIgnoresTies(edges: seq<Edge>, edges': seq<Edge>, ref: Ref)
    requires OneOperation(edges, ref) && forall e :: e in edges <==> e in edges'
    ensures OperationOf(FirstTriggering(Incoming(edges, ref))) == OperationOf(FirstTriggering(Incoming(edges', ref)))
    ensures OperationOf(FirstTriggering(Incoming(edges, ref))) == Restart <==>
      exists e :: e in edges && e.to == ref && e.kind.RestartOn?
    ensures OperationOf(FirstTriggering(Incoming(edges, ref))) == Reload <==>
      exists e :: e in edges && e.to == ref && e.kind.ReloadOn?
  {
    IncomingMembers(edges, ref);
    IncomingMembers(edges', ref);
    FirstTriggeringMembers(Incoming(edges, ref));
    FirstTriggeringMembers(Incoming(edges', ref));
  }

  /** In graph order every dependency is decided before the resource that reacts to it. */
  lemma DependenciesDecided(nodes: set<Ref>, edges: seq<Edge>, order: seq<Ref>, i: nat, changed: set<Ref>, closure: set<Ref>)
    requires IsTopological(nodes, edges, order) && Within(nodes, edges) && i < |order|
    requires changed == closure * Members(order[..i])
    ensures FiredFrom(Incoming(edges, order[i]), changed) == FiredFrom(Incoming(edges, order[i]), closure)
  {
    TopologicalEntryIsReady(nodes, edges, order, i);
    IncomingMembers(edges, order[i]);
    FiredFromAgrees(Incoming(edges, order[i]), changed, closure);
  }

  /** What a resource does once its dependencies are decided. */
  function Reacting(own: Action, fired: seq<Ref>): Action {
    if fired != [] && own.Unchanged? then Update else own
  }

  /** A resource changes exactly when a trigger path leads to it. */
  lemma ReactsIffReached(edges: seq<Edge>, own: Actions, ref: Ref)
    requires ref in own && Within(own.Keys, edges)
    ensures Reacting(own[ref], FiredFrom(Incoming(edges, ref), ChangeSet(edges, own))).Changes()
      <==> WillChange(edges, own, ref)
  {
    WillChangeStep(edges, own, ref);
    FiredIffReached(edges, own, ref);
  }

  lemma FiredIffReached(edges: seq<Edge>, own: Actions, ref: Ref)
    requires Within(own.Keys, edges)
    ensures FiredFrom(Incoming(edges, ref), ChangeSet(edges, own)) != [] <==>
      exists from :: Fires(edges, from, ref) && WillChange(edges, own, from)
  {
    var changed := ChangeSet(edges, own);
    var fired := FiredFrom(Incoming(edges, ref), changed);
    IncomingMembers(edges, ref);
    FiredFromMembers(Incoming(edges, ref), changed);
    if from :| Fires(edges, from, ref) && WillChange(edges, own, from) {
      var e :| e in edges && e.from == from && e.to == ref && e.kind.Triggers();
      assert from in fired;
    }
    if fired != [] {
      assert fired[0] in fired;
      assert Fires(edges, fired[0], ref);
    }
  }
}
