/** What a pass intends: one step for each resource, triggers included. */
module Plan {
  import opened Text
  import opened Document
  import opened Topology
  import opened Counting
  import opened Graph
  import opened Provider
  import opened Diff
  import opened Closure

  datatype Why = Unexplained | NotServed(reason: string) | TriggeredBy(kind: EdgeKind, sources: seq<Ref>)

  datatype Step = Step(
    ref: Ref,
    action: Action,
    target: string,
    fields: seq<FieldDiff>,
    why: Why,
    error: Option<string>,
    triggers: seq<Ref>,
    trigger: Trigger)

  type Nodes = map<Ref, Node>

  type Readings = map<Ref, Reading>

  // What one resource's own comparison demands

  predicate Present(desired: Value) {
    match Lookup(desired, "state")
    case None => true
    case Some(value) => (if value.Scalar? then value.text else "") != "absent"
  }

  function Decide(desired: Value, diff: Diff): (Action, seq<FieldDiff>) {
    var wanted := Present(desired);
    if wanted && !diff.exists_ then (Create, [])
    else if !wanted && diff.exists_ then (Remove, [])
    else if !wanted then (Unchanged, [])
    else if diff.fields != [] then (Update, diff.fields)
    else (Unchanged, [])
  }

  function ReadingFor(readings: Readings, ref: Ref): Reading {
    if ref in readings then readings[ref] else NOTHING_FOUND
  }

  function OwnStep(node: Node, reading: Reading): Step {
    var ref := node.resource.ref;
    match reading
    case Skipped(reason) => Step(ref, Skip, node.target, [], NotServed(reason), None, [], NoTrigger)
    case Unreadable(error) => Step(ref, Unchanged, node.target, [], Unexplained, Some(error), [], NoTrigger)
    case Read(seen) =>
      var desired := node.resource.desired;
      var (action, fields) := Decide(desired, CompareSpec(ref, seen.DesiredOr(desired), seen));
      Step(ref, action, node.target, fields, Unexplained, None, [], NoTrigger)
  }

  /** state: absent, written out as a scalar. */
  predicate DeclaredAbsent(desired: Value) {
    && desired.Map? && "state" in desired.fields
    && desired.fields["state"].Scalar? && desired.fields["state"].text == "absent"
  }

  /** What each action stands for, in terms of the declaration and of what was seen. */
  lemma {:induction false} ActionMeans(node: Node, reading: Reading)
    ensures
      var desired, action := node.resource.desired, OwnStep(node, reading).action;
      && (action.Skip? <==> reading.Skipped?)
      && (OwnStep(node, reading).error.Some? <==> reading.Unreadable?)
      && (action.Create? <==> reading.Read? && !reading.observation.exists_ && !DeclaredAbsent(desired))
      && (action.Remove? <==> reading.Read? && reading.observation.exists_ && DeclaredAbsent(desired))
      && (action.Update? <==>
            (&& reading.Read? && reading.observation.exists_ && !DeclaredAbsent(desired)
             && exists f :: Differs(node.resource.ref.typ, Viewed(reading.observation, desired), reading.observation, f)))
  {
    hide CompareSpec;
    hide Mismatched;
    hide Differs;
    match reading
    case Read(seen) =>
      var view := seen.DesiredOr(node.resource.desired);
      ViewIsDesired(seen, node.resource.desired);
      ComparisonTells(node.resource.ref, view, seen);
      forall f ensures Mismatched(node.resource.ref, view, seen, f) <==> Differs(node.resource.ref.typ, view, seen, f) {
        MismatchedDiffers(node.resource.ref, view, seen, f);
      }
    case _ =>
  }

  lemma ViewIsDesired(seen: Observation, declared: Value)
    ensures seen.DesiredOr(declared) == Viewed(seen, declared)
  {
  }

  /** The provider's own view of what is wanted, where it gives one, and otherwise the declaration. */
  function Viewed(seen: Observation, declared: Value): Value {
    match seen.desired
    case Map(fields, _, _) => if fields == map[] then declared else seen.desired
    case _ => declared
  }

  function OwnAction(nodes: Nodes, readings: Readings, ref: Ref): Action
    requires ref in nodes
  {
    OwnStep(nodes[ref], ReadingFor(readings, ref)).action
  }

  function OwnActions(nodes: Nodes, readings: Readings): Actions {
    map r | r in nodes :: OwnAction(nodes, readings, r)
  }

  function Triggered(own: Step, fired: seq<Ref>, kind: Option<EdgeKind>): Step {
    if fired == [] then own
    else
      var reacting := own.(triggers := fired, trigger := OperationOf(kind), action := Reacting(own.action, fired));
      if own.action.Unchanged?
      then reacting.(why := TriggeredBy(if kind.Some? then kind.value else RestartOn, fired))
      else reacting
  }

  ghost function Planned(nodes: Nodes, edges: seq<Edge>, readings: Readings, ref: Ref): Step
    requires ref in nodes
  {
    Triggered(OwnStep(nodes[ref], ReadingFor(readings, ref)),
              FiredFrom(Incoming(edges, ref), ChangeSet(edges, OwnActions(nodes, readings))),
              FirstTriggering(Incoming(edges, ref)))
  }

  lemma TriggeredAction(own: Step, fired: seq<Ref>, kind: Option<EdgeKind>)
    ensures Triggered(own, fired, kind).action == Reacting(own.action, fired)
    ensures Triggered(own, fired, kind).ref == own.ref && Triggered(own, fired, kind).error == own.error
  {
  }

  /** A step changes the host exactly when a trigger path leads to it. */
  lemma ChangesIffReached(nodes: Nodes, edges: seq<Edge>, readings: Readings, ref: Ref)
    requires ref in nodes && Within(nodes.Keys, edges)
    ensures Planned(nodes, edges, readings, ref).action.Changes()
      <==> WillChange(edges, OwnActions(nodes, readings), ref)
  {
    var own := OwnActions(nodes, readings);
    TriggeredAction(OwnStep(nodes[ref], ReadingFor(readings, ref)),
                    FiredFrom(Incoming(edges, ref), ChangeSet(edges, own)),
                    FirstTriggering(Incoming(edges, ref)));
    ReactsIffReached(edges, own, ref);
  }

  ghost predicate IsPlan(nodes: Nodes, edges: seq<Edge>, order: seq<Ref>, readings: Readings, steps: seq<Step>) {
    && |steps| == |order|
    && forall i :: 0 <= i < |order| ==> order[i] in nodes && steps[i] == Planned(nodes, edges, readings, order[i])
  }

  /** Decides one resource from what was read and what has already been seen to change. */
  method PlanOne(g: Graph, readings: Readings, i: nat, changed: set<Ref>, ghost closure: set<Ref>) returns (step: Step)
    requires g.WellFormed() && IsTopological(g.nodes.Keys, g.edges, g.order) && i < |g.order|
    requires closure == ChangeSet(g.edges, OwnActions(g.nodes, readings))
    requires changed == closure * Members(g.order[..i])
    ensures g.order[i] in g.nodes && step == Planned(g.nodes, g.edges, readings, g.order[i])
    ensures step.action.Changes() <==> g.order[i] in closure
  {
    var ref := g.order[i];
    assert ref in g.order;
    var deps := g.Dependencies(ref);
    var fired := FiredTriggers(deps, changed);
    DependenciesDecided(g.nodes.Keys, g.edges, g.order, i, changed, closure);
    step := Triggered(OwnStep(g.nodes[ref], ReadingFor(readings, ref)), fired, FirstTriggering(deps));
    ChangesIffReached(g.nodes, g.edges, readings, ref);
    assert ref in OwnActions(g.nodes, readings);
  }

  /** One forward pass in graph order computes the whole closure. */
  method Build(g: Graph, readings: Readings) returns (steps: seq<Step>)
    requires g.WellFormed() && IsTopological(g.nodes.Keys, g.edges, g.order)
    ensures IsPlan(g.nodes, g.edges, g.order, readings, steps)
  {
    hide Planned;
    hide OwnStep;
    var changed: set<Ref> := {};
    steps := [];
    ghost var nodes, edges, order := g.nodes, g.edges, g.order;
    ghost var closure := ChangeSet(edges, OwnActions(nodes, readings));
    for i := 0 to |g.order|
      invariant IsPlan(nodes, edges, order[..i], readings, steps)
      invariant changed == closure * Members(order[..i])
    {
      var step := PlanOne(g, readings, i, changed, closure);
      PrefixGrows(order, i, closure);
      PlanGrows(nodes, edges, order, i, readings, steps, step);
      if step.action.Changes() {
        changed := changed + {g.order[i]};
      }
      steps := steps + [step];
    }
    assert order[..|order|] == order;
  }

  lemma PlanGrows(nodes: Nodes, edges: seq<Edge>, order: seq<Ref>, i: nat, readings: Readings, steps: seq<Step>, step: Step)
    requires i < |order| && IsPlan(nodes, edges, order[..i], readings, steps)
    requires order[i] in nodes && step == Planned(nodes, edges, readings, order[i])
    ensures IsPlan(nodes, edges, order[..i + 1], readings, steps + [step])
  {
    hide Planned;
    assert order[..i + 1] == order[..i] + [order[i]];
  }

  lemma PrefixGrows(order: seq<Ref>, i: nat, closure: set<Ref>)
    requires i < |order|
    ensures closure * Members(order[..i + 1])
         == closure * Members(order[..i]) + if order[i] in closure then {order[i]} else {}
  {
    assert order[..i + 1] == order[..i] + [order[i]];
  }

  method FiredTriggers(deps: seq<Edge>, changed: set<Ref>) returns (out: seq<Ref>)
    ensures out == FiredFrom(deps, changed)
  {
    out := [];
    for i := 0 to |deps|
      invariant out == FiredFrom(deps[..i], changed)
    {
      assert deps[..i + 1][..i] == deps[..i];
      if deps[i].kind.Triggers() && deps[i].from in changed {
        out := out + [deps[i].from];
      }
    }
    assert deps[..|deps|] == deps;
  }

  // What a plan says, step by step

  ghost predicate SourceChanges(order: seq<Ref>, steps: seq<Step>, r: Ref) {
    exists j :: 0 <= j < |order| && j < |steps| && order[j] == r && steps[j].action.Changes()
  }

  /** A resource is in the change set exactly when its own step changes the host. */
  lemma {:induction false} ChangeSetIsPlanned(nodes: Nodes, edges: seq<Edge>, order: seq<Ref>, readings: Readings, steps: seq<Step>, r: Ref)
    requires Within(nodes.Keys, edges) && IsTopological(nodes.Keys, edges, order) && IsPlan(nodes, edges, order, readings, steps)
    ensures r in ChangeSet(edges, OwnActions(nodes, readings)) <==> SourceChanges(order, steps, r)
  {
    hide Planned;
    hide WillChange;
    if r in nodes {
      ChangesIffReached(nodes, edges, readings, r);
      var j :| 0 <= j < |order| && order[j] == r;
      assert steps[j] == Planned(nodes, edges, readings, r);
    }
    assert forall j :: 0 <= j < |order| ==> order[j] in order;
  }

  /** The sources of a step's trigger are exactly the resources it reacts to whose own steps change. */
  lemma {:induction false} TriggersSay(nodes: Nodes, edges: seq<Edge>, order: seq<Ref>, readings: Readings, steps: seq<Step>, i: nat)
    requires Within(nodes.Keys, edges) && IsTopological(nodes.Keys, edges, order) && IsPlan(nodes, edges, order, readings, steps)
    requires i < |order|
    ensures forall r :: r in steps[i].triggers <==>
      SourceChanges(order, steps, r) && exists e :: e in edges && e.from == r && e.to == order[i] && (e.kind.RestartOn? || e.kind.ReloadOn?)
  {
    hide WillChange;
    hide SourceChanges;
    var ref, changed := order[i], ChangeSet(edges, OwnActions(nodes, readings));
    PlannedTriggers(nodes, edges, readings, ref);
    FiredFromMembers(Incoming(edges, ref), changed);
    IncomingMembers(edges, ref);
    hide ChangeSet;
    forall r ensures r in changed <==> SourceChanges(order, steps, r) {
      ChangeSetIsPlanned(nodes, edges, order, readings, steps, r);
    }
  }

  lemma PlannedTriggers(nodes: Nodes, edges: seq<Edge>, readings: Readings, ref: Ref)
    requires ref in nodes
    ensures
      var fired, step := FiredFrom(Incoming(edges, ref), ChangeSet(edges, OwnActions(nodes, readings))), Planned(nodes, edges, readings, ref);
      && step.triggers == fired
      && step.trigger == (if fired == [] then NoTrigger else OperationOf(FirstTriggering(Incoming(edges, ref))))
  {
  }

  /** An edge of this kind leads here from a resource whose own step changes. */
  ghost predicate ReactsBy(edges: seq<Edge>, order: seq<Ref>, steps: seq<Step>, ref: Ref, kind: EdgeKind) {
    exists e :: e in edges && e.to == ref && e.kind == kind && SourceChanges(order, steps, e.from)
  }

  lemma {:induction false} TriggeredIffReacting(nodes: Nodes, edges: seq<Edge>, order: seq<Ref>, readings: Readings, steps: seq<Step>, i: nat)
    requires Within(nodes.Keys, edges) && IsTopological(nodes.Keys, edges, order) && IsPlan(nodes, edges, order, readings, steps)
    requires i < |order|
    ensures steps[i].triggers != [] <==>
      ReactsBy(edges, order, steps, order[i], RestartOn) || ReactsBy(edges, order, steps, order[i], ReloadOn)
  {
    hide SourceChanges;
    hide Planned;
    TriggersSay(nodes, edges, order, readings, steps, i);
    var step := steps[i];
    if step.triggers != [] {
      assert step.triggers[0] in step.triggers;
    }
    if e :| e in edges && e.to == order[i] && e.kind.Triggers() && SourceChanges(order, steps, e.from) {
      assert e.from in step.triggers;
    }
  }

  /** A step restarts exactly when it is restarted on something that changes, and reloads likewise. */
  lemma {:induction false} OperationSays(nodes: Nodes, edges: seq<Edge>, order: seq<Ref>, readings: Readings, steps: seq<Step>, i: nat)
    requires Within(nodes.Keys, edges) && IsTopological(nodes.Keys, edges, order) && IsPlan(nodes, edges, order, readings, steps)
    requires i < |order| && OneOperation(edges, order[i])
    ensures steps[i].trigger == Restart <==> ReactsBy(edges, order, steps, order[i], RestartOn)
    ensures steps[i].trigger == Reload <==> ReactsBy(edges, order, steps, order[i], ReloadOn)
  {
    hide SourceChanges;
    var ref := order[i];
    TriggeredIffReacting(nodes, edges, order, readings, steps, i);
    PlannedTriggers(nodes, edges, readings, ref);
    OperationIgnoresTies(edges, edges, ref);
    hide Planned;
    hide ChangeSet;
    hide FiredFrom;
    hide FirstTriggering;
    hide OperationOf;
    hide IsTopological;
  }

  /** A step that runs only because of its dependencies says so, in the kind it was triggered by. */
  lemma {:induction false} WhySays(nodes: Nodes, edges: seq<Edge>, order: seq<Ref>, readings: Readings, steps: seq<Step>, i: nat)
    requires IsPlan(nodes, edges, order, readings, steps) && i < |order| && steps[i].why.TriggeredBy?
    ensures steps[i].trigger == Restart <==> steps[i].why.kind.RestartOn?
    ensures steps[i].trigger == Reload <==> steps[i].why.kind.ReloadOn?
  {
    var ref := order[i];
    var deps, changed := Incoming(edges, ref), ChangeSet(edges, OwnActions(nodes, readings));
    PlannedTriggers(nodes, edges, readings, ref);
    PlannedWhy(nodes, edges, readings, ref);
    hide Planned;
    hide ChangeSet;
    hide WillChange;
    hide OwnActions;
    FiredFromMembers(deps, changed);
    FirstTriggeringMembers(deps);
    var fired := FiredFrom(deps, changed);
    assert fired[0] in fired;
    hide FiredFrom;
    hide FirstTriggering;
  }

  lemma PlannedWhy(nodes: Nodes, edges: seq<Edge>, readings: Readings, ref: Ref)
    requires ref in nodes && Planned(nodes, edges, readings, ref).why.TriggeredBy?
    ensures FiredFrom(Incoming(edges, ref), ChangeSet(edges, OwnActions(nodes, readings))) != []
    ensures
      var first := FirstTriggering(Incoming(edges, ref));
      Planned(nodes, edges, readings, ref).why.kind == if first.Some? then first.value else RestartOn
  {
    hide FiredFrom;
    hide FirstTriggering;
    hide ChangeSet;
    hide CompareSpec;
  }

  /** What else a step says: what it targets, why, whether it could be read, and the fields that differ. */
  lemma {:induction false} StepSays(nodes: Nodes, edges: seq<Edge>, order: seq<Ref>, readings: Readings, steps: seq<Step>, i: nat)
    requires IsPlan(nodes, edges, order, readings, steps) && i < |order|
    requires nodes[order[i]].resource.ref == order[i] && order[i] in readings
    ensures
      var node, reading, step := nodes[order[i]], readings[order[i]], steps[i];
      && step.ref == order[i] && step.target == node.target
      && step.error == (if reading.Unreadable? then Some(reading.error) else None)
      && (reading.Skipped? ==> step.why == NotServed(reading.reason))
      && (!reading.Skipped? ==> (step.why != Unexplained <==> step.triggers != [] && step.action.Update? && step.fields == []))
      && (!reading.Skipped? && step.why != Unexplained ==> step.why.TriggeredBy? && step.why.sources == step.triggers)
  {
    hide CompareSpec;
    hide WillChange;
    hide FiredFrom;
    hide ChangeSet;
    OwnStepSays(nodes[order[i]], readings[order[i]]);
    hide OwnStep;
  }

  lemma OwnStepSays(node: Node, reading: Reading)
    ensures
      var own := OwnStep(node, reading);
      && own.ref == node.resource.ref && own.target == node.target && own.triggers == []
      && own.error == (if reading.Unreadable? then Some(reading.error) else None)
      && own.why == (if reading.Skipped? then NotServed(reading.reason) else Unexplained)
      && (own.action.Skip? <==> reading.Skipped?)
      && (own.action.Update? ==> own.fields != []) && (own.action.Unchanged? ==> own.fields == [])
  {
    hide CompareSpec;
  }

  /** The fields of a step are those that differ, where the target is there and is meant to be. */
  lemma {:induction false} FieldsSay(nodes: Nodes, edges: seq<Edge>, order: seq<Ref>, readings: Readings, steps: seq<Step>, i: nat)
    requires IsPlan(nodes, edges, order, readings, steps) && i < |order|
    requires nodes[order[i]].resource.ref == order[i] && order[i] in readings
    ensures
      var desired, reading := nodes[order[i]].resource.desired, readings[order[i]];
      if reading.Read? && reading.observation.exists_ && !DeclaredAbsent(desired) then
        ListsDifferences(order[i], Viewed(reading.observation, desired), reading.observation, steps[i].fields)
      else steps[i].fields == []
  {
    hide ListsDifferences;
    hide MismatchesIn;
    hide Viewed;
    var node, reading := nodes[order[i]], readings[order[i]];
    KeepsFields(nodes, edges, readings, order[i]);
    OwnFields(node, reading);
    hide Planned;
    hide OwnStep;
    hide CompareSpec;
    if reading.Read? {
      ViewIsDesired(reading.observation, node.resource.desired);
      CompareListsDifferences(order[i], reading.observation.DesiredOr(node.resource.desired), reading.observation);
    }
  }

  lemma OwnFields(node: Node, reading: Reading)
    ensures
      var desired, ref := node.resource.desired, node.resource.ref;
      OwnStep(node, reading).fields ==
        if reading.Read? && reading.observation.exists_ && !DeclaredAbsent(desired)
        then CompareSpec(ref, reading.observation.DesiredOr(desired), reading.observation).fields
        else []
  {
    hide MismatchesIn;
    assert reading.Read? ==>
      var seen := reading.observation;
      CompareSpec(node.resource.ref, seen.DesiredOr(node.resource.desired), seen).exists_ == seen.exists_;
    hide CompareSpec;
    PresentUnlessAbsent(node.resource.desired);
    hide Present;
    hide DeclaredAbsent;
  }

  lemma PresentUnlessAbsent(desired: Value)
    ensures Present(desired) <==> !DeclaredAbsent(desired)
  {
  }

  lemma KeepsFields(nodes: Nodes, edges: seq<Edge>, readings: Readings, ref: Ref)
    requires ref in nodes
    ensures Planned(nodes, edges, readings, ref).fields == OwnStep(nodes[ref], ReadingFor(readings, ref)).fields
  {
    hide OwnStep;
  }
}
