/** One step of a pass: attempt it, read the target back, and judge. */
module Reconcile {
  import opened Text
  import opened Document
  import opened Graph
  import opened Provider
  import opened Diff
  import opened Plan
  import opened Blocking

  datatype Mode = Enforce | Observe

  datatype ResourceState = Converged | Drifted | Failed | Blocked | Skipped

  datatype Outcome = OutcomeConverged | OutcomeChanged | OutcomeFailed | OutcomeDrifted

  datatype PassError =
    | Unread(error: string)
    | NoProvider
    | NotInGraph
    | Protected(error: string)
    | ActionFailed(error: string)
    | Unverifiable(error: string)
    | WrongExistence
    | DidNotTake(fields: seq<FieldDiff>)

  datatype Reason = FromPlan(why: Why) | Because(reason: BlockReason) | NotCorrected(fields: seq<FieldDiff>)

  /** The result of one step. */
  datatype Ended = Ended(ref: Ref, action: Action, target: string, fields: seq<FieldDiff>,
                         state: ResourceState, reason: Reason, error: Option<PassError>)

  /** guard refuses a target on the host it is about to change; like a provider it may answer differently each time. */
  datatype Options = Options(mode: Mode, providers: Providers, repoRoot: string, guard: (nat, Ref, string) -> Option<string>)

  // Verification

  predicate InDesiredState(node: Node, seen: Observation) {
    && RequestFor(node, "", NoTrigger).Present() == seen.exists_
    && (seen.exists_ ==> CompareSpec(node.resource.ref, seen.DesiredOr(node.resource.desired), seen).fields == [])
  }

  predicate Verified(node: Node, reading: Reading) {
    reading.Read? && InDesiredState(node, reading.observation)
  }

  /** What counts as verified after an action is what would have been left alone before it. */
  lemma VerifiedIsUnchanged(node: Node, reading: Reading)
    ensures Verified(node, reading) <==>
      OwnStep(node, reading).action.Unchanged? && OwnStep(node, reading).error.None?
  {
  }

  function Verify(node: Node, seen: Observation): (ResourceState, Option<Reason>, Option<PassError>) {
    if RequestFor(node, "", NoTrigger).Present() != seen.exists_ then (Drifted, None, Some(WrongExistence))
    else if !seen.exists_ then (Converged, None, None)
    else
      var fields := CompareSpec(node.resource.ref, seen.DesiredOr(node.resource.desired), seen).fields;
      if Correctable(fields) != [] then (Drifted, None, Some(DidNotTake(Correctable(fields))))
      else if Uncorrectable(fields) != [] then (Drifted, Some(NotCorrected(Uncorrectable(fields))), None)
      else (Converged, None, None)
  }

  /** The provider was reached, whatever it then did. */
  predicate Reached(error: Option<PassError>) {
    match error
    case Some(NoProvider) => false
    case Some(NotInGraph) => false
    case Some(Protected(_)) => false
    case _ => true
  }

  lemma VerifyConverges(node: Node, seen: Observation)
    ensures Verify(node, seen).0.Converged? <==> InDesiredState(node, seen)
    ensures Verify(node, seen).0.Converged? ==> Verify(node, seen).2.None?
    ensures Reached(Verify(node, seen).2)
    ensures !Verify(node, seen).0.Blocked? && !Verify(node, seen).0.Skipped? && !Verify(node, seen).0.Failed?
  {
    ViewsDivide(CompareSpec(node.resource.ref, seen.DesiredOr(node.resource.desired), seen).fields);
  }

  /** An action failed to take exactly when existence is wrong, or something differs that could have been corrected. */
  lemma {:induction false} VerifyFails(node: Node, seen: Observation)
    ensures Verify(node, seen).2.None? <==>
      && (DeclaredAbsent(node.resource.desired) <==> !seen.exists_)
      && (seen.exists_ ==> forall f ::
            Differs(node.resource.ref.typ, Viewed(seen, node.resource.desired), seen, f) ==> !seen.CanCorrect(f))
  {
    hide CompareSpec;
    hide Mismatched;
    hide Differs;
    var view := seen.DesiredOr(node.resource.desired);
    ViewIsDesired(seen, node.resource.desired);
    ComparisonTells(node.resource.ref, view, seen);
    forall f ensures Mismatched(node.resource.ref, view, seen, f) <==> Differs(node.resource.ref.typ, view, seen, f) {
      MismatchedDiffers(node.resource.ref, view, seen, f);
    }
  }

  /** What a verdict says: wrong existence, the fields that did not take, or those nothing corrects. */
  lemma {:induction false} VerdictSays(node: Node, seen: Observation)
    ensures
      var (state, reason, error) := Verify(node, seen);
      var typ, view := node.resource.ref.typ, Viewed(seen, node.resource.desired);
      && (error == Some(WrongExistence) <==> (DeclaredAbsent(node.resource.desired) <==> seen.exists_))
      && (error.Some? ==> error.value.WrongExistence? || error.value.DidNotTake?)
      && (error.Some? && error.value.DidNotTake? ==>
            forall f :: Names(error.value.fields, f) <==> Differs(typ, view, seen, f) && seen.CanCorrect(f))
      && (reason.Some? ==> error.None? && reason.value.NotCorrected?)
      && (reason.Some? && reason.value.NotCorrected? ==>
            forall f :: Names(reason.value.fields, f) <==> Differs(typ, view, seen, f))
      && (state.Converged? <==> error.None? && reason.None?) && (!state.Converged? ==> state.Drifted?)
  {
    hide Differs;
    hide MismatchesIn;
    var typ, view := node.resource.ref.typ, seen.DesiredOr(node.resource.desired);
    var fields := CompareSpec(node.resource.ref, view, seen).fields;
    ViewIsDesired(seen, node.resource.desired);
    CompareListsDifferences(node.resource.ref, view, seen);
    ViewMembers(fields);
    hide Correctable;
    hide Uncorrectable;
    hide Viewed;
    forall f
      ensures Names(fields, f) <==> Differs(typ, view, seen, f)
      ensures Names(Correctable(fields), f) <==> Differs(typ, view, seen, f) && seen.CanCorrect(f)
    {
      OneNames(fields, view, seen, f);
    }
    if Correctable(fields) == [] {
      OnlyUncorrectable(fields);
    }
  }

  /** Among fields listed once each, the correctable one of a name is the one of that name. */
  lemma OneNames(fields: seq<FieldDiff>, view: Value, seen: Observation, f: string)
    requires forall d :: d in fields ==> view.Map? && d.field in view.fields && Tells(d, view, seen)
    ensures Names(Correctable(fields), f) <==> Names(fields, f) && seen.CanCorrect(f)
  {
    ViewMembers(fields);
    if d :| d in fields && d.field == f {
      assert d.uncorrectable == (f in seen.uncorrectable);
      assert seen.CanCorrect(f) ==> d in Correctable(fields);
    }
    if d :| d in Correctable(fields) && d.field == f {
      assert d in fields;
    }
  }

  lemma {:induction false} OnlyUncorrectable(fields: seq<FieldDiff>)
    requires Correctable(fields) == []
    ensures Uncorrectable(fields) == fields
  {
    if fields != [] {
      var n := |fields| - 1;
      assert fields == fields[..n] + [fields[n]];
      OnlyUncorrectable(fields[..n]);
    }
  }

  ghost predicate OnlyAt(before: Entries, after: Entries, key: Key) {
    forall other :: other != key ==> EntryAt(after, other) == EntryAt(before, other)
  }

  /**
   * What an attempt comes to: refused before anything is touched, a failed action, a target that
   * cannot be read back, or the verdict on what is there now, read without the trigger.
   */
  ghost predicate EnforcedTo(nodes: Nodes, opts: Options, step: Step, calls: nat, before: Entries, after: Entries,
                             state: ResourceState, reason: Option<Reason>, error: Option<PassError>)
  {
    if step.ref.typ !in opts.providers.byType then FailedWith(NoProvider, state, reason, error) && after == before
    else if step.ref !in nodes then FailedWith(NotInGraph, state, reason, error) && after == before
    else
      var node := nodes[step.ref];
      match opts.guard(calls, step.ref, node.target)
      case Some(refusal) => FailedWith(Protected(refusal), state, reason, error) && after == before
      case None =>
        var key, p := (step.ref.typ, node.target), opts.providers.byType[step.ref.typ];
        var asked := Request(step.ref, node.target, node.resource.desired, node.resource.layerDir, opts.repoRoot, step.trigger);
        var applied := p.apply(calls, asked, step.action, EntryAt(before, key));
        && after == WithEntry(before, key, applied.left)
        && match applied.error
           case Some(e) => FailedWith(ActionFailed(e), state, reason, error)
           case None =>
             match p.observe(asked.(trigger := NoTrigger), EntryAt(after, key))
             case Ok(seen) => (state, reason, error) == Verify(node, seen)
             case Err(e) => FailedWith(Unverifiable(e), state, reason, error)
  }

  predicate FailedWith(cause: PassError, state: ResourceState, reason: Option<Reason>, error: Option<PassError>) {
    state.Failed? && reason.None? && error == Some(cause)
  }

  /** Attempts one step. The verdict rests on a second reading, never on the provider's word. */
  method EnforceStep(g: Graph, opts: Options, host: Host, step: Step)
    returns (state: ResourceState, reason: Option<Reason>, error: Option<PassError>)
    requires step.ref in g.nodes ==> g.nodes[step.ref].resource.ref == step.ref
    modifies host
    ensures EnforcedTo(g.nodes, opts, step, |old(host.calls)|, old(host.entries), host.entries, state, reason, error)
    ensures host.calls == old(host.calls) + if Reached(error) then [Call(step.ref, step.action)] else []
    ensures !Reached(error) ==> host.entries == old(host.entries)
    ensures !state.Blocked? && !state.Skipped?
    ensures state.Failed? ==> error.Some?
    ensures step.ref !in g.nodes ==> !Reached(error)
    ensures step.ref in g.nodes ==> OnlyAt(old(host.entries), host.entries, KeyOf(g.nodes[step.ref]))
    ensures state.Converged? || state.Drifted? ==> step.ref in g.nodes
    ensures state.Converged? ==> error.None?
    ensures state.Converged? ==>
      Verified(g.nodes[step.ref], ReadNode(g.nodes[step.ref], opts.providers, opts.repoRoot, host.entries))
    ensures state.Drifted? ==>
      !Verified(g.nodes[step.ref], ReadNode(g.nodes[step.ref], opts.providers, opts.repoRoot, host.entries))
  {
    hide InDesiredState;
    hide Verify;
    if step.ref.typ !in opts.providers.byType {
      return Failed, None, Some(NoProvider);
    }
    if step.ref !in g.nodes {
      return Failed, None, Some(NotInGraph);
    }
    var node := g.nodes[step.ref];
    var p := opts.providers.byType[step.ref.typ];
    var refusal := opts.guard(|host.calls|, step.ref, node.target);
    if refusal.Some? {
      return Failed, None, Some(Protected(refusal.value));
    }
    var failure := host.Apply(p, RequestFor(node, opts.repoRoot, step.trigger), step.action);
    if failure.Some? {
      return Failed, None, Some(ActionFailed(failure.value));
    }
    var seen := host.Observe(p, RequestFor(node, opts.repoRoot, NoTrigger));
    match seen
    case Err(e) => return Failed, None, Some(Unverifiable(e));
    case Ok(observation) =>
      VerifyConverges(node, observation);
      var verdict := Verify(node, observation);
      return verdict.0, verdict.1, verdict.2;
  }

  // What a pass promises about each resource

  predicate Attempted(mode: Mode, step: Step, ended: Ended) {
    mode.Enforce? && step.error.None? && step.action.Changes() && !ended.state.Blocked?
  }

  function ReasonOf(step: Step, ended: Ended): BlockReason {
    if step.error.Some? then CouldNotBeRead
    else if ended.state.Drifted? then DidNotVerify(step.ref)
    else DidFail(step.ref)
  }

  predicate EndsWell(mode: Mode, step: Step, blocked: bool, ended: Ended) {
    && ended.ref == step.ref && ended.action == step.action && ended.target == step.target && ended.fields == step.fields
    && (ended.state.Blocked? <==> step.error.None? && !step.action.Skip? && blocked)
    && (ended.state.Skipped? <==> step.error.None? && step.action.Skip?)
    && (step.error.Some? ==> ended.state.Failed? && ended.error == Some(Unread(step.error.value)))
    && (ended.state.Failed? ==> ended.error.Some?)
    && (ended.error.Some? ==> ended.state.Failed? || (ended.state.Drifted? && Attempted(mode, step, ended)))
    && (step.error.None? && step.action.Unchanged? && !blocked ==> ended.state.Converged?)
    && (step.error.None? && step.action.Changes() && !blocked && mode.Observe? ==> ended.state.Drifted? && ended.error.None?)
    && (ended.state.Failed? && step.error.None? ==> Attempted(mode, step, ended))
  }

  /** What one step did to the host. */
  ghost predicate Effect(nodes: Nodes, opts: Options, step: Step, ended: Ended, before: Entries, after: Entries)
    requires step.ref in nodes
  {
    if Attempted(opts.mode, step, ended) then
      && OnlyAt(before, after, KeyOf(nodes[step.ref]))
      && (ended.state.Converged? ==> Verified(nodes[step.ref], ReadNode(nodes[step.ref], opts.providers, opts.repoRoot, after)))
    else after == before
  }

  function CallsOf(mode: Mode, step: Step, ended: Ended): seq<Call> {
    if Attempted(mode, step, ended) && Reached(ended.error) then [Call(step.ref, step.action)] else []
  }

  /** Where the attempt says nothing about why, the plan does. */
  function Explained(step: Step, reason: Option<Reason>): Reason {
    if reason.Some? then reason.value else FromPlan(step.why)
  }

  /** One step in full: an attempt that came to what it should, or a host left alone. */
  ghost predicate StepTaken(nodes: Nodes, opts: Options, step: Step, ended: Ended, calls: nat, before: Entries, after: Entries) {
    if Attempted(opts.mode, step, ended) then
      exists reason ::
        && EnforcedTo(nodes, opts, step, calls, before, after, ended.state, reason, ended.error)
        && ended.reason == (match reason { case Some(told) => told case None => FromPlan(step.why) })
    else
      after == before && (!ended.state.Blocked? ==> ended.reason == FromPlan(step.why))
  }

  method ApplyOne(g: Graph, opts: Options, host: Host, step: Step, blocked: BlockedBy)
    returns (ended: Ended, blocked': BlockedBy)
    requires g.WellFormed() && Closed(g.edges, blocked.Keys)
    requires step.ref in g.nodes && g.nodes[step.ref].resource.ref == step.ref
    modifies host
    ensures EndsWell(opts.mode, step, step.ref in blocked, ended)
    ensures ended.state.Blocked? ==> ended.reason == Because(blocked[step.ref])
    ensures Effect(g.nodes, opts, step, ended, old(host.entries), host.entries)
    ensures StepTaken(g.nodes, opts, step, ended, |old(host.calls)|, old(host.entries), host.entries)
    ensures host.calls == old(host.calls) + CallsOf(opts.mode, step, ended)
    ensures Closed(g.edges, blocked'.Keys)
    ensures if ended.error.Some? then BlockedBelow(g.edges, blocked, blocked', step.ref, ReasonOf(step, ended))
            else blocked' == blocked
  {
    hide EnforcedTo;
    hide Verified;
    hide ReadNode;
    hide OnlyAt;
    hide BlockedBelow;
    hide Closed;
    ended := Ended(step.ref, step.action, step.target, step.fields, Converged, FromPlan(step.why), None);
    blocked' := blocked;
    if step.error.Some? {
      ended := ended.(state := Failed, error := Some(Unread(step.error.value)));
      blocked' := Block(g, blocked, step.ref, CouldNotBeRead);
    } else if step.action.Skip? {
      ended := ended.(state := ResourceState.Skipped);
    } else if step.ref in blocked {
      ended := ended.(state := ResourceState.Blocked, reason := Because(blocked[step.ref]));
    } else if !step.action.Changes() {
      ended := ended.(state := Converged);
    } else if opts.mode.Observe? {
      ended := ended.(state := Drifted);
    } else {
      var state, reason, error := EnforceStep(g, opts, host, step);
      ended := ended.(state := state, error := error, reason := Explained(step, reason));
      if !state.Converged? && error.Some? {
        blocked' := Block(g, blocked, step.ref, ReasonOf(step, ended));
      }
    }
  }
}
