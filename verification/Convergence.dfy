/** What holds across a whole pass and into the next one. */
module Convergence {
  import opened Text
  import opened Document
  import opened Topology
  import opened Graph
  import opened Provider
  import opened Closure
  import opened Plan
  import opened Reconcile
  import opened Pass

  ghost predicate Buildable(nodes: Nodes, edges: seq<Edge>, order: seq<Ref>) {
    && Within(nodes.Keys, edges)
    && IsTopological(nodes.Keys, edges, order)
    && forall r :: r in nodes ==> nodes[r].resource.ref == r
  }

  // Blocking

  /** In graph order a failure above a resource has always happened before its turn. */
  lemma {:induction false} FailureIsEarlier(nodes: Nodes, edges: seq<Edge>, order: seq<Ref>, steps: seq<Step>, results: seq<Ended>, i: nat)
    requires Buildable(nodes, edges, order) && InGraphOrder(order, steps)
    requires i < |results| <= |steps| && forall k :: 0 <= k < |results| ==> results[k].ref == steps[k].ref
    ensures Above(edges, results[..i], steps[i].ref) <==> Above(edges, results, steps[i].ref)
  {
    var ref := steps[i].ref;
    if j :| FailsAbove(edges, results[..i], ref, j) {
      assert FailsAbove(edges, results, ref, j);
    }
    if j :| FailsAbove(edges, results, ref, j) {
      DownstreamIsLater(nodes.Keys, edges, order, results[j].ref, ref);
      assert order[i] == ref && order[j] == results[j].ref;
      assert j < i;
      assert FailsAbove(edges, results[..i], ref, j);
    }
  }

  lemma {:induction false} BlockedIffAbove(nodes: Nodes, edges: seq<Edge>, order: seq<Ref>, mode: Mode, steps: seq<Step>, results: seq<Ended>, i: nat)
    requires Buildable(nodes, edges, order) && InGraphOrder(order, steps)
    requires AllEndWell(mode, edges, steps, results) && i < |results|
    ensures results[i].state.Blocked? <==>
      steps[i].error.None? && !steps[i].action.Skip? && Above(edges, results, steps[i].ref)
    ensures AttemptedAt(mode, steps, results, i) <==>
      mode.Enforce? && steps[i].error.None? && steps[i].action.Changes() && !Above(edges, results, steps[i].ref)
  {
    forall k | 0 <= k < |results| ensures results[k].ref == steps[k].ref {
      assert EndedAt(mode, edges, steps, results, k);
    }
    FailureIsEarlier(nodes, edges, order, steps, results, i);
    assert EndedAt(mode, edges, steps, results, i);
  }

  /** The plan asks for a change here, nothing above failed, its type is served and the guard lets it through. */
  ghost predicate Due(nodes: Nodes, edges: seq<Edge>, opts: Options, step: Step, results: seq<Ended>, calls: nat) {
    && opts.mode.Enforce? && step.error.None? && step.action.Changes() && !Above(edges, results, step.ref)
    && step.ref.typ in opts.providers.byType
    && step.ref in nodes && opts.guard(calls, step.ref, nodes[step.ref].target).None?
  }

  /**
   * A resource ends blocked exactly when it could be read, is not skipped, and something it
   * depends on, directly or not, ended with an error. Everything else is processed: a provider
   * is called exactly where a call is due, with the step's own action, and whatever the plan
   * wants changed below no failure ends as its attempt came out.
   */
  lemma {:induction false} ExactBlocking(nodes: Nodes, edges: seq<Edge>, order: seq<Ref>, opts: Options,
                                         steps: seq<Step>, results: seq<Ended>, calls: nat, at: seq<Entries>, i: nat)
    requires Buildable(nodes, edges, order) && InGraphOrder(order, steps)
    requires AllEndWell(opts.mode, edges, steps, results) && Traced(nodes, opts, steps, results, calls, at) && i < |results|
    ensures results[i].state.Blocked? <==>
      steps[i].error.None? && !steps[i].action.Skip? && Above(edges, results, steps[i].ref)
    ensures
      var before := CallsBefore(opts.mode, steps, results, calls, i);
      CallsOf(opts.mode, steps[i], results[i]) ==
        if Due(nodes, edges, opts, steps[i], results, before) then [Call(steps[i].ref, steps[i].action)] else []
    ensures
      opts.mode.Enforce? && steps[i].error.None? && steps[i].action.Changes() && !Above(edges, results, steps[i].ref) ==>
        && AttemptedAt(opts.mode, steps, results, i)
        && StepTaken(nodes, opts, steps[i], results[i], CallsBefore(opts.mode, steps, results, calls, i), at[i], at[i + 1])
  {
    hide EnforcedTo;
    hide Above;
    BlockedIffAbove(nodes, edges, order, opts.mode, steps, results, i);
    assert order[i] in order;
    assert TracedAt(nodes, opts, steps, results, calls, at, i);
    if AttemptedAt(opts.mode, steps, results, i) {
      var before := CallsBefore(opts.mode, steps, results, calls, i);
      var reason :| EnforcedTo(nodes, opts, steps[i], before, at[i], at[i + 1], results[i].state, reason, results[i].error);
      ReachedIffServed(nodes, opts, steps[i], before, at[i], at[i + 1], results[i].state, reason, results[i].error);
    }
  }

  /** An attempt gets as far as the provider unless there is none or the guard refuses. */
  lemma {:induction false} ReachedIffServed(nodes: Nodes, opts: Options, step: Step, calls: nat, before: Entries, after: Entries,
                                            state: ResourceState, reason: Option<Reason>, error: Option<PassError>)
    requires EnforcedTo(nodes, opts, step, calls, before, after, state, reason, error)
    ensures Reached(error) <==>
      step.ref.typ in opts.providers.byType && step.ref in nodes && opts.guard(calls, step.ref, nodes[step.ref].target).None?
  {
    hide Verify;
    forall seen | step.ref in nodes ensures Reached(Verify(nodes[step.ref], seen).2) {
      VerifyConverges(nodes[step.ref], seen);
    }
  }

  /** Every Apply call belongs to a step that was attempted, so none runs below a failure. */
  lemma {:induction false} CallsAreAttempts(mode: Mode, steps: seq<Step>, results: seq<Ended>, c: Call)
    requires |results| <= |steps| && c in MadeCalls(mode, steps, results)
    ensures exists i :: AttemptedAt(mode, steps, results, i) && c == Call(steps[i].ref, steps[i].action)
  {
    var n := |results| - 1;
    if c in CallsOf(mode, steps[n], results[n]) {
      assert AttemptedAt(mode, steps, results, n);
    } else {
      CallsAreAttempts(mode, steps, results[..n], c);
      var i :| AttemptedAt(mode, steps, results[..n], i) && c == Call(steps[i].ref, steps[i].action);
      assert AttemptedAt(mode, steps, results, i);
    }
  }

  lemma {:induction false} NoCallBelowFailure(nodes: Nodes, edges: seq<Edge>, order: seq<Ref>, mode: Mode, steps: seq<Step>, results: seq<Ended>, c: Call)
    requires Buildable(nodes, edges, order) && InGraphOrder(order, steps)
    requires AllEndWell(mode, edges, steps, results)
    requires c in MadeCalls(mode, steps, results)
    ensures mode.Enforce? && c.action.Changes() && !Above(edges, results, c.ref)
  {
    CallsAreAttempts(mode, steps, results, c);
    var i :| AttemptedAt(mode, steps, results, i) && c == Call(steps[i].ref, steps[i].action);
    BlockedIffAbove(nodes, edges, order, mode, steps, results, i);
  }

  // Convergence

  ghost predicate ReadAll(nodes: Nodes, opts: Options, entries: Entries, readings: Readings) {
    forall r :: r in nodes ==> r in readings && readings[r] == ReadNode(nodes[r], opts.providers, opts.repoRoot, entries)
  }

  /** Nothing to do here: no provider serves it, or it reads back as declared. */
  predicate Quiet(node: Node, reading: Reading) {
    reading.Skipped? || Verified(node, reading)
  }

  lemma SameEntrySameReading(node: Node, opts: Options, before: Entries, after: Entries)
    requires EntryAt(before, KeyOf(node)) == EntryAt(after, KeyOf(node))
    ensures ReadNode(node, opts.providers, opts.repoRoot, before) == ReadNode(node, opts.providers, opts.repoRoot, after)
  {
  }

  lemma {:induction false} QuietAfterwards(nodes: Nodes, edges: seq<Edge>, order: seq<Ref>, opts: Options,
                        before: Entries, readings: Readings, steps: seq<Step>, results: seq<Ended>, after: Entries, i: nat)
    requires Buildable(nodes, edges, order) && opts.mode.Enforce?
    requires ReadAll(nodes, opts, before, readings) && IsPlan(nodes, edges, order, readings, steps)
    requires Kept(nodes, edges, opts, steps, results, before, after) && |results| == |steps|
    requires i < |steps| && (results[i].state.Converged? || results[i].state.Skipped?)
    ensures Quiet(nodes[order[i]], ReadNode(nodes[order[i]], opts.providers, opts.repoRoot, after))
  {
    var r := order[i];
    var node := nodes[r];
    PlannedOwn(nodes, edges, readings, r);
    assert EndedAt(opts.mode, edges, steps, results, i);
    hide OwnStep;
    hide Planned;
    hide Verified;
    hide ReadNode;
    if results[i].state.Skipped? {
      SkippedStays(node, opts, before, after);
    } else if !AttemptedAt(opts.mode, steps, results, i) {
      VerifiedIsUnchanged(node, readings[r]);
      forall k | AttemptedAt(opts.mode, steps, results, k) ensures steps[k].ref != r {
        PlannedOwn(nodes, edges, readings, order[k]);
      }
      SameEntrySameReading(node, opts, before, after);
    }
  }

  /** Triggers never turn a change into none, nor a skip into anything. */
  lemma PlannedOwn(nodes: Nodes, edges: seq<Edge>, readings: Readings, r: Ref)
    requires r in nodes && nodes[r].resource.ref == r && r in readings
    ensures
      var own, planned := OwnStep(nodes[r], readings[r]), Planned(nodes, edges, readings, r);
      && planned.ref == r && planned.error == own.error
      && (planned.action.Skip? <==> own.action.Skip?)
      && (planned.action.Unchanged? ==> own.action.Unchanged?)
  {
    hide OwnStep;
    PlannedRef(nodes, edges, readings, r);
    var fired := FiredFrom(Incoming(edges, r), ChangeSet(edges, OwnActions(nodes, readings)));
    TriggeredAction(OwnStep(nodes[r], readings[r]), fired, FirstTriggering(Incoming(edges, r)));
  }

  /** What nothing serves stays unserved, whatever is on the host. */
  lemma SkippedStays(node: Node, opts: Options, before: Entries, after: Entries)
    requires OwnStep(node, ReadNode(node, opts.providers, opts.repoRoot, before)).action.Skip?
    ensures ReadNode(node, opts.providers, opts.repoRoot, after).Skipped?
  {
  }

  lemma PlannedRef(nodes: Nodes, edges: seq<Edge>, readings: Readings, r: Ref)
    requires r in nodes && nodes[r].resource.ref == r
    ensures Planned(nodes, edges, readings, r).ref == r
  {
  }

  /** Where every reading is quiet, no trigger fires and the plan changes nothing. */
  lemma QuietPlan(nodes: Nodes, edges: seq<Edge>, order: seq<Ref>, readings: Readings, steps: seq<Step>)
    requires forall r :: r in nodes ==> r in readings && Quiet(nodes[r], readings[r])
    requires IsPlan(nodes, edges, order, readings, steps)
    ensures forall i :: 0 <= i < |steps| ==> !steps[i].action.Changes() && steps[i].error.None?
  {
    var own := OwnActions(nodes, readings);
    forall r | r in nodes ensures !own[r].Changes() {
      VerifiedIsUnchanged(nodes[r], readings[r]);
    }
    assert ChangeSet(edges, own) == {};
    forall i | 0 <= i < |steps| ensures !steps[i].action.Changes() && steps[i].error.None? {
      var r := order[i];
      NothingFires(Incoming(edges, r));
      VerifiedIsUnchanged(nodes[r], readings[r]);
    }
  }

  lemma {:induction false} NothingFires(deps: seq<Edge>)
    ensures FiredFrom(deps, {}) == []
  {
    if deps != [] {
      NothingFires(deps[..|deps| - 1]);
    }
  }

  /**
   * If every resource of a completed enforcing pass ends converged, or is skipped because
   * nothing serves it, then reading the host again gives a plan with nothing to do.
   */
  lemma {:induction false} Convergence(nodes: Nodes, edges: seq<Edge>, order: seq<Ref>, opts: Options,
                    before: Entries, readings: Readings, steps: seq<Step>, results: seq<Ended>,
                    after: Entries, readings': Readings, steps': seq<Step>)
    requires Buildable(nodes, edges, order) && opts.mode.Enforce?
    requires ReadAll(nodes, opts, before, readings) && IsPlan(nodes, edges, order, readings, steps)
    requires Kept(nodes, edges, opts, steps, results, before, after) && |results| == |steps|
    requires forall i :: 0 <= i < |results| ==> results[i].state.Converged? || results[i].state.Skipped?
    requires ReadAll(nodes, opts, after, readings') && IsPlan(nodes, edges, order, readings', steps')
    ensures forall i :: 0 <= i < |steps'| ==> !steps'[i].action.Changes() && steps'[i].error.None?
  {
    forall r | r in nodes ensures r in readings' && Quiet(nodes[r], readings'[r]) {
      var i :| 0 <= i < |order| && order[i] == r;
      QuietAfterwards(nodes, edges, order, opts, before, readings, steps, results, after, i);
    }
    QuietPlan(nodes, edges, order, readings', steps');
  }

  /** A plan with nothing to do makes no Apply call, leaves every target alone and ends converged. */
  lemma {:induction false} QuietPass(nodes: Nodes, edges: seq<Edge>, order: seq<Ref>, opts: Options, steps: seq<Step>, results: seq<Ended>,
                  before: Entries, after: Entries)
    requires Kept(nodes, edges, opts, steps, results, before, after) && |results| == |steps|
    requires forall i :: 0 <= i < |steps| ==> !steps[i].action.Changes() && steps[i].error.None?
    ensures MadeCalls(opts.mode, steps, results) == []
    ensures OutcomeOf(results, AnyAttempted(opts.mode, steps, results)) == OutcomeConverged
    ensures forall r :: r in nodes ==> EntryAt(after, KeyOf(nodes[r])) == EntryAt(before, KeyOf(nodes[r]))
  {
    QuietCalls(opts.mode, steps, results);
    forall i | 0 <= i < |results| ensures results[i].error.None? && (results[i].state.Converged? || results[i].state.Skipped?) {
      QuietResult(opts.mode, edges, steps, results, i);
    }
    QuietOutcome(results, AnyAttempted(opts.mode, steps, results));
  }

  lemma QuietCalls(mode: Mode, steps: seq<Step>, results: seq<Ended>)
    requires |results| == |steps|
    requires forall i :: 0 <= i < |steps| ==> !steps[i].action.Changes()
    ensures MadeCalls(mode, steps, results) == [] && !AnyAttempted(mode, steps, results)
  {
    if MadeCalls(mode, steps, results) != [] {
      CallsAreAttempts(mode, steps, results, MadeCalls(mode, steps, results)[0]);
    }
  }

  lemma QuietOutcome(results: seq<Ended>, applied: bool)
    requires forall i :: 0 <= i < |results| ==>
      results[i].error.None? && (results[i].state.Converged? || results[i].state.Skipped?)
    ensures !applied ==> OutcomeOf(results, applied) == OutcomeConverged
  {
    forall r | r in results ensures !r.state.Failed? && !r.state.Blocked? && !r.state.Drifted? {
      var i :| 0 <= i < |results| && results[i] == r;
    }
  }

  lemma {:induction false} QuietResult(mode: Mode, edges: seq<Edge>, steps: seq<Step>, results: seq<Ended>, i: nat)
    requires AllEndWell(mode, edges, steps, results) && i < |results| <= |steps|
    requires forall i :: 0 <= i < |steps| ==> !steps[i].action.Changes() && steps[i].error.None?
    ensures results[i].error.None? && (results[i].state.Converged? || results[i].state.Skipped?)
    decreases i
  {
    forall k | 0 <= k < i ensures results[k].error.None? {
      QuietResult(mode, edges, steps, results, k);
    }
    assert !Above(edges, results[..i], steps[i].ref);
    assert EndedAt(mode, edges, steps, results, i);
  }

  /** Reads, plans and applies once. */
  method RunPass(g: Graph, host: Host, opts: Options, cancelledAt: nat)
    returns (readings: Readings, steps: seq<Step>, results: seq<Ended>, outcome: Option<Outcome>, ghost at: seq<Entries>)
    requires g.Valid()
    modifies host
    ensures ReadAll(g.nodes, opts, old(host.entries), readings)
    ensures IsPlan(g.nodes, g.edges, g.order, readings, steps) && InGraphOrder(g.order, steps)
    ensures Kept(g.nodes, g.edges, opts, steps, results, old(host.entries), host.entries)
    ensures Traced(g.nodes, opts, steps, results, |old(host.calls)|, at)
    ensures at[0] == old(host.entries) && at[|results|] == host.entries
    ensures host.calls == old(host.calls) + MadeCalls(opts.mode, steps, results)
    ensures |results| == if cancelledAt < |steps| then cancelledAt else |steps|
    ensures outcome.Some? <==> |results| == |steps|
    ensures outcome.Some? ==> outcome.value == OutcomeOf(results, AnyAttempted(opts.mode, steps, results))
    ensures outcome.Some? ==> Describes(outcome.value, results, |host.calls| - |old(host.calls)|)
  {
    readings := ObserveHost(g, host, opts.providers, opts.repoRoot);
    steps := Build(g, readings);
    forall i | 0 <= i < |g.order| ensures steps[i].ref == g.order[i] {
      PlannedRef(g.nodes, g.edges, readings, g.order[i]);
    }
    results, outcome, at := Apply(g, steps, opts, host, cancelledAt);
  }

  /** Two passes with nothing happening to the host in between: the second has nothing left to do. */
  method RunTwice(g: Graph, host: Host, opts: Options)
    returns (first: seq<Ended>, calls: seq<Call>, outcome: Option<Outcome>)
    requires g.Valid() && opts.mode.Enforce?
    modifies host
    ensures (forall i :: 0 <= i < |first| ==> first[i].state.Converged? || first[i].state.Skipped?) ==>
      host.calls == calls && outcome == Some(OutcomeConverged)
  {
    var readings, steps, results, _, _ := RunPass(g, host, opts, |g.order|);
    ghost var between := host.entries;
    first, calls := results, host.calls;
    var readings', steps', results', outcome', _ := RunPass(g, host, opts, |g.order|);
    outcome := outcome';
    if forall i :: 0 <= i < |first| ==> first[i].state.Converged? || first[i].state.Skipped? {
      Convergence(g.nodes, g.edges, g.order, opts, old(host.entries), readings, steps, results, between, readings', steps');
      QuietPass(g.nodes, g.edges, g.order, opts, steps', results', between, host.entries);
    }
  }
}
