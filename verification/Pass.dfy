/** A whole pass, and what the next one finds. */
module Pass {
  import opened Text
  import opened Document
  import opened Topology
  import opened Graph
  import opened Provider
  import opened Plan
  import opened Blocking
  import opened Reconcile

  // Failures and what lies below them

  ghost predicate FailsAbove(edges: seq<Edge>, results: seq<Ended>, ref: Ref, j: int) {
    0 <= j < |results| && results[j].error.Some? && Downstream(edges, results[j].ref, ref)
  }

  /** Some resource this one depends on, directly or not, ended with an error. */
  ghost predicate Above(edges: seq<Edge>, results: seq<Ended>, ref: Ref) {
    exists j :: FailsAbove(edges, results, ref, j)
  }

  ghost predicate FirstAbove(edges: seq<Edge>, results: seq<Ended>, ref: Ref, j: int) {
    FailsAbove(edges, results, ref, j) && forall k :: 0 <= k < j ==> !FailsAbove(edges, results, ref, k)
  }

  /** The blocked map holds what lies below a failure so far, each with the first reason. */
  ghost predicate Tracks(edges: seq<Edge>, steps: seq<Step>, results: seq<Ended>, blocked: BlockedBy) {
    && |results| <= |steps|
    && (forall r :: r in blocked <==> Above(edges, results, r))
    && (forall r, j :: r in blocked && FirstAbove(edges, results, r, j) ==> blocked[r] == ReasonOf(steps[j], results[j]))
  }

  lemma AboveGrows(edges: seq<Edge>, results: seq<Ended>, ended: Ended, ref: Ref)
    ensures Above(edges, results + [ended], ref) <==>
      Above(edges, results, ref) || (ended.error.Some? && Downstream(edges, ended.ref, ref))
    ensures forall j :: 0 <= j < |results| ==>
      (FailsAbove(edges, results + [ended], ref, j) <==> FailsAbove(edges, results, ref, j))
  {
    if j :| FailsAbove(edges, results, ref, j) {
      assert FailsAbove(edges, results + [ended], ref, j);
    }
    if ended.error.Some? && Downstream(edges, ended.ref, ref) {
      assert FailsAbove(edges, results + [ended], ref, |results|);
    }
    if j :| FailsAbove(edges, results + [ended], ref, j) {
      if j < |results| {
        assert FailsAbove(edges, results, ref, j);
      }
    }
  }

  lemma TracksNext(edges: seq<Edge>, steps: seq<Step>, results: seq<Ended>, blocked: BlockedBy, ended: Ended, blocked': BlockedBy)
    requires Tracks(edges, steps, results, blocked) && |results| < |steps|
    requires ended.ref == steps[|results|].ref
    requires if ended.error.Some? then BlockedBelow(edges, blocked, blocked', ended.ref, ReasonOf(steps[|results|], ended))
             else blocked' == blocked
    ensures Tracks(edges, steps, results + [ended], blocked')
  {
    forall r: Ref ensures r in blocked' <==> Above(edges, results + [ended], r) {
      AboveGrows(edges, results, ended, r);
    }
    forall r, j | r in blocked' && FirstAbove(edges, results + [ended], r, j)
      ensures blocked'[r] == ReasonOf(steps[j], (results + [ended])[j])
    {
      FirstReasonKept(edges, results, ended, r, j);
    }
  }

  /** The first failure above a resource stays the first: an earlier one is never added. */
  lemma FirstReasonKept(edges: seq<Edge>, results: seq<Ended>, ended: Ended, r: Ref, j: int)
    requires FirstAbove(edges, results + [ended], r, j)
    ensures Above(edges, results, r) ==> j < |results| && FirstAbove(edges, results, r, j)
    ensures !Above(edges, results, r) ==> j == |results|
  {
    AboveGrows(edges, results, ended, r);
    if j < |results| {
      assert FailsAbove(edges, results, r, j);
    }
  }

  // What a pass promises

  ghost predicate InGraphOrder(order: seq<Ref>, steps: seq<Step>) {
    |steps| == |order| && forall i :: 0 <= i < |order| ==> steps[i].ref == order[i]
  }

  ghost predicate AllEndWell(mode: Mode, edges: seq<Edge>, steps: seq<Step>, results: seq<Ended>) {
    && |results| <= |steps|
    && forall i :: 0 <= i < |results| ==> EndedAt(mode, edges, steps, results, i)
  }

  ghost predicate EndedAt(mode: Mode, edges: seq<Edge>, steps: seq<Step>, results: seq<Ended>, i: nat)
    requires i < |results| <= |steps|
  {
    && EndsWell(mode, steps[i], Above(edges, results[..i], steps[i].ref), results[i])
    && (results[i].state.Blocked? ==> forall j :: FirstAbove(edges, results[..i], steps[i].ref, j) ==>
          results[i].reason == Because(ReasonOf(steps[j], results[j])))
  }

  ghost predicate AttemptedAt(mode: Mode, steps: seq<Step>, results: seq<Ended>, i: int) {
    0 <= i < |results| <= |steps| && Attempted(mode, steps[i], results[i])
  }

  /** Whatever converged under an action still reads back as declared. */
  ghost predicate Settled(nodes: Nodes, opts: Options, steps: seq<Step>, results: seq<Ended>, entries: Entries) {
    forall i :: AttemptedAt(opts.mode, steps, results, i) && steps[i].ref in nodes && results[i].state.Converged? ==>
      Verified(nodes[steps[i].ref], ReadNode(nodes[steps[i].ref], opts.providers, opts.repoRoot, entries))
  }

  /** The target of a resource that was not acted on holds what it held. */
  ghost predicate Untouched(nodes: Nodes, mode: Mode, steps: seq<Step>, results: seq<Ended>, before: Entries, after: Entries) {
    forall r :: r in nodes && (forall i :: AttemptedAt(mode, steps, results, i) ==> steps[i].ref != r) ==>
      EntryAt(after, KeyOf(nodes[r])) == EntryAt(before, KeyOf(nodes[r]))
  }

  function MadeCalls(mode: Mode, steps: seq<Step>, results: seq<Ended>): seq<Call>
    requires |results| <= |steps|
  {
    if results == [] then []
    else
      var n := |results| - 1;
      MadeCalls(mode, steps, results[..n]) + CallsOf(mode, steps[n], results[n])
  }

  /** The host before each step and at the end, every step taken as it should be from where the last one left it. */
  ghost predicate Traced(nodes: Nodes, opts: Options, steps: seq<Step>, results: seq<Ended>, calls: nat, at: seq<Entries>) {
    && |results| <= |steps| && |at| == |results| + 1
    && forall i :: 0 <= i < |results| ==> TracedAt(nodes, opts, steps, results, calls, at, i)
  }

  ghost predicate TracedAt(nodes: Nodes, opts: Options, steps: seq<Step>, results: seq<Ended>, calls: nat, at: seq<Entries>, i: nat)
    requires i < |results| <= |steps| && |at| == |results| + 1
  {
    StepTaken(nodes, opts, steps[i], results[i], CallsBefore(opts.mode, steps, results, calls, i), at[i], at[i + 1])
  }

  /** The calls made on the host by the time a step is taken. */
  function CallsBefore(mode: Mode, steps: seq<Step>, results: seq<Ended>, calls: nat, i: nat): nat
    requires i <= |results| <= |steps|
  {
    calls + |MadeCalls(mode, steps, results[..i])|
  }

  lemma TracedNext(nodes: Nodes, opts: Options, steps: seq<Step>, results: seq<Ended>, calls: nat, at: seq<Entries>,
                   ended: Ended, after: Entries)
    requires Traced(nodes, opts, steps, results, calls, at) && |results| < |steps|
    requires StepTaken(nodes, opts, steps[|results|], ended, calls + |MadeCalls(opts.mode, steps, results)|, at[|results|], after)
    ensures Traced(nodes, opts, steps, results + [ended], calls, at + [after])
  {
    hide StepTaken;
    hide MadeCalls;
    var results', at' := results + [ended], at + [after];
    forall i | 0 <= i < |results'| ensures TracedAt(nodes, opts, steps, results', calls, at', i) {
      if i < |results| {
        assert TracedAt(nodes, opts, steps, results, calls, at, i);
        assert results'[..i] == results[..i];
      } else {
        assert results'[..i] == results;
      }
    }
  }

  lemma AllEndWellNext(mode: Mode, edges: seq<Edge>, steps: seq<Step>, results: seq<Ended>, blocked: BlockedBy, ended: Ended)
    requires AllEndWell(mode, edges, steps, results) && |results| < |steps| && Tracks(edges, steps, results, blocked)
    requires EndsWell(mode, steps[|results|], steps[|results|].ref in blocked, ended)
    requires ended.state.Blocked? ==> ended.reason == Because(blocked[steps[|results|].ref])
    ensures AllEndWell(mode, edges, steps, results + [ended])
  {
    var results' := results + [ended];
    forall i | 0 <= i < |results'| ensures EndedAt(mode, edges, steps, results', i) {
      if i < |results| {
        assert results'[..i] == results[..i];
        assert EndedAt(mode, edges, steps, results, i);
      } else {
        assert results'[..i] == results;
      }
    }
  }

  /** Distinct targets keep one resource's action out of every other resource's way. */
  lemma EffectNext(nodes: Nodes, opts: Options, steps: seq<Step>, results: seq<Ended>, ended: Ended,
                   start: Entries, before: Entries, after: Entries)
    requires |results| < |steps| && steps[|results|].ref in nodes && DistinctTargets(nodes)
    requires forall r :: r in nodes ==> nodes[r].resource.ref == r
    requires forall i :: 0 <= i < |results| ==> steps[i].ref != steps[|results|].ref
    requires Effect(nodes, opts, steps[|results|], ended, before, after)
    requires Settled(nodes, opts, steps, results, before) && Untouched(nodes, opts.mode, steps, results, start, before)
    ensures Settled(nodes, opts, steps, results + [ended], after)
    ensures Untouched(nodes, opts.mode, steps, results + [ended], start, after)
  {
    var n := |results|;
    var results' := results + [ended];
    forall r | r in nodes && r != steps[n].ref
      ensures EntryAt(after, KeyOf(nodes[r])) == EntryAt(before, KeyOf(nodes[r]))
    {
      assert KeyOf(nodes[r]) != KeyOf(nodes[steps[n].ref]);
    }
    forall i | AttemptedAt(opts.mode, steps, results', i) && steps[i].ref in nodes && results'[i].state.Converged?
      ensures Verified(nodes[steps[i].ref], ReadNode(nodes[steps[i].ref], opts.providers, opts.repoRoot, after))
    {
      if i < n {
        assert AttemptedAt(opts.mode, steps, results, i);
      }
    }
    forall r | r in nodes && forall i :: AttemptedAt(opts.mode, steps, results', i) ==> steps[i].ref != r
      ensures EntryAt(after, KeyOf(nodes[r])) == EntryAt(start, KeyOf(nodes[r]))
    {
      forall i | AttemptedAt(opts.mode, steps, results, i) ensures steps[i].ref != r {
        assert AttemptedAt(opts.mode, steps, results', i);
      }
      if r == steps[n].ref {
        assert !AttemptedAt(opts.mode, steps, results', n);
      }
    }
  }

  // How a pass ends

  function OutcomeOf(results: seq<Ended>, applied: bool): Outcome {
    if exists r :: r in results && (r.state.Failed? || r.state.Blocked? || (r.state.Drifted? && r.error.Some?)) then OutcomeFailed
    else if exists r :: r in results && r.state.Drifted? then OutcomeDrifted
    else if applied then OutcomeChanged
    else OutcomeConverged
  }

  ghost predicate SomeError(results: seq<Ended>) {
    exists r :: r in results && r.error.Some?
  }

  ghost predicate SomeDrift(results: seq<Ended>) {
    exists r :: r in results && r.state.Drifted?
  }

  /** What an outcome says about the results of a pass and the number of calls it made. */
  ghost predicate Describes(outcome: Outcome, results: seq<Ended>, calls: int) {
    match outcome
    case OutcomeFailed => SomeError(results)
    case OutcomeDrifted => !SomeError(results) && SomeDrift(results)
    case OutcomeChanged => !SomeError(results) && !SomeDrift(results) && calls > 0
    case OutcomeConverged => !SomeError(results) && !SomeDrift(results) && calls == 0
  }

  lemma {:induction false} CallsOfAttempts(mode: Mode, steps: seq<Step>, results: seq<Ended>)
    requires |results| <= |steps| && !SomeError(results)
    ensures MadeCalls(mode, steps, results) != [] <==> AnyAttempted(mode, steps, results)
  {
    if results != [] {
      var n := |results| - 1;
      var init := results[..n];
      assert results == init + [results[n]] && results[n] in results;
      forall r | r in init ensures r.error.None? {
        assert r in results;
      }
      CallsOfAttempts(mode, steps, init);
      AnyAttemptedNext(mode, steps, init, results[n]);
    }
  }

  /** The outcome tells exactly what happened: a blocked resource always sits below an error. */
  lemma {:induction false} OutcomeTells(mode: Mode, edges: seq<Edge>, steps: seq<Step>, results: seq<Ended>)
    requires AllEndWell(mode, edges, steps, results)
    ensures Describes(OutcomeOf(results, AnyAttempted(mode, steps, results)), results, |MadeCalls(mode, steps, results)|)
  {
    hide AnyAttempted;
    hide MadeCalls;
    forall r | r in results && (r.state.Failed? || r.state.Blocked? || (r.state.Drifted? && r.error.Some?))
      ensures SomeError(results)
    {
      var i :| 0 <= i < |results| && results[i] == r;
      assert EndedAt(mode, edges, steps, results, i);
      if r.state.Blocked? {
        var j :| FailsAbove(edges, results[..i], steps[i].ref, j);
        assert results[j] in results;
      }
    }
    forall r | r in results && r.error.Some? ensures r.state.Failed? || (r.state.Drifted? && r.error.Some?) {
      var i :| 0 <= i < |results| && results[i] == r;
      assert EndedAt(mode, edges, steps, results, i);
    }
    if !SomeError(results) {
      CallsOfAttempts(mode, steps, results);
    }
  }

  /** A blocked resource says which failure came first above it, and in which of three ways it failed. */
  lemma {:induction false} BlockedSays(mode: Mode, edges: seq<Edge>, steps: seq<Step>, results: seq<Ended>, i: nat)
    requires AllEndWell(mode, edges, steps, results) && i < |results| && results[i].state.Blocked?
    ensures exists j: nat :: j < i && FirstAbove(edges, results[..i], steps[i].ref, j) && results[i].reason == Because(
      if steps[j].error.Some? then CouldNotBeRead
      else if results[j].state.Drifted? then DidNotVerify(steps[j].ref)
      else DidFail(steps[j].ref))
  {
    assert EndedAt(mode, edges, steps, results, i);
    var j := FirstFailure(edges, results[..i], steps[i].ref);
    assert FirstAbove(edges, results[..i], steps[i].ref, j);
  }

  lemma FirstFailure(edges: seq<Edge>, results: seq<Ended>, ref: Ref) returns (j: nat)
    requires Above(edges, results, ref)
    ensures j < |results| && FirstAbove(edges, results, ref, j)
  {
    hide Downstream;
    var some: nat :| FailsAbove(edges, results, ref, some);
    assert some < |results|;
    hide FailsAbove;
    j := 0;
    while !FailsAbove(edges, results, ref, j)
      invariant 0 <= j <= some < |results| && forall k :: 0 <= k < j ==> !FailsAbove(edges, results, ref, k)
      decreases some - j
    {
      j := j + 1;
    }
  }

  method EndOf(results: seq<Ended>, applied: bool) returns (outcome: Outcome)
    ensures outcome == OutcomeOf(results, applied)
  {
    var drifted := false;
    for i := 0 to |results|
      invariant forall r :: r in results[..i] ==> !r.state.Failed? && !r.state.Blocked? && !(r.state.Drifted? && r.error.Some?)
      invariant drifted <==> exists r :: r in results[..i] && r.state.Drifted?
    {
      assert results[..i + 1] == results[..i] + [results[i]];
      if results[i].state.Failed? || results[i].state.Blocked? || (results[i].state.Drifted? && results[i].error.Some?) {
        return OutcomeFailed;
      }
      if results[i].state.Drifted? {
        drifted := true;
      }
    }
    assert results[..|results|] == results;
    outcome := if drifted then OutcomeDrifted else if applied then OutcomeChanged else OutcomeConverged;
  }

  /** Everything a pass has promised so far. */
  ghost predicate Kept(nodes: Nodes, edges: seq<Edge>, opts: Options, steps: seq<Step>, results: seq<Ended>, start: Entries, now: Entries) {
    && AllEndWell(opts.mode, edges, steps, results)
    && Settled(nodes, opts, steps, results, now)
    && Untouched(nodes, opts.mode, steps, results, start, now)
  }

  lemma KeptEndWell(nodes: Nodes, edges: seq<Edge>, opts: Options, steps: seq<Step>, results: seq<Ended>, start: Entries, now: Entries)
    requires Kept(nodes, edges, opts, steps, results, start, now)
    ensures AllEndWell(opts.mode, edges, steps, results)
  {
  }

  lemma PassBegins(nodes: Nodes, edges: seq<Edge>, opts: Options, steps: seq<Step>, start: Entries)
    ensures Kept(nodes, edges, opts, steps, [], start, start)
    ensures Tracks(edges, steps, [], map[]) && Closed(edges, {}) && !AnyAttempted(opts.mode, steps, [])
    ensures MadeCalls(opts.mode, steps, []) == [] && forall calls :: Traced(nodes, opts, steps, [], calls, [start])
  {
  }

  method ApplyNext(g: Graph, steps: seq<Step>, opts: Options, host: Host, results: seq<Ended>, blocked: BlockedBy, ghost start: Entries)
    returns (ended: Ended, blocked': BlockedBy)
    requires g.Valid() && InGraphOrder(g.order, steps) && |results| < |steps|
    requires Tracks(g.edges, steps, results, blocked) && Closed(g.edges, blocked.Keys)
    requires Kept(g.nodes, g.edges, opts, steps, results, start, host.entries)
    modifies host
    ensures Tracks(g.edges, steps, results + [ended], blocked') && Closed(g.edges, blocked'.Keys)
    ensures Kept(g.nodes, g.edges, opts, steps, results + [ended], start, host.entries)
    ensures StepTaken(g.nodes, opts, steps[|results|], ended, |old(host.calls)|, old(host.entries), host.entries)
    ensures host.calls == old(host.calls) + CallsOf(opts.mode, steps[|results|], ended)
  {
    hide StepTaken;
    var step := steps[|results|];
    assert g.order[|results|] in g.order;
    ghost var before := host.entries;
    ended, blocked' := ApplyOne(g, opts, host, step, blocked);
    AllEndWellNext(opts.mode, g.edges, steps, results, blocked, ended);
    TracksNext(g.edges, steps, results, blocked, ended, blocked');
    EffectNext(g.nodes, opts, steps, results, ended, start, before, host.entries);
  }

  lemma MadeCallsNext(mode: Mode, steps: seq<Step>, results: seq<Ended>, ended: Ended)
    requires |results| < |steps|
    ensures MadeCalls(mode, steps, results + [ended])
         == MadeCalls(mode, steps, results) + CallsOf(mode, steps[|results|], ended)
  {
    assert (results + [ended])[..|results|] == results;
  }

  /**
   * Takes every step of the plan up to a cancellation, failures or not: what they make
   * pointless is blocked, the rest goes on.
   */
  method Apply(g: Graph, steps: seq<Step>, opts: Options, host: Host, cancelledAt: nat)
    returns (results: seq<Ended>, outcome: Option<Outcome>, ghost at: seq<Entries>)
    requires g.Valid() && InGraphOrder(g.order, steps)
    modifies host
    ensures Traced(g.nodes, opts, steps, results, |old(host.calls)|, at)
    ensures |at| == |results| + 1 && at[0] == old(host.entries) && at[|results|] == host.entries
    ensures |results| == if cancelledAt < |steps| then cancelledAt else |steps|
    ensures Kept(g.nodes, g.edges, opts, steps, results, old(host.entries), host.entries)
    ensures host.calls == old(host.calls) + MadeCalls(opts.mode, steps, results)
    ensures outcome.Some? <==> |results| == |steps|
    ensures outcome.Some? ==> outcome.value == OutcomeOf(results, AnyAttempted(opts.mode, steps, results))
    ensures outcome.Some? ==> Describes(outcome.value, results, |host.calls| - |old(host.calls)|)
  {
    hide Describes;
    hide Kept;
    hide Tracks;
    hide AnyAttempted;
    hide OutcomeOf;
    hide StepTaken;
    hide Traced;
    hide Closed;
    hide MadeCalls;
    hide CallsOf;
    hide LeastTopological;
    hide DistinctTargets;
    var blocked: BlockedBy := map[];
    var applied := false;
    results := [];
    PassBegins(g.nodes, g.edges, opts, steps, host.entries);
    assert blocked.Keys == {};
    ghost var start, calls := host.entries, host.calls;
    at := [start];
    for i := 0 to |steps|
      invariant g.Valid() && |results| == i <= cancelledAt
      invariant Tracks(g.edges, steps, results, blocked) && Closed(g.edges, blocked.Keys)
      invariant Kept(g.nodes, g.edges, opts, steps, results, start, host.entries)
      invariant host.calls == calls + MadeCalls(opts.mode, steps, results)
      invariant applied <==> AnyAttempted(opts.mode, steps, results)
      invariant Traced(g.nodes, opts, steps, results, |calls|, at)
      invariant |at| == i + 1 && at[0] == start && at[i] == host.entries
    {
      if i == cancelledAt {
        return results, None, at;
      }
      var ended;
      ended, blocked := ApplyNext(g, steps, opts, host, results, blocked, start);
      TracedNext(g.nodes, opts, steps, results, |calls|, at, ended, host.entries);
      MadeCallsNext(opts.mode, steps, results, ended);
      AnyAttemptedNext(opts.mode, steps, results, ended);
      applied := applied || Attempted(opts.mode, steps[i], ended);
      results, at := results + [ended], at + [host.entries];
    }
    var ending := EndOf(results, applied);
    KeptEndWell(g.nodes, g.edges, opts, steps, results, start, host.entries);
    OutcomeTells(opts.mode, g.edges, steps, results);
    outcome := Some(ending);
  }

  ghost predicate AnyAttempted(mode: Mode, steps: seq<Step>, results: seq<Ended>) {
    exists i :: AttemptedAt(mode, steps, results, i)
  }

  lemma AnyAttemptedNext(mode: Mode, steps: seq<Step>, results: seq<Ended>, ended: Ended)
    requires |results| < |steps|
    ensures AnyAttempted(mode, steps, results + [ended]) <==>
      AnyAttempted(mode, steps, results) || Attempted(mode, steps[|results|], ended)
  {
    var results' := results + [ended];
    if i :| AttemptedAt(mode, steps, results, i) {
      assert AttemptedAt(mode, steps, results', i);
    }
    if Attempted(mode, steps[|results|], ended) {
      assert AttemptedAt(mode, steps, results', |results|);
    }
    if i :| AttemptedAt(mode, steps, results', i) {
      assert i == |results| || AttemptedAt(mode, steps, results, i);
    }
  }
}
