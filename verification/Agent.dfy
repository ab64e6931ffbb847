/** Fetching passes, one after another, with crashes and recoveries at any point between their steps. */
module Agent {
  import opened Text
  import opened Tags
  import opened Revision
  import opened Source

  /** Where one pass has got to. The accepted revision is the one it read when it began. */
  datatype Phase =
    | Idle
    | Begun(accepted: Option<string>)
    | Chosen(accepted: Option<string>, revision: string)
    | InOrder(accepted: Option<string>, revision: string)
    | Turned(accepted: Option<string>)
    | Selected(accepted: Option<string>, revision: string, fellBack: bool)
    | Resolved(accepted: Option<string>, revision: string)
    | Staged(accepted: Option<string>, revision: string)

  datatype State = State(disk: Disk, phase: Phase)

  /** The steps of a pass, and what may happen to the host between any two of them. */
  datatype Action =
    | Begin
    | Find(repo: Repository, found: Option<Found>)
    | Check(repo: Repository)
    | Materialise(repo: Repository)
    | FallBack(repo: Repository)
    | Resolve(resolves: bool)
    | WriteTemp(write: WriteOutcome)
    | Rename(rename: RenameOutcome)
    | Crash(temp: File, tree: Option<string>)
    | Clear
    | Provision(file: File)

  /** What the accepted revision says right now. */
  function Pointer(s: State): Reading {
    ReadingOf(s.disk.pointer)
  }

  /**
   * The order of the steps. Looking for a candidate can always fail; what it finds is one. A
   * baseline is provisioned between passes, while clearing may strike anywhere.
   */
  ghost predicate Enabled(trust: Trust, s: State, action: Action) {
    match action
    case Begin => s.phase.Idle? && !Pointer(s).Refused?
    case Find(repo, found) => s.phase.Begun? && (found.Some? ==> repo.Prepared() && IsCandidate(repo, trust, Pointer(s), found.value))
    case Check(_) => s.phase.Chosen?
    case Materialise(_) => s.phase.InOrder?
    case FallBack(_) => s.phase.Turned?
    case Resolve(_) => s.phase.Selected?
    case WriteTemp(_) => s.phase.Resolved?
    case Rename(_) => s.phase.Staged?
    case Crash(_, _) => !s.phase.Idle?
    case Clear => true
    case Provision(_) => s.phase.Idle?
  }

  function Next(trust: Trust, s: State, action: Action): State {
    match (action, s.phase)
    case (Begin, _) => s.(phase := Begun(AcceptedBy(Pointer(s))))
    case (Find(_, found), Begun(accepted)) =>
      s.(phase := if found.Some? then Chosen(accepted, found.value.revision) else Turned(accepted))
    case (Check(repo), Chosen(accepted, revision)) =>
      s.(phase := if Current(repo, trust, revision, accepted) then InOrder(accepted, revision) else Turned(accepted))
    case (Materialise(repo), InOrder(accepted, revision)) =>
      if repo.checkout(revision) then State(s.disk.(tree := Some(revision)), Selected(accepted, revision, false))
      else State(s.disk.(tree := None), Turned(accepted))
    case (FallBack(repo), Turned(accepted)) =>
      if accepted.None? then s.(phase := Idle)
      else if repo.checkout(accepted.value) then State(s.disk.(tree := accepted), Selected(accepted, accepted.value, true))
      else State(s.disk.(tree := None), Idle)
    case (Resolve(resolves), Selected(accepted, revision, fellBack)) =>
      s.(phase := if resolves && !fellBack && accepted != Some(revision) then Resolved(accepted, revision) else Idle)
    case (WriteTemp(write), Resolved(accepted, revision)) =>
      if !FullName(revision) then s.(phase := Idle)
      else State(AfterWrite(s.disk, revision, write), if write.Complete? then Staged(accepted, revision) else Idle)
    case (Rename(rename), Staged(_, _)) => State(AfterRename(s.disk, rename), Idle)
    case (Crash(temp, tree), _) => State(s.disk.(temp := temp, tree := tree), Idle)
    case (Clear, _) => s.(disk := s.disk.(pointer := Absent))
    case (Provision(file), _) => s.(disk := s.disk.(pointer := file))
    case _ => s
  }

  function Run(trust: Trust, s: State, actions: seq<Action>): State {
    if actions == [] then s
    else Next(trust, Run(trust, s, actions[..|actions| - 1]), actions[|actions| - 1])
  }

  /** A run of the agent: each step was enabled where it was taken. */
  ghost predicate Legal(trust: Trust, s: State, actions: seq<Action>) {
    actions == []
    || (var init := actions[..|actions| - 1];
        Legal(trust, s, init) && Enabled(trust, Run(trust, s, init), actions[|actions| - 1]))
  }

  // Ancestry

  type History = (string, string) -> bool

  /** Git never claims an ancestry that is not there, in whatever state the clone is at the time. */
  ghost predicate Honest(history: History, action: Action) {
    action.Find? || action.Check? ==>
      forall a, b :: action.repo.isAncestor(a, b).Yes? ==> history(a, b)
  }

  ghost predicate AllHonest(history: History, actions: seq<Action>) {
    forall i :: 0 <= i < |actions| ==> Honest(history, actions[i])
  }

  ghost predicate Preorder(history: History) {
    && (forall a :: history(a, a))
    && (forall a, b, c :: history(a, b) && history(b, c) ==> history(a, c))
  }

  /** Some control orders revisions: the descendant requirement, or the bound on signed tags. */
  predicate Orders(trust: Trust) {
    trust.requireDescendant || trust.require.RequireSignedTag?
  }

  // What every step keeps

  /** What a pass read still stands, unless it has been cleared since. */
  predicate StillStands(s: State, accepted: Option<string>) {
    Pointer(s) == NoRevision || (accepted.Some? && Pointer(s) == Accepted(accepted.value))
  }

  ghost predicate Newer(history: History, s: State, revision: string) {
    Pointer(s).Accepted? ==> history(Pointer(s).revision, revision)
  }

  ghost predicate Invariant(history: History, trust: Trust, s: State) {
    match s.phase
    case Idle => true
    case Begun(accepted) => StillStands(s, accepted)
    case Chosen(accepted, revision) =>
      StillStands(s, accepted) && (trust.require.RequireSignedTag? ==> Newer(history, s, revision))
    case InOrder(accepted, revision) => StillStands(s, accepted) && (Orders(trust) ==> Newer(history, s, revision))
    case Turned(accepted) => StillStands(s, accepted)
    case Selected(accepted, revision, fellBack) =>
      && StillStands(s, accepted) && s.disk.tree == Some(revision)
      && (if fellBack then accepted == Some(revision) else Orders(trust) ==> Newer(history, s, revision))
    case Resolved(accepted, revision) => StillStands(s, accepted) && (Orders(trust) ==> Newer(history, s, revision))
    case Staged(accepted, revision) =>
      && StillStands(s, accepted) && (Orders(trust) ==> Newer(history, s, revision))
      && FullName(revision) && s.disk.temp == Holds(Written(revision))
  }

  lemma CandidateIsNewer(history: History, trust: Trust, s: State, action: Action)
    requires action.Find? && action.found.Some? && Honest(history, action) && Enabled(trust, s, action)
    requires trust.require.RequireSignedTag?
    ensures Newer(history, s, action.found.value.revision)
  {
    var repo, found := action.repo, action.found.value;
    assert Tag(found.tag, found.revision) in Qualifying(repo, Pointer(s), repo.tags.value);
  }

  lemma {:induction false} StepKeepsInvariant(history: History, trust: Trust, s: State, action: Action)
    requires Invariant(history, trust, s) && Enabled(trust, s, action) && Honest(history, action)
    ensures Invariant(history, trust, Next(trust, s, action))
  {
    hide IsCandidate;
    if action.Find? && action.found.Some? && trust.require.RequireSignedTag? {
      CandidateIsNewer(history, trust, s, action);
    }
  }

  /** One step moves the pointer forward, or leaves it, unless somebody resets it. */
  lemma {:induction false} StepKeepsOrder(history: History, trust: Trust, s: State, action: Action)
    requires Preorder(history) && Orders(trust)
    requires Invariant(history, trust, s) && Enabled(trust, s, action) && !action.Clear? && !action.Provision?
    requires Pointer(s).Accepted?
    ensures Pointer(Next(trust, s, action)).Accepted?
    ensures history(Pointer(s).revision, Pointer(Next(trust, s, action)).revision)
  {
    hide IsCandidate;
    if action.Rename? {
      WrittenReadsBack(s.phase.revision);
    }
  }

  // Whole runs

  ghost predicate NoReset(actions: seq<Action>) {
    forall i :: 0 <= i < |actions| ==> !actions[i].Clear? && !actions[i].Provision?
  }

  lemma {:induction false} RunKeepsInvariant(history: History, trust: Trust, s: State, actions: seq<Action>)
    requires Invariant(history, trust, s) && Legal(trust, s, actions) && AllHonest(history, actions)
    ensures Invariant(history, trust, Run(trust, s, actions))
  {
    hide Invariant;
    hide Enabled;
    hide Next;
    if actions != [] {
      var init, last := actions[..|actions| - 1], actions[|actions| - 1];
      assert AllHonest(history, init);
      RunKeepsInvariant(history, trust, s, init);
      StepKeepsInvariant(history, trust, Run(trust, s, init), last);
    }
  }

  lemma {:induction false} RunSplits(trust: Trust, s: State, earlier: seq<Action>, later: seq<Action>)
    ensures Run(trust, s, earlier + later) == Run(trust, Run(trust, s, earlier), later)
    ensures Legal(trust, s, earlier + later) <==> Legal(trust, s, earlier) && Legal(trust, Run(trust, s, earlier), later)
  {
    hide Enabled;
    hide Next;
    if later == [] {
      assert earlier + later == earlier;
    } else {
      var init, last := later[..|later| - 1], later[|later| - 1];
      assert (earlier + later)[..|earlier + later| - 1] == earlier + init;
      assert (earlier + later)[|earlier + later| - 1] == last;
      RunSplits(trust, s, earlier, init);
    }
  }

  lemma {:induction false} OrderKept(history: History, trust: Trust, s: State, actions: seq<Action>)
    requires Preorder(history) && Orders(trust) && Invariant(history, trust, s)
    requires Legal(trust, s, actions) && AllHonest(history, actions) && NoReset(actions)
    requires Pointer(s).Accepted?
    ensures Pointer(Run(trust, s, actions)).Accepted?
    ensures history(Pointer(s).revision, Pointer(Run(trust, s, actions)).revision)
  {
    hide Invariant;
    hide Enabled;
    hide Next;
    hide Pointer;
    if actions != [] {
      var init, last := actions[..|actions| - 1], actions[|actions| - 1];
      assert AllHonest(history, init) && NoReset(init);
      OrderKept(history, trust, s, init);
      RunKeepsInvariant(history, trust, s, init);
      StepKeepsOrder(history, trust, Run(trust, s, init), last);
    }
  }

  /**
   * Over every run, from any disk and through any crashes, the revisions the pointer holds
   * between two resets form a chain: each descends from every one before it.
   */
  lemma {:induction false} PointerChain(history: History, trust: Trust, disk: Disk, earlier: seq<Action>, later: seq<Action>)
    requires Preorder(history) && Orders(trust)
    requires Legal(trust, State(disk, Idle), earlier + later) && AllHonest(history, earlier + later) && NoReset(later)
    requires Pointer(Run(trust, State(disk, Idle), earlier)).Accepted?
    ensures
      var before, after := Pointer(Run(trust, State(disk, Idle), earlier)), Pointer(Run(trust, State(disk, Idle), earlier + later));
      after.Accepted? && history(before.revision, after.revision)
  {
    hide Enabled;
    hide Next;
    hide Pointer;
    var start := State(disk, Idle);
    RunSplits(trust, start, earlier, later);
    assert forall i :: 0 <= i < |earlier| ==> (earlier + later)[i] == earlier[i];
    assert forall i :: 0 <= i < |later| ==> (earlier + later)[|earlier| + i] == later[i];
    assert AllHonest(history, earlier) && AllHonest(history, later);
    RunKeepsInvariant(history, trust, start, earlier);
    OrderKept(history, trust, Run(trust, start, earlier), later);
  }

  // Where an accepted revision comes from

  ghost predicate NoBeginFrom(actions: seq<Action>, f: nat) {
    forall i :: f <= i < |actions| ==> !actions[i].Begin?
  }

  /** The running pass found this revision to be the candidate its mode asks for. */
  ghost predicate FoundAt(trust: Trust, start: State, actions: seq<Action>, f: nat, revision: string) {
    && f < |actions| && actions[f].Find? && actions[f].found.Some? && actions[f].found.value.revision == revision
    && actions[f].repo.Prepared()
    && IsCandidate(actions[f].repo, trust, Pointer(Run(trust, start, actions[..f])), actions[f].found.value)
    && NoBeginFrom(actions, f)
  }

  /** And then resolved it, from the very tree of that revision. */
  ghost predicate ResolvedAt(trust: Trust, start: State, actions: seq<Action>, r: nat, revision: string) {
    && r < |actions| && actions[r] == Resolve(true)
    && Run(trust, start, actions[..r]).disk.tree == Some(revision)
  }

  ghost predicate Earned(trust: Trust, start: State, actions: seq<Action>, revision: string) {
    exists f, r :: f < r && FoundAt(trust, start, actions, f, revision) && ResolvedAt(trust, start, actions, r, revision)
  }

  lemma StaysFound(trust: Trust, start: State, actions: seq<Action>, action: Action, f: nat, revision: string)
    requires FoundAt(trust, start, actions, f, revision) && !action.Begin?
    ensures FoundAt(trust, start, actions + [action], f, revision)
  {
    hide IsCandidate;
    assert (actions + [action])[..f] == actions[..f];
  }

  lemma StaysEarned(trust: Trust, start: State, actions: seq<Action>, action: Action, revision: string)
    requires Earned(trust, start, actions, revision) && !action.Begin?
    ensures Earned(trust, start, actions + [action], revision)
  {
    hide IsCandidate;
    var f, r :| f < r && FoundAt(trust, start, actions, f, revision) && ResolvedAt(trust, start, actions, r, revision);
    StaysFound(trust, start, actions, action, f, revision);
    assert (actions + [action])[..r] == actions[..r];
    assert ResolvedAt(trust, start, actions + [action], r, revision);
  }

  ghost predicate FoundSometime(trust: Trust, start: State, actions: seq<Action>, revision: string) {
    exists f :: FoundAt(trust, start, actions, f, revision)
  }

  /** What the run behind a state must hold for the phase it is in. */
  ghost predicate Trail(trust: Trust, start: State, actions: seq<Action>) {
    var s := Run(trust, start, actions);
    match s.phase
    case Chosen(_, revision) => FoundSometime(trust, start, actions, revision)
    case InOrder(_, revision) => FoundSometime(trust, start, actions, revision)
    case Selected(_, revision, fellBack) =>
      s.disk.tree == Some(revision) && (fellBack || FoundSometime(trust, start, actions, revision))
    case Resolved(_, revision) => Earned(trust, start, actions, revision)
    case Staged(_, revision) =>
      Earned(trust, start, actions, revision) && FullName(revision) && s.disk.temp == Holds(Written(revision))
    case _ => true
  }

  lemma FindLeavesTrail(trust: Trust, start: State, actions: seq<Action>, action: Action)
    requires action.Find? && action.found.Some?
    requires Enabled(trust, Run(trust, start, actions), action)
    ensures FoundSometime(trust, start, actions + [action], action.found.value.revision)
  {
    hide IsCandidate;
    assert (actions + [action])[..|actions|] == actions;
    assert FoundAt(trust, start, actions + [action], |actions|, action.found.value.revision);
  }

  lemma ResolveLeavesTrail(trust: Trust, start: State, actions: seq<Action>, revision: string)
    requires FoundSometime(trust, start, actions, revision) && Run(trust, start, actions).disk.tree == Some(revision)
    ensures Earned(trust, start, actions + [Resolve(true)], revision)
  {
    hide IsCandidate;
    var f :| FoundAt(trust, start, actions, f, revision);
    var longer := actions + [Resolve(true)];
    StaysFound(trust, start, actions, Resolve(true), f, revision);
    assert longer[..|actions|] == actions;
    assert ResolvedAt(trust, start, longer, |actions|, revision);
  }

  lemma {:induction false} TrailGrows(trust: Trust, start: State, actions: seq<Action>, action: Action)
    requires Trail(trust, start, actions) && Enabled(trust, Run(trust, start, actions), action)
    ensures Trail(trust, start, actions + [action])
  {
    hide IsCandidate;
    hide FoundAt;
    hide Earned;
    hide FoundSometime;
    var s, longer := Run(trust, start, actions), actions + [action];
    assert longer[..|longer| - 1] == actions;
    assert Run(trust, start, longer) == Next(trust, s, action);
    if action.Find? && action.found.Some? {
      FindLeavesTrail(trust, start, actions, action);
    } else if s.phase.Resolved? || s.phase.Staged? {
      StaysEarned(trust, start, actions, action, s.phase.revision);
    } else if s.phase.Chosen? || s.phase.InOrder? || (s.phase.Selected? && !s.phase.fellBack) {
      FoundStays(trust, start, actions, action, s.phase.revision);
      if action == Resolve(true) {
        ResolveLeavesTrail(trust, start, actions, s.phase.revision);
      }
    }
  }

  lemma FoundStays(trust: Trust, start: State, actions: seq<Action>, action: Action, revision: string)
    requires FoundSometime(trust, start, actions, revision) && !action.Begin?
    ensures FoundSometime(trust, start, actions + [action], revision)
  {
    var f :| FoundAt(trust, start, actions, f, revision);
    StaysFound(trust, start, actions, action, f, revision);
  }

  lemma {:induction false} RunLeavesTrail(trust: Trust, disk: Disk, actions: seq<Action>)
    requires Legal(trust, State(disk, Idle), actions)
    ensures Trail(trust, State(disk, Idle), actions)
  {
    hide Trail;
    hide Enabled;
    hide Next;
    if actions == [] {
      NoTrailNeeded(trust, disk);
    } else {
      var init, last := actions[..|actions| - 1], actions[|actions| - 1];
      RunLeavesTrail(trust, disk, init);
      TrailGrows(trust, State(disk, Idle), init, last);
      assert actions == init + [last];
    }
  }

  lemma NoTrailNeeded(trust: Trust, disk: Disk)
    ensures Trail(trust, State(disk, Idle), [])
  {
  }

  /**
   * The pointer changes only where somebody resets it, or where a pass renames a revision into
   * place that it has verified and resolved before. A crash changes nothing.
   */
  lemma {:induction false} PointerIsEarned(trust: Trust, disk: Disk, actions: seq<Action>, action: Action)
    requires Legal(trust, State(disk, Idle), actions + [action])
    ensures
      var before, after := Run(trust, State(disk, Idle), actions), Run(trust, State(disk, Idle), actions + [action]);
      || after.disk.pointer == before.disk.pointer
      || action.Clear? || action.Provision?
      || (action == Rename(Renamed) && before.phase.Staged? && Pointer(after) == Accepted(before.phase.revision)
          && Earned(trust, State(disk, Idle), actions, before.phase.revision))
  {
    hide Earned;
    hide IsCandidate;
    var longer := actions + [action];
    assert longer[..|longer| - 1] == actions;
    RunLeavesTrail(trust, disk, actions);
    var before := Run(trust, State(disk, Idle), actions);
    if before.phase.Staged? {
      WrittenReadsBack(before.phase.revision);
    }
  }

  /** Nothing the agent does itself, and no crash, leaves a pointer that cannot be read. */
  lemma {:induction false} PointerStaysReadable(trust: Trust, disk: Disk, actions: seq<Action>)
    requires Legal(trust, State(disk, Idle), actions) && !ReadingOf(disk.pointer).Refused?
    requires forall i :: 0 <= i < |actions| ==> !actions[i].Provision?
    ensures !Pointer(Run(trust, State(disk, Idle), actions)).Refused?
  {
    hide Enabled;
    hide Earned;
    hide Next;
    hide ReadingOf;
    if actions != [] {
      var init, last := actions[..|actions| - 1], actions[|actions| - 1];
      assert actions == init + [last];
      PointerStaysReadable(trust, disk, init);
      PointerIsEarned(trust, disk, init, last);
      ClearingForgets(trust, Run(trust, State(disk, Idle), init));
    }
  }

  lemma ClearingForgets(trust: Trust, s: State)
    ensures Pointer(Next(trust, s, Clear)) == NoRevision
  {
  }

  /** What a pass reconciles is the revision it accepted before, or one at least as new. */
  lemma {:induction false} SelectedIsCurrent(history: History, trust: Trust, disk: Disk, actions: seq<Action>)
    requires Preorder(history) && Orders(trust)
    requires Legal(trust, State(disk, Idle), actions) && AllHonest(history, actions)
    requires Run(trust, State(disk, Idle), actions).phase.Selected?
    ensures
      var s := Run(trust, State(disk, Idle), actions);
      && s.disk.tree == Some(s.phase.revision)
      && (s.phase.fellBack ==> s.phase.accepted == Some(s.phase.revision))
      && (Pointer(s).Accepted? ==> s.phase.accepted == Some(Pointer(s).revision) && history(Pointer(s).revision, s.phase.revision))
  {
    RunKeepsInvariant(history, trust, State(disk, Idle), actions);
  }

  // Without an order

  lemma OneMore(trust: Trust, start: State, actions: seq<Action>, action: Action)
    requires Legal(trust, start, actions) && Enabled(trust, Run(trust, start, actions), action)
    ensures Legal(trust, start, actions + [action])
    ensures Run(trust, start, actions + [action]) == Next(trust, Run(trust, start, actions), action)
  {
    assert (actions + [action])[..|actions|] == actions;
  }

  /** The steps of a pass that accepts a branch tip. */
  function Accepting(repo: Repository, revision: string): seq<Action> {
    [Begin, Find(repo, Some(Found(revision, ""))), Check(repo), Materialise(repo), Resolve(true), WriteTemp(Complete), Rename(Renamed)]
  }

  /** A clone in which nothing is related to anything, and everything is signed. */
  function Unrelated(tip: string): Repository {
    Repository(true, true, true, Some(tip), _ => Letter("G"), None, _ => false, _ => No, (_, _) => No, _ => Yes, _ => true)
  }

  /** With neither control on, one pass takes the pointer from any revision to any other. */
  lemma {:induction false} AcceptingMoves(trust: Trust, from: string, to: string)
    requires !Orders(trust) && !trust.require.UnknownRequirement? && FullName(from) && FullName(to) && from != to
    ensures
      var start := State(Disk(Holds(Written(from)), Absent, None), Idle);
      && Legal(trust, start, Accepting(Unrelated(to), to))
      && Pointer(start) == Accepted(from) && Pointer(Run(trust, start, Accepting(Unrelated(to), to))) == Accepted(to)
  {
    hide FullName;
    hide ReadingOf;
    var start := State(Disk(Holds(Written(from)), Absent, None), Idle);
    var repo := Unrelated(to);
    WrittenReadsBack(from);
    WrittenReadsBack(to);
    var actions, todo := [], Accepting(repo, to);
    NothingRun(trust, start);
    for i := 0 to |todo|
      invariant actions == todo[..i] && Legal(trust, start, actions)
      invariant Run(trust, start, actions).phase == AcceptingPhase(from, to, i)
      invariant Run(trust, start, actions).disk.pointer == Holds(Written(if i == |todo| then to else from))
      invariant i == 6 ==> Run(trust, start, actions).disk.temp == Holds(Written(to))
    {
      hide Legal;
      hide Run;
      hide TrimSpace;
      OneMore(trust, start, actions, todo[i]);
      actions := actions + [todo[i]];
    }
    assert actions == todo;
  }

  function AcceptingPhase(from: string, to: string, steps: nat): Phase {
    match steps
    case 1 => Begun(Some(from))
    case 2 => Chosen(Some(from), to)
    case 3 => InOrder(Some(from), to)
    case 4 => Selected(Some(from), to, false)
    case 5 => Resolved(Some(from), to)
    case 6 => Staged(Some(from), to)
    case _ => Idle
  }

  ghost predicate Chained(history: History, trust: Trust, disk: Disk, earlier: seq<Action>, later: seq<Action>) {
    var before, after := Pointer(Run(trust, State(disk, Idle), earlier)), Pointer(Run(trust, State(disk, Idle), earlier + later));
    (&& Legal(trust, State(disk, Idle), earlier + later)
     && AllHonest(history, earlier + later) && NoReset(later)
     && before.Accepted?)
    ==>
      after.Accepted? && history(before.revision, after.revision)
  }

  /** The chain is kept over every run exactly when one of the two controls is on. */
  lemma {:induction false} ChainNeedsOrder(history: History, trust: Trust, from: string, to: string)
    requires Preorder(history) && !trust.require.UnknownRequirement?
    requires FullName(from) && FullName(to) && !history(from, to)
    ensures (forall disk, earlier, later :: Chained(history, trust, disk, earlier, later)) <==> Orders(trust)
  {
    hide Legal;
    hide Run;
    hide Pointer;
    hide FullName;
    if Orders(trust) {
      forall disk, earlier, later ensures Chained(history, trust, disk, earlier, later) {
        if && Legal(trust, State(disk, Idle), earlier + later) && AllHonest(history, earlier + later) && NoReset(later)
           && Pointer(Run(trust, State(disk, Idle), earlier)).Accepted? {
          PointerChain(history, trust, disk, earlier, later);
        }
      }
    } else {
      AcceptingMoves(trust, from, to);
      NothingRun(trust, State(Disk(Holds(Written(from)), Absent, None), Idle));
      assert [] + Accepting(Unrelated(to), to) == Accepting(Unrelated(to), to);
      assert !Chained(history, trust, Disk(Holds(Written(from)), Absent, None), [], Accepting(Unrelated(to), to));
    }
  }

  lemma NothingRun(trust: Trust, start: State)
    ensures Run(trust, start, []) == start
  {
  }

  // The pass itself

  datatype Outcome =
    | NothingToDo(cause: Cause)
    | Unresolved(selection: Selection)
    | Reconciling(selection: Selection, recorded: bool)

  /** Only a newer revision that passed every check is recorded. */
  predicate WorthRecording(selection: Selection) {
    !selection.fellBack && selection.accepted != Some(selection.revision)
  }

  /** The pass asks one clone, and nothing happens to the host in between. */
  ghost predicate OnlyAsks(repo: Repository, actions: seq<Action>) {
    && NoReset(actions)
    && forall i :: 0 <= i < |actions| ==>
      !actions[i].Crash? && (actions[i].Find? || actions[i].Check? ==> actions[i].repo == repo)
  }

  lemma OneMoreStep(trust: Trust, repo: Repository, start: State, actions: seq<Action>, action: Action)
    requires Legal(trust, start, actions) && OnlyAsks(repo, actions) && Enabled(trust, Run(trust, start, actions), action)
    requires !action.Clear? && !action.Provision? && !action.Crash?
    requires action.Find? || action.Check? ==> action.repo == repo
    ensures Legal(trust, start, actions + [action]) && OnlyAsks(repo, actions + [action])
    ensures Run(trust, start, actions + [action]) == Next(trust, Run(trust, start, actions), action)
  {
    hide Enabled;
    hide Next;
    OneMore(trust, start, actions, action);
  }

  /** A selection taken step by step. */
  lemma SelectionSteps(trust: Trust, repo: Repository, before: Disk, found: Option<Found>) returns (actions: seq<Action>)
    requires !ReadingOf(before.pointer).Refused?
    requires found.Some? ==> repo.Prepared() && IsCandidate(repo, trust, ReadingOf(before.pointer), found.value)
    ensures Legal(trust, State(before, Idle), actions) && OnlyAsks(repo, actions)
    ensures
      var accepted := AcceptedBy(ReadingOf(before.pointer));
      Run(trust, State(before, Idle), actions) ==
        if found.Some? && Current(repo, trust, found.value.revision, accepted) && repo.checkout(found.value.revision) then
          State(before.(tree := Some(found.value.revision)), Selected(accepted, found.value.revision, false))
        else if accepted.Some? && repo.checkout(accepted.value) then
          State(before.(tree := accepted), Selected(accepted, accepted.value, true))
        else
          State(if accepted.Some? || (found.Some? && Current(repo, trust, found.value.revision, accepted)) then before.(tree := None) else before, Idle)
  {
    hide Legal;
    hide Run;
    hide ReadingOf;
    hide IsCandidate;
    var start := State(before, Idle);
    NothingAsked(trust, repo, start);
    OneMoreStep(trust, repo, start, [], Begin);
    actions := [] + [Begin];
    OneMoreStep(trust, repo, start, actions, Find(repo, found));
    actions := actions + [Find(repo, found)];
    if found.Some? {
      OneMoreStep(trust, repo, start, actions, Check(repo));
      actions := actions + [Check(repo)];
      if Run(trust, start, actions).phase.InOrder? {
        OneMoreStep(trust, repo, start, actions, Materialise(repo));
        actions := actions + [Materialise(repo)];
      }
    }
    if Run(trust, start, actions).phase.Turned? {
      OneMoreStep(trust, repo, start, actions, FallBack(repo));
      actions := actions + [FallBack(repo)];
    }
  }

  lemma NothingAsked(trust: Trust, repo: Repository, start: State)
    ensures Legal(trust, start, []) && OnlyAsks(repo, []) && Run(trust, start, []) == start
  {
  }

  /** What recording leaves on the disk. */
  function AfterAccept(disk: Disk, revision: string, write: WriteOutcome, rename: RenameOutcome): Disk {
    if !FullName(revision) then disk
    else if write.Complete? then AfterRename(AfterWrite(disk, revision, write), rename)
    else AfterWrite(disk, revision, write)
  }

  /** The rest of the pass: resolve, and record what is newer. */
  lemma RecordingSteps(trust: Trust, repo: Repository, start: State, earlier: seq<Action>, resolves: bool,
                       write: WriteOutcome, rename: RenameOutcome) returns (actions: seq<Action>)
    requires Legal(trust, start, earlier) && OnlyAsks(repo, earlier) && Run(trust, start, earlier).phase.Selected?
    ensures Legal(trust, start, actions) && OnlyAsks(repo, actions)
    ensures
      var s := Run(trust, start, earlier);
      Run(trust, start, actions) ==
        if resolves && !s.phase.fellBack && s.phase.accepted != Some(s.phase.revision) then
          State(AfterAccept(s.disk, s.phase.revision, write, rename), Idle)
        else State(s.disk, Idle)
  {
    hide Legal;
    hide Run;
    hide FullName;
    OneMoreStep(trust, repo, start, earlier, Resolve(resolves));
    actions := earlier + [Resolve(resolves)];
    if Run(trust, start, actions).phase.Resolved? {
      OneMoreStep(trust, repo, start, actions, WriteTemp(write));
      actions := actions + [WriteTemp(write)];
      if Run(trust, start, actions).phase.Staged? {
        OneMoreStep(trust, repo, start, actions, Rename(rename));
        actions := actions + [Rename(rename)];
      }
    }
  }

  /** Obtains a revision and records it once it resolved, whatever applying it will do. */
  method FetchingPass(dir: StateDir, repo: Repository, trust: Trust, resolves: string -> bool,
                      write: WriteOutcome, rename: RenameOutcome)
    returns (outcome: Outcome, ghost actions: seq<Action>)
    modifies dir
    ensures Legal(trust, State(old(dir.Files()), Idle), actions) && OnlyAsks(repo, actions)
    ensures Run(trust, State(old(dir.Files()), Idle), actions) == State(dir.Files(), Idle)
    ensures outcome.Reconciling? ==> resolves(outcome.selection.revision) && dir.tree == Some(outcome.selection.revision)
    ensures outcome.Reconciling? && outcome.recorded ==>
      WorthRecording(outcome.selection) && ReadingOf(dir.pointer) == Accepted(outcome.selection.revision)
    ensures outcome.Reconciling? && WorthRecording(outcome.selection) ==>
      (outcome.recorded <==> FullName(outcome.selection.revision) && write.Complete? && rename.Renamed?)
    ensures !(outcome.Reconciling? && outcome.recorded) ==> dir.pointer == old(dir.pointer)
    ensures
      var reading := ReadingOf(old(dir.pointer));
      !reading.Refused? && TagsComparable(repo, trust, reading) ==>
        ((outcome.Reconciling? && !outcome.selection.fellBack) <==>
          exists found :: Usable(repo, trust, reading, found) && resolves(found.revision))
  {
    hide Legal;
    hide Run;
    hide IsCandidate;
    hide ReadingOf;
    hide FullName;
    ghost var before := dir.Files();
    ghost var reading := ReadingOf(dir.pointer);
    var selected := Select(dir, repo, trust);
    ghost var found: Option<Found> := None;
    if selected.Ok? && !selected.value.fellBack {
      found := Some(Found(selected.value.revision, selected.value.tag));
    } else if reading.NoRevision? && dir.tree != before.tree {
      ghost var unwritable :| Unwritable(repo, trust, reading, unwritable);
      found := Some(unwritable);
    }
    if reading.Refused? {
      actions := [];
      NothingAsked(trust, repo, State(before, Idle));
    } else {
      actions := SelectionSteps(trust, repo, before, found);
    }
    if selected.Err? {
      return NothingToDo(selected.error), actions;
    }
    var selection := selected.value;
    forall a, b | IsCandidate(repo, trust, reading, a) && IsCandidate(repo, trust, reading, b) ensures a == b {
      CandidateIsUnique(repo, trust, reading, a, b);
    }
    var resolved := resolves(selection.revision);
    actions := RecordingSteps(trust, repo, State(before, Idle), actions, resolved, write, rename);
    if !resolved {
      return Unresolved(selection), actions;
    }
    var recorded := false;
    if WorthRecording(selection) {
      recorded := dir.Advance(selection.revision, write, rename);
    }
    return Reconciling(selection, recorded), actions;
  }
}
