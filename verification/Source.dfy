/** Choosing the revision of a pass: find one, check it, fall back to the accepted one. */
module Source {
  import opened Text
  import opened Tags
  import opened Revision

  datatype Requirement = RequireNone | RequireSignedCommit | RequireSignedTag | UnknownRequirement

  datatype Trust = Trust(require: Requirement, requireDescendant: bool)

  /** The letter git gives a commit's signature, or no verdict and whether its message blames the key. */
  datatype Verdict = Letter(status: string) | NoVerdict(blamesKey: bool)

  /** What git answers about one clone while one pass looks at it. */
  datatype Repository = Repository(
    cloned: bool,
    fetched: bool,
    complete: bool,
    tip: Option<string>,
    verdict: string -> Verdict,
    tags: Option<seq<Tag>>,
    tagVerifies: string -> bool,
    onBranch: string -> Answer,
    isAncestor: Ancestry,
    has: string -> Answer,
    checkout: string -> bool)
  {
    predicate Prepared() {
      cloned && fetched && complete
    }
  }

  datatype Refusal = Unsigned | UntrustedSigner | AmbiguousTag | NotDescendant

  datatype Cause =
    | BadPointer
    | NotPrepared
    | GitFailed
    | NothingNewer
    | BadRequirement
    | RefusedBy(reason: Refusal, revision: string)

  datatype Found = Found(revision: string, tag: string)

  datatype Selection = Selection(revision: string, tag: string, accepted: Option<string>, fellBack: bool, cause: Option<Cause>)

  // The candidate

  /** Only a good signature by a trusted key counts. */
  predicate Vouched(repo: Repository, revision: string) {
    repo.verdict(revision) == Letter("G")
  }

  function SignatureRefusal(verdict: Verdict): Refusal {
    match verdict
    case Letter(status) => if status in {"U", "X", "Y", "R"} then UntrustedSigner else Unsigned
    case NoVerdict(blamesKey) => if blamesKey then UntrustedSigner else Unsigned
  }

  /** Signed by a trusted key, on the deployed branch, and no older than what was accepted. */
  predicate TagQualifies(repo: Repository, reading: Reading, tag: Tag) {
    && repo.tagVerifies(tag.name)
    && repo.onBranch(tag.commit).Yes?
    && (reading.Accepted? ==> repo.isAncestor(reading.revision, tag.commit).Yes?)
  }

  function Qualifying(repo: Repository, reading: Reading, tags: seq<Tag>): (out: seq<Tag>)
    ensures forall t :: t in out <==> t in tags && TagQualifies(repo, reading, t)
  {
    if tags == [] then []
    else
      var last := tags[|tags| - 1];
      Qualifying(repo, reading, tags[..|tags| - 1]) + if TagQualifies(repo, reading, last) then [last] else []
  }

  /** The candidate is the tag that descends from every qualifying one. */
  ghost predicate IsTagCandidate(repo: Repository, reading: Reading, found: Found) {
    && repo.tags.Some? && !reading.Refused?
    && FirstTop(repo.isAncestor, Qualifying(repo, reading, repo.tags.value), Tag(found.tag, found.revision))
  }

  /** What the configured mode asks of a candidate. */
  ghost predicate IsCandidate(repo: Repository, trust: Trust, reading: Reading, found: Found) {
    match trust.require
    case RequireNone => repo.tip == Some(found.revision) && found.tag == ""
    case RequireSignedCommit => repo.tip == Some(found.revision) && found.tag == "" && Vouched(repo, found.revision)
    case RequireSignedTag => IsTagCandidate(repo, reading, found)
    case UnknownRequirement => false
  }

  /** No ancestry question that choosing between signed tags could raise goes unanswered. */
  ghost predicate TagsComparable(repo: Repository, trust: Trust, reading: Reading) {
    trust.require.RequireSignedTag? && repo.tags.Some? ==>
      Answers(repo.isAncestor, Qualifying(repo, reading, repo.tags.value))
  }

  /** Why a mode has no candidate. A refused signature is blamed on the key only where git's verdict does so. */
  ghost predicate NoCandidateBecause(repo: Repository, trust: Trust, reading: Reading, cause: Cause) {
    match trust.require
    case RequireNone => repo.tip.None? && cause == GitFailed
    case RequireSignedCommit =>
      if repo.tip.None? then cause == GitFailed
      else
        && repo.verdict(repo.tip.value) != Letter("G")
        && cause == RefusedBy(
             match repo.verdict(repo.tip.value) {
               case Letter(status) => if status in {"U", "X", "Y", "R"} then UntrustedSigner else Unsigned
               case NoVerdict(blamesKey) => if blamesKey then UntrustedSigner else Unsigned
             }, repo.tip.value)
    case RequireSignedTag =>
      if repo.tags.None? then cause == GitFailed
      else if reading.Refused? then cause == BadPointer
      else if Qualifying(repo, reading, repo.tags.value) == [] then cause == NothingNewer
      else
        && cause == RefusedBy(AmbiguousTag, "")
        && (TagsComparable(repo, trust, reading) ==> forall found :: !IsTagCandidate(repo, reading, found))
    case UnknownRequirement => cause == BadRequirement
  }

  method SignedTag(repo: Repository, pointer: File) returns (r: Result<Found, Cause>)
    ensures r.Ok? ==> IsTagCandidate(repo, ReadingOf(pointer), r.value)
    ensures TagsComparable(repo, Trust(RequireSignedTag, true), ReadingOf(pointer)) ==>
      (r.Ok? <==> exists found :: IsTagCandidate(repo, ReadingOf(pointer), found))
    ensures r.Err? ==> forall descend :: NoCandidateBecause(repo, Trust(RequireSignedTag, descend), ReadingOf(pointer), r.error)
  {
    hide FirstTop;
    if repo.tags.None? {
      return Err(GitFailed);
    }
    var reading := ReadingOf(pointer);
    if reading.Refused? {
      return Err(BadPointer);
    }
    var tags, candidates := repo.tags.value, [];
    for i := 0 to |tags|
      invariant candidates == Qualifying(repo, reading, tags[..i])
    {
      assert tags[..i + 1][..i] == tags[..i];
      if TagQualifies(repo, reading, tags[i]) {
        candidates := candidates + [tags[i]];
      }
    }
    assert tags[..|tags|] == tags;
    FirstTopExists(repo.isAncestor, candidates);
    if candidates == [] {
      return Err(NothingNewer);
    }
    var selected := SelectTag(repo.isAncestor, candidates);
    match selected
    case Err(_) => return Err(RefusedBy(AmbiguousTag, ""));
    case Ok(tag) =>
      assert tag == Tag(tag.name, tag.commit);
      return Ok(Found(tag.commit, tag.name));
  }

  /** What the configured mode proposes. Its order is not looked at yet. */
  method Candidate(repo: Repository, trust: Trust, pointer: File) returns (r: Result<Found, Cause>)
    ensures r.Ok? ==> IsCandidate(repo, trust, ReadingOf(pointer), r.value)
    ensures TagsComparable(repo, trust, ReadingOf(pointer)) ==>
      (r.Ok? <==> exists found :: IsCandidate(repo, trust, ReadingOf(pointer), found))
    ensures r.Err? ==> NoCandidateBecause(repo, trust, ReadingOf(pointer), r.error)
  {
    hide IsTagCandidate;
    match trust.require
    case RequireNone =>
      if repo.tip.None? {
        return Err(GitFailed);
      }
      assert IsCandidate(repo, trust, ReadingOf(pointer), Found(repo.tip.value, ""));
      return Ok(Found(repo.tip.value, ""));
    case RequireSignedCommit =>
      if repo.tip.None? {
        return Err(GitFailed);
      }
      if repo.verdict(repo.tip.value) != Letter("G") {
        return Err(RefusedBy(SignatureRefusal(repo.verdict(repo.tip.value)), repo.tip.value));
      }
      assert IsCandidate(repo, trust, ReadingOf(pointer), Found(repo.tip.value, ""));
      return Ok(Found(repo.tip.value, ""));
    case RequireSignedTag =>
      r := SignedTag(repo, pointer);
      if found :| IsTagCandidate(repo, ReadingOf(pointer), found) {
        assert IsCandidate(repo, trust, ReadingOf(pointer), found);
      }
    case UnknownRequirement =>
      return Err(BadRequirement);
  }

  /** In so many words: a tip as it is, a tip with a good signature, or the tag that every other good tag leads up to. */
  lemma {:induction false} CandidateSays(repo: Repository, trust: Trust, reading: Reading, found: Found)
    requires IsCandidate(repo, trust, reading, found)
    ensures !trust.require.RequireSignedTag? ==> repo.tip == Some(found.revision)
    ensures trust.require.RequireSignedCommit? ==> repo.verdict(found.revision) == Letter("G")
    ensures trust.require.RequireSignedTag? ==>
      && repo.tags.Some? && Tag(found.tag, found.revision) in repo.tags.value
      && repo.tagVerifies(found.tag) && repo.onBranch(found.revision).Yes?
      && (reading.Accepted? ==> repo.isAncestor(reading.revision, found.revision).Yes?)
    ensures trust.require.RequireSignedTag? ==>
      forall t :: t in repo.tags.value && repo.tagVerifies(t.name) && repo.onBranch(t.commit).Yes?
        && (reading.Accepted? ==> repo.isAncestor(reading.revision, t.commit).Yes?)
        ==> t.commit == found.revision || repo.isAncestor(t.commit, found.revision).Yes?
  {
    if trust.require.RequireSignedTag? {
      var tags, tag := Qualifying(repo, reading, repo.tags.value), Tag(found.tag, found.revision);
      assert tag in tags;
      assert Tops(repo.isAncestor, tags, tag);
      forall t | t in tags ensures Descends(repo.isAncestor, tag, t) {
      }
    }
  }

  lemma CandidateIsUnique(repo: Repository, trust: Trust, reading: Reading, a: Found, b: Found)
    requires IsCandidate(repo, trust, reading, a) && IsCandidate(repo, trust, reading, b)
    ensures a == b
  {
    hide FirstTop;
    if trust.require.RequireSignedTag? {
      FirstTopIsUnique(repo.isAncestor, Qualifying(repo, reading, repo.tags.value), Tag(a.tag, a.revision), Tag(b.tag, b.revision));
    }
  }

  // The order

  /** Present, and an ancestor of the candidate: an accepted revision that has vanished is no first contact. */
  predicate Current(repo: Repository, trust: Trust, revision: string, accepted: Option<string>) {
    trust.requireDescendant && accepted.Some? ==>
      repo.has(accepted.value).Yes? && repo.isAncestor(accepted.value, revision).Yes?
  }

  /** Why the order refuses a revision: git could not answer, or it does not descend from what was accepted. */
  predicate OrderRefuses(repo: Repository, trust: Trust, revision: string, accepted: Option<string>, cause: Cause) {
    && trust.requireDescendant && accepted.Some?
    && match repo.has(accepted.value) {
         case Failed => cause == GitFailed
         case No => cause == RefusedBy(NotDescendant, revision)
         case Yes =>
           match repo.isAncestor(accepted.value, revision)
           case Failed => cause == GitFailed
           case No => cause == RefusedBy(NotDescendant, revision)
           case Yes => false
       }
  }

  method CheckCurrent(repo: Repository, trust: Trust, revision: string, accepted: Option<string>) returns (cause: Option<Cause>)
    ensures cause.None? <==> Current(repo, trust, revision, accepted)
    ensures cause == Some(RefusedBy(NotDescendant, revision)) <==>
      && trust.requireDescendant && accepted.Some?
      && (repo.has(accepted.value).No? || (repo.has(accepted.value).Yes? && repo.isAncestor(accepted.value, revision).No?))
    ensures cause.Some? ==> cause.value in {GitFailed, RefusedBy(NotDescendant, revision)}
    ensures cause.Some? ==> OrderRefuses(repo, trust, revision, accepted, cause.value)
  {
    if accepted.None? || !trust.requireDescendant {
      return None;
    }
    match repo.has(accepted.value)
    case Failed => return Some(GitFailed);
    case No => return Some(RefusedBy(NotDescendant, revision));
    case Yes =>
    match repo.isAncestor(accepted.value, revision)
    case Failed => return Some(GitFailed);
    case No => return Some(RefusedBy(NotDescendant, revision));
    case Yes => return None;
  }

  // The selection

  function AcceptedBy(reading: Reading): Option<string> {
    if reading.Accepted? then Some(reading.revision) else None
  }

  /** A newer revision every check lets through. */
  ghost predicate Usable(repo: Repository, trust: Trust, reading: Reading, found: Found) {
    && repo.Prepared()
    && IsCandidate(repo, trust, reading, found)
    && Current(repo, trust, found.revision, AcceptedBy(reading))
    && repo.checkout(found.revision)
  }

  /** A newer revision every check lets through, but whose tree cannot be written. */
  ghost predicate Unwritable(repo: Repository, trust: Trust, reading: Reading, found: Found) {
    && repo.Prepared()
    && IsCandidate(repo, trust, reading, found)
    && Current(repo, trust, found.revision, AcceptedBy(reading))
    && !repo.checkout(found.revision)
  }

  /** Why a pass did not get the candidate: the first step that failed, and what it says. */
  ghost predicate FellBackBecause(repo: Repository, trust: Trust, reading: Reading, cause: Cause) {
    if !repo.Prepared() then cause == NotPrepared
    else
      || NoCandidateBecause(repo, trust, reading, cause)
      || (exists found :: IsCandidate(repo, trust, reading, found) && OrderRefuses(repo, trust, found.revision, AcceptedBy(reading), cause))
      || (cause == GitFailed && exists found :: Unwritable(repo, trust, reading, found))
  }

  method Materialise(dir: StateDir, repo: Repository, revision: string) returns (ok: bool)
    modifies dir`tree
    ensures ok == repo.checkout(revision)
    ensures dir.tree == if ok then Some(revision) else None
  {
    dir.tree := None;
    ok := repo.checkout(revision);
    if ok {
      dir.tree := Some(revision);
    }
  }

  /** Selects what was accepted before, or passes the cause on where nothing was. */
  method Fallback(dir: StateDir, repo: Repository, accepted: Option<string>, cause: Cause) returns (r: Result<Selection, Cause>)
    modifies dir`tree
    ensures r.Ok? <==> accepted.Some? && repo.checkout(accepted.value)
    ensures r.Ok? ==> dir.tree == accepted && r.value == Selection(accepted.value, "", accepted, true, Some(cause))
    ensures r.Err? ==> r.error == cause && dir.tree == if accepted.None? then old(dir.tree) else None
  {
    if accepted.None? {
      return Err(cause);
    }
    var ok := Materialise(dir, repo, accepted.value);
    if !ok {
      return Err(cause);
    }
    return Ok(Selection(accepted.value, "", accepted, true, Some(cause)));
  }

  /** Selects the candidate if every check lets it through, and otherwise falls back. */
  method Select(dir: StateDir, repo: Repository, trust: Trust) returns (r: Result<Selection, Cause>)
    modifies dir`tree
    ensures ReadingOf(dir.pointer).Refused? ==> r == Err(BadPointer) && dir.tree == old(dir.tree)
    ensures r.Ok? ==> dir.tree == Some(r.value.revision) && r.value.accepted == AcceptedBy(ReadingOf(dir.pointer))
    ensures r.Ok? && !r.value.fellBack ==> repo.cloned && repo.fetched && repo.complete
    ensures r.Ok? && !r.value.fellBack ==>
      Usable(repo, trust, ReadingOf(dir.pointer), Found(r.value.revision, r.value.tag))
    ensures r.Ok? && r.value.fellBack ==> r.value.accepted == Some(r.value.revision) && repo.checkout(r.value.revision)
    ensures !ReadingOf(dir.pointer).Refused? ==>
      var reading := ReadingOf(dir.pointer);
      && (r.Err? && reading.Accepted? ==> dir.tree == None && !repo.checkout(reading.revision))
      && (r.Err? && reading.NoRevision? ==>
            dir.tree == old(dir.tree) || (dir.tree == None && exists found :: Unwritable(repo, trust, reading, found)))
      && (TagsComparable(repo, trust, reading) ==>
            (r.Ok? && !r.value.fellBack <==> exists found :: Usable(repo, trust, reading, found)))
      && (r.Err? ==> FellBackBecause(repo, trust, reading, r.error))
      && (r.Ok? && r.value.fellBack ==> r.value.cause.Some? && FellBackBecause(repo, trust, reading, r.value.cause.value))
    ensures r.Ok? && !r.value.fellBack ==> r.value.cause.None?
  {
    hide NoCandidateBecause;
    hide IsCandidate;
    hide TagsComparable;
    var reading := ReadingOf(dir.pointer);
    if reading.Refused? {
      return Err(BadPointer);
    }
    var accepted := AcceptedBy(reading);
    if !repo.cloned || !repo.fetched || !repo.complete {
      r := Fallback(dir, repo, accepted, NotPrepared);
      return;
    }
    var candidate := Candidate(repo, trust, dir.pointer);
    if candidate.Err? {
      r := Fallback(dir, repo, accepted, candidate.error);
      return;
    }
    var found := candidate.value;
    forall other | IsCandidate(repo, trust, reading, other) ensures other == found {
      CandidateIsUnique(repo, trust, reading, other, found);
    }
    var cause := CheckCurrent(repo, trust, found.revision, accepted);
    if cause.Some? {
      r := Fallback(dir, repo, accepted, cause.value);
      return;
    }
    var ok := Materialise(dir, repo, found.revision);
    if !ok {
      assert Unwritable(repo, trust, reading, found);
      r := Fallback(dir, repo, accepted, GitFailed);
      return;
    }
    assert Usable(repo, trust, reading, found);
    return Ok(Selection(found.revision, found.tag, accepted, false, None));
  }
}
