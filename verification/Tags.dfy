/** Choosing among signed tags by ancestry alone. */
module Tags {
  import opened Text

  /** Git's word on an ancestry question: a failure to answer is not a no. */
  datatype Answer = Yes | No | Failed

  datatype Tag = Tag(name: string, commit: string)

  type Ancestry = (string, string) -> Answer

  ghost predicate Descends(isAncestor: Ancestry, tag: Tag, other: Tag) {
    other.commit == tag.commit || isAncestor(other.commit, tag.commit).Yes?
  }

  /** The tag's commit descends from every candidate's. */
  ghost predicate Tops(isAncestor: Ancestry, candidates: seq<Tag>, tag: Tag) {
    forall other :: other in candidates ==> Descends(isAncestor, tag, other)
  }

  /** Every question that could be asked about two of these gets an answer. */
  ghost predicate Answers(isAncestor: Ancestry, candidates: seq<Tag>) {
    forall a, b :: a in candidates && b in candidates && a.commit != b.commit ==> !isAncestor(a.commit, b.commit).Failed?
  }

  /** Commits are content addressed, so no two different ones can be ancestors of each other. */
  ghost predicate Antisymmetric(isAncestor: Ancestry) {
    forall a, b :: isAncestor(a, b).Yes? && isAncestor(b, a).Yes? ==> a == b
  }

  datatype TagError = NoCandidate | AmbiguousTags | AncestryFailed

  /** Whether one candidate descends from every other, asked in order until one does not. */
  method DescendsFromAll(isAncestor: Ancestry, candidates: seq<Tag>, tag: Tag) returns (answer: Answer)
    ensures answer.Yes? <==> Tops(isAncestor, candidates, tag)
    ensures answer.Failed? ==> exists other :: other in candidates && other.commit != tag.commit && isAncestor(other.commit, tag.commit).Failed?
    ensures answer.No? ==> exists other :: other in candidates && other.commit != tag.commit && isAncestor(other.commit, tag.commit).No?
  {
    for i := 0 to |candidates|
      invariant forall j :: 0 <= j < i ==> Descends(isAncestor, tag, candidates[j])
    {
      if candidates[i].commit == tag.commit {
        continue;
      }
      answer := isAncestor(candidates[i].commit, tag.commit);
      if !answer.Yes? {
        assert candidates[i] in candidates && !Descends(isAncestor, tag, candidates[i]);
        return;
      }
    }
    answer := Yes;
  }

  /** The first that descends from every candidate, which decides between two names for one commit. */
  ghost predicate FirstTop(isAncestor: Ancestry, candidates: seq<Tag>, tag: Tag) {
    exists i :: 0 <= i < |candidates| && candidates[i] == tag && Tops(isAncestor, candidates, tag)
      && forall j :: 0 <= j < i ==> !Tops(isAncestor, candidates, candidates[j])
  }

  lemma FirstTopIsUnique(isAncestor: Ancestry, candidates: seq<Tag>, a: Tag, b: Tag)
    requires FirstTop(isAncestor, candidates, a) && FirstTop(isAncestor, candidates, b)
    ensures a == b
  {
  }

  /** Where any tag tops the rest, one of them comes first. */
  lemma FirstTopExists(isAncestor: Ancestry, candidates: seq<Tag>)
    ensures (exists t :: t in candidates && Tops(isAncestor, candidates, t)) <==>
      exists t :: FirstTop(isAncestor, candidates, t)
  {
    if t :| t in candidates && Tops(isAncestor, candidates, t) {
      var i := 0;
      while !Tops(isAncestor, candidates, candidates[i])
        invariant 0 <= i < |candidates|
        invariant exists k :: i <= k < |candidates| && candidates[k] == t
        invariant forall j :: 0 <= j < i ==> !Tops(isAncestor, candidates, candidates[j])
        decreases |candidates| - i
      {
        i := i + 1;
      }
      assert FirstTop(isAncestor, candidates, candidates[i]);
    }
  }

  method SelectTag(isAncestor: Ancestry, candidates: seq<Tag>) returns (r: Result<Tag, TagError>)
    ensures r.Ok? ==> FirstTop(isAncestor, candidates, r.value)
    ensures Answers(isAncestor, candidates) ==> (r.Ok? <==> exists t :: t in candidates && Tops(isAncestor, candidates, t))
    ensures r == Err(NoCandidate) <==> candidates == []
    ensures r == Err(AmbiguousTags) ==> forall t :: t in candidates ==> !Tops(isAncestor, candidates, t)
    ensures r == Err(AncestryFailed) ==> !Answers(isAncestor, candidates)
  {
    if |candidates| == 0 {
      return Err(NoCandidate);
    }
    if |candidates| == 1 {
      assert candidates[0] in candidates && Tops(isAncestor, candidates, candidates[0]);
      return Ok(candidates[0]);
    }
    for i := 0 to |candidates|
      invariant forall j :: 0 <= j < i ==> !Tops(isAncestor, candidates, candidates[j])
    {
      var answer := DescendsFromAll(isAncestor, candidates, candidates[i]);
      match answer
      case Failed => return Err(AncestryFailed);
      case Yes => return Ok(candidates[i]);
      case No =>
    }
    return Err(AmbiguousTags);
  }

  /** Whatever order the candidates come in, the commit that tops them is the same one. */
  lemma TopCommitIsUnique(isAncestor: Ancestry, candidates: seq<Tag>, candidates': seq<Tag>, t: Tag, t': Tag)
    requires Antisymmetric(isAncestor)
    requires forall c :: c in candidates <==> c in candidates'
    requires t in candidates && Tops(isAncestor, candidates, t)
    requires t' in candidates' && Tops(isAncestor, candidates', t')
    ensures t.commit == t'.commit
  {
    assert Descends(isAncestor, t, t') && Descends(isAncestor, t', t);
  }

  lemma SameCandidates(isAncestor: Ancestry, candidates: seq<Tag>, candidates': seq<Tag>)
    requires forall c :: c in candidates <==> c in candidates'
    ensures forall t :: Tops(isAncestor, candidates, t) <==> Tops(isAncestor, candidates', t)
    ensures Answers(isAncestor, candidates) <==> Answers(isAncestor, candidates')
  {
  }

  /** Two selections from one set of candidates agree on the commit, and on whether there is one. */
  method SelectTwice(isAncestor: Ancestry, candidates: seq<Tag>, candidates': seq<Tag>)
    returns (r: Result<Tag, TagError>, r': Result<Tag, TagError>)
    requires Antisymmetric(isAncestor) && Answers(isAncestor, candidates)
    requires forall c :: c in candidates <==> c in candidates'
    ensures r.Ok? <==> r'.Ok?
    ensures r.Ok? ==> r.value.commit == r'.value.commit
    ensures r.Err? ==> r == r'
  {
    hide Tops;
    hide Answers;
    hide Antisymmetric;
    SameCandidates(isAncestor, candidates, candidates');
    r := SelectTag(isAncestor, candidates);
    r' := SelectTag(isAncestor, candidates');
    if t :| t in candidates && Tops(isAncestor, candidates, t) {
      assert t in candidates' && Tops(isAncestor, candidates', t);
    }
    if t :| t in candidates' && Tops(isAncestor, candidates', t) {
      assert t in candidates && Tops(isAncestor, candidates, t);
    }
    assert candidates != [] ==> candidates[0] in candidates';
    assert candidates' != [] ==> candidates'[0] in candidates;
    assert r.Err? ==> r.error == if candidates == [] then NoCandidate else AmbiguousTags;
    assert r'.Err? ==> r'.error == if candidates' == [] then NoCandidate else AmbiguousTags;
    if r.Ok? && r'.Ok? {
      TopCommitIsUnique(isAncestor, candidates, candidates', r.value, r'.value);
    }
  }
}
