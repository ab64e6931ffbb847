/** From the documents of a fleet to the manifest of one host. */
module Resolve {
  import opened Document
  import opened Sorting
  import opened Topology
  import opened Graph
  import opened Closure
  import opened Merge
  import opened Overlay
  import opened Provenance
  import opened Disputes
  import opened Substitute

  datatype Layer = Layer(name: string, dir: string, precedence: int)

  datatype ResourceDoc = ResourceDoc(
    ref: Ref,
    desired: Value,
    requirements: seq<Ref>,
    restartOn: seq<Ref>,
    reloadOn: seq<Ref>,
    layer: string,
    layerDir: string)

  datatype ResolveError =
    | BadSubstitution(ref: Ref)
    | Conflicting(conflict: Conflict)
    | BothTriggers(ref: Ref)
    | Invalid(ref: Ref)

  // The fold order

  /** One resource document, read as part of one layer. */
  datatype Item = Item(layer: Layer, doc: ResourceDoc)

  function InLayer(docs: seq<ResourceDoc>, layer: Layer): seq<Item> {
    if docs == [] then []
    else
      var last := docs[|docs| - 1];
      InLayer(docs[..|docs| - 1], layer) + if last.layer == layer.name then [Item(layer, last)] else []
  }

  function InOrder(layers: seq<Layer>, docs: seq<ResourceDoc>): seq<Item> {
    if layers == [] then [] else InOrder(layers[..|layers| - 1], docs) + InLayer(docs, layers[|layers| - 1])
  }

  function Matching(layers: seq<Layer>, applies: Layer -> bool): seq<Layer> {
    if layers == [] then []
    else
      var last := layers[|layers| - 1];
      Matching(layers[..|layers| - 1], applies) + if applies(last) then [last] else []
  }

  function PrecedencesOf(layers: seq<Layer>): Precedences {
    if layers == [] then map[]
    else PrecedencesOf(layers[..|layers| - 1])[layers[|layers| - 1].name := layers[|layers| - 1].precedence]
  }

  function DirsOf(layers: seq<Layer>): map<string, string> {
    if layers == [] then map[]
    else DirsOf(layers[..|layers| - 1])[layers[|layers| - 1].name := layers[|layers| - 1].dir]
  }

  /** What a host contributes to substitution. */
  datatype HostFacts = HostFacts(name: string, labels: map<string, string>)

  function SettingOf(facts: HostFacts, item: Item): Setting {
    Setting(Contribution(item.layer.name, item.layer.precedence), SubstitutedValue(facts.name, facts.labels, item.doc.desired))
  }

  /** What the documents say about one resource, in fold order and with placeholders filled in. */
  function SettingsOf(facts: HostFacts, items: seq<Item>, ref: Ref): seq<Setting> {
    if items == [] then []
    else
      var last := items[|items| - 1];
      SettingsOf(facts, items[..|items| - 1], ref) + if last.doc.ref == ref then [SettingOf(facts, last)] else []
  }

  ghost predicate Mentions(items: seq<Item>, ref: Ref, kind: EdgeKind, dependency: Ref) {
    exists item :: item in items && item.doc.ref == ref && dependency in DocRefs(item.doc, kind)
  }

  function DocRefs(doc: ResourceDoc, kind: EdgeKind): seq<Ref> {
    match kind
    case Requires => doc.requirements
    case RestartOn => doc.restartOn
    case ReloadOn => doc.reloadOn
  }

  // Reference lists

  /** The union, each entry once, existing ones in front. */
  method MergeRefs(existing: seq<Ref>, incoming: seq<Ref>) returns (out: seq<Ref>)
    ensures forall r :: r in out <==> r in existing || r in incoming
    ensures Distinct(out)
    ensures Distinct(existing) ==> existing <= out
  {
    out := [];
    var all := existing + incoming;
    for i := 0 to |all|
      invariant forall r :: r in out <==> r in all[..i]
      invariant Distinct(out)
      invariant Distinct(existing) ==> if i <= |existing| then out == existing[..i] else existing <= out
    {
      assert all[..i + 1] == all[..i] + [all[i]];
      if Distinct(existing) && i < |existing| {
        assert all[i] == existing[i] && all[..i] == existing[..i];
        assert existing[..i + 1] == existing[..i] + [existing[i]];
      }
      if all[i] !in out {
        out := out + [all[i]];
      }
    }
    assert all[..|all|] == all;
    assert existing[..|existing|] == existing;
  }

  // The fold

  type MergedResources = map<Ref, Resource>

  /** Each resource mentioned so far holds the fold of what was said about it, and every dependency anyone declared. */
  ghost predicate FoldedTo(precedence: Precedences, facts: HostFacts, items: seq<Item>, merged: MergedResources) {
    forall ref ::
      && (ref in merged <==> SettingsOf(facts, items, ref) != [])
      && (ref in merged ==> Holds(precedence, facts, items, merged[ref], ref))
  }

  ghost predicate Holds(precedence: Precedences, facts: HostFacts, items: seq<Item>, r: Resource, ref: Ref)
    requires SettingsOf(facts, items, ref) != []
  {
    && r.ref == ref
    && r.desired == Fold(precedence, SettingsOf(facts, items, ref))
    && (exists i: nat :: FirstAbout(items, i, ref) && r.layerDir == items[i].doc.layerDir)
    && forall kind, d :: d in RefsOf(r, kind) <==> Mentions(items, ref, kind, d)
  }

  /** The first document about the resource in fold order. */
  ghost predicate FirstAbout(items: seq<Item>, i: nat, ref: Ref) {
    i < |items| && items[i].doc.ref == ref && forall j :: 0 <= j < i ==> items[j].doc.ref != ref
  }

  ghost predicate AllClean(precedence: Precedences, facts: HostFacts, items: seq<Item>) {
    forall ref :: FoldsClean(precedence, SettingsOf(facts, items, ref))
  }

  /** The conflict found when the n-th setting of a resource was folded in. */
  ghost predicate ConflictAt(precedence: Precedences, facts: HostFacts, items: seq<Item>, ref: Ref, n: nat, c: Conflict) {
    StepConflict(precedence, ref.ToString(), SettingsOf(facts, items, ref), n, c)
  }

  ghost predicate StepConflict(precedence: Precedences, field: string, settings: seq<Setting>, n: nat, c: Conflict) {
    && 0 < n < |settings|
    && ConflictIn(precedence, field, Fold(precedence, settings[..n]), settings[n].value, settings[n].by_, c)
  }

  ghost predicate FoldConflict(precedence: Precedences, facts: HostFacts, items: seq<Item>, c: Conflict) {
    exists ref, n: nat :: ConflictAt(precedence, facts, items, ref, n, c)
  }

  /** The conflicts recorded are the ones there are. */
  ghost predicate AllRecorded(precedence: Precedences, facts: HostFacts, items: seq<Item>, conflicts: seq<Conflict>) {
    forall c :: c in conflicts <==> FoldConflict(precedence, facts, items, c)
  }

  /** Folding is clean exactly when no step finds a conflict. */
  lemma {:induction false} FoldsCleanMeansNoConflict(precedence: Precedences, field: string, settings: seq<Setting>)
    ensures FoldsClean(precedence, settings) <==>
      forall n: nat, c :: !StepConflict(precedence, field, settings, n, c)
  {
    hide Fold;
    if |settings| > 1 {
      var last := |settings| - 1;
      var earlier := settings[..last];
      FoldsCleanMeansNoConflict(precedence, field, earlier);
      forall n: nat, c
        ensures StepConflict(precedence, field, settings, n, c) <==>
          || StepConflict(precedence, field, earlier, n, c)
          || (n == last && StepConflict(precedence, field, settings, last, c))
      {
        assert n < last ==> earlier[..n] == settings[..n];
      }
      CleanStep(precedence, field, settings, last);
      assert FoldsClean(precedence, settings) <==>
        FoldsClean(precedence, earlier) && Clean(precedence, Fold(precedence, earlier), settings[last].value, settings[last].by_);
    }
  }

  lemma CleanStep(precedence: Precedences, field: string, settings: seq<Setting>, n: nat)
    requires 0 < n < |settings|
    ensures Clean(precedence, Fold(precedence, settings[..n]), settings[n].value, settings[n].by_) <==>
      forall c :: !StepConflict(precedence, field, settings, n, c)
  {
    hide Fold;
    var held, s := Fold(precedence, settings[..n]), settings[n];
    CleanMeansNoConflict(precedence, field, held, s.value, s.by_);
    forall c ensures StepConflict(precedence, field, settings, n, c) <==> ConflictIn(precedence, field, held, s.value, s.by_, c) {
    }
    if c :| StepConflict(precedence, field, settings, n, c) {
      assert ConflictIn(precedence, field, held, s.value, s.by_, c);
      assert !Clean(precedence, held, s.value, s.by_);
    } else {
      assert forall c :: !StepConflict(precedence, field, settings, n, c);
      forall c ensures !ConflictIn(precedence, field, held, s.value, s.by_, c) {
        assert !StepConflict(precedence, field, settings, n, c);
      }
      assert Clean(precedence, held, s.value, s.by_);
    }
  }

  lemma {:induction false} RecordedTellsClean(precedence: Precedences, facts: HostFacts, items: seq<Item>, conflicts: seq<Conflict>)
    requires AllRecorded(precedence, facts, items, conflicts)
    ensures conflicts == [] <==> AllClean(precedence, facts, items)
  {
    hide Fold;
    hide ConflictIn;
    hide SettingsOf;
    forall ref
      ensures FoldsClean(precedence, SettingsOf(facts, items, ref)) <==> forall n: nat, c :: !ConflictAt(precedence, facts, items, ref, n, c)
    {
      var field, settings := ref.ToString(), SettingsOf(facts, items, ref);
      FoldsCleanMeansNoConflict(precedence, field, settings);
      if n: nat, c :| StepConflict(precedence, field, settings, n, c) {
        assert ConflictAt(precedence, facts, items, ref, n, c);
      }
    }
    if conflicts != [] {
      assert conflicts[0] in conflicts;
      assert !AllClean(precedence, facts, items);
    }
    if ref :| !FoldsClean(precedence, SettingsOf(facts, items, ref)) {
      var n: nat, c :| ConflictAt(precedence, facts, items, ref, n, c);
      assert c in conflicts;
    }
  }

  /** One more document adds the conflicts of its own merge and no others. */
  lemma ConflictAtGrows(precedence: Precedences, facts: HostFacts, items: seq<Item>, item: Item, ref: Ref, n: nat, c: Conflict)
    ensures
      var settings, s := SettingsOf(facts, items, ref), SettingOf(facts, item);
      ConflictAt(precedence, facts, items + [item], ref, n, c) <==>
        || ConflictAt(precedence, facts, items, ref, n, c)
        || (ref == item.doc.ref && n == |settings| > 0
            && ConflictIn(precedence, ref.ToString(), Fold(precedence, settings), s.value, s.by_, c))
  {
    hide Fold;
    hide ConflictIn;
    hide SettingOf;
    SettingsGrow(facts, items, item, ref);
    var settings := SettingsOf(facts, items, ref);
    assert (settings + [SettingOf(facts, item)])[..|settings|] == settings;
    assert n < |settings| ==> (settings + [SettingOf(facts, item)])[..n] == settings[..n];
  }

  lemma {:induction false} RecordedNext(precedence: Precedences, facts: HostFacts, items: seq<Item>, item: Item,
                                        before: seq<Conflict>, conflicts: seq<Conflict>)
    requires AllRecorded(precedence, facts, items, before) && before <= conflicts
    requires
      var settings, s := SettingsOf(facts, items, item.doc.ref), SettingOf(facts, item);
      forall c :: c in conflicts[|before|..] <==>
        settings != [] && ConflictIn(precedence, item.doc.ref.ToString(), Fold(precedence, settings), s.value, s.by_, c)
    ensures AllRecorded(precedence, facts, items + [item], conflicts)
  {
    hide Fold;
    hide ConflictIn;
    hide SettingOf;
    hide SettingsOf;
    hide ConflictAt;
    var settings := SettingsOf(facts, items, item.doc.ref);
    assert conflicts == before + conflicts[|before|..];
    forall c ensures c in conflicts <==> FoldConflict(precedence, facts, items + [item], c) {
      assert c in conflicts <==> c in before || c in conflicts[|before|..];
      forall ref, n: nat ensures ConflictAt(precedence, facts, items, ref, n, c) ==> ConflictAt(precedence, facts, items + [item], ref, n, c) {
        ConflictAtGrows(precedence, facts, items, item, ref, n, c);
      }
      ConflictAtGrows(precedence, facts, items, item, item.doc.ref, |settings|, c);
      if ref, n: nat :| ConflictAt(precedence, facts, items + [item], ref, n, c) {
        ConflictAtGrows(precedence, facts, items, item, ref, n, c);
      }
    }
  }

  lemma SettingsGrow(facts: HostFacts, items: seq<Item>, item: Item, ref: Ref)
    ensures item.doc.ref == ref ==>
      SettingsOf(facts, items + [item], ref) == SettingsOf(facts, items, ref) + [SettingOf(facts, item)]
    ensures item.doc.ref != ref ==> SettingsOf(facts, items + [item], ref) == SettingsOf(facts, items, ref)
  {
    assert (items + [item])[..|items|] == items;
  }

  lemma MentionsGrow(items: seq<Item>, item: Item, ref: Ref, kind: EdgeKind, d: Ref)
    ensures Mentions(items + [item], ref, kind, d) <==>
      Mentions(items, ref, kind, d) || (item.doc.ref == ref && d in DocRefs(item.doc, kind))
  {
    assert item in items + [item];
    if Mentions(items, ref, kind, d) {
      var other :| other in items && other.doc.ref == ref && d in DocRefs(other.doc, kind);
      assert other in items + [item];
    }
  }

  lemma {:induction false} MentionedHasSettings(facts: HostFacts, items: seq<Item>, ref: Ref, kind: EdgeKind, d: Ref)
    requires Mentions(items, ref, kind, d)
    ensures SettingsOf(facts, items, ref) != []
  {
    if items != [] {
      var init, last := items[..|items| - 1], items[|items| - 1];
      assert items == init + [last];
      MentionsGrow(init, last, ref, kind, d);
      SettingsGrow(facts, init, last, ref);
      if last.doc.ref != ref {
        MentionedHasSettings(facts, init, ref, kind, d);
      }
    }
  }

  /** Adding one setting to a fold merges it into what was held, and is clean when that merge is. */
  lemma FoldGrows(precedence: Precedences, settings: seq<Setting>, s: Setting)
    ensures Fold(precedence, settings + [s]) ==
      if settings == [] then Stamp(s.value, s.by_.layer) else Merged(precedence, Fold(precedence, settings), s.value, s.by_)
    ensures FoldsClean(precedence, settings + [s]) <==>
      settings == [] || (FoldsClean(precedence, settings) && Clean(precedence, Fold(precedence, settings), s.value, s.by_))
  {
    hide Merged;
    hide Clean;
    assert (settings + [s])[..|settings|] == settings;
  }

  /** Folds one document in: the first mention is stamped, a later one is merged. */
  method FoldItem(m: Merger, facts: HostFacts, ghost items: seq<Item>, item: Item, merged: MergedResources)
    returns (merged': MergedResources, substituted: bool)
    requires FoldedTo(m.precedence, facts, items, merged)
    requires AllRecorded(m.precedence, facts, items, m.conflicts)
    modifies m
    ensures FoldedTo(m.precedence, facts, items + [item], merged')
    ensures AllRecorded(m.precedence, facts, items + [item], m.conflicts)
    ensures substituted <==> Substitutable(facts.name, facts.labels, item.doc.desired)
  {
    hide FoldedTo;
    hide AllRecorded;
    hide Merged;
    hide Stamp;
    hide Fold;
    hide SettingsOf;
    hide ConflictIn;
    hide Substitutable;
    hide SubstitutedValue;
    HeldIsFold(m.precedence, facts, items, merged, item.doc.ref);
    ghost var before := m.conflicts;
    var doc, from := item.doc, Contribution(item.layer.name, item.layer.precedence);
    var sub := new Substituter(facts.name, facts.labels);
    FreshIsHonest(sub);
    var desired := sub.Value(doc.desired);
    substituted := sub.mistakes == [];
    SettingIs(facts, item, desired);
    if doc.ref !in merged {
      var first := Resource(doc.ref, Stamp(desired, from.layer), doc.requirements, doc.restartOn, doc.reloadOn, doc.layerDir);
      merged' := merged[doc.ref := first];
      FoldedFirst(m.precedence, facts, items, item, merged, first);
      RecordedNext(m.precedence, facts, items, item, before, m.conflicts);
      return;
    }
    var held := merged[doc.ref];
    var value := m.Merge(doc.ref.ToString(), held.desired, desired, from);
    RecordedNext(m.precedence, facts, items, item, before, m.conflicts);
    var requirements := MergeRefs(held.requirements, doc.requirements);
    var restartOn := MergeRefs(held.restartOn, doc.restartOn);
    var reloadOn := MergeRefs(held.reloadOn, doc.reloadOn);
    var combined := Resource(doc.ref, value, requirements, restartOn, reloadOn, held.layerDir);
    FoldedAgain(m.precedence, facts, items, item, merged, combined);
    merged' := merged[doc.ref := combined];
  }

  lemma FreshIsHonest(sub: Substituter)
    requires sub.used == map[]
    ensures sub.Honest()
  {
  }

  lemma SettingIs(facts: HostFacts, item: Item, desired: Value)
    requires desired == SubstitutedValue(facts.name, facts.labels, item.doc.desired)
    ensures SettingOf(facts, item) == Setting(Contribution(item.layer.name, item.layer.precedence), desired)
  {
  }

  lemma HeldIsFold(precedence: Precedences, facts: HostFacts, items: seq<Item>, merged: MergedResources, ref: Ref)
    requires FoldedTo(precedence, facts, items, merged)
    ensures ref in merged <==> SettingsOf(facts, items, ref) != []
    ensures ref in merged ==> merged[ref].desired == Fold(precedence, SettingsOf(facts, items, ref))
  {
    hide Fold;
    hide SettingsOf;
    assert ref in merged ==> Holds(precedence, facts, items, merged[ref], ref);
  }

  lemma FirstAboutStays(items: seq<Item>, item: Item, ref: Ref)
    ensures forall i: nat :: FirstAbout(items, i, ref) ==> FirstAbout(items + [item], i, ref) && (items + [item])[i] == items[i]
  {
  }

  lemma {:induction false} NothingAbout(facts: HostFacts, items: seq<Item>, ref: Ref)
    ensures SettingsOf(facts, items, ref) == [] <==> forall j :: 0 <= j < |items| ==> items[j].doc.ref != ref
  {
    if items != [] {
      NothingAbout(facts, items[..|items| - 1], ref);
    }
  }

  lemma FoldedFirst(precedence: Precedences, facts: HostFacts, items: seq<Item>, item: Item, merged: MergedResources, r: Resource)
    requires FoldedTo(precedence, facts, items, merged) && item.doc.ref !in merged
    requires r.ref == item.doc.ref && r.desired == Stamp(SettingOf(facts, item).value, SettingOf(facts, item).by_.layer)
    requires forall kind :: RefsOf(r, kind) == DocRefs(item.doc, kind)
    requires r.layerDir == item.doc.layerDir
    ensures FoldedTo(precedence, facts, items + [item], merged[item.doc.ref := r])
  {
    hide Fold;
    hide FoldsClean;
    hide Stamp;
    hide SettingsOf;
    hide Mentions;
    var items', merged' := items + [item], merged[item.doc.ref := r];
    NothingAbout(facts, items, item.doc.ref);
    assert FirstAbout(items', |items|, item.doc.ref);
    forall ref
      ensures ref in merged' <==> SettingsOf(facts, items', ref) != []
      ensures ref in merged' ==> Holds(precedence, facts, items', merged'[ref], ref)
    {
      SettingsGrow(facts, items, item, ref);
      FirstAboutStays(items, item, ref);
      FoldGrows(precedence, SettingsOf(facts, items, ref), SettingOf(facts, item));
      forall kind, d ensures Mentions(items', ref, kind, d) <==>
        Mentions(items, ref, kind, d) || (item.doc.ref == ref && d in DocRefs(item.doc, kind))
      {
        MentionsGrow(items, item, ref, kind, d);
      }
      forall kind, d | Mentions(items, ref, kind, d) ensures SettingsOf(facts, items, ref) != [] {
        MentionedHasSettings(facts, items, ref, kind, d);
      }
    }
  }

  lemma FoldedAgain(precedence: Precedences, facts: HostFacts, items: seq<Item>, item: Item, merged: MergedResources, r: Resource)
    requires FoldedTo(precedence, facts, items, merged) && item.doc.ref in merged && r.ref == item.doc.ref
    requires r.desired == Merged(precedence, merged[r.ref].desired, SettingOf(facts, item).value, SettingOf(facts, item).by_)
    requires r.layerDir == merged[r.ref].layerDir
    requires forall kind, d :: d in RefsOf(r, kind) <==> d in RefsOf(merged[r.ref], kind) || d in DocRefs(item.doc, kind)
    ensures FoldedTo(precedence, facts, items + [item], merged[item.doc.ref := r])
  {
    hide Fold;
    hide FoldsClean;
    hide Merged;
    hide Clean;
    hide SettingsOf;
    hide Mentions;
    hide RefsOf;
    hide DocRefs;
    var items', merged', s := items + [item], merged[item.doc.ref := r], SettingOf(facts, item);
    forall ref
      ensures ref in merged' <==> SettingsOf(facts, items', ref) != []
      ensures ref in merged' ==> Holds(precedence, facts, items', merged'[ref], ref)
    {
      SettingsGrow(facts, items, item, ref);
      FirstAboutStays(items, item, ref);
      FoldGrows(precedence, SettingsOf(facts, items, ref), s);
      forall kind, d ensures Mentions(items', ref, kind, d) <==>
        Mentions(items, ref, kind, d) || (item.doc.ref == ref && d in DocRefs(item.doc, kind))
      {
        MentionsGrow(items, item, ref, kind, d);
      }
    }
  }

  // A host's manifest

  const PATH_FIELDS := ["source", "template"]

  /** The directory of the layer credited with the content, however many others adjusted the rest. */
  function SourceLayerDir(desired: Value, dirs: map<string, string>, fallback: string): string {
    SourceDirFrom(PATH_FIELDS, desired, dirs, fallback)
  }

  function SourceDirFrom(fields: seq<string>, desired: Value, dirs: map<string, string>, fallback: string): string {
    if fields == [] then fallback
    else
      match Lookup(desired, fields[0])
      case Some(value) =>
        if value.from != "" && value.from in dirs then dirs[value.from] else SourceDirFrom(fields[1..], desired, dirs, fallback)
      case None => SourceDirFrom(fields[1..], desired, dirs, fallback)
  }

  predicate Exclusive(r: Resource) {
    r.restartOn == [] || r.reloadOn == []
  }

  /** Everything resolution checks: placeholders, conflicts, one kind of trigger, and each merged resource. */
  ghost predicate Resolvable(precedence: Precedences, facts: HostFacts, items: seq<Item>, merged: MergedResources,
                             valid: (Ref, Value) -> bool)
  {
    && (forall item :: item in items ==> Substitutable(facts.name, facts.labels, item.doc.desired))
    && AllClean(precedence, facts, items)
    && (forall ref :: ref in merged ==> Exclusive(merged[ref]) && valid(ref, merged[ref].desired))
  }

  function ListedAs(merged: MergedResources, dirs: map<string, string>, ref: Ref): Resource
    requires ref in merged
  {
    merged[ref].(layerDir := SourceLayerDir(merged[ref].desired, dirs, merged[ref].layerDir))
  }

  /** The resources as listed: by reference, each where its content comes from. */
  ghost predicate Listed(merged: MergedResources, dirs: map<string, string>, listed: seq<Resource>) {
    && (forall ref :: ref in merged ==> ListedAs(merged, dirs, ref) in listed)
    && (forall i, j :: 0 <= i < j < |listed| ==> Before(listed[i].ref, listed[j].ref))
    && (forall i :: 0 <= i < |listed| ==> listed[i].ref in merged && listed[i] == ListedAs(merged, dirs, listed[i].ref))
  }

  method MatchingLayers(layers: seq<Layer>, applies: Layer -> bool)
    returns (matched: seq<Layer>, precedence: Precedences, dirs: map<string, string>)
    ensures matched == Matching(layers, applies)
    ensures precedence == PrecedencesOf(matched) && dirs == DirsOf(matched)
  {
    matched, precedence, dirs := [], map[], map[];
    for i := 0 to |layers|
      invariant matched == Matching(layers[..i], applies)
      invariant precedence == PrecedencesOf(matched) && dirs == DirsOf(matched)
    {
      assert layers[..i + 1][..i] == layers[..i];
      if applies(layers[i]) {
        assert (matched + [layers[i]])[..|matched|] == matched;
        matched := matched + [layers[i]];
        precedence := precedence[layers[i].name := layers[i].precedence];
        dirs := dirs[layers[i].name := layers[i].dir];
      }
    }
    assert layers[..|layers|] == layers;
  }

  ghost predicate Folding(precedence: Precedences, facts: HostFacts, items: seq<Item>, merged: MergedResources,
                          conflicts: seq<Conflict>, errors: seq<ResolveError>)
  {
    && FoldedTo(precedence, facts, items, merged)
    && AllRecorded(precedence, facts, items, conflicts)
    && forall e :: e in errors <==> e.BadSubstitution? && Unsubstitutable(facts, items, e.ref)
  }

  /** Some document about the resource has a placeholder that stands for nothing here. */
  ghost predicate Unsubstitutable(facts: HostFacts, items: seq<Item>, ref: Ref) {
    exists item :: item in items && item.doc.ref == ref && !Substitutable(facts.name, facts.labels, item.doc.desired)
  }

  lemma UnsubstitutableGrows(facts: HostFacts, items: seq<Item>, item: Item, ref: Ref)
    ensures Unsubstitutable(facts, items + [item], ref) <==>
      Unsubstitutable(facts, items, ref) || (item.doc.ref == ref && !Substitutable(facts.name, facts.labels, item.doc.desired))
  {
    hide Substitutable;
    assert forall other :: other in items + [item] <==> other in items || other == item;
  }

  /** Folds the documents of one layer, in document order. */
  method FoldLayer(m: Merger, facts: HostFacts, ghost earlier: seq<Item>, layer: Layer, docs: seq<ResourceDoc>,
                   before: MergedResources, found: seq<ResolveError>)
    returns (merged: MergedResources, errors: seq<ResolveError>)
    requires Folding(m.precedence, facts, earlier, before, m.conflicts, found)
    modifies m
    ensures Folding(m.precedence, facts, earlier + InLayer(docs, layer), merged, m.conflicts, errors)
  {
    hide FoldedTo;
    hide AllRecorded;
    hide Unsubstitutable;
    hide Substitutable;
    merged, errors := before, found;
    assert earlier + [] == earlier;
    for i := 0 to |docs|
      invariant Folding(m.precedence, facts, earlier + InLayer(docs[..i], layer), merged, m.conflicts, errors)
    {
      assert docs[..i + 1][..i] == docs[..i];
      ghost var items := earlier + InLayer(docs[..i], layer);
      if docs[i].layer == layer.name {
        var item := Item(layer, docs[i]);
        var substituted;
        merged, substituted := FoldItem(m, facts, items, item, merged);
        if !substituted {
          errors := errors + [BadSubstitution(docs[i].ref)];
        }
        assert earlier + InLayer(docs[..i + 1], layer) == items + [item];
        forall ref ensures Unsubstitutable(facts, items + [item], ref) <==>
          Unsubstitutable(facts, items, ref) || (item.doc.ref == ref && !Substitutable(facts.name, facts.labels, item.doc.desired))
        {
          UnsubstitutableGrows(facts, items, item, ref);
        }
      } else {
        assert InLayer(docs[..i + 1], layer) == InLayer(docs[..i], layer);
      }
    }
    assert docs[..|docs|] == docs;
  }

  method FoldLayers(m: Merger, facts: HostFacts, layers: seq<Layer>, docs: seq<ResourceDoc>)
    returns (merged: MergedResources, errors: seq<ResolveError>)
    requires m.conflicts == []
    modifies m
    ensures Folding(m.precedence, facts, InOrder(layers, docs), merged, m.conflicts, errors)
  {
    merged, errors := map[], [];
    NothingFolded(m.precedence, facts);
    for i := 0 to |layers|
      invariant Folding(m.precedence, facts, InOrder(layers[..i], docs), merged, m.conflicts, errors)
    {
      assert layers[..i + 1][..i] == layers[..i];
      merged, errors := FoldLayer(m, facts, InOrder(layers[..i], docs), layers[i], docs, merged, errors);
    }
    assert layers[..|layers|] == layers;
  }

  lemma FoldedUnderOwnNames(precedence: Precedences, facts: HostFacts, items: seq<Item>, merged: MergedResources)
    requires FoldedTo(precedence, facts, items, merged)
    ensures forall ref :: ref in merged ==> merged[ref].ref == ref
  {
    forall ref | ref in merged ensures merged[ref].ref == ref {
      assert Holds(precedence, facts, items, merged[ref], ref);
    }
  }

  lemma NothingFolded(precedence: Precedences, facts: HostFacts)
    ensures Folding(precedence, facts, [], map[], [], [])
  {
  }

  /** What resolving one host comes to: the listing of the fold, and errors exactly where it is not resolvable. */
  ghost predicate Resolution(precedence: Precedences, facts: HostFacts, items: seq<Item>, dirs: map<string, string>,
                             valid: (Ref, Value) -> bool, merged: MergedResources,
                             listed: seq<Resource>, errors: seq<ResolveError>)
  {
    && FoldedTo(precedence, facts, items, merged)
    && Listed(merged, dirs, listed)
    && (forall e :: e in errors <==> Warranted(precedence, facts, items, merged, valid, e))
    && (errors == [] <==> Resolvable(precedence, facts, items, merged, valid))
  }

  /** What each error reports is so. */
  ghost predicate Warranted(precedence: Precedences, facts: HostFacts, items: seq<Item>, merged: MergedResources,
                            valid: (Ref, Value) -> bool, e: ResolveError)
  {
    match e
    case BadSubstitution(ref) => Unsubstitutable(facts, items, ref)
    case Conflicting(c) => FoldConflict(precedence, facts, items, c)
    case BothTriggers(ref) => ref in merged && !Exclusive(merged[ref])
    case Invalid(ref) => ref in merged && !valid(ref, merged[ref].desired)
  }

  /** No error is warranted exactly when everything resolution checks is in order. */
  lemma {:induction false} WarrantedMeansNotResolvable(precedence: Precedences, facts: HostFacts, items: seq<Item>, merged: MergedResources,
                                                       valid: (Ref, Value) -> bool, conflicts: seq<Conflict>, errors: seq<ResolveError>)
    requires AllRecorded(precedence, facts, items, conflicts)
    requires forall e :: e in errors <==> Warranted(precedence, facts, items, merged, valid, e)
    ensures errors == [] <==> Resolvable(precedence, facts, items, merged, valid)
  {
    hide AllClean;
    hide FoldConflict;
    hide Substitutable;
    RecordedTellsClean(precedence, facts, items, conflicts);
    if conflicts != [] {
      assert conflicts[0] in conflicts;
      assert Conflicting(conflicts[0]) in errors;
    }
    if errors == [] {
      forall item | item in items ensures Substitutable(facts.name, facts.labels, item.doc.desired) {
        assert BadSubstitution(item.doc.ref) !in errors;
      }
      forall ref | ref in merged ensures Exclusive(merged[ref]) && valid(ref, merged[ref].desired) {
        assert BothTriggers(ref) !in errors && Invalid(ref) !in errors;
      }
    } else {
      assert errors[0] in errors;
    }
  }

  /** Resolves the manifest of one host from the layers that apply to it. */
  method ResolveHost(layers: seq<Layer>, docs: seq<ResourceDoc>, applies: Layer -> bool, facts: HostFacts,
                     valid: (Ref, Value) -> bool)
    returns (listed: seq<Resource>, errors: seq<ResolveError>)
    ensures
      var matched := Matching(layers, applies);
      exists merged :: Resolution(PrecedencesOf(matched), facts, InOrder(matched, docs), DirsOf(matched), valid, merged, listed, errors)
  {
    hide FoldedTo;
    hide AllRecorded;
    hide FoldConflict;
    hide Unsubstitutable;
    hide Resolvable;
    hide SourceLayerDir;
    var matched, precedence, dirs := MatchingLayers(layers, applies);
    var m := new Merger(precedence);
    var folded;
    folded, errors := FoldLayers(m, facts, matched, docs);
    ghost var unsubstituted := errors;
    for i := 0 to |m.conflicts|
      invariant forall e :: e in errors <==> e in unsubstituted || (e.Conflicting? && e.conflict in m.conflicts[..i])
    {
      assert m.conflicts[..i + 1] == m.conflicts[..i] + [m.conflicts[i]];
      errors := errors + [Conflicting(m.conflicts[i])];
    }
    assert m.conflicts[..|m.conflicts|] == m.conflicts;
    RecordedMeans(precedence, facts, InOrder(matched, docs), m.conflicts);
    var bad: seq<ResolveError>;
    FoldedUnderOwnNames(precedence, facts, InOrder(matched, docs), folded);
    listed, bad := ListResources(folded, dirs, valid);
    errors := errors + bad;
    WarrantedMeansNotResolvable(precedence, facts, InOrder(matched, docs), folded, valid, m.conflicts, errors);
    assert Resolution(precedence, facts, InOrder(matched, docs), dirs, valid, folded, listed, errors);
  }

  lemma RecordedMeans(precedence: Precedences, facts: HostFacts, items: seq<Item>, conflicts: seq<Conflict>)
    requires AllRecorded(precedence, facts, items, conflicts)
    ensures forall c :: c in conflicts <==> FoldConflict(precedence, facts, items, c)
  {
    hide FoldConflict;
  }

  method ListResources(merged: MergedResources, dirs: map<string, string>, valid: (Ref, Value) -> bool)
    returns (listed: seq<Resource>, errors: seq<ResolveError>)
    requires forall ref :: ref in merged ==> merged[ref].ref == ref
    ensures Listed(merged, dirs, listed)
    ensures forall e :: e in errors <==> Faulty(merged, valid, e)
  {
    hide SourceLayerDir;
    var order := SortedByName(merged.Keys);
    listed, errors := [], [];
    for i := 0 to |order|
      invariant |listed| == i
      invariant forall k :: 0 <= k < i ==> order[k] in merged && listed[k] == ListedAs(merged, dirs, order[k])
      invariant forall e :: e in errors <==> Faulty(merged, valid, e) && e.ref in order[..i]
    {
      assert order[..i + 1] == order[..i] + [order[i]];
      assert order[i] in order && order[i] in order[..i + 1];
      var bad := Check(merged, valid, order[i]);
      errors := errors + bad;
      listed := listed + [ListedAs(merged, dirs, order[i])];
    }
    assert order[..|order|] == order;
    OrderIsListed(merged, dirs, order, listed);
  }

  /** What checking each merged resource can find. */
  predicate Faulty(merged: MergedResources, valid: (Ref, Value) -> bool, e: ResolveError) {
    match e
    case BothTriggers(ref) => ref in merged && !Exclusive(merged[ref])
    case Invalid(ref) => ref in merged && !valid(ref, merged[ref].desired)
    case _ => false
  }

  method Check(merged: MergedResources, valid: (Ref, Value) -> bool, ref: Ref) returns (bad: seq<ResolveError>)
    requires ref in merged
    ensures forall e :: e in bad <==> Faulty(merged, valid, e) && e.ref == ref
  {
    bad := [];
    if !Exclusive(merged[ref]) {
      bad := bad + [BothTriggers(ref)];
    }
    if !valid(ref, merged[ref].desired) {
      bad := bad + [Invalid(ref)];
    }
  }

  lemma OrderIsListed(merged: MergedResources, dirs: map<string, string>, order: seq<Ref>, listed: seq<Resource>)
    requires forall ref :: ref in merged ==> merged[ref].ref == ref
    requires forall ref :: ref in order <==> ref in merged
    requires forall i, j :: 0 <= i < j < |order| ==> Before(order[i], order[j])
    requires |listed| == |order|
    requires forall k :: 0 <= k < |order| ==> order[k] in merged && listed[k] == ListedAs(merged, dirs, order[k])
    ensures Listed(merged, dirs, listed)
  {
    hide SourceLayerDir;
    forall ref | ref in merged ensures ListedAs(merged, dirs, ref) in listed {
      assert ref in order;
      var k :| 0 <= k < |order| && order[k] == ref;
      assert listed[k] == ListedAs(merged, dirs, ref);
    }
  }

  method SortedByName(refs: set<Ref>) returns (order: seq<Ref>)
    ensures forall r :: r in order <==> r in refs
    ensures forall i, j :: 0 <= i < j < |order| ==> Before(order[i], order[j])
  {
    var list := [];
    var unvisited := refs;
    while unvisited != {}
      invariant unvisited <= refs && Distinct(list)
      invariant forall r :: r in list <==> r in refs && r !in unvisited
    {
      var r :| r in unvisited;
      unvisited := unvisited - {r};
      list := list + [r];
    }
    order := SortRefs(list);
    forall i, j | 0 <= i < j < |order| ensures Before(order[i], order[j]) {
      BeforeTotal(order[i], order[j]);
    }
  }

  // What a resolved manifest is worth

  /** When kinds agree at each path, every resource is the overlay of what the layers set, in fold order. */
  lemma {:induction false} ResolvedIsOverlay(precedence: Precedences, facts: HostFacts, items: seq<Item>, merged: MergedResources,
                                             dirs: map<string, string>, listed: seq<Resource>, r: Resource)
    requires FoldedTo(precedence, facts, items, merged) && AllClean(precedence, facts, items) && Listed(merged, dirs, listed)
    requires r in listed && AllKindsAgree(SettingsOf(facts, items, r.ref))
    ensures SettingsOf(facts, items, r.ref) != []
    ensures Erase(r.desired) == OverAll(SettingsOf(facts, items, r.ref))
  {
    hide Fold;
    hide FoldsClean;
    hide SettingsOf;
    hide AllKindsAgree;
    hide OverAll;
    hide Mentions;
    hide SourceLayerDir;
    assert Holds(precedence, facts, items, merged[r.ref], r.ref);
    assert FoldsClean(precedence, SettingsOf(facts, items, r.ref));
    FoldIsOverlay(precedence, SettingsOf(facts, items, r.ref));
  }

  /** The manifest declares an edge exactly when some layer did: no layer can take one away. */
  lemma {:induction false} ResolvedEdges(precedence: Precedences, facts: HostFacts, items: seq<Item>, merged: MergedResources,
                                         dirs: map<string, string>, listed: seq<Resource>, e: Edge)
    requires FoldedTo(precedence, facts, items, merged) && Listed(merged, dirs, listed)
    ensures e in DeclaredEdges(listed) <==> Mentions(items, e.to, e.kind, e.from)
  {
    hide SettingsOf;
    hide Fold;
    hide SourceLayerDir;
    hide Mentions;
    hide RefsOf;
    hide DeclaredEdges;
    DeclaredBy(listed, e);
    forall ref | ref in merged
      ensures e.from in RefsOf(ListedAs(merged, dirs, ref), e.kind) <==> Mentions(items, ref, e.kind, e.from)
    {
      assert Holds(precedence, facts, items, merged[ref], ref);
      ListedKeepsRefs(merged, dirs, ref, e.kind);
    }
    if Mentions(items, e.to, e.kind, e.from) {
      MentionedHasSettings(facts, items, e.to, e.kind, e.from);
      assert Holds(precedence, facts, items, merged[e.to], e.to);
      assert ListedAs(merged, dirs, e.to) in listed;
    }
  }

  lemma ListedKeepsRefs(merged: MergedResources, dirs: map<string, string>, ref: Ref, kind: EdgeKind)
    requires ref in merged
    ensures RefsOf(ListedAs(merged, dirs, ref), kind) == RefsOf(merged[ref], kind)
    ensures ListedAs(merged, dirs, ref).ref == merged[ref].ref
  {
    hide SourceLayerDir;
  }

  /** A resolved resource reacts in one way, so which of its edges is looked at first cannot matter. */
  lemma {:induction false} ResolvedReactsOneWay(merged: MergedResources, dirs: map<string, string>, listed: seq<Resource>, ref: Ref)
    requires Listed(merged, dirs, listed) && forall r :: r in merged ==> Exclusive(merged[r])
    ensures OneOperation(DeclaredEdges(listed), ref)
  {
    hide SourceLayerDir;
    hide DeclaredEdges;
    forall e ensures e in DeclaredEdges(listed) && e.to == ref ==> ref in merged && e.from in RefsOf(merged[ref], e.kind) {
      DeclaredBy(listed, e);
    }
  }

  // What provenance may rely on

  /** Layers as discovery lists them: a name of its own for each, in ascending precedence. */
  predicate WellListed(layers: seq<Layer>) {
    && (forall i :: 0 <= i < |layers| ==> layers[i].name != "" && layers[i].name != EARLIER)
    && (forall i, j :: 0 <= i < j < |layers| ==> layers[i].name != layers[j].name && layers[i].precedence <= layers[j].precedence)
  }

  /** Documents as read: no provenance on any value yet. */
  predicate AsRead(docs: seq<ResourceDoc>) {
    forall i :: 0 <= i < |docs| ==> Raw(docs[i].desired)
  }

  ghost predicate ItemsLayered(precedence: Precedences, items: seq<Item>) {
    && (forall i :: 0 <= i < |items| ==>
          Known(precedence, Contribution(items[i].layer.name, items[i].layer.precedence)) && Raw(items[i].doc.desired))
    && (forall i, j :: 0 <= i < j < |items| ==> items[i].layer.precedence <= items[j].layer.precedence)
  }

  lemma {:induction false} SubstitutedStaysRaw(facts: HostFacts, v: Value)
    requires Raw(v)
    ensures Raw(SubstitutedValue(facts.name, facts.labels, v))
  {
    if v.Map? {
      forall k | k in v.fields ensures Raw(SubstitutedValue(facts.name, facts.labels, v.fields[k])) {
        SubstitutedStaysRaw(facts, v.fields[k]);
      }
    }
  }

  lemma {:induction false} PrecedencesKnown(layers: seq<Layer>)
    requires WellListed(layers)
    ensures EARLIER !in PrecedencesOf(layers)
    ensures forall i :: 0 <= i < |layers| ==> Known(PrecedencesOf(layers), Contribution(layers[i].name, layers[i].precedence))
  {
    if layers != [] {
      PrecedencesKnown(layers[..|layers| - 1]);
    }
  }

  lemma {:induction false} InLayerItems(docs: seq<ResourceDoc>, layer: Layer)
    requires AsRead(docs)
    ensures forall i :: 0 <= i < |InLayer(docs, layer)| ==>
      InLayer(docs, layer)[i].layer == layer && Raw(InLayer(docs, layer)[i].doc.desired)
  {
    if docs != [] {
      InLayerItems(docs[..|docs| - 1], layer);
    }
  }

  lemma {:induction false} InOrderItems(layers: seq<Layer>, n: nat, docs: seq<ResourceDoc>)
    requires WellListed(layers) && AsRead(docs) && n <= |layers|
    ensures ItemsLayered(PrecedencesOf(layers), InOrder(layers[..n], docs))
    ensures forall i, k :: 0 <= i < |InOrder(layers[..n], docs)| && n <= k < |layers| ==>
      InOrder(layers[..n], docs)[i].layer.precedence <= layers[k].precedence
  {
    hide InLayer;
    hide Raw;
    if n > 0 {
      assert layers[..n][..n - 1] == layers[..n - 1];
      InOrderItems(layers, n - 1, docs);
      InLayerItems(docs, layers[n - 1]);
      PrecedencesKnown(layers);
      var earlier, last := InOrder(layers[..n - 1], docs), InLayer(docs, layers[n - 1]);
      assert InOrder(layers[..n], docs) == earlier + last;
    }
  }

  lemma {:induction false} SettingsLayered(precedence: Precedences, facts: HostFacts, items: seq<Item>, ref: Ref)
    requires ItemsLayered(precedence, items) && EARLIER !in precedence
    ensures Layered(precedence, SettingsOf(facts, items, ref))
    ensures items != [] ==> forall i :: 0 <= i < |SettingsOf(facts, items, ref)| ==>
      SettingsOf(facts, items, ref)[i].by_.precedence <= items[|items| - 1].layer.precedence
  {
    hide Raw;
    hide SubstitutedValue;
    if items != [] {
      var n := |items| - 1;
      SettingsLayered(precedence, facts, items[..n], ref);
      SubstitutedStaysRaw(facts, items[n].doc.desired);
      assert n > 0 ==> items[..n][n - 1] == items[n - 1];
    }
  }

  /** In a resolved manifest every leaf is credited to a setter, and what it displaced came from falling precedences. */
  lemma {:induction false} ResolvedProvenance(layers: seq<Layer>, docs: seq<ResourceDoc>, facts: HostFacts, merged: MergedResources, ref: Ref)
    requires WellListed(layers) && AsRead(docs)
    requires FoldedTo(PrecedencesOf(layers), facts, InOrder(layers, docs), merged) && ref in merged
    ensures
      var settings := SettingsOf(facts, InOrder(layers, docs), ref);
      && settings != [] && Sourced(settings, merged[ref].desired, [])
      && Ordered(PrecedencesOf(layers), merged[ref].desired, settings[|settings| - 1].by_.precedence)
  {
    hide Fold;
    hide Layered;
    hide SettingsOf;
    var precedence, items := PrecedencesOf(layers), InOrder(layers, docs);
    assert Holds(precedence, facts, items, merged[ref], ref);
    assert layers[..|layers|] == layers;
    InOrderItems(layers, |layers|, docs);
    PrecedencesKnown(layers);
    SettingsLayered(precedence, facts, items, ref);
    FoldSourced(precedence, SettingsOf(facts, items, ref));
    FoldOrdered(precedence, SettingsOf(facts, items, ref));
  }

  /** Two documents about the resource, of layers of one precedence, set the field the conflict names and read differently. */
  ghost predicate RealAt(precedence: Precedences, facts: HostFacts, items: seq<Item>, ref: Ref, n: nat, c: Conflict) {
    var settings := SettingsOf(facts, items, ref);
    && 0 < n < |settings|
    && RealBelow(precedence, settings[..n], settings[n], ref.ToString(), [], c)
  }

  /** Every conflict a resolution reports is one between two layers it names. */
  lemma {:induction false} ReportedConflictIsReal(layers: seq<Layer>, docs: seq<ResourceDoc>, facts: HostFacts, c: Conflict)
    requires WellListed(layers) && AsRead(docs)
    requires FoldConflict(PrecedencesOf(layers), facts, InOrder(layers, docs), c)
    ensures exists ref, n: nat :: RealAt(PrecedencesOf(layers), facts, InOrder(layers, docs), ref, n, c)
  {
    hide Fold;
    hide Layered;
    hide SettingsOf;
    hide ConflictIn;
    hide RealBelow;
    var precedence, items := PrecedencesOf(layers), InOrder(layers, docs);
    var ref, n: nat :| ConflictAt(precedence, facts, items, ref, n, c);
    assert layers[..|layers|] == layers;
    InOrderItems(layers, |layers|, docs);
    PrecedencesKnown(layers);
    SettingsLayered(precedence, facts, items, ref);
    FoldConflictsAreReal(precedence, SettingsOf(facts, items, ref), n, ref.ToString(), c);
    assert RealAt(precedence, facts, items, ref, n, c);
  }

  /** Every layer that changes a value changes one that a lower layer had said and nobody has contradicted since. */
  ghost predicate ChangesRepeatLower(settings: seq<Setting>) {
    forall i: nat, j: nat, path :: Changes(settings, i, j, path) ==> RepeatsLower(settings, i, j, path)
  }

  /** Where kinds agree, a host resolves without conflict exactly when that is so for every resource. */
  lemma {:induction false} ResolvesWithoutConflict(layers: seq<Layer>, docs: seq<ResourceDoc>, facts: HostFacts)
    requires WellListed(layers) && AsRead(docs)
    requires forall ref :: AllKindsAgree(SettingsOf(facts, InOrder(layers, docs), ref))
    ensures AllClean(PrecedencesOf(layers), facts, InOrder(layers, docs)) <==>
      forall ref :: ChangesRepeatLower(SettingsOf(facts, InOrder(layers, docs), ref))
  {
    hide Fold;
    hide Layered;
    hide SettingsOf;
    hide AllKindsAgree;
    hide RepeatsLower;
    hide Changes;
    var precedence, items := PrecedencesOf(layers), InOrder(layers, docs);
    assert layers[..|layers|] == layers;
    InOrderItems(layers, |layers|, docs);
    PrecedencesKnown(layers);
    forall ref ensures FoldsClean(precedence, SettingsOf(facts, items, ref)) <==> ChangesRepeatLower(SettingsOf(facts, items, ref)) {
      SettingsLayered(precedence, facts, items, ref);
      CleanIffRepeats(precedence, SettingsOf(facts, items, ref));
    }
    hide FoldsClean;
    hide ChangesRepeatLower;
    if AllClean(precedence, facts, items) {
      forall ref ensures ChangesRepeatLower(SettingsOf(facts, items, ref)) {
        assert FoldsClean(precedence, SettingsOf(facts, items, ref));
      }
    } else {
      var ref :| !FoldsClean(precedence, SettingsOf(facts, items, ref));
      assert !ChangesRepeatLower(SettingsOf(facts, items, ref));
    }
  }

  lemma CleanIffRepeats(precedence: Precedences, settings: seq<Setting>)
    requires Layered(precedence, settings) && AllKindsAgree(settings)
    ensures FoldsClean(precedence, settings) <==> ChangesRepeatLower(settings)
  {
    hide Fold;
    hide Layered;
    hide AllKindsAgree;
    hide RepeatsLower;
    if settings != [] {
      assert settings[..|settings|] == settings;
      CleanWhereKindsAgree(precedence, settings, |settings|);
    }
  }
}
