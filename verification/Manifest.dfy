/** What a resolved manifest says, in terms of the layers and documents it came from. */
module Manifest {
  import opened Document
  import opened Graph
  import opened Merge
  import opened Overlay
  import opened Provenance
  import opened Substitute
  import opened Resolve

  // Which documents are folded, and in what order

  ghost predicate Rising(at: seq<nat>, n: nat) {
    (forall k :: 0 <= k < |at| ==> at[k] < n) && forall k, l :: 0 <= k < l < |at| ==> at[k] < at[l]
  }

  ghost predicate Has<T>(at: seq<T>, x: T) {
    x in at
  }

  lemma HasMore<T>(at: seq<T>, x: T)
    ensures Has(at + [x], x)
    ensures forall y :: Has(at, y) ==> Has(at + [x], y)
  {
  }

  /** The layers that apply, in the order given. */
  lemma {:induction false} MatchingPicks(layers: seq<Layer>, applies: Layer -> bool, n: nat) returns (at: seq<nat>)
    requires n <= |layers|
    ensures |at| == |Matching(layers[..n], applies)| && Rising(at, n)
    ensures forall k :: 0 <= k < |at| ==> Matching(layers[..n], applies)[k] == layers[at[k]] && applies(layers[at[k]])
    ensures forall i :: 0 <= i < n && applies(layers[i]) ==> Has(at, i)
    decreases n
  {
    hide Has;
    at := [];
    if n > 0 {
      at := MatchingPicks(layers, applies, n - 1);
      assert layers[..n][..n - 1] == layers[..n - 1];
      if applies(layers[n - 1]) {
        HasMore(at, n - 1);
        at := at + [n - 1];
      }
    }
  }

  datatype Place = Place(layer: nat, doc: nat)

  predicate Earlier(a: Place, b: Place) {
    a.layer < b.layer || (a.layer == b.layer && a.doc < b.doc)
  }

  ghost predicate Belongs(layers: seq<Layer>, docs: seq<ResourceDoc>, p: Place) {
    p.layer < |layers| && p.doc < |docs| && docs[p.doc].layer == layers[p.layer].name
  }

  /** Every document of a layer, layer by layer and then document by document. */
  ghost predicate Lists(layers: seq<Layer>, docs: seq<ResourceDoc>, items: seq<Item>, at: seq<Place>) {
    && |at| == |items|
    && (forall k :: 0 <= k < |at| ==> Stands(layers, docs, items[k], at[k]))
    && (forall k, l :: 0 <= k < l < |at| ==> Earlier(at[k], at[l]))
    && forall p :: Belongs(layers, docs, p) ==> Has(at, p)
  }

  ghost predicate Stands(layers: seq<Layer>, docs: seq<ResourceDoc>, item: Item, p: Place) {
    Belongs(layers, docs, p) && item == Item(layers[p.layer], docs[p.doc])
  }

  lemma {:induction false} ItemsAreListed(layers: seq<Layer>, docs: seq<ResourceDoc>) returns (at: seq<Place>)
    ensures Lists(layers, docs, InOrder(layers, docs), at)
  {
    if layers == [] {
      at := [];
    } else {
      var n := |layers| - 1;
      var earlier := ItemsAreListed(layers[..n], docs);
      at := LayerIsListed(layers, docs, |docs|, earlier);
      assert docs[..|docs|] == docs;
    }
  }

  ghost predicate ListsUpTo(layers: seq<Layer>, docs: seq<ResourceDoc>, m: nat, items: seq<Item>, at: seq<Place>)
    requires layers != []
  {
    var n := |layers| - 1;
    && |at| == |items|
    && (forall k :: 0 <= k < |at| ==> Stands(layers, docs, items[k], at[k]) && (at[k].layer < n || at[k].doc < m))
    && (forall k, l :: 0 <= k < l < |at| ==> Earlier(at[k], at[l]))
    && forall p :: Belongs(layers, docs, p) && (p.layer < n || p.doc < m) ==> Has(at, p)
  }

  /** The documents of the last layer come after those of the others. */
  lemma {:induction false} LayerIsListed(layers: seq<Layer>, docs: seq<ResourceDoc>, m: nat, earlier: seq<Place>) returns (at: seq<Place>)
    requires layers != [] && m <= |docs|
    requires Lists(layers[..|layers| - 1], docs, InOrder(layers[..|layers| - 1], docs), earlier)
    ensures ListsUpTo(layers, docs, m, InOrder(layers[..|layers| - 1], docs) + InLayer(docs[..m], layers[|layers| - 1]), at)
  {
    var n := |layers| - 1;
    var others := InOrder(layers[..n], docs);
    if m == 0 {
      at := earlier;
      NothingYet(layers, docs, others, at);
      assert others + InLayer(docs[..0], layers[n]) == others;
    } else {
      at := LayerIsListed(layers, docs, m - 1, earlier);
      assert docs[..m][..m - 1] == docs[..m - 1];
      var before := others + InLayer(docs[..m - 1], layers[n]);
      hide ListsUpTo;
      OneMore(layers, docs, m, before, at);
      if docs[m - 1].layer == layers[n].name {
        at := at + [Place(n, m - 1)];
        assert others + InLayer(docs[..m], layers[n]) == before + [Item(layers[n], docs[m - 1])];
      }
    }
  }

  lemma NothingYet(layers: seq<Layer>, docs: seq<ResourceDoc>, items: seq<Item>, at: seq<Place>)
    requires layers != [] && Lists(layers[..|layers| - 1], docs, items, at)
    ensures ListsUpTo(layers, docs, 0, items, at)
  {
    hide Has;
    var n := |layers| - 1;
    forall p: Place | p.layer < n ensures Belongs(layers, docs, p) <==> Belongs(layers[..n], docs, p) {
    }
    forall k | 0 <= k < |at| ensures Stands(layers, docs, items[k], at[k]) && at[k].layer < n {
      assert Stands(layers[..n], docs, items[k], at[k]);
    }
  }

  lemma OneMore(layers: seq<Layer>, docs: seq<ResourceDoc>, m: nat, items: seq<Item>, at: seq<Place>)
    requires layers != [] && 0 < m <= |docs| && ListsUpTo(layers, docs, m - 1, items, at)
    ensures
      var n := |layers| - 1;
      if docs[m - 1].layer == layers[n].name
      then ListsUpTo(layers, docs, m, items + [Item(layers[n], docs[m - 1])], at + [Place(n, m - 1)])
      else ListsUpTo(layers, docs, m, items, at)
  {
    hide Has;
    HasMore(at, Place(|layers| - 1, m - 1));
  }

  /** What is folded for a resource: each document about it, its placeholders filled in, under the name of its layer. */
  ghost predicate PicksSettings(facts: HostFacts, items: seq<Item>, n: nat, ref: Ref, settings: seq<Setting>, at: seq<nat>) {
    && n <= |items| && |at| == |settings| && Rising(at, n)
    && (forall k :: 0 <= k < |at| ==>
          && settings[k].by_.layer == items[at[k]].layer.name && settings[k].by_.precedence == items[at[k]].layer.precedence
          && settings[k].value == SubstitutedValue(facts.name, facts.labels, items[at[k]].doc.desired))
    && (forall k :: 0 <= k < |at| ==> items[at[k]].doc.ref == ref)
    && forall i: nat :: i < n && items[i].doc.ref == ref ==> Has(at, i)
  }

  lemma {:induction false} SettingsArePicked(facts: HostFacts, items: seq<Item>, ref: Ref, n: nat) returns (at: seq<nat>)
    requires n <= |items|
    ensures PicksSettings(facts, items, n, ref, SettingsOf(facts, items[..n], ref), at)
    decreases n
  {
    at := [];
    if n > 0 {
      at := SettingsArePicked(facts, items, ref, n - 1);
      assert items[..n][..n - 1] == items[..n - 1];
      var before := SettingsOf(facts, items[..n - 1], ref);
      if items[n - 1].doc.ref == ref {
        PicksOneMore(facts, items, n - 1, ref, before, at);
        at := at + [n - 1];
      }
    }
  }

  lemma PicksOneMore(facts: HostFacts, items: seq<Item>, n: nat, ref: Ref, settings: seq<Setting>, at: seq<nat>)
    requires n < |items| && PicksSettings(facts, items, n, ref, settings, at) && items[n].doc.ref == ref
    ensures PicksSettings(facts, items, n + 1, ref, settings + [SettingOf(facts, items[n])], at + [n])
  {
    hide SubstitutedValue;
    hide Has;
    HasMore(at, n);
    assert Rising(at + [n], n + 1);
    forall i: nat | i < n + 1 && items[i].doc.ref == ref ensures Has(at + [n], i) {
      if i < n {
        assert Has(at, i);
      }
    }
  }

  /** Filling placeholders in keeps the shape of a value and changes the text of its scalars, each on its own. */
  lemma {:induction false} SubstitutedAt(host: string, labels: map<string, string>, v: Value, path: seq<string>)
    ensures ValueAt(SubstitutedValue(host, labels, v), path).Some? <==> ValueAt(v, path).Some?
    ensures ValueAt(v, path).Some? ==>
      var before, after := ValueAt(v, path).value, ValueAt(SubstitutedValue(host, labels, v), path).value;
      && (before.Scalar? ==> after == before.(text := Substituted(host, labels, before.text)))
      && (before.List? ==> after.List? && |after.items| == |before.items|)
      && (before.List? ==> forall i :: 0 <= i < |before.items| ==> after.items[i] == SubstitutedValue(host, labels, before.items[i]))
      && (before.Map? ==> after.Map? && after.fields.Keys == before.fields.Keys)
    decreases |path|
  {
    if path != [] && v.Map? && path[0] in v.fields {
      SubstitutedAt(host, labels, v.fields[path[0]], path[1..]);
    }
  }

  // Where content is looked up

  /** The field is credited to this layer, the last of its name. */
  ghost predicate SetFrom(layers: seq<Layer>, desired: Value, field: string, k: nat) {
    && desired.Map? && field in desired.fields
    && k < |layers| && layers[k].name != "" && layers[k].name == desired.fields[field].from
    && forall l :: k < l < |layers| ==> layers[l].name != layers[k].name
  }

  lemma {:induction false} DirsSay(layers: seq<Layer>, name: string)
    ensures name !in DirsOf(layers) ==> forall k :: 0 <= k < |layers| ==> layers[k].name != name
    ensures name in DirsOf(layers) ==> exists k: nat :: LastNamed(layers, k, name) && layers[k].dir == DirsOf(layers)[name]
  {
    if layers != [] {
      var n := |layers| - 1;
      DirsSay(layers[..n], name);
      if layers[n].name == name {
        assert LastNamed(layers, n, name);
      } else if name in DirsOf(layers[..n]) {
        var k: nat :| LastNamed(layers[..n], k, name) && layers[..n][k].dir == DirsOf(layers[..n])[name];
        assert forall l :: k < l < n ==> layers[l] == layers[..n][l];
        assert LastNamed(layers, k, name);
      }
    }
  }

  ghost predicate LastNamed(layers: seq<Layer>, k: nat, name: string) {
    k < |layers| && layers[k].name == name && forall l :: k < l < |layers| ==> layers[l].name != name
  }

  /**
   * A listed resource looks its content up where its source was set, else where its template was
   * set, and else in the directory of the first document about it.
   */
  ghost predicate LooksIn(layers: seq<Layer>, items: seq<Item>, r: Resource) {
    && (forall k: nat :: SetFrom(layers, r.desired, "source", k) ==> r.layerDir == layers[k].dir)
    && ((forall k: nat :: !SetFrom(layers, r.desired, "source", k)) ==>
          && (forall k: nat :: SetFrom(layers, r.desired, "template", k) ==> r.layerDir == layers[k].dir)
          && ((forall k: nat :: !SetFrom(layers, r.desired, "template", k)) ==>
                exists i: nat :: FirstAbout(items, i, r.ref) && r.layerDir == items[i].doc.layerDir))
  }

  lemma {:induction false} ListedLooksIn(precedence: Precedences, facts: HostFacts, layers: seq<Layer>, items: seq<Item>,
                                         merged: MergedResources, listed: seq<Resource>, r: Resource)
    requires FoldedTo(precedence, facts, items, merged) && Listed(merged, DirsOf(layers), listed) && r in listed
    ensures LooksIn(layers, items, r)
  {
    hide Fold;
    hide SettingsOf;
    hide Mentions;
    assert Holds(precedence, facts, items, merged[r.ref], r.ref);
    var fallback := merged[r.ref].layerDir;
    SourceDirSays(layers, r.desired, fallback);
  }

  lemma SourceDirSays(layers: seq<Layer>, desired: Value, fallback: string)
    ensures
      var dir := SourceLayerDir(desired, DirsOf(layers), fallback);
      && (forall k: nat :: SetFrom(layers, desired, "source", k) ==> dir == layers[k].dir)
      && ((forall k: nat :: !SetFrom(layers, desired, "source", k)) ==>
            && (forall k: nat :: SetFrom(layers, desired, "template", k) ==> dir == layers[k].dir)
            && ((forall k: nat :: !SetFrom(layers, desired, "template", k)) ==> dir == fallback))
  {
    FieldDir(layers, desired, "source");
    FieldDir(layers, desired, "template");
    hide SetFrom;
    hide DirsOf;
    var dirs := DirsOf(layers);
    assert SourceDirFrom([], desired, dirs, fallback) == fallback;
    assert PATH_FIELDS[0] == "source" && PATH_FIELDS[1..] == ["template"] && ["template"][1..] == [];
    assert SourceDirFrom(["template"], desired, dirs, fallback) ==
      if desired.Map? && "template" in desired.fields && desired.fields["template"].from != "" && desired.fields["template"].from in dirs
      then dirs[desired.fields["template"].from] else fallback;
  }

  /** A credited field names a layer that has a directory, and the directory is that layer's. */
  lemma FieldDir(layers: seq<Layer>, desired: Value, field: string)
    ensures
      var credited := desired.Map? && field in desired.fields && desired.fields[field].from != "" && desired.fields[field].from in DirsOf(layers);
      && (credited <==> exists k: nat :: SetFrom(layers, desired, field, k))
      && forall k: nat :: SetFrom(layers, desired, field, k) ==> layers[k].dir == DirsOf(layers)[desired.fields[field].from]
  {
    if desired.Map? && field in desired.fields {
      var name := desired.fields[field].from;
      DirsSay(layers, name);
      if name != "" && name in DirsOf(layers) {
        var k: nat :| LastNamed(layers, k, name) && layers[k].dir == DirsOf(layers)[name];
        assert SetFrom(layers, desired, field, k);
      }
    }
  }
}
