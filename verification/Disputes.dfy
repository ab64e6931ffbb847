/** Which disagreements between layers a fold records, and which go unnoticed. */
module Disputes {
  import opened Text
  import opened Document
  import opened Canonical
  import opened Merge
  import opened Overlay
  import opened Provenance

  // One group, one field

  /** Layers of one precedence, each setting one field to a scalar or a list. */
  ghost predicate OneField(precedence: Precedences, settings: seq<Setting>, p: int) {
    forall i :: 0 <= i < |settings| ==>
      && !settings[i].value.Map?
      && settings[i].by_.precedence == p && settings[i].by_.layer != ""
      && settings[i].by_.layer in precedence && precedence[settings[i].by_.layer] == p
  }

  /** Folding the group into a field that already has a value records no conflict. */
  predicate GroupClean(precedence: Precedences, held: Value, settings: seq<Setting>)
    decreases |settings|
  {
    settings == []
    || (Clean(precedence, held, settings[0].value, settings[0].by_)
        && GroupClean(precedence, Merged(precedence, held, settings[0].value, settings[0].by_), settings[1..]))
  }

  ghost predicate AllSay(settings: seq<Setting>, text: string) {
    forall s :: s in settings ==> Render(s.value) == text
  }

  predicate HeldBy(precedence: Precedences, held: Value, p: int) {
    held.from != "" && held.from in precedence && precedence[held.from] == p
  }

  /** Once the group itself holds the field, any other value is a conflict. */
  lemma {:induction false} CreditedGroup(precedence: Precedences, held: Value, settings: seq<Setting>, p: int)
    requires OneField(precedence, settings, p)
    requires HeldBy(precedence, held, p)
    ensures GroupClean(precedence, held, settings) <==> AllSay(settings, Render(held))
    decreases |settings|
  {
    if settings != [] {
      assert settings == [settings[0]] + settings[1..];
      CreditedGroup(precedence, Merged(precedence, held, settings[0].value, settings[0].by_), settings[1..], p);
    }
  }

  /** The group first repeats the value already in force, k times, and then agrees on text. */
  ghost predicate RepeatsThenAgrees(settings: seq<Setting>, inForce: string, k: nat, text: string) {
    k <= |settings| && AllSay(settings[..k], inForce) && AllSay(settings[k..], text)
  }

  /**
   * A group of one precedence goes through without a conflict exactly when it repeats what it
   * found some number of times and then agrees. With at least one repeat and another value after
   * it, two layers of equal precedence disagree and nothing is recorded, because agreement
   * leaves the field credited to the lower layer. What it found may be anything, a map included.
   */
  lemma {:induction false} GroupConflict(precedence: Precedences, held: Value, settings: seq<Setting>, p: int)
    requires OneField(precedence, settings, p) && !HeldBy(precedence, held, p)
    ensures GroupClean(precedence, held, settings) <==>
      exists k: nat, text :: RepeatsThenAgrees(settings, Render(held), k, text)
    decreases |settings|
  {
    hide Render;
    hide Displace;
    if settings == [] {
      assert RepeatsThenAgrees(settings, Render(held), 0, "");
    } else {
      var first, rest := settings[0], settings[1..];
      assert settings == [first] + rest;
      assert forall i :: 0 <= i < |rest| ==> rest[i] == settings[i + 1];
      var merged := Merged(precedence, held, first.value, first.by_);
      if Render(first.value) == Render(held) {
        GroupConflict(precedence, held, rest, p);
        RepeatMore(settings, Render(held));
      } else {
        DisplacedReads(held, first.value, first.by_);
        CreditedGroup(precedence, merged, rest, p);
        NoRepeat(settings, Render(held));
      }
    }
  }

  /** What replaces a value reads as it was contributed, and is credited to its layer. */
  lemma DisplacedReads(held: Value, incoming: Value, from: Contribution)
    ensures Render(Displace(held, incoming, from)) == Render(incoming)
    ensures !incoming.Map? ==> Displace(held, incoming, from).from == from.layer
  {
    DisplaceKeepsTree(held, incoming, from);
    SameTreeSameReading(Displace(held, incoming, from), incoming);
  }

  /** A repeat at the front changes nothing. */
  lemma RepeatMore(settings: seq<Setting>, inForce: string)
    requires settings != [] && Render(settings[0].value) == inForce
    ensures (exists k: nat, text :: RepeatsThenAgrees(settings, inForce, k, text)) <==>
      exists k: nat, text :: RepeatsThenAgrees(settings[1..], inForce, k, text)
  {
    hide AllSay;
    if k: nat, text :| RepeatsThenAgrees(settings[1..], inForce, k, text) {
      RepeatOnce(settings, inForce, k, text);
    }
    if k: nat, text :| RepeatsThenAgrees(settings, inForce, k, text) {
      RepeatLess(settings, inForce, k, text);
    }
  }

  /** Where the first already says something else, all have to say that. */
  lemma NoRepeat(settings: seq<Setting>, inForce: string)
    requires settings != [] && Render(settings[0].value) != inForce
    ensures (exists k: nat, text :: RepeatsThenAgrees(settings, inForce, k, text)) <==>
      AllSay(settings[1..], Render(settings[0].value))
  {
    hide Render;
    var text := Render(settings[0].value);
    if AllSay(settings[1..], text) {
      assert settings == [settings[0]] + settings[1..];
      assert settings[0..] == settings && settings[..0] == [];
      assert RepeatsThenAgrees(settings, inForce, 0, text);
    }
    if k: nat, other :| RepeatsThenAgrees(settings, inForce, k, other) {
      NoRepeatAtFirst(settings, inForce, k, other);
    }
  }

  lemma FirstInPrefix(settings: seq<Setting>, k: nat)
    ensures 0 < k <= |settings| ==> settings[0] in settings[..k]
  {
    if 0 < k <= |settings| {
      assert settings[..k][0] == settings[0];
    }
  }

  lemma NoRepeatAtFirst(settings: seq<Setting>, inForce: string, k: nat, text: string)
    requires settings != [] && RepeatsThenAgrees(settings, inForce, k, text)
    requires Render(settings[0].value) != inForce
    ensures k == 0 && AllSay(settings, text) && AllSay(settings[1..], text)
  {
    FirstInPrefix(settings, k);
    assert settings[0..] == settings;
  }

  lemma RepeatOnce(settings: seq<Setting>, inForce: string, k: nat, text: string)
    requires settings != [] && Render(settings[0].value) == inForce
    requires RepeatsThenAgrees(settings[1..], inForce, k, text)
    ensures RepeatsThenAgrees(settings, inForce, k + 1, text)
  {
    assert settings[..k + 1] == [settings[0]] + settings[1..][..k];
    assert settings[k + 1..] == settings[1..][k..];
  }

  lemma RepeatLess(settings: seq<Setting>, inForce: string, k: nat, text: string)
    requires settings != [] && Render(settings[0].value) == inForce
    requires RepeatsThenAgrees(settings, inForce, k, text)
    ensures exists n: nat, t :: RepeatsThenAgrees(settings[1..], inForce, n, t)
  {
    if k > 0 {
      assert settings[..k] == [settings[0]] + settings[1..][..k - 1];
      assert settings[k..] == settings[1..][k - 1..];
      assert RepeatsThenAgrees(settings[1..], inForce, k - 1, text);
    } else {
      assert settings[0..] == settings;
      assert settings[1..][0..] == settings[1..] && settings[1..][..0] == [];
      assert RepeatsThenAgrees(settings[1..], inForce, 0, text);
    }
  }

  function Says(layer: string, precedence: int, text: string): Setting {
    Setting(Contribution(layer, precedence), Scalar(text, false, "", []))
  }

  /** base says 0640, web repeats it at precedence 30, web-tls says 0600 at 30: no conflict, and 0600 wins. */
  lemma UnnoticedConflict()
    ensures
      var precedence := map["base" := 0, "web" := 30, "web-tls" := 30];
      var settings := [Says("base", 0, "0640"), Says("web", 30, "0640"), Says("web-tls", 30, "0600")];
      FoldsClean(precedence, settings) && Erase(Fold(precedence, settings)) == Leaf("0600")
  {
    var precedence := map["base" := 0, "web" := 30, "web-tls" := 30];
    var base, web, tls := Says("base", 0, "0640"), Says("web", 30, "0640"), Says("web-tls", 30, "0600");
    assert [base, web, tls][..2] == [base, web] && [base, web][..1] == [base];
    assert Fold(precedence, [base]) == Scalar("0640", false, "base", []);
    assert Fold(precedence, [base, web]) == Scalar("0640", false, "base", []);
    assert FoldsClean(precedence, [base]) && FoldsClean(precedence, [base, web]);
    assert Fold(precedence, [base, web, tls]).text == "0600";
  }

  /** The same with any two values, a list of groups say: a repeat hides the disagreement after it, and the last layer wins. */
  lemma {:induction false} RepeatHides(precedence: Precedences, base: Contribution, web: Contribution, tls: Contribution, a: Value, b: Value)
    requires Known(precedence, base) && base.precedence < web.precedence == tls.precedence
    requires !a.Map? && Render(a) != Render(b)
    ensures
      var settings := [Setting(base, a), Setting(web, a), Setting(tls, b)];
      FoldsClean(precedence, settings) && Erase(Fold(precedence, settings)) == Erase(b)
  {
    hide Render;
    hide Displace;
    var first, second, third := Setting(base, a), Setting(web, a), Setting(tls, b);
    assert [first, second, third][..2] == [first, second] && [first, second][..1] == [first];
    var held := Stamp(a, base.layer);
    assert Fold(precedence, [first]) == held;
    StampKeepsTree(a, base.layer);
    SameTreeSameReading(held, a);
    assert Fold(precedence, [first, second]) == held;
    DisplaceKeepsTree(held, b, tls);
    assert FoldsClean(precedence, [first]) && FoldsClean(precedence, [first, second]);
    assert !held.Map? && !Clashes(precedence, held, tls) && Clean(precedence, held, b, tls);
    assert Fold(precedence, [first, second, third]) == Merged(precedence, held, b, tls) == Displace(held, b, tls);
  }

  /** One layer sets a map, another of its precedence a scalar: a map is credited to nobody, so the scalar wins unnoticed. */
  lemma MapThenScalar()
    ensures
      var precedence := map["web" := 30, "web-tls" := 30];
      var settings := [Setting(Contribution("web", 30), Map(map["mode" := Scalar("0640", false, "", [])], "", [])), Says("web-tls", 30, "x")];
      FoldsClean(precedence, settings) && Erase(Fold(precedence, settings)) == Leaf("x")
  {
    var precedence := map["web" := 30, "web-tls" := 30];
    var web := Setting(Contribution("web", 30), Map(map["mode" := Scalar("0640", false, "", [])], "", []));
    var tls := Says("web-tls", 30, "x");
    assert [web, tls][..1] == [web];
    var held := Fold(precedence, [web]);
    assert held.Map? && held.from == "";
    CanonicalTells(held, tls.value);
    assert Encode(held)[0] == '{';
    DisplaceKeepsTree(held, tls.value, tls.by_);
  }

  // Every field, all layers

  /** Not both maps at the path, and not read alike. A map is credited to nobody, so only what is no map can be disputed. */
  predicate Differ(held: Value, incoming: Value, path: seq<string>) {
    && ValueAt(held, path).Some? && ValueAt(incoming, path).Some?
    && !ValueAt(held, path).value.Map?
    && !SameValue(ValueAt(held, path).value, ValueAt(incoming, path).value)
  }

  /** Each path can be looked at on its own. */
  lemma {:induction false} CleanByPaths(precedence: Precedences, held: Value, incoming: Value, from: Contribution, bound: int)
    requires Ordered(precedence, held, bound)
    ensures Clean(precedence, held, incoming, from) <==>
      forall path :: Differ(held, incoming, path) ==> !Clashes(precedence, ValueAt(held, path).value, from)
    decreases incoming
  {
    hide SameValue;
    if held.Map? && incoming.Map? {
      forall k | k in held.fields && k in incoming.fields
        ensures Clean(precedence, held.fields[k], incoming.fields[k], from) <==>
          forall rest :: Differ(held, incoming, [k] + rest) ==> !Clashes(precedence, ValueAt(held, [k] + rest).value, from)
      {
        CleanByPaths(precedence, held.fields[k], incoming.fields[k], from, bound);
        forall rest
          ensures ValueAt(held, [k] + rest) == ValueAt(held.fields[k], rest)
          ensures ValueAt(incoming, [k] + rest) == ValueAt(incoming.fields[k], rest)
          ensures Differ(held, incoming, [k] + rest) <==> Differ(held.fields[k], incoming.fields[k], rest)
        {
          assert ([k] + rest)[1..] == rest;
        }
      }
      forall path | Differ(held, incoming, path) ensures path != [] && path == [path[0]] + path[1..] {
      }
    } else {
      assert ValueAt(held, []) == Some(held) && ValueAt(incoming, []) == Some(incoming);
      assert Differ(held, incoming, []) <==> !held.Map? && !SameValue(held, incoming);
      forall path | Differ(held, incoming, path) ensures path == [] {
      }
      assert held.Map? ==> !Clashes(precedence, held, from);
    }
  }

  function HeldAt(precedence: Precedences, settings: seq<Setting>, n: nat, path: seq<string>): Option<Value>
    requires 0 < n <= |settings|
  {
    ValueAt(Fold(precedence, settings[..n]), path)
  }

  /** The path has held the same value ever since setting i was folded in. */
  ghost predicate StandsSince(precedence: Precedences, settings: seq<Setting>, i: nat, n: nat, path: seq<string>, t: Tree) {
    && i < n <= |settings|
    && forall k :: i < k <= n ==> HoldsTree(precedence, settings, k, path, t)
  }

  predicate HoldsTree(precedence: Precedences, settings: seq<Setting>, k: nat, path: seq<string>, t: Tree)
    requires 0 < k <= |settings|
  {
    HeldAt(precedence, settings, k, path).Some? && Erase(HeldAt(precedence, settings, k, path).value) == t
  }

  /** Setting n says something else than the path holds at its turn. */
  predicate DisputedAt(precedence: Precedences, settings: seq<Setting>, n: nat, path: seq<string>)
    requires 0 < n < |settings|
  {
    Differ(Fold(precedence, settings[..n]), settings[n].value, path)
  }

  /** What it disputes has stood since a layer of lower precedence said it. */
  ghost predicate SaidBelow(precedence: Precedences, settings: seq<Setting>, n: nat, path: seq<string>)
    requires 0 < n < |settings|
  {
    HeldAt(precedence, settings, n, path).Some? &&
    exists i :: 0 <= i < n && settings[i].by_.precedence < settings[n].by_.precedence
      && StandsSince(precedence, settings, i, n, path, Erase(HeldAt(precedence, settings, n, path).value))
  }

  lemma LayeredBefore(precedence: Precedences, settings: seq<Setting>, n: nat)
    requires Layered(precedence, settings) && n <= |settings|
    ensures Layered(precedence, settings[..n])
  {
    hide Raw;
    hide Known;
  }

  lemma {:induction false} OrderedAt(precedence: Precedences, v: Value, bound: int, path: seq<string>, leaf: Value)
    requires Ordered(precedence, v, bound) && ValueAt(v, path) == Some(leaf)
    ensures Ordered(precedence, leaf, bound)
    decreases |path|
  {
    if path != [] {
      OrderedAt(precedence, v.fields[path[0]], bound, path[1..], leaf);
    }
  }

  lemma {:induction false} StampedAt(v: Value, layer: string, path: seq<string>, leaf: Value)
    requires ValueAt(Stamp(v, layer), path) == Some(leaf) && !leaf.Map?
    ensures leaf.from == layer
    decreases |path|
  {
    if path != [] {
      StampedAt(v.fields[path[0]], layer, path[1..], leaf);
    }
  }

  /** Stamping changes whom a scalar is credited to, and neither its text nor its quotes. */
  lemma {:induction false} StampKeepsScalars(v: Value, layer: string, path: seq<string>)
    requires ValueAt(v, path).Some? && ValueAt(v, path).value.Scalar?
    ensures
      var before := ValueAt(v, path).value;
      ValueAt(Stamp(v, layer), path) == Some(Scalar(before.text, before.quoted, layer, before.displaced))
    decreases |path|
  {
    if path != [] {
      StampKeepsScalars(v.fields[path[0]], layer, path[1..]);
    }
  }

  /** One merge leaves a leaf as it was, or puts a new one there that is credited to the layer it came from. */
  lemma {:induction false} MergedAt(precedence: Precedences, held: Value, incoming: Value, from: Contribution, path: seq<string>, leaf: Value)
    requires ValueAt(Merged(precedence, held, incoming, from), path) == Some(leaf) && !leaf.Map?
    ensures
      || ValueAt(held, path) == Some(leaf)
      || (leaf.from == from.layer && (ValueAt(held, path).None? || Erase(ValueAt(held, path).value) != Erase(leaf)))
    decreases incoming, |path|
  {
    if held.Map? && incoming.Map? {
      var k, rest := path[0], path[1..];
      assert ValueAt(MergedField(precedence, held, incoming, from, k), rest) == Some(leaf);
      if k in incoming.fields && k in held.fields {
        MergedAt(precedence, held.fields[k], incoming.fields[k], from, rest, leaf);
      } else if k in incoming.fields {
        StampedAt(incoming.fields[k], from.layer, rest, leaf);
      }
    } else if !SameValue(held, incoming) && !Clashes(precedence, held, from) {
      DisplacedAt(held, incoming, from, path, leaf);
    }
  }

  lemma DisplacedAt(held: Value, incoming: Value, from: Contribution, path: seq<string>, leaf: Value)
    requires !(held.Map? && incoming.Map?) && !SameValue(held, incoming)
    requires ValueAt(Displace(held, incoming, from), path) == Some(leaf) && !leaf.Map?
    ensures leaf.from == from.layer
    ensures ValueAt(held, path).None? || Erase(ValueAt(held, path).value) != Erase(leaf)
  {
    if path == [] {
      DisplacedReads(held, incoming, from);
      if Erase(held) == Erase(leaf) {
        SameTreeSameReading(held, leaf);
      }
    } else {
      var stamped := Stamp(incoming, from.layer);
      assert Displace(held, incoming, from).fields == stamped.fields;
      assert ValueAt(stamped, path) == Some(leaf);
      StampedAt(incoming, from.layer, path, leaf);
    }
  }

  /** One merge leaves what a path had displaced, starts afresh, or puts what it replaces in front. */
  lemma {:induction false} MergedDisplaces(precedence: Precedences, held: Value, incoming: Value, from: Contribution, path: seq<string>, w: Value)
    requires Raw(incoming) && ValueAt(Merged(precedence, held, incoming, from), path) == Some(w)
    ensures
      || w.displaced == []
      || (ValueAt(held, path).Some? && w.displaced == ValueAt(held, path).value.displaced)
      || (ValueAt(held, path).Some? && w.displaced == [Replaced(ValueAt(held, path).value)] + ValueAt(held, path).value.displaced)
    decreases incoming, |path|
  {
    if held.Map? && incoming.Map? {
      if path != [] {
        var k, rest := path[0], path[1..];
        assert ValueAt(MergedField(precedence, held, incoming, from, k), rest) == Some(w);
        if k in incoming.fields && k in held.fields {
          MergedDisplaces(precedence, held.fields[k], incoming.fields[k], from, rest, w);
        } else if k in incoming.fields {
          StampedDisplacesNothing(incoming.fields[k], from.layer, rest, w);
        }
      }
    } else if !SameValue(held, incoming) && !Clashes(precedence, held, from) && path != [] {
      assert ValueAt(Stamp(incoming, from.layer), path) == Some(w);
      StampedDisplacesNothing(incoming, from.layer, path, w);
    }
  }

  /** How a replaced value is remembered. */
  function Replaced(v: Value): Origin {
    Origin(if v.from == "" then EARLIER else v.from, Render(v))
  }

  lemma {:induction false} StampedDisplacesNothing(v: Value, layer: string, path: seq<string>, w: Value)
    requires Raw(v) && ValueAt(Stamp(v, layer), path) == Some(w)
    ensures w.displaced == []
    decreases |path|
  {
    if path != [] {
      StampedDisplacesNothing(v.fields[path[0]], layer, path[1..], w);
    }
  }

  /** Everything a merged value lists as displaced was contributed there by the layer it names, or was a map the path held before. */
  lemma {:induction false} DisplacedWereThere(precedence: Precedences, settings: seq<Setting>, n: nat, path: seq<string>, w: Value, o: Origin)
    requires Layered(precedence, settings) && 0 < n <= |settings|
    requires HeldAt(precedence, settings, n, path) == Some(w) && o in w.displaced
    ensures Contributed(settings, o.layer, path, o.text) || HeldMap(precedence, settings, n, path, o)
    decreases n
  {
    hide Fold;
    hide Merged;
    var last := settings[n - 1];
    if n == 1 {
      FirstFold(precedence, settings);
      StampedDisplacesNothing(last.value, last.by_.layer, path, w);
    } else {
      NextFold(precedence, settings, n);
      var held := HeldAt(precedence, settings, n - 1, path);
      MergedDisplaces(precedence, Fold(precedence, settings[..n - 1]), last.value, last.by_, path, w);
      if held.Some? && o in held.value.displaced {
        DisplacedWereThere(precedence, settings, n - 1, path, held.value, o);
        if HeldMap(precedence, settings, n - 1, path, o) {
          var k: nat :| MapHeldAt(precedence, settings, k, n - 1, path, o.text);
          assert MapHeldAt(precedence, settings, k, n, path, o.text);
        }
      } else {
        ReplacedWasThere(precedence, settings, n - 1, path, held.value);
      }
    }
  }

  ghost predicate HeldMap(precedence: Precedences, settings: seq<Setting>, n: nat, path: seq<string>, o: Origin) {
    o.layer == EARLIER && exists k: nat :: MapHeldAt(precedence, settings, k, n, path, o.text)
  }

  ghost predicate MapHeldAt(precedence: Precedences, settings: seq<Setting>, k: nat, n: nat, path: seq<string>, text: string) {
    && 0 < k < n <= |settings| && HeldAt(precedence, settings, k, path).Some?
    && HeldAt(precedence, settings, k, path).value.Map? && text == Render(HeldAt(precedence, settings, k, path).value)
  }

  lemma ReplacedWasThere(precedence: Precedences, settings: seq<Setting>, n: nat, path: seq<string>, held: Value)
    requires Layered(precedence, settings) && 0 < n < |settings| && HeldAt(precedence, settings, n, path) == Some(held)
    ensures Contributed(settings, Replaced(held).layer, path, Replaced(held).text)
      || HeldMap(precedence, settings, n + 1, path, Replaced(held))
  {
    hide Raw;
    LayeredBefore(precedence, settings, n);
    FoldOrdered(precedence, settings[..n]);
    OrderedAt(precedence, Fold(precedence, settings[..n]), settings[n - 1].by_.precedence, path, held);
    if held.Map? {
      assert MapHeldAt(precedence, settings, n, n + 1, path, Render(held));
    } else {
      LeafNamesItsSource(precedence, settings[..n], path, held);
      var i :| 0 <= i < n && settings[..n][i].by_.layer == held.from
        && ValueAt(settings[..n][i].value, path).Some? && Erase(ValueAt(settings[..n][i].value, path).value) == Erase(held);
      SameTreeSameReading(held, ValueAt(settings[i].value, path).value);
    }
  }

  ghost predicate StandsFrom(precedence: Precedences, settings: seq<Setting>, i: nat, n: nat, path: seq<string>, t: Tree, p: int) {
    StandsSince(precedence, settings, i, n, path, t) && settings[i].by_.precedence == p
  }

  /** The lowest precedence since which a path has held what it holds. */
  ghost predicate Earliest(precedence: Precedences, settings: seq<Setting>, n: nat, path: seq<string>, t: Tree, p: int) {
    && (exists i: nat :: StandsFrom(precedence, settings, i, n, path, t, p))
    && forall i: nat :: StandsSince(precedence, settings, i, n, path, t) ==> p <= settings[i].by_.precedence
  }

  lemma EarliestFirst(precedence: Precedences, settings: seq<Setting>, path: seq<string>, t: Tree)
    requires settings != [] && HoldsTree(precedence, settings, 1, path, t)
    ensures Earliest(precedence, settings, 1, path, t, settings[0].by_.precedence)
  {
    hide HoldsTree;
    assert StandsFrom(precedence, settings, 0, 1, path, t, settings[0].by_.precedence);
  }

  lemma EarliestStays(precedence: Precedences, settings: seq<Setting>, n: nat, path: seq<string>, t: Tree, p: int)
    requires 0 < n < |settings| && Earliest(precedence, settings, n, path, t, p)
    requires HoldsTree(precedence, settings, n + 1, path, t) && p <= settings[n].by_.precedence
    ensures Earliest(precedence, settings, n + 1, path, t, p)
  {
    hide HoldsTree;
    var i: nat :| StandsFrom(precedence, settings, i, n, path, t, p);
    assert StandsFrom(precedence, settings, i, n + 1, path, t, p);
    forall i: nat | StandsSince(precedence, settings, i, n + 1, path, t) ensures p <= settings[i].by_.precedence {
      assert i < n ==> StandsSince(precedence, settings, i, n, path, t);
    }
  }

  lemma EarliestAnew(precedence: Precedences, settings: seq<Setting>, n: nat, path: seq<string>, t: Tree)
    requires 0 < n < |settings| && !HoldsTree(precedence, settings, n, path, t) && HoldsTree(precedence, settings, n + 1, path, t)
    ensures Earliest(precedence, settings, n + 1, path, t, settings[n].by_.precedence)
  {
    hide HoldsTree;
    assert StandsFrom(precedence, settings, n, n + 1, path, t, settings[n].by_.precedence);
    var m := n + 1;
    forall i: nat | i < n ensures !StandsSince(precedence, settings, i, m, path, t) {
      StandsThroughout(precedence, settings, i, n, m, path, t);
    }
  }

  lemma StandsThroughout(precedence: Precedences, settings: seq<Setting>, i: nat, k: nat, n: nat, path: seq<string>, t: Tree)
    requires i < k <= n <= |settings|
    ensures StandsSince(precedence, settings, i, n, path, t) ==> HoldsTree(precedence, settings, k, path, t)
  {
  }

  /** A leaf is credited to the lowest precedence since which it has stood. */
  lemma {:induction false} CreditedSince(precedence: Precedences, settings: seq<Setting>, n: nat, path: seq<string>, leaf: Value)
    requires Layered(precedence, settings) && 0 < n <= |settings|
    requires HeldAt(precedence, settings, n, path) == Some(leaf) && !leaf.Map?
    ensures leaf.from in precedence && Earliest(precedence, settings, n, path, Erase(leaf), precedence[leaf.from])
  {
    hide Fold;
    hide Raw;
    hide Earliest;
    LayeredBefore(precedence, settings, n);
    FoldOrdered(precedence, settings[..n]);
    OrderedAt(precedence, Fold(precedence, settings[..n]), settings[n - 1].by_.precedence, path, leaf);
    var last := settings[n - 1];
    if n == 1 {
      FirstFold(precedence, settings);
      StampedAt(last.value, last.by_.layer, path, leaf);
      EarliestFirst(precedence, settings, path, Erase(leaf));
    } else {
      NextFold(precedence, settings, n);
      MergedAt(precedence, Fold(precedence, settings[..n - 1]), last.value, last.by_, path, leaf);
      if HeldAt(precedence, settings, n - 1, path) == Some(leaf) {
        CreditedSince(precedence, settings, n - 1, path, leaf);
        EarliestStays(precedence, settings, n - 1, path, Erase(leaf), precedence[leaf.from]);
      } else {
        EarliestAnew(precedence, settings, n - 1, path, Erase(leaf));
      }
    }
  }

  lemma FirstFold(precedence: Precedences, settings: seq<Setting>)
    requires settings != []
    ensures Fold(precedence, settings[..1]) == Stamp(settings[0].value, settings[0].by_.layer)
  {
  }

  lemma OneIsClean(precedence: Precedences, settings: seq<Setting>)
    requires settings != []
    ensures FoldsClean(precedence, settings[..1])
  {
  }

  lemma NextFold(precedence: Precedences, settings: seq<Setting>, n: nat)
    requires 1 < n <= |settings|
    ensures Fold(precedence, settings[..n]) ==
      Merged(precedence, Fold(precedence, settings[..n - 1]), settings[n - 1].value, settings[n - 1].by_)
    ensures FoldsClean(precedence, settings[..n]) <==>
      FoldsClean(precedence, settings[..n - 1])
      && Clean(precedence, Fold(precedence, settings[..n - 1]), settings[n - 1].value, settings[n - 1].by_)
  {
    assert settings[..n][..n - 1] == settings[..n - 1];
  }

  /** Folding one more setting in records nothing exactly when all it disputes was said below it. */
  lemma {:induction false} StepClean(precedence: Precedences, settings: seq<Setting>, n: nat)
    requires Layered(precedence, settings) && 0 < n < |settings|
    ensures Clean(precedence, Fold(precedence, settings[..n]), settings[n].value, settings[n].by_) <==>
      forall path :: DisputedAt(precedence, settings, n, path) ==> SaidBelow(precedence, settings, n, path)
  {
    hide Fold;
    hide Clean;
    hide Raw;
    var held, from := Fold(precedence, settings[..n]), settings[n].by_;
    LayeredBefore(precedence, settings, n);
    FoldOrdered(precedence, settings[..n]);
    var bound := settings[n - 1].by_.precedence;
    CleanByPaths(precedence, held, settings[n].value, from, bound);
    forall path | DisputedAt(precedence, settings, n, path)
      ensures SaidBelow(precedence, settings, n, path) <==> !Clashes(precedence, ValueAt(held, path).value, from)
    {
      var leaf := ValueAt(held, path).value;
      OrderedAt(precedence, held, bound, path, leaf);
      CreditedSince(precedence, settings, n, path, leaf);
    }
  }

  /**
   * Exactly when a whole fold records no conflict, whatever the layers set and of whatever kind:
   * each value that is disputed has stood since a layer of lower precedence said it.
   */
  lemma {:induction false} FoldsCleanExactly(precedence: Precedences, settings: seq<Setting>, m: nat)
    requires Layered(precedence, settings) && 0 < m <= |settings|
    ensures FoldsClean(precedence, settings[..m]) <==>
      forall n, path :: 0 < n < m && DisputedAt(precedence, settings, n, path) ==> SaidBelow(precedence, settings, n, path)
    decreases m
  {
    hide Fold;
    hide Clean;
    hide Layered;
    hide DisputedAt;
    hide SaidBelow;
    OneIsClean(precedence, settings);
    hide FoldsClean;
    if m > 1 {
      FoldsCleanExactly(precedence, settings, m - 1);
      NextFold(precedence, settings, m);
      StepClean(precedence, settings, m - 1);
    }
  }

  /** A map is credited to nobody, so whatever replaces one goes unnoticed at any precedence. */
  lemma {:induction false} MapsGoUncredited(precedence: Precedences, settings: seq<Setting>, n: nat, path: seq<string>, from: Contribution)
    requires Layered(precedence, settings) && 0 < n <= |settings|
    requires HeldAt(precedence, settings, n, path).Some? && HeldAt(precedence, settings, n, path).value.Map?
    ensures !Clashes(precedence, HeldAt(precedence, settings, n, path).value, from)
  {
    LayeredBefore(precedence, settings, n);
    FoldOrdered(precedence, settings[..n]);
    OrderedAt(precedence, Fold(precedence, settings[..n]), settings[n - 1].by_.precedence, path,
              HeldAt(precedence, settings, n, path).value);
  }

  // Where kinds agree, in terms of what the layers say

  function SaidAt(settings: seq<Setting>, i: nat, path: seq<string>): Option<Tree>
    requires i < |settings|
  {
    At(Erase(settings[i].value), path)
  }

  /** Nobody between the two says anything about the path. */
  ghost predicate Silent(settings: seq<Setting>, i: nat, j: nat, path: seq<string>) {
    forall k :: i < k < j <= |settings| ==> SaidAt(settings, k, path).None?
  }

  /** Setting j is the next after i to speak about the path, and says something else. */
  ghost predicate Changes(settings: seq<Setting>, i: nat, j: nat, path: seq<string>) {
    && i < j < |settings| && Silent(settings, i, j, path)
    && SaidAt(settings, i, path).Some? && !SaidAt(settings, i, path).value.Fields?
    && SaidAt(settings, j, path).Some? && SaidAt(settings, j, path) != SaidAt(settings, i, path)
  }

  /** From setting s up to setting i the layers that speak about the path all say the same. */
  ghost predicate Agreed(settings: seq<Setting>, s: nat, i: nat, path: seq<string>) {
    && s <= i < |settings| && SaidAt(settings, s, path).Some?
    && forall k :: s <= k <= i && SaidAt(settings, k, path).Some? ==> SaidAt(settings, k, path) == SaidAt(settings, i, path)
  }

  /** A layer below the one that changes a value had said that value already, and nobody has said anything else since. */
  ghost predicate RepeatsLower(settings: seq<Setting>, i: nat, j: nat, path: seq<string>)
    requires i < j < |settings|
  {
    exists s: nat :: Agreed(settings, s, i, path) && settings[s].by_.precedence < settings[j].by_.precedence
  }

  lemma {:induction false} EraseAt(v: Value, path: seq<string>)
    ensures At(Erase(v), path) == match ValueAt(v, path) {
      case Some(w) => Some(Erase(w))
      case None => None
    }
    decreases |path|
  {
    if path != [] && v.Map? && path[0] in v.fields {
      EraseAt(v.fields[path[0]], path[1..]);
    }
  }

  lemma {:induction false} KindsAgreeAt(a: Tree, b: Tree, path: seq<string>)
    requires KindsAgree(a, b) && At(a, path).Some? && At(b, path).Some?
    ensures KindsAgree(At(a, path).value, At(b, path).value)
    decreases |path|
  {
    if path != [] {
      KindsAgreeAt(a.fields[path[0]], b.fields[path[0]], path[1..]);
    }
  }

  lemma KindsAgreeBefore(settings: seq<Setting>, n: nat)
    requires AllKindsAgree(settings) && n <= |settings|
    ensures AllKindsAgree(settings[..n])
  {
    hide KindsAgree;
  }

  /** Some setting from s on is the last before n to speak about the path. */
  lemma {:induction false} LastSpeaker(settings: seq<Setting>, s: nat, n: nat, path: seq<string>) returns (i: nat)
    requires s < n <= |settings| && SaidAt(settings, s, path).Some?
    ensures s <= i < n && SaidAt(settings, i, path).Some? && Silent(settings, i, n, path)
  {
    i := n - 1;
    while SaidAt(settings, i, path).None?
      invariant s <= i < n && Silent(settings, i, n, path)
      decreases i
    {
      i := i - 1;
    }
  }

  /** Where nothing conflicted, a path holds what the last to speak about it said. */
  lemma {:induction false} HoldsLastSaid(precedence: Precedences, settings: seq<Setting>, i: nat, n: nat, path: seq<string>)
    requires i < n <= |settings| && AllKindsAgree(settings) && FoldsClean(precedence, settings[..n])
    requires SaidAt(settings, i, path).Some? && !SaidAt(settings, i, path).value.Fields? && Silent(settings, i, n, path)
    ensures HoldsTree(precedence, settings, n, path, SaidAt(settings, i, path).value)
  {
    hide Fold;
    hide FoldsClean;
    hide KindsAgree;
    var earlier := settings[..n];
    KindsAgreeBefore(settings, n);
    FoldIsOverlay(precedence, earlier);
    forall j | i < j < n ensures At(Erase(earlier[j].value), path).None? {
      assert SaidAt(settings, j, path).None?;
    }
    LastSetterWins(earlier, path, i);
    EraseAt(Fold(precedence, earlier), path);
  }

  /** And what it holds was said by somebody. */
  lemma {:induction false} HeldWasSaid(settings: seq<Setting>, n: nat, path: seq<string>)
    requires 0 < n <= |settings| && AllKindsAgree(settings) && At(OverAll(settings[..n]), path).Some?
    ensures exists i :: 0 <= i < n && SaidAt(settings, i, path).Some?
    decreases n
  {
    assert settings[..n][..n - 1] == settings[..n - 1];
    if SaidAt(settings, n - 1, path).None? && n > 1 {
      KindsAgreeBefore(settings, n);
      var earlier, last := settings[..n - 1], Erase(settings[n - 1].value);
      forall s | s in earlier ensures KindsAgree(Erase(s.value), last) {
        var k :| 0 <= k < n - 1 && earlier[k] == s;
        assert settings[k] == s;
      }
      OverAllKeepsKinds(earlier, last);
      OverAt(OverAll(earlier), last, path);
      HeldWasSaid(settings, n - 1, path);
    }
  }

  /** A dispute is a change of what was said last. */
  lemma {:induction false} DisputeIsChange(precedence: Precedences, settings: seq<Setting>, i: nat, n: nat, path: seq<string>)
    requires i < n < |settings| && AllKindsAgree(settings) && FoldsClean(precedence, settings[..n])
    requires SaidAt(settings, i, path).Some? && !SaidAt(settings, i, path).value.Fields? && Silent(settings, i, n, path)
    ensures HeldAt(precedence, settings, n, path).Some?
    ensures DisputedAt(precedence, settings, n, path) <==> Changes(settings, i, n, path)
  {
    hide Fold;
    hide FoldsClean;
    HoldsLastSaid(precedence, settings, i, n, path);
    EraseAt(settings[n].value, path);
    if SaidAt(settings, n, path).Some? {
      var held, said := HeldAt(precedence, settings, n, path).value, ValueAt(settings[n].value, path).value;
      assert KindsAgree(Erase(settings[i].value), Erase(settings[n].value));
      KindsAgreeAt(Erase(settings[i].value), Erase(settings[n].value), path);
      KindsAgreeReadsTrue(held, said);
      if Erase(held) == Erase(said) {
        SameTreeSameReading(held, said);
      }
    }
  }

  lemma {:induction false} CleanBefore(precedence: Precedences, settings: seq<Setting>, k: nat, n: nat)
    requires 0 < k <= n <= |settings| && FoldsClean(precedence, settings[..n])
    ensures FoldsClean(precedence, settings[..k])
    decreases n
  {
    hide Fold;
    hide Clean;
    hide FoldsClean;
    if k < n {
      NextFold(precedence, settings, n);
      CleanBefore(precedence, settings, k, n - 1);
    }
  }

  /** Kinds agree, so where one layer sets no map none does. */
  lemma SaidAlike(settings: seq<Setting>, i: nat, j: nat, path: seq<string>)
    requires i < |settings| && j < |settings| && AllKindsAgree(settings)
    requires SaidAt(settings, i, path).Some? && SaidAt(settings, j, path).Some?
    ensures SaidAt(settings, i, path).value.Fields? <==> SaidAt(settings, j, path).value.Fields?
  {
    if i < j {
      KindsAgreeAt(Erase(settings[i].value), Erase(settings[j].value), path);
    } else if j < i {
      KindsAgreeAt(Erase(settings[j].value), Erase(settings[i].value), path);
    }
  }

  lemma {:induction false} BelowIsRepeat(precedence: Precedences, settings: seq<Setting>, i: nat, n: nat, path: seq<string>)
    requires Layered(precedence, settings) && AllKindsAgree(settings)
    requires Changes(settings, i, n, path) && FoldsClean(precedence, settings[..n])
    requires SaidBelow(precedence, settings, n, path)
    ensures RepeatsLower(settings, i, n, path)
  {
    hide Raw;
    hide Fold;
    hide FoldsClean;
    hide AllKindsAgree;
    var x := SaidAt(settings, i, path).value;
    HoldsLastSaid(precedence, settings, i, n, path);
    var since: nat :| since < n && settings[since].by_.precedence < settings[n].by_.precedence
      && StandsSince(precedence, settings, since, n, path, x);
    StandsThroughout(precedence, settings, since, since + 1, n, path, x);
    var s := SpokenBy(precedence, settings, since + 1, n, path);
    assert s <= i;
    SaidAlike(settings, s, i, path);
    CleanBefore(precedence, settings, since + 1, n);
    HoldsLastSaid(precedence, settings, s, since + 1, path);
    forall k | s <= k <= i && SaidAt(settings, k, path).Some? ensures SaidAt(settings, k, path) == Some(x) {
      if k > s {
        SaidAlike(settings, k, i, path);
        CleanBefore(precedence, settings, k + 1, n);
        HoldsLastSaid(precedence, settings, k, k + 1, path);
        StandsThroughout(precedence, settings, since, k + 1, n, path, x);
      }
    }
    assert Agreed(settings, s, i, path);
  }

  /** What a path holds was last said by somebody. */
  lemma SpokenBy(precedence: Precedences, settings: seq<Setting>, k: nat, n: nat, path: seq<string>) returns (s: nat)
    requires 0 < k <= n <= |settings| && AllKindsAgree(settings) && FoldsClean(precedence, settings[..n])
    requires HeldAt(precedence, settings, k, path).Some?
    ensures s < k && SaidAt(settings, s, path).Some? && Silent(settings, s, k, path)
  {
    hide Fold;
    hide FoldsClean;
    CleanBefore(precedence, settings, k, n);
    KindsAgreeBefore(settings, k);
    hide AllKindsAgree;
    FoldIsOverlay(precedence, settings[..k]);
    EraseAt(Fold(precedence, settings[..k]), path);
    HeldWasSaid(settings, k, path);
    var first: nat :| first < k && SaidAt(settings, first, path).Some?;
    s := LastSpeaker(settings, first, k, path);
  }

  lemma {:induction false} RepeatIsBelow(precedence: Precedences, settings: seq<Setting>, i: nat, n: nat, path: seq<string>)
    requires AllKindsAgree(settings)
    requires Changes(settings, i, n, path) && FoldsClean(precedence, settings[..n])
    requires RepeatsLower(settings, i, n, path)
    ensures SaidBelow(precedence, settings, n, path)
  {
    hide Fold;
    hide FoldsClean;
    hide AllKindsAgree;
    var x := SaidAt(settings, i, path).value;
    HoldsLastSaid(precedence, settings, i, n, path);
    var s: nat :| Agreed(settings, s, i, path) && settings[s].by_.precedence < settings[n].by_.precedence;
    forall k | s < k <= n ensures HoldsTree(precedence, settings, k, path, x) {
      var last := LastSpeaker(settings, s, k, path);
      assert last <= i;
      CleanBefore(precedence, settings, k, n);
      HoldsLastSaid(precedence, settings, last, k, path);
    }
    assert StandsSince(precedence, settings, s, n, path, x);
  }

  lemma {:induction false} ChangesAreDisputes(precedence: Precedences, settings: seq<Setting>, n: nat)
    requires Layered(precedence, settings) && AllKindsAgree(settings) && 0 < n < |settings|
    requires FoldsClean(precedence, settings[..n])
    ensures (forall path :: DisputedAt(precedence, settings, n, path) ==> SaidBelow(precedence, settings, n, path)) <==>
      forall i: nat, path :: Changes(settings, i, n, path) ==> RepeatsLower(settings, i, n, path)
  {
    hide Fold;
    hide FoldsClean;
    hide AllKindsAgree;
    hide Layered;
    hide SaidBelow;
    hide RepeatsLower;
    hide DisputedAt;
    forall i: nat, path | Changes(settings, i, n, path)
      ensures DisputedAt(precedence, settings, n, path)
      ensures SaidBelow(precedence, settings, n, path) <==> RepeatsLower(settings, i, n, path)
    {
      DisputeIsChange(precedence, settings, i, n, path);
      if SaidBelow(precedence, settings, n, path) {
        BelowIsRepeat(precedence, settings, i, n, path);
      }
      if RepeatsLower(settings, i, n, path) {
        RepeatIsBelow(precedence, settings, i, n, path);
      }
    }
    forall path | DisputedAt(precedence, settings, n, path) ensures exists i: nat :: Changes(settings, i, n, path) {
      var i := DisputeChangesSomething(precedence, settings, n, path);
    }
  }

  lemma DisputeChangesSomething(precedence: Precedences, settings: seq<Setting>, n: nat, path: seq<string>) returns (i: nat)
    requires AllKindsAgree(settings) && 0 < n < |settings| && FoldsClean(precedence, settings[..n])
    requires DisputedAt(precedence, settings, n, path)
    ensures Changes(settings, i, n, path)
  {
    hide Fold;
    hide FoldsClean;
    i := SpokenBy(precedence, settings, n, n, path);
    EraseAt(settings[n].value, path);
    KindsAgreeBefore(settings, n);
    FoldIsOverlay(precedence, settings[..n]);
    EraseAt(Fold(precedence, settings[..n]), path);
    var last := Erase(settings[n].value);
    forall s | s in settings[..n] ensures KindsAgree(Erase(s.value), last) {
      var k :| 0 <= k < n && settings[..n][k] == s;
      assert settings[k] == s;
    }
    hide AllKindsAgree;
    OverAllKeepsKinds(settings[..n], last);
    KindsAgreeAt(OverAll(settings[..n]), last, path);
    SaidAlike(settings, i, n, path);
    DisputeIsChange(precedence, settings, i, n, path);
  }

  /**
   * Where kinds agree, what a caller can check beforehand: a fold records no conflict exactly when
   * each layer that changes a value changes one that a layer below it had said, and that every
   * layer since has repeated. So layers of one precedence disagree unnoticed exactly where the
   * first of them to speak repeat what is said below them.
   */
  lemma {:induction false} CleanWhereKindsAgree(precedence: Precedences, settings: seq<Setting>, m: nat)
    requires Layered(precedence, settings) && AllKindsAgree(settings) && 0 < m <= |settings|
    ensures FoldsClean(precedence, settings[..m]) <==>
      forall i: nat, j: nat, path :: j < m && Changes(settings, i, j, path) ==> RepeatsLower(settings, i, j, path)
    decreases m
  {
    hide Fold;
    hide Clean;
    hide AllKindsAgree;
    hide Layered;
    hide RepeatsLower;
    hide DisputedAt;
    hide SaidBelow;
    if m > 1 {
      CleanWhereKindsAgree(precedence, settings, m - 1);
      NextFold(precedence, settings, m);
      StepClean(precedence, settings, m - 1);
      if FoldsClean(precedence, settings[..m - 1]) {
        ChangesAreDisputes(precedence, settings, m - 1);
      }
    }
  }

  /** Every disagreement within one precedence that goes unnoticed has such a repeat in it. */
  lemma {:induction false} UnnoticedRepeats(precedence: Precedences, settings: seq<Setting>, i: nat, j: nat, path: seq<string>)
    requires Layered(precedence, settings) && AllKindsAgree(settings) && FoldsClean(precedence, settings)
    requires i < j < |settings| && settings[i].by_.precedence == settings[j].by_.precedence
    requires SaidAt(settings, i, path).Some? && SaidAt(settings, j, path).Some?
    requires SaidAt(settings, i, path) != SaidAt(settings, j, path) && !SaidAt(settings, i, path).value.Fields?
    ensures exists a: nat, b: nat :: i <= a < b <= j && Changes(settings, a, b, path) && RepeatsLower(settings, a, b, path)
    decreases j
  {
    hide Fold;
    hide FoldsClean;
    hide AllKindsAgree;
    hide Layered;
    hide RepeatsLower;
    var a := LastSpeaker(settings, i, j, path);
    SaidAlike(settings, i, a, path);
    if SaidAt(settings, a, path) != SaidAt(settings, j, path) {
      assert settings[..|settings|] == settings;
      CleanWhereKindsAgree(precedence, settings, |settings|);
      assert Changes(settings, a, j, path);
    } else {
      Ascends(precedence, settings, i, a, j);
      UnnoticedRepeats(precedence, settings, i, a, path);
    }
  }

  lemma Ascends(precedence: Precedences, settings: seq<Setting>, i: nat, a: nat, j: nat)
    requires Layered(precedence, settings) && i <= a <= j < |settings|
    ensures settings[i].by_.precedence <= settings[a].by_.precedence <= settings[j].by_.precedence
  {
  }
}
