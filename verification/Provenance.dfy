/** What the provenance on a merged value can be relied on to say. */
module Provenance {
  import opened Text
  import opened Document
  import opened Canonical
  import opened Merge
  import opened Overlay

  function ValueAt(v: Value, path: seq<string>): Option<Value> {
    if path == [] then Some(v)
    else if v.Map? && path[0] in v.fields then ValueAt(v.fields[path[0]], path[1..])
    else None
  }

  lemma {:induction false} ValueAtChild(v: Value, path: seq<string>, w: Value, key: string)
    requires ValueAt(v, path) == Some(w) && w.Map? && key in w.fields
    ensures ValueAt(v, path + [key]) == Some(w.fields[key])
  {
    if path != [] {
      ValueAtChild(v.fields[path[0]], path[1..], w, key);
      assert (path + [key])[1..] == path[1..] + [key];
    }
  }

  // Every leaf names a layer that set it

  /** The layer contributed a value that declares this at the path. */
  ghost predicate SetBy(settings: seq<Setting>, layer: string, path: seq<string>, t: Tree) {
    exists i :: 0 <= i < |settings| && settings[i].by_.layer == layer
      && ValueAt(settings[i].value, path).Some? && Erase(ValueAt(settings[i].value, path).value) == t
  }

  ghost predicate Sourced(settings: seq<Setting>, v: Value, path: seq<string>)
    decreases v
  {
    if v.Map? then forall k :: k in v.fields ==> Sourced(settings, v.fields[k], path + [k])
    else SetBy(settings, v.from, path, Erase(v))
  }

  lemma {:induction false} SourcedGrows(settings: seq<Setting>, s: Setting, v: Value, path: seq<string>)
    requires Sourced(settings, v, path)
    ensures Sourced(settings + [s], v, path)
    decreases v
  {
    if v.Map? {
      forall k | k in v.fields ensures Sourced(settings + [s], v.fields[k], path + [k]) {
        SourcedGrows(settings, s, v.fields[k], path + [k]);
      }
    } else {
      var i :| 0 <= i < |settings| && settings[i].by_.layer == v.from
        && ValueAt(settings[i].value, path).Some? && Erase(ValueAt(settings[i].value, path).value) == Erase(v);
      assert (settings + [s])[i] == settings[i];
    }
  }

  lemma {:induction false} StampSourced(settings: seq<Setting>, i: nat, w: Value, path: seq<string>)
    requires i < |settings| && ValueAt(settings[i].value, path) == Some(w)
    ensures Sourced(settings, Stamp(w, settings[i].by_.layer), path)
    decreases w
  {
    if w.Map? {
      forall k | k in w.fields ensures Sourced(settings, Stamp(w.fields[k], settings[i].by_.layer), path + [k]) {
        ValueAtChild(settings[i].value, path, w, k);
        StampSourced(settings, i, w.fields[k], path + [k]);
      }
    }
  }

  lemma {:induction false} MergedSourced(precedence: Precedences, settings: seq<Setting>, s: Setting,
                                         held: Value, incoming: Value, path: seq<string>)
    requires Sourced(settings, held, path) && ValueAt(s.value, path) == Some(incoming)
    ensures Sourced(settings + [s], Merged(precedence, held, incoming, s.by_), path)
    decreases incoming
  {
    var out := Merged(precedence, held, incoming, s.by_);
    if held.Map? && incoming.Map? {
      forall k | k in out.fields ensures Sourced(settings + [s], out.fields[k], path + [k]) {
        assert out.fields[k] == MergedField(precedence, held, incoming, s.by_, k);
        assert (settings + [s])[|settings|] == s;
        if k !in incoming.fields {
          SourcedGrows(settings, s, held.fields[k], path + [k]);
        } else {
          ValueAtChild(s.value, path, incoming, k);
          if k !in held.fields {
            StampSourced(settings + [s], |settings|, incoming.fields[k], path + [k]);
          } else {
            MergedSourced(precedence, settings, s, held.fields[k], incoming.fields[k], path + [k]);
          }
        }
      }
    } else {
      SourcedGrows(settings, s, held, path);
      StampSourced(settings + [s], |settings|, incoming, path);
      DisplacedSourced(settings + [s], held, incoming, s.by_, path);
    }
  }

  lemma DisplacedSourced(settings: seq<Setting>, held: Value, incoming: Value, from: Contribution, path: seq<string>)
    requires Sourced(settings, Stamp(incoming, from.layer), path)
    ensures Sourced(settings, Displace(held, incoming, from), path)
  {
    var stamped, displaced := Stamp(incoming, from.layer), Displace(held, incoming, from);
    if displaced.Map? {
      assert displaced.fields == stamped.fields;
    } else {
      assert Erase(displaced) == Erase(stamped);
    }
  }

  lemma {:induction false} FoldSourced(precedence: Precedences, settings: seq<Setting>)
    requires settings != []
    ensures Sourced(settings, Fold(precedence, settings), [])
  {
    hide Merged;
    var n := |settings| - 1;
    if n == 0 {
      StampSourced(settings, 0, settings[0].value, []);
    } else {
      FoldSourced(precedence, settings[..n]);
      assert ValueAt(settings[n].value, []) == Some(settings[n].value);
      MergedSourced(precedence, settings[..n], settings[n], Fold(precedence, settings[..n]), settings[n].value, []);
      assert settings == settings[..n] + [settings[n]];
    }
  }

  lemma {:induction false} SourcedAt(settings: seq<Setting>, v: Value, base: seq<string>, path: seq<string>, leaf: Value)
    requires Sourced(settings, v, base) && ValueAt(v, path) == Some(leaf) && !leaf.Map?
    ensures SetBy(settings, leaf.from, base + path, Erase(leaf))
    decreases |path|
  {
    if path == [] {
      assert base + path == base;
    } else {
      SourcedAt(settings, v.fields[path[0]], base + [path[0]], path[1..], leaf);
      assert base + [path[0]] + path[1..] == base + path;
    }
  }

  /** The layer a merged scalar or list names did contribute an equal value at that path. */
  lemma LeafNamesItsSource(precedence: Precedences, settings: seq<Setting>, path: seq<string>, leaf: Value)
    requires settings != [] && ValueAt(Fold(precedence, settings), path) == Some(leaf) && !leaf.Map?
    ensures SetBy(settings, leaf.from, path, Erase(leaf))
  {
    FoldSourced(precedence, settings);
    SourcedAt(settings, Fold(precedence, settings), [], path, leaf);
    assert [] + path == path;
  }

  // Displaced values are listed from the highest precedence down

  /** Known layers in the list have strictly falling precedences, the first of them below top. */
  predicate Falling(precedence: Precedences, displaced: seq<Origin>, top: int) {
    displaced == []
    || (if displaced[0].layer in precedence
        then precedence[displaced[0].layer] < top && Falling(precedence, displaced[1..], precedence[displaced[0].layer])
        else Falling(precedence, displaced[1..], top))
  }

  predicate Ordered(precedence: Precedences, v: Value, bound: int)
    decreases v
  {
    if v.Map? then
      v.from == "" && Falling(precedence, v.displaced, bound) && forall k :: k in v.fields ==> Ordered(precedence, v.fields[k], bound)
    else
      v.from != "" && v.from in precedence && precedence[v.from] <= bound
      && Falling(precedence, v.displaced, precedence[v.from])
  }

  /** As documents are read: nothing merged yet. */
  predicate Raw(v: Value) {
    v.from == "" && v.displaced == [] && (v.Map? ==> forall k :: k in v.fields ==> Raw(v.fields[k]))
  }

  predicate Known(precedence: Precedences, c: Contribution) {
    c.layer != "" && c.layer in precedence && precedence[c.layer] == c.precedence
  }

  /** Layers with names of their own, in ascending precedence, contributing what was read. */
  predicate Layered(precedence: Precedences, settings: seq<Setting>) {
    && EARLIER !in precedence
    && (forall i :: 0 <= i < |settings| ==> Known(precedence, settings[i].by_) && Raw(settings[i].value))
    && (forall i, j :: 0 <= i < j < |settings| ==> settings[i].by_.precedence <= settings[j].by_.precedence)
  }

  lemma {:induction false} FallingWidens(precedence: Precedences, displaced: seq<Origin>, top: int, top': int)
    requires Falling(precedence, displaced, top) && top <= top'
    ensures Falling(precedence, displaced, top')
  {
    if displaced != [] && displaced[0].layer !in precedence {
      FallingWidens(precedence, displaced[1..], top, top');
    }
  }

  lemma {:induction false} OrderedWidens(precedence: Precedences, v: Value, bound: int, bound': int)
    requires Ordered(precedence, v, bound) && bound <= bound'
    ensures Ordered(precedence, v, bound')
  {
    if v.Map? {
      FallingWidens(precedence, v.displaced, bound, bound');
      forall k | k in v.fields ensures Ordered(precedence, v.fields[k], bound') {
        OrderedWidens(precedence, v.fields[k], bound, bound');
      }
    }
  }

  lemma {:induction false} StampOrdered(precedence: Precedences, v: Value, from: Contribution)
    requires Raw(v) && Known(precedence, from)
    ensures Ordered(precedence, Stamp(v, from.layer), from.precedence)
  {
    if v.Map? {
      forall k | k in v.fields ensures Ordered(precedence, Stamp(v.fields[k], from.layer), from.precedence) {
        StampOrdered(precedence, v.fields[k], from);
      }
    }
  }

  lemma DisplacedFalls(precedence: Precedences, held: Value, incoming: Value, from: Contribution, bound: int)
    requires Ordered(precedence, held, bound) && bound <= from.precedence && EARLIER !in precedence
    requires !Clashes(precedence, held, from)
    ensures Falling(precedence, Displace(held, incoming, from).displaced, from.precedence)
  {
    var displaced := Displace(held, incoming, from).displaced;
    assert displaced[1..] == held.displaced;
    if held.Map? {
      FallingWidens(precedence, held.displaced, bound, from.precedence);
    }
  }

  lemma {:induction false} MergedOrdered(precedence: Precedences, held: Value, incoming: Value, from: Contribution, bound: int)
    requires Ordered(precedence, held, bound) && bound <= from.precedence && EARLIER !in precedence
    requires Raw(incoming) && Known(precedence, from)
    ensures Ordered(precedence, Merged(precedence, held, incoming, from), from.precedence)
    decreases incoming
  {
    var out := Merged(precedence, held, incoming, from);
    if held.Map? && incoming.Map? {
      FallingWidens(precedence, held.displaced, bound, from.precedence);
      forall k | k in out.fields ensures Ordered(precedence, out.fields[k], from.precedence) {
        assert out.fields[k] == MergedField(precedence, held, incoming, from, k);
        if k !in incoming.fields {
          OrderedWidens(precedence, held.fields[k], bound, from.precedence);
        } else if k !in held.fields {
          StampOrdered(precedence, incoming.fields[k], from);
        } else {
          MergedOrdered(precedence, held.fields[k], incoming.fields[k], from, bound);
        }
      }
    } else {
      OrderedWidens(precedence, held, bound, from.precedence);
      StampOrdered(precedence, incoming, from);
      if !Clashes(precedence, held, from) {
        DisplacedFalls(precedence, held, incoming, from, bound);
        var stamped, displaced := Stamp(incoming, from.layer), Displace(held, incoming, from);
        assert displaced.Map? ==> displaced.fields == stamped.fields;
      }
    }
  }

  /** In a merged value every displaced list falls strictly, from below the precedence of the winner. */
  lemma {:induction false} FoldOrdered(precedence: Precedences, settings: seq<Setting>)
    requires settings != [] && Layered(precedence, settings)
    ensures Ordered(precedence, Fold(precedence, settings), settings[|settings| - 1].by_.precedence)
  {
    var n := |settings| - 1;
    if n == 0 {
      StampOrdered(precedence, settings[0].value, settings[0].by_);
    } else {
      FoldOrdered(precedence, settings[..n]);
      MergedOrdered(precedence, Fold(precedence, settings[..n]), settings[n].value, settings[n].by_, settings[n - 1].by_.precedence);
    }
  }

  // Every recorded conflict is real

  function JoinPath(field: string, path: seq<string>): string
    decreases |path|
  {
    if path == [] then field else JoinPath(JoinField(field, path[0]), path[1..])
  }

  function Dotted(path: seq<string>): string {
    if path == [] then "" else "." + path[0] + Dotted(path[1..])
  }

  /** A conflict is reported under the name of the resource and the keys on the way to it. */
  lemma {:induction false} FieldIsDotted(field: string, path: seq<string>)
    requires field != ""
    ensures JoinPath(field, path) == field + Dotted(path)
    decreases |path|
  {
    if path != [] {
      FieldIsDotted(JoinField(field, path[0]), path[1..]);
      assert JoinField(field, path[0]) == field + "." + path[0];
      assert field + "." + path[0] + Dotted(path[1..]) == field + ("." + path[0] + Dotted(path[1..]));
    }
  }

  ghost predicate Contributed(settings: seq<Setting>, layer: string, path: seq<string>, text: string) {
    exists i :: 0 <= i < |settings| && settings[i].by_.layer == layer
      && ValueAt(settings[i].value, path).Some? && Render(ValueAt(settings[i].value, path).value) == text
  }

  /** Both sides contributed at the path, at one precedence, and their renderings differ. */
  ghost predicate RealConflict(precedence: Precedences, settings: seq<Setting>, s: Setting, path: seq<string>, c: Conflict) {
    && c.b == s.by_ && c.a.precedence == c.b.precedence && c.aText != c.bText
    && c.a.layer in precedence && precedence[c.a.layer] == c.a.precedence
    && Contributed(settings, c.a.layer, path, c.aText)
    && Contributed([s], c.b.layer, path, c.bText)
  }

  /** The conflict is about some path at or below this one, and its field says which. */
  ghost predicate RealBelow(precedence: Precedences, settings: seq<Setting>, s: Setting, field: string, path: seq<string>, c: Conflict) {
    exists below :: c.field == JoinPath(field, below) && RealConflict(precedence, settings, s, path + below, c)
  }

  lemma SameTreeSameReading(v: Value, w: Value)
    requires Erase(v) == Erase(w)
    ensures Render(v) == Render(w)
  {
    CanonicalIgnoresProvenance(v, w);
  }

  lemma {:induction false} ConflictIsReal(precedence: Precedences, settings: seq<Setting>, s: Setting, field: string,
                                          held: Value, incoming: Value, path: seq<string>, bound: int, c: Conflict)
    requires Sourced(settings, held, path) && Ordered(precedence, held, bound)
    requires ValueAt(s.value, path) == Some(incoming)
    requires ConflictIn(precedence, field, held, incoming, s.by_, c)
    ensures RealBelow(precedence, settings, s, field, path, c)
    decreases incoming
  {
    hide RealBelow;
    if held.Map? && incoming.Map? {
      var k :| k in held.fields && k in incoming.fields
        && ConflictIn(precedence, JoinField(field, k), held.fields[k], incoming.fields[k], s.by_, c);
      ValueAtChild(s.value, path, incoming, k);
      ConflictIsReal(precedence, settings, s, JoinField(field, k), held.fields[k], incoming.fields[k], path + [k], bound, c);
      RealBelowParent(precedence, settings, s, field, path, k, c);
    } else {
      LeafConflictIsReal(precedence, settings, s, field, held, incoming, path, bound, c);
      RealHere(precedence, settings, s, field, path, c);
    }
  }

  lemma RealHere(precedence: Precedences, settings: seq<Setting>, s: Setting, field: string, path: seq<string>, c: Conflict)
    requires c.field == field && RealConflict(precedence, settings, s, path, c)
    ensures RealBelow(precedence, settings, s, field, path, c)
  {
    assert path + [] == path;
    assert c.field == JoinPath(field, []);
  }

  lemma RealBelowParent(precedence: Precedences, settings: seq<Setting>, s: Setting, field: string, path: seq<string>, k: string, c: Conflict)
    requires RealBelow(precedence, settings, s, JoinField(field, k), path + [k], c)
    ensures RealBelow(precedence, settings, s, field, path, c)
  {
    hide RealConflict;
    var below :| c.field == JoinPath(JoinField(field, k), below) && RealConflict(precedence, settings, s, path + [k] + below, c);
    assert ([k] + below)[1..] == below;
    assert path + ([k] + below) == path + [k] + below;
    assert c.field == JoinPath(field, [k] + below);
  }

  lemma LeafConflictIsReal(precedence: Precedences, settings: seq<Setting>, s: Setting, field: string,
                           held: Value, incoming: Value, path: seq<string>, bound: int, c: Conflict)
    requires Sourced(settings, held, path) && Ordered(precedence, held, bound)
    requires ValueAt(s.value, path) == Some(incoming) && !(held.Map? && incoming.Map?)
    requires ConflictIn(precedence, field, held, incoming, s.by_, c)
    ensures c.field == field && RealConflict(precedence, settings, s, path, c)
  {
    assert !held.Map?;
    var i :| 0 <= i < |settings| && settings[i].by_.layer == held.from
      && ValueAt(settings[i].value, path).Some? && Erase(ValueAt(settings[i].value, path).value) == Erase(held);
    SameTreeSameReading(ValueAt(settings[i].value, path).value, held);
    assert Contributed(settings, c.a.layer, path, c.aText);
    assert [s][0].by_.layer == c.b.layer;
    assert Contributed([s], c.b.layer, path, c.bText);
  }

  /** Every conflict recorded while folding names two contributions of one precedence that read differently. */
  lemma FoldConflictsAreReal(precedence: Precedences, settings: seq<Setting>, n: nat, field: string, c: Conflict)
    requires 0 < n < |settings| && Layered(precedence, settings)
    requires ConflictIn(precedence, field, Fold(precedence, settings[..n]), settings[n].value, settings[n].by_, c)
    ensures RealBelow(precedence, settings[..n], settings[n], field, [], c)
  {
    hide Fold;
    FoldSourced(precedence, settings[..n]);
    FoldOrdered(precedence, settings[..n]);
    ConflictIsReal(precedence, settings[..n], settings[n], field, Fold(precedence, settings[..n]), settings[n].value, [],
                   settings[n - 1].by_.precedence, c);
  }
}
