/** What folding layers means: a right-biased overlay, when kinds agree and nothing conflicts. */
module Overlay {
  import opened Text
  import opened Document
  import opened Canonical
  import opened Merge

  /** Later settings win, and maps combine key by key. */
  function Over(a: Tree, b: Tree): Tree
    decreases b
  {
    if a.Fields? && b.Fields? then
      Fields(map k | k in a.fields.Keys + b.fields.Keys ::
        if k !in b.fields then a.fields[k]
        else if k !in a.fields then b.fields[k]
        else Over(a.fields[k], b.fields[k]))
    else b
  }

  /** The two declare the same kind, scalar, list or map, at every path both set. */
  predicate KindsAgree(a: Tree, b: Tree)
    decreases b
  {
    || (a.Leaf? && b.Leaf?)
    || (a.Items? && b.Items?)
    || (a.Fields? && b.Fields? && forall k :: k in a.fields && k in b.fields ==> KindsAgree(a.fields[k], b.fields[k]))
  }

  /**
   * Where the two are not both maps and read alike, they also declare alike. It fails only
   * for a scalar spelt like the encoding of a list or a map.
   */
  ghost predicate ReadsTrue(held: Value, incoming: Value)
    decreases incoming
  {
    if held.Map? && incoming.Map? then
      forall k :: k in held.fields && k in incoming.fields ==> ReadsTrue(held.fields[k], incoming.fields[k])
    else SameValue(held, incoming) ==> Erase(held) == Erase(incoming)
  }

  lemma {:induction false} KindsAgreeReadsTrue(held: Value, incoming: Value)
    requires KindsAgree(Erase(held), Erase(incoming))
    ensures ReadsTrue(held, incoming)
    decreases incoming
  {
    if held.Map? && incoming.Map? {
      forall k | k in held.fields && k in incoming.fields ensures ReadsTrue(held.fields[k], incoming.fields[k]) {
        assert KindsAgree(Erase(held).fields[k], Erase(incoming).fields[k]);
        KindsAgreeReadsTrue(held.fields[k], incoming.fields[k]);
      }
    } else {
      CanonicalTells(held, incoming);
    }
  }

  lemma {:induction false} StampKeepsTree(v: Value, layer: string)
    ensures Erase(Stamp(v, layer)) == Erase(v)
  {
    if v.Map? {
      forall k | k in v.fields ensures Erase(Stamp(v.fields[k], layer)) == Erase(v.fields[k]) {
        StampKeepsTree(v.fields[k], layer);
      }
      SameFieldsSameTree(Stamp(v, layer), v);
    }
  }

  function OverField(a: Tree, b: Tree, k: string): Tree
    requires a.Fields? && b.Fields? && (k in a.fields || k in b.fields)
  {
    if k !in b.fields then a.fields[k] else if k !in a.fields then b.fields[k] else Over(a.fields[k], b.fields[k])
  }

  /** A merge without conflict is the overlay exactly when nothing reads like what it is not. */
  lemma {:induction false} MergeIsOverlay(precedence: Precedences, held: Value, incoming: Value, from: Contribution)
    requires Clean(precedence, held, incoming, from)
    ensures Erase(Merged(precedence, held, incoming, from)) == Over(Erase(held), Erase(incoming))
      <==> ReadsTrue(held, incoming)
    decreases incoming
  {
    if held.Map? && incoming.Map? {
      var left := Erase(Merged(precedence, held, incoming, from)).fields;
      var right := Over(Erase(held), Erase(incoming)).fields;
      assert left.Keys == held.fields.Keys + incoming.fields.Keys == right.Keys;
      forall k | k in left
        ensures left[k] == right[k] <==>
          (k in held.fields && k in incoming.fields ==> ReadsTrue(held.fields[k], incoming.fields[k]))
      {
        MergeFieldIsOverlay(precedence, held, incoming, from, k);
      }
      assert left == right <==> forall k :: k in left ==> left[k] == right[k];
    } else {
      StampKeepsTree(incoming, from.layer);
      DisplaceKeepsTree(held, incoming, from);
    }
  }

  lemma {:induction false} MergeFieldIsOverlay(precedence: Precedences, held: Value, incoming: Value, from: Contribution, k: string)
    requires held.Map? && incoming.Map? && Clean(precedence, held, incoming, from)
    requires k in held.fields || k in incoming.fields
    ensures Erase(MergedField(precedence, held, incoming, from, k)) == OverField(Erase(held), Erase(incoming), k) <==>
      (k in held.fields && k in incoming.fields ==> ReadsTrue(held.fields[k], incoming.fields[k]))
    decreases incoming, 0
  {
    if k in incoming.fields {
      StampKeepsTree(incoming.fields[k], from.layer);
      if k in held.fields {
        MergeIsOverlay(precedence, held.fields[k], incoming.fields[k], from);
      }
    }
  }

  lemma DisplaceKeepsTree(held: Value, incoming: Value, from: Contribution)
    ensures Erase(Displace(held, incoming, from)) == Erase(incoming)
  {
    StampKeepsTree(incoming, from.layer);
    var stamped, displaced := Stamp(incoming, from.layer), Displace(held, incoming, from);
    assert Erase(displaced) == Erase(stamped);
  }

  // Folding every layer

  datatype Setting = Setting(by_: Contribution, value: Value)

  function Fold(precedence: Precedences, settings: seq<Setting>): Value
    requires settings != []
  {
    var last := settings[|settings| - 1];
    if |settings| == 1 then Stamp(last.value, last.by_.layer)
    else Merged(precedence, Fold(precedence, settings[..|settings| - 1]), last.value, last.by_)
  }

  predicate FoldsClean(precedence: Precedences, settings: seq<Setting>) {
    |settings| <= 1
    || (var n := |settings| - 1;
        FoldsClean(precedence, settings[..n])
        && Clean(precedence, Fold(precedence, settings[..n]), settings[n].value, settings[n].by_))
  }

  function OverAll(settings: seq<Setting>): Tree
    requires settings != []
  {
    var n := |settings| - 1;
    if n == 0 then Erase(settings[0].value) else Over(OverAll(settings[..n]), Erase(settings[n].value))
  }

  predicate AllKindsAgree(settings: seq<Setting>) {
    forall i, j :: 0 <= i < j < |settings| ==> KindsAgree(Erase(settings[i].value), Erase(settings[j].value))
  }

  lemma {:induction false} OverKeepsKinds(a: Tree, b: Tree, c: Tree)
    requires KindsAgree(a, c) && KindsAgree(b, c)
    ensures KindsAgree(Over(a, b), c)
    decreases c
  {
    if a.Fields? && b.Fields? {
      forall k | k in Over(a, b).fields && k in c.fields ensures KindsAgree(Over(a, b).fields[k], c.fields[k]) {
        if k in a.fields && k in b.fields {
          OverKeepsKinds(a.fields[k], b.fields[k], c.fields[k]);
        }
      }
    }
  }

  lemma {:induction false} OverAllKeepsKinds(settings: seq<Setting>, c: Tree)
    requires settings != [] && forall s :: s in settings ==> KindsAgree(Erase(s.value), c)
    ensures KindsAgree(OverAll(settings), c)
  {
    var n := |settings| - 1;
    assert settings[n] in settings;
    if n > 0 {
      OverAllKeepsKinds(settings[..n], c);
      OverKeepsKinds(OverAll(settings[..n]), Erase(settings[n].value), c);
    }
  }

  /** When kinds agree at every path and nothing conflicts, folding the layers is overlaying them. */
  lemma {:induction false} FoldIsOverlay(precedence: Precedences, settings: seq<Setting>)
    requires settings != [] && FoldsClean(precedence, settings) && AllKindsAgree(settings)
    ensures Erase(Fold(precedence, settings)) == OverAll(settings)
  {
    var n := |settings| - 1;
    if n == 0 {
      StampKeepsTree(settings[0].value, settings[0].by_.layer);
    } else {
      var earlier, last := settings[..n], settings[n];
      FoldIsOverlay(precedence, earlier);
      forall s | s in earlier ensures KindsAgree(Erase(s.value), Erase(last.value)) {
        var i :| 0 <= i < n && earlier[i] == s;
        assert settings[i] == s;
      }
      OverAllKeepsKinds(earlier, Erase(last.value));
      KindsAgreeReadsTrue(Fold(precedence, earlier), last.value);
      MergeIsOverlay(precedence, Fold(precedence, earlier), last.value, last.by_);
    }
  }

  // Who wins

  function At(t: Tree, path: seq<string>): Option<Tree> {
    if path == [] then Some(t)
    else if t.Fields? && path[0] in t.fields then At(t.fields[path[0]], path[1..])
    else None
  }

  lemma {:induction false} OverAt(a: Tree, b: Tree, path: seq<string>)
    requires KindsAgree(a, b)
    ensures At(Over(a, b), path) == match (At(a, path), At(b, path)) {
      case (Some(x), Some(y)) => Some(Over(x, y))
      case (Some(x), None) => Some(x)
      case (None, y) => y
    }
  {
    if path != [] && a.Fields? && b.Fields? && path[0] in a.fields && path[0] in b.fields {
      OverAt(a.fields[path[0]], b.fields[path[0]], path[1..]);
    }
  }

  /** A path holds what the last layer to set it says, and nothing where no layer sets it. */
  lemma {:induction false} LastSetterWins(settings: seq<Setting>, path: seq<string>, i: nat)
    requires AllKindsAgree(settings) && i < |settings|
    requires forall j :: i < j < |settings| ==> At(Erase(settings[j].value), path).None?
    requires At(Erase(settings[i].value), path).Some? && !At(Erase(settings[i].value), path).value.Fields?
    ensures At(OverAll(settings), path) == At(Erase(settings[i].value), path)
  {
    var n := |settings| - 1;
    if n > 0 {
      var earlier, last := settings[..n], Erase(settings[n].value);
      forall s | s in earlier ensures KindsAgree(Erase(s.value), last) {
        var k :| 0 <= k < n && earlier[k] == s;
        assert settings[k] == s;
      }
      OverAllKeepsKinds(earlier, last);
      OverAt(OverAll(earlier), last, path);
      if i < n {
        LastSetterWins(earlier, path, i);
      }
    }
  }
}
