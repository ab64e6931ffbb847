/** Field by field: where a target differs from its declaration. */
module Diff {
  import opened Text
  import opened Document
  import opened Canonical
  import opened Provider

  datatype FieldDiff = FieldDiff(field: string, desired: string, observed: string, missing: bool, uncorrectable: bool)

  datatype Diff = Diff(ref: Ref, fields: seq<FieldDiff>, exists_: bool, occupied: string)

  const NOT_COMPARABLE: set<string> :=
    {"source", "template", "secretRef", "passwordRef", "validate", "allowPrivileged", "system", "unsigned", "suite"}

  predicate ExistenceWord(text: string) {
    text == "present" || text == "absent"
  }

  /** state is an existence word on most types and a property of the target on services. */
  predicate Comparable(field: string, desired: Value) {
    if field == "state" then !ExistenceWord(if desired.Scalar? then desired.text else "")
    else field !in NOT_COMPARABLE
  }

  function DeclaredFields(desired: Value): (fields: seq<string>)
    ensures forall f :: f in fields <==> desired.Map? && f in desired.fields
    ensures Ascending(fields)
  {
    if desired.Map? then SortedKeys(desired.fields.Keys) else []
  }

  /** The field is declared, can be compared and read, and does not hold what was asked for. */
  predicate Mismatched(ref: Ref, desired: Value, seen: Observation, field: string) {
    && desired.Map? && field in desired.fields
    && TargetIdentityField(ref.typ) != Some(field)
    && Comparable(field, desired.fields[field])
    && seen.CanObserve(field)
    && (field in seen.fields ==> Render(desired.fields[field]) != Render(seen.fields[field]))
  }

  function Describe(desired: Value, seen: Observation, field: string): FieldDiff
    requires desired.Map? && field in desired.fields
  {
    FieldDiff(field, Render(desired.fields[field]),
              if field in seen.fields then Render(seen.fields[field]) else "",
              field !in seen.fields, !seen.CanCorrect(field))
  }

  function MismatchesIn(ref: Ref, desired: Value, seen: Observation, fields: seq<string>): seq<FieldDiff> {
    if fields == [] then []
    else
      var last := fields[|fields| - 1];
      MismatchesIn(ref, desired, seen, fields[..|fields| - 1])
      + if Mismatched(ref, desired, seen, last) then [Describe(desired, seen, last)] else []
  }

  function CompareSpec(ref: Ref, desired: Value, seen: Observation): Diff {
    Diff(ref, MismatchesIn(ref, desired, seen, DeclaredFields(desired)), seen.exists_, seen.found)
  }

  // What a comparison lists, spelled out

  function ReadsAs(v: Value): string {
    match v
    case Scalar(text, _, _, _) => text
    case _ => Encode(v)
  }

  /** A field that describes the target, is declared, can be read, and reads differently or is missing. */
  ghost predicate Differs(typ: string, desired: Value, seen: Observation, field: string) {
    && desired.Map? && field in desired.fields
    && !(typ in {"File", "Directory", "Symlink"} && field == "path")
    && !(typ == "Repository" && field == "id")
    && field !in {"source", "template", "secretRef", "passwordRef", "validate", "allowPrivileged", "system", "unsigned", "suite"}
    && (field == "state" ==> !(desired.fields[field].Scalar? && desired.fields[field].text in {"present", "absent"}))
    && field !in seen.unobservable
    && (field in seen.fields ==> ReadsAs(desired.fields[field]) != ReadsAs(seen.fields[field]))
  }

  ghost predicate Tells(d: FieldDiff, desired: Value, seen: Observation)
    requires desired.Map? && d.field in desired.fields
  {
    && d.desired == ReadsAs(desired.fields[d.field])
    && d.missing == (d.field !in seen.fields)
    && d.observed == (if d.field in seen.fields then ReadsAs(seen.fields[d.field]) else "")
    && d.uncorrectable == (d.field in seen.uncorrectable)
  }

  /** Exactly the fields that differ, each once, in the order of their names, with what either side says. */
  ghost predicate ListsDifferences(ref: Ref, desired: Value, seen: Observation, fields: seq<FieldDiff>) {
    && (forall f :: Differs(ref.typ, desired, seen, f) <==> Names(fields, f))
    && (forall d :: d in fields ==> desired.Map? && d.field in desired.fields && Tells(d, desired, seen))
    && FieldsClimb(fields)
  }

  ghost predicate Names(fields: seq<FieldDiff>, f: string) {
    exists d :: d in fields && d.field == f
  }

  ghost predicate FieldsClimb(fields: seq<FieldDiff>) {
    forall i, j :: 0 <= i < j < |fields| ==> Less(fields[i].field, fields[j].field)
  }

  lemma {:induction false} CompareListsDifferences(ref: Ref, desired: Value, seen: Observation)
    ensures ListsDifferences(ref, desired, seen, CompareSpec(ref, desired, seen).fields)
  {
    hide *;
    var fields := CompareSpec(ref, desired, seen).fields;
    AllListed(ref, desired, seen);
    AllTell(ref, desired, seen);
    CompareClimbs(ref, desired, seen);
    ListsThem(ref, desired, seen, fields);
  }

  lemma ListsThem(ref: Ref, desired: Value, seen: Observation, fields: seq<FieldDiff>)
    requires forall f :: Differs(ref.typ, desired, seen, f) <==> Names(fields, f)
    requires forall d :: d in fields ==> desired.Map? && d.field in desired.fields && Tells(d, desired, seen)
    requires FieldsClimb(fields)
    ensures ListsDifferences(ref, desired, seen, fields)
  {
    hide Differs;
    hide Names;
    hide Tells;
    hide FieldsClimb;
  }

  lemma AllListed(ref: Ref, desired: Value, seen: Observation)
    ensures forall f :: Differs(ref.typ, desired, seen, f) <==> Names(CompareSpec(ref, desired, seen).fields, f)
  {
    hide *;
    forall f ensures Differs(ref.typ, desired, seen, f) <==> Names(CompareSpec(ref, desired, seen).fields, f) {
      ListedIffDiffers(ref, desired, seen, f);
    }
  }

  lemma AllTell(ref: Ref, desired: Value, seen: Observation)
    ensures forall d :: d in CompareSpec(ref, desired, seen).fields ==> desired.Map? && d.field in desired.fields && Tells(d, desired, seen)
  {
    hide *;
    forall d | d in CompareSpec(ref, desired, seen).fields
      ensures desired.Map? && d.field in desired.fields && Tells(d, desired, seen)
    {
      ListedTells(ref, desired, seen, d);
    }
  }

  lemma CompareClimbs(ref: Ref, desired: Value, seen: Observation)
    ensures FieldsClimb(CompareSpec(ref, desired, seen).fields)
  {
    hide MismatchesIn;
    hide FieldsClimb;
    if desired.Map? {
      MismatchesClimb(ref, desired, seen, DeclaredFields(desired));
    }
    NothingListed(ref, desired, seen);
  }

  lemma NothingListed(ref: Ref, desired: Value, seen: Observation)
    ensures !desired.Map? ==> CompareSpec(ref, desired, seen).fields == [] && FieldsClimb(CompareSpec(ref, desired, seen).fields)
  {
  }

  lemma ListedTells(ref: Ref, desired: Value, seen: Observation, d: FieldDiff)
    requires d in CompareSpec(ref, desired, seen).fields
    ensures desired.Map? && d.field in desired.fields && Tells(d, desired, seen)
  {
    hide Mismatched;
    hide Describe;
    hide Tells;
    NothingListed(ref, desired, seen);
    MismatchesAreExact(ref, desired, seen, DeclaredFields(desired));
    hide MismatchesIn;
    DescribeTells(desired, seen, d.field);
  }

  lemma ListedIffDiffers(ref: Ref, desired: Value, seen: Observation, f: string)
    ensures Differs(ref.typ, desired, seen, f) <==> Names(CompareSpec(ref, desired, seen).fields, f)
  {
    hide Mismatched;
    hide Describe;
    MismatchedDiffers(ref, desired, seen, f);
    NothingListed(ref, desired, seen);
    MismatchedIsDeclared(ref, desired, seen, f);
    if desired.Map? {
      MismatchesAreExact(ref, desired, seen, DeclaredFields(desired));
    }
    hide Differs;
    hide MismatchesIn;
  }

  lemma MismatchedIsDeclared(ref: Ref, desired: Value, seen: Observation, f: string)
    ensures Mismatched(ref, desired, seen, f) ==> desired.Map? && f in DeclaredFields(desired)
  {
  }

  lemma DescribeTells(desired: Value, seen: Observation, f: string)
    requires desired.Map? && f in desired.fields
    ensures Describe(desired, seen, f).field == f && Tells(Describe(desired, seen, f), desired, seen)
  {
    hide Encode;
  }

  lemma MismatchedDiffers(ref: Ref, desired: Value, seen: Observation, f: string)
    ensures Mismatched(ref, desired, seen, f) <==> Differs(ref.typ, desired, seen, f)
  {
    hide Encode;
    SteeringFields(f);
    hide NOT_COMPARABLE;
  }

  lemma SteeringFields(field: string)
    ensures field in NOT_COMPARABLE <==>
      field in {"source", "template", "secretRef", "passwordRef", "validate", "allowPrivileged", "system", "unsigned", "suite"}
    ensures "state" !in NOT_COMPARABLE
  {
  }

  lemma {:induction false} MismatchesClimb(ref: Ref, desired: Value, seen: Observation, fields: seq<string>)
    requires desired.Map? && (forall f :: f in fields ==> f in desired.fields) && Ascending(fields)
    ensures forall d :: d in MismatchesIn(ref, desired, seen, fields) ==> d.field in fields
    ensures FieldsClimb(MismatchesIn(ref, desired, seen, fields))
  {
    hide Mismatched;
    if fields != [] {
      var n := |fields| - 1;
      var init, last := fields[..n], fields[n];
      assert fields == init + [last];
      MismatchesClimb(ref, desired, seen, init);
      var before, found := MismatchesIn(ref, desired, seen, init), MismatchesIn(ref, desired, seen, fields);
      forall i, j | 0 <= i < j < |found| ensures Less(found[i].field, found[j].field) {
        assert found[i] == before[i] && before[i] in before;
        if j < |before| {
          assert found[j] == before[j];
        } else {
          assert found[j].field == last;
          var k :| 0 <= k < n && fields[k] == before[i].field;
          assert Less(fields[k], fields[n]);
        }
      }
    }
  }

  method CompareField(ref: Ref, desired: Value, seen: Observation, field: string) returns (found: Option<FieldDiff>)
    requires desired.Map? && field in desired.fields
    ensures found == if Mismatched(ref, desired, seen, field) then Some(Describe(desired, seen, field)) else None
  {
    var want := desired.fields[field];
    if TargetIdentityField(ref.typ) == Some(field) || !Comparable(field, want) || !seen.CanObserve(field) {
      return None;
    }
    if field !in seen.fields {
      return Some(FieldDiff(field, Render(want), "", true, !seen.CanCorrect(field)));
    }
    var got := seen.fields[field];
    if Render(want) != Render(got) {
      return Some(FieldDiff(field, Render(want), Render(got), false, !seen.CanCorrect(field)));
    }
    return None;
  }

  method Compare(ref: Ref, desired: Value, seen: Observation) returns (out: Diff)
    ensures out == CompareSpec(ref, desired, seen)
    ensures out.ref == ref && out.exists_ == seen.exists_ && out.occupied == seen.found
    ensures ListsDifferences(ref, desired, seen, out.fields)
  {
    CompareListsDifferences(ref, desired, seen);
    hide ListsDifferences;
    hide Mismatched;
    hide Describe;
    hide DeclaredFields;
    var fields := [];
    var declared := DeclaredFields(desired);
    for i := 0 to |declared|
      invariant fields == MismatchesIn(ref, desired, seen, declared[..i])
    {
      assert declared[..i + 1][..i] == declared[..i];
      assert declared[i] in declared;
      var found := CompareField(ref, desired, seen, declared[i]);
      if found.Some? {
        fields := fields + [found.value];
      }
    }
    assert declared[..|declared|] == declared;
    out := Diff(ref, fields, seen.exists_, seen.found);
  }

  /** A comparison names exactly the mismatched fields, so an empty one means every declared field holds. */
  lemma {:induction false} MismatchesAreExact(ref: Ref, desired: Value, seen: Observation, fields: seq<string>)
    requires desired.Map? && forall f :: f in fields ==> f in desired.fields
    ensures forall f :: f in fields && Mismatched(ref, desired, seen, f) <==>
      exists d :: d in MismatchesIn(ref, desired, seen, fields) && d.field == f
    ensures forall d :: d in MismatchesIn(ref, desired, seen, fields) ==>
      d.field in fields && d == Describe(desired, seen, d.field)
  {
    if fields != [] {
      var init, last := fields[..|fields| - 1], fields[|fields| - 1];
      MismatchesAreExact(ref, desired, seen, init);
      assert fields == init + [last];
      var before := MismatchesIn(ref, desired, seen, init);
      if Mismatched(ref, desired, seen, last) {
        assert MismatchesIn(ref, desired, seen, fields) == before + [Describe(desired, seen, last)];
        assert Describe(desired, seen, last) in MismatchesIn(ref, desired, seen, fields);
        assert forall d :: d in before ==> d in MismatchesIn(ref, desired, seen, fields);
      } else {
        assert MismatchesIn(ref, desired, seen, fields) == before;
      }
    }
  }

  function Correctable(fields: seq<FieldDiff>): seq<FieldDiff> {
    if fields == [] then []
    else Correctable(fields[..|fields| - 1]) + if fields[|fields| - 1].uncorrectable then [] else [fields[|fields| - 1]]
  }

  function Uncorrectable(fields: seq<FieldDiff>): seq<FieldDiff> {
    if fields == [] then []
    else Uncorrectable(fields[..|fields| - 1]) + if fields[|fields| - 1].uncorrectable then [fields[|fields| - 1]] else []
  }

  lemma {:induction false} ViewMembers(fields: seq<FieldDiff>)
    ensures forall d :: d in Correctable(fields) <==> d in fields && !d.uncorrectable
    ensures forall d :: d in Uncorrectable(fields) <==> d in fields && d.uncorrectable
  {
    if fields != [] {
      ViewMembers(fields[..|fields| - 1]);
      assert fields == fields[..|fields| - 1] + [fields[|fields| - 1]];
    }
  }

  /** A comparison is empty exactly when nothing is mismatched, and the same holds for what could be corrected. */
  lemma {:induction false} ComparisonTells(ref: Ref, desired: Value, seen: Observation)
    ensures CompareSpec(ref, desired, seen).exists_ == seen.exists_
    ensures CompareSpec(ref, desired, seen).fields == [] <==> forall f :: !Mismatched(ref, desired, seen, f)
    ensures Correctable(CompareSpec(ref, desired, seen).fields) == [] <==>
      forall f :: Mismatched(ref, desired, seen, f) ==> !seen.CanCorrect(f)
  {
    var found, declared := CompareSpec(ref, desired, seen).fields, DeclaredFields(desired);
    if desired.Map? {
      MismatchesAreExact(ref, desired, seen, declared);
      ViewMembers(found);
      if found != [] {
        assert found[0] in found;
        assert Mismatched(ref, desired, seen, found[0].field);
      }
      if Correctable(found) != [] {
        var d := Correctable(found)[0];
        assert d in Correctable(found);
        assert Mismatched(ref, desired, seen, d.field) && d == Describe(desired, seen, d.field);
      }
      forall f | Mismatched(ref, desired, seen, f) && seen.CanCorrect(f) ensures Correctable(found) != [] {
        assert f in declared;
        var d :| d in found && d.field == f;
        assert d == Describe(desired, seen, f);
        assert d in Correctable(found);
      }
    }
  }

  /** The two views divide the differences between them. */
  lemma {:induction false} ViewsDivide(fields: seq<FieldDiff>)
    ensures |Correctable(fields)| + |Uncorrectable(fields)| == |fields|
    ensures multiset(Correctable(fields)) + multiset(Uncorrectable(fields)) == multiset(fields)
  {
    if fields != [] {
      var init, last := fields[..|fields| - 1], fields[|fields| - 1];
      ViewsDivide(init);
      assert fields == init + [last];
    }
  }
}
