/** Merging one contribution into what earlier layers left, with the conflicts this finds. */
module Merge {
  import opened Text
  import opened Document
  import opened Canonical

  datatype Contribution = Contribution(layer: string, precedence: int)

  /** A field, and the two contributions that clash over it. */
  datatype Conflict = Conflict(field: string, a: Contribution, b: Contribution, aText: string, bText: string)

  type Precedences = map<string, int>

  const EARLIER := "an earlier layer"

  predicate SameValue(a: Value, b: Value) {
    Render(a) == Render(b)
  }

  /** Scalars are compared by their text, anything else by its encoding. A scalar may be spelt like one. */
  lemma ComparedBy(a: Value, b: Value)
    ensures a.Scalar? && b.Scalar? ==> (SameValue(a, b) <==> a.text == b.text)
    ensures a.Scalar? && !b.Scalar? ==> (SameValue(a, b) <==> a.text == Encode(b))
    ensures !a.Scalar? && b.Scalar? ==> (SameValue(a, b) <==> Encode(a) == b.text)
    ensures !a.Scalar? && !b.Scalar? ==> (SameValue(a, b) <==> Erase(a) == Erase(b))
  {
    CanonicalTells(a, b);
  }

  /** Who a value is credited to. None, as for every map a fold holds, means nobody can clash with it. */
  function CreditedTo(precedence: Precedences, v: Value): Option<Contribution> {
    if v.from != "" && v.from in precedence then Some(Contribution(v.from, precedence[v.from])) else None
  }

  predicate Clashes(precedence: Precedences, held: Value, from: Contribution) {
    CreditedTo(precedence, held).Some? && CreditedTo(precedence, held).value.precedence == from.precedence
  }

  function JoinField(prefix: string, key: string): string {
    if prefix == "" then key else prefix + "." + key
  }

  function Stamp(v: Value, layer: string): Value {
    match v
    case Map(fields, from, displaced) => Map(map k | k in fields :: Stamp(fields[k], layer), from, displaced)
    case List(items, _, displaced) => List(items, layer, displaced)
    case Scalar(text, quoted, _, displaced) => Scalar(text, quoted, layer, displaced)
  }

  function Displace(held: Value, incoming: Value, from: Contribution): Value {
    Stamp(incoming, from.layer).(
      displaced := [Origin(if held.from == "" then EARLIER else held.from, Render(held))] + held.displaced)
  }

  // What one merge produces

  function Merged(precedence: Precedences, held: Value, incoming: Value, from: Contribution): Value
    decreases incoming
  {
    if held.Map? && incoming.Map? then
      held.(fields := map k | k in held.fields.Keys + incoming.fields.Keys :: MergedField(precedence, held, incoming, from, k))
    else if SameValue(held, incoming) then held
    else if Clashes(precedence, held, from) then held
    else Displace(held, incoming, from)
  }

  function MergedField(precedence: Precedences, held: Value, incoming: Value, from: Contribution, key: string): Value
    requires held.Map? && incoming.Map? && (key in held.fields || key in incoming.fields)
    decreases incoming, 0
  {
    if key !in incoming.fields then held.fields[key]
    else if key !in held.fields then Stamp(incoming.fields[key], from.layer)
    else Merged(precedence, held.fields[key], incoming.fields[key], from)
  }

  /** The conflicts one merge records. */
  ghost predicate ConflictIn(precedence: Precedences, field: string, held: Value, incoming: Value, from: Contribution, c: Conflict)
    decreases incoming
  {
    if held.Map? && incoming.Map? then
      exists k :: k in held.fields && k in incoming.fields
        && ConflictIn(precedence, JoinField(field, k), held.fields[k], incoming.fields[k], from, c)
    else
      && !SameValue(held, incoming) && Clashes(precedence, held, from)
      && c == Conflict(field, CreditedTo(precedence, held).value, from, Render(held), Render(incoming))
  }

  /** No field is set differently by a layer of the precedence already credited with it. */
  predicate Clean(precedence: Precedences, held: Value, incoming: Value, from: Contribution)
    decreases incoming
  {
    if held.Map? && incoming.Map? then
      forall k :: k in held.fields && k in incoming.fields ==> Clean(precedence, held.fields[k], incoming.fields[k], from)
    else SameValue(held, incoming) || !Clashes(precedence, held, from)
  }

  lemma {:induction false} CleanMeansNoConflict(precedence: Precedences, field: string, held: Value, incoming: Value, from: Contribution)
    ensures Clean(precedence, held, incoming, from) <==>
      forall c :: !ConflictIn(precedence, field, held, incoming, from, c)
    decreases incoming
  {
    if held.Map? && incoming.Map? {
      forall k | k in held.fields && k in incoming.fields
        ensures Clean(precedence, held.fields[k], incoming.fields[k], from) <==>
          forall c :: !ConflictIn(precedence, JoinField(field, k), held.fields[k], incoming.fields[k], from, c)
      {
        CleanMeansNoConflict(precedence, JoinField(field, k), held.fields[k], incoming.fields[k], from);
      }
      if k, c :|
        && k in held.fields && k in incoming.fields
        && ConflictIn(precedence, JoinField(field, k), held.fields[k], incoming.fields[k], from, c)
      {
        assert ConflictIn(precedence, field, held, incoming, from, c);
      }
    } else if !Clean(precedence, held, incoming, from) {
      var c := Conflict(field, CreditedTo(precedence, held).value, from, Render(held), Render(incoming));
      assert ConflictIn(precedence, field, held, incoming, from, c);
    }
  }

  class Merger {
    const precedence: Precedences
    var conflicts: seq<Conflict>

    constructor (precedence: Precedences)
      ensures this.precedence == precedence && conflicts == []
    {
      this.precedence := precedence;
      conflicts := [];
    }

    /** The conflicts found since there were n of them are the ones this merge has to find. */
    ghost predicate Recorded(before: seq<Conflict>, field: string, held: Value, incoming: Value, from: Contribution)
      reads this
    {
      && before <= conflicts
      && forall c :: c in conflicts[|before|..] <==> ConflictIn(precedence, field, held, incoming, from, c)
    }

    /** Descends while both sides are maps. Where it stops, one of the two values stays. */
    method Merge(field: string, held: Value, incoming: Value, from: Contribution) returns (out: Value)
      modifies this`conflicts
      ensures out == Merged(precedence, held, incoming, from)
      ensures Recorded(old(conflicts), field, held, incoming, from)
      decreases incoming
    {
      if held.Map? && incoming.Map? {
        out := MergeFields(field, held, incoming, from);
        return;
      }
      if SameValue(held, incoming) {
        return held;
      }
      var previous := CreditedTo(precedence, held);
      if previous.Some? && previous.value.precedence == from.precedence {
        conflicts := conflicts + [Conflict(field, previous.value, from, Render(held), Render(incoming))];
        return held;
      }
      return Displace(held, incoming, from);
    }

    method MergeFields(field: string, held: Value, incoming: Value, from: Contribution) returns (out: Value)
      requires held.Map? && incoming.Map?
      modifies this`conflicts
      ensures out == Merged(precedence, held, incoming, from)
      ensures Recorded(old(conflicts), field, held, incoming, from)
      decreases incoming, 1
    {
      hide *;
      var keys := SortedKeys(incoming.fields.Keys);
      var fields := held.fields;
      ghost var start, more: seq<Conflict> := conflicts, [];
      NothingMerged(precedence, field, held, incoming, from);
      for i := 0 to |keys|
        invariant FieldsMerged(precedence, held, incoming, from, keys[..i], fields)
        invariant conflicts == start + more
        invariant forall c :: c in more <==> ConflictAmong(precedence, field, held, incoming, from, keys[..i], c)
      {
        ghost var before := conflicts;
        var child := MergeField(field, held, incoming, from, keys[i]);
        FieldsGrow(precedence, held, incoming, from, keys, i, fields);
        AmongGrows(precedence, field, held, incoming, from, keys, i);
        fields := fields[keys[i] := child];
        more := more + conflicts[|before|..];
      }
      assert keys[..|keys|] == keys;
      assert more == conflicts[|start|..];
      out := held.(fields := fields);
      MergedWhenDone(precedence, held, incoming, from, keys, fields);
      AmongAll(precedence, field, held, incoming, from, keys);
      RecordedAll(start, field, held, incoming, from);
    }

    lemma RecordedAll(start: seq<Conflict>, field: string, held: Value, incoming: Value, from: Contribution)
      requires start <= conflicts
      requires forall c :: c in conflicts[|start|..] <==> ConflictIn(precedence, field, held, incoming, from, c)
      ensures Recorded(start, field, held, incoming, from)
    {
    }

    method MergeField(field: string, held: Value, incoming: Value, from: Contribution, key: string) returns (child: Value)
      requires held.Map? && incoming.Map? && key in incoming.fields
      modifies this`conflicts
      ensures child == MergedField(precedence, held, incoming, from, key)
      ensures old(conflicts) <= conflicts
      ensures forall c :: c in conflicts[|old(conflicts)|..] <==>
        key in held.fields && ConflictIn(precedence, JoinField(field, key), held.fields[key], incoming.fields[key], from, c)
      decreases incoming, 0
    {
      if key !in held.fields {
        return Stamp(incoming.fields[key], from.layer);
      }
      child := Merge(JoinField(field, key), held.fields[key], incoming.fields[key], from);
    }
  }

  lemma KeysDistinct(keys: seq<string>, i: nat)
    requires Ascending(keys) && i < |keys|
    ensures keys[i] !in keys[..i]
  {
    LessTotal(keys[i], keys[i]);
  }

  ghost predicate FieldsMerged(precedence: Precedences, held: Value, incoming: Value, from: Contribution,
                               done: seq<string>, fields: map<string, Value>)
    requires held.Map? && incoming.Map?
  {
    && (forall k :: k in fields <==> k in held.fields || (k in done && k in incoming.fields))
    && (forall k :: k in fields ==>
      fields[k] == if k in done then MergedField(precedence, held, incoming, from, k) else held.fields[k])
  }

  lemma MergedWhenDone(precedence: Precedences, held: Value, incoming: Value, from: Contribution,
                       keys: seq<string>, fields: map<string, Value>)
    requires held.Map? && incoming.Map? && forall k :: k in keys <==> k in incoming.fields
    requires FieldsMerged(precedence, held, incoming, from, keys, fields)
    ensures Merged(precedence, held, incoming, from) == held.(fields := fields)
  {
    assert Merged(precedence, held, incoming, from).fields == fields;
  }

  ghost predicate ConflictAmong(precedence: Precedences, field: string, held: Value, incoming: Value, from: Contribution,
                                keys: seq<string>, c: Conflict)
    requires held.Map? && incoming.Map?
  {
    exists k :: k in keys && k in held.fields && k in incoming.fields
      && ConflictIn(precedence, JoinField(field, k), held.fields[k], incoming.fields[k], from, c)
  }

  lemma NothingMerged(precedence: Precedences, field: string, held: Value, incoming: Value, from: Contribution)
    requires held.Map? && incoming.Map?
    ensures FieldsMerged(precedence, held, incoming, from, [], held.fields)
    ensures forall c :: !ConflictAmong(precedence, field, held, incoming, from, [], c)
  {
  }

  lemma FieldsGrow(precedence: Precedences, held: Value, incoming: Value, from: Contribution,
                   keys: seq<string>, i: nat, fields: map<string, Value>)
    requires held.Map? && incoming.Map? && i < |keys| && keys[i] in incoming.fields && Ascending(keys)
    requires FieldsMerged(precedence, held, incoming, from, keys[..i], fields)
    ensures FieldsMerged(precedence, held, incoming, from, keys[..i + 1],
                         fields[keys[i] := MergedField(precedence, held, incoming, from, keys[i])])
  {
    hide MergedField;
    KeysDistinct(keys, i);
    assert keys[..i + 1] == keys[..i] + [keys[i]];
  }

  lemma AmongGrows(precedence: Precedences, field: string, held: Value, incoming: Value, from: Contribution, keys: seq<string>, i: nat)
    requires held.Map? && incoming.Map? && i < |keys| && keys[i] in incoming.fields
    ensures forall c :: ConflictAmong(precedence, field, held, incoming, from, keys[..i + 1], c) <==>
      || ConflictAmong(precedence, field, held, incoming, from, keys[..i], c)
      || (keys[i] in held.fields
          && ConflictIn(precedence, JoinField(field, keys[i]), held.fields[keys[i]], incoming.fields[keys[i]], from, c))
  {
    assert keys[..i + 1] == keys[..i] + [keys[i]];
  }

  lemma AmongAll(precedence: Precedences, field: string, held: Value, incoming: Value, from: Contribution, keys: seq<string>)
    requires held.Map? && incoming.Map? && forall k :: k in keys <==> k in incoming.fields
    ensures forall c :: ConflictAmong(precedence, field, held, incoming, from, keys, c) <==>
      ConflictIn(precedence, field, held, incoming, from, c)
  {
  }
}
