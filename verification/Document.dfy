/** Resource references and desired-state trees. */
module Document {
  import opened Text

  // References

  const RESOURCE_TYPES: set<string> :=
    {"Package", "File", "Directory", "Symlink", "Service", "User", "Group", "Sysctl", "Repository"}

  predicate NameChar(c: char) {
    'a' <= c <= 'z' || 'A' <= c <= 'Z' || '0' <= c <= '9' || c in ".-_+"
  }

  predicate ValidName(s: string) {
    0 < |s| <= 256 && forall i :: 0 <= i < |s| ==> NameChar(s[i])
  }

  datatype RawReference = Reference(typ: string, name: string) {
    predicate Valid() {
      typ in RESOURCE_TYPES && ValidName(name)
    }

    function ToString(): string {
      typ + "[" + name + "]"
    }
  }

  /** A reference as parsing lets it through. */
  type Ref = r: RawReference | r.Valid() witness Reference("File", "a")

  predicate Before(a: Ref, b: Ref) {
    Less(a.ToString(), b.ToString())
  }

  lemma TypeHasNoBracket(r: Ref)
    ensures forall i :: 0 <= i < |r.typ| ==> r.typ[i] != '['
  {
    assert r.typ in RESOURCE_TYPES;
  }

  /** A printed reference says where it ends, so it can be followed by anything. */
  lemma ReferencePrefix(a: Ref, b: Ref, s: string, t: string)
    requires a.ToString() + s == b.ToString() + t
    ensures a == b && s == t
  {
    TypeHasNoBracket(a);
    TypeHasNoBracket(b);
    var whole := a.ToString() + s;
    assert whole[|a.typ|] == '[' && whole[|b.typ|] == '[';
    assert forall i :: 0 <= i < |a.typ| ==> whole[i] == a.typ[i];
    assert forall i :: 0 <= i < |b.typ| ==> whole[i] == b.typ[i];
    assert |a.typ| == |b.typ|;
    assert a.typ == whole[..|a.typ|] == b.typ;
    var start := |a.typ| + 1;
    assert forall i :: 0 <= i < |a.name| ==> whole[start + i] == a.name[i];
    assert forall i :: 0 <= i < |b.name| ==> whole[start + i] == b.name[i];
    assert whole[start + |a.name|] == ']' && whole[start + |b.name|] == ']';
    assert !NameChar(']');
    assert |a.name| == |b.name|;
    assert a.name == whole[start..start + |a.name|] == b.name;
    assert s == whole[|a.ToString()|..] == t;
  }

  /** The first place a character stands. */
  function Find(s: string, c: char): Option<nat> {
    if s == "" then None
    else if s[0] == c then Some(0)
    else
      match Find(s[1..], c)
      case Some(at) => Some(at + 1)
      case None => None
  }

  lemma {:induction false} FindAfter(a: string, c: char, b: string)
    requires c !in a
    ensures Find(a + [c] + b, c) == Some(|a|)
  {
    if a == "" {
      assert a + [c] + b == [c] + b;
    } else {
      assert (a + [c] + b)[1..] == a[1..] + [c] + b;
      FindAfter(a[1..], c, b);
    }
  }

  lemma {:induction false} FoundThere(s: string, c: char)
    ensures Find(s, c).Some? ==> Find(s, c).value < |s| && s[Find(s, c).value] == c
  {
    if s != "" {
      FoundThere(s[1..], c);
    }
  }

  function ParseReference(s: string): Option<Ref> {
    var open := Find(s, '[');
    FoundThere(s, '[');
    if open.None? || open.value == 0 || !EndsWith(s, "]") || |s| < open.value + 2 then None
    else
      var raw := Reference(s[..open.value], s[open.value + 1..|s| - 1]);
      if raw.Valid() then Some(raw) else None
  }

  lemma Bracketed(s: string, open: nat)
    requires open + 2 <= |s| && s[open] == '[' && EndsWith(s, "]")
    ensures s == s[..open] + "[" + s[open + 1..|s| - 1] + "]"
  {
    assert s[|s| - 1..][0] == s[|s| - 1] == ']';
  }

  /** A reference is parsed from exactly the text it prints as. */
  lemma {:induction false} ParsesItsText(s: string, r: Ref)
    ensures ParseReference(s) == Some(r) <==> s == r.ToString()
  {
    FoundThere(s, '[');
    if ParseReference(s) == Some(r) {
      var open := Find(s, '[').value;
      Bracketed(s, open);
    }
    var text := r.ToString();
    TypeHasNoBracket(r);
    FindAfter(r.typ, '[', r.name + "]");
    FoundThere(text, '[');
    assert text == r.typ + ['['] + (r.name + "]");
    assert text[..|r.typ|] == r.typ && text[|r.typ| + 1..|text| - 1] == r.name && text[|text| - 1..] == "]";
    assert |r.typ| > 0;
  }

  lemma BeforeTotal(a: Ref, b: Ref)
    ensures Before(a, b) || Before(b, a) || a == b
    ensures !(Before(a, b) && Before(b, a))
    ensures !Before(a, a)
  {
    LessTotal(a.ToString(), b.ToString());
    LessTotal(a.ToString(), a.ToString());
    if a.ToString() == b.ToString() {
      ReferencePrefix(a, b, "", "");
    }
  }

  // Desired-state trees

  /** Whose value was replaced, and how it read. */
  datatype Origin = Origin(layer: string, text: string)

  datatype Value =
    | Scalar(text: string, quoted: bool, from: string, displaced: seq<Origin>)
    | List(items: seq<Value>, from: string, displaced: seq<Origin>)
    | Map(fields: map<string, Value>, from: string, displaced: seq<Origin>)

  /** What a value declares, with provenance and quoting forgotten. */
  datatype Tree =
    | Leaf(text: string)
    | Items(items: seq<Tree>)
    | Fields(fields: map<string, Tree>)

  function Erase(v: Value): Tree {
    match v
    case Scalar(text, _, _, _) => Leaf(text)
    case List(items, _, _) => Items(seq(|items|, i requires 0 <= i < |items| => Erase(items[i])))
    case Map(fields, _, _) => Fields(map k | k in fields :: Erase(fields[k]))
  }

  /** A one-part Lookup: every path the engine itself looks up is a single field name. */
  function Lookup(v: Value, field: string): Option<Value> {
    if v.Map? && field in v.fields then Some(v.fields[field]) else None
  }

  /** Some types name their target in a field. None stands for those that use the resource name. */
  function TargetIdentityField(typ: string): Option<string> {
    if typ in {"File", "Directory", "Symlink"} then Some("path")
    else if typ == "Repository" then Some("id")
    else None
  }

  function TargetIdentity(ref: Ref, desired: Value): Option<string> {
    match TargetIdentityField(ref.typ)
    case None => Some(ref.name)
    case Some(field) =>
      match Lookup(desired, field)
      case Some(Scalar(text, _, _, _)) => if text == "" then None else Some(text)
      case _ => None
  }

  /** A file, directory or link is its path, a repository its id, and anything else its name. */
  lemma TargetSays(ref: Ref, desired: Value, target: string)
    ensures ref.typ in {"File", "Directory", "Symlink"} ==>
      (TargetIdentity(ref, desired) == Some(target) <==> target != "" && Sets(desired, "path", target))
    ensures ref.typ == "Repository" ==>
      (TargetIdentity(ref, desired) == Some(target) <==> target != "" && Sets(desired, "id", target))
    ensures ref.typ !in {"File", "Directory", "Symlink", "Repository"} ==> TargetIdentity(ref, desired) == Some(ref.name)
  {
  }

  predicate Sets(desired: Value, field: string, text: string) {
    desired.Map? && field in desired.fields && desired.fields[field].Scalar? && desired.fields[field].text == text
  }
}
