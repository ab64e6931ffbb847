/** A reader of the bytes a manifest is addressed by, on its own terms. */
module DigestReader {
  import opened Text
  import opened Document
  import opened Sorting
  import opened Graph
  import opened Canonical
  import opened Reader
  import opened Digest

  /** What one line says. */
  datatype Record = Record(ref: Ref, desired: Tree, requirements: seq<Ref>, restartOn: seq<Ref>, reloadOn: seq<Ref>)

  /** Everything up to the first closing bracket is a reference. */
  function ReadRef(s: string): (r: Option<(Ref, string)>)
    ensures r.Some? ==> |r.value.1| < |s|
  {
    FoundThere(s, ']');
    match Find(s, ']')
    case None => None
    case Some(end) =>
      match ParseReference(s[..end + 1])
      case Some(ref) => Some((ref, s[end + 1..]))
      case None => None
  }

  /** References between commas, none before the one it follows, and the closing bracket. */
  function ReadRefs(s: string, last: Option<Ref>): (r: Option<(seq<Ref>, string)>)
    ensures r.Some? ==> |r.value.1| < |s|
    decreases |s|
  {
    match ReadRef(s)
    case None => None
    case Some((ref, left)) =>
      if left == "" || (last.Some? && Before(ref, last.value)) then None
      else if left[0] == ']' then Some(([ref], left[1..]))
      else if left[0] == ',' then
        match ReadRefs(left[1..], Some(ref))
        case Some((more, rest)) => Some(([ref] + more, rest))
        case None => None
      else None
  }

  /** A named list in brackets after a space. One that is not there is empty. */
  function ReadSection(name: string, s: string): (r: Option<(seq<Ref>, string)>)
    ensures r.Some? ==> |r.value.1| <= |s|
  {
    var head := " " + name + "[";
    if StartsWith(s, head) then ReadRefs(s[|head|..], None) else Some(([], s))
  }

  function ReadLine(s: string): (r: Option<(Record, string)>)
    ensures r.Some? ==> |r.value.1| < |s|
  {
    match ReadRef(s)
    case None => None
    case Some((ref, afterRef)) =>
      if afterRef == "" || afterRef[0] != ' ' then None
      else
        match Read(afterRef[1..])
        case None => None
        case Some((desired, afterValue)) => ReadTail(ref, desired, afterValue)
  }

  function ReadTail(ref: Ref, desired: Tree, s: string): (r: Option<(Record, string)>)
    ensures r.Some? ==> |r.value.1| < |s|
  {
    match ReadSection("requires", s)
    case None => None
    case Some((requirements, s1)) =>
      match ReadSection("restartOn", s1)
      case None => None
      case Some((restartOn, s2)) =>
        match ReadSection("reloadOn", s2)
        case None => None
        case Some((reloadOn, s3)) =>
          if s3 == "" || s3[0] != '\n' then None
          else Some((Record(ref, desired, requirements, restartOn, reloadOn), s3[1..]))
  }

  function ReadInput(s: string): Option<seq<Record>>
    decreases |s|
  {
    if s == "" then Some([])
    else
      match ReadLine(s)
      case None => None
      case Some((first, rest)) =>
        match ReadInput(rest)
        case Some(more) => Some([first] + more)
        case None => None
  }

  function Recorded(r: Resource): Record {
    Record(r.ref, Erase(r.desired), Arranged(r.requirements), Arranged(r.restartOn), Arranged(r.reloadOn))
  }

  function AllRecorded(m: seq<Resource>): seq<Record> {
    seq(|m|, i requires 0 <= i < |m| => Recorded(m[i]))
  }

  lemma {:induction false} RefReads(ref: Ref, t: string)
    ensures ReadRef(ref.ToString() + t) == Some((ref, t))
  {
    var inner, s := ref.typ + "[" + ref.name, ref.ToString() + t;
    TypeHasNoClosing(ref);
    assert !NameChar(']');
    assert s == inner + [']'] + t;
    FindAfter(inner, ']', t);
    assert s[..|inner| + 1] == ref.ToString() && s[|inner| + 1..] == t;
    ParsesItsText(ref.ToString(), ref);
  }

  lemma TypeHasNoClosing(ref: Ref)
    ensures ']' !in ref.typ
  {
    assert ref.typ in RESOURCE_TYPES;
  }

  lemma {:induction false} RefsRead(refs: seq<Ref>, last: Option<Ref>, t: string)
    requires refs != [] && Sorted(Before, refs) && (last.Some? ==> !Before(refs[0], last.value))
    ensures ReadRefs(RefsBody(refs) + t, last) == Some((refs, t))
  {
    hide ReadRef;
    hide Before;
    var rest := if |refs| == 1 then "]" else "," + RefsBody(refs[1..]);
    assert RefsBody(refs) == refs[0].ToString() + rest;
    Regroup(refs[0].ToString(), rest, t);
    RefReads(refs[0], rest + t);
    if |refs| == 1 {
      OffFront(']', t);
      assert refs == [refs[0]];
    } else {
      Regroup(",", RefsBody(refs[1..]), t);
      OffFront(',', RefsBody(refs[1..]) + t);
      RefsRead(refs[1..], Some(refs[0]), t);
      assert refs == [refs[0]] + refs[1..];
    }
  }

  lemma ArrangedIsSorted(refs: seq<Ref>)
    ensures Sorted(Before, Arranged(refs)) && multiset(Arranged(refs)) == multiset(refs)
    ensures refs == [] ==> Arranged(refs) == []
  {
    BeforeRanks();
    SortBySorts(Before, refs);
  }

  /** A section is read back sorted, where what follows does not look like it. */
  lemma {:induction false} SectionReads(name: string, refs: seq<Ref>, t: string)
    requires |name| >= 3 && NotSection(t, name[2])
    ensures ReadSection(name, RefSection(name, refs) + t) == Some((Arranged(refs), t))
  {
    hide ReadRefs;
    hide RefsBody;
    hide Arranged;
    var head := " " + name + "[";
    ArrangedIsSorted(refs);
    if refs == [] {
      NotItsHead(name, t);
      assert "" + t == t;
    } else {
      var body := RefsBody(Arranged(refs));
      SectionParts(name, refs, "");
      assert "" + " " + name + "[" == head && "" + RefSection(name, refs) == RefSection(name, refs);
      Regroup(head, body, t);
      assert (head + (body + t))[..|head|] == head && (head + (body + t))[|head|..] == body + t;
      RefsRead(Arranged(refs), None, t);
    }
  }

  lemma NotItsHead(name: string, t: string)
    requires |name| >= 3 && NotSection(t, name[2])
    ensures !StartsWith(t, " " + name + "[")
  {
    var head := " " + name + "[";
    assert head[0] == ' ' && head[3] == name[2];
    if |head| <= |t| {
      assert t[..|head|][0] == t[0] && t[..|head|][3] == t[3];
    }
  }

  lemma {:induction false} TailReads(r: Resource, t: string)
    ensures ReadTail(r.ref, Erase(r.desired), Tail(r) + t) == Some((Recorded(r), t))
  {
    hide ReadSection;
    hide RefSection;
    var reload := RefSection("reloadOn", r.reloadOn) + "\n";
    var restart := RefSection("restartOn", r.restartOn);
    Regroup(RefSection("requires", r.requirements), restart + reload, t);
    Regroup(restart, reload, t);
    Regroup(RefSection("reloadOn", r.reloadOn), "\n", t);
    EndingsTell(r, t);
    SectionReads("requires", r.requirements, restart + (reload + t));
    SectionReads("restartOn", r.restartOn, reload + t);
    SectionReads("reloadOn", r.reloadOn, "\n" + t);
    OffFront('\n', t);
  }

  lemma {:induction false} LineReads(r: Resource, t: string)
    ensures ReadLine(Line(r) + t) == Some((Recorded(r), t))
  {
    hide Read;
    hide ReadRef;
    hide ReadTail;
    hide Encode;
    hide Tail;
    hide Recorded;
    var x := Encode(r.desired) + Tail(r);
    Regroup(r.ref.ToString(), " " + x, t);
    Regroup(" ", x, t);
    Regroup(Encode(r.desired), Tail(r), t);
    RefReads(r.ref, " " + (x + t));
    OffFront(' ', x + t);
    EncodingReads(r.desired, Tail(r) + t);
    TailReads(r, t);
  }

  /** The bytes say what the manifest says: each resource in turn, its tree, and its dependencies sorted under their names. */
  lemma {:induction false} InputReads(m: seq<Resource>)
    ensures ReadInput(Input(m)) == Some(AllRecorded(m))
  {
    hide ReadLine;
    hide Line;
    hide Recorded;
    if m == [] {
      assert AllRecorded(m) == [];
    } else {
      LineNotEmpty(m[0], Input(m[1..]));
      LineReads(m[0], Input(m[1..]));
      InputReads(m[1..]);
      assert AllRecorded(m) == [Recorded(m[0])] + AllRecorded(m[1..]);
    }
  }
}
