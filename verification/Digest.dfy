/** The bytes a manifest is addressed by, and what two equal addresses mean. */
module Digest {
  import opened Document
  import opened Sorting
  import opened Graph
  import opened Canonical

  function RefsBody(refs: seq<Ref>): string
    requires refs != []
  {
    refs[0].ToString() + if |refs| == 1 then "]" else "," + RefsBody(refs[1..])
  }

  /** Sorted first, so the layer that mentioned a dependency first leaves no trace. */
  function RefSection(name: string, refs: seq<Ref>): string {
    if refs == [] then "" else " " + (name + ("[" + RefsBody(Arranged(refs))))
  }

  function Arranged(refs: seq<Ref>): (sorted: seq<Ref>)
    ensures multiset(sorted) == multiset(refs)
    ensures refs != [] ==> sorted != []
  {
    assert refs != [] ==> refs[0] in multiset(refs);
    SortBy(Before, refs)
  }

  function Tail(r: Resource): string {
    RefSection("requires", r.requirements) + (RefSection("restartOn", r.restartOn) + (RefSection("reloadOn", r.reloadOn) + "\n"))
  }

  function Line(r: Resource): string {
    r.ref.ToString() + (" " + (Encode(r.desired) + Tail(r)))
  }

  function Input(m: seq<Resource>): string {
    if m == [] then "" else Line(m[0]) + Input(m[1..])
  }

  // Writing it

  method WriteRefs(b: Builder, name: string, refs: seq<Ref>)
    modifies b
    ensures b.text == old(b.text) + RefSection(name, refs)
  {
    hide *;
    if refs == [] {
      NoSection(name, b.text);
      return;
    }
    var sorted := Arranged(refs);
    ghost var start := b.text;
    b.Write(" ");
    b.Write(name);
    b.Write("[");
    SectionParts(name, refs, start);
    ghost var head := b.text;
    RefsLeftEnds(sorted, head);
    for i := 0 to |sorted|
      invariant b.text + RefsLeft(sorted, i) == head + RefsBody(sorted)
    {
      RefsStep(sorted, i, b.text);
      b.WriteSeparator(i);
      b.Write(sorted[i].ToString());
    }
    b.Write("]");
  }

  ghost function RefsLeft(refs: seq<Ref>, i: nat): string
    requires i <= |refs| && refs != []
  {
    if i == |refs| then "]" else Separator(i) + RefsBody(refs[i..])
  }

  lemma NoSection(name: string, done: string)
    ensures done + RefSection(name, []) == done
  {
  }

  lemma SectionParts(name: string, refs: seq<Ref>, done: string)
    requires refs != []
    ensures done + RefSection(name, refs) == done + " " + name + "[" + RefsBody(Arranged(refs))
  {
    hide RefsBody;
    hide Arranged;
    Regroup(done, " ", name + ("[" + RefsBody(Arranged(refs))));
    Regroup(done + " ", name, "[" + RefsBody(Arranged(refs)));
    Regroup(done + " " + name, "[", RefsBody(Arranged(refs)));
  }

  lemma RefsLeftEnds(refs: seq<Ref>, done: string)
    requires refs != []
    ensures done + RefsLeft(refs, 0) == done + RefsBody(refs) && RefsLeft(refs, |refs|) == "]"
  {
    hide RefsBody;
    assert refs[0..] == refs;
    assert Separator(0) + RefsBody(refs) == RefsBody(refs);
  }

  lemma RefsStep(refs: seq<Ref>, i: nat, done: string)
    requires i < |refs|
    ensures done + RefsLeft(refs, i) == done + Separator(i) + refs[i].ToString() + RefsLeft(refs, i + 1)
  {
    assert refs[i..][1..] == refs[i + 1..];
    assert RefsBody(refs[i..]) == refs[i].ToString() + RefsLeft(refs, i + 1);
    Chain(done, Separator(i), refs[i].ToString(), RefsLeft(refs, i + 1));
  }

  method WriteLine(b: Builder, r: Resource)
    modifies b
    ensures b.text == old(b.text) + Line(r)
  {
    hide *;
    LineParts(r, b.text);
    b.Write(r.ref.ToString());
    b.Write(" ");
    b.WriteCanonical(r.desired);
    WriteRefs(b, "requires", r.requirements);
    WriteRefs(b, "restartOn", r.restartOn);
    WriteRefs(b, "reloadOn", r.reloadOn);
    b.Write("\n");
  }

  lemma LineParts(r: Resource, done: string)
    ensures done + Line(r) == done + r.ref.ToString() + " " + Encode(r.desired)
      + RefSection("requires", r.requirements) + RefSection("restartOn", r.restartOn) + RefSection("reloadOn", r.reloadOn) + "\n"
  {
    hide Encode;
    hide RefSection;
    var a, c, tail := r.ref.ToString(), Encode(r.desired), Tail(r);
    var x, y, z := RefSection("requires", r.requirements), RefSection("restartOn", r.restartOn), RefSection("reloadOn", r.reloadOn);
    Regroup(done, a, " " + (c + tail));
    Regroup(done + a, " ", c + tail);
    Regroup(done + a + " ", c, tail);
    Regroup(done + a + " " + c, x, y + (z + "\n"));
    Regroup(done + a + " " + c + x, y, z + "\n");
    Regroup(done + a + " " + c + x + y, z, "\n");
  }

  method Write(m: seq<Resource>) returns (input: string)
    ensures input == Input(m)
  {
    var b := new Builder();
    for i := 0 to |m|
      invariant b.text + Input(m[i..]) == Input(m)
    {
      assert m[i..][1..] == m[i + 1..];
      Regroup(b.text, Line(m[i]), Input(m[i + 1..]));
      WriteLine(b, m[i]);
    }
    assert b.text + "" == b.text;
    input := b.text;
  }

  // Reading it back

  ghost predicate SameInstructions(a: Resource, b: Resource) {
    && a.ref == b.ref
    && Erase(a.desired) == Erase(b.desired)
    && multiset(a.requirements) == multiset(b.requirements)
    && multiset(a.restartOn) == multiset(b.restartOn)
    && multiset(a.reloadOn) == multiset(b.reloadOn)
  }

  lemma {:induction false} RefsPrefix(a: seq<Ref>, b: seq<Ref>, s: string, t: string)
    requires a != [] && b != [] && RefsBody(a) + s == RefsBody(b) + t
    ensures a == b && s == t
  {
    var more, more' := |a| > 1, |b| > 1;
    var rest, rest' := if more then RefsBody(a[1..]) else "", if more' then RefsBody(b[1..]) else "";
    var mark, mark' := if more then "," else "]", if more' then "," else "]";
    assert RefsBody(a) == a[0].ToString() + (mark + rest) && RefsBody(b) == b[0].ToString() + (mark' + rest');
    Regroup(a[0].ToString(), mark + rest, s);
    Regroup(b[0].ToString(), mark' + rest', t);
    ReferencePrefix(a[0], b[0], mark + rest + s, mark' + rest' + t);
    Unmark(mark, mark', rest, rest', s, t);
    if more {
      RefsPrefix(a[1..], b[1..], s, t);
    } else {
      assert "" + s == s && "" + t == t;
    }
    assert a == [a[0]] + a[1..] && b == [b[0]] + b[1..];
  }

  /** The text cannot be taken for the start of the section whose name has this third letter. */
  predicate NotSection(s: string, letter: char) {
    |s| <= 3 || s[0] != ' ' || s[3] != letter
  }

  lemma SectionShows(name: string, refs: seq<Ref>, s: string)
    requires |name| >= 3
    ensures refs != [] ==> !NotSection(RefSection(name, refs) + s, name[2])
    ensures forall c :: c != name[2] && NotSection(s, c) ==> NotSection(RefSection(name, refs) + s, c)
    ensures refs == [] ==> RefSection(name, refs) + s == s
  {
    if refs != [] {
      var section := RefSection(name, refs);
      assert section == " " + (name + ("[" + RefsBody(Arranged(refs))));
      assert (section + s)[0] == ' ' && (section + s)[3] == name[2];
    }
  }

  /** A section is there exactly when it has references, and then lists the same ones. */
  lemma SectionPrefix(name: string, a: seq<Ref>, b: seq<Ref>, s: string, t: string)
    requires |name| >= 3 && NotSection(s, name[2]) && NotSection(t, name[2])
    requires RefSection(name, a) + s == RefSection(name, b) + t
    ensures multiset(a) == multiset(b) && s == t
  {
    SectionShows(name, a, s);
    SectionShows(name, b, t);
    if a != [] {
      assert b != [];
      StripSection(name, a, b, s, t);
      RefsPrefix(Arranged(a), Arranged(b), s, t);
    }
  }

  lemma StripSection(name: string, a: seq<Ref>, b: seq<Ref>, s: string, t: string)
    requires a != [] && b != [] && RefSection(name, a) + s == RefSection(name, b) + t
    ensures RefsBody(Arranged(a)) + s == RefsBody(Arranged(b)) + t
  {
    hide *;
    var head := "" + " " + name + "[";
    SectionParts(name, a, "");
    SectionParts(name, b, "");
    assert "" + RefSection(name, a) == RefSection(name, a) && "" + RefSection(name, b) == RefSection(name, b);
    Regroup(head, RefsBody(Arranged(a)), s);
    Regroup(head, RefsBody(Arranged(b)), t);
    StripPrefix(head, RefsBody(Arranged(a)) + s, RefsBody(Arranged(b)) + t);
  }

  lemma StripPrefix(p: string, x: string, y: string)
    requires p + x == p + y
    ensures x == y
  {
    assert (p + x)[|p|..] == x && (p + y)[|p|..] == y;
  }

  lemma TailPrefix(a: Resource, b: Resource, s: string, t: string)
    requires Tail(a) + s == Tail(b) + t
    ensures multiset(a.requirements) == multiset(b.requirements)
    ensures multiset(a.restartOn) == multiset(b.restartOn) && multiset(a.reloadOn) == multiset(b.reloadOn)
    ensures s == t
  {
    hide RefSection;
    var reload, reload' := RefSection("reloadOn", a.reloadOn) + "\n", RefSection("reloadOn", b.reloadOn) + "\n";
    var restart, restart' := RefSection("restartOn", a.restartOn), RefSection("restartOn", b.restartOn);
    Regroup(RefSection("requires", a.requirements), restart + reload, s);
    Regroup(RefSection("requires", b.requirements), restart' + reload', t);
    Regroup(restart, reload, s);
    Regroup(restart', reload', t);
    Regroup(RefSection("reloadOn", a.reloadOn), "\n", s);
    Regroup(RefSection("reloadOn", b.reloadOn), "\n", t);
    EndingsTell(a, s);
    EndingsTell(b, t);
    SectionPrefix("requires", a.requirements, b.requirements, restart + (reload + s), restart' + (reload' + t));
    SectionPrefix("restartOn", a.restartOn, b.restartOn, reload + s, reload' + t);
    SectionPrefix("reloadOn", a.reloadOn, b.reloadOn, "\n" + s, "\n" + t);
    assert ("\n" + s)[1..] == s && ("\n" + t)[1..] == t;
  }

  /** What follows each section cannot be taken for it: the names differ in their third letter. */
  lemma EndingsTell(r: Resource, s: string)
    ensures
      var last := "\n" + s;
      var reload := RefSection("reloadOn", r.reloadOn) + "\n" + s;
      var restart := RefSection("restartOn", r.restartOn) + reload;
      NotSection(last, 'l') && NotSection(reload, 's') && NotSection(restart, 'q')
  {
    hide RefSection;
    var last := "\n" + s;
    assert last[0] == '\n';
    Regroup(RefSection("reloadOn", r.reloadOn), "\n", s);
    SectionShows("reloadOn", r.reloadOn, last);
    SectionShows("restartOn", r.restartOn, RefSection("reloadOn", r.reloadOn) + last);
  }

  lemma LinePrefix(a: Resource, b: Resource, s: string, t: string)
    requires Line(a) + s == Line(b) + t
    ensures SameInstructions(a, b) && s == t
  {
    hide Encode;
    hide Tail;
    var x, y := Encode(a.desired) + Tail(a), Encode(b.desired) + Tail(b);
    Regroup(a.ref.ToString(), " " + x, s);
    Regroup(b.ref.ToString(), " " + y, t);
    ReferencePrefix(a.ref, b.ref, " " + x + s, " " + y + t);
    Unmark(" ", " ", x, y, s, t);
    Regroup(Encode(a.desired), Tail(a), s);
    Regroup(Encode(b.desired), Tail(b), t);
    CanonicalPrefix(a.desired, b.desired, Tail(a) + s, Tail(b) + t);
    TailPrefix(a, b, s, t);
  }

  lemma LineNotEmpty(r: Resource, s: string)
    ensures Line(r) + s != ""
  {
    assert Line(r)[|r.ref.typ|] == '[';
  }

  /** Two manifests with one address give the same instructions, resource by resource. */
  lemma {:induction false} InputTells(m: seq<Resource>, n: seq<Resource>)
    requires Input(m) == Input(n)
    ensures |m| == |n| && forall i :: 0 <= i < |m| ==> SameInstructions(m[i], n[i])
  {
    hide Line;
    hide SameInstructions;
    if m != [] {
      LineNotEmpty(m[0], Input(m[1..]));
    }
    if n != [] {
      LineNotEmpty(n[0], Input(n[1..]));
    }
    if m != [] && n != [] {
      LinePrefix(m[0], n[0], Input(m[1..]), Input(n[1..]));
      InputTells(m[1..], n[1..]);
      forall i | 0 <= i < |m| ensures SameInstructions(m[i], n[i]) {
        assert i > 0 ==> m[i] == m[1..][i - 1] && n[i] == n[1..][i - 1];
      }
    }
  }

  /** And the other way round: nothing but the instructions is in the address. */
  lemma {:induction false} SameInstructionsSameInput(m: seq<Resource>, n: seq<Resource>)
    requires |m| == |n| && forall i :: 0 <= i < |m| ==> SameInstructions(m[i], n[i])
    ensures Input(m) == Input(n)
  {
    if m != [] {
      SameLine(m[0], n[0]);
      SameInstructionsSameInput(m[1..], n[1..]);
    }
  }

  lemma SameLine(a: Resource, b: Resource)
    requires SameInstructions(a, b)
    ensures Line(a) == Line(b)
  {
    CanonicalIgnoresProvenance(a.desired, b.desired);
    SameSection(a.requirements, b.requirements);
    SameSection(a.restartOn, b.restartOn);
    SameSection(a.reloadOn, b.reloadOn);
  }

  lemma SameSection(a: seq<Ref>, b: seq<Ref>)
    requires multiset(a) == multiset(b)
    ensures Arranged(a) == Arranged(b) && (a == [] <==> b == [])
  {
    BeforeRanks();
    BeforeIsTotal();
    SortBySorts(Before, a);
    SortBySorts(Before, b);
    SortedUnique(Before, Arranged(a), Arranged(b));
    assert |multiset(a)| == |a| && |multiset(b)| == |b|;
  }
}
