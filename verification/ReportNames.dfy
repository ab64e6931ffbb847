/** File names of reports: fixed-width fields, so that text order is the order of time and sequence. */
module ReportNames {
  import opened Text
  import opened Decimal

  /** When a pass finished, in the fields of a UTC calendar. */
  datatype Moment = Moment(year: nat, month: nat, day: nat, hour: nat, minute: nat, second: nat, nano: nat) {
    predicate Valid() {
      && year < 10_000 && month < 100 && day < 100 && hour < 100 && minute < 100 && second < 100
      && nano < 1_000_000_000
    }
  }

  function Calendar(m: Moment): seq<nat> {
    [m.year, m.month, m.day, m.hour, m.minute, m.second]
  }

  /** The first number that differs decides. */
  predicate NumbersBefore(a: seq<nat>, b: seq<nat>)
    requires |a| == |b|
  {
    a != [] && (a[0] < b[0] || (a[0] == b[0] && NumbersBefore(a[1..], b[1..])))
  }

  /** Chronological order. */
  predicate Earlier(a: Moment, b: Moment) {
    NumbersBefore(Calendar(a) + [a.nano], Calendar(b) + [b.nano])
  }

  lemma {:induction false} NumbersBeforeOfParts(a: seq<nat>, b: seq<nat>, s: seq<nat>, t: seq<nat>)
    requires |a| == |b| && |s| == |t|
    ensures NumbersBefore(a + s, b + t) <==> NumbersBefore(a, b) || (a == b && NumbersBefore(s, t))
  {
    if a == [] {
      assert a + s == s && b + t == t;
    } else {
      assert (a + s)[1..] == a[1..] + s && (b + t)[1..] == b[1..] + t;
      NumbersBeforeOfParts(a[1..], b[1..], s, t);
      assert a == [a[0]] + a[1..] && b == [b[0]] + b[1..];
    }
  }

  // Fixed-width text

  datatype Slot = Slot(width: nat, mark: string)

  /** Each number in its slot, followed by the slot's mark. */
  function Rendered(values: seq<nat>, slots: seq<Slot>): string
    requires |values| == |slots|
  {
    if values == [] then ""
    else Padded(values[0], slots[0].width) + (slots[0].mark + Rendered(values[1..], slots[1..]))
  }

  predicate InWidth(values: seq<nat>, slots: seq<Slot>)
    requires |values| == |slots|
  {
    forall i :: 0 <= i < |values| ==> values[i] < Power10(slots[i].width)
  }

  /** Numbers in the same slots sort as text the way they do as numbers, and read alike only when they are. */
  lemma {:induction false} RenderedOrder(a: seq<nat>, b: seq<nat>, slots: seq<Slot>)
    requires |a| == |b| == |slots| && InWidth(a, slots) && InWidth(b, slots)
    ensures |Rendered(a, slots)| == |Rendered(b, slots)|
    ensures Less(Rendered(a, slots), Rendered(b, slots)) <==> NumbersBefore(a, b)
    ensures Rendered(a, slots) == Rendered(b, slots) <==> a == b
  {
    hide Less;
    hide Padded;
    hide Power10;
    if a == [] {
      LessTotal("", "");
    } else {
      var mark, x, y := slots[0].mark, Rendered(a[1..], slots[1..]), Rendered(b[1..], slots[1..]);
      RenderedOrder(a[1..], b[1..], slots[1..]);
      var p, q := Padded(a[0], slots[0].width), Padded(b[0], slots[0].width);
      PaddedOrder(a[0], b[0], slots[0].width);
      LessOfParts(p, q, mark + x, mark + y);
      LessOfParts(mark, mark, x, y);
      LessTotal(mark, mark);
      PartsEqual(p, q, mark + x, mark + y);
      PartsEqual(mark, mark, x, y);
      assert a == [a[0]] + a[1..] && b == [b[0]] + b[1..];
    }
  }

  lemma PartsEqual(p: string, q: string, x: string, y: string)
    requires |p| == |q|
    ensures p + x == q + y <==> p == q && x == y
  {
    if p + x == q + y {
      assert p == (p + x)[..|p|] == (q + y)[..|q|] == q;
      assert x == (p + x)[|p|..] == (q + y)[|q|..] == y;
    }
  }

  // Names

  const MILLISECOND: nat := 1_000_000

  const SLOTS: seq<Slot> :=
    [Slot(4, ""), Slot(2, ""), Slot(2, "T"), Slot(2, ""), Slot(2, ""), Slot(2, "."), Slot(3, "Z-"), Slot(6, "")]

  function Numbers(m: Moment): seq<nat> {
    Calendar(m) + [m.nano / MILLISECOND, m.nano % MILLISECOND]
  }

  function Prefix(m: Moment): string {
    Rendered(Numbers(m), SLOTS)
  }

  const EXTENSION := ".json"
  const SEQUENCE_WIDTH: nat := 20

  /** The part of a name that decides its place in the directory. */
  function Key(m: Moment, sequence: nat): string {
    Prefix(m) + ("-" + Padded(sequence, SEQUENCE_WIDTH))
  }

  function Name(m: Moment, sequence: nat): string {
    Key(m, sequence) + EXTENSION
  }

  function Trimmed(name: string): string {
    if EndsWith(name, EXTENSION) then name[..|name| - |EXTENSION|] else name
  }

  lemma WidthsSuffice()
    ensures Power10(2) == 100 && Power10(3) == 1000 && Power10(4) == 10_000 && Power10(6) == 1_000_000
    ensures Power10(20) == 100_000_000_000_000_000_000 > MAX_UINT64
  {
    assert Power10(2) == 10 * Power10(1) && Power10(1) == 10 * Power10(0);
    assert Power10(6) == 10 * Power10(5) && Power10(5) == 10 * Power10(4);
    DoublePower(6, 4);
    DoublePower(10, 10);
  }

  lemma {:induction false} DoublePower(a: nat, b: nat)
    ensures Power10(a + b) == Power10(a) * Power10(b)
  {
    if a > 0 {
      DoublePower(a - 1, b);
    }
  }

  lemma {:induction false} PrefixOrder(a: Moment, b: Moment)
    requires a.Valid() && b.Valid()
    ensures |Prefix(a)| == |Prefix(b)|
    ensures Less(Prefix(a), Prefix(b)) <==> Earlier(a, b)
    ensures Prefix(a) == Prefix(b) <==> a == b
  {
    assert |SLOTS| == 8;
    hide Rendered;
    hide Less;
    hide SLOTS;
    hide InWidth;
    NumbersFit(a);
    NumbersFit(b);
    RenderedOrder(Numbers(a), Numbers(b), SLOTS);
    MomentsCompare(a, b);
  }

  lemma NumbersFit(m: Moment)
    requires m.Valid()
    ensures InWidth(Numbers(m), SLOTS)
  {
    hide Power10;
    WidthsSuffice();
  }

  lemma MomentsCompare(a: Moment, b: Moment)
    ensures NumbersBefore(Numbers(a), Numbers(b)) <==> Earlier(a, b)
    ensures Numbers(a) == Numbers(b) <==> a == b
  {
    NanosSplit(a.nano, b.nano);
    var s, t := [a.nano / MILLISECOND, a.nano % MILLISECOND], [b.nano / MILLISECOND, b.nano % MILLISECOND];
    NumbersBeforeOfParts(Calendar(a), Calendar(b), [a.nano], [b.nano]);
    NumbersBeforeOfParts(Calendar(a), Calendar(b), s, t);
    FewNumbers(a.nano, b.nano, 0, 0);
    FewNumbers(s[0], t[0], s[1], t[1]);
    hide NumbersBefore;
    CalendarsEqual(a, b);
    if Numbers(a) == Numbers(b) {
      assert Calendar(a) == Numbers(a)[..6] && Calendar(b) == Numbers(b)[..6];
      assert s == Numbers(a)[6..] && t == Numbers(b)[6..];
    }
  }

  lemma FewNumbers(x: nat, u: nat, y: nat, v: nat)
    ensures NumbersBefore([x], [u]) <==> x < u
    ensures NumbersBefore([x, y], [u, v]) <==> x < u || (x == u && y < v)
  {
    assert NumbersBefore([y], [v]) <==> y < v;
    assert [x, y] == [x] + [y] && [u, v] == [u] + [v];
    NumbersBeforeOfParts([x], [u], [y], [v]);
  }

  lemma CalendarsEqual(a: Moment, b: Moment)
    ensures Calendar(a) == Calendar(b) && a.nano == b.nano <==> a == b
  {
    if Calendar(a) == Calendar(b) {
      assert forall i :: 0 <= i < 6 ==> Calendar(a)[i] == Calendar(b)[i];
      assert Calendar(a)[0] == a.year && Calendar(a)[1] == a.month && Calendar(a)[2] == a.day;
      assert Calendar(a)[3] == a.hour && Calendar(a)[4] == a.minute && Calendar(a)[5] == a.second;
    }
  }

  lemma NanosSplit(a: nat, b: nat)
    ensures a < b <==>
      a / MILLISECOND < b / MILLISECOND || (a / MILLISECOND == b / MILLISECOND && a % MILLISECOND < b % MILLISECOND)
    ensures a == b <==> a / MILLISECOND == b / MILLISECOND && a % MILLISECOND == b % MILLISECOND
  {
  }

  /** Names sort by time, and within one instant by sequence. */
  lemma {:induction false} KeyOrder(a: Moment, n: nat, b: Moment, k: nat)
    requires a.Valid() && b.Valid() && n <= MAX_UINT64 && k <= MAX_UINT64
    ensures Less(Key(a, n), Key(b, k)) <==> Earlier(a, b) || (a == b && n < k)
    ensures Key(a, n) == Key(b, k) <==> a == b && n == k
  {
    hide *;
    WidthsSuffice();
    KeyParts(a, n);
    KeyParts(b, k);
    var s, t := Padded(n, 20), Padded(k, 20);
    PrefixOrder(a, b);
    PaddedOrder(n, k, 20);
    LessOfParts(Prefix(a), Prefix(b), "-" + s, "-" + t);
    LessOfParts("-", "-", s, t);
    LessTotal("-", "-");
    PartsEqual(Prefix(a), Prefix(b), "-" + s, "-" + t);
    PartsEqual("-", "-", s, t);
  }

  lemma KeyParts(m: Moment, n: nat)
    ensures Key(m, n) == Prefix(m) + ("-" + Padded(n, 20))
  {
  }

  lemma NameTrims(m: Moment, n: nat)
    ensures EndsWith(Name(m, n), EXTENSION) && Trimmed(Name(m, n)) == Key(m, n)
  {
    assert Name(m, n)[..|Key(m, n)|] == Key(m, n);
    assert Name(m, n)[|Key(m, n)|..] == EXTENSION;
  }

  // Reading a sequence off a name

  /** The sequence a name holds, if it is one of this instant's. */
  function Claimed(name: string, prefix: string): Option<nat> {
    if StartsWith(name, prefix + "-") then ParseUint(Trimmed(name[|prefix| + 1..])) else None
  }

  /** A name gives up its sequence to the instant it was made for, and nothing to any other. */
  lemma {:induction false} NameClaims(a: Moment, n: nat, b: Moment)
    requires a.Valid() && b.Valid() && n <= MAX_UINT64
    ensures Claimed(Name(a, n), Prefix(b)) == if a == b then Some(n) else None
  {
    hide *;
    PrefixOrder(a, b);
    WidthsSuffice();
    PaddedReads(n, 20);
    KeyParts(a, n);
    ClaimOfParts(Prefix(a), Prefix(b), Padded(n, 20));
    NameParts(a, n);
    ParsesBack(n);
  }

  lemma NameParts(m: Moment, n: nat)
    ensures Name(m, n) == Prefix(m) + ("-" + Padded(n, 20)) + EXTENSION
  {
  }

  lemma ParsesBack(n: nat)
    requires n <= MAX_UINT64 && Value(Padded(n, 20)) == n
    ensures ParseUint(Padded(n, 20)) == Some(n)
  {
  }

  lemma ClaimOfParts(p: string, q: string, digits: string)
    requires |p| == |q|
    ensures Claimed(p + ("-" + digits) + EXTENSION, q) == if p == q then ParseUint(digits) else None
  {
    hide ParseUint;
    var name := p + ("-" + digits) + EXTENSION;
    assert name[..|p| + 1] == p + "-";
    assert name[|p| + 1..] == digits + EXTENSION;
    assert (digits + EXTENSION)[|digits|..] == EXTENSION && (digits + EXTENSION)[..|digits|] == digits;
    PartsEqual(p, q, "-", "-");
  }

  // Reading a name back

  /** Reads numbers of fixed width, each followed by a mark. */
  function ReadNumbers(s: string, layout: seq<(nat, string)>): Option<(seq<nat>, string)>
    decreases |layout|
  {
    if layout == [] then Some(([], s))
    else
      var (width, mark) := layout[0];
      if |s| < width + |mark| || !AllDigits(s[..width]) || s[width..width + |mark|] != mark then None
      else
        match ReadNumbers(s[width + |mark|..], layout[1..])
        case Some((more, left)) => Some(([Value(s[..width])] + more, left))
        case None => None
  }

  /** Year, month, day, T, hour, minute, second, dot, milliseconds, Z, dash, the nanoseconds left over, dash, sequence, extension. */
  function ReadName(name: string): Option<(seq<nat>, string)> {
    ReadNumbers(name, [(4, ""), (2, ""), (2, "T"), (2, ""), (2, ""), (2, "."), (3, "Z-"), (6, "-"), (20, ".json")])
  }

  function Layout(slots: seq<Slot>): seq<(nat, string)> {
    seq(|slots|, i requires 0 <= i < |slots| => (slots[i].width, slots[i].mark))
  }

  lemma NumberFirst(digits: string, mark: string, left: string, layout: seq<(nat, string)>)
    requires AllDigits(digits) && ReadNumbers(left, layout).Some?
    ensures ReadNumbers(digits + (mark + left), [(|digits|, mark)] + layout) ==
      Some(([Value(digits)] + ReadNumbers(left, layout).value.0, ReadNumbers(left, layout).value.1))
  {
    hide Value;
    var s, whole := digits + (mark + left), [(|digits|, mark)] + layout;
    assert s[..|digits|] == digits && s[|digits|..|digits| + |mark|] == mark && s[|digits| + |mark|..] == left;
    assert whole[0] == (|digits|, mark) && whole[1..] == layout;
  }

  lemma {:induction false} NumbersRead(values: seq<nat>, slots: seq<Slot>, t: string)
    requires |values| == |slots| && InWidth(values, slots)
    ensures ReadNumbers(Rendered(values, slots) + t, Layout(slots)) == Some((values, t))
  {
    hide Padded;
    hide Power10;
    if values == [] {
      assert Rendered(values, slots) + t == t;
    } else {
      PaddedReads(values[0], slots[0].width);
      NumbersRead(values[1..], slots[1..], t);
      RenderedSplits(values, slots, t);
      NumberFirst(Padded(values[0], slots[0].width), slots[0].mark, Rendered(values[1..], slots[1..]) + t, Layout(slots[1..]));
      assert values == [values[0]] + values[1..];
    }
  }

  lemma RenderedSplits(values: seq<nat>, slots: seq<Slot>, t: string)
    requires |values| == |slots| > 0
    ensures
      var digits, mark, rest := Padded(values[0], slots[0].width), slots[0].mark, Rendered(values[1..], slots[1..]);
      Rendered(values, slots) + t == digits + (mark + (rest + t))
    ensures Layout(slots) == [(|Padded(values[0], slots[0].width)|, slots[0].mark)] + Layout(slots[1..])
  {
    hide Padded;
    Reassociate(Padded(values[0], slots[0].width), slots[0].mark, Rendered(values[1..], slots[1..]), t);
    LayoutFirst(slots);
    hide Layout;
  }

  lemma LayoutFirst(slots: seq<Slot>)
    requires slots != []
    ensures Layout(slots) == [(slots[0].width, slots[0].mark)] + Layout(slots[1..])
  {
  }

  lemma Reassociate(a: string, b: string, c: string, t: string)
    ensures a + (b + c) + t == a + (b + (c + t))
  {
  }

  const NAME_SLOTS: seq<Slot> :=
    [Slot(4, ""), Slot(2, ""), Slot(2, "T"), Slot(2, ""), Slot(2, ""), Slot(2, "."), Slot(3, "Z-"), Slot(6, "-"), Slot(20, ".json")]

  lemma NameSlots(m: Moment, n: nat)
    requires m.Valid() && n <= MAX_UINT64
    ensures |NAME_SLOTS| == 9 && InWidth(Numbers(m) + [n], NAME_SLOTS)
    ensures Layout(NAME_SLOTS) == [(4, ""), (2, ""), (2, "T"), (2, ""), (2, ""), (2, "."), (3, "Z-"), (6, "-"), (20, ".json")]
  {
    hide Power10;
    WidthsSuffice();
  }

  /** A name says when the pass finished, to the nanosecond, and which report of that instant it is. */
  lemma {:induction false} NameReads(m: Moment, n: nat)
    requires m.Valid() && n <= MAX_UINT64
    ensures ReadName(Name(m, n)) == Some((
      [m.year, m.month, m.day, m.hour, m.minute, m.second, m.nano / 1_000_000, m.nano % 1_000_000, n], ""))
  {
    hide InWidth;
    hide Layout;
    hide Padded;
    hide SLOTS;
    hide NAME_SLOTS;
    var values := Numbers(m) + [n];
    NameSlots(m, n);
    NameIsInSlots(m, n);
    NumbersRead(values, NAME_SLOTS, "");
    assert values == [m.year, m.month, m.day, m.hour, m.minute, m.second, m.nano / 1_000_000, m.nano % 1_000_000, n];
  }

  lemma NameIsInSlots(m: Moment, n: nat)
    ensures |NAME_SLOTS| == 9 && Name(m, n) == Rendered(Numbers(m) + [n], NAME_SLOTS) + ""
  {
    NameIsRendered(Numbers(m), SLOTS, NAME_SLOTS, n);
    NameJoins(m, n);
  }

  lemma NameJoins(m: Moment, n: nat)
    ensures Name(m, n) == Rendered(Numbers(m), SLOTS) + ("-" + (Padded(n, 20) + ".json"))
  {
    NameParts(m, n);
    assert Prefix(m) + ("-" + Padded(n, 20)) + ".json" == Prefix(m) + ("-" + (Padded(n, 20) + ".json"));
  }

  /** The dash and the sequence can be seen as the mark of the last slot and one slot more. */
  lemma {:induction false} NameIsRendered(values: seq<nat>, short: seq<Slot>, slots: seq<Slot>, n: nat)
    requires |values| == |short| > 0 && |slots| == |short| + 1
    requires forall i :: 0 <= i < |short| - 1 ==> short[i] == slots[i]
    requires short[|short| - 1].mark == "" && slots[|short| - 1] == Slot(short[|short| - 1].width, "-")
    requires slots[|short|] == Slot(20, ".json")
    ensures Rendered(values + [n], slots) == Rendered(values, short) + ("-" + (Padded(n, 20) + ".json"))
  {
    hide Padded;
    var head := Padded(values[0], slots[0].width);
    assert (values + [n])[1..] == values[1..] + [n];
    if |values| == 1 {
      assert Rendered([n], slots[1..]) == Padded(n, 20) + (".json" + "");
      assert ".json" + "" == ".json";
      assert Rendered(values, short) == head + ("" + "");
      assert head + ("" + "") == head;
    } else {
      NameIsRendered(values[1..], short[1..], slots[1..], n);
      var rest, tail := Rendered(values[1..], short[1..]), "-" + (Padded(n, 20) + ".json");
      assert head + (slots[0].mark + (rest + tail)) == head + (slots[0].mark + rest) + tail;
    }
  }
}
