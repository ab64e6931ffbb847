/** The directory the last few reports are kept in. */
module ReportStore {
  import opened Text
  import opened Sorting
  import opened Decimal
  import opened ReportNames

  datatype Report = Report(finishedAt: Moment, body: string)

  type Directory = map<string, Report>

  const KEEP := 20

  datatype StoreError = SequenceExhausted

  // Listing

  predicate NameBefore(a: string, b: string) {
    Less(Trimmed(a), Trimmed(b))
  }

  ghost predicate Climbs(names: seq<string>) {
    forall i, j :: 0 <= i < j < |names| ==> NameBefore(names[i], names[j])
  }

  /** Every report in the directory, oldest first. */
  ghost predicate Listing(files: Directory, names: seq<string>) {
    && (forall name :: name in names <==> name in files && EndsWith(name, EXTENSION))
    && Climbs(names)
  }

  lemma NameBeforeRanks()
    ensures Ranks(NameBefore)
  {
    LessRanks();
    forall a, b ensures NameBefore(a, b) ==> !NameBefore(b, a) {
      LessTotal(Trimmed(a), Trimmed(b));
    }
    forall a, b, c | !NameBefore(b, a) && !NameBefore(c, b) ensures !NameBefore(c, a) {
      assert !Less(Trimmed(b), Trimmed(a)) && !Less(Trimmed(c), Trimmed(b));
    }
  }

  lemma TrimTells(a: string, b: string)
    requires EndsWith(a, EXTENSION) && EndsWith(b, EXTENSION) && a != b
    ensures NameBefore(a, b) || NameBefore(b, a)
  {
    assert a == Trimmed(a) + EXTENSION && b == Trimmed(b) + EXTENSION;
    LessTotal(Trimmed(a), Trimmed(b));
  }

  method List(files: Directory) returns (names: seq<string>)
    ensures Listing(files, names)
  {
    var found, unvisited := [], files.Keys;
    while unvisited != {}
      invariant unvisited <= files.Keys && Distinct(found)
      invariant forall name :: name in found <==> name in files && name !in unvisited && EndsWith(name, EXTENSION)
    {
      var name :| name in unvisited;
      unvisited := unvisited - {name};
      if EndsWith(name, EXTENSION) {
        found := found + [name];
      }
    }
    names := SortBy(NameBefore, found);
    NameBeforeRanks();
    SortBySorts(NameBefore, found);
    SameMembers(found, names);
    SortedClimbs(names);
  }

  lemma SortedClimbs(names: seq<string>)
    requires Sorted(NameBefore, names) && Distinct(names) && forall name :: name in names ==> EndsWith(name, EXTENSION)
    ensures Climbs(names)
  {
    forall i, j | 0 <= i < j < |names| ensures NameBefore(names[i], names[j]) {
      TrimTells(names[i], names[j]);
    }
  }

  /** There is one way to list a directory. */
  lemma {:induction false} ClimbsOneWay(a: seq<string>, b: seq<string>)
    requires Climbs(a) && Climbs(b) && forall name :: name in a <==> name in b
    ensures a == b
  {
    assert b != [] ==> b[0] in b;
    if a != [] {
      var m, n := |a| - 1, |b| - 1;
      assert a[m] in b && b != [];
      SameLast(a, b);
      var init, init' := a[..m], b[..n];
      forall name ensures name in init <==> name in init' {
        LastOnlyLast(a, name);
        LastOnlyLast(b, name);
      }
      ClimbsOneWay(init, init');
      assert a == init + [a[m]] && b == init' + [b[n]];
    }
  }

  lemma LastOnlyLast(a: seq<string>, name: string)
    requires a != [] && Climbs(a)
    ensures name in a[..|a| - 1] <==> name in a && name != a[|a| - 1]
  {
    var last := a[|a| - 1];
    LessTotal(Trimmed(last), Trimmed(last));
    assert a == a[..|a| - 1] + [last];
    forall i | 0 <= i < |a| - 1 ensures a[i] != last {
      assert NameBefore(a[i], last);
    }
  }

  lemma SameLast(a: seq<string>, b: seq<string>)
    requires a != [] && b != [] && Climbs(a) && Climbs(b)
    requires a[|a| - 1] in b && b[|b| - 1] in a
    ensures a[|a| - 1] == b[|b| - 1]
  {
    var x, y := a[|a| - 1], b[|b| - 1];
    LessTotal(Trimmed(x), Trimmed(y));
    assert x == y || NameBefore(x, y);
    assert x == y || NameBefore(y, x);
  }

  // What was written

  /** One report as it went into the directory. */
  datatype Entry = Entry(report: Report, sequence: nat) {
    predicate Valid() {
      report.finishedAt.Valid() && sequence <= MAX_UINT64
    }

    function FileName(): string {
      Name(report.finishedAt, sequence)
    }
  }

  predicate EntryBefore(a: Entry, b: Entry) {
    || Earlier(a.report.finishedAt, b.report.finishedAt)
    || (a.report.finishedAt == b.report.finishedAt && a.sequence < b.sequence)
  }

  ghost predicate InOrder(log: seq<Entry>) {
    && (forall i :: 0 <= i < |log| ==> log[i].Valid())
    && forall i, j :: 0 <= i < j < |log| ==> EntryBefore(log[i], log[j])
  }

  /** The directory holds exactly these entries. */
  ghost predicate Stores(files: Directory, kept: seq<Entry>) {
    && (forall i :: 0 <= i < |kept| ==> kept[i].FileName() in files && files[kept[i].FileName()] == kept[i].report)
    && forall name :: name in files ==> exists i :: 0 <= i < |kept| && kept[i].FileName() == name
  }

  /** The last few entries, which are all of them while there are few. */
  function Kept(log: seq<Entry>, keep: nat): seq<Entry> {
    if |log| <= keep then log else log[|log| - keep..]
  }

  lemma NamesInOrder(a: Entry, b: Entry)
    requires a.Valid() && b.Valid()
    ensures NameBefore(a.FileName(), b.FileName()) <==> EntryBefore(a, b)
    ensures a.FileName() == b.FileName() ==> !EntryBefore(a, b)
    ensures EndsWith(a.FileName(), EXTENSION)
  {
    hide *;
    var x, y := a.report.finishedAt, b.report.finishedAt;
    FileNamesAre(a, b);
    NameTrims(x, a.sequence);
    NameTrims(y, b.sequence);
    KeyOrder(x, a.sequence, y, b.sequence);
    LessTotal(Key(x, a.sequence), Key(x, a.sequence));
    EntryBeforeIs(a, b);
  }

  lemma EntryBeforeIs(a: Entry, b: Entry)
    ensures EntryBefore(a, b) <==>
      Earlier(a.report.finishedAt, b.report.finishedAt) || (a.report.finishedAt == b.report.finishedAt && a.sequence < b.sequence)
  {
  }

  lemma FileNamesAre(a: Entry, b: Entry)
    requires a.Valid() && b.Valid()
    ensures a.FileName() == Name(a.report.finishedAt, a.sequence) && b.FileName() == Name(b.report.finishedAt, b.sequence)
    ensures NameBefore(a.FileName(), b.FileName()) <==> Less(Trimmed(a.FileName()), Trimmed(b.FileName()))
    ensures a.report.finishedAt.Valid() && b.report.finishedAt.Valid() && a.sequence <= MAX_UINT64 && b.sequence <= MAX_UINT64
  {
  }

  /** Listing the directory gives back the entries in the order they were written. */
  lemma {:induction false} ListingIsLog(files: Directory, kept: seq<Entry>, names: seq<string>)
    requires Stores(files, kept) && InOrder(kept) && Listing(files, names)
    ensures |names| == |kept| && forall i :: 0 <= i < |kept| ==> names[i] == kept[i].FileName()
    ensures forall i :: 0 <= i < |kept| ==> names[i] in files && files[names[i]] == kept[i].report
  {
    hide EntryBefore;
    hide NameBefore;
    hide EndsWith;
    var written := seq(|kept|, i requires 0 <= i < |kept| => kept[i].FileName());
    forall i, j | 0 <= i < j < |kept| ensures NameBefore(written[i], written[j]) {
      NamesInOrder(kept[i], kept[j]);
    }
    forall i | 0 <= i < |kept| ensures EndsWith(written[i], EXTENSION) && written[i] in files {
      NamesInOrder(kept[i], kept[i]);
    }
    forall name ensures name in written <==> name in names {
      if name in files {
        var i :| 0 <= i < |kept| && kept[i].FileName() == name;
        assert written[i] == name;
      }
    }
    ClimbsOneWay(names, written);
  }

  lemma StoresOneMore(files: Directory, kept: seq<Entry>, entry: Entry)
    requires Stores(files, kept) && InOrder(kept + [entry])
    ensures entry.FileName() !in files
    ensures Stores(files[entry.FileName() := entry.report], kept + [entry])
  {
    hide EntryBefore;
    hide Name;
    hide NameBefore;
    hide EndsWith;
    var longer := kept + [entry];
    forall i | 0 <= i < |kept| ensures kept[i].FileName() != entry.FileName() {
      assert longer[i] == kept[i] && longer[|kept|] == entry;
      NamesInOrder(kept[i], entry);
    }
    forall name | name in files ensures exists i :: 0 <= i < |longer| && longer[i].FileName() == name {
      var i :| 0 <= i < |kept| && kept[i].FileName() == name;
      assert longer[i].FileName() == name;
    }
    assert longer[|kept|].FileName() == entry.FileName();
  }

  lemma StoresOneLess(files: Directory, kept: seq<Entry>)
    requires kept != [] && Stores(files, kept) && InOrder(kept)
    ensures Stores(files - {kept[0].FileName()}, kept[1..])
  {
    hide EntryBefore;
    hide Name;
    hide NameBefore;
    hide EndsWith;
    var first, rest := kept[0].FileName(), kept[1..];
    forall i | 0 <= i < |rest| ensures rest[i].FileName() != first {
      NamesInOrder(kept[0], kept[i + 1]);
    }
    forall name | name in files && name != first ensures exists i :: 0 <= i < |rest| && rest[i].FileName() == name {
      var i :| 0 <= i < |kept| && kept[i].FileName() == name;
      assert rest[i - 1] == kept[i];
    }
  }

  lemma LaterInOrder(log: seq<Entry>, i: nat)
    requires InOrder(log) && i <= |log|
    ensures InOrder(log[i..])
  {
    hide EntryBefore;
  }

  lemma MomentsOrdered(a: Moment, b: Moment, c: Moment)
    requires a.Valid() && b.Valid() && c.Valid()
    ensures Earlier(a, b) || Earlier(b, a) || a == b
    ensures Earlier(a, b) && Earlier(b, c) ==> Earlier(a, c)
  {
    hide *;
    PrefixOrder(a, b);
    PrefixOrder(b, a);
    PrefixOrder(b, c);
    PrefixOrder(a, c);
    LessTotal(Prefix(a), Prefix(b));
    if Less(Prefix(a), Prefix(b)) && Less(Prefix(b), Prefix(c)) {
      LessTransitive(Prefix(a), Prefix(b), Prefix(c));
    }
  }

  /** A report that is not earlier than the last one follows all of them. */
  lemma FollowsEarlier(kept: seq<Entry>, m: Moment, i: nat)
    requires InOrder(kept) && i < |kept| && m.Valid() && !Earlier(m, kept[|kept| - 1].report.finishedAt)
    ensures kept[i].report.finishedAt == m || Earlier(kept[i].report.finishedAt, m)
  {
    hide Earlier;
    MomentsOrdered(m, kept[i].report.finishedAt, kept[|kept| - 1].report.finishedAt);
    assert i < |kept| - 1 ==> EntryBefore(kept[i], kept[|kept| - 1]);
  }

  lemma EntriesTransitive(a: Entry, b: Entry, c: Entry)
    requires a.Valid() && b.Valid() && c.Valid() && EntryBefore(a, b) && EntryBefore(b, c)
    ensures EntryBefore(a, c)
  {
    hide Earlier;
    MomentsOrdered(a.report.finishedAt, b.report.finishedAt, c.report.finishedAt);
  }

  ghost predicate Follows(names: seq<string>, prefix: string, sequence: Option<nat>) {
    && (sequence.None? <==> exists i :: 0 <= i < |names| && Claimed(names[i], prefix) == Some(MAX_UINT64))
    && (sequence.Some? ==> sequence.value <= MAX_UINT64)
    && (sequence.Some? ==>
          forall i :: 0 <= i < |names| && Claimed(names[i], prefix).Some? ==> Claimed(names[i], prefix).value < sequence.value)
  }

  /** The next sequence puts a report behind all that are kept, unless the last one took the highest there is. */
  lemma SequenceFollows(kept: seq<Entry>, names: seq<string>, report: Report, sequence: Option<nat>)
    requires InOrder(kept) && |names| == |kept| && forall i :: 0 <= i < |kept| ==> names[i] == kept[i].FileName()
    requires report.finishedAt.Valid() && Follows(names, Prefix(report.finishedAt), sequence)
    requires kept != [] ==> !Earlier(report.finishedAt, kept[|kept| - 1].report.finishedAt)
    ensures sequence.None? <==>
      kept != [] && kept[|kept| - 1].report.finishedAt == report.finishedAt && kept[|kept| - 1].sequence == MAX_UINT64
    ensures sequence.Some? ==> sequence.value <= MAX_UINT64 && InOrder(kept + [Entry(report, sequence.value)])
  {
    hide Claimed;
    hide Name;
    hide Earlier;
    hide Prefix;
    var m := report.finishedAt;
    forall i | 0 <= i < |kept|
      ensures Claimed(names[i], Prefix(m)) == if kept[i].report.finishedAt == m then Some(kept[i].sequence) else None
      ensures kept[i].report.finishedAt == m || Earlier(kept[i].report.finishedAt, m)
    {
      NameClaims(kept[i].report.finishedAt, kept[i].sequence, m);
      FollowsEarlier(kept, m, i);
    }
    if sequence.None? {
      var i :| 0 <= i < |names| && Claimed(names[i], Prefix(m)) == Some(MAX_UINT64);
      assert i < |kept| - 1 ==> EntryBefore(kept[i], kept[|kept| - 1]);
    }
  }

  /** Keeping the last of what was kept and one more is keeping the last of everything. */
  lemma KeptGrows(log: seq<Entry>, entry: Entry)
    requires InOrder(log) && InOrder(Kept(log, KEEP) + [entry])
    ensures InOrder(log + [entry])
    ensures Kept(Kept(log, KEEP) + [entry], KEEP) == Kept(log + [entry], KEEP)
  {
    hide EntryBefore;
    var kept := Kept(log, KEEP);
    if log != [] {
      var last := log[|log| - 1];
      assert kept[|kept| - 1] == last;
      assert (kept + [entry])[|kept| - 1] == last && (kept + [entry])[|kept|] == entry;
      forall i | 0 <= i < |log| ensures EntryBefore(log[i], entry) {
        if i < |log| - 1 {
          EntriesTransitive(log[i], last, entry);
        }
      }
    }
  }

  /** The last report finished at this very instant and has the highest sequence there is. */
  predicate Exhausted(log: seq<Entry>, m: Moment) {
    log != [] && log[|log| - 1].report.finishedAt == m && log[|log| - 1].sequence == MAX_UINT64
  }

  lemma KeptEnds(log: seq<Entry>)
    requires InOrder(log)
    ensures InOrder(Kept(log, KEEP)) && |Kept(log, KEEP)| == if |log| < KEEP then |log| else KEEP
    ensures log != [] ==> Kept(log, KEEP)[|Kept(log, KEEP)| - 1] == log[|log| - 1]
  {
    if |log| > KEEP {
      LaterInOrder(log, |log| - KEEP);
    }
  }

  // Writing

  /** What any process does to the directory. A link to a name that is taken fails and changes nothing. */
  datatype Change = Linked(name: string, report: Report) | Removed(name: string)

  function After(files: Directory, change: Change): Directory {
    match change
    case Linked(name, report) => if name in files then files else files[name := report]
    case Removed(name) => files - {name}
  }

  /** The changes of every process, in the order the file system makes them. */
  function Run(files: Directory, changes: seq<Change>): Directory {
    if changes == [] then files else After(Run(files, changes[..|changes| - 1]), changes[|changes| - 1])
  }

  /** The report was linked to a free name, and the name has not been removed since. */
  ghost predicate HeldSince(files: Directory, changes: seq<Change>, j: int, name: string, report: Report) {
    && 0 <= j < |changes| && changes[j] == Linked(name, report) && name !in Run(files, changes[..j])
    && forall k :: j < k < |changes| ==> changes[k] != Removed(name)
  }

  /** The name holds a report it held from the start, or has claimed since. */
  ghost predicate Owned(files: Directory, changes: seq<Change>, name: string, report: Report) {
    || (name in files && files[name] == report && Removed(name) !in changes)
    || exists j :: HeldSince(files, changes, j, name, report)
  }

  /** Over every run of any number of writers, a name holds exactly the report that claimed it while it was free. */
  lemma {:induction false} HoldsWhatClaimedIt(files: Directory, changes: seq<Change>, name: string, report: Report)
    ensures name in Run(files, changes) && Run(files, changes)[name] == report <==> Owned(files, changes, name, report)
  {
    if changes != [] {
      var n := |changes| - 1;
      var init, last := changes[..n], changes[n];
      HoldsWhatClaimedIt(files, init, name, report);
      OwnedNext(files, init, last, name, report);
      assert changes == init + [last];
    }
  }

  lemma OwnedNext(files: Directory, init: seq<Change>, last: Change, name: string, report: Report)
    ensures Owned(files, init + [last], name, report) <==>
      || (last != Removed(name) && Owned(files, init, name, report))
      || (last == Linked(name, report) && name !in Run(files, init))
  {
    hide Run;
    var changes := init + [last];
    assert forall j :: 0 <= j <= |init| ==> changes[..j] == init[..j];
    assert changes[..|init|] == init;
    assert changes[|init|] == last && (forall c :: c in changes <==> c in init || c == last);
    if j :| HeldSince(files, changes, j, name, report) {
      assert j < |init| ==> last != Removed(name);
      assert forall k :: 0 <= k < |init| ==> changes[k] == init[k];
      assert j < |init| ==> HeldSince(files, init, j, name, report);
    }
    if last != Removed(name) {
      if j :| HeldSince(files, init, j, name, report) {
        assert HeldSince(files, changes, j, name, report);
      }
    }
    if last == Linked(name, report) && name !in Run(files, init) {
      assert HeldSince(files, changes, |init|, name, report);
    }
  }

  /** A published report is only ever replaced after somebody removed it, by one that found the name free. */
  lemma {:induction false} ReplacedAfterRemoval(files: Directory, changes: seq<Change>, name: string)
    requires name in files
    ensures name !in Run(files, changes) || Run(files, changes)[name] != files[name] ==> Removed(name) in changes
    ensures name in Run(files, changes) && Removed(name) in changes ==>
      exists i, j :: 0 <= i < j < |changes| && changes[i] == Removed(name)
        && HeldSince(files, changes, j, name, Run(files, changes)[name])
  {
    HoldsWhatClaimedIt(files, changes, name, files[name]);
    if name in Run(files, changes) && Removed(name) in changes {
      var report := Run(files, changes)[name];
      HoldsWhatClaimedIt(files, changes, name, report);
      var j :| HeldSince(files, changes, j, name, report);
      HoldsWhatClaimedIt(files, changes[..j], name, files[name]);
      var i :| 0 <= i < j && changes[..j][i] == Removed(name);
      assert changes[i] == Removed(name);
    }
  }

  lemma {:induction false} RunOn(files: Directory, earlier: seq<Change>, later: seq<Change>)
    ensures Run(files, earlier + later) == Run(Run(files, earlier), later)
  {
    if later == [] {
      assert earlier + later == earlier;
    } else {
      var n := |later| - 1;
      RunOn(files, earlier, later[..n]);
      assert (earlier + later)[..|earlier| + n] == earlier + later[..n];
    }
  }

  // Publishing among other writers

  /** What other processes do before each attempt to publish. */
  type Others = (nat, Directory) -> seq<Change>

  /** A number of attempts to publish, with everything that happened in between. */
  function Attempts(files: Directory, report: Report, first: nat, others: Others, n: nat): seq<Change>
    decreases n, 0
  {
    if n == 0 then []
    else BeforeAttempt(files, report, first, others, n - 1) + [Linked(Name(report.finishedAt, first + n - 1), report)]
  }

  /** Everything that happened before one of the attempts. */
  function BeforeAttempt(files: Directory, report: Report, first: nat, others: Others, n: nat): seq<Change>
    decreases n, 1
  {
    var earlier := Attempts(files, report, first, others, n);
    earlier + others(n, Run(files, earlier))
  }

  /** Whether the name an attempt asks for is taken at the moment it asks. */
  predicate TakenAt(files: Directory, report: Report, first: nat, others: Others, n: nat) {
    Name(report.finishedAt, first + n) in Run(files, BeforeAttempt(files, report, first, others, n))
  }

  lemma FirstAttempt(files: Directory, report: Report, first: nat, others: Others)
    ensures Run(files, Attempts(files, report, first, others, 0)) == files
  {
  }

  lemma AttemptStep(files: Directory, report: Report, first: nat, others: Others, n: nat)
    ensures
      var now := Run(files, Attempts(files, report, first, others, n));
      var asked := Run(now, others(n, now));
      && Run(files, BeforeAttempt(files, report, first, others, n)) == asked
      && Run(files, Attempts(files, report, first, others, n + 1))
         == After(asked, Linked(Name(report.finishedAt, first + n), report))
  {
    var earlier := Attempts(files, report, first, others, n);
    var link := Linked(Name(report.finishedAt, first + n), report);
    RunOn(files, earlier, others(n, Run(files, earlier)));
    var before := BeforeAttempt(files, report, first, others, n);
    assert (before + [link])[..|before|] == before;
  }

  /** Where nobody interferes, the first name is granted if it is free. */
  lemma AloneIsFirst(files: Directory, report: Report, first: nat, others: Others)
    requires forall n, d :: others(n, d) == []
    ensures TakenAt(files, report, first, others, 0) <==> Name(report.finishedAt, first) in files
    ensures Run(files, Attempts(files, report, first, others, 1)) == After(files, Linked(Name(report.finishedAt, first), report))
  {
    hide Attempts;
    hide BeforeAttempt;
    hide Name;
    hide After;
    FirstAttempt(files, report, first, others);
    AttemptStep(files, report, first, others, 0);
    assert others(0, files) == [];
  }

  /** Once the link is granted the report is there under its name, whatever was there before and whoever else wrote. */
  lemma {:induction false} PublishedIsHeld(files: Directory, report: Report, first: nat, others: Others, n: nat)
    requires !TakenAt(files, report, first, others, n)
    ensures HeldSince(files, Attempts(files, report, first, others, n + 1),
                      |BeforeAttempt(files, report, first, others, n)|, Name(report.finishedAt, first + n), report)
  {
    hide Run;
    var before := BeforeAttempt(files, report, first, others, n);
    assert Attempts(files, report, first, others, n + 1)[..|before|] == before;
  }

  /** One past the highest sequence in use for an instant, or none if that would not fit. */
  method NextSequence(names: seq<string>, prefix: string) returns (sequence: Option<nat>)
    ensures Follows(names, prefix, sequence)
    ensures sequence.Some? && sequence.value > 0 ==>
      exists i :: 0 <= i < |names| && Claimed(names[i], prefix) == Some(sequence.value - 1)
  {
    hide StartsWith;
    hide Trimmed;
    var next: nat := 0;
    for i := 0 to |names|
      invariant next <= MAX_UINT64
      invariant forall k :: 0 <= k < i && Claimed(names[k], prefix).Some? ==> Claimed(names[k], prefix).value < next
      invariant next > 0 ==> exists k :: 0 <= k < i && Claimed(names[k], prefix) == Some(next - 1)
    {
      var n := Claimed(names[i], prefix);
      if n.Some? && n.value >= next {
        if n.value == MAX_UINT64 {
          return None;
        }
        next := n.value + 1;
      }
    }
    return Some(next);
  }

  class Store {
    var files: Directory
    ghost var log: seq<Entry>

    /** The directory holds the last reports of everything ever written to it. */
    ghost predicate Valid()
      reads this
    {
      InOrder(log) && Stores(files, Kept(log, KEEP))
    }

    constructor ()
      ensures Valid() && log == [] && files == map[]
    {
      files, log := map[], [];
    }

    /** Asks the file system for a name, which it grants only while it is free. */
    method Link(name: string, report: Report) returns (ok: bool)
      modifies this`files
      ensures ok <==> name !in old(files)
      ensures files == After(old(files), Linked(name, report))
    {
      ok := name !in files;
      if ok {
        files := files[name := report];
      }
    }

    /**
     * Asks for one name after another until one is granted. What happens to the directory is a
     * run of links and removals in which this writer only ever links.
     */
    method Publish(report: Report, first: nat, others: Others) returns (sequence: Option<nat>)
      requires first <= MAX_UINT64
      modifies this`files
      ensures sequence.Some? ==>
        && first <= sequence.value <= MAX_UINT64
        && !TakenAt(old(files), report, first, others, sequence.value - first)
        && (forall k :: 0 <= k < sequence.value - first ==> TakenAt(old(files), report, first, others, k))
        && files == Run(old(files), Attempts(old(files), report, first, others, sequence.value - first + 1))
      ensures sequence.None? ==>
        && (forall k :: 0 <= k <= MAX_UINT64 - first ==> TakenAt(old(files), report, first, others, k))
        && files == Run(old(files), Attempts(old(files), report, first, others, MAX_UINT64 - first + 1))
    {
      hide Run;
      hide After;
      hide Attempts;
      hide BeforeAttempt;
      ghost var start := files;
      var n, attempt := first, 0;
      FirstAttempt(start, report, first, others);
      while true
        invariant first <= n <= MAX_UINT64 && attempt == n - first
        invariant files == Run(start, Attempts(start, report, first, others, attempt))
        invariant forall k :: 0 <= k < attempt ==> TakenAt(start, report, first, others, k)
        decreases MAX_UINT64 - n
      {
        AttemptStep(start, report, first, others, attempt);
        files := Run(files, others(attempt, files));
        var ok := Link(Name(report.finishedAt, n), report);
        if ok {
          return Some(n);
        }
        if n == MAX_UINT64 {
          return None;
        }
        n, attempt := n + 1, attempt + 1;
      }
    }

    /** Removes the oldest reports beyond so many. */
    method Prune(keep: nat, ghost kept: seq<Entry>) returns (ghost changes: seq<Change>)
      requires Stores(files, kept) && InOrder(kept)
      modifies this`files
      ensures Stores(files, Kept(kept, keep))
      ensures files == Run(old(files), changes) && forall c :: c in changes ==> c.Removed?
    {
      changes := [];
      hide InOrder;
      hide Stores;
      var names := List(files);
      ListingIsLog(files, kept, names);
      if |names| <= keep {
        return;
      }
      for i := 0 to |names| - keep
        invariant Stores(files, kept[i..])
        invariant files == Run(old(files), changes) && forall c :: c in changes ==> c.Removed?
      {
        assert (changes + [Removed(names[i])])[..|changes|] == changes;
        LaterInOrder(kept, i);
        StoresOneLess(files, kept[i..]);
        assert kept[i..][0] == kept[i] && kept[i..][1..] == kept[i + 1..];
        files := files - {names[i]};
        changes := changes + [Removed(names[i])];
      }
    }

    /** Publishes a report and prunes what this makes too many. */
    method Write(report: Report) returns (r: Result<string, StoreError>)
      requires Valid() && report.finishedAt.Valid()
      requires log != [] ==> !Earlier(report.finishedAt, log[|log| - 1].report.finishedAt)
      modifies this
      ensures Valid()
      ensures r.Ok? ==> exists sequence :: log == old(log) + [Entry(report, sequence)] && r.value == Name(report.finishedAt, sequence)
      ensures r.Err? ==> log == old(log) && files == old(files)
      ensures r.Err? <==> Exhausted(old(log), report.finishedAt)
    {
      hide InOrder;
      hide Stores;
      hide Follows;
      hide Earlier;
      hide Name;
      hide Prefix;
      ghost var kept := Kept(log, KEEP);
      KeptEnds(log);
      var names := List(files);
      ListingIsLog(files, kept, names);
      var sequence := NextSequence(names, Prefix(report.finishedAt));
      SequenceFollows(kept, names, report, sequence);
      if sequence.None? {
        return Err(SequenceExhausted);
      }
      ghost var entry := Entry(report, sequence.value);
      StoresOneMore(files, kept, entry);
      KeptGrows(log, entry);
      AloneIsFirst(files, report, sequence.value, (_, _) => []);
      var published := Publish(report, sequence.value, (_, _) => []);
      log := log + [entry];
      ghost var pruned := Prune(KEEP, kept + [entry]);
      return Ok(Name(report.finishedAt, sequence.value));
    }

    /** The most recent report, if any was ever written. */
    method Latest() returns (latest: Option<Report>)
      requires Valid()
      ensures latest == if log == [] then None else Some(log[|log| - 1].report)
    {
      hide InOrder;
      hide Stores;
      hide Listing;
      hide Name;
      KeptEnds(log);
      var names := List(files);
      ListingIsLog(files, Kept(log, KEEP), names);
      if names == [] {
        return None;
      }
      return Some(files[names[|names| - 1]]);
    }

    /** Everything still kept, from the last written backwards. */
    method History() returns (out: seq<Report>)
      requires Valid()
      ensures |out| == if |log| < 20 then |log| else 20
      ensures forall i :: 0 <= i < |out| ==> out[i] == log[|log| - 1 - i].report
    {
      hide InOrder;
      hide Stores;
      hide Listing;
      hide Name;
      KeptEnds(log);
      ghost var kept := Kept(log, KEEP);
      var names := List(files);
      ListingIsLog(files, kept, names);
      out := [];
      for i := |names| downto 0
        invariant |out| == |names| - i
        invariant forall k :: 0 <= k < |out| ==> out[k] == log[|log| - 1 - k].report
      {
        assert kept[i] == log[|log| - |kept| + i];
        out := out + [files[names[i]]];
      }
    }
  }

  /** A run of passes, written one after another. */
  method WriteAll(reports: seq<Report>) returns (store: Store, written: nat)
    requires forall i :: 0 <= i < |reports| ==> reports[i].finishedAt.Valid()
    requires forall i, j :: 0 <= i < j < |reports| ==> !Earlier(reports[j].finishedAt, reports[i].finishedAt)
    ensures store.Valid() && written <= |reports|
    ensures |store.log| == written && forall i :: 0 <= i < written ==> store.log[i].report == reports[i]
    ensures written < |reports| ==> Exhausted(store.log, reports[written].finishedAt)
  {
    hide InOrder;
    hide Stores;
    hide Earlier;
    store := new Store();
    for i := 0 to |reports|
      invariant store.Valid() && fresh(store)
      invariant |store.log| == i && forall k :: 0 <= k < i ==> store.log[k].report == reports[k]
    {
      var r := store.Write(reports[i]);
      if r.Err? {
        return store, i;
      }
    }
    written := |reports|;
  }
}
