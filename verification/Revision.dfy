/** The accepted revision: one line in one file, and what can go wrong on the way there. */
module Revision {
  import opened Text

  datatype File = Absent | Unreadable | Holds(text: string)

  /** Nothing there is first contact. Anything there has to be a revision, or reading fails. */
  datatype Reading = NoRevision | Accepted(revision: string) | Refused

  predicate IsHex(c: char) {
    '0' <= c <= '9' || 'a' <= c <= 'f'
  }

  /** A full object name of either object format. Anything shorter may become ambiguous. */
  predicate FullName(revision: string) {
    (|revision| == 40 || |revision| == 64) && forall i :: 0 <= i < |revision| ==> IsHex(revision[i])
  }

  function ReadingOf(file: File): Reading {
    match file
    case Absent => NoRevision
    case Unreadable => Refused
    case Holds(text) =>
      var value := TrimSpace(text);
      if value == "" then NoRevision else if FullName(value) then Accepted(value) else Refused
  }

  function Written(revision: string): string {
    revision + "\n"
  }

  lemma {:induction false} HexIsNotTrimmed(s: string)
    requires forall i :: 0 <= i < |s| ==> IsHex(s[i])
    ensures TrimSpace(s) == s && TrimSpace(Written(s)) == s
  {
    var text := Written(s);
    assert text[..|s|] == s;
    if s == "" {
      assert text[1..] == "";
    } else {
      assert IsHex(s[0]) && IsHex(s[|s| - 1]) && text[0] == s[0];
    }
  }

  /** What was written is what is read, and nothing but a full name reads back as itself. */
  lemma {:induction false} WrittenReadsBack(revision: string)
    ensures ReadingOf(Holds(Written(revision))) == Accepted(revision) <==> FullName(revision)
  {
    if FullName(revision) {
      HexIsNotTrimmed(revision);
    }
  }

  /**
   * Why the file is renamed into place: cut short, it reads as nothing, as refused, or, where a
   * long name was cut at forty characters, as a revision nobody accepted.
   */
  lemma {:induction false} TornReading(revision: string, n: nat)
    requires FullName(revision) && n <= |revision|
    ensures ReadingOf(Holds(Written(revision)[..n])) ==
      if n == 0 then NoRevision else if n == 40 || n == 64 then Accepted(revision[..n]) else Refused
  {
    assert Written(revision)[..n] == revision[..n];
    HexIsNotTrimmed(revision[..n]);
  }

  /** Nothing is ever accepted but forty or sixty-four lower-case hexadecimal digits. */
  lemma AcceptedIsFullName(file: File, revision: string)
    requires ReadingOf(file) == Accepted(revision)
    ensures |revision| == 40 || |revision| == 64
    ensures forall i :: 0 <= i < |revision| ==> revision[i] in "0123456789abcdef"
  {
    forall c | IsHex(c) ensures c in "0123456789abcdef" {
      var digits := "0123456789abcdef";
      var k := if c <= '9' then c as int - '0' as int else c as int - 'a' as int + 10;
      assert digits[k] == c;
    }
  }

  // The files, and how writing one can go wrong

  datatype Disk = Disk(pointer: File, temp: File, tree: Option<string>)

  datatype WriteOutcome = NotStarted | Partial(left: File) | Complete

  datatype RenameOutcome = Renamed | NotRenamed(left: File)

  function AfterWrite(disk: Disk, revision: string, outcome: WriteOutcome): Disk {
    match outcome
    case NotStarted => disk
    case Partial(left) => disk.(temp := left)
    case Complete => disk.(temp := Holds(Written(revision)))
  }

  function AfterRename(disk: Disk, outcome: RenameOutcome): Disk {
    match outcome
    case Renamed => disk.(pointer := disk.temp, temp := Absent)
    case NotRenamed(left) => disk.(temp := left)
  }

  class StateDir {
    var pointer: File
    var temp: File
    var tree: Option<string>

    function Files(): Disk
      reads this
    {
      Disk(pointer, temp, tree)
    }

    constructor (disk: Disk)
      ensures Files() == disk
    {
      pointer, temp, tree := disk.pointer, disk.temp, disk.tree;
    }

    /** Writes beside the pointer first. Only the rename can change what it says. */
    method WriteAtomic(revision: string, write: WriteOutcome, rename: RenameOutcome) returns (ok: bool)
      modifies this`pointer, this`temp
      ensures ok <==> write.Complete? && rename.Renamed?
      ensures Files() == if write.Complete? then AfterRename(AfterWrite(old(Files()), revision, write), rename)
                        else AfterWrite(old(Files()), revision, write)
    {
      match write
      case NotStarted =>
        return false;
      case Partial(left) =>
        temp := left;
        return false;
      case Complete =>
      temp := Holds(Written(revision));
      match rename
      case Renamed =>
        pointer, temp := temp, Absent;
        return true;
      case NotRenamed(left) =>
        temp := left;
        return false;
    }

    /** The pointer ends up at the new revision or where it was, whatever fails. */
    method Advance(revision: string, write: WriteOutcome, rename: RenameOutcome) returns (ok: bool)
      modifies this`pointer, this`temp
      ensures ok <==> FullName(revision) && write.Complete? && rename.Renamed?
      ensures ok ==> ReadingOf(pointer) == Accepted(revision)
      ensures !ok ==> pointer == old(pointer)
      ensures Files() ==
        if !FullName(revision) then old(Files())
        else if write.Complete? then AfterRename(AfterWrite(old(Files()), revision, write), rename)
        else AfterWrite(old(Files()), revision, write)
    {
      if !FullName(revision) {
        return false;
      }
      WrittenReadsBack(revision);
      ok := WriteAtomic(revision, write, rename);
    }

    /** Forgets the pointer, readable or not. */
    method Clear(removable: bool) returns (previous: Option<string>, ok: bool)
      modifies this`pointer
      ensures ok <==> removable || old(pointer) == Absent
      ensures ok ==> ReadingOf(pointer) == NoRevision
      ensures !ok ==> pointer == old(pointer)
      ensures previous == if ok && ReadingOf(old(pointer)).Accepted? then Some(ReadingOf(old(pointer)).revision) else None
    {
      var reading := ReadingOf(pointer);
      if pointer != Absent && !removable {
        return None, false;
      }
      pointer := Absent;
      return if reading.Accepted? then Some(reading.revision) else None, true;
    }
  }
}
