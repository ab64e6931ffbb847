/** Byte counts written with a unit, such as 16MiB. */
module Size {
  import opened Text
  import opened Decimal

  newtype Size = x: int | -0x8000_0000_0000_0000 <= x <= 0x7FFF_FFFF_FFFF_FFFF

  const MAX: Size := 0x7FFF_FFFF_FFFF_FFFF

  type Scale = x: Size | x > 0 witness 1

  datatype Unit = Unit(suffix: string, scale: Scale)

  const KI: Scale := 0x400
  const MI: Scale := 0x10_0000
  const GI: Scale := 0x4000_0000
  const TI: Scale := 0x100_0000_0000

  /** Binary, whichever way they are spelt. */
  const UNITS: seq<Unit> := [
    Unit("KiB", KI), Unit("MiB", MI), Unit("GiB", GI), Unit("TiB", TI),
    Unit("KB", KI), Unit("MB", MI), Unit("GB", GI), Unit("TB", TI),
    Unit("K", KI), Unit("M", MI), Unit("G", GI), Unit("T", TI),
    Unit("B", 1)
  ]

  // Suffixes in any case

  function ToLower(c: char): char {
    if 'A' <= c <= 'Z' then (c as int + 32) as char else c
  }

  predicate EqualFold(a: string, b: string) {
    |a| == |b| && forall i :: 0 <= i < |a| ==> ToLower(a[i]) == ToLower(b[i])
  }

  function CutSuffixFold(text: string, suffix: string): Option<string> {
    if |text| < |suffix| || !EqualFold(text[|text| - |suffix|..], suffix) then None
    else Some(text[..|text| - |suffix|])
  }

  /** The unit a text ends in: the first in the table that fits. */
  function UnitFrom(text: string, i: nat): Option<Unit>
    requires i <= |UNITS|
    decreases |UNITS| - i
  {
    if i == |UNITS| then None
    else if CutSuffixFold(text, UNITS[i].suffix).Some? then Some(UNITS[i])
    else UnitFrom(text, i + 1)
  }

  lemma {:induction false} UnitFromFits(text: string, i: nat)
    requires i <= |UNITS|
    ensures UnitFrom(text, i).Some? ==>
      UnitFrom(text, i).value in UNITS && CutSuffixFold(text, UnitFrom(text, i).value.suffix).Some?
    decreases |UNITS| - i
  {
    if i < |UNITS| {
      UnitFromFits(text, i + 1);
    }
  }

  /** What a count of some unit comes to. Fractions are exact, because every unit is a power of two. */
  function Scaled(digits: string, scale: Scale, parseFloat: string -> Option<real>): Option<Size>
  {
    match ParseInt(digits)
    case Some(n) => if 0 <= n && n * scale as int <= MAX as int then Some((n * scale as int) as Size) else None
    case None =>
      match parseFloat(digits)
      case None => None
      case Some(x) =>
        if 0.0 <= x && Bytes(x, scale) < LIMIT then Some(Bytes(x, scale).Floor as Size) else None
  }

  const LIMIT: real := MAX as int as real + 1.0

  function Bytes(count: real, scale: Scale): (bytes: real)
    ensures count >= 0.0 ==> bytes >= 0.0
  {
    count * (scale as int as real)
  }

  /** What a text denotes, if it is a size. */
  function Denoted(text: string, parseFloat: string -> Option<real>): Option<Size> {
    var trimmed := TrimSpace(text);
    if trimmed == "" then None
    else
      match UnitFrom(trimmed, 0)
      case Some(unit) =>
        UnitFromFits(trimmed, 0);
        Scaled(TrimSpace(CutSuffixFold(trimmed, unit.suffix).value), unit.scale, parseFloat)
      case None => Scaled(trimmed, 1, _ => None)
  }

  method ParseSize(text: string, parseFloat: string -> Option<real>) returns (r: Option<Size>)
    ensures r == Denoted(text, parseFloat)
  {
    hide CutSuffixFold;
    hide TrimSpace;
    hide ParseInt;
    hide EqualFold;
    var trimmed := TrimSpace(text);
    if trimmed == "" {
      return None;
    }
    for i := 0 to |UNITS|
      invariant UnitFrom(trimmed, 0) == UnitFrom(trimmed, i)
    {
      var unit, cut := UNITS[i], CutSuffixFold(trimmed, UNITS[i].suffix);
      if cut.None? {
        continue;
      }
      r := ParseCount(TrimSpace(cut.value), unit.scale, parseFloat);
      return;
    }
    var n := ParseInt(trimmed);
    if n.None? || n.value < 0 {
      return None;
    }
    return Some(n.value as Size);
  }

  lemma QuotientBounds(n: int, scale: int, limit: int)
    requires scale > 0 && limit >= 0
    ensures n <= limit / scale <==> n * scale <= limit
  {
    var q := limit / scale;
    assert q * scale <= limit < (q + 1) * scale;
    assert n <= q ==> n * scale <= q * scale;
    assert n >= q + 1 ==> n * scale >= (q + 1) * scale;
  }

  method ParseCount(digits: string, scale: Scale, parseFloat: string -> Option<real>) returns (r: Option<Size>)
    ensures r == Scaled(digits, scale, parseFloat)
  {
    hide ParseInt;
    hide Bytes;
    var n := ParseInt(digits);
    if n.Some? {
      QuotientBounds(n.value, scale as int, MAX as int);
      if n.value < 0 || n.value as Size > MAX / scale {
        return None;
      }
      return Some(n.value as Size * scale);
    }
    var x := parseFloat(digits);
    if x.None? {
      return None;
    }
    var bytes := Bytes(x.value, scale);
    if x.value < 0.0 || bytes >= LIMIT {
      return None;
    }
    return Some(bytes.Floor as Size);
  }

  // Printing

  predicate Fits(s: Size, unit: Unit) {
    EndsWith(unit.suffix, "iB") && s >= unit.scale && s as int % unit.scale as int == 0
  }

  /** Printed in the largest binary unit it is a whole number of, or else in bytes. */
  ghost predicate ShownIn(s: Size, unit: Unit) {
    && unit in UNITS
    && (forall other :: other in UNITS && Fits(s, other) ==> Fits(s, unit) && other.scale <= unit.scale)
    && (Fits(s, unit) || unit == Unit("B", 1))
  }

  ghost predicate ShownAs(s: Size, text: string) {
    exists unit :: ShownIn(s, unit) && text == FormatInt(s as int / unit.scale as int) + unit.suffix
  }

  method ToString(s: Size) returns (text: string)
    ensures ShownAs(s, text)
  {
    hide UNITS;
    hide Fits;
    hide FormatInt;
    var i := |UNITS|;
    while i > 0
      invariant 0 <= i <= |UNITS|
      invariant forall k :: i <= k < |UNITS| ==> !Fits(s, UNITS[k])
    {
      i := i - 1;
      if Fits(s, UNITS[i]) {
        LargerUnitsFirst(s, i);
        text := FormatInt(s as int / UNITS[i].scale as int) + UNITS[i].suffix;
        return;
      }
    }
    NothingFits(s);
    assert s as int / 1 == s as int;
    text := FormatInt(s as int) + "B";
  }

  /** Only the first four are written with iB, and they grow. */
  lemma BinaryUnits(i: nat)
    requires i < |UNITS|
    ensures EndsWith(UNITS[i].suffix, "iB") <==> i < 4
    ensures forall k :: 0 <= k <= i < 4 ==> UNITS[k].scale <= UNITS[i].scale
  {
    var suffix := UNITS[i].suffix;
    if i >= 4 && |suffix| >= 2 {
      assert suffix[|suffix| - 2] != 'i';
    }
  }

  lemma NothingFits(s: Size)
    requires forall k :: 0 <= k < |UNITS| ==> !Fits(s, UNITS[k])
    ensures ShownIn(s, Unit("B", 1))
  {
    assert UNITS[12] == Unit("B", 1);
    hide UNITS;
  }

  lemma LargerUnitsFirst(s: Size, i: nat)
    requires i < |UNITS| && Fits(s, UNITS[i])
    requires forall k :: i < k < |UNITS| ==> !Fits(s, UNITS[k])
    ensures ShownIn(s, UNITS[i])
  {
    hide UNITS;
    BinaryUnits(i);
    forall other | other in UNITS && Fits(s, other) ensures other.scale <= UNITS[i].scale {
      var k :| 0 <= k < |UNITS| && UNITS[k] == other;
      BinaryUnits(k);
    }
  }

  /** Which letter a suffix begins with, in the order of the prefixes. A plain B is none of them. */
  function PrefixRank(suffix: string): nat
    requires suffix != ""
  {
    match suffix[0]
    case 'K' => 1
    case 'M' => 2
    case 'G' => 3
    case 'T' => 4
    case _ => 0
  }

  function Times1024(n: nat): nat {
    if n == 0 then 1 else 1024 * Times1024(n - 1)
  }

  /** Each prefix is another factor of 1024, whether it is spelt KiB, KB or K. */
  lemma {:induction false} PrefixesScale(unit: Unit)
    requires unit in UNITS
    ensures unit.suffix != "" && unit.scale as int == Times1024(PrefixRank(unit.suffix))
  {
    assert Times1024(1) == 1024 && Times1024(2) == 1024 * 1024;
    assert Times1024(3) == 1024 * Times1024(2) && Times1024(4) == 1024 * Times1024(3);
  }

  // Reading back

  /** A count as anyone would write it: it starts with no blank and ends in a digit. */
  predicate IsCount(count: string) {
    count != "" && !IsSpace(count[0]) && IsDigit(count[|count| - 1])
  }

  predicate UnitLetter(c: char) {
    ToLower(c) in {'k', 'm', 'g', 't', 'i'}
  }

  /** Longer suffixes come first, no two of a length agree, and a longer one has a letter where a shorter one has none. */
  lemma EarlierUnit(i: nat, j: nat)
    requires i < j < |UNITS|
    ensures |UNITS[i].suffix| >= |UNITS[j].suffix| > 0
    ensures |UNITS[i].suffix| == |UNITS[j].suffix| ==> ToLower(UNITS[i].suffix[0]) != ToLower(UNITS[j].suffix[0])
    ensures |UNITS[i].suffix| > |UNITS[j].suffix| ==> UnitLetter(UNITS[i].suffix[|UNITS[i].suffix| - |UNITS[j].suffix| - 1])
  {
  }

  lemma EarlierUnitMisses(front: string, ending: string, i: nat, j: nat)
    requires i < j < |UNITS| && EqualFold(ending, UNITS[j].suffix)
    requires front != "" && !UnitLetter(front[|front| - 1])
    ensures CutSuffixFold(front + ending, UNITS[i].suffix).None?
  {
    EarlierUnit(i, j);
    hide UNITS;
    var text, suffix := front + ending, UNITS[i].suffix;
    if |suffix| <= |text| {
      var tail := text[|text| - |suffix|..];
      assert |suffix| == |ending| ==> tail == ending;
      assert |suffix| > |ending| ==> tail[|suffix| - |ending| - 1] == front[|front| - 1];
    }
  }

  lemma {:induction false} UnitFound(text: string, i: nat, j: nat)
    requires i <= j < |UNITS| && CutSuffixFold(text, UNITS[j].suffix).Some?
    requires forall k :: i <= k < j ==> CutSuffixFold(text, UNITS[k].suffix).None?
    ensures UnitFrom(text, i) == Some(UNITS[j])
    decreases j - i
  {
    hide UNITS;
    hide CutSuffixFold;
    if i < j {
      UnitFound(text, i + 1, j);
    }
  }

  lemma UnitAtEnd(front: string, ending: string, j: nat)
    requires j < |UNITS| && EqualFold(ending, UNITS[j].suffix)
    requires front != "" && !UnitLetter(front[|front| - 1])
    ensures UnitFrom(front + ending, 0) == Some(UNITS[j])
    ensures CutSuffixFold(front + ending, UNITS[j].suffix) == Some(front)
  {
    hide UNITS;
    var text := front + ending;
    assert text[|front|..] == ending && text[..|front|] == front;
    forall k | 0 <= k < j ensures CutSuffixFold(text, UNITS[k].suffix).None? {
      EarlierUnitMisses(front, ending, k, j);
    }
    UnitFound(text, 0, j);
  }

  lemma TrimsGap(count: string, gap: string)
    requires count != "" && !IsSpace(count[0]) && !IsSpace(count[|count| - 1]) && Blank(gap)
    ensures TrimSpace(count + gap) == count
  {
    TrimsBlanks("", count, gap);
    assert "" + count + gap == count + gap;
  }

  lemma SuffixIsTidy(ending: string, j: nat)
    requires j < |UNITS| && EqualFold(ending, UNITS[j].suffix)
    ensures ending != "" && !IsSpace(ending[|ending| - 1])
  {
    var suffix := UNITS[j].suffix;
    assert ToLower(suffix[|suffix| - 1]) in {'k', 'm', 'g', 't', 'b'};
  }

  /** Whatever the case of the unit and the gap before it, a count of a unit is that many of it. */
  lemma {:induction false} CountAndUnit(count: string, gap: string, ending: string, j: nat, parseFloat: string -> Option<real>)
    requires IsCount(count) && Blank(gap) && j < |UNITS| && EqualFold(ending, UNITS[j].suffix)
    ensures Denoted(count + gap + ending, parseFloat) == Scaled(count, UNITS[j].scale, parseFloat)
  {
    hide UNITS;
    hide Scaled;
    var front := count + gap;
    SuffixIsTidy(ending, j);
    assert IsSpace(front[|front| - 1]) || IsDigit(front[|front| - 1]);
    UnitAtEnd(front, ending, j);
    TrimsGap(count, gap);
    TrimsGap(front + ending, "");
    assert front + ending + "" == front + ending;
  }

  /** Every integer count with a unit is accepted exactly when the product fits, and denotes the product. */
  lemma {:induction false} IntegerCount(n: int, gap: string, ending: string, j: nat, parseFloat: string -> Option<real>)
    requires -MAX_INT64 - 1 <= n <= MAX_INT64 && Blank(gap) && j < |UNITS| && EqualFold(ending, UNITS[j].suffix)
    ensures Denoted(FormatInt(n) + gap + ending, parseFloat) ==
      if 0 <= n && n * UNITS[j].scale as int <= MAX as int then Some((n * UNITS[j].scale as int) as Size) else None
  {
    hide UNITS;
    FormatParses(n);
    FormattedIsCount(n);
    CountAndUnit(FormatInt(n), gap, ending, j, parseFloat);
  }

  lemma UnitEndsInLetter(i: nat)
    requires i < |UNITS|
    ensures UNITS[i].suffix != "" && ToLower(UNITS[i].suffix[|UNITS[i].suffix| - 1]) > '9'
  {
  }

  /** No unit ends in a digit. */
  lemma {:induction false} NoUnitAtEnd(count: string, i: nat)
    requires IsCount(count) && i <= |UNITS|
    ensures UnitFrom(count, i).None?
    decreases |UNITS| - i
  {
    if i < |UNITS| {
      UnitEndsInLetter(i);
      hide UNITS;
      NoUnitAtEnd(count, i + 1);
      var suffix := UNITS[i].suffix;
      if |suffix| <= |count| {
        var tail := count[|count| - |suffix|..];
        assert tail[|suffix| - 1] == count[|count| - 1];
      }
    }
  }

  /** A bare integer is a number of bytes: accepted exactly when it is not negative, and its own value. */
  lemma {:induction false} BareInteger(n: int, parseFloat: string -> Option<real>)
    requires -MAX_INT64 - 1 <= n <= MAX_INT64
    ensures Denoted(FormatInt(n), parseFloat) == if 0 <= n then Some(n as Size) else None
  {
    hide UNITS;
    var count := FormatInt(n);
    FormatParses(n);
    FormattedIsCount(n);
    NoUnitAtEnd(count, 0);
    TrimsGap(count, "");
    assert count + "" == count;
  }

  lemma FormattedIsCount(n: int)
    ensures IsCount(FormatInt(n))
  {
    var m := if n < 0 then -n else n;
    assert IsDigit(Printed(m)[0]) && IsDigit(Printed(m)[|Printed(m)| - 1]);
  }

  /** A printed size parses to itself, unless it is negative, which parsing refuses. */
  lemma {:induction false} PrintedSizeParses(s: Size, text: string, parseFloat: string -> Option<real>)
    requires ShownAs(s, text)
    ensures Denoted(text, parseFloat) == if s >= 0 then Some(s) else None
  {
    hide UNITS;
    hide Denoted;
    hide FormatInt;
    hide Fits;
    hide EqualFold;
    var unit :| ShownIn(s, unit) && text == FormatInt(s as int / unit.scale as int) + unit.suffix;
    var j :| 0 <= j < |UNITS| && UNITS[j] == unit;
    var n := s as int / unit.scale as int;
    assert Fits(s, unit) || unit == Unit("B", 1);
    WholeUnits(s, unit);
    FitsItself(unit.suffix);
    assert FormatInt(n) + "" + unit.suffix == text;
    IntegerCount(n, "", unit.suffix, j, parseFloat);
  }

  lemma WholeUnits(s: Size, unit: Unit)
    requires Fits(s, unit) || unit == Unit("B", 1)
    ensures s as int / unit.scale as int * unit.scale as int == s as int
    ensures s >= 0 ==> 0 <= s as int / unit.scale as int <= s as int
    ensures s < 0 ==> unit.scale == 1
  {
    hide EndsWith;
    DividesBack(s as int, unit.scale as int);
  }

  lemma DividesBack(n: int, scale: int)
    requires scale > 0 && n % scale == 0
    ensures n / scale * scale == n
    ensures n >= 0 ==> 0 <= n / scale <= n
  {
    var q := n / scale;
    assert n == q * scale;
    if n >= 0 {
      assert q >= 0 by {
        if q < 0 {
          Grows(-q, scale);
        }
      }
      Grows(q, scale);
    }
  }

  lemma Grows(q: int, scale: int)
    requires q >= 0 && scale > 0
    ensures q <= q * scale
    ensures (-q) * scale == -(q * scale)
  {
    assert q * scale == q + q * (scale - 1);
  }

  lemma FitsItself(suffix: string)
    ensures EqualFold(suffix, suffix)
  {
  }

  /** Printing and parsing again. */
  method PrintAndParse(s: Size, parseFloat: string -> Option<real>) returns (r: Option<Size>)
    ensures r == if s >= 0 then Some(s) else None
  {
    var text := ToString(s);
    PrintedSizeParses(s, text, parseFloat);
    r := ParseSize(text, parseFloat);
  }

  /** A count that is no integer is taken as a fraction, and its bytes are rounded down. */
  lemma {:induction false} FractionCount(count: string, gap: string, ending: string, j: nat, parseFloat: string -> Option<real>)
    requires IsCount(count) && Blank(gap) && j < |UNITS| && EqualFold(ending, UNITS[j].suffix)
    requires ParseInt(count).None? && parseFloat(count).Some?
    ensures RoundedDown(parseFloat(count).value, UNITS[j].scale as int, Denoted(count + gap + ending, parseFloat))
  {
    hide *;
    CountAndUnit(count, gap, ending, j, parseFloat);
    FractionScales(count, UNITS[j].scale, parseFloat);
  }

  predicate RoundedDown(x: real, scale: int, size: Option<Size>) {
    var bytes := x * (scale as real);
    && (size.Some? <==> 0.0 <= x && bytes < 9_223_372_036_854_775_808.0)
    && (size.Some? ==> size.value as int as real <= bytes < size.value as int as real + 1.0)
  }

  lemma FractionScales(digits: string, scale: Scale, parseFloat: string -> Option<real>)
    requires ParseInt(digits).None? && parseFloat(digits).Some?
    ensures RoundedDown(parseFloat(digits).value, scale as int, Scaled(digits, scale, parseFloat))
  {
    hide ParseInt;
    var x := parseFloat(digits).value;
    var bytes := Bytes(x, scale);
    assert bytes == x * (scale as int as real);
    if 0.0 <= x && bytes < LIMIT {
      var n := bytes.Floor;
      assert n as real <= bytes < n as real + 1.0;
      assert (n as Size) as int == n;
    }
  }

  /** Suffixes are the same in lower case. */
  lemma LowerCaseFits(j: nat)
    requires j < |UNITS|
    ensures EqualFold(["kib", "mib", "gib", "tib", "kb", "mb", "gb", "tb", "k", "m", "g", "t", "b"][j], UNITS[j].suffix)
  {
  }
}
