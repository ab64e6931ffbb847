/** Numbers in base ten, as they are printed and parsed. */
module Decimal {
  import opened Text

  predicate IsDigit(c: char) {
    '0' <= c <= '9'
  }

  predicate AllDigits(s: string) {
    forall i :: 0 <= i < |s| ==> IsDigit(s[i])
  }

  function Digit(d: nat): (c: char)
    requires d < 10
    ensures IsDigit(c)
  {
    ('0' as int + d) as char
  }

  function Power10(n: nat): (p: nat)
    ensures p > 0
  {
    if n == 0 then 1 else 10 * Power10(n - 1)
  }

  function Value(s: string): nat
    requires AllDigits(s)
  {
    if s == "" then 0 else Value(s[..|s| - 1]) * 10 + (s[|s| - 1] as int - '0' as int)
  }

  /** The shortest form. */
  function Printed(n: nat): (s: string)
    ensures s != "" && AllDigits(s)
  {
    if n < 10 then [Digit(n)] else Printed(n / 10) + [Digit(n % 10)]
  }

  /** Exactly so many digits, with leading zeros. */
  function Padded(n: nat, width: nat): (s: string)
    ensures |s| == width && AllDigits(s)
  {
    if width == 0 then "" else Padded(n / 10, width - 1) + [Digit(n % 10)]
  }

  lemma {:induction false} PrintedReads(n: nat)
    ensures Value(Printed(n)) == n
  {
    if n >= 10 {
      PrintedReads(n / 10);
      assert Printed(n)[..|Printed(n)| - 1] == Printed(n / 10);
    } else {
      assert Printed(n)[..0] == "";
    }
  }

  lemma {:induction false} PaddedReads(n: nat, width: nat)
    requires n < Power10(width)
    ensures Value(Padded(n, width)) == n
  {
    if width > 0 {
      PaddedReads(n / 10, width - 1);
      assert Padded(n, width)[..width - 1] == Padded(n / 10, width - 1);
    }
  }

  /** At one width, text order is number order. */
  lemma {:induction false} PaddedOrder(a: nat, b: nat, width: nat)
    requires a < Power10(width) && b < Power10(width)
    ensures Less(Padded(a, width), Padded(b, width)) <==> a < b
    ensures Padded(a, width) == Padded(b, width) <==> a == b
  {
    PaddedReads(a, width);
    PaddedReads(b, width);
    if width > 0 {
      PaddedOrder(a / 10, b / 10, width - 1);
      LessOfParts(Padded(a / 10, width - 1), Padded(b / 10, width - 1), [Digit(a % 10)], [Digit(b % 10)]);
      DigitOrder(a % 10, b % 10);
    }
  }

  lemma DigitOrder(a: nat, b: nat)
    requires a < 10 && b < 10
    ensures Less([Digit(a)], [Digit(b)]) <==> a < b
  {
  }

  // Parsing within 64 bits

  const MAX_INT64 := 0x7FFF_FFFF_FFFF_FFFF
  const MAX_UINT64 := 0xFFFF_FFFF_FFFF_FFFF

  function ParseUint(s: string): Option<nat> {
    if s != "" && AllDigits(s) && Value(s) <= MAX_UINT64 then Some(Value(s)) else None
  }

  function ParseInt(s: string): (r: Option<int>)
    ensures r.Some? ==> -MAX_INT64 - 1 <= r.value <= MAX_INT64
  {
    if s == "" then None
    else
      var signed := s[0] == '+' || s[0] == '-';
      var digits := if signed then s[1..] else s;
      if digits == "" || !AllDigits(digits) then None
      else
        var magnitude: int := Value(digits);
        var n := if s[0] == '-' then -magnitude else magnitude;
        if -MAX_INT64 - 1 <= n <= MAX_INT64 then Some(n) else None
  }

  function FormatInt(n: int): (s: string)
    ensures s != ""
  {
    if n < 0 then "-" + Printed(-n) else Printed(n)
  }

  lemma {:induction false} FormatParses(n: int)
    requires -MAX_INT64 - 1 <= n <= MAX_INT64
    ensures ParseInt(FormatInt(n)) == Some(n)
  {
    var m := if n < 0 then -n else n;
    PrintedReads(m);
    assert IsDigit(Printed(m)[0]);
    if n < 0 {
      assert FormatInt(n)[1..] == Printed(m);
    }
  }
}
