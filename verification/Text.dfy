/** Text as the agent compares it: code point by code point, which is the order of the UTF-8 bytes. */
module Text {

  predicate Less(a: string, b: string) {
    if b == [] then false
    else if a == [] then true
    else if a[0] != b[0] then a[0] < b[0]
    else Less(a[1..], b[1..])
  }

  lemma {:induction false} LessTotal(a: string, b: string)
    ensures Less(a, b) || Less(b, a) || a == b
    ensures !(Less(a, b) && Less(b, a))
    ensures !Less(a, a)
  {
    if a != [] {
      LessTotal(a[1..], a[1..]);
    }
    if a != [] && b != [] && a[0] == b[0] {
      LessTotal(a[1..], b[1..]);
      if a[1..] == b[1..] {
        assert a == [a[0]] + a[1..];
        assert b == [b[0]] + b[1..];
      }
    }
  }

  lemma {:induction false} LessTransitive(a: string, b: string, c: string)
    requires Less(a, b) && Less(b, c)
    ensures Less(a, c)
  {
    if a != [] && a[0] == b[0] && b[0] == c[0] {
      LessTransitive(a[1..], b[1..], c[1..]);
    }
  }

  /** The two agree up to k, where a has the smaller character. */
  ghost predicate SmallerAt(a: string, b: string, k: nat) {
    k < |a| && k < |b| && a[..k] == b[..k] && a[k] < b[k]
  }

  /** Dictionary order: a is cut short, or has the smaller character where the two first differ. */
  lemma {:induction false} LessMeans(a: string, b: string)
    ensures Less(a, b) <==> (|a| < |b| && a == b[..|a|]) || exists k: nat :: SmallerAt(a, b, k)
  {
    if a != [] && b != [] && a[0] == b[0] {
      LessMeans(a[1..], b[1..]);
      if k: nat :| SmallerAt(a[1..], b[1..], k) {
        assert a[..k + 1] == [a[0]] + a[1..][..k] && b[..k + 1] == [b[0]] + b[1..][..k];
        assert SmallerAt(a, b, k + 1);
      }
      if k: nat :| SmallerAt(a, b, k) {
        assert a[..k][0] == a[0] || k == 0;
        assert k > 0;
        assert a[1..][..k - 1] == a[..k][1..] && b[1..][..k - 1] == b[..k][1..];
        assert SmallerAt(a[1..], b[1..], k - 1);
      }
      assert a == [a[0]] + a[1..] && b == [b[0]] + b[1..];
      assert |a| < |b| ==> b[..|a|] == [b[0]] + b[1..][..|a| - 1];
    } else if a != [] && b != [] {
      assert a[0] < b[0] ==> SmallerAt(a, b, 0);
      forall k: nat | 0 < k && k < |a| && k < |b| ensures a[..k] != b[..k] {
        assert a[..k][0] == a[0] && b[..k][0] == b[0];
      }
      assert |a| < |b| ==> b[..|a|][0] == b[0];
    }
  }

  /** Over parts of one fixed width, the first part decides and the rest breaks ties. */
  lemma {:induction false} LessOfParts(a: string, b: string, s: string, t: string)
    requires |a| == |b|
    ensures Less(a + s, b + t) <==> Less(a, b) || (a == b && Less(s, t))
  {
    if a == [] {
      assert a + s == s && b + t == t;
    } else {
      assert (a + s)[1..] == a[1..] + s;
      assert (b + t)[1..] == b[1..] + t;
      LessOfParts(a[1..], b[1..], s, t);
      assert a == [a[0]] + a[1..];
      assert b == [b[0]] + b[1..];
    }
  }

  predicate StartsWith(s: string, prefix: string) {
    |prefix| <= |s| && s[..|prefix|] == prefix
  }

  predicate EndsWith(s: string, suffix: string) {
    |suffix| <= |s| && s[|s| - |suffix|..] == suffix
  }

  // Blank space, as Unicode lists it

  predicate IsSpace(c: char) {
    var n := c as int;
    9 <= n <= 13 || n == 32 || n == 0x85 || n == 0xA0 || n == 0x1680 || 0x2000 <= n <= 0x200A
    || n == 0x2028 || n == 0x2029 || n == 0x202F || n == 0x205F || n == 0x3000
  }

  function TrimSpace(s: string): string {
    if s != [] && IsSpace(s[0]) then TrimSpace(s[1..])
    else if s != [] && IsSpace(s[|s| - 1]) then TrimSpace(s[..|s| - 1])
    else s
  }

  predicate Blank(s: string) {
    forall i :: 0 <= i < |s| ==> IsSpace(s[i])
  }

  /** Trimming takes blanks off both ends and nothing else. */
  lemma {:induction false} TrimsBlanks(front: string, core: string, back: string)
    requires Blank(front) && Blank(back)
    requires core == "" || (!IsSpace(core[0]) && !IsSpace(core[|core| - 1]))
    ensures TrimSpace(front + core + back) == core
    decreases |front| + |back|
  {
    var s := front + core + back;
    if front != "" {
      assert s[1..] == front[1..] + core + back;
      TrimsBlanks(front[1..], core, back);
    } else if back != "" {
      var shorter := back[..|back| - 1];
      if core == "" {
        assert s[1..] == "" + core + back[1..];
        TrimsBlanks("", core, back[1..]);
      } else {
        assert s[..|s| - 1] == front + core + shorter;
        TrimsBlanks(front, core, shorter);
      }
    } else {
      assert s == core;
    }
  }

  datatype Option<+T> = None | Some(value: T)

  datatype Result<+T, +E> = Ok(value: T) | Err(error: E)

  // Sorted key lists

  predicate Ascending(keys: seq<string>) {
    forall i, j :: 0 <= i < j < |keys| ==> Less(keys[i], keys[j])
  }

  lemma {:induction false} LeastExists(keys: set<string>)
    requires keys != {}
    ensures exists k :: IsLeast(keys, k)
  {
    var x :| x in keys;
    if keys == {x} {
      LessTotal(x, x);
      assert IsLeast(keys, x);
    } else {
      LeastExists(keys - {x});
      var y :| IsLeast(keys - {x}, y);
      var least := if Less(x, y) then x else y;
      forall k | k in keys ensures !Less(k, least) {
        LessTotal(x, x);
        LessTotal(x, y);
        if k != x && Less(k, x) && Less(x, y) {
          LessTransitive(k, x, y);
        }
      }
      assert IsLeast(keys, least);
    }
  }

  predicate IsLeast(keys: set<string>, k: string) {
    k in keys && forall other :: other in keys ==> !Less(other, k)
  }

  lemma LeastUnique(keys: set<string>)
    ensures forall k, other :: IsLeast(keys, k) && IsLeast(keys, other) ==> k == other
  {
    forall k, other | IsLeast(keys, k) && IsLeast(keys, other) ensures k == other {
      LessTotal(k, other);
    }
  }

  function Least(keys: set<string>): (k: string)
    requires keys != {}
    ensures IsLeast(keys, k)
  {
    LeastExists(keys);
    LeastUnique(keys);
    var k :| k in keys && IsLeast(keys, k);
    k
  }

  /** The keys of a map in the one order that does not depend on map iteration. */
  function SortedKeys(keys: set<string>): (r: seq<string>)
    ensures forall k :: k in r <==> k in keys
    ensures Ascending(r)
    ensures |r| == |keys|
  {
    if keys == {} then []
    else
      var k := Least(keys);
      var rest := SortedKeys(keys - {k});
      assert Ascending([k] + rest) by {
        forall j | 0 <= j < |rest| ensures Less(k, rest[j]) {
          assert rest[j] in rest;
          LessTotal(k, rest[j]);
        }
      }
      [k] + rest
  }
}
