/** The canonical encoding of a desired-state tree, and why no two trees share one. */
module Canonical {
  import opened Text
  import opened Document

  // Strings, as section 7 of RFC 8259 allows and Go's encoder chooses

  function HexDigit(n: nat): char
    requires n < 16
  {
    "0123456789abcdef"[n]
  }

  function Unicode(c: char): string
    requires c as int < 0x10000
  {
    var n := c as int;
    "\\u" + [HexDigit(n / 16 / 16 / 16), HexDigit(n / 16 / 16 % 16), HexDigit(n / 16 % 16), HexDigit(n % 16)]
  }

  /** Quotes, controls, what could end an HTML script, and two line separators are escaped. */
  function EncodeChar(c: char): string {
    if c == '\"' then "\\\""
    else if c == '\\' then "\\\\"
    else if c as int == 8 then "\\b"
    else if c as int == 12 then "\\f"
    else if c == '\n' then "\\n"
    else if c == '\r' then "\\r"
    else if c == '\t' then "\\t"
    else if c as int < 32 || c in "<>&" || c as int == 0x2028 || c as int == 0x2029 then Unicode(c)
    else [c]
  }

  function EncodeChars(s: string): string {
    if s == [] then "\"" else EncodeChar(s[0]) + EncodeChars(s[1..])
  }

  function EncodeString(s: string): string {
    "\"" + EncodeChars(s)
  }

  // Trees

  function Encode(v: Value): string
    decreases v, 1, 0
  {
    match v
    case Scalar(text, _, _, _) => EncodeString(text)
    case List(items, _, _) => "[" + ListBody(items)
    case Map(fields, _, _) => "{" + MapBody(v, SortedKeys(fields.Keys))
  }

  function ListBody(items: seq<Value>): string
    decreases items, 0, |items|
  {
    if items == [] then "]" else Encode(items[0]) + ListRest(items)
  }

  function ListRest(items: seq<Value>): string
    requires items != []
    decreases items, 0, 0
  {
    if |items| == 1 then "]" else "," + ListBody(items[1..])
  }

  function MapBody(v: Value, keys: seq<string>): string
    requires v.Map? && forall k :: k in keys ==> k in v.fields
    decreases v, 0, 2 * |keys| + 1
  {
    if keys == [] then "}"
    else EncodeString(keys[0]) + (":" + (Encode(v.fields[keys[0]]) + MapRest(v, keys)))
  }

  function MapRest(v: Value, keys: seq<string>): string
    requires v.Map? && keys != [] && forall k :: k in keys ==> k in v.fields
    decreases v, 0, 2 * |keys|
  {
    if |keys| == 1 then "}" else "," + MapBody(v, keys[1..])
  }

  /** How a value reads in a message, and what two values are compared by. */
  function Render(v: Value): string {
    if v.Scalar? then v.text else Encode(v)
  }

  // The encoding can be read back

  /** A one-character mark in front of both sides comes off both. */
  lemma Unmark(m: string, n: string, a: string, b: string, s: string, t: string)
    requires |m| == |n| == 1 && m + a + s == n + b + t
    ensures m == n && a + s == b + t
  {
    var x, y := m + a + s, n + b + t;
    assert x[0] == m[0] && y[0] == n[0];
    assert x[1..] == a + s && y[1..] == b + t;
  }

  lemma Regroup(a: string, b: string, c: string)
    ensures a + b + c == a + (b + c)
  {
  }

  lemma HexDigitTells(m: nat, n: nat)
    requires m < 16 && n < 16 && HexDigit(m) == HexDigit(n)
    ensures m == n
  {
  }

  lemma UnicodePrefix(a: char, b: char, s: string, t: string)
    requires a as int < 0x10000 && b as int < 0x10000
    requires Unicode(a) + s == Unicode(b) + t
    ensures a == b && s == t
  {
    var x, y := Unicode(a), Unicode(b);
    assert x == (x + s)[..6] && y == (y + t)[..6];
    assert s == (x + s)[6..] && t == (y + t)[6..];
    var m, n := a as int, b as int;
    assert x[2] == y[2] && x[3] == y[3] && x[4] == y[4] && x[5] == y[5];
    HexDigitTells(m / 16 / 16 / 16, n / 16 / 16 / 16);
    HexDigitTells(m / 16 / 16 % 16, n / 16 / 16 % 16);
    HexDigitTells(m / 16 % 16, n / 16 % 16);
    HexDigitTells(m % 16, n % 16);
  }

  /** A character stands for itself, or follows a backslash as two or as six characters. */
  lemma CharShape(c: char)
    ensures var x := EncodeChar(c);
      && |x| in {1, 2, 6} && x[0] != '\"'
      && (|x| == 1 ==> x == [c] && c != '\\')
      && (|x| == 2 ==> x[0] == '\\' && x[1] != 'u')
      && (|x| == 6 ==> x[0] == '\\' && x[1] == 'u' && c as int < 0x10000 && x == Unicode(c))
  {
  }

  lemma ShortEscapes(a: char, b: char)
    requires |EncodeChar(a)| == 2 && EncodeChar(a) == EncodeChar(b)
    ensures a == b
  {
  }

  lemma CharPrefix(a: char, b: char, s: string, t: string)
    requires EncodeChar(a) + s == EncodeChar(b) + t
    ensures a == b && s == t
  {
    var x, y := EncodeChar(a), EncodeChar(b);
    hide EncodeChar;
    hide Unicode;
    CharShape(a);
    CharShape(b);
    if |x| == 6 && |y| == 6 {
      UnicodePrefix(a, b, s, t);
    } else {
      assert (x + s)[0] == x[0] && (y + t)[0] == y[0];
      assert |x| >= 2 && |y| >= 2 ==> (x + s)[1] == x[1] && (y + t)[1] == y[1];
      assert |x| == |y|;
      assert x == (x + s)[..|x|] && y == (y + t)[..|x|];
      assert (x + s)[|x|..] == s && (y + t)[|x|..] == t;
      if |x| == 2 {
        ShortEscapes(a, b);
      }
    }
  }

  lemma CharsFirst(a: string, s: string)
    ensures (EncodeChars(a) + s)[0] == '\"' <==> a == []
    ensures a == [] ==> (EncodeChars(a) + s)[1..] == s
  {
    hide EncodeChar;
    if a != [] {
      CharShape(a[0]);
      assert (EncodeChars(a) + s)[0] == EncodeChar(a[0])[0];
    }
  }

  lemma {:induction false} CharsPrefix(a: string, b: string, s: string, t: string)
    requires EncodeChars(a) + s == EncodeChars(b) + t
    ensures a == b && s == t
  {
    CharsFirst(a, s);
    CharsFirst(b, t);
    if a != [] && b != [] {
      Regroup(EncodeChar(a[0]), EncodeChars(a[1..]), s);
      Regroup(EncodeChar(b[0]), EncodeChars(b[1..]), t);
      CharPrefix(a[0], b[0], EncodeChars(a[1..]) + s, EncodeChars(b[1..]) + t);
      CharsPrefix(a[1..], b[1..], s, t);
      assert a == [a[0]] + a[1..] && b == [b[0]] + b[1..];
    }
  }

  lemma StringPrefix(a: string, b: string, s: string, t: string)
    requires EncodeString(a) + s == EncodeString(b) + t
    ensures a == b && s == t
  {
    Unmark("\"", "\"", EncodeChars(a), EncodeChars(b), s, t);
    CharsPrefix(a, b, s, t);
  }

  /** The character an encoding begins with, and what follows it. */
  function Mark(v: Value): string {
    match v
    case Scalar(_, _, _, _) => "\""
    case List(_, _, _) => "["
    case Map(_, _, _) => "{"
  }

  function Unmarked(v: Value): string {
    match v
    case Scalar(text, _, _, _) => EncodeChars(text)
    case List(items, _, _) => ListBody(items)
    case Map(fields, _, _) => MapBody(v, SortedKeys(fields.Keys))
  }

  lemma Marked(v: Value)
    ensures Encode(v) == Mark(v) + Unmarked(v)
  {
  }

  /** Encodings are self-delimiting: what a value declares can be told from the bytes that begin with it. */
  lemma {:induction false} CanonicalPrefix(v: Value, w: Value, s: string, t: string)
    requires Encode(v) + s == Encode(w) + t
    ensures Erase(v) == Erase(w) && s == t
    decreases v, 1, 0
  {
    Marked(v);
    Marked(w);
    Unmark(Mark(v), Mark(w), Unmarked(v), Unmarked(w), s, t);
    match v
    case Scalar(text, _, _, _) =>
      CharsPrefix(text, w.text, s, t);
    case List(items, _, _) =>
      ListPrefix(items, w.items, s, t);
    case Map(fields, _, _) =>
      MapPrefix(v, SortedKeys(fields.Keys), w, SortedKeys(w.fields.Keys), s, t);
      SameKeyList(fields.Keys, w.fields.Keys);
      SameFieldsSameTree(v, w);
  }

  lemma SameKeyList(a: set<string>, b: set<string>)
    requires SortedKeys(a) == SortedKeys(b)
    ensures a == b
    ensures forall k :: k in a ==> k in SortedKeys(a)
  {
    forall k ensures k in a <==> k in b {
      assert k in a <==> k in SortedKeys(a);
    }
  }

  lemma SameFieldsSameTree(v: Value, w: Value)
    requires v.Map? && w.Map? && v.fields.Keys == w.fields.Keys
    requires forall k :: k in v.fields ==> Erase(v.fields[k]) == Erase(w.fields[k])
    ensures Erase(v) == Erase(w)
  {
    var a, b := Erase(v).fields, Erase(w).fields;
    assert a.Keys == b.Keys;
    assert forall k :: k in a ==> a[k] == b[k];
    assert a == b;
  }

  lemma ListFirst(items: seq<Value>, s: string)
    ensures ListBody(items) != "" && ((ListBody(items) + s)[0] == ']' <==> items == [])
    ensures items == [] ==> (ListBody(items) + s)[1..] == s
  {
    if items != [] {
      Marked(items[0]);
      assert (ListBody(items) + s)[0] == Mark(items[0])[0];
    }
  }

  lemma {:induction false} ListPrefix(items: seq<Value>, items': seq<Value>, s: string, t: string)
    requires ListBody(items) + s == ListBody(items') + t
    ensures |items| == |items'| && forall i :: 0 <= i < |items| ==> Erase(items[i]) == Erase(items'[i])
    ensures s == t
    decreases items, 0, |items|
  {
    ListFirst(items, s);
    ListFirst(items', t);
    if items != [] && items' != [] {
      Regroup(Encode(items[0]), ListRest(items), s);
      Regroup(Encode(items'[0]), ListRest(items'), t);
      CanonicalPrefix(items[0], items'[0], ListRest(items) + s, ListRest(items') + t);
      ListRestPrefix(items, items', s, t);
      if |items| > 1 {
        ListPrefix(items[1..], items'[1..], s, t);
        assert items == [items[0]] + items[1..] && items' == [items'[0]] + items'[1..];
      }
    }
  }

  lemma ListRestPrefix(items: seq<Value>, items': seq<Value>, s: string, t: string)
    requires items != [] && items' != [] && ListRest(items) + s == ListRest(items') + t
    ensures |items| == 1 <==> |items'| == 1
    ensures if |items| == 1 then s == t else ListBody(items[1..]) + s == ListBody(items'[1..]) + t
  {
    hide ListBody;
    var more, more' := |items| > 1, |items'| > 1;
    var body := if more then ListBody(items[1..]) else "";
    var body' := if more' then ListBody(items'[1..]) else "";
    assert ListRest(items) == (if more then "," else "]") + body;
    assert ListRest(items') == (if more' then "," else "]") + body';
    Unmark(if more then "," else "]", if more' then "," else "]", body, body', s, t);
    assert "" + s == s && "" + t == t;
  }

  lemma MapFirst(v: Value, keys: seq<string>, s: string)
    requires v.Map? && forall k :: k in keys ==> k in v.fields
    ensures (MapBody(v, keys) + s)[0] == '}' <==> keys == []
    ensures keys == [] ==> (MapBody(v, keys) + s)[1..] == s
  {
  }

  lemma {:induction false} MapPrefix(v: Value, keys: seq<string>, w: Value, keys': seq<string>, s: string, t: string)
    requires v.Map? && forall k :: k in keys ==> k in v.fields
    requires w.Map? && forall k :: k in keys' ==> k in w.fields
    requires MapBody(v, keys) + s == MapBody(w, keys') + t
    ensures keys == keys' && forall k :: k in keys ==> Erase(v.fields[k]) == Erase(w.fields[k])
    ensures s == t
    decreases v, 0, |keys|
  {
    MapFirst(v, keys, s);
    MapFirst(w, keys', t);
    if keys != [] && keys' != [] {
      var field, field' := Encode(v.fields[keys[0]]), Encode(w.fields[keys'[0]]);
      var rest, rest' := MapRest(v, keys), MapRest(w, keys');
      Regroup(EncodeString(keys[0]), ":" + (field + rest), s);
      Regroup(EncodeString(keys'[0]), ":" + (field' + rest'), t);
      StringPrefix(keys[0], keys'[0], ":" + (field + rest) + s, ":" + (field' + rest') + t);
      Unmark(":", ":", field + rest, field' + rest', s, t);
      Regroup(field, rest, s);
      Regroup(field', rest', t);
      CanonicalPrefix(v.fields[keys[0]], w.fields[keys'[0]], rest + s, rest' + t);
      MapRestPrefix(v, keys, w, keys', s, t);
      if |keys| > 1 {
        MapPrefix(v, keys[1..], w, keys'[1..], s, t);
      }
      assert keys == [keys[0]] + keys[1..] && keys' == [keys'[0]] + keys'[1..];
    }
  }

  lemma MapRestPrefix(v: Value, keys: seq<string>, w: Value, keys': seq<string>, s: string, t: string)
    requires v.Map? && keys != [] && forall k :: k in keys ==> k in v.fields
    requires w.Map? && keys' != [] && forall k :: k in keys' ==> k in w.fields
    requires MapRest(v, keys) + s == MapRest(w, keys') + t
    ensures |keys| == 1 <==> |keys'| == 1
    ensures if |keys| == 1 then s == t else MapBody(v, keys[1..]) + s == MapBody(w, keys'[1..]) + t
  {
    MapRestSplits(v, keys);
    MapRestSplits(w, keys');
    hide MapBody;
    hide MapRest;
    var more, more' := |keys| > 1, |keys'| > 1;
    var body := if more then MapBody(v, keys[1..]) else "";
    var body' := if more' then MapBody(w, keys'[1..]) else "";
    Unmark(if more then "," else "}", if more' then "," else "}", body, body', s, t);
    assert "" + s == s && "" + t == t;
  }

  lemma MapRestSplits(v: Value, keys: seq<string>)
    requires v.Map? && keys != [] && forall k :: k in keys ==> k in v.fields
    ensures MapRest(v, keys) == (if |keys| > 1 then "," else "}") + (if |keys| > 1 then MapBody(v, keys[1..]) else "")
  {
  }

  /** Provenance and quoting leave no trace in the encoding. */
  lemma {:induction false} CanonicalIgnoresProvenance(v: Value, w: Value)
    requires Erase(v) == Erase(w)
    ensures Encode(v) == Encode(w)
    decreases v, 1, 0
  {
    match v
    case Scalar(_, _, _, _) =>
      assert w.Scalar?;
    case List(items, _, _) =>
      assert w.List?;
      assert |Erase(v).items| == |Erase(w).items|;
      forall i | 0 <= i < |items| ensures Erase(items[i]) == Erase(w.items[i]) {
        assert Erase(v).items[i] == Erase(w).items[i];
      }
      ListIgnoresProvenance(items, w.items);
    case Map(fields, _, _) =>
      assert w.Map?;
      assert fields.Keys == Erase(v).fields.Keys == w.fields.Keys;
      forall k | k in fields ensures Erase(fields[k]) == Erase(w.fields[k]) {
        assert Erase(v).fields[k] == Erase(w).fields[k];
      }
      MapIgnoresProvenance(v, w, SortedKeys(fields.Keys));
  }

  lemma {:induction false} ListIgnoresProvenance(items: seq<Value>, items': seq<Value>)
    requires |items| == |items'| && forall i :: 0 <= i < |items| ==> Erase(items[i]) == Erase(items'[i])
    ensures ListBody(items) == ListBody(items')
    decreases items, 0, |items|
  {
    if items != [] {
      CanonicalIgnoresProvenance(items[0], items'[0]);
      ListIgnoresProvenance(items[1..], items'[1..]);
    }
  }

  lemma {:induction false} MapIgnoresProvenance(v: Value, w: Value, keys: seq<string>)
    requires v.Map? && w.Map? && forall k :: k in keys ==> k in v.fields && k in w.fields
    requires forall k :: k in keys ==> Erase(v.fields[k]) == Erase(w.fields[k])
    ensures MapBody(v, keys) == MapBody(w, keys)
    decreases v, 0, |keys|
  {
    if keys != [] {
      CanonicalIgnoresProvenance(v.fields[keys[0]], w.fields[keys[0]]);
      MapIgnoresProvenance(v, w, keys[1..]);
    }
  }

  /** Two values are written alike exactly when they declare the same. */
  lemma {:induction false} CanonicalTells(v: Value, w: Value)
    ensures Encode(v) == Encode(w) <==> Erase(v) == Erase(w)
  {
    if Encode(v) == Encode(w) {
      CanonicalPrefix(v, w, "", "");
    }
    if Erase(v) == Erase(w) {
      CanonicalIgnoresProvenance(v, w);
    }
  }

  // Writing into a builder

  class Builder {
    var text: string

    constructor ()
      ensures text == ""
    {
      text := "";
    }

    method Write(s: string)
      modifies this
      ensures text == old(text) + s
    {
      text := text + s;
    }

    method WriteCanonical(v: Value)
      modifies this
      ensures text == old(text) + Encode(v)
      decreases v, 1
    {
      match v
      case Scalar(s, _, _, _) =>
        Write(EncodeString(s));
      case List(items, _, _) =>
        Regroup(text, "[", ListBody(items));
        Write("[");
        WriteItems(items);
      case Map(fields, _, _) =>
        Regroup(text, "{", MapBody(v, SortedKeys(fields.Keys)));
        Write("{");
        WriteFields(v);
    }

    method WriteSeparator(i: nat)
      modifies this
      ensures text == old(text) + Separator(i)
    {
      if i > 0 {
        Write(",");
      } else {
        assert text + "" == text;
      }
    }

    method WriteItems(items: seq<Value>)
      modifies this
      ensures text == old(text) + ListBody(items)
      decreases items, 0
    {
      hide *;
      ghost var whole := text + ListBody(items);
      ListEnds(items);
      for i := 0 to |items|
        invariant text + ListLeft(items, i) == whole
      {
        ListStep(items, i);
        Chain(text, Separator(i), Encode(items[i]), ListLeft(items, i + 1));
        WriteSeparator(i);
        WriteCanonical(items[i]);
      }
      Write("]");
    }

    method WriteFields(v: Value)
      requires v.Map?
      modifies this
      ensures text == old(text) + MapBody(v, SortedKeys(v.fields.Keys))
      decreases v, 0
    {
      hide *;
      var keys := SortedKeys(v.fields.Keys);
      ghost var whole := text + MapBody(v, keys);
      MapEnds(v, keys);
      for i := 0 to |keys|
        invariant text + MapLeft(v, keys, i) == whole
      {
        MapStep(v, keys, i);
        Chain(text, Separator(i), MapEntry(v, keys[i]), MapLeft(v, keys, i + 1));
        WriteSeparator(i);
        WriteEntry(v, keys[i]);
      }
      Write("}");
    }

    method WriteEntry(v: Value, key: string)
      requires v.Map? && key in v.fields
      modifies this
      ensures text == old(text) + MapEntry(v, key)
      decreases v, 0, 0
    {
      Chain(text, EncodeString(key), ":", Encode(v.fields[key]));
      Write(EncodeString(key));
      Write(":");
      WriteCanonical(v.fields[key]);
    }
  }

  lemma Chain(done: string, a: string, b: string, c: string)
    ensures done + (a + (b + c)) == done + a + b + c
  {
  }

  function Separator(i: nat): string {
    if i > 0 then "," else ""
  }

  /** What is still to be written once i items have been. */
  ghost function ListLeft(items: seq<Value>, i: nat): string
    requires i <= |items|
  {
    if i == |items| then "]" else Separator(i) + ListBody(items[i..])
  }

  lemma ListEnds(items: seq<Value>)
    ensures ListLeft(items, 0) == ListBody(items) && ListLeft(items, |items|) == "]"
  {
    assert items[0..] == items;
    assert Separator(0) + ListBody(items) == ListBody(items);
  }

  lemma ListStep(items: seq<Value>, i: nat)
    requires i < |items|
    ensures ListLeft(items, i) == Separator(i) + (Encode(items[i]) + ListLeft(items, i + 1))
  {
    assert items[i..][1..] == items[i + 1..];
    assert ListRest(items[i..]) == ListLeft(items, i + 1);
  }

  ghost function MapEntry(v: Value, key: string): string
    requires v.Map? && key in v.fields
  {
    EncodeString(key) + (":" + Encode(v.fields[key]))
  }

  ghost function MapLeft(v: Value, keys: seq<string>, i: nat): string
    requires v.Map? && i <= |keys| && forall k :: k in keys ==> k in v.fields
  {
    if i == |keys| then "}" else Separator(i) + MapBody(v, keys[i..])
  }

  lemma MapEnds(v: Value, keys: seq<string>)
    requires v.Map? && forall k :: k in keys ==> k in v.fields
    ensures MapLeft(v, keys, 0) == MapBody(v, keys) && MapLeft(v, keys, |keys|) == "}"
  {
    assert keys[0..] == keys;
    assert Separator(0) + MapBody(v, keys) == MapBody(v, keys);
  }

  lemma MapStep(v: Value, keys: seq<string>, i: nat)
    requires v.Map? && i < |keys| && forall k :: k in keys ==> k in v.fields
    ensures MapLeft(v, keys, i) == Separator(i) + (MapEntry(v, keys[i]) + MapLeft(v, keys, i + 1))
  {
    assert keys[i..][1..] == keys[i + 1..];
    assert MapRest(v, keys[i..]) == MapLeft(v, keys, i + 1);
    Regroup(EncodeString(keys[i]), ":" + Encode(v.fields[keys[i]]), MapLeft(v, keys, i + 1));
    Regroup(":", Encode(v.fields[keys[i]]), MapLeft(v, keys, i + 1));
  }
}
