/** A reader of encodings, after section 7 of RFC 8259 and on its own terms: it knows nothing of the encoder. */
module Reader {
  import opened Text
  import opened Document
  import opened Canonical

  // Strings

  /** The character meant by the one after a backslash. */
  function Meant(c: char): Option<char> {
    match c
    case '\"' => Some('\"')
    case '\\' => Some('\\')
    case '/' => Some('/')
    case 'b' => Some(8 as char)
    case 'f' => Some(12 as char)
    case 'n' => Some('\n')
    case 'r' => Some('\r')
    case 't' => Some('\t')
    case _ => None
  }

  function HexValue(c: char): Option<nat> {
    if '0' <= c <= '9' then Some(c as int - '0' as int)
    else if 'a' <= c <= 'f' then Some(c as int - 'a' as int + 10)
    else if 'A' <= c <= 'F' then Some(c as int - 'A' as int + 10)
    else None
  }

  /** The character of four hexadecimal digits. Half a surrogate pair is none. */
  function HexChar(digits: string): Option<char>
    requires |digits| == 4
  {
    match (HexValue(digits[0]), HexValue(digits[1]), HexValue(digits[2]), HexValue(digits[3]))
    case (Some(a), Some(b), Some(c), Some(d)) =>
      var n := a * 0x1000 + b * 0x100 + c * 0x10 + d;
      if n < 0xD800 || 0xE000 <= n < 0x10000 then Some(n as char) else None
    case _ => None
  }

  function InFront(c: char, rest: Option<(string, string)>): Option<(string, string)> {
    match rest
    case Some((chars, left)) => Some(([c] + chars, left))
    case None => None
  }

  /** Reads up to the closing quote. A control character may not stand for itself. */
  function Unescape(s: string): (r: Option<(string, string)>)
    ensures r.Some? ==> |r.value.1| < |s|
  {
    if s == "" then None
    else if s[0] == '\"' then Some(("", s[1..]))
    else if s[0] != '\\' then if s[0] as int < 0x20 then None else InFront(s[0], Unescape(s[1..]))
    else if |s| >= 2 && s[1] != 'u' then
      match Meant(s[1])
      case Some(c) => InFront(c, Unescape(s[2..]))
      case None => None
    else if |s| >= 6 then
      match HexChar(s[2..6])
      case Some(c) => InFront(c, Unescape(s[6..]))
      case None => None
    else None
  }

  /** One character, however it was written, is read back as itself. */
  lemma CharReads(c: char, rest: string)
    ensures Unescape(EncodeChar(c) + rest) == InFront(c, Unescape(rest))
  {
    hide EncodeChar;
    hide Unicode;
    hide Meant;
    hide HexChar;
    var x := EncodeChar(c);
    CharShape(c);
    if |x| == 1 {
      PlainIsNoControl(c);
      assert (x + rest)[1..] == rest;
    } else if |x| == 2 {
      assert (x + rest)[2..] == rest && (x + rest)[1] == x[1];
      ShortReads(c);
    } else {
      assert (x + rest)[6..] == rest && (x + rest)[2..6] == x[2..6] && (x + rest)[1] == x[1];
      UnicodeReads(c);
    }
  }

  lemma PlainIsNoControl(c: char)
    requires |EncodeChar(c)| == 1
    ensures c as int >= 0x20
  {
  }

  lemma ShortReads(c: char)
    requires |EncodeChar(c)| == 2
    ensures Meant(EncodeChar(c)[1]) == Some(c)
  {
  }

  lemma HexReads(n: nat)
    requires n < 16
    ensures HexValue(HexDigit(n)) == Some(n)
  {
  }

  lemma UnicodeReads(c: char)
    requires c as int < 0x10000
    ensures HexChar(Unicode(c)[2..6]) == Some(c)
  {
    var n := c as int;
    HexReads(n / 16 / 16 / 16);
    HexReads(n / 16 / 16 % 16);
    HexReads(n / 16 % 16);
    HexReads(n % 16);
    hide HexDigit;
    hide HexValue;
    var digits := Unicode(c)[2..6];
    assert digits[0] == HexDigit(n / 16 / 16 / 16) && digits[1] == HexDigit(n / 16 / 16 % 16);
    assert digits[2] == HexDigit(n / 16 % 16) && digits[3] == HexDigit(n % 16);
    assert n == n / 16 / 16 / 16 * 0x1000 + n / 16 / 16 % 16 * 0x100 + n / 16 % 16 * 0x10 + n % 16;
  }

  /** An encoded string is read back as it was, whatever follows it. */
  lemma {:induction false} StringReads(s: string, t: string)
    ensures Unescape(EncodeChars(s) + t) == Some((s, t))
  {
    if s == "" {
      assert ("\"" + t)[1..] == t;
    } else {
      hide EncodeChar;
      Regroup(EncodeChar(s[0]), EncodeChars(s[1..]), t);
      CharReads(s[0], EncodeChars(s[1..]) + t);
      StringReads(s[1..], t);
      assert s == [s[0]] + s[1..];
    }
  }

  lemma LowerCaseDigit(n: nat)
    requires n < 16
    ensures '0' <= HexDigit(n) <= '9' || 'a' <= HexDigit(n) <= 'f'
  {
  }

  /** The hexadecimal digits of an escape are in lower case. */
  lemma {:induction false} LowerCaseEscape(c: char, i: nat)
    requires c as int < 0x10000 && 2 <= i < 6
    ensures '0' <= Unicode(c)[i] <= '9' || 'a' <= Unicode(c)[i] <= 'f'
  {
    var n := c as int;
    LowerCaseDigit(n / 16 / 16 / 16);
    LowerCaseDigit(n / 16 / 16 % 16);
    LowerCaseDigit(n / 16 % 16);
    LowerCaseDigit(n % 16);
    hide HexDigit;
  }

  /** Which characters are written as they are: all but controls, quotes, backslashes and the few that are dangerous in HTML or scripts. */
  lemma {:induction false} WrittenPlain(c: char)
    ensures EncodeChar(c) == [c] <==>
      c as int >= 0x20 && c !in "\"\\<>&" && c as int != 0x2028 && c as int != 0x2029
    ensures |EncodeChar(c)| == 2 <==> c in "\"\\\n\r\t" || c as int == 8 || c as int == 12
  {
    assert c in "<>&" <==> c == '<' || c == '>' || c == '&';
    assert c in "\"\\<>&" <==> c == '\"' || c == '\\' || c == '<' || c == '>' || c == '&';
    assert c in "\"\\\n\r\t" <==> c == '\"' || c == '\\' || c == '\n' || c == '\r' || c == '\t';
  }

  // Trees

  /** One value: a string, or items or fields in brackets, with nothing in between but commas and colons. */
  function Read(s: string): (r: Option<(Tree, string)>)
    ensures r.Some? ==> |r.value.1| < |s|
    decreases |s|, 0
  {
    if s == "" then None
    else if s[0] == '\"' then
      match Unescape(s[1..])
      case Some((text, left)) => Some((Leaf(text), left))
      case None => None
    else if s[0] == '[' then
      if |s| >= 2 && s[1] == ']' then Some((Items([]), s[2..]))
      else
        match ReadItems(s[1..])
        case Some((items, left)) => Some((Items(items), left))
        case None => None
    else if s[0] == '{' then
      if |s| >= 2 && s[1] == '}' then Some((Fields(map[]), s[2..]))
      else
        match ReadFields(s[1..], None)
        case Some((fields, left)) => Some((Fields(fields), left))
        case None => None
    else None
  }

  /** One item or more, and the closing bracket. */
  function ReadItems(s: string): (r: Option<(seq<Tree>, string)>)
    ensures r.Some? ==> |r.value.1| < |s|
    decreases |s|, 1
  {
    match Read(s)
    case None => None
    case Some((first, left)) =>
      if left == "" then None
      else if left[0] == ']' then Some(([first], left[1..]))
      else if left[0] == ',' then
        match ReadItems(left[1..])
        case Some((more, rest)) => Some(([first] + more, rest))
        case None => None
      else None
  }

  /** One field or more, each key after the last one, and the closing brace. */
  function ReadFields(s: string, last: Option<string>): (r: Option<(map<string, Tree>, string)>)
    ensures r.Some? ==> |r.value.1| < |s|
    decreases |s|, 1
  {
    if s == "" || s[0] != '\"' then None
    else
      match Unescape(s[1..])
      case None => None
      case Some((key, colon)) =>
        if colon == "" || colon[0] != ':' || (last.Some? && !Less(last.value, key)) then None
        else
          match Read(colon[1..])
          case None => None
          case Some((value, left)) =>
            if left == "" then None
            else if left[0] == '}' then Some((map[key := value], left[1..]))
            else if left[0] == ',' then
              match ReadFields(left[1..], Some(key))
              case Some((more, rest)) => Some((more[key := value], rest))
              case None => None
            else None
  }

  /** Reading an encoding gives what was declared, whatever follows it: brackets, commas, colons and the order of keys included. */
  lemma {:induction false} EncodingReads(v: Value, t: string)
    ensures Read(Encode(v) + t) == Some((Erase(v), t))
    decreases v, 1, 0
  {
    match v
    case Scalar(text, _, _, _) =>
      Regroup("\"", EncodeChars(text), t);
      StringReads(text, t);
      OffFront('\"', EncodeChars(text) + t);
    case List(items, _, _) =>
      ListReads(v, t);
    case Map(fields, _, _) =>
      MapReads(v, t);
  }

  lemma {:induction false} ListReads(v: Value, t: string)
    requires v.List?
    ensures Read(Encode(v) + t) == Some((Erase(v), t))
    decreases v, 0, |v.items| + 1
  {
    hide Read;
    hide ReadItems;
    var items := v.items;
    assert Erase(v) == Items(ErasedItems(items));
    assert Encode(v) == "[" + ListBody(items);
    Regroup("[", ListBody(items), t);
    if items == [] {
      assert ListBody(items) == "]" && ErasedItems(items) == [];
      NothingBetween(t);
    } else {
      ListStarts(items, t);
      ItemsRead(items, t);
      ItemsBracketed(ListBody(items) + t);
    }
  }

  lemma {:induction false} MapReads(v: Value, t: string)
    requires v.Map?
    ensures Read(Encode(v) + t) == Some((Erase(v), t))
    decreases v, 0, 2 * |SortedKeys(v.fields.Keys)| + 2
  {
    hide Read;
    hide ReadFields;
    var keys := SortedKeys(v.fields.Keys);
    assert Erase(v) == Fields(ErasedFields(v, keys));
    assert Encode(v) == "{" + MapBody(v, keys);
    Regroup("{", MapBody(v, keys), t);
    if keys == [] {
      assert MapBody(v, keys) == "}" && ErasedFields(v, keys) == map[];
      NothingBetween(t);
    } else {
      MapStarts(v, keys, t);
      FieldsRead(v, keys, None, t);
      FieldsBraced(MapBody(v, keys) + t);
    }
  }

  lemma OffFront(c: char, s: string)
    ensures ([c] + s)[0] == c && ([c] + s)[1..] == s
  {
  }

  lemma NothingBetween(t: string)
    ensures Read("[" + ("]" + t)) == Some((Items([]), t))
    ensures Read("{" + ("}" + t)) == Some((Fields(map[]), t))
  {
    assert ("[" + ("]" + t))[2..] == t && ("{" + ("}" + t))[2..] == t;
    assert ("[" + ("]" + t))[1] == ']' && ("{" + ("}" + t))[1] == '}';
  }

  lemma ItemsBracketed(body: string)
    requires body != "" && body[0] != ']' && ReadItems(body).Some?
    ensures Read("[" + body) == Some((Items(ReadItems(body).value.0), ReadItems(body).value.1))
  {
    hide ReadItems;
    OffFront('[', body);
    assert ("[" + body)[1] == body[0];
  }

  lemma FieldsBraced(body: string)
    requires body != "" && body[0] != '}' && ReadFields(body, None).Some?
    ensures Read("{" + body) == Some((Fields(ReadFields(body, None).value.0), ReadFields(body, None).value.1))
  {
    hide ReadFields;
    OffFront('{', body);
    assert ("{" + body)[1] == body[0];
  }

  /** One field of several: what follows its value decides whether there are more. */
  lemma FieldFirst(s: string, last: Option<string>, key: string, value: Tree, colon: string, left: string)
    requires s != "" && s[0] == '\"' && Unescape(s[1..]) == Some((key, colon))
    requires colon != "" && colon[0] == ':' && Read(colon[1..]) == Some((value, left)) && left != ""
    requires last.Some? ==> Less(last.value, key)
    ensures left[0] == '}' ==> ReadFields(s, last) == Some((map[key := value], left[1..]))
    ensures left[0] == ',' && ReadFields(left[1..], Some(key)).Some? ==>
      var more := ReadFields(left[1..], Some(key)).value;
      ReadFields(s, last) == Some((more.0[key := value], more.1))
  {
    hide Unescape;
    hide Read;
    hide Less;
  }

  function ErasedItems(items: seq<Value>): seq<Tree> {
    seq(|items|, i requires 0 <= i < |items| => Erase(items[i]))
  }

  function ErasedFields(v: Value, keys: seq<string>): map<string, Tree>
    requires v.Map? && forall k :: k in keys ==> k in v.fields
  {
    map k | k in keys :: Erase(v.fields[k])
  }

  /** No value begins with a closing bracket. */
  lemma EncodingStarts(v: Value, t: string)
    ensures Encode(v) != "" && (Encode(v) + t)[0] in "\"[{"
  {
  }

  lemma ListStarts(items: seq<Value>, t: string)
    requires items != []
    ensures ListBody(items) != "" && (ListBody(items) + t)[0] != ']'
  {
    EncodingStarts(items[0], ListRest(items) + t);
    Regroup(Encode(items[0]), ListRest(items), t);
  }

  lemma MapStarts(v: Value, keys: seq<string>, t: string)
    requires v.Map? && keys != [] && forall k :: k in keys ==> k in v.fields
    ensures MapBody(v, keys) != "" && (MapBody(v, keys) + t)[0] == '\"'
  {
  }

  lemma {:induction false} ItemsRead(items: seq<Value>, t: string)
    requires items != []
    ensures ReadItems(ListBody(items) + t) == Some((ErasedItems(items), t))
    decreases items, 0, |items|
  {
    var first, rest := items[0], ListRest(items);
    Regroup(Encode(first), rest, t);
    EncodingReads(first, rest + t);
    ItemsRestIs(items, t);
    ErasedItemsGrow(items);
    hide Encode;
    hide Read;
    hide ReadItems;
    hide ListRest;
    hide ErasedItems;
    ItemFirst(ListBody(items) + t, Erase(first), rest + t);
    hide ListBody;
    if |items| > 1 {
      ItemsRead(items[1..], t);
    }
  }

  lemma ErasedItemsGrow(items: seq<Value>)
    requires items != []
    ensures ErasedItems(items) == if |items| == 1 then [Erase(items[0])] else [Erase(items[0])] + ErasedItems(items[1..])
  {
    assert items == [items[0]] + items[1..];
  }

  lemma ItemsRestIs(items: seq<Value>, t: string)
    requires items != []
    ensures
      var left := ListRest(items) + t;
      && left != ""
      && (|items| == 1 ==> left[0] == ']' && left[1..] == t)
      && (|items| > 1 ==> left[0] == ',' && left[1..] == ListBody(items[1..]) + t)
  {
    if |items| == 1 {
      OffFront(']', t);
    } else {
      hide ListBody;
      Regroup(",", ListBody(items[1..]), t);
      OffFront(',', ListBody(items[1..]) + t);
    }
  }

  /** One item of several: what follows it decides whether there are more. */
  lemma ItemFirst(s: string, first: Tree, left: string)
    requires Read(s) == Some((first, left)) && left != ""
    ensures left[0] == ']' ==> ReadItems(s) == Some(([first], left[1..]))
    ensures left[0] == ',' && ReadItems(left[1..]).Some? ==>
      var more := ReadItems(left[1..]).value;
      ReadItems(s) == Some(([first] + more.0, more.1))
  {
    hide Read;
  }

  /** The first field comes off the front: its key, a colon, its value, and what is left. */
  lemma {:induction false} FieldReads(v: Value, keys: seq<string>, t: string)
    requires v.Map? && keys != [] && (forall k :: k in keys ==> k in v.fields)
    ensures
      var s, colon := MapBody(v, keys) + t, ":" + (Encode(v.fields[keys[0]]) + (MapRest(v, keys) + t));
      && s != "" && s[0] == '\"' && Unescape(s[1..]) == Some((keys[0], colon))
      && colon[0] == ':' && Read(colon[1..]) == Some((Erase(v.fields[keys[0]]), MapRest(v, keys) + t))
    decreases v, 0, 2 * |keys|
  {
    hide EncodeChars;
    hide Unescape;
    hide Read;
    var key, field, rest := keys[0], Encode(v.fields[keys[0]]), MapRest(v, keys);
    KeyComesOff(key, field, rest, t);
    StringReads(key, ":" + (field + (rest + t)));
    OffFront(':', field + (rest + t));
    EncodingReads(v.fields[key], rest + t);
  }

  lemma {:induction false} FieldsRead(v: Value, keys: seq<string>, last: Option<string>, t: string)
    requires v.Map? && keys != [] && (forall k :: k in keys ==> k in v.fields) && Ascending(keys)
    requires last.Some? ==> Less(last.value, keys[0])
    ensures ReadFields(MapBody(v, keys) + t, last) == Some((ErasedFields(v, keys), t))
    decreases v, 0, 2 * |keys| + 1
  {
    var key, rest := keys[0], MapRest(v, keys);
    FieldReads(v, keys, t);
    RestIs(v, keys, t);
    hide Encode;
    hide Unescape;
    hide Read;
    hide ReadFields;
    hide Less;
    hide MapRest;
    FieldFirst(MapBody(v, keys) + t, last, key, Erase(v.fields[key]), ":" + (Encode(v.fields[key]) + (rest + t)), rest + t);
    hide MapBody;
    hide ErasedFields;
    ErasedFieldsGrow(v, keys);
    if |keys| > 1 {
      FieldsRead(v, keys[1..], Some(key), t);
    }
  }

  lemma ErasedFieldsGrow(v: Value, keys: seq<string>)
    requires v.Map? && keys != [] && (forall k :: k in keys ==> k in v.fields)
    ensures ErasedFields(v, keys) ==
      if |keys| == 1 then map[keys[0] := Erase(v.fields[keys[0]])]
      else ErasedFields(v, keys[1..])[keys[0] := Erase(v.fields[keys[0]])]
  {
    assert keys == [keys[0]] + keys[1..];
  }

  lemma RestIs(v: Value, keys: seq<string>, t: string)
    requires v.Map? && keys != [] && forall k :: k in keys ==> k in v.fields
    ensures
      var rest := MapRest(v, keys) + t;
      && rest != ""
      && (|keys| == 1 ==> rest[0] == '}' && rest[1..] == t)
      && (|keys| > 1 ==> rest[0] == ',' && rest[1..] == MapBody(v, keys[1..]) + t)
  {
    hide MapBody;
    if |keys| == 1 {
      OffFront('}', t);
    } else {
      Regroup(",", MapBody(v, keys[1..]), t);
      OffFront(',', MapBody(v, keys[1..]) + t);
    }
  }

  lemma KeyComesOff(key: string, field: string, rest: string, t: string)
    ensures EncodeString(key) + (":" + (field + rest)) + t == "\"" + (EncodeChars(key) + (":" + (field + (rest + t))))
    ensures (EncodeString(key) + (":" + (field + rest)) + t)[0] == '\"'
    ensures (EncodeString(key) + (":" + (field + rest)) + t)[1..] == EncodeChars(key) + (":" + (field + (rest + t)))
  {
    var chars := EncodeChars(key);
    assert EncodeString(key) == "\"" + chars;
    assert "\"" + chars + (":" + (field + rest)) + t == "\"" + (chars + (":" + (field + (rest + t))));
    OffFront('\"', chars + (":" + (field + (rest + t))));
  }
}
