/** Replaces placeholders with declared labels, in one pass that never looks at what it wrote. */
module Substitute {
  import opened Text
  import opened Document

  // Searching and trimming

  /** The pair cc stands at position j. Both delimiters are pairs of one brace. */
  predicate PairAt(s: string, j: int, c: char) {
    0 <= j <= |s| - 2 && s[j] == c && s[j + 1] == c
  }

  /** strings.Index for a pair. */
  function Index(s: string, c: char): (at: Option<nat>)
    ensures at.Some? ==> PairAt(s, at.value, c) && forall j :: 0 <= j < at.value ==> !PairAt(s, j, c)
    ensures at.None? ==> forall j :: !PairAt(s, j, c)
  {
    if PairAt(s, 0, c) then Some(0)
    else if s == [] then None
    else
      var rest := Index(s[1..], c);
      assert forall j :: j > 0 ==> (PairAt(s, j, c) <==> PairAt(s[1..], j - 1, c));
      if rest.None? then None else Some(rest.value + 1)
  }

  // The split of a text

  /** Unclosed runs from where the scan stood to the end, the open braces somewhere inside it. */
  datatype Piece = Literal(text: string) | Placeholder(text: string) | Unclosed(text: string)

  function Split(input: string): seq<Piece>
    decreases |input|
  {
    match Index(input, '{')
    case None => [Literal(input)]
    case Some(open) =>
      match Index(input[open..], '}')
      case None => [Unclosed(input)]
      case Some(close) =>
        [Literal(input[..open]), Placeholder(input[open..open + close + 2])] + Split(input[open + close + 2..])
  }

  function Joined(pieces: seq<Piece>): string {
    if pieces == [] then "" else pieces[0].text + Joined(pieces[1..])
  }

  lemma SplitUnfolds(input: string)
    ensures Split(input) ==
      match Index(input, '{') {
        case None => [Literal(input)]
        case Some(open) =>
          match Index(input[open..], '}') {
            case None => [Unclosed(input)]
            case Some(close) =>
              [Literal(input[..open]), Placeholder(input[open..open + close + 2])] + Split(input[open + close + 2..])
          }
      }
  {
    hide Index;
    hide PairAt;
  }

  predicate Occurs(s: string, c: char) {
    Index(s, c).Some?
  }

  /** A placeholder opens, closes at its end and nowhere before. */
  predicate IsPlaceholder(text: string) {
    |text| >= 4 && PairAt(text, 0, '{') && Index(text, '}') == Some(|text| - 2)
  }

  /** A literal before a placeholder holds no open braces, not even across the join. */
  predicate IsLiteral(text: string) {
    !Occurs(text, '{') && (text == [] || text[|text| - 1] != '{')
  }

  predicate IsEnd(piece: Piece) {
    match piece
    case Literal(text) => !Occurs(text, '{')
    case Unclosed(text) => Occurs(text, '{') && !Occurs(text[Index(text, '{').value..], '}')
    case Placeholder(_) => false
  }

  /**
   * What any correct left-to-right split has to look like: literals and placeholders in turn,
   * and at the end a literal or an unclosed remainder.
   */
  predicate IsSplit(pieces: seq<Piece>) {
    if |pieces| == 0 then false
    else if |pieces| == 1 then IsEnd(pieces[0])
    else
      && pieces[0].Literal? && IsLiteral(pieces[0].text)
      && pieces[1].Placeholder? && IsPlaceholder(pieces[1].text)
      && IsSplit(pieces[2..])
  }

  lemma SlicesJoin(s: string, a: nat, b: nat)
    requires a <= b <= |s|
    ensures s[..a] + (s[a..b] + s[b..]) == s
  {
  }

  lemma JoinTwo(pieces: seq<Piece>)
    requires |pieces| >= 2
    ensures Joined(pieces) == pieces[0].text + (pieces[1].text + Joined(pieces[2..]))
  {
    assert pieces[1..][1..] == pieces[2..];
  }

  lemma LiteralEnds(input: string, open: nat)
    requires Index(input, '{') == Some(open)
    ensures IsLiteral(input[..open])
  {
    var s := input[..open];
    assert forall j :: PairAt(s, j, '{') ==> PairAt(input, j, '{');
    assert PairAt(input, open, '{');
    assert open > 0 ==> !PairAt(input, open - 1, '{');
  }

  lemma PlaceholderEnds(rest: string, close: nat)
    requires PairAt(rest, 0, '{') && Index(rest, '}') == Some(close)
    ensures close >= 2 && IsPlaceholder(rest[..close + 2])
  {
    var text := rest[..close + 2];
    assert PairAt(rest, close, '}');
    assert PairAt(text, close, '}') && PairAt(text, 0, '{');
    assert forall j :: PairAt(text, j, '}') ==> PairAt(rest, j, '}');
  }

  /** The scan gives a correct split: every slice is in bounds, and nothing is lost or added. */
  lemma {:induction false} SplitIsSplit(input: string)
    ensures IsSplit(Split(input)) && Joined(Split(input)) == input
    decreases |input|
  {
    match Index(input, '{')
    case None =>
      assert Joined([Literal(input)]) == input;
    case Some(open) =>
      match Index(input[open..], '}')
      case None =>
        assert Joined([Unclosed(input)]) == input;
      case Some(close) =>
        SplitIsSplit(input[open + close + 2..]);
        SplitStep(input, open, close);
  }

  lemma SplitStep(input: string, open: nat, close: nat)
    requires Index(input, '{') == Some(open) && Index(input[open..], '}') == Some(close)
    requires IsSplit(Split(input[open + close + 2..]))
    requires Joined(Split(input[open + close + 2..])) == input[open + close + 2..]
    ensures IsSplit(Split(input)) && Joined(Split(input)) == input
  {
    hide *;
    var end := open + close + 2;
    PiecesEnd(input, open, close);
    SplitUnfolds(input);
    PiecesSplit(input, open, end, Split(input[end..]));
  }

  lemma PiecesSplit(input: string, open: nat, end: nat, rest: seq<Piece>)
    requires open <= end <= |input| && IsLiteral(input[..open]) && IsPlaceholder(input[open..end])
    requires IsSplit(rest) && Joined(rest) == input[end..]
    ensures IsSplit([Literal(input[..open]), Placeholder(input[open..end])] + rest)
    ensures Joined([Literal(input[..open]), Placeholder(input[open..end])] + rest) == input
  {
    hide *;
    LongerSplit(input[..open], input[open..end], rest);
    SlicesJoin(input, open, end);
  }

  lemma PiecesEnd(input: string, open: nat, close: nat)
    requires Index(input, '{') == Some(open) && Index(input[open..], '}') == Some(close)
    ensures open + close + 2 <= |input| && IsLiteral(input[..open]) && IsPlaceholder(input[open..open + close + 2])
  {
    assert PairAt(input[open..], 0, '{');
    PlaceholderEnds(input[open..], close);
    assert input[open..][..close + 2] == input[open..open + close + 2];
    LiteralEnds(input, open);
  }

  lemma LongerSplit(literal: string, placeholder: string, rest: seq<Piece>)
    requires IsLiteral(literal) && IsPlaceholder(placeholder) && IsSplit(rest)
    ensures IsSplit([Literal(literal), Placeholder(placeholder)] + rest)
    ensures Joined([Literal(literal), Placeholder(placeholder)] + rest) == literal + (placeholder + Joined(rest))
  {
    hide IsLiteral;
    hide IsPlaceholder;
    var pieces := [Literal(literal), Placeholder(placeholder)] + rest;
    assert pieces[2..] == rest;
    JoinTwo(pieces);
  }

  lemma OpenAfterLiteral(literal: string, rest: string)
    requires IsLiteral(literal) && PairAt(rest, 0, '{')
    ensures Index(literal + rest, '{') == Some(|literal|)
  {
    var s := literal + rest;
    assert PairAt(s, |literal|, '{');
    assert forall j :: 0 <= j < |literal| - 1 ==> (PairAt(s, j, '{') <==> PairAt(literal, j, '{'));
    assert literal != [] ==> !PairAt(s, |literal| - 1, '{');
  }

  lemma CloseInPlaceholder(text: string, rest: string)
    requires IsPlaceholder(text)
    ensures Index(text + rest, '}') == Some(|text| - 2)
  {
    var s := text + rest;
    assert PairAt(s, |text| - 2, '}');
    assert forall j :: 0 <= j < |text| - 2 ==> (PairAt(s, j, '}') <==> PairAt(text, j, '}'));
  }

  /** There is one correct split, so what a text means does not depend on how it is scanned. */
  lemma {:induction false} SplitIsUnique(pieces: seq<Piece>)
    requires IsSplit(pieces)
    ensures Split(Joined(pieces)) == pieces
    decreases |pieces|
  {
    hide IsLiteral;
    hide IsPlaceholder;
    hide IsEnd;
    hide Index;
    hide Split;
    hide Joined;
    if |pieces| == 1 {
      assert pieces == [pieces[0]];
      UniqueEnd(pieces[0]);
    } else {
      SplitIsUnique(pieces[2..]);
      UniqueStep(pieces[0].text, pieces[1].text, pieces[2..]);
      JoinTwo(pieces);
      assert pieces == [pieces[0], pieces[1]] + pieces[2..];
    }
  }

  lemma UniqueEnd(piece: Piece)
    requires IsEnd(piece)
    ensures Split(piece.text) == [piece] && Joined([piece]) == piece.text
  {
    hide Split;
    hide Index;
    hide PairAt;
    SplitUnfolds(piece.text);
    assert Joined([piece]) == piece.text + Joined([]);
  }

  lemma UniqueStep(literal: string, placeholder: string, more: seq<Piece>)
    requires IsLiteral(literal) && IsPlaceholder(placeholder) && Split(Joined(more)) == more
    ensures Split(literal + (placeholder + Joined(more))) == [Literal(literal), Placeholder(placeholder)] + more
  {
    hide *;
    var rest := Joined(more);
    var input := literal + (placeholder + rest);
    ThreeParts(literal, placeholder, rest);
    PartsFound(literal, placeholder, rest);
    SplitUnfolds(input);
  }

  lemma ThreeParts(a: string, b: string, c: string)
    ensures var s := a + (b + c);
      s[..|a|] == a && s[|a|..] == b + c && s[|a|..|a| + |b|] == b && s[|a| + |b|..] == c
  {
  }

  lemma PartsFound(literal: string, placeholder: string, rest: string)
    requires IsLiteral(literal) && IsPlaceholder(placeholder)
    ensures |placeholder| >= 2 && Index(literal + (placeholder + rest), '{') == Some(|literal|)
    ensures Index(placeholder + rest, '}') == Some(|placeholder| - 2)
  {
    assert PairAt(placeholder, 0, '{');
    assert PairAt(placeholder + rest, 0, '{');
    OpenAfterLiteral(literal, placeholder + rest);
    CloseInPlaceholder(placeholder, rest);
  }

  // Expansion

  const LABELS := "labels."
  const SECRETS := "secrets."

  function NameIn(placeholder: string): string {
    if |placeholder| >= 4 then TrimSpace(placeholder[2..|placeholder| - 2]) else ""
  }

  /** The value a name stands for here, or None where it is an error. */
  function Meaning(host: string, labels: map<string, string>, name: string, literal: string): Option<string> {
    if name == "host" then Some(host)
    else if StartsWith(name, LABELS) then
      var key := name[|LABELS|..];
      if key in labels then Some(labels[key]) else None
    else if StartsWith(name, SECRETS) then Some(literal)
    else None
  }

  function Expansion(host: string, labels: map<string, string>, piece: Piece): string {
    match piece
    case Literal(text) => text
    case Unclosed(text) => text
    case Placeholder(text) =>
      var meaning := Meaning(host, labels, NameIn(text), text);
      if meaning.Some? then meaning.value else ""
  }

  predicate Expandable(host: string, labels: map<string, string>, piece: Piece) {
    piece.Literal? || (piece.Placeholder? && Meaning(host, labels, NameIn(piece.text), piece.text).Some?)
  }

  function Expanded(host: string, labels: map<string, string>, pieces: seq<Piece>): string {
    if pieces == [] then "" else Expansion(host, labels, pieces[0]) + Expanded(host, labels, pieces[1..])
  }

  function Substituted(host: string, labels: map<string, string>, input: string): string {
    Expanded(host, labels, Split(input))
  }

  /** Secrets are left for the host: a text with no other placeholder comes through unchanged. */
  lemma {:induction false} SecretsStay(host: string, labels: map<string, string>, pieces: seq<Piece>)
    requires forall p :: p in pieces && p.Placeholder? ==> StartsWith(NameIn(p.text), SECRETS)
    ensures Expanded(host, labels, pieces) == Joined(pieces)
  {
    if pieces != [] {
      assert pieces[0] in pieces;
      SecretsStay(host, labels, pieces[1..]);
      if pieces[0].Placeholder? {
        SecretIsNoLabel(NameIn(pieces[0].text));
      }
    }
  }

  lemma FirstOf(s: string, prefix: string)
    ensures prefix != "" && StartsWith(s, prefix) ==> s != "" && s[0] == prefix[0]
  {
    if prefix != "" && StartsWith(s, prefix) {
      assert s[..|prefix|][0] == s[0];
    }
  }

  lemma SecretIsNoLabel(name: string)
    requires StartsWith(name, SECRETS)
    ensures !StartsWith(name, LABELS) && name != "host"
  {
    FirstOf(name, SECRETS);
    FirstOf(name, LABELS);
  }

  lemma SecretTextUnchanged(host: string, labels: map<string, string>, input: string)
    requires forall p :: p in Split(input) && p.Placeholder? ==> StartsWith(NameIn(p.text), SECRETS)
    ensures Substituted(host, labels, input) == input
  {
    SplitIsSplit(input);
    SecretsStay(host, labels, Split(input));
  }

  /** A text without open braces has nothing to expand. */
  lemma PlainTextUnchanged(host: string, labels: map<string, string>, input: string)
    requires !Occurs(input, '{')
    ensures Substituted(host, labels, input) == input && AllCanExpand(host, labels, Split(input))
  {
    assert Split(input) == [Literal(input)];
    assert Expanded(host, labels, [Literal(input)]) == input + Expanded(host, labels, []);
  }

  lemma {:induction false} ExpandedAppend(host: string, labels: map<string, string>, a: seq<Piece>, b: seq<Piece>)
    ensures Expanded(host, labels, a + b) == Expanded(host, labels, a) + Expanded(host, labels, b)
  {
    hide Expansion;
    if a == [] {
      assert a + b == b;
      assert "" + Expanded(host, labels, b) == Expanded(host, labels, b);
    } else {
      ExpandedAppend(host, labels, a[1..], b);
      assert (a + b)[1..] == a[1..] + b;
      AddAssociates(Expansion(host, labels, a[0]), Expanded(host, labels, a[1..]), Expanded(host, labels, b));
    }
  }

  lemma AddAssociates(a: string, b: string, c: string)
    ensures a + b + c == a + (b + c)
  {
  }

  /** A placeholder as written: a name between the braces, blanks around it allowed. */
  function Written(front: string, name: string, back: string): string {
    "{{" + front + name + back + "}}"
  }

  predicate PlainName(name: string) {
    name != "" && '}' !in name && !IsSpace(name[0]) && !IsSpace(name[|name| - 1])
  }

  lemma WrittenIsPlaceholder(front: string, name: string, back: string)
    requires Blank(front) && Blank(back) && PlainName(name)
    ensures IsPlaceholder(Written(front, name, back)) && NameIn(Written(front, name, back)) == name
  {
    var text, inner := Written(front, name, back), front + name + back;
    assert text == "{{" + inner + "}}" && |text| == |inner| + 4;
    assert text[2..|text| - 2] == inner;
    forall j | 0 <= j < |inner| ensures inner[j] != '}' {
    }
    assert forall j :: 0 <= j < |inner| ==> text[j + 2] == inner[j];
    assert PairAt(text, 0, '{') && PairAt(text, |text| - 2, '}');
    forall j | 0 <= j < |text| - 2 ensures !PairAt(text, j, '}') {
      assert j >= 2 ==> text[j] == inner[j - 2];
    }
    TrimsBlanks(front, name, back);
  }

  /** What a placeholder in a text comes out as: the host, the value of a label, a secret as written, and nothing for anything else. */
  lemma {:induction false} PlaceholderComesOut(host: string, labels: map<string, string>, before: string, front: string, name: string, back: string, after: string)
    requires IsLiteral(before) && Blank(front) && Blank(back) && PlainName(name)
    ensures
      var placeholder := Written(front, name, back);
      Substituted(host, labels, before + (placeholder + after)) == before + (
        (if name == "host" then host
         else if StartsWith(name, "labels.") then (if name[7..] in labels then labels[name[7..]] else "")
         else if StartsWith(name, "secrets.") then placeholder
         else "")
        + Substituted(host, labels, after))
  {
    var placeholder, more := Written(front, name, back), Split(after);
    WrittenIsPlaceholder(front, name, back);
    SplitIsSplit(after);
    UniqueStep(before, placeholder, more);
    FirstOf(name, SECRETS);
    FirstOf(name, LABELS);
    hide Split;
    hide IsPlaceholder;
    hide Written;
    hide NameIn;
    ExpandedTwo(host, labels, before, placeholder, more);
  }

  /** Braces that are never closed are left as they stand, and are a mistake. */
  lemma {:induction false} UnclosedStays(host: string, labels: map<string, string>, text: string)
    requires Index(text, '{').Some? && Index(text[Index(text, '{').value..], '}').None?
    ensures Substituted(host, labels, text) == text && !AllCanExpand(host, labels, Split(text))
  {
    assert Split(text) == [Unclosed(text)];
    assert Expanded(host, labels, [Unclosed(text)]) == text + Expanded(host, labels, []);
    assert Unclosed(text) in Split(text);
  }

  lemma ExpandedTwo(host: string, labels: map<string, string>, literal: string, placeholder: string, more: seq<Piece>)
    ensures Expanded(host, labels, [Literal(literal), Placeholder(placeholder)] + more)
      == literal + (Expansion(host, labels, Placeholder(placeholder)) + Expanded(host, labels, more))
  {
    hide Expansion;
    var pieces := [Literal(literal), Placeholder(placeholder)] + more;
    assert pieces[1..] == [Placeholder(placeholder)] + more && pieces[1..][1..] == more;
    LiteralStays(host, labels, literal);
  }

  lemma LiteralStays(host: string, labels: map<string, string>, literal: string)
    ensures Expansion(host, labels, Literal(literal)) == literal
  {
  }

  /** The names whose values a text makes use of. */
  function UsedIn(host: string, labels: map<string, string>, piece: Piece): set<string> {
    if piece.Placeholder? && (NameIn(piece.text) == "host" || StartsWith(NameIn(piece.text), LABELS))
      && Meaning(host, labels, NameIn(piece.text), piece.text).Some?
    then {NameIn(piece.text)} else {}
  }

  function UsedNames(host: string, labels: map<string, string>, pieces: seq<Piece>): set<string> {
    if pieces == [] then {} else UsedNames(host, labels, pieces[..|pieces| - 1]) + UsedIn(host, labels, pieces[|pieces| - 1])
  }

  datatype Mistake = UnclosedBraces(text: string) | UndeclaredLabel(key: string) | UnknownName(name: string)

  class Substituter {
    const host: string
    const labels: map<string, string>
    var used: map<string, string>
    var mistakes: seq<Mistake>

    constructor (host: string, labels: map<string, string>)
      ensures this.host == host && this.labels == labels && used == map[] && mistakes == []
    {
      this.host, this.labels := host, labels;
      used, mistakes := map[], [];
    }

    /** Every recorded value is the one the name stands for. */
    ghost predicate Honest()
      reads this`used
    {
      forall name :: name in used ==> Meaning(host, labels, name, "") == Some(used[name]) && !StartsWith(name, SECRETS)
    }

    method Expand(name: string, literal: string) returns (out: string)
      requires Honest()
      modifies this
      ensures Honest()
      ensures out == if Meaning(host, labels, name, literal).Some? then Meaning(host, labels, name, literal).value else ""
      ensures mistakes == [] <==> old(mistakes) == [] && Meaning(host, labels, name, literal).Some?
      ensures mistakes == old(mistakes) + (
        if name == "host" || StartsWith(name, "secrets.") then []
        else if !StartsWith(name, "labels.") then [UnknownName(name)]
        else if name[7..] in labels then [] else [UndeclaredLabel(name[7..])])
      ensures used.Keys == old(used.Keys)
        + if (name == "host" || StartsWith(name, LABELS)) && Meaning(host, labels, name, literal).Some? then {name} else {}
    {
      FirstOf(name, SECRETS);
      FirstOf(name, LABELS);
      if name == "host" {
        used := used[name := host];
        return host;
      }
      if StartsWith(name, LABELS) {
        var key := name[|LABELS|..];
        if key !in labels {
          mistakes := mistakes + [UndeclaredLabel(key)];
          return "";
        }
        used := used[name := labels[key]];
        return labels[key];
      }
      if StartsWith(name, SECRETS) {
        return literal;
      }
      mistakes := mistakes + [UnknownName(name)];
      return "";
    }

    /** What has been written is the expansion of what has been scanned, and is never scanned itself. */
    ghost predicate Scanned(done: seq<Piece>, out: string, names: set<string>, clean: bool)
      reads this
    {
      && out == Expanded(host, labels, done)
      && used.Keys == names + UsedNames(host, labels, done)
      && (mistakes == [] <==> clean && AllCanExpand(host, labels, done))
    }

    method Text(input: string) returns (out: string)
      requires Honest()
      modifies this
      ensures Honest()
      ensures out == Substituted(host, labels, input)
      ensures mistakes == [] <==> old(mistakes) == [] && AllCanExpand(host, labels, Split(input))
      ensures used.Keys == old(used.Keys) + UsedNames(host, labels, Split(input))
    {
      hide Expanded;
      hide UsedNames;
      hide AllCanExpand;
      hide Expansion;
      hide Expandable;
      hide UsedIn;
      hide Honest;
      hide Meaning;
      hide Split;
      hide Index;
      ghost var names, clean := used.Keys, mistakes == [];
      ghost var done: seq<Piece> := [];
      var rest := input;
      out := "";
      NothingScanned(host, labels);
      assert done + Split(rest) == Split(input);
      while true
        invariant Honest() && Scanned(done, out, names, clean)
        invariant done + Split(rest) == Split(input)
        decreases |rest|
      {
        SplitUnfolds(rest);
        var open := Index(rest, '{');
        if open.None? {
          ScanLast(host, labels, done, Literal(rest));
          return out + rest;
        }
        var close := Index(rest[open.value..], '}');
        if close.None? {
          ScanLast(host, labels, done, Unclosed(rest));
          mistakes := mistakes + [UnclosedBraces(input)];
          return out + rest;
        }
        var end := open.value + close.value + 2;
        var literal, placeholder := rest[..open.value], rest[open.value..end];
        out := out + literal;
        var expansion := ExpandAt(rest, open.value, close.value);
        out := out + expansion;
        ScanTwo(host, labels, done, literal, placeholder);
        assert done + ([Literal(literal), Placeholder(placeholder)] + Split(rest[end..]))
            == done + [Literal(literal), Placeholder(placeholder)] + Split(rest[end..]);
        done := done + [Literal(literal), Placeholder(placeholder)];
        rest := rest[end..];
      }
    }

    /** Expands the placeholder between the two places the scan found. */
    method ExpandAt(rest: string, open: nat, close: nat) returns (out: string)
      requires Honest() && Index(rest, '{') == Some(open) && Index(rest[open..], '}') == Some(close)
      modifies this
      ensures Honest()
      ensures var piece := Placeholder(rest[open..open + close + 2]);
        && out == Expansion(host, labels, piece)
        && (mistakes == [] <==> old(mistakes) == [] && Expandable(host, labels, piece))
        && used.Keys == old(used.Keys) + UsedIn(host, labels, piece)
    {
      ClosePastOpen(rest, open, close);
      NameIsInside(rest, open, close);
      hide TrimSpace;
      hide NameIn;
      out := Expand(TrimSpace(rest[open + 2..open + close]), rest[open..open + close + 2]);
    }

    /** Substitutes every scalar of a tree. The fields of a map may be visited in any order. */
    method Value(v: Value) returns (out: Value)
      requires Honest()
      modifies this
      ensures Honest()
      ensures out == SubstitutedValue(host, labels, v)
      ensures mistakes == [] <==> old(mistakes) == [] && Substitutable(host, labels, v)
      decreases v, 1
    {
      match v
      case Scalar(text, quoted, from, displaced) =>
        var replaced := Text(text);
        out := Scalar(replaced, quoted, from, displaced);
      case List(items, from, displaced) =>
        var replaced := Items(items);
        out := List(replaced, from, displaced);
      case Map(fields, from, displaced) =>
        var replaced := FieldsOf(v);
        out := Map(replaced, from, displaced);
    }

    method Items(items: seq<Value>) returns (out: seq<Value>)
      requires Honest()
      modifies this
      ensures Honest() && |out| == |items|
      ensures forall i :: 0 <= i < |items| ==> out[i] == SubstitutedValue(host, labels, items[i])
      ensures mistakes == [] <==> old(mistakes) == [] && forall v :: v in items ==> Substitutable(host, labels, v)
      decreases items, 0
    {
      out := [];
      for i := 0 to |items|
        invariant Honest() && |out| == i
        invariant forall k :: 0 <= k < i ==> out[k] == SubstitutedValue(host, labels, items[k])
        invariant mistakes == [] <==> old(mistakes) == [] && forall v :: v in items[..i] ==> Substitutable(host, labels, v)
      {
        assert items[..i + 1] == items[..i] + [items[i]];
        var item := Value(items[i]);
        out := out + [item];
      }
      assert items[..|items|] == items;
    }

    method FieldsOf(v: Value) returns (out: map<string, Value>)
      requires Honest() && v.Map?
      modifies this
      ensures Honest() && out.Keys == v.fields.Keys
      ensures forall k :: k in v.fields ==> out[k] == SubstitutedValue(host, labels, v.fields[k])
      ensures mistakes == [] <==> old(mistakes) == [] && forall k :: k in v.fields ==> Substitutable(host, labels, v.fields[k])
      decreases v, 0
    {
      out := map[];
      var unvisited := v.fields.Keys;
      while unvisited != {}
        invariant unvisited <= v.fields.Keys
        invariant Honest() && out.Keys == v.fields.Keys - unvisited
        invariant forall k :: k in out ==> out[k] == SubstitutedValue(host, labels, v.fields[k])
        invariant mistakes == [] <==> old(mistakes) == [] && forall k :: k in out ==> Substitutable(host, labels, v.fields[k])
      {
        var k :| k in unvisited;
        unvisited := unvisited - {k};
        var field := Value(v.fields[k]);
        out := out[k := field];
      }
    }
  }

  predicate AllCanExpand(host: string, labels: map<string, string>, pieces: seq<Piece>) {
    forall p :: p in pieces ==> Expandable(host, labels, p)
  }

  function SubstitutedValue(host: string, labels: map<string, string>, v: Value): Value {
    match v
    case Scalar(text, quoted, from, displaced) => Scalar(Substituted(host, labels, text), quoted, from, displaced)
    case List(items, from, displaced) =>
      List(seq(|items|, i requires 0 <= i < |items| => SubstitutedValue(host, labels, items[i])), from, displaced)
    case Map(fields, from, displaced) => Map(map k | k in fields :: SubstitutedValue(host, labels, fields[k]), from, displaced)
  }

  /** Every scalar is closed and names only what is declared. */
  predicate Substitutable(host: string, labels: map<string, string>, v: Value) {
    match v
    case Scalar(text, _, _, _) => AllCanExpand(host, labels, Split(text))
    case List(items, _, _) => forall item :: item in items ==> Substitutable(host, labels, item)
    case Map(fields, _, _) => forall k :: k in fields ==> Substitutable(host, labels, fields[k])
  }

  lemma NothingScanned(host: string, labels: map<string, string>)
    ensures Expanded(host, labels, []) == "" && UsedNames(host, labels, []) == {} && AllCanExpand(host, labels, [])
  {
  }

  lemma ScanLast(host: string, labels: map<string, string>, done: seq<Piece>, last: Piece)
    requires !last.Placeholder?
    ensures Expanded(host, labels, done + [last]) == Expanded(host, labels, done) + last.text
    ensures UsedNames(host, labels, done + [last]) == UsedNames(host, labels, done)
    ensures AllCanExpand(host, labels, done + [last]) <==> AllCanExpand(host, labels, done) && last.Literal?
  {
    ExpandedAppend(host, labels, done, [last]);
    assert Expanded(host, labels, [last]) == last.text + Expanded(host, labels, []);
    assert (done + [last])[..|done|] == done;
    assert last in done + [last];
  }

  lemma ScanTwo(host: string, labels: map<string, string>, done: seq<Piece>, literal: string, placeholder: string)
    ensures
      var more := [Literal(literal), Placeholder(placeholder)];
      && Expanded(host, labels, done + more)
         == Expanded(host, labels, done) + literal + Expansion(host, labels, Placeholder(placeholder))
      && UsedNames(host, labels, done + more) == UsedNames(host, labels, done) + UsedIn(host, labels, Placeholder(placeholder))
      && (AllCanExpand(host, labels, done + more) <==>
            AllCanExpand(host, labels, done) && Expandable(host, labels, Placeholder(placeholder)))
  {
    var p := Placeholder(placeholder);
    ScanLast(host, labels, done, Literal(literal));
    var before := done + [Literal(literal)];
    assert done + [Literal(literal), p] == before + [p];
    ExpandedAppend(host, labels, before, [p]);
    assert Expanded(host, labels, [p]) == Expansion(host, labels, p) + Expanded(host, labels, []);
    assert (before + [p])[..|before|] == before;
    assert p in before + [p];
  }

  /** The braces that close a placeholder lie past the ones that open it. */
  lemma ClosePastOpen(rest: string, open: nat, close: nat)
    requires Index(rest, '{') == Some(open) && Index(rest[open..], '}') == Some(close)
    ensures close >= 2 && open + close + 2 <= |rest|
  {
    assert PairAt(rest[open..], 0, '{');
    PlaceholderEnds(rest[open..], close);
  }

  lemma NameIsInside(rest: string, open: nat, close: nat)
    requires close >= 2 && open + close + 2 <= |rest|
    ensures NameIn(rest[open..open + close + 2]) == TrimSpace(rest[open + 2..open + close])
  {
    hide TrimSpace;
    SliceOfSlice(rest, open, open + close + 2, 2, close);
    var placeholder := rest[open..open + close + 2];
    assert |placeholder| - 2 == close;
    assert NameIn(placeholder) == TrimSpace(placeholder[2..close]);
  }

  lemma SliceOfSlice(s: string, a: nat, b: nat, c: nat, d: nat)
    requires a <= b <= |s| && c <= d <= b - a
    ensures s[a..b][c..d] == s[a + c..a + d]
  {
    assert forall i :: 0 <= i < d - c ==> s[a..b][c..d][i] == s[a..b][c + i] == s[a + c + i];
  }
}
