/**
 The type expressions of the wire spec: `parse_type` with its two bracket-aware
 scans, and a canonical printer it inverts.
 */
module TypeGrammar {
  import opened Text

  datatype TypeExpr =
    | Prim(name: string) | Named(name: string)
    | ListOf(arg: TypeExpr) | MapOf(arg: TypeExpr) | Union(args: seq<TypeExpr>)

  datatype Parse<T> = Parsed(value: T) | Unparseable(text: string)

  const PRIMITIVES: seq<string> := ["string", "int", "float", "bool", "any", "object"]

  /******* Names *******/

  predicate IsNameChar(c: char) {
    'A' <= c <= 'Z' || 'a' <= c <= 'z' || '0' <= c <= '9'
  }

  /** `[A-Z][A-Za-z0-9]*`, matched in full. */
  predicate IsTypeName(text: string) {
    text != "" && 'A' <= text[0] <= 'Z' && forall i | 0 <= i < |text| :: IsNameChar(text[i])
  }

  /******* The two scans *******/

  function Opens(c: char): int {
    if c == '<' then 1 else 0
  }

  function Closes(c: char): int {
    if c == '>' then 1 else 0
  }

  /** What is left of `text`, entered at `depth`, outside all brackets. */
  function Outside(text: string, depth: int): string {
    if text == "" then ""
    else
      var d := depth + Opens(text[0]);
      (if d == 0 then [text[0]] else "") + Outside(text[1..], d - Closes(text[0]))
  }

  /** `text`, entered at `depth`, cut at every `sep` outside all brackets. */
  function SplitTop(text: string, sep: char, depth: int): (parts: seq<string>)
    ensures parts != []
  {
    if text == "" then [""]
    else
      var d := depth + Opens(text[0]) - Closes(text[0]);
      var rest := SplitTop(text[1..], sep, d);
      if text[0] == sep && d == 0 then [""] + rest else [[text[0]] + rest[0]] + rest[1..]
  }

  lemma OutsideStep(text: string, i: nat, depth: int)
    requires i < |text|
    ensures var d := depth + Opens(text[i]);
            Outside(text[i..], depth) == (if d == 0 then [text[i]] else "") + Outside(text[i + 1..], d - Closes(text[i]))
  {
    assert text[i..][1..] == text[i + 1..];
  }

  /** `_strip_brackets`. */
  method StripBrackets(text: string) returns (out: string)
    ensures out == Outside(text, 0)
  {
    var depth := 0;
    out := "";
    assert text[0..] == text;
    for i := 0 to |text|
      invariant out + Outside(text[i..], depth) == Outside(text, 0)
    {
      OutsideStep(text, i, depth);
      ghost var before, rest := out, Outside(text[i + 1..], depth + Opens(text[i]) - Closes(text[i]));
      if text[i] == '<' { depth := depth + 1; }
      if depth == 0 { out := out + [text[i]]; }
      if text[i] == '>' { depth := depth - 1; }
      assert before + ([text[i]] + rest) == (before + [text[i]]) + rest && before + ("" + rest) == before + rest;
    }
    assert out + "" == out;
  }

  /** The split of a text whose scan has `parts` behind it, `current` in hand and `rest` to come. */
  function Resumed(parts: seq<string>, current: string, rest: seq<string>): seq<string>
    requires rest != []
  {
    parts + [current + rest[0]] + rest[1..]
  }

  lemma ResumedAtStart(rest: seq<string>)
    requires rest != []
    ensures Resumed([], "", rest) == rest
  {
    assert "" + rest[0] == rest[0];
    assert [rest[0]] + rest[1..] == rest;
  }

  lemma SplitStep(text: string, i: nat, sep: char, depth: int, parts: seq<string>, current: string)
    requires i < |text|
    ensures var d := depth + Opens(text[i]) - Closes(text[i]);
            var rest := SplitTop(text[i + 1..], sep, d);
            Resumed(parts, current, SplitTop(text[i..], sep, depth))
            == if text[i] == sep && d == 0 then Resumed(parts + [current], "", rest)
               else Resumed(parts, current + [text[i]], rest)
  {
    var d := depth + Opens(text[i]) - Closes(text[i]);
    var rest, whole := SplitTop(text[i + 1..], sep, d), SplitTop(text[i..], sep, depth);
    assert text[i..][1..] == text[i + 1..];
    if text[i] == sep && d == 0 {
      assert whole == [""] + rest;
      assert whole[1..] == [rest[0]] + rest[1..] && current + "" == current && "" + rest[0] == rest[0];
    } else {
      assert current + ([text[i]] + rest[0]) == (current + [text[i]]) + rest[0];
    }
  }

  /** `_split_top`. */
  method SplitTopLoop(text: string, sep: char) returns (parts: seq<string>)
    ensures parts == SplitTop(text, sep, 0)
  {
    var depth, current := 0, "";
    parts := [];
    assert text[0..] == text;
    ResumedAtStart(SplitTop(text, sep, 0));
    for i := 0 to |text|
      invariant Resumed(parts, current, SplitTop(text[i..], sep, depth)) == SplitTop(text, sep, 0)
    {
      SplitStep(text, i, sep, depth, parts, current);
      if text[i] == '<' { depth := depth + 1; }
      if text[i] == '>' { depth := depth - 1; }
      if text[i] == sep && depth == 0 {
        parts := parts + [current];
        current := "";
      } else {
        current := current + [text[i]];
      }
    }
    assert current + "" == current && text[|text|..] == "";
    parts := parts + [current];
  }

  /** The characters of a split: every part, and one separator between neighbours. */
  function TotalLength(parts: seq<string>): nat {
    if parts == [] then 0 else |parts[0]| + TotalLength(parts[1..])
  }

  lemma {:induction false} SplitLengths(text: string, sep: char, depth: int)
    ensures TotalLength(SplitTop(text, sep, depth)) + |SplitTop(text, sep, depth)| - 1 == |text|
  {
    if text != "" {
      SplitLengths(text[1..], sep, depth + Opens(text[0]) - Closes(text[0]));
    }
  }

  lemma {:induction false} PartWithinTotal(parts: seq<string>, i: nat)
    requires i < |parts|
    ensures |parts[i]| <= TotalLength(parts)
  {
    if i > 0 {
      PartWithinTotal(parts[1..], i - 1);
    }
  }

  /** A `|` survives the bracket strip exactly when the split yields two parts or more. */
  lemma {:induction false} BarOutsideIffSplits(text: string, depth: int)
    ensures '|' in Outside(text, depth) <==> |SplitTop(text, '|', depth)| >= 2
  {
    if text != "" {
      BarOutsideIffSplits(text[1..], depth + Opens(text[0]) - Closes(text[0]));
    }
  }

  /** ...and then every part is strictly shorter, so the parser terminates on every string. */
  lemma SplitPartsShorter(text: string)
    requires |SplitTop(text, '|', 0)| >= 2
    ensures forall p <- SplitTop(text, '|', 0) :: |p| < |text|
  {
    var parts := SplitTop(text, '|', 0);
    SplitLengths(text, '|', 0);
    forall i | 0 <= i < |parts| ensures |parts[i]| < |text| {
      PartWithinTotal(parts, i);
    }
  }

  /******* The parser *******/

  predicate Wrapped(text: string, open: string) {
    |text| > |open| && open <= text && text[|text| - 1] == '>'
  }

  function ParseType(text: string): Parse<TypeExpr>
    decreases |text|, 1, 0
  {
    var t := Strip(text);
    if '|' in Outside(t, 0) then
      BarOutsideIffSplits(t, 0);
      SplitPartsShorter(t);
      match ParseAll(SplitTop(t, '|', 0), |t|)
      case Parsed(args) => Parsed(Union(args))
      case Unparseable(bad) => Unparseable(bad)
    else if Wrapped(t, "list<") then
      match ParseType(t[5..|t| - 1])
      case Parsed(arg) => Parsed(ListOf(arg))
      case Unparseable(bad) => Unparseable(bad)
    else if Wrapped(t, "map<") then
      match ParseType(t[4..|t| - 1])
      case Parsed(arg) => Parsed(MapOf(arg))
      case Unparseable(bad) => Unparseable(bad)
    else if t in PRIMITIVES then Parsed(Prim(t))
    else if IsTypeName(t) then Parsed(Named(t))
    else Unparseable(t)
  }

  /** The parts of a union, the first bad one failing the whole. */
  function ParseAll(parts: seq<string>, ghost limit: nat): (r: Parse<seq<TypeExpr>>)
    requires forall p <- parts :: |p| < limit
    ensures r.Parsed? ==> |r.value| == |parts|
    decreases limit, 0, |parts|
  {
    if parts == [] then Parsed([])
    else
      match ParseType(parts[0])
      case Unparseable(bad) => Unparseable(bad)
      case Parsed(first) =>
        match ParseAll(parts[1..], limit)
        case Unparseable(bad) => Unparseable(bad)
        case Parsed(rest) => Parsed([first] + rest)
  }

  /******* Well-formed expressions and the printer *******/

  predicate WellFormed(e: TypeExpr) {
    match e
    case Prim(name) => name in PRIMITIVES
    case Named(name) => IsTypeName(name)
    case ListOf(arg) => WellFormed(arg)
    case MapOf(arg) => WellFormed(arg)
    case Union(args) => |args| >= 2 && forall a <- args :: !a.Union? && WellFormed(a)
  }

  function Print(e: TypeExpr): string {
    match e
    case Prim(name) => name
    case Named(name) => name
    case ListOf(arg) => "list<" + Print(arg) + ">"
    case MapOf(arg) => "map<" + Print(arg) + ">"
    case Union(args) => PrintAll(args)
  }

  function PrintAll(args: seq<TypeExpr>): string {
    if args == [] then ""
    else if |args| == 1 then Print(args[0])
    else Print(args[0]) + " | " + PrintAll(args[1..])
  }

  /******* What parses is well formed *******/

  /** A character that neither opens, closes nor separates joins the part it stands in. */
  lemma {:induction false} SplitPlainEnd(text: string, c: char, depth: int)
    requires c != '|' && c != '<' && c != '>'
    ensures |SplitTop(text + [c], '|', depth)| == |SplitTop(text, '|', depth)|
  {
    if text != "" {
      assert (text + [c])[1..] == text[1..] + [c];
      SplitPlainEnd(text[1..], c, depth + Opens(text[0]) - Closes(text[0]));
    }
  }

  lemma {:induction false} SplitStripRight(text: string)
    ensures |SplitTop(StripRight(text), '|', 0)| == |SplitTop(text, '|', 0)|
  {
    if text != "" && IsSpace(text[|text| - 1]) {
      var n := |text| - 1;
      SplitStripRight(text[..n]);
      SplitPlainEnd(text[..n], text[n], 0);
      assert text[..n] + [text[n]] == text;
    }
  }

  lemma {:induction false} SplitStripLeft(text: string)
    ensures |SplitTop(StripLeft(text), '|', 0)| == |SplitTop(text, '|', 0)|
  {
    if text != "" && IsSpace(text[0]) {
      SplitStripLeft(text[1..]);
    }
  }

  /** No part of a split can be split again. */
  lemma {:induction false} PartsDoNotSplit(text: string, depth: int, i: nat)
    requires i < |SplitTop(text, '|', depth)|
    ensures |SplitTop(SplitTop(text, '|', depth)[i], '|', if i == 0 then depth else 0)| == 1
  {
    if text != "" {
      var d := depth + Opens(text[0]) - Closes(text[0]);
      var rest := SplitTop(text[1..], '|', d);
      var parts := SplitTop(text, '|', depth);
      if text[0] == '|' && d == 0 {
        if i > 0 {
          PartsDoNotSplit(text[1..], d, i - 1);
        }
      } else {
        PartsDoNotSplit(text[1..], d, i);
        if i == 0 {
          assert parts[0][1..] == rest[0];
        }
      }
    }
  }

  lemma PartsStayWhole(text: string)
    ensures forall p <- SplitTop(text, '|', 0) :: |SplitTop(p, '|', 0)| == 1
  {
    var parts := SplitTop(text, '|', 0);
    forall i | 0 <= i < |parts| ensures |SplitTop(parts[i], '|', 0)| == 1 {
      PartsDoNotSplit(text, 0, i);
    }
  }

  lemma {:induction false} ParsedIsWellFormed(text: string)
    ensures ParseType(text).Parsed? ==> WellFormed(ParseType(text).value)
    ensures ParseType(text).Parsed? ==> (ParseType(text).value.Union? <==> |SplitTop(text, '|', 0)| >= 2)
    decreases |text|, 1, 0
  {
    var t := Strip(text);
    SplitStripLeft(text);
    SplitStripRight(StripLeft(text));
    BarOutsideIffSplits(t, 0);
    if '|' in Outside(t, 0) {
      SplitPartsShorter(t);
      PartsStayWhole(t);
      AllParsedWellFormed(SplitTop(t, '|', 0), |t|);
    } else if Wrapped(t, "list<") {
      ParsedIsWellFormed(t[5..|t| - 1]);
    } else if Wrapped(t, "map<") {
      ParsedIsWellFormed(t[4..|t| - 1]);
    }
  }

  lemma {:induction false} AllParsedWellFormed(parts: seq<string>, limit: nat)
    requires forall p <- parts :: |p| < limit && |SplitTop(p, '|', 0)| == 1
    ensures ParseAll(parts, limit).Parsed? ==> forall a <- ParseAll(parts, limit).value :: !a.Union? && WellFormed(a)
    decreases limit, 0, |parts|
  {
    if parts != [] {
      assert parts[0] in parts;
      ParsedIsWellFormed(parts[0]);
      AllParsedWellFormed(parts[1..], limit);
    }
  }

  /******* What is printed parses back *******/

  /** Brackets balance from `depth` on, and no `|` stands outside them. */
  predicate Clean(text: string, depth: nat) {
    if text == "" then depth == 0
    else if text[0] == '<' then Clean(text[1..], depth + 1)
    else if text[0] == '>' then depth > 0 && Clean(text[1..], depth - 1)
    else if text[0] == '|' then depth > 0 && Clean(text[1..], depth)
    else Clean(text[1..], depth)
  }

  /** Brackets balance from `depth` on. */
  predicate Balanced(text: string, depth: nat) {
    if text == "" then depth == 0
    else if text[0] == '<' then Balanced(text[1..], depth + 1)
    else if text[0] == '>' then depth > 0 && Balanced(text[1..], depth - 1)
    else Balanced(text[1..], depth)
  }

  lemma {:induction false} CleanIsBalanced(text: string, depth: nat)
    requires Clean(text, depth)
    ensures Balanced(text, depth)
  {
    if text != "" {
      CleanIsBalanced(text[1..], if text[0] == '<' then depth + 1 else if text[0] == '>' then depth - 1 else depth);
    }
  }

  lemma {:induction false} BalancedConcat(a: string, b: string, depth: nat)
    requires Balanced(a, depth) && Balanced(b, 0)
    ensures Balanced(a + b, depth)
  {
    if a == "" {
      assert a + b == b;
    } else {
      assert (a + b)[1..] == a[1..] + b;
      BalancedConcat(a[1..], b, if a[0] == '<' then depth + 1 else if a[0] == '>' then depth - 1 else depth);
    }
  }

  /** Inside one more bracket everything balanced is clean. */
  lemma {:induction false} ClosedIsClean(text: string, depth: nat)
    requires Balanced(text, depth)
    ensures Clean(text + ">", depth + 1)
  {
    if text == "" {
      assert text + ">" == ">";
    } else {
      assert (text + ">")[1..] == text[1..] + ">";
      ClosedIsClean(text[1..], if text[0] == '<' then depth + 1 else if text[0] == '>' then depth - 1 else depth);
    }
  }

  /** Characters of names and spaces do not matter. */
  lemma {:induction false} PlainPrefix(plain: string, rest: string, depth: nat)
    requires forall c <- plain :: IsNameChar(c) || c == ' '
    ensures Clean(plain + rest, depth) == Clean(rest, depth)
  {
    if plain == "" {
      assert plain + rest == rest;
    } else {
      assert plain[0] in plain;
      assert (plain + rest)[1..] == plain[1..] + rest;
      PlainPrefix(plain[1..], rest, depth);
    }
  }

  lemma PlainIsClean(text: string)
    requires forall c <- text :: IsNameChar(c)
    ensures Clean(text, 0)
  {
    PlainPrefix(text, "", 0);
    assert text + "" == text;
  }

  lemma WrapperIsClean(keyword: string, inner: string)
    requires (forall c <- keyword :: IsNameChar(c)) && Balanced(inner, 0)
    ensures Clean(keyword + "<" + inner + ">", 0)
  {
    var tail := inner + ">";
    ClosedIsClean(inner, 0);
    assert ("<" + tail)[1..] == tail;
    PlainPrefix(keyword, "<" + tail, 0);
    assert keyword + "<" + inner + ">" == keyword + ("<" + tail);
  }

  lemma {:induction false} CleanSpaced(text: string, depth: nat)
    requires Clean(text, depth)
    ensures Clean(text + " ", depth)
  {
    if text == "" {
      assert text + " " == " ";
    } else {
      assert (text + " ")[1..] == text[1..] + " ";
      CleanSpaced(text[1..], if text[0] == '<' then depth + 1 else if text[0] == '>' then depth - 1 else depth);
    }
  }

  /** A clean stretch is not cut: what follows is. */
  lemma {:induction false} CleanStaysWhole(a: string, rest: string, depth: nat)
    requires Clean(a, depth)
    ensures var after := SplitTop(rest, '|', 0);
            SplitTop(a + rest, '|', depth) == [a + after[0]] + after[1..]
  {
    var after := SplitTop(rest, '|', 0);
    if a == "" {
      assert a + rest == rest && a + after[0] == after[0];
    } else {
      var d := if a[0] == '<' then depth + 1 else if a[0] == '>' then depth - 1 else depth;
      assert (a + rest)[1..] == a[1..] + rest;
      CleanStaysWhole(a[1..], rest, d);
      assert [a[0]] + (a[1..] + after[0]) == a + after[0];
    }
  }

  lemma {:induction false} StripSpaces(text: string)
    requires Tight(text)
    ensures Strip(text) == text
    ensures Strip(text + " ") == text && Strip(" " + text) == text && Strip(" " + text + " ") == text
  {
    assert (text + " ")[..|text|] == text;
    assert (" " + text)[1..] == text;
    assert (" " + text + " ")[1..] == text + " ";
  }

  lemma PrimitivesArePlain(name: string)
    requires name in PRIMITIVES
    ensures name != "" && (forall c <- name :: IsNameChar(c)) && !IsTypeName(name)
  {
  }

  lemma JoinShape(left: string, right: string)
    requires Tight(left) && Balanced(left, 0) && Tight(right) && Balanced(right, 0)
    ensures Tight(left + " | " + right) && Balanced(left + " | " + right, 0)
  {
    assert Balanced(" | ", 0);
    BalancedConcat(" | ", right, 0);
    BalancedConcat(left, " | " + right, 0);
    assert left + (" | " + right) == left + " | " + right;
  }

  /** What the printer emits: balanced and tight, and clean unless it is a union. */
  lemma {:induction false} PrintShape(e: TypeExpr)
    requires WellFormed(e)
    ensures Tight(Print(e)) && Balanced(Print(e), 0)
    ensures !e.Union? ==> Clean(Print(e), 0)
  {
    match e
    case Prim(name) =>
      PrimitivesArePlain(name);
      PlainIsClean(name);
      CleanIsBalanced(name, 0);
    case Named(name) =>
      PlainIsClean(name);
      CleanIsBalanced(name, 0);
    case ListOf(arg) =>
      PrintShape(arg);
      WrapperIsClean("list", Print(arg));
      assert "list" + "<" + Print(arg) + ">" == Print(e);
      CleanIsBalanced(Print(e), 0);
    case MapOf(arg) =>
      PrintShape(arg);
      WrapperIsClean("map", Print(arg));
      assert "map" + "<" + Print(arg) + ">" == Print(e);
      CleanIsBalanced(Print(e), 0);
    case Union(args) => PrintAllShape(args);
  }

  lemma {:induction false} PrintAllShape(args: seq<TypeExpr>)
    requires args != [] && forall a <- args :: !a.Union? && WellFormed(a)
    ensures Tight(PrintAll(args)) && Balanced(PrintAll(args), 0)
  {
    PrintShape(args[0]);
    if |args| > 1 {
      PrintAllShape(args[1..]);
      JoinShape(Print(args[0]), PrintAll(args[1..]));
    }
  }

  /** The parts a printed union is cut into, the first one after `lead`. */
  function Pieces(args: seq<TypeExpr>, lead: string): seq<string>
    requires args != []
  {
    if |args| == 1 then [lead + Print(args[0])]
    else [lead + Print(args[0]) + " "] + Pieces(args[1..], " ")
  }

  lemma CutAtBar(front: string, tail: string)
    requires Clean(front, 0)
    ensures SplitTop(front + ("|" + tail), '|', 0) == [front] + SplitTop(tail, '|', 0)
  {
    var rest := SplitTop(tail, '|', 0);
    assert ("|" + tail)[1..] == tail;
    assert SplitTop("|" + tail, '|', 0) == [""] + rest;
    CleanStaysWhole(front, "|" + tail, 0);
    assert front + "" == front && ([""] + rest)[1..] == rest;
  }

  lemma LeadIsClean(lead: string, head: string)
    requires Clean(head, 0) && (lead == "" || lead == " ")
    ensures Clean(lead + head, 0) && Clean(lead + head + " ", 0)
  {
    PlainPrefix(lead, head, 0);
    CleanSpaced(lead + head, 0);
  }

  /** One printed part, and the bar behind it, is cut off the front. */
  lemma UnionStep(lead: string, head: string, behind: string)
    requires Clean(head, 0) && (lead == "" || lead == " ")
    ensures SplitTop(lead + (head + " | " + behind), '|', 0) == [lead + head + " "] + SplitTop(" " + behind, '|', 0)
  {
    var front := lead + head + " ";
    LeadIsClean(lead, head);
    CutAtBar(front, " " + behind);
    assert lead + (head + " | " + behind) == front + ("|" + (" " + behind));
  }

  lemma LastPart(lead: string, head: string)
    requires Clean(head, 0) && (lead == "" || lead == " ")
    ensures SplitTop(lead + head, '|', 0) == [lead + head]
  {
    var first := lead + head;
    LeadIsClean(lead, head);
    CleanStaysWhole(first, "", 0);
    assert first + "" == first;
  }

  lemma {:induction false} PrintedUnionSplits(args: seq<TypeExpr>, lead: string)
    requires args != [] && forall a <- args :: !a.Union? && WellFormed(a)
    requires lead == "" || lead == " "
    ensures SplitTop(lead + PrintAll(args), '|', 0) == Pieces(args, lead)
  {
    PrintShape(args[0]);
    if |args| == 1 {
      LastPart(lead, Print(args[0]));
    } else {
      UnionStep(lead, Print(args[0]), PrintAll(args[1..]));
      PrintedUnionSplits(args[1..], " ");
    }
  }

  /** The parser sees its text only through `strip`. */
  lemma ParsesAsStripped(text: string, inner: string)
    requires Strip(text) == inner && Strip(inner) == inner
    ensures ParseType(text) == ParseType(inner)
  {
  }

  /** The first piece is the first printed part between at most two spaces. */
  lemma FirstPiece(args: seq<TypeExpr>, lead: string)
    requires args != [] && WellFormed(args[0])
    requires lead == "" || lead == " "
    ensures ParseType(Pieces(args, lead)[0]) == ParseType(Print(args[0]))
  {
    var inner := Print(args[0]);
    PrintShape(args[0]);
    StripSpaces(inner);
    assert "" + inner == inner;
    ParsesAsStripped(Pieces(args, lead)[0], inner);
  }

  lemma ParseAllStep(first: string, rest: seq<string>, limit: nat, e: TypeExpr, es: seq<TypeExpr>)
    requires |first| < limit && forall p <- rest :: |p| < limit
    requires ParseType(first) == Parsed(e) && ParseAll(rest, limit) == Parsed(es)
    ensures ParseAll([first] + rest, limit) == Parsed([e] + es)
  {
    assert ([first] + rest)[1..] == rest;
  }

  lemma {:induction false} PiecesParse(args: seq<TypeExpr>, lead: string, limit: nat)
    requires args != [] && forall a <- args :: !a.Union? && WellFormed(a)
    requires lead == "" || lead == " "
    requires forall p <- Pieces(args, lead) :: |p| < limit
    ensures ParseAll(Pieces(args, lead), limit) == Parsed(args)
    decreases args, 0
  {
    var first := Pieces(args, lead)[0];
    FirstPiece(args, lead);
    RoundTrip(args[0]);
    if |args| == 1 {
      ParseAllStep(first, [], limit, args[0], []);
      assert Pieces(args, lead) == [first] + [] && args == [args[0]] + [];
    } else {
      var rest := Pieces(args[1..], " ");
      assert Pieces(args, lead) == [first] + rest && args == [args[0]] + args[1..];
      PiecesParse(args[1..], " ", limit);
      ParseAllStep(first, rest, limit, args[0], args[1..]);
    }
  }

  /** A printed type that is not a union has no `|` outside brackets. */
  lemma NoBarOutside(e: TypeExpr)
    requires WellFormed(e) && !e.Union?
    ensures '|' !in Outside(Print(e), 0) && Strip(Print(e)) == Print(e)
  {
    var text := Print(e);
    PrintShape(e);
    StripSpaces(text);
    CleanStaysWhole(text, "", 0);
    assert text + "" == text;
    BarOutsideIffSplits(text, 0);
  }

  lemma ParseLeaf(text: string)
    requires '|' !in Outside(text, 0) && Strip(text) == text
    requires text != "" && IsNameChar(text[|text| - 1])
    ensures ParseType(text) == if text in PRIMITIVES then Parsed(Prim(text))
                               else if IsTypeName(text) then Parsed(Named(text)) else Unparseable(text)
  {
    assert text[|text| - 1] != '>';
    assert !Wrapped(text, "list<") && !Wrapped(text, "map<");
  }

  lemma ParseList(text: string, inner: string)
    requires '|' !in Outside(text, 0) && Strip(text) == text && text == "list<" + inner + ">"
    ensures ParseType(text) == match ParseType(inner)
                               case Parsed(e) => Parsed(ListOf(e))
                               case Unparseable(bad) => Unparseable(bad)
  {
    assert text[5..|text| - 1] == inner;
  }

  lemma ParseMap(text: string, inner: string)
    requires '|' !in Outside(text, 0) && Strip(text) == text && text == "map<" + inner + ">"
    ensures ParseType(text) == match ParseType(inner)
                               case Parsed(e) => Parsed(MapOf(e))
                               case Unparseable(bad) => Unparseable(bad)
  {
    assert text[4..|text| - 1] == inner;
    assert text[0] == 'm' && "list<"[0] == 'l';
  }

  lemma ParseUnion(text: string)
    requires Strip(text) == text && |SplitTop(text, '|', 0)| >= 2
    ensures forall p <- SplitTop(text, '|', 0) :: |p| < |text|
    ensures ParseAll(SplitTop(text, '|', 0), |text|).Parsed?
            ==> ParseType(text) == Parsed(Union(ParseAll(SplitTop(text, '|', 0), |text|).value))
  {
    BarOutsideIffSplits(text, 0);
    SplitPartsShorter(text);
  }

  lemma {:induction false} PiecesCount(args: seq<TypeExpr>, lead: string)
    requires args != []
    ensures |Pieces(args, lead)| == |args|
  {
    if |args| > 1 {
      PiecesCount(args[1..], " ");
    }
  }

  lemma PrimitiveOrName(name: string)
    requires IsTypeName(name)
    ensures name !in PRIMITIVES
  {
    if name in PRIMITIVES {
      PrimitivesArePlain(name);
    }
  }

  lemma LastIsNameChar(text: string)
    requires text in PRIMITIVES || IsTypeName(text)
    ensures text != "" && IsNameChar(text[|text| - 1])
  {
    if text in PRIMITIVES {
      PrimitivesArePlain(text);
      assert text[|text| - 1] in text;
    }
  }

  /** `parse_type` inverts the printer on every well-formed type expression. */
  lemma {:induction false} RoundTrip(e: TypeExpr)
    requires WellFormed(e)
    ensures ParseType(Print(e)) == Parsed(e)
    decreases e, 1
  {
    match e
    case Prim(name) =>
      NoBarOutside(e);
      LastIsNameChar(name);
      ParseLeaf(name);
    case Named(name) =>
      NoBarOutside(e);
      LastIsNameChar(name);
      PrimitiveOrName(name);
      ParseLeaf(name);
    case ListOf(arg) =>
      NoBarOutside(e);
      RoundTrip(arg);
      ParseList(Print(e), Print(arg));
    case MapOf(arg) =>
      NoBarOutside(e);
      RoundTrip(arg);
      ParseMap(Print(e), Print(arg));
    case Union(args) => RoundTripUnion(args);
  }

  lemma {:induction false} RoundTripUnion(args: seq<TypeExpr>)
    requires WellFormed(Union(args))
    ensures ParseType(PrintAll(args)) == Parsed(Union(args))
    decreases args, 2
  {
    var text := PrintAll(args);
    PrintAllShape(args);
    StripSpaces(text);
    PrintedUnionSplits(args, "");
    assert "" + text == text;
    PiecesCount(args, "");
    ParseUnion(text);
    PiecesParse(args, "", |text|);
  }

  lemma PrintedPair(x: TypeExpr, y: TypeExpr)
    ensures PrintAll([x, y]) == Print(x) + " | " + Print(y)
  {
    assert [x, y][1..] == [y];
  }

  lemma LooksLikeAList(left: string, right: string)
    requires "list<" <= left && right != "" && right[|right| - 1] == '>'
    ensures Wrapped(left + " | " + right, "list<")
  {
  }

  /** A union that begins and ends like one list is still a union. */
  lemma UnionThatLooksLikeAList(a: TypeExpr, b: TypeExpr)
    requires WellFormed(a) && WellFormed(b)
    ensures var text := Print(ListOf(a)) + " | " + Print(ListOf(b));
            Wrapped(text, "list<") && ParseType(text) == Parsed(Union([ListOf(a), ListOf(b)]))
  {
    PrintedPair(ListOf(a), ListOf(b));
    LooksLikeAList(Print(ListOf(a)), Print(ListOf(b)));
    RoundTripUnion([ListOf(a), ListOf(b)]);
  }

  /** Printing what parsed is a normal form: it parses to the same expression. */
  lemma NormalForm(text: string)
    requires ParseType(text).Parsed?
    ensures ParseType(Print(ParseType(text).value)) == ParseType(text)
  {
    ParsedIsWellFormed(text);
    RoundTrip(ParseType(text).value);
  }
}
