/** What the type parser makes of every text: what it accepts says what the text says, and the rest is refused. */
module TypeMeaning {
  import opened Text
  import opened TypeGrammar

  /******* Texts without brackets or bars *******/

  lemma {:induction false} OutsideIsPart(text: string, depth: int)
    ensures forall c <- Outside(text, depth) :: c in text
  {
    if text != "" {
      OutsideIsPart(text[1..], depth + Opens(text[0]) - Closes(text[0]));
    }
  }

  lemma {:induction false} StripIsPart(text: string)
    ensures forall c <- Strip(text) :: c in text
  {
    StripExactly(text);
    var before: string, after: string :| text == before + Strip(text) + after && AllSpace(before) && AllSpace(after);
  }

  /** A text without `<`, `>` or `|` is one of six primitives, or a capitalised name, or refused as it stands. */
  lemma PlainExactly(text: string)
    requires forall c <- text :: c != '<' && c != '>' && c != '|'
    ensures var t := Strip(text);
            ParseType(text)
            == if t == "string" || t == "int" || t == "float" || t == "bool" || t == "any" || t == "object" then Parsed(Prim(t))
               else if t != "" && 'A' <= t[0] <= 'Z' && forall c <- t :: 'A' <= c <= 'Z' || 'a' <= c <= 'z' || '0' <= c <= '9'
               then Parsed(Named(t)) else Unparseable(t)
  {
    var t := Strip(text);
    StripIsPart(text);
    OutsideIsPart(t, 0);
    assert t != "" ==> t[|t| - 1] in t;
    assert forall i | 0 <= i < |t| :: t[i] in t;
  }

  /******* Wrappers *******/

  /** A text with balanced brackets, in a wrapper, is parsed as what it is a list or a map of, and refused as it is. */
  lemma WrappedExactly(inner: string)
    requires Balanced(inner, 0)
    ensures ParseType("list<" + inner + ">") == match ParseType(inner)
                                                case Parsed(e) => Parsed(ListOf(e))
                                                case Unparseable(bad) => Unparseable(bad)
    ensures ParseType("map<" + inner + ">") == match ParseType(inner)
                                               case Parsed(e) => Parsed(MapOf(e))
                                               case Unparseable(bad) => Unparseable(bad)
  {
    WholeWrapper("list", inner);
    WholeWrapper("map", inner);
    assert "list" + "<" == "list<" && "map" + "<" == "map<";
    ParseList("list<" + inner + ">", inner);
    ParseMap("map<" + inner + ">", inner);
  }

  lemma WholeWrapper(keyword: string, inner: string)
    requires keyword != "" && (forall c <- keyword :: IsNameChar(c)) && Balanced(inner, 0)
    ensures var text := keyword + "<" + inner + ">"; '|' !in Outside(text, 0) && Strip(text) == text
  {
    var text := keyword + "<" + inner + ">";
    WrapperIsClean(keyword, inner);
    CleanStaysWhole(text, "", 0);
    assert text + "" == text;
    BarOutsideIffSplits(text, 0);
    assert text[0] == keyword[0] && keyword[0] in keyword;
    StripSpaces(text);
  }

  /******* Unions *******/

  /**
   A union parses exactly if each of its parts does, as the union of what they parse as; else its
   first bad part is named.
   */
  lemma UnionExactly(text: string)
    requires |SplitTop(Strip(text), '|', 0)| >= 2
    ensures var parts := SplitTop(Strip(text), '|', 0);
            match ParseType(text)
            case Parsed(e) =>
              && e.Union? && |e.args| == |parts|
              && forall i | 0 <= i < |parts| :: ParseType(parts[i]) == Parsed(e.args[i])
            case Unparseable(bad) => exists i | 0 <= i < |parts| :: IsFirstBad(parts, i, bad)
  {
    var t := Strip(text);
    var parts := SplitTop(t, '|', 0);
    BarOutsideIffSplits(t, 0);
    SplitPartsShorter(t);
    AllExactly(parts, |t|);
    match ParseAll(parts, |t|) {
      case Parsed(args) => assert ParseType(text) == Parsed(Union(args));
      case Unparseable(bad) => assert ParseType(text) == Unparseable(bad);
    }
  }

  ghost predicate IsFirstBad(parts: seq<string>, i: nat, bad: string)
    requires i < |parts|
  {
    ParseType(parts[i]) == Unparseable(bad) && forall j | 0 <= j < i :: ParseType(parts[j]).Parsed?
  }

  lemma {:induction false} AllExactly(parts: seq<string>, limit: nat)
    requires forall p <- parts :: |p| < limit
    ensures match ParseAll(parts, limit)
            case Parsed(args) => |args| == |parts| && forall i | 0 <= i < |parts| :: ParseType(parts[i]) == Parsed(args[i])
            case Unparseable(bad) => exists i | 0 <= i < |parts| :: IsFirstBad(parts, i, bad)
  {
    if parts != [] && ParseType(parts[0]).Parsed? {
      var rest := parts[1..];
      AllExactly(rest, limit);
      match ParseAll(rest, limit) {
        case Parsed(args) =>
        case Unparseable(bad) =>
          var i :| 0 <= i < |rest| && IsFirstBad(rest, i, bad);
          assert forall j | 0 < j <= i :: parts[j] == rest[j - 1];
          assert IsFirstBad(parts, i + 1, bad);
      }
    } else if parts != [] {
      assert IsFirstBad(parts, 0, ParseType(parts[0]).text);
    }
  }

  /******* Nothing is lost or made up *******/

  function Despaced(text: string): string {
    if text == "" then "" else (if IsSpace(text[0]) then "" else [text[0]]) + Despaced(text[1..])
  }

  lemma {:induction false} DespacedConcat(a: string, b: string)
    ensures Despaced(a + b) == Despaced(a) + Despaced(b)
  {
    if a == "" {
      assert a + b == b;
    } else {
      assert (a + b)[1..] == a[1..] + b;
      DespacedConcat(a[1..], b);
    }
  }

  lemma {:induction false} SpacesVanish(text: string)
    requires AllSpace(text)
    ensures Despaced(text) == ""
  {
    if text != "" {
      assert text[0] in text;
      SpacesVanish(text[1..]);
    }
  }

  lemma DespacedStrip(text: string)
    ensures Despaced(Strip(text)) == Despaced(text)
  {
    StripExactly(text);
    var before: string, after: string :| text == before + Strip(text) + after && AllSpace(before) && AllSpace(after);
    DespacedConcat(before + Strip(text), after);
    DespacedConcat(before, Strip(text));
    SpacesVanish(before);
    SpacesVanish(after);
  }

  function Joined(parts: seq<string>, sep: char): string
    requires parts != []
  {
    if |parts| == 1 then parts[0] else parts[0] + ([sep] + Joined(parts[1..], sep))
  }

  lemma JoinedFront(first: string, more: string, rest: seq<string>, sep: char)
    ensures Joined([first + more] + rest, sep) == first + Joined([more] + rest, sep)
  {
    if rest != [] {
      assert ([first + more] + rest)[1..] == rest == ([more] + rest)[1..];
      var tail := [sep] + Joined(rest, sep);
      assert (first + more) + tail == first + (more + tail);
    }
  }

  /** Joining what a split yields gives the text back. */
  lemma {:induction false} SplitJoins(text: string, sep: char, depth: int)
    ensures Joined(SplitTop(text, sep, depth), sep) == text
  {
    if text != "" {
      var d := depth + Opens(text[0]) - Closes(text[0]);
      var rest := SplitTop(text[1..], sep, d);
      SplitJoins(text[1..], sep, d);
      assert text == [text[0]] + text[1..];
      if text[0] == sep && d == 0 {
        assert ([""] + rest)[1..] == rest;
      } else {
        JoinedFront([text[0]], rest[0], rest[1..], sep);
        assert [rest[0]] + rest[1..] == rest;
      }
    }
  }

  /** What was parsed, if it was, prints as the text, spaces aside. */
  ghost predicate Reprints(r: Parse<TypeExpr>, text: string) {
    match r
    case Parsed(e) => Despaced(Print(e)) == Despaced(text)
    case Unparseable(_) => true
  }

  /**
   What a text parses as prints as the text itself, spaces aside: no part of an accepted text is
   dropped, and nothing is added to it.
   */
  lemma {:induction false} ParsedReprints(text: string)
    ensures Reprints(ParseType(text), text)
    decreases |text|, 1, 0
  {
    var t := Strip(text);
    DespacedStrip(text);
    if '|' in Outside(t, 0) {
      UnionReprints(text);
    } else if Wrapped(t, "list<") {
      ParsedReprints(t[5..|t| - 1]);
      PrintsAround(text);
      WrappedReprints(t, "list<", ParseType(t[5..|t| - 1]), ParseType(text));
    } else if Wrapped(t, "map<") {
      ParsedReprints(t[4..|t| - 1]);
      PrintsAround(text);
      WrappedReprints(t, "map<", ParseType(t[4..|t| - 1]), ParseType(text));
    }
  }

  lemma {:induction false} UnionReprints(text: string)
    requires '|' in Outside(Strip(text), 0)
    ensures Reprints(ParseType(text), Strip(text))
    decreases |text|, 0, |text| + 2
  {
    var t := Strip(text);
    var parts := SplitTop(t, '|', 0);
    BarOutsideIffSplits(t, 0);
    SplitPartsShorter(t);
    SplitLengths(t, '|', 0);
    SplitJoins(t, '|', 0);
    AllReprint(parts, |t|);
  }

  /** A wrapper is printed around what its inside parsed as. */
  ghost predicate Around(open: string, inner: Parse<TypeExpr>, outer: Parse<TypeExpr>) {
    match outer
    case Parsed(e) => inner.Parsed? && Print(e) == open + Print(inner.value) + ">"
    case Unparseable(_) => true
  }

  lemma PrintsAround(text: string)
    requires '|' !in Outside(Strip(text), 0) && (Wrapped(Strip(text), "list<") || Wrapped(Strip(text), "map<"))
    ensures var t := Strip(text);
            if Wrapped(t, "list<") then Around("list<", ParseType(t[5..|t| - 1]), ParseType(text))
            else Around("map<", ParseType(t[4..|t| - 1]), ParseType(text))
  {
  }

  lemma Enclosed(open: string, a: string, b: string)
    requires Despaced(a) == Despaced(b)
    ensures Despaced(open + a + ">") == Despaced(open + b + ">")
  {
    DespacedConcat(open + a, ">");
    DespacedConcat(open, a);
    DespacedConcat(open + b, ">");
    DespacedConcat(open, b);
  }

  lemma WrappedReprints(t: string, open: string, inner: Parse<TypeExpr>, outer: Parse<TypeExpr>)
    requires Wrapped(t, open) && Reprints(inner, t[|open|..|t| - 1])
    requires Around(open, inner, outer)
    ensures Reprints(outer, t)
  {
    if outer.Parsed? {
      var body := t[|open|..|t| - 1];
      assert t == open + body + ">";
      Enclosed(open, Print(inner.value), body);
    }
  }

  lemma {:induction false} AllReprint(parts: seq<string>, limit: nat)
    requires parts != [] && forall p <- parts :: |p| < limit
    ensures match ParseAll(parts, limit)
            case Parsed(args) => Despaced(PrintAll(args)) == Despaced(Joined(parts, '|'))
            case Unparseable(_) => true
    decreases limit, 0, |parts|
  {
    assert parts[0] in parts;
    ParsedReprints(parts[0]);
    if |parts| > 1 {
      AllReprint(parts[1..], limit);
      match ParseAll(parts, limit) {
        case Unparseable(_) =>
        case Parsed(args) =>
          BarReprints(Print(args[0]), PrintAll(args[1..]), parts[0], Joined(parts[1..], '|'));
      }
    }
  }

  lemma SpacedBar()
    ensures Despaced(" | ") == Despaced(['|'])
  {
    assert " | "[1..] == "| " && "| "[1..] == " ";
  }

  lemma BarReprints(left: string, right: string, first: string, rest: string)
    requires Despaced(left) == Despaced(first) && Despaced(right) == Despaced(rest)
    ensures Despaced(left + " | " + right) == Despaced(first + (['|'] + rest))
  {
    DespacedConcat(left + " | ", right);
    DespacedConcat(left, " | ");
    DespacedConcat(first, ['|'] + rest);
    DespacedConcat(['|'], rest);
    SpacedBar();
  }
}
