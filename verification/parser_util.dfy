/** Parsing relational variables ("[A, AB, B].Y") and dependencies
    ("[A, AB, B].Y -> [A].X") from text, and printing them back. */
module ParserUtil {
  import opened Wrappers
  import opened Strings
  import opened RelVars

  const NotStringOrVar := "relVarStr is not a string or RelationalVariable Object"
  const NotOneDot := "relVarStr did not have exactly one dot"
  const NotOneLeft := "relVarStr did not have exactly one left square bracket"
  const NotOneRight := "relVarStr did not have exactly one right square bracket"
  const NotBracketed := "pathStr did not start and end with square brackets"
  /** Reading the first character of empty text before the dot. */
  const EmptyPathText := "IndexError: string index out of range"
  const NotStringOrDep := "relDepStr is not a string or RelationalDependency object"
  const NotOneArrow := "relDepStr did not have exactly one '->' arrow"

  function StripAll(items: seq<string>): (r: seq<string>)
    ensures |r| == |items|
    ensures forall i :: 0 <= i < |items| ==> r[i] == Strip(items[i])
  {
    if |items| == 0 then [] else [Strip(items[0])] + StripAll(items[1..])
  }

  /** The path text before the dot must be bracketed; the names inside are the
      comma-separated pieces, and every name and the attribute are stripped. */
  function ParseRelVarString(s: string): (r: Result<RelVar>)
    ensures Count(s, '.') != 1 ==> r == Err(NotOneDot)
    ensures Count(s, '.') == 1 && Count(s, '[') != 1 ==> r == Err(NotOneLeft)
    ensures Count(s, '.') == 1 && Count(s, '[') == 1 && Count(s, ']') != 1 ==> r == Err(NotOneRight)
    ensures Count(s, '.') == 1 && Count(s, '[') == 1 && Count(s, ']') == 1 ==>
              var pathStr := Split(s, '.')[0];
              (|pathStr| == 0 ==> r == Err(EmptyPathText))
              && (|pathStr| > 0 && (pathStr[0] != '[' || pathStr[|pathStr| - 1] != ']') ==> r == Err(NotBracketed))
              && (|pathStr| > 0 && pathStr[0] == '[' && pathStr[|pathStr| - 1] == ']' ==> r.Ok?)
    ensures r.Ok? ==> Count(s, '.') == 1 && Count(s, '[') == 1 && Count(s, ']') == 1
    ensures r.Ok? ==> exists pathStr, attr :: s == pathStr + "." + attr && |pathStr| >= 2
                        && pathStr[0] == '[' && pathStr[|pathStr| - 1] == ']'
                        && r.value.attrName == Strip(attr)
                        && r.value.path == StripAll(Split(pathStr[1..|pathStr| - 1], ','))
  {
    if Count(s, '.') != 1 then Err(NotOneDot)
    else if Count(s, '[') != 1 then Err(NotOneLeft)
    else if Count(s, ']') != 1 then Err(NotOneRight)
    else
      var parts := Split(s, '.');
      var pathStr, attr := parts[0], parts[1];
      assert s == pathStr + "." + attr by {
        assert Join(parts, ".") == parts[0] + "." + Join(parts[1..], ".");
        assert parts[1..] == [attr];
      }
      if |pathStr| == 0 then Err(EmptyPathText)
      else if pathStr[0] != '[' || pathStr[|pathStr| - 1] != ']' then Err(NotBracketed)
      else
        var names := StripAll(Split(pathStr[1..|pathStr| - 1], ','));
        Ok(RelVar(names, Strip(attr)))
  }

  /** `parseRelVar`: a relational variable passes through unchanged, text is
      parsed, anything else is refused. */
  function ParseRelVar(o: Obj): (r: Result<RelVar>)
    ensures o.VarObj? ==> r == Ok(o.v)
    ensures o.StrObj? ==> r == ParseRelVarString(o.s)
    ensures o.DepObj? || o.OtherObj? ==> r == Err(NotStringOrVar)
  {
    match o
    case VarObj(v) => Ok(v)
    case StrObj(s) => ParseRelVarString(s)
    case _ => Err(NotStringOrVar)
  }

  /** The text before and after the single arrow. */
  function SplitArrow(s: string): (string, string)
    requires CountArrow(s) > 0
  {
    var i := ArrowIndex(s);
    (s[..i], s[i + 2..])
  }

  /** `parseRelDep`: exactly one arrow, both sides stripped and parsed, the
      cause first. */
  function ParseRelDep(o: Obj): (r: Result<RelDep>)
    ensures o.DepObj? ==> r == Ok(o.d)
    ensures o.VarObj? || o.OtherObj? ==> r == Err(NotStringOrDep)
    ensures o.StrObj? && CountArrow(o.s) != 1 ==> r == Err(NotOneArrow)
    ensures o.StrObj? && r.Ok? ==>
              CountArrow(o.s) == 1
              && ParseRelVarString(Strip(SplitArrow(o.s).0)) == Ok(r.value.cause)
              && ParseRelVarString(Strip(SplitArrow(o.s).1)) == Ok(r.value.effect)
    ensures o.StrObj? && CountArrow(o.s) == 1 ==>
              (r.Ok? <==> ParseRelVarString(Strip(SplitArrow(o.s).0)).Ok?
                          && ParseRelVarString(Strip(SplitArrow(o.s).1)).Ok?)
  {
    match o
    case DepObj(d) => Ok(d)
    case StrObj(s) =>
      if CountArrow(s) != 1 then Err(NotOneArrow)
      else
        var (left, right) := SplitArrow(s);
        var cause :- ParseRelVarString(Strip(left));
        var effect :- ParseRelVarString(Strip(right));
        Ok(RelDep(cause, effect))
    case _ => Err(NotStringOrDep)
  }

  /** The printed form: the path list without quotes, then '.' and the attribute. */
  function Show(v: RelVar): string {
    "[" + Join(v.path, ", ") + "]." + v.attrName
  }

  function ShowDep(d: RelDep): string {
    Show(d.cause) + " -> " + Show(d.effect)
  }

  /** Names whose printed form reads back unchanged: printable ASCII without
      whitespace, quotes, backslashes or any character of the notation. */
  predicate PlainChar(c: char) {
    '!' <= c <= '~' && c != '.' && c != '[' && c != ']' && c != ',' && c != '\'' && c != '"'
    && c != '\\' && c != '-' && c != '>'
  }

  predicate PlainName(n: string) {
    forall i :: 0 <= i < |n| ==> PlainChar(n[i])
  }

  predicate PlainVar(v: RelVar) {
    (forall i :: 0 <= i < |v.path| ==> PlainName(v.path[i])) && PlainName(v.attrName)
  }

  /** Names after the first, each with the single space the printer puts after a comma. */
  function Spaced(names: seq<string>): (r: seq<string>)
    ensures |r| == |names|
    ensures forall i :: 0 <= i < |names| ==> r[i] == " " + names[i]
  {
    if |names| == 0 then [] else [" " + names[0]] + Spaced(names[1..])
  }

  lemma {:induction false} SplitPrinted(names: seq<string>)
    requires |names| > 0 && forall i :: 0 <= i < |names| ==> ',' !in names[i]
    ensures Split(Join(names, ", "), ',') == [names[0]] + Spaced(names[1..])
  {
    if |names| > 1 {
      var rest := names[1..];
      assert Join(names, ", ") == names[0] + [','] + (" " + Join(rest, ", "));
      SplitCons(names[0], ',', " " + Join(rest, ", "));
      SplitPrinted(rest);
      var t := Split(Join(rest, ", "), ',');
      assert (" " + Join(rest, ", "))[1..] == Join(rest, ", ");
      assert Split(" " + Join(rest, ", "), ',') == [" " + t[0]] + t[1..];
      assert [" " + t[0]] + t[1..] == Spaced(rest);
    } else {
      SplitNoSeparator(names[0], ',');
    }
  }

  lemma PlainTrimmed(n: string)
    requires PlainName(n)
    ensures |n| > 0 ==> !IsSpace(n[0]) && !IsSpace(n[|n| - 1])
  {
  }

  lemma PlainNotIn(n: string, c: char)
    requires PlainName(n) && !PlainChar(c)
    ensures c !in n
  {
  }

  lemma CountShape(j: string, a: string, c: char)
    ensures Count("[" + j + "]." + a, c) == Count("[", c) + Count(j, c) + Count("]", c) + Count(".", c) + Count(a, c)
  {
    assert "[" + j + "]." + a == ("[" + j + "]" + ".") + a;
    CountAppend("[" + j + "]" + ".", a, c);
    CountAppend("[" + j + "]", ".", c);
    CountAppend("[" + j, "]", c);
    CountAppend("[", j, c);
  }

  lemma PathRoundTrip(path: Path)
    requires forall i :: 0 <= i < |path| ==> PlainName(path[i])
    ensures StripAll(Split(Join(path, ", "), ',')) == path
  {
    forall i | 0 <= i < |path| ensures ',' !in path[i] {
      PlainNotIn(path[i], ',');
    }
    SplitPrinted(path);
    StripPieces(path);
  }

  /** Stripping the printed pieces gives the names back. */
  lemma StripPieces(path: Path)
    requires forall i :: 0 <= i < |path| ==> PlainName(path[i])
    ensures StripAll([path[0]] + Spaced(path[1..])) == path
  {
    var pieces := [path[0]] + Spaced(path[1..]);
    forall i | 0 <= i < |path|
      ensures Strip(pieces[i]) == path[i]
    {
      StripPiece(path, pieces, i);
    }
    assert StripAll(pieces) == path;
  }

  lemma StripPiece(path: Path, pieces: seq<string>, i: nat)
    requires i < |path| && PlainName(path[i])
    requires pieces == [path[0]] + Spaced(path[1..])
    ensures Strip(pieces[i]) == path[i]
  {
    PlainTrimmed(path[i]);
    if i == 0 {
      StripTrimmed(path[0]);
    } else {
      assert pieces[i] == Spaced(path[1..])[i - 1] == " " + path[i];
      StripLeadingSpace(path[i]);
    }
  }

  /** Printing then parsing gives the variable back. */
  lemma ParseShow(v: RelVar)
    requires PlainVar(v)
    ensures ParseRelVarString(Show(v)) == Ok(v)
  {
    ShowPieces(v);
    ParseOfShape(Show(v), "[" + Join(v.path, ", ") + "]", v.attrName, v);
  }

  /** The printed text splits at its dot into the bracketed path and the
      attribute, whose stripped pieces are the variable's names. */
  lemma ShowPieces(v: RelVar)
    requires PlainVar(v)
    ensures var pathStr := "[" + Join(v.path, ", ") + "]";
            Count(Show(v), '.') == 1 && Count(Show(v), '[') == 1 && Count(Show(v), ']') == 1
            && Split(Show(v), '.') == [pathStr, v.attrName]
            && |pathStr| >= 2 && pathStr[0] == '[' && pathStr[|pathStr| - 1] == ']'
            && StripAll(Split(pathStr[1..|pathStr| - 1], ',')) == v.path && Strip(v.attrName) == v.attrName
  {
    ShowShape(v);
    ShowSplits(v);
    var j := Join(v.path, ", ");
    var pathStr := "[" + j + "]";
    assert pathStr[1..|pathStr| - 1] == j;
    PathRoundTrip(v.path);
    PlainTrimmed(v.attrName);
    StripTrimmed(v.attrName);
  }

  /** The printed text splits at its only dot. */
  lemma ShowSplits(v: RelVar)
    requires PlainVar(v)
    ensures Split(Show(v), '.') == ["[" + Join(v.path, ", ") + "]", v.attrName]
  {
    var pathStr := "[" + Join(v.path, ", ") + "]";
    assert Show(v) == pathStr + "." + v.attrName;
    ShowShape(v);
    PlainNotIn(v.attrName, '.');
    SplitAround(pathStr, '.', v.attrName);
  }

  /** Text with one of each mark, split at its dot into a bracketed path and
      an attribute, parses to the stripped pieces. */
  lemma ParseOfShape(s: string, pathStr: string, attr: string, v: RelVar)
    requires Count(s, '.') == 1 && Count(s, '[') == 1 && Count(s, ']') == 1
    requires Split(s, '.') == [pathStr, attr]
    requires |pathStr| >= 2 && pathStr[0] == '[' && pathStr[|pathStr| - 1] == ']'
    requires StripAll(Split(pathStr[1..|pathStr| - 1], ',')) == v.path && Strip(attr) == v.attrName
    ensures ParseRelVarString(s) == Ok(v)
  {
    assert v == RelVar(StripAll(Split(pathStr[1..|pathStr| - 1], ',')), Strip(attr));
  }

  /** The joined path and the attribute name hold none of the marks the
      parser splits on, so the bracketed path holds no dot. */
  lemma ShowShape(v: RelVar)
    requires PlainVar(v)
    ensures Count(Show(v), '.') == 1 && Count(Show(v), '[') == 1 && Count(Show(v), ']') == 1
    ensures '.' !in "[" + Join(v.path, ", ") + "]"
  {
    var j := Join(v.path, ", ");
    var pathStr := "[" + j + "]";
    forall c | c == '.' || c == '[' || c == ']'
      ensures Count(j, c) == 0 && Count(v.attrName, c) == 0
    {
      assert c !in ", ";
      forall i | 0 <= i < |v.path| ensures c !in v.path[i] {
        PlainNotIn(v.path[i], c);
      }
      NotInJoin(v.path, ", ", c);
      PlainNotIn(v.attrName, c);
      CountZero(j, c);
      CountZero(v.attrName, c);
    }
    assert '.' !in pathStr by {
      CountAppend("[" + j, "]", '.');
      CountAppend("[", j, '.');
      CountZero(pathStr, '.');
    }
    assert Show(v) == "[" + j + "]." + v.attrName;
    CountShape(j, v.attrName, '.');
    CountShape(j, v.attrName, '[');
    CountShape(j, v.attrName, ']');
  }

  /** A parsed canonical string prints back to itself. */
  lemma ShowParse(s: string, v: RelVar)
    requires PlainVar(v) && s == Show(v)
    ensures ParseRelVarString(s).Ok? && Show(ParseRelVarString(s).value) == s
  {
    ParseShow(v);
  }

  lemma ShowHasNoDash(v: RelVar)
    requires PlainVar(v)
    ensures '-' !in Show(v)
    ensures |Show(v)| > 0 && !IsSpace(Show(v)[0]) && !IsSpace(Show(v)[|Show(v)| - 1])
  {
    forall i | 0 <= i < |v.path| ensures '-' !in v.path[i] {
      PlainNotIn(v.path[i], '-');
    }
    NotInJoin(v.path, ", ", '-');
    PlainNotIn(v.attrName, '-');
    var s := Show(v);
    assert s == "[" + Join(v.path, ", ") + "]." + v.attrName;
    if |v.attrName| > 0 {
      assert s[|s| - 1] == v.attrName[|v.attrName| - 1];
    } else {
      assert s[|s| - 1] == '.';
    }
  }

  /** Printing then parsing gives the dependency back. */
  lemma ParseShowDep(d: RelDep)
    requires PlainVar(d.cause) && PlainVar(d.effect)
    ensures ParseRelDep(StrObj(ShowDep(d))) == Ok(d)
  {
    var a, b := Show(d.cause), Show(d.effect);
    ShowHasNoDash(d.cause);
    ShowHasNoDash(d.effect);
    var s := ShowDep(d);
    assert s == (a + " ") + ("->" + (" " + b));
    CountArrowSkip(a + " ", "->" + (" " + b));
    assert ("->" + (" " + b))[2..] == " " + b;
    CountArrowSkip(" " + b, "");
    assert " " + b + "" == " " + b;
    assert CountArrow(s) == 1;
    ArrowIndexSkip(a + " ", "->" + (" " + b));
    assert SplitArrow(s) == (a + " ", " " + b);
    StripTrailingSpace(a);
    StripLeadingSpace(b);
    ParseShow(d.cause);
    ParseShow(d.effect);
  }

  /** Parsing an already parsed object changes nothing. */
  lemma ParseIdempotent(o: Obj)
    requires ParseRelVar(o).Ok?
    ensures ParseRelVar(VarObj(ParseRelVar(o).value)) == ParseRelVar(o)
  {
  }
}
