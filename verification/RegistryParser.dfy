/** `parse_registry` of xtask and the text form it reads back. */
module RegistryParser {
  import opened Prelude
  import opened Text
  import opened QuoteScanners

  datatype ModuleKey = ModuleKey(cargoFeature: string, id: string, kind: string)

  datatype RegistryModule = RegistryModule(
    key: ModuleKey,
    providesList: seq<string>,
    requiresList: seq<string>
  )

  datatype ParseError =
    | ExpectedQuotedString(got: string)
    | ExpectedStringArray(got: string)
    | IncompleteModule(incomplete: RegistryModule)

  const HEADER := "[[modules]]"
  const EMPTY_MODULE := RegistryModule(ModuleKey("", "", ""), [], [])

  // ---------------------------------------------------------------------
  // Values
  // ---------------------------------------------------------------------

  function StripComment(line: string): (r: string)
    ensures '#' !in r && r <= line && (|r| < |line| ==> line[|r|] == '#')
  {
    line[..IndexOf(line, '#')]
  }

  /** The part of a line a parser looks at. */
  function Statement(line: string): (r: string)
    ensures '#' !in r
  {
    TrimAvoids(StripComment(line), '#');
    Trim(StripComment(line))
  }

  function ParseString(value: string): Result<string, ParseError> {
    var trimmed := Trim(value);
    match StripPrefix(trimmed, "\"")
    case None => Err(ExpectedQuotedString(trimmed))
    case Some(unopened) =>
      match StripSuffix(unopened, "\"")
      case None => Err(ExpectedQuotedString(trimmed))
      case Some(s) => Ok(s)
  }

  function CollectStrings(pieces: seq<string>): Result<seq<string>, ParseError> {
    if pieces == [] then Ok([])
    else match ParseString(pieces[0])
      case Err(e) => Err(e)
      case Ok(first) =>
        match CollectStrings(pieces[1..])
        case Err(e) => Err(e)
        case Ok(others) => Ok([first] + others)
  }

  function ParseStringArray(value: string): Result<seq<string>, ParseError> {
    var trimmed := Trim(value);
    match StripPrefix(trimmed, "[")
    case None => Err(ExpectedStringArray(trimmed))
    case Some(unopened) =>
      match StripSuffix(unopened, "]")
      case None => Err(ExpectedStringArray(trimmed))
      case Some(inner) =>
        if Trim(inner) == "" then Ok([]) else CollectStrings(Split(inner, ','))
  }

  /** Stores one parsed field; unknown names are ignored. */
  function SetField(m: RegistryModule, name: string, value: string): Result<RegistryModule, ParseError> {
    if name == "id" then
      match ParseString(value)
      case Ok(s) => Ok(m.(key := m.key.(id := s)))
      case Err(e) => Err(e)
    else if name == "cargo_feature" then
      match ParseString(value)
      case Ok(s) => Ok(m.(key := m.key.(cargoFeature := s)))
      case Err(e) => Err(e)
    else if name == "kind" then
      match ParseString(value)
      case Ok(s) => Ok(m.(key := m.key.(kind := s)))
      case Err(e) => Err(e)
    else if name == "provides" then
      match ParseStringArray(value)
      case Ok(xs) => Ok(m.(providesList := xs))
      case Err(e) => Err(e)
    else if name == "requires" then
      match ParseStringArray(value)
      case Ok(xs) => Ok(m.(requiresList := xs))
      case Err(e) => Err(e)
    else Ok(m)
  }

  // ---------------------------------------------------------------------
  // The parser as a function of the remaining lines
  // ---------------------------------------------------------------------

  /** Extends a value over the following lines until its brackets balance. */
  function Gather(value: string, rest: seq<string>): (r: (string, seq<string>))
    ensures |r.1| <= |rest| && r.1 == rest[|rest| - |r.1|..]
    ensures '#' !in value ==> '#' !in r.0
    decreases |rest|
  {
    if Balanced(value) || rest == [] then (value, rest)
    else Gather(value + "\n" + Statement(rest[0]), rest[1..])
  }

  function Flush(modules: seq<RegistryModule>, current: Option<RegistryModule>): seq<RegistryModule> {
    if current.Some? then modules + [current.value] else modules
  }

  function ParseLines(lines: seq<string>, modules: seq<RegistryModule>, current: Option<RegistryModule>)
    : Result<seq<RegistryModule>, ParseError>
    decreases |lines|
  {
    if lines == [] then Ok(Flush(modules, current))
    else
      var line, rest := Statement(lines[0]), lines[1..];
      if line == "" then ParseLines(rest, modules, current)
      else if line == HEADER then ParseLines(rest, Flush(modules, current), Some(EMPTY_MODULE))
      else if current.None? then ParseLines(rest, modules, current)
      else match SplitOnce(line, '=')
        case None => ParseLines(rest, modules, current)
        case Some((name, value)) =>
          var (full, rest') := Gather(Trim(value), rest);
          match SetField(current.value, Trim(name), full)
          case Err(e) => Err(e)
          case Ok(m) => ParseLines(rest', modules, Some(m))
  }

  predicate Complete(m: RegistryModule) {
    m.key.id != "" && m.key.cargoFeature != "" && m.key.kind != ""
  }

  /** The first module that lacks an id, a feature or a kind. */
  function FirstIncomplete(modules: seq<RegistryModule>): (r: Option<RegistryModule>)
    ensures r.None? <==> forall m <- modules :: Complete(m)
    ensures r.Some? ==> exists i ::
      0 <= i < |modules| && modules[i] == r.value && !Complete(r.value) && forall j :: 0 <= j < i ==> Complete(modules[j])
  {
    if modules == [] then None
    else if Complete(modules[0]) then FirstIncomplete(modules[1..])
    else Some(modules[0])
  }

  function Checked(parsed: Result<seq<RegistryModule>, ParseError>): Result<seq<RegistryModule>, ParseError> {
    match parsed
    case Err(e) => Err(e)
    case Ok(modules) =>
      match FirstIncomplete(modules)
      case Some(m) => Err(IncompleteModule(m))
      case None => Ok(modules)
  }

  function RegistryOf(input: string): Result<seq<RegistryModule>, ParseError> {
    Checked(ParseLines(Lines(input), [], None))
  }

  /** A text of well-formed lines is accepted exactly when no module lacks its id, feature or kind. */
  lemma AcceptedExactly(input: string)
    ensures RegistryOf(input).Ok? <==>
      && ParseLines(Lines(input), [], None).Ok?
      && forall m <- ParseLines(Lines(input), [], None).value ::
           m.key.id != "" && m.key.cargoFeature != "" && m.key.kind != ""
    ensures RegistryOf(input).Ok? ==> RegistryOf(input) == ParseLines(Lines(input), [], None)
    ensures RegistryOf(input).Err? && RegistryOf(input).error.IncompleteModule? ==>
      var key := RegistryOf(input).error.incomplete.key; key.id == "" || key.cargoFeature == "" || key.kind == ""
  {
    hide ParseLines, Lines;
    ParseNeverIncomplete(Lines(input), [], None);
  }

  lemma {:induction false} ParseNeverIncomplete(
      lines: seq<string>, modules: seq<RegistryModule>, current: Option<RegistryModule>)
    ensures var r := ParseLines(lines, modules, current); r.Err? ==> !r.error.IncompleteModule?
    decreases |lines|
  {
    hide Statement, Gather, Trim, SplitOnce, SetField;
    if lines != [] {
      var line, rest := Statement(lines[0]), lines[1..];
      if line == HEADER && line != "" {
        ParseNeverIncomplete(rest, Flush(modules, current), Some(EMPTY_MODULE));
      } else if line == "" || current.None? || SplitOnce(line, '=').None? {
        ParseNeverIncomplete(rest, modules, current);
      } else {
        var (name, value) := SplitOnce(line, '=').value;
        var (full, rest') := Gather(Trim(value), rest);
        SetFieldNeverIncomplete(current.value, Trim(name), full);
        var updated := SetField(current.value, Trim(name), full);
        if updated.Ok? {
          ParseNeverIncomplete(rest', modules, Some(updated.value));
        }
      }
    }
  }

  lemma SetFieldNeverIncomplete(m: RegistryModule, name: string, value: string)
    ensures SetField(m, name, value).Err? ==> !SetField(m, name, value).error.IncompleteModule?
  {
    hide Trim, Split, StripPrefix, StripSuffix;
    forall pieces: seq<string>
      ensures CollectStrings(pieces).Err? ==> !CollectStrings(pieces).error.IncompleteModule?
    {
      CollectNeverIncomplete(pieces);
    }
    hide CollectStrings;
  }

  lemma {:induction false} CollectNeverIncomplete(pieces: seq<string>)
    ensures CollectStrings(pieces).Err? ==> !CollectStrings(pieces).error.IncompleteModule?
  {
    if pieces != [] {
      CollectNeverIncomplete(pieces[1..]);
    }
  }

  // ---------------------------------------------------------------------
  // The loop
  // ---------------------------------------------------------------------

  method ParseRegistry(input: string) returns (r: Result<seq<RegistryModule>, ParseError>)
    ensures r == RegistryOf(input)
  {
    var modules: seq<RegistryModule> := [];
    var current: Option<RegistryModule> := None;
    var lines := Lines(input);
    var idx := 0;
    while idx < |lines|
      invariant 0 <= idx <= |lines|
      invariant ParseLines(lines[idx..], modules, current) == ParseLines(lines, [], None)
    {
      var line := Trim(StripComment(lines[idx]));
      idx := idx + 1;
      assert lines[idx - 1..][1..] == lines[idx..];
      if line == "" {
        continue;
      }
      if line == HEADER {
        if current.Some? {
          modules := modules + [current.value];
        }
        current := Some(EMPTY_MODULE);
        continue;
      }
      if current.None? {
        continue;
      }
      var pair := SplitOnce(line, '=');
      if pair.None? {
        continue;
      }
      var name := Trim(pair.value.0);
      var fullValue, next := GatherValue(lines, idx, Trim(pair.value.1));
      idx := next;
      var updated := SetField(current.value, name, fullValue);
      if updated.Err? {
        return Err(updated.error);
      }
      current := Some(updated.value);
    }
    if current.Some? {
      modules := modules + [current.value];
    }
    var m := FirstIncomplete(modules);
    return if m.Some? then Err(IncompleteModule(m.value)) else Ok(modules);
  }

  method GatherValue(lines: seq<string>, start: nat, value: string) returns (fullValue: string, idx: nat)
    requires start <= |lines|
    ensures start <= idx <= |lines|
    ensures Gather(value, lines[start..]) == (fullValue, lines[idx..])
  {
    hide Balanced, Trim, StripComment;
    fullValue, idx := value, start;
    var balanced := BracketsBalanced(fullValue);
    while !balanced && idx < |lines|
      invariant start <= idx <= |lines|
      invariant balanced <==> Balanced(fullValue)
      invariant Gather(fullValue, lines[idx..]) == Gather(value, lines[start..])
    {
      assert lines[idx..][1..] == lines[idx + 1..];
      fullValue := fullValue + "\n" + Trim(StripComment(lines[idx]));
      idx := idx + 1;
      balanced := BracketsBalanced(fullValue);
    }
  }

  // ---------------------------------------------------------------------
  // No parsed text ever holds a comment sign
  // ---------------------------------------------------------------------

  ghost predicate NoHash(m: RegistryModule) {
    '#' !in m.key.id && '#' !in m.key.cargoFeature && '#' !in m.key.kind
  }

  lemma SetFieldKeepsNoHash(m: RegistryModule, name: string, value: string)
    requires NoHash(m) && '#' !in value
    ensures var r := SetField(m, name, value); r.Ok? ==> NoHash(r.value)
  {
    hide ParseString, ParseStringArray;
    ParseStringAvoids(value, '#');
  }

  lemma ParseStringAvoids(value: string, c: char)
    requires c !in value
    ensures var r := ParseString(value); r.Ok? ==> c !in r.value
  {
    hide Trim;
    TrimAvoids(value, c);
  }

  lemma {:induction false} ParsedKeysHaveNoHash(
      lines: seq<string>, modules: seq<RegistryModule>, current: Option<RegistryModule>)
    requires (forall m <- modules :: NoHash(m)) && (current.Some? ==> NoHash(current.value))
    ensures var r := ParseLines(lines, modules, current); r.Ok? ==> forall m <- r.value :: NoHash(m)
    decreases |lines|
  {
    hide SetField, Gather, Trim, Statement;
    if lines != [] {
      var line, rest := Statement(lines[0]), lines[1..];
      if line == "" {
        ParsedKeysHaveNoHash(rest, modules, current);
      } else if line == HEADER {
        ParsedKeysHaveNoHash(rest, Flush(modules, current), Some(EMPTY_MODULE));
      } else if current.None? || '=' !in line {
        ParsedKeysHaveNoHash(rest, modules, current);
      } else {
        var (name, value) := SplitOnce(line, '=').value;
        assert '#' !in value;
        TrimAvoids(value, '#');
        var (full, rest') := Gather(Trim(value), rest);
        var updated := SetField(current.value, Trim(name), full);
        if updated.Ok? {
          SetFieldKeepsNoHash(current.value, Trim(name), full);
          ParsedKeysHaveNoHash(rest', modules, Some(updated.value));
        }
      }
    }
  }

  // ---------------------------------------------------------------------
  // Canonical text
  // ---------------------------------------------------------------------

  function Quoted(s: string): string {
    "\"" + s + "\""
  }

  function QuotedAll(xs: seq<string>): (r: seq<string>)
    ensures |r| == |xs| && forall i :: 0 <= i < |xs| ==> r[i] == Quoted(xs[i])
  {
    seq(|xs|, i requires 0 <= i < |xs| => Quoted(xs[i]))
  }

  function ArrayText(xs: seq<string>): string {
    "[" + Join(QuotedAll(xs), ", ") + "]"
  }

  function FieldLine(name: string, value: string): string {
    name + " = " + value
  }

  /** One registry entry, one field a line, with a blank line after it. */
  function ModuleLines(m: RegistryModule): seq<string> {
    [ HEADER,
      FieldLine("id", Quoted(m.key.id)),
      FieldLine("cargo_feature", Quoted(m.key.cargoFeature)),
      FieldLine("kind", Quoted(m.key.kind)),
      FieldLine("provides", ArrayText(m.providesList)),
      FieldLine("requires", ArrayText(m.requiresList)),
      "" ]
  }

  function RegistryLines(modules: seq<RegistryModule>): seq<string> {
    if modules == [] then [] else ModuleLines(modules[0]) + RegistryLines(modules[1..])
  }

  function RegistryText(modules: seq<RegistryModule>): string {
    Unlines(RegistryLines(modules))
  }

  /** Text that survives between quotes on one uncommented line. */
  predicate ScalarText(s: string) {
    '"' !in s && '#' !in s && '\n' !in s
  }

  /** Array entries are also cut at commas and scanned for escapes. */
  predicate EntryText(s: string) {
    ScalarText(s) && ',' !in s && '\\' !in s
  }

  predicate Printable(m: RegistryModule) {
    && Complete(m)
    && ScalarText(m.key.id) && ScalarText(m.key.cargoFeature) && ScalarText(m.key.kind)
    && (forall s <- m.providesList :: EntryText(s))
    && (forall s <- m.requiresList :: EntryText(s))
  }

  lemma ParseQuoted(before: string, s: string)
    requires Blank(before)
    ensures ParseString(before + Quoted(s)) == Ok(s)
  {
    TrimSolidEnd(before, Quoted(s));
    StripQuotes(s);
  }

  lemma TrimSolidEnd(before: string, s: string)
    requires Blank(before) && Solid(s)
    ensures Trim(before + s) == s
  {
    TrimSolid(before, s, "");
    assert before + s + "" == before + s;
  }

  lemma StripQuotes(s: string)
    ensures StripPrefix(Quoted(s), "\"") == Some(s + "\"")
    ensures StripSuffix(s + "\"", "\"") == Some(s)
  {
    assert Quoted(s)[1..] == s + "\"";
  }

  lemma ParsePiece(piece: string, s: string)
    requires piece == Quoted(s) || piece == " " + Quoted(s)
    ensures ParseString(piece) == Ok(s)
  {
    ParseQuoted("", s);
    ParseQuoted(" ", s);
    assert "" + Quoted(s) == Quoted(s);
  }

  lemma {:induction false} CollectQuoted(xs: seq<string>, pieces: seq<string>)
    requires |pieces| == |xs|
    requires forall i :: 0 <= i < |xs| ==> ParseString(pieces[i]) == Ok(xs[i])
    ensures CollectStrings(pieces) == Ok(xs)
  {
    if xs != [] {
      hide ParseString;
      CollectQuoted(xs[1..], pieces[1..]);
      assert [xs[0]] + xs[1..] == xs;
    }
  }

  lemma StripBrackets(inner: string)
    ensures StripPrefix("[" + inner + "]", "[") == Some(inner + "]")
    ensures StripSuffix(inner + "]", "]") == Some(inner)
  {
    assert ("[" + inner + "]")[1..] == inner + "]";
  }

  lemma ParseBracketed(inner: string)
    ensures ParseStringArray("[" + inner + "]")
         == if Trim(inner) == "" then Ok([]) else CollectStrings(Split(inner, ','))
  {
    hide CollectStrings, Split, Trim;
    TrimSelf("[" + inner + "]");
    StripBrackets(inner);
  }

  lemma ParseArrayText(xs: seq<string>)
    requires forall s <- xs :: EntryText(s)
    ensures ParseStringArray(ArrayText(xs)) == Ok(xs)
  {
    hide CollectStrings, Split, Trim, ParseStringArray;
    var inner := Join(QuotedAll(xs), ", ");
    ParseBracketed(inner);
    if xs == [] {
      TrimSelf("");
    } else {
      JoinedStartsVisible(xs);
      TrimNonblank(inner, 0);
      ParseJoined(xs);
    }
  }

  lemma JoinedStartsVisible(xs: seq<string>)
    requires xs != []
    ensures Join(QuotedAll(xs), ", ") != "" && Join(QuotedAll(xs), ", ")[0] == '"'
  {
    assert QuotedAll(xs)[0][0] == '"';
  }

  lemma ParseJoined(xs: seq<string>)
    requires xs != [] && forall s <- xs :: EntryText(s)
    ensures CollectStrings(Split(Join(QuotedAll(xs), ", "), ',')) == Ok(xs)
  {
    var quoted := QuotedAll(xs);
    forall i | 0 <= i < |quoted|
      ensures ',' !in quoted[i]
    {
      assert xs[i] in xs;
    }
    assert [','] + " " == ", ";
    SplitJoin(quoted, ',', " ");
    var pieces := Padded(quoted, " ");
    forall i | 0 <= i < |xs|
      ensures ParseString(pieces[i]) == Ok(xs[i])
    {
      ParsePiece(pieces[i], xs[i]);
    }
    CollectQuoted(xs, pieces);
  }

  lemma TrimNonblank(s: string, i: nat)
    requires i < |s| && !IsWhitespace(s[i])
    ensures Trim(s) != ""
  {
    var t := TrimStart(s);
    assert t[i - (|s| - |t|)] == s[i];
  }

  // Brackets inside quotes do not count, so canonical values are balanced.

  lemma {:induction false} InsideUntilQuote(q: Quote, s: string, open: char, close: char)
    requires q.inString && '"' !in s
    ensures Run(q, s).inString && Depth(q, s, open, close) == 0
    ensures '\\' !in s && !q.escaped ==> !Run(q, s).escaped
    decreases |s|
  {
    if s != "" {
      InsideUntilQuote(Step(q, s[0]), s[1..], open, close);
    }
  }

  lemma QuotedIsFlat(s: string, open: char, close: char)
    requires '"' !in s && open != '"' && close != '"'
    ensures Depth(OUTSIDE, Quoted(s), open, close) == 0
    ensures '\\' !in s ==> Run(OUTSIDE, Quoted(s)) == OUTSIDE
  {
    assert Quoted(s)[1..] == s + "\"";
    InsideUntilQuote(INSIDE, s, open, close);
    var q := Run(INSIDE, s);
    RunAppend(INSIDE, s, "\"");
    DepthAppend(INSIDE, s, "\"", open, close);
    assert Run(q, "\"") == Step(q, '"');
    assert Depth(q, "\"", open, close) == 0;
  }

  lemma {:induction false} JoinedIsFlat(xs: seq<string>)
    requires forall s <- xs :: EntryText(s)
    ensures Depth(OUTSIDE, Join(QuotedAll(xs), ", "), '[', ']') == 0
    ensures Run(OUTSIDE, Join(QuotedAll(xs), ", ")) == OUTSIDE
  {
    if xs != [] {
      var quoted := QuotedAll(xs);
      assert xs[0] in xs;
      QuotedIsFlat(xs[0], '[', ']');
      if |xs| > 1 {
        assert quoted[1..] == QuotedAll(xs[1..]);
        var rest := Join(QuotedAll(xs[1..]), ", ");
        JoinedIsFlat(xs[1..]);
        SeparatorIsFlat(rest);
        assert Join(quoted, ", ") == quoted[0] + (", " + rest);
        RunAppend(OUTSIDE, quoted[0], ", " + rest);
        DepthAppend(OUTSIDE, quoted[0], ", " + rest, '[', ']');
      }
    }
  }

  lemma SeparatorIsFlat(rest: string)
    ensures Depth(OUTSIDE, ", " + rest, '[', ']') == Depth(OUTSIDE, rest, '[', ']')
    ensures Run(OUTSIDE, ", " + rest) == Run(OUTSIDE, rest)
  {
    var s := ", " + rest;
    assert s[1..][1..] == rest;
    assert s[1..][0] == ' ';
  }

  lemma ArrayTextIsBalanced(xs: seq<string>)
    requires forall s <- xs :: EntryText(s)
    ensures Balanced(ArrayText(xs))
  {
    var inner := Join(QuotedAll(xs), ", ");
    JoinedIsFlat(xs);
    assert ArrayText(xs)[1..] == inner + "]";
    DepthAppend(OUTSIDE, inner, "]", '[', ']');
    assert Depth(OUTSIDE, "]", '[', ']') == -1;
  }

  lemma {:induction false} JoinAvoids(pieces: seq<string>, separator: string, c: char)
    requires forall p <- pieces :: c !in p
    requires c !in separator
    ensures c !in Join(pieces, separator)
  {
    if |pieces| > 1 {
      JoinAvoids(pieces[1..], separator, c);
    }
  }

  lemma ArrayTextAvoids(xs: seq<string>, c: char)
    requires forall s <- xs :: c !in s
    requires c !in "[\", ]"
    ensures c !in ArrayText(xs)
  {
    assert '"' in "[\", ]" && '[' in "[\", ]" && ']' in "[\", ]" && ',' in "[\", ]" && ' ' in "[\", ]";
    forall p | p in QuotedAll(xs)
      ensures c !in p
    {
      var i :| 0 <= i < |xs| && QuotedAll(xs)[i] == p;
      assert xs[i] in xs;
    }
    JoinAvoids(QuotedAll(xs), ", ", c);
  }
}
