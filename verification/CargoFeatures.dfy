/** Reading the `[features]` table of a Cargo.toml and printing the profile section into it. */
module CargoFeatures {
  import opened Prelude
  import opened Text
  import opened QuoteScanners
  import opened RegistryParser

  datatype FeatureError = NoFeatures

  type FeatureMap = map<string, seq<string>>

  const TABLE := "[features]"
  const PROFILE_PREFIX := "profile-"
  const PROFILE_NAME := "full"

  // ---------------------------------------------------------------------
  // parse_cargo_features_with_deps
  // ---------------------------------------------------------------------

  function FeaturesFrom(lines: seq<string>, features: FeatureMap, inFeatures: bool): FeatureMap
    decreases |lines|
  {
    if lines == [] then features
    else
      var line, rest := Statement(lines[0]), lines[1..];
      if line == TABLE then FeaturesFrom(rest, features, true)
      else if inFeatures && "[" <= line then features
      else if !inFeatures || line == "" then FeaturesFrom(rest, features, inFeatures)
      else match SplitOnce(line, '=')
        case None => FeaturesFrom(rest, features, inFeatures)
        case Some((name, value)) =>
          var (full, rest') := Gather(Trim(value), rest);
          FeaturesFrom(rest', features[Trim(name) := QuotedStringsOf(full)], inFeatures)
  }

  function FeaturesOf(input: string): Result<FeatureMap, FeatureError> {
    var features := FeaturesFrom(Lines(input), map[], false);
    if features == map[] then Err(NoFeatures) else Ok(features)
  }

  method ParseCargoFeatures(input: string) returns (r: Result<FeatureMap, FeatureError>)
    ensures r == FeaturesOf(input)
  {
    var features: FeatureMap := map[];
    var inFeatures := false;
    var lines := Lines(input);
    var idx := 0;
    hide FeaturesFrom, SplitOnce, QuotedStringsOf, Gather, Trim, StripComment;
    assert lines[0..] == lines;
    while idx < |lines|
      invariant 0 <= idx <= |lines|
      invariant FeaturesFrom(lines[idx..], features, inFeatures) == FeaturesFrom(lines, map[], false)
    {
      ReadFeatureLine(lines, idx, features, inFeatures);
      var line := Trim(StripComment(lines[idx]));
      idx := idx + 1;
      if line == TABLE {
        inFeatures := true;
        continue;
      }
      if inFeatures && StartsWith(line, "[") {
        break;
      }
      if !inFeatures || line == "" {
        continue;
      }
      var pair := SplitOnce(line, '=');
      if pair.None? {
        continue;
      }
      var name := Trim(pair.value.0);
      var fullValue, next := GatherValue(lines, idx, Trim(pair.value.1));
      idx := next;
      var deps := QuotedStrings(fullValue);
      features := features[name := deps];
    }
    ReadNothing(lines, features, inFeatures);
    return if features == map[] then Err(NoFeatures) else Ok(features);
  }

  lemma ReadNothing(lines: seq<string>, features: FeatureMap, inFeatures: bool)
    ensures FeaturesFrom(lines[|lines|..], features, inFeatures) == features
  {
  }

  /** What one more line, with the lines its value runs over, contributes. */
  lemma ReadFeatureLine(lines: seq<string>, idx: nat, features: FeatureMap, inFeatures: bool)
    requires idx < |lines|
    ensures var line, rest := Statement(lines[idx]), lines[idx + 1..];
      FeaturesFrom(lines[idx..], features, inFeatures)
      == if line == TABLE then FeaturesFrom(rest, features, true)
         else if inFeatures && "[" <= line then features
         else if !inFeatures || line == "" then FeaturesFrom(rest, features, inFeatures)
         else match SplitOnce(line, '=')
           case None => FeaturesFrom(rest, features, inFeatures)
           case Some((name, value)) =>
             var (full, rest') := Gather(Trim(value), rest);
             FeaturesFrom(rest', features[Trim(name) := QuotedStringsOf(full)], inFeatures)
  {
    hide SplitOnce, QuotedStringsOf, Gather, Trim, StripComment;
    assert lines[idx..][1..] == lines[idx + 1..];
  }

  // ---------------------------------------------------------------------
  // compute_profile_compositions
  // ---------------------------------------------------------------------

  datatype Composition = Composition(profile: string, features: seq<string>)

  /** Every text once, where it first appears. */
  function FirstOccurrences(xs: seq<string>): (r: seq<string>)
    ensures forall x :: x in r <==> x in xs
  {
    if xs == [] then []
    else
      var n := |xs| - 1;
      var before := FirstOccurrences(xs[..n]);
      assert xs == xs[..n] + [xs[n]];
      if xs[n] in xs[..n] then before else before + [xs[n]]
  }

  function IndexIn(xs: seq<string>, x: string): (i: nat)
    requires x in xs
    ensures i < |xs| && xs[i] == x && x !in xs[..i]
  {
    if xs[0] == x then 0 else 1 + IndexIn(xs[1..], x)
  }

  lemma {:induction false} IndexInPrefix(xs: seq<string>, n: nat, x: string)
    requires n <= |xs| && x in xs[..n]
    ensures x in xs && IndexIn(xs[..n], x) == IndexIn(xs, x)
  {
    if xs[0] != x {
      assert xs[..n][1..] == xs[1..][..n - 1];
      IndexInPrefix(xs[1..], n - 1, x);
    }
  }

  lemma {:induction false} IndexInFresh(xs: seq<string>, x: string)
    requires x !in xs
    ensures IndexIn(xs + [x], x) == |xs|
  {
    if xs != [] {
      assert (xs + [x])[1..] == xs[1..] + [x];
      IndexInFresh(xs[1..], x);
    }
  }

  /** No text is repeated and the order is that of first appearance. */
  lemma {:induction false} FirstOccurrencesInOrder(xs: seq<string>, i: nat, j: nat)
    requires i < j < |FirstOccurrences(xs)|
    ensures FirstOccurrences(xs)[i] != FirstOccurrences(xs)[j]
    ensures IndexIn(xs, FirstOccurrences(xs)[i]) < IndexIn(xs, FirstOccurrences(xs)[j])
  {
    var n := |xs| - 1;
    var r, before := FirstOccurrences(xs), FirstOccurrences(xs[..n]);
    assert r[i] in before;
    IndexInPrefix(xs, n, r[i]);
    if j < |before| {
      assert r[j] in before;
      IndexInPrefix(xs, n, r[j]);
      FirstOccurrencesInOrder(xs[..n], i, j);
    } else {
      assert xs == xs[..n] + [xs[n]];
      IndexInFresh(xs[..n], xs[n]);
    }
  }

  function FeatureNames(modules: seq<RegistryModule>): seq<string> {
    seq(|modules|, i requires 0 <= i < |modules| => modules[i].key.cargoFeature)
  }

  function CompositionsOf(modules: seq<RegistryModule>): seq<Composition> {
    [Composition(PROFILE_NAME, FirstOccurrences(FeatureNames(modules)))]
  }

  method ComputeProfileCompositions(modules: seq<RegistryModule>) returns (r: seq<Composition>)
    ensures r == CompositionsOf(modules)
  {
    var features: seq<string> := [];
    var seen: set<string> := {};
    ghost var names := FeatureNames(modules);
    for i := 0 to |modules|
      invariant features == FirstOccurrences(names[..i])
      invariant forall x :: x in seen <==> x in names[..i]
    {
      assert names[..i + 1][..i] == names[..i] && names[..i + 1] == names[..i] + [names[i]];
      var feature := modules[i].key.cargoFeature;
      if feature !in seen {
        seen := seen + {feature};
        features := features + [feature];
      }
    }
    assert names[..|modules|] == names;
    r := [Composition(PROFILE_NAME, features)];
  }

  // ---------------------------------------------------------------------
  // render_profile_section
  // ---------------------------------------------------------------------

  function ItemLine(features: seq<string>, i: nat): string
    requires i < |features|
  {
    "    " + Quoted(features[i]) + (if i + 1 < |features| then "," else "")
  }

  function ItemLines(features: seq<string>): (r: seq<string>)
    ensures |r| == |features|
  {
    seq(|features|, i requires 0 <= i < |features| => ItemLine(features, i))
  }

  function OpeningLine(profile: string): string {
    PROFILE_PREFIX + profile + " = ["
  }

  function BlockText(c: Composition): string {
    OpeningLine(c.profile) + "\n" + Unlines(ItemLines(c.features)) + "]"
  }

  function BlockTexts(cs: seq<Composition>): (r: seq<string>)
    ensures |r| == |cs|
  {
    seq(|cs|, i requires 0 <= i < |cs| => BlockText(cs[i]))
  }

  function SectionText(cs: seq<Composition>): string {
    Join(BlockTexts(cs), "\n")
  }

  method RenderProfileSection(cs: seq<Composition>) returns (section: string)
    ensures section == SectionText(cs)
  {
    hide BlockText, Join;
    var blocks: seq<string> := [];
    for k := 0 to |cs|
      invariant blocks == BlockTexts(cs)[..k]
    {
      var block := RenderBlock(cs[k]);
      blocks := blocks + [block];
    }
    assert BlockTexts(cs)[..|cs|] == BlockTexts(cs);
    section := Join(blocks, "\n");
  }

  method RenderBlock(c: Composition) returns (block: string)
    ensures block == BlockText(c)
  {
    hide Unlines, ItemLine;
    var features := c.features;
    block := PROFILE_PREFIX + c.profile + " = [\n";
    ghost var items := ItemLines(features);
    OpeningText(c.profile);
    for idx := 0 to |features|
      invariant block == OpeningLine(c.profile) + "\n" + Unlines(items[..idx])
    {
      var comma := if idx + 1 < |features| then "," else "";
      var item := "    \"" + features[idx] + "\"" + comma + "\n";
      ItemText(features, idx);
      UnlinesSnoc(items, idx);
      block := block + item;
    }
    assert items[..|features|] == items;
    block := block + "]";
  }

  lemma OpeningText(profile: string)
    ensures PROFILE_PREFIX + profile + " = [\n" == OpeningLine(profile) + "\n" + Unlines([])
  {
  }

  lemma ItemText(features: seq<string>, i: nat)
    requires i < |features|
    ensures "    \"" + features[i] + "\"" + (if i + 1 < |features| then "," else "") + "\n"
         == ItemLine(features, i) + "\n"
  {
  }

  lemma UnlinesSnoc(lines: seq<string>, i: nat)
    requires i < |lines|
    ensures Unlines(lines[..i + 1]) == Unlines(lines[..i]) + (lines[i] + "\n")
  {
    assert lines[..i + 1] == lines[..i] + [lines[i]];
    UnlinesAppend(lines[..i], [lines[i]]);
    UnlinesOne(lines[i]);
  }

  lemma UnlinesOne(line: string)
    ensures Unlines([line]) == line + "\n"
  {
    assert [line][1..] == [];
    assert line + "\n" + Unlines([]) == line + "\n";
  }

  // ---------------------------------------------------------------------
  // Round trip
  // ---------------------------------------------------------------------

  /** A name that keeps its shape between quotes and brackets. */
  predicate FeatureText(s: string) {
    ScalarText(s) && '\\' !in s
  }

  /** A name that keeps its shape in front of an equals sign. */
  predicate ProfileText(s: string) {
    '=' !in s && '#' !in s && '\n' !in s && (s != "" ==> !IsWhitespace(s[|s| - 1]))
  }

  ghost predicate Renderable(c: Composition) {
    ProfileText(c.profile) && forall f <- c.features :: FeatureText(f)
  }

  /** What a later reader should find: the features of each profile, the last entry winning. */
  function Declared(cs: seq<Composition>, features: FeatureMap): FeatureMap {
    if cs == [] then features
    else Declared(cs[1..], features[PROFILE_PREFIX + cs[0].profile := cs[0].features])
  }

  function BlockLines(c: Composition): seq<string> {
    [OpeningLine(c.profile)] + ItemLines(c.features) + ["]"]
  }

  function SectionLines(cs: seq<Composition>): seq<string> {
    if cs == [] then [] else BlockLines(cs[0]) + SectionLines(cs[1..])
  }

  // The text of a section is its lines.

  lemma BlockTextLines(c: Composition)
    ensures BlockText(c) + "\n" == Unlines(BlockLines(c))
  {
    var items := ItemLines(c.features);
    hide ItemLines;
    UnlinesAppend([OpeningLine(c.profile)] + items, ["]"]);
    UnlinesAppend([OpeningLine(c.profile)], items);
    UnlinesOne(OpeningLine(c.profile));
    UnlinesOne("]");
  }

  lemma {:induction false} SectionTextLines(cs: seq<Composition>)
    requires cs != []
    ensures SectionText(cs) + "\n" == Unlines(SectionLines(cs))
  {
    hide BlockText, BlockLines, Unlines;
    BlockTextLines(cs[0]);
    if |cs| == 1 {
      assert SectionLines(cs) == BlockLines(cs[0]);
    } else {
      SectionTextLines(cs[1..]);
      assert BlockTexts(cs)[1..] == BlockTexts(cs[1..]);
      UnlinesAppend(BlockLines(cs[0]), SectionLines(cs[1..]));
      assert SectionText(cs) + "\n" == (BlockText(cs[0]) + "\n") + (SectionText(cs[1..]) + "\n");
    }
  }

  // Gathering the items of one block.

  ghost predicate FlatStatement(s: string) {
    Run(OUTSIDE, s) == OUTSIDE && Depth(OUTSIDE, s, '[', ']') == 0
  }

  function Glue(items: seq<string>): string {
    if items == [] then "" else "\n" + Statement(items[0]) + Glue(items[1..])
  }

  lemma NextLine(v: string, s: string)
    requires Run(OUTSIDE, v) == OUTSIDE
    ensures Depth(OUTSIDE, v + "\n" + s, '[', ']') == Depth(OUTSIDE, v, '[', ']') + Depth(OUTSIDE, s, '[', ']')
    ensures Run(OUTSIDE, v + "\n" + s) == Run(OUTSIDE, s)
  {
    assert v + "\n" + s == v + ("\n" + s);
    RunAppend(OUTSIDE, v, "\n" + s);
    DepthAppend(OUTSIDE, v, "\n" + s, '[', ']');
    assert ("\n" + s)[1..] == s;
  }

  lemma ClosingStatement()
    ensures Statement("]") == "]" && Depth(OUTSIDE, "]", '[', ']') == -1
  {
    hide IndexOf, Trim;
    IndexOfAbsent("]", '#');
    TrimSelf("]");
    assert StripComment("]") == "]";
    assert "]"[1..] == "";
  }

  /** With one bracket open, the value runs on to the closing line. */
  lemma {:induction false} GatherItems(v: string, items: seq<string>, rest: seq<string>)
    requires Run(OUTSIDE, v) == OUTSIDE && Depth(OUTSIDE, v, '[', ']') == 1
    requires forall i :: 0 <= i < |items| ==> FlatStatement(Statement(items[i]))
    ensures Gather(v, items + ["]"] + rest) == (v + Glue(items) + "\n]", rest)
    decreases |items|
  {
    hide Run, Depth, Statement;
    var lines := items + ["]"] + rest;
    if items == [] {
      ClosingStatement();
      NextLine(v, "]");
      assert lines[1..] == rest;
      assert v + "\n" + "]" == v + Glue(items) + "\n]";
    } else {
      var s := Statement(items[0]);
      NextLine(v, s);
      assert lines[1..] == items[1..] + ["]"] + rest;
      GatherItems(v + "\n" + s, items[1..], rest);
      assert v + "\n" + s + Glue(items[1..]) == v + Glue(items);
    }
  }

  lemma ItemStatement(features: seq<string>, i: nat)
    requires i < |features| && FeatureText(features[i])
    ensures Statement(ItemLine(features, i)) == Quoted(features[i]) + (if i + 1 < |features| then "," else "")
    ensures FlatStatement(Statement(ItemLine(features, i)))
  {
    hide IndexOf, Trim, Run, Depth;
    var line := ItemLine(features, i);
    var comma := if i + 1 < |features| then "," else "";
    var s := Quoted(features[i]) + comma;
    IndexOfAbsent(line, '#');
    assert StripComment(line) == line;
    assert line == "    " + s;
    TrimSolidEnd("    ", s);
    QuotedIsFlat(features[i], '[', ']');
    RunAppend(OUTSIDE, Quoted(features[i]), comma);
    DepthAppend(OUTSIDE, Quoted(features[i]), comma, '[', ']');
    CommaIsFlat(comma);
  }

  lemma CommaIsFlat(comma: string)
    requires comma == "," || comma == ""
    ensures FlatStatement(comma)
  {
  }

  // The gathered value is a text of quoted literals.

  function Segments(features: seq<string>, lead: string): seq<Segment> {
    if features == [] then []
    else [Segment(lead + "\n", features[0])] + Segments(features[1..], ",")
  }

  lemma {:induction false} SegmentsShape(features: seq<string>, lead: string)
    requires (forall f <- features :: FeatureText(f)) && '"' !in lead
    ensures forall p <- Segments(features, lead) :: '"' !in p.gap && WellEscaped(p.body)
    ensures Bodies(Segments(features, lead)) == features
  {
    if features != [] {
      assert FeatureText(features[0]);
      NoEscapes(features[0]);
      SegmentsShape(features[1..], ",");
    }
  }

  lemma {:induction false} NoEscapes(s: string)
    requires '"' !in s && '\\' !in s
    ensures WellEscaped(s)
  {
    if s != "" {
      NoEscapes(s[1..]);
    }
  }

  lemma GlueStep(features: seq<string>)
    requires features != [] && FeatureText(features[0])
    ensures Glue(ItemLines(features))
         == "\n" + (Quoted(features[0]) + (if features[1..] == [] then "" else ",")) + Glue(ItemLines(features[1..]))
  {
    hide Statement, Quoted;
    ItemStatement(features, 0);
    assert ItemLines(features)[1..] == ItemLines(features[1..]) by {
      assert forall i :: 0 <= i < |features| - 1 ==> ItemLine(features, i + 1) == ItemLine(features[1..], i);
    }
  }

  lemma Reassociate(lead: string, f: string, comma: string, glue: string)
    ensures lead + ("\n" + (Quoted(f) + comma) + glue) + "\n]"
         == (lead + "\n") + ("\"" + f + "\"" + (comma + glue + "\n]"))
  {
  }

  lemma AssembleStep(f: string, others: seq<string>, lead: string)
    ensures Assemble(Segments([f] + others, lead), "\n]")
         == (lead + "\n") + ("\"" + f + "\"" + Assemble(Segments(others, ","), "\n]"))
  {
    assert ([f] + others)[1..] == others;
  }

  lemma {:induction false} GlueAssembles(features: seq<string>, lead: string)
    requires forall f <- features :: FeatureText(f)
    ensures (if features == [] then "" else lead) + Glue(ItemLines(features)) + "\n]"
         == Assemble(Segments(features, lead), "\n]")
  {
    hide Statement, FeatureText;
    if features != [] {
      var f, others := features[0], features[1..];
      GlueStep(features);
      GlueAssembles(others, ",");
      hide Glue, ItemLines, Assemble, Segments;
      var comma, glue := if others == [] then "" else ",", Glue(ItemLines(others));
      AssembleStep(f, others, lead);
      Reassociate(lead, f, comma, glue);
    }
  }

  lemma {:induction false} UnclosedEnd()
    ensures Unclosed("\n]")
  {
  }

  /** The value of one printed block holds exactly its features, in order. */
  lemma BlockValue(features: seq<string>, rest: seq<string>)
    requires forall f <- features :: FeatureText(f)
    ensures var r := Gather("[", ItemLines(features) + ["]"] + rest);
      r.1 == rest && QuotedStringsOf(r.0) == features
  {
    hide ItemLine, Statement, FlatStatement, QuotedStringsOf, Gather;
    forall i | 0 <= i < |features|
      ensures FlatStatement(Statement(ItemLines(features)[i]))
    {
      ItemStatement(features, i);
    }
    OpenBracket();
    GatherItems("[", ItemLines(features), rest);
    GatheredValue(features);
  }

  lemma OpenBracket()
    ensures Run(OUTSIDE, "[") == OUTSIDE && Depth(OUTSIDE, "[", '[', ']') == 1
  {
    assert "["[1..] == "";
  }

  lemma GatheredValue(features: seq<string>)
    requires forall f <- features :: FeatureText(f)
    ensures QuotedStringsOf("[" + Glue(ItemLines(features)) + "\n]") == features
  {
    hide FeatureText, QuotedStringsOf, ItemLines, Assemble;
    if features == [] {
      EmptyValue();
    } else {
      SegmentsShape(features, "[");
      UnclosedEnd();
      GlueAssembles(features, "[");
      QuotedStringsOfAssembled(Segments(features, "["), "\n]");
    }
  }

  lemma EmptyValue()
    ensures QuotedStringsOf("[" + Glue(ItemLines([])) + "\n]") == []
  {
    var v := "[" + Glue(ItemLines([])) + "\n]";
    assert '"' !in v;
    SkipGap(v, "");
    assert v + "" == v;
  }

  lemma OpeningStatement(profile: string)
    requires ProfileText(profile)
    ensures var line := OpeningLine(profile);
      && Statement(line) == line && line != TABLE && line != "" && !("[" <= line)
      && SplitOnce(line, '=') == Some((PROFILE_PREFIX + profile + " ", " ["))
      && Trim(PROFILE_PREFIX + profile + " ") == PROFILE_PREFIX + profile && Trim(" [") == "["
  {
    hide IndexOf, Trim, SplitOnce;
    var line, name := OpeningLine(profile), PROFILE_PREFIX + profile;
    IndexOfAbsent(line, '#');
    assert StripComment(line) == line;
    TrimSelf(line);
    assert line == (name + " ") + ['='] + " [";
    SplitOnceAt(name + " ", '=', " [");
    TrimSolid("", name, " ");
    assert "" + name + " " == name + " ";
    TrimSolidEnd(" ", "[");
    assert " " + "[" == " [";
    assert line[0] == 'p';
  }

  lemma FeaturesOfBlock(c: Composition, rest: seq<string>, features: FeatureMap)
    requires Renderable(c)
    ensures FeaturesFrom(BlockLines(c) + rest, features, true)
         == FeaturesFrom(rest, features[PROFILE_PREFIX + c.profile := c.features], true)
  {
    hide OpeningLine, Statement, SplitOnce, Trim, Gather, QuotedStringsOf, ItemLines, FeatureText, ProfileText;
    var lines := BlockLines(c) + rest;
    assert lines[0] == OpeningLine(c.profile);
    assert lines[1..] == ItemLines(c.features) + ["]"] + rest;
    OpeningStatement(c.profile);
    BlockValue(c.features, rest);
  }

  lemma {:induction false} FeaturesOfSection(cs: seq<Composition>, rest: seq<string>, features: FeatureMap)
    requires forall c <- cs :: Renderable(c)
    ensures FeaturesFrom(SectionLines(cs) + rest, features, true)
         == FeaturesFrom(rest, Declared(cs, features), true)
    decreases |cs|
  {
    hide Renderable, BlockLines, FeaturesFrom;
    if cs == [] {
      assert SectionLines(cs) + rest == rest;
    } else {
      var others := SectionLines(cs[1..]) + rest;
      assert SectionLines(cs) + rest == BlockLines(cs[0]) + others;
      FeaturesOfBlock(cs[0], others, features);
      FeaturesOfSection(cs[1..], rest, features[PROFILE_PREFIX + cs[0].profile := cs[0].features]);
    }
  }

  lemma {:induction false} SectionLinesAreLines(cs: seq<Composition>)
    requires forall c <- cs :: Renderable(c)
    ensures forall i :: 0 <= i < |SectionLines(cs)| ==> IsLine(SectionLines(cs)[i])
  {
    hide IsLine, BlockLines, Renderable;
    if cs != [] {
      BlockLinesAreLines(cs[0]);
      SectionLinesAreLines(cs[1..]);
    }
  }

  lemma BlockLinesAreLines(c: Composition)
    requires Renderable(c)
    ensures forall i :: 0 <= i < |BlockLines(c)| ==> IsLine(BlockLines(c)[i])
  {
    forall i | 0 <= i < |c.features|
      ensures IsLine(ItemLines(c.features)[i])
    {
      assert FeatureText(c.features[i]);
    }
  }

  lemma TableStatement()
    ensures Statement(TABLE) == TABLE && IsLine(TABLE)
  {
    hide IndexOf, Trim;
    assert '#' !in TABLE;
    IndexOfAbsent(TABLE, '#');
    TrimSelf(TABLE);
    assert StripComment(TABLE) == TABLE;
  }

  lemma FeaturesOfTable(rest: seq<string>)
    ensures FeaturesFrom([TABLE] + rest, map[], false) == FeaturesFrom(rest, map[], true)
  {
    hide Statement, SplitOnce, Gather;
    TableStatement();
    assert ([TABLE] + rest)[1..] == rest;
  }

  lemma LinesUnder(header: string, lines: seq<string>)
    requires IsLine(header) && forall i :: 0 <= i < |lines| ==> IsLine(lines[i])
    ensures Lines(header + "\n" + Unlines(lines)) == [header] + lines
  {
    hide Lines, Unlines, IsLine;
    LinesStep(header, Unlines(lines));
    LinesUnlines(lines, "");
    assert Unlines(lines) + "" == Unlines(lines);
    LinesOfNothing();
    assert lines + [] == lines;
  }

  lemma LinesOfSection(cs: seq<Composition>)
    requires cs != [] && forall c <- cs :: Renderable(c)
    ensures Lines(TABLE + "\n" + SectionText(cs) + "\n") == [TABLE] + SectionLines(cs)
  {
    hide SectionText, SectionLines, Renderable, Lines, Unlines, IsLine;
    SectionTextLines(cs);
    SectionLinesAreLines(cs);
    TableStatement();
    LinesUnder(TABLE, SectionLines(cs));
    assert TABLE + "\n" + SectionText(cs) + "\n" == TABLE + "\n" + (SectionText(cs) + "\n");
  }

  /**
   Printing profile blocks under a `[features]` header and parsing the text
   gives back exactly the declared profiles with their features in order.
   */
  lemma SectionRoundTrip(cs: seq<Composition>)
    requires cs != [] && forall c <- cs :: Renderable(c)
    ensures FeaturesOf(TABLE + "\n" + SectionText(cs) + "\n") == Ok(Declared(cs, map[]))
  {
    hide SectionText, SectionLines, FeaturesFrom, Renderable, Lines, Declared;
    LinesOfSection(cs);
    FeaturesOfTable(SectionLines(cs));
    FeaturesOfSection(cs, [], map[]);
    assert SectionLines(cs) + [] == SectionLines(cs);
    FeaturesOfNothing(Declared(cs, map[]));
    DeclaredIsNotEmpty(cs, map[]);
  }

  lemma FeaturesOfNothing(features: FeatureMap)
    ensures FeaturesFrom([], features, true) == features
  {
  }

  lemma {:induction false} DeclaredIsNotEmpty(cs: seq<Composition>, features: FeatureMap)
    requires cs != [] || features != map[]
    ensures Declared(cs, features) != map[]
    decreases |cs|
  {
    if cs != [] {
      var declared := features[PROFILE_PREFIX + cs[0].profile := cs[0].features];
      assert PROFILE_PREFIX + cs[0].profile in declared;
      DeclaredIsNotEmpty(cs[1..], declared);
    }
  }

  // ---------------------------------------------------------------------
  // A section inside a longer table
  // ---------------------------------------------------------------------

  /**
   What has been declared when the reader has passed these lines, and whether
   it is in the table; none when the table has ended or a value is still open.
   */
  function TableState(lines: seq<string>, features: FeatureMap, inFeatures: bool): Option<(FeatureMap, bool)>
    decreases |lines|
  {
    if lines == [] then Some((features, inFeatures))
    else
      var line, rest := Statement(lines[0]), lines[1..];
      if line == TABLE then TableState(rest, features, true)
      else if inFeatures && "[" <= line then None
      else if !inFeatures || line == "" || '=' !in line then TableState(rest, features, inFeatures)
      else
        var (name, value) := SplitOnce(line, '=').value;
        var (full, rest') := Gather(Trim(value), rest);
        if Balanced(full) then TableState(rest', features[Trim(name) := QuotedStringsOf(full)], inFeatures) else None
  }

  /** A value that ends does not look at what follows. */
  lemma {:induction false} GatherInFront(value: string, lines: seq<string>, more: seq<string>)
    requires Balanced(Gather(value, lines).0)
    ensures Gather(value, lines + more) == (Gather(value, lines).0, Gather(value, lines).1 + more)
    decreases |lines|
  {
    hide Balanced, Statement;
    if !Balanced(value) && lines != [] {
      assert (lines + more)[1..] == lines[1..] + more;
      GatherInFront(value + "\n" + Statement(lines[0]), lines[1..], more);
    }
  }

  lemma {:induction false} ReadInFront(lines: seq<string>, more: seq<string>, features: FeatureMap, inFeatures: bool)
    requires TableState(lines, features, inFeatures).Some?
    ensures var (declared, open) := TableState(lines, features, inFeatures).value;
      FeaturesFrom(lines + more, features, inFeatures) == FeaturesFrom(more, declared, open)
    decreases |lines|
  {
    hide Statement, Gather, Trim, SplitOnce, QuotedStringsOf, Balanced;
    if lines == [] {
      assert lines + more == more;
    } else {
      var line, rest := Statement(lines[0]), lines[1..];
      assert (lines + more)[0] == lines[0] && (lines + more)[1..] == rest + more;
      if line == TABLE {
        ReadInFront(rest, more, features, true);
      } else if !inFeatures || line == "" || '=' !in line {
        ReadInFront(rest, more, features, inFeatures);
      } else {
        var (name, value) := SplitOnce(line, '=').value;
        var (full, rest') := Gather(Trim(value), rest);
        GatherInFront(Trim(value), rest, more);
        ReadInFront(rest', more, features[Trim(name) := QuotedStringsOf(full)], inFeatures);
      }
    }
  }

  /** The next table ends the declarations. */
  lemma TableEndsAtHeader(before: seq<string>, header: string, after: seq<string>)
    requires TableState(before, map[], false).Some? && TableState(before, map[], false).value.1
    requires "[" <= Statement(header) && Statement(header) != "[features]"
    ensures FeaturesFrom(before + [header] + after, map[], false) == TableState(before, map[], false).value.0
  {
    hide Statement, Gather, Trim, SplitOnce, QuotedStringsOf, TableState;
    assert before + [header] + after == before + ([header] + after);
    ReadInFront(before, [header] + after, map[], false);
    assert ([header] + after)[1..] == after;
  }

  /** Without the table there is nothing to find, and finding nothing is an error. */
  lemma NoTableIsAnError(input: string)
    requires forall line <- Lines(input) :: Statement(line) != "[features]"
    ensures FeaturesOf(input) == Err(NoFeatures)
  {
    hide Lines, Statement, FeaturesFrom;
    NothingOutside(Lines(input));
  }

  lemma {:induction false} NothingOutside(lines: seq<string>)
    requires forall line <- lines :: Statement(line) != "[features]"
    ensures FeaturesFrom(lines, map[], false) == map[]
  {
    hide Statement, SplitOnce, Gather;
    if lines != [] {
      NothingOutside(lines[1..]);
    }
  }

  /** What lines declare does not depend on what was declared before; they override it. */
  lemma {:induction false} ReadBehind(lines: seq<string>, features: FeatureMap, inFeatures: bool)
    ensures FeaturesFrom(lines, features, inFeatures) == features + FeaturesFrom(lines, map[], inFeatures)
    decreases |lines|
  {
    hide Statement, Gather, Trim, SplitOnce, QuotedStringsOf;
    if lines != [] {
      var line, rest := Statement(lines[0]), lines[1..];
      if line == TABLE {
        ReadBehind(rest, features, true);
      } else if !(inFeatures && "[" <= line) {
        if !inFeatures || line == "" || '=' !in line {
          ReadBehind(rest, features, inFeatures);
        } else {
          var (name, value) := SplitOnce(line, '=').value;
          var (full, rest') := Gather(Trim(value), rest);
          var entry: FeatureMap := map[Trim(name) := QuotedStringsOf(full)];
          ReadBehind(rest', features[Trim(name) := QuotedStringsOf(full)], inFeatures);
          ReadBehind(rest', entry, inFeatures);
          assert features[Trim(name) := QuotedStringsOf(full)] == features + entry;
          assert map[][Trim(name) := QuotedStringsOf(full)] == entry;
        }
      }
    }
  }

  /** The profile a registry should get: every feature of its modules, once, in order of first appearance. */
  ghost predicate EachFeatureOnce(features: seq<string>, modules: seq<RegistryModule>) {
    && (forall f :: f in features <==> exists m <- modules :: m.key.cargoFeature == f)
    && (forall i, j :: 0 <= i < j < |features| ==>
          features[i] != features[j] && AppearsBefore(features[i], features[j], modules))
  }

  ghost predicate AppearsBefore(f: string, g: string, modules: seq<RegistryModule>) {
    exists k :: 0 <= k < |modules| && modules[k].key.cargoFeature == f
      && forall l :: 0 <= l <= k ==> modules[l].key.cargoFeature != g
  }

  lemma ProfileListsEachFeatureOnce(modules: seq<RegistryModule>)
    ensures EachFeatureOnce(FirstOccurrences(FeatureNames(modules)), modules)
  {
    hide FirstOccurrences, IndexIn;
    var names := FeatureNames(modules);
    var features := FirstOccurrences(names);
    forall f
      ensures f in features <==> exists m <- modules :: m.key.cargoFeature == f
    {
      if f in names {
        var k :| 0 <= k < |names| && names[k] == f;
        assert modules[k] in modules;
      }
      if m :| m in modules && m.key.cargoFeature == f {
        var k :| 0 <= k < |modules| && modules[k] == m;
        assert names[k] == f;
      }
    }
    forall i, j | 0 <= i < j < |features|
      ensures features[i] != features[j] && AppearsBefore(features[i], features[j], modules)
    {
      FirstOccurrencesInOrder(names, i, j);
      assert features[i] in names && features[j] in names;
      var k, n := IndexIn(names, features[i]), IndexIn(names, features[j]);
      assert modules[k].key.cargoFeature == names[k] == features[i];
      forall l | 0 <= l <= k
        ensures modules[l].key.cargoFeature != features[j]
      {
        assert names[..n][l] == names[l] == modules[l].key.cargoFeature;
      }
    }
  }

  /** A profile section inside the table adds its one entry and nothing else. */
  lemma ProfileInTable(before: seq<string>, modules: seq<RegistryModule>, after: seq<string>)
    requires forall m <- modules :: FeatureText(m.key.cargoFeature)
    requires TableState(before, map[], false).Some? && TableState(before, map[], false).value.1
    ensures FeaturesFrom(before + SectionLines(CompositionsOf(modules)) + after, map[], false)
         == TableState(before, map[], false).value.0["profile-full" := FirstOccurrences(FeatureNames(modules))]
            + FeaturesFrom(after, map[], true)
    ensures FeaturesFrom(before + after, map[], false)
         == TableState(before, map[], false).value.0 + FeaturesFrom(after, map[], true)
  {
    hide FeaturesFrom, SectionLines, FirstOccurrences, TableState;
    var cs := CompositionsOf(modules);
    var declared := TableState(before, map[], false).value.0;
    RegistryIsRenderable(modules);
    assert before + SectionLines(cs) + after == before + (SectionLines(cs) + after);
    ReadInFront(before, SectionLines(cs) + after, map[], false);
    ReadInFront(before, after, map[], false);
    FeaturesOfSection(cs, after, declared);
    assert cs[1..] == [] && PROFILE_PREFIX + PROFILE_NAME == "profile-full";
    ReadBehind(after, Declared(cs, declared), true);
    ReadBehind(after, declared, true);
  }

  lemma RegistryIsRenderable(modules: seq<RegistryModule>)
    requires forall m <- modules :: FeatureText(m.key.cargoFeature)
    ensures forall c <- CompositionsOf(modules) :: Renderable(c)
  {
    hide FeatureText;
    var names := FeatureNames(modules);
    forall f | f in FirstOccurrences(names)
      ensures FeatureText(f)
    {
      var i :| 0 <= i < |names| && names[i] == f;
      assert modules[i] in modules;
    }
  }

  /** The profile computed from a registry, printed and parsed, lists each of its features once. */
  lemma ProfileRoundTrip(modules: seq<RegistryModule>)
    requires forall m <- modules :: FeatureText(m.key.cargoFeature)
    ensures FeaturesOf(TABLE + "\n" + SectionText(CompositionsOf(modules)) + "\n")
         == Ok(map["profile-full" := FirstOccurrences(FeatureNames(modules))])
  {
    hide SectionText, FeaturesOf;
    var cs := CompositionsOf(modules);
    RegistryIsRenderable(modules);
    SectionRoundTrip(cs);
    assert PROFILE_PREFIX + PROFILE_NAME == "profile-full" && cs[1..] == [];
  }
}
