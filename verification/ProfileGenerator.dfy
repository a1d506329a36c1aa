/** Marked sections of a file, and the generate and check commands built on them. */
module ProfileGenerator {
  import opened Prelude
  import opened Text
  import opened RegistryParser
  import opened CargoFeatures

  datatype SectionError = MissingBegin(section: string) | MissingEnd(section: string)

  datatype CommandError = BadRegistry(cause: ParseError) | BadSection(reason: SectionError)

  const SECTION := "profiles"

  function BeginMarker(section: string): string {
    "# BEGIN OXIDE-REGISTRY: " + section + "\n"
  }

  function EndMarker(section: string): string {
    "# END OXIDE-REGISTRY: " + section
  }

  /** The bounds of the body between the first begin marker and the next end marker. */
  function Locate(content: string, section: string): (r: Result<(nat, nat), SectionError>)
    ensures r.Ok? ==> r.value.0 <= r.value.1 <= |content|
  {
    match Find(content, BeginMarker(section))
    case None => Err(MissingBegin(section))
    case Some(begin) =>
      var bodyStart := begin + |BeginMarker(section)|;
      match Find(content[bodyStart..], EndMarker(section))
      case None => Err(MissingEnd(section))
      case Some(end) => Ok((bodyStart, bodyStart + end))
  }

  function ExtractMarkedSection(content: string, section: string): Result<string, SectionError> {
    match Locate(content, section)
    case Err(e) => Err(e)
    case Ok((bodyStart, bodyEnd)) => Ok(content[bodyStart..bodyEnd])
  }

  function ReplaceMarkedSection(content: string, section: string, newBody: string): Result<string, SectionError> {
    match Locate(content, section)
    case Err(e) => Err(e)
    case Ok((bodyStart, bodyEnd)) => Ok(content[..bodyStart] + newBody + content[bodyEnd..])
  }

  // ---------------------------------------------------------------------
  // Where the markers are after a replacement
  // ---------------------------------------------------------------------

  lemma FindIs(s: string, pattern: string, at: nat)
    requires OccursAt(s, pattern, at) && forall k: nat :: k < at ==> !OccursAt(s, pattern, k)
    ensures Find(s, pattern) == Some(at)
  {
    hide FindFrom;
    assert OccursAt(s, pattern, at);
    var r := Find(s, pattern);
    assert r.Some?;
  }

  lemma SliceOfPrefix(s: string, end: nat, from: nat, to: nat)
    requires from <= to <= end <= |s|
    ensures s[..end][from..to] == s[from..to]
  {
  }

  /** The first occurrence of a pattern only depends on the text up to its end. */
  lemma FindInPrefix(s: string, t: string, pattern: string)
    requires Find(s, pattern).Some?
    requires var end := Find(s, pattern).value + |pattern|; end <= |t| && s[..end] == t[..end]
    ensures Find(t, pattern) == Find(s, pattern)
  {
    var at := Find(s, pattern).value;
    var end := at + |pattern|;
    SliceOfPrefix(s, end, at, end);
    SliceOfPrefix(t, end, at, end);
    forall k: nat | k < at
      ensures !OccursAt(t, pattern, k)
    {
      assert !OccursAt(s, pattern, k);
      SliceOfPrefix(s, end, k, k + |pattern|);
      SliceOfPrefix(t, end, k, k + |pattern|);
    }
    FindIs(t, pattern, at);
  }

  /**
   Where a body is followed by the pattern, the first occurrence is the one
   behind the body, if and only if the body together with all but the last
   character of the pattern is free of the pattern.
   */
  lemma FindBehind(body: string, pattern: string, rest: string)
    requires pattern != "" && pattern <= rest
    ensures Find(body + rest, pattern).Some? && Find(body + rest, pattern).value <= |body|
    ensures Find(body + rest, pattern) == Some(|body|) <==> !Shadowed(body, pattern)
  {
    hide FindFrom;
    var s, n := body + rest, |pattern|;
    var t := body + pattern[..n - 1];
    assert s[..|t|] == t;
    assert s[|body|..|body| + n] == rest[..n] == pattern;
    assert OccursAt(s, pattern, |body|);
    forall k: nat | k < |body|
      ensures OccursAt(s, pattern, k) <==> OccursAt(t, pattern, k)
    {
      if k + n <= |t| {
        SliceOfPrefix(s, |t|, k, k + n);
      }
    }
    if Shadowed(body, pattern) {
      var at: nat :| OccursAt(t, pattern, at);
      assert OccursAt(s, pattern, at);
    } else {
      FindIs(s, pattern, |body|);
    }
  }

  /** The pattern is found before its own place: inside the body, or half in the body and half in the pattern. */
  ghost predicate Shadowed(body: string, pattern: string)
    requires pattern != ""
  {
    Occurs(body + pattern[..|pattern| - 1], pattern)
  }

  /** The pattern laid over itself, `p` characters further on, agrees with itself. */
  predicate Overlaps(pattern: string, p: nat) {
    0 < p < |pattern| && pattern[p..] <= pattern
  }

  ghost predicate SelfOverlapping(pattern: string) {
    exists p: nat :: Overlaps(pattern, p)
  }

  /** Without an overlap, a body is shadowed exactly when it holds the pattern itself. */
  lemma ShadowedWithoutOverlap(body: string, pattern: string)
    requires pattern != "" && !SelfOverlapping(pattern)
    ensures Shadowed(body, pattern) <==> Occurs(body, pattern)
  {
    var n := |pattern|;
    var t := body + pattern[..n - 1];
    if at: nat :| OccursAt(t, pattern, at) {
      if at + n <= |body| {
        assert body[at..at + n] == t[at..at + n];
        assert OccursAt(body, pattern, at);
      } else {
        var p := |body| - at;
        assert pattern[p..] == t[at..at + n][p..] == t[|body|..at + n] == pattern[..n - p];
        assert Overlaps(pattern, p);
      }
    }
    if Occurs(body, pattern) {
      HoldsIsShadowed(body, pattern);
    }
  }

  lemma HoldsIsShadowed(body: string, pattern: string)
    requires pattern != "" && Occurs(body, pattern)
    ensures Shadowed(body, pattern)
  {
    var at: nat :| OccursAt(body, pattern, at);
    var t := body + pattern[..|pattern| - 1];
    assert t[at..at + |pattern|] == body[at..at + |pattern|];
    assert OccursAt(t, pattern, at);
  }

  lemma EndMarkerWithoutOverlap(section: string)
    requires '#' !in section
    ensures !SelfOverlapping(EndMarker(section))
  {
    var head := "# END OXIDE-REGISTRY: ";
    var m := EndMarker(section);
    assert m[1..] == head[1..] + section;
    assert '#' !in head[1..];
    forall p: nat | 0 < p < |m|
      ensures m[p..][0] != m[0]
    {
      assert m[p] == m[1..][p - 1];
    }
  }

  /** After a replacement the section starts where it did, and the old tail follows the new body. */
  lemma LocateReplaced(content: string, section: string, body: string)
    requires Locate(content, section).Ok?
    ensures var (bodyStart, bodyEnd) := Locate(content, section).value;
      var updated := content[..bodyStart] + body + content[bodyEnd..];
      && Find(updated, BeginMarker(section)) == Find(content, BeginMarker(section))
      && bodyStart == Find(content, BeginMarker(section)).value + |BeginMarker(section)|
      && updated[bodyStart..] == body + content[bodyEnd..]
      && EndMarker(section) <= content[bodyEnd..]
  {
    hide Find, BeginMarker, EndMarker;
    var (bodyStart, bodyEnd) := Locate(content, section).value;
    var updated := content[..bodyStart] + body + content[bodyEnd..];
    var n := |EndMarker(section)|;
    assert content[bodyStart..][bodyEnd - bodyStart..bodyEnd - bodyStart + n] == content[bodyEnd..][..n];
    assert content[..bodyStart] == updated[..bodyStart];
    FindInPrefix(content, updated, BeginMarker(section));
  }

  /** Splitting a replaced file back into its three pieces. */
  lemma Pieces(before: string, body: string, after: string)
    ensures (before + body + after)[..|before|] == before
    ensures (before + body + after)[|before|..|before| + |body|] == body
    ensures (before + body + after)[|before| + |body|..] == after
  {
  }

  // ---------------------------------------------------------------------
  // Main results on sections
  // ---------------------------------------------------------------------

  /** Where the section ends after a replacement. */
  lemma LocateReplacedBody(content: string, section: string, body: string)
    requires Locate(content, section).Ok?
    ensures var (bodyStart, bodyEnd) := Locate(content, section).value;
      var located := Locate(content[..bodyStart] + body + content[bodyEnd..], section);
      && located.Ok? && located.value.0 == bodyStart && located.value.1 <= bodyStart + |body|
      && (located.value.1 == bodyStart + |body| <==> !Shadowed(body, EndMarker(section)))
  {
    MarkerShape(section);
    hide Find, BeginMarker, EndMarker, Occurs, Shadowed;
    LocateReplaced(content, section, body);
    FindBehind(body, EndMarker(section), content[Locate(content, section).value.1..]);
  }

  /**
   For every section name and body: what was put in comes out again, if and
   only if the end marker is found neither in the new body nor half in the
   body and half in the marker behind it.
   */
  lemma ExtractAfterReplace(content: string, section: string, body: string)
    requires ReplaceMarkedSection(content, section, body).Ok?
    ensures var m := EndMarker(section);
      ExtractMarkedSection(ReplaceMarkedSection(content, section, body).value, section) == Ok(body)
      <==> !Occurs(body + m[..|m| - 1], m)
  {
    hide Find, BeginMarker, EndMarker, Occurs;
    var (bodyStart, bodyEnd) := Locate(content, section).value;
    Pieces(content[..bodyStart], body, content[bodyEnd..]);
    LocateReplacedBody(content, section, body);
  }

  /**
   For names whose marker does not overlap itself, and for no others, it is
   enough that the body lacks the end marker.
   */
  lemma MarkerFreeBodiesSurviveExactly(content: string, section: string)
    requires Locate(content, section).Ok?
    ensures (forall body: string :: !Occurs(body, EndMarker(section)) ==>
               ExtractMarkedSection(ReplaceMarkedSection(content, section, body).value, section) == Ok(body))
       <==> !SelfOverlapping(EndMarker(section))
  {
    MarkerShape(section);
    hide Find, BeginMarker, EndMarker, Occurs, ExtractMarkedSection, Locate;
    var m := EndMarker(section);
    if SelfOverlapping(m) {
      var p: nat :| Overlaps(m, p);
      OverlappingMarkerLosesBody(content, section, p);
    } else {
      forall body: string | !Occurs(body, m)
        ensures ExtractMarkedSection(ReplaceMarkedSection(content, section, body).value, section) == Ok(body)
      {
        ShadowedWithoutOverlap(body, m);
        ExtractAfterReplace(content, section, body);
      }
    }
  }

  /** Only the text between the markers changes. */
  lemma ReplaceKeepsOutside(content: string, section: string, body: string) returns (before: string, after: string)
    requires ReplaceMarkedSection(content, section, body).Ok?
    ensures ExtractMarkedSection(content, section).Ok?
    ensures content == before + ExtractMarkedSection(content, section).value + after
    ensures ReplaceMarkedSection(content, section, body).value == before + body + after
    ensures StripSuffix(before, BeginMarker(section)).Some? && EndMarker(section) <= after
  {
    hide Find, BeginMarker, EndMarker;
    var (bodyStart, bodyEnd) := Locate(content, section).value;
    before, after := content[..bodyStart], content[bodyEnd..];
    LocateReplaced(content, section, body);
    var begin := Find(content, BeginMarker(section)).value;
    assert before[begin..] == content[begin..bodyStart];
  }

  /** Of two replacements only the last is visible, under the same condition on the first body. */
  lemma LastReplaceWins(content: string, section: string, first: string, last: string)
    requires ReplaceMarkedSection(content, section, first).Ok?
    ensures var m := EndMarker(section);
      ReplaceMarkedSection(ReplaceMarkedSection(content, section, first).value, section, last)
        == ReplaceMarkedSection(content, section, last)
      <==> !Occurs(first + m[..|m| - 1], m)
  {
    hide Find, BeginMarker, EndMarker, Occurs;
    var (bodyStart, bodyEnd) := Locate(content, section).value;
    LocateReplacedBody(content, section, first);
    Pieces(content[..bodyStart], first, content[bodyEnd..]);
  }

  /**
   Where the end marker overlaps itself at `p`, its first `p` characters are
   a body that does not hold the marker, and still nothing of it comes back.
   */
  lemma OverlappingMarkerLosesBody(content: string, section: string, p: nat)
    requires Locate(content, section).Ok? && Overlaps(EndMarker(section), p)
    ensures var body := EndMarker(section)[..p];
      && body != "" && !Occurs(body, EndMarker(section))
      && ExtractMarkedSection(ReplaceMarkedSection(content, section, body).value, section) == Ok("")
  {
    MarkerShape(section);
    hide Find, BeginMarker, EndMarker, Occurs;
    var m := EndMarker(section);
    var body := m[..p];
    NeverInShorter(body, m);
    LocateReplaced(content, section, body);
    var (bodyStart, bodyEnd) := Locate(content, section).value;
    OverlapAtFront(m, p, content[bodyEnd..]);
    var updated := content[..bodyStart] + body + content[bodyEnd..];
    assert Locate(updated, section) == Ok((bodyStart, bodyStart));
    assert updated[bodyStart..bodyStart] == "";
  }

  /** Names ending in `#` have such a marker, and others do too. */
  lemma OverlappingNames(name: string)
    ensures Overlaps(EndMarker(name + "#"), |EndMarker(name)|)
    ensures Overlaps(EndMarker("# "), |EndMarker("")|)
  {
    MarkerShape(name);
    var m := EndMarker(name + "#");
    assert m[|EndMarker(name)|..] == "#" <= m;
    assert EndMarker("# ") == EndMarker("") + "# ";
    assert EndMarker("# ")[|EndMarker("")|..] == "# " <= EndMarker("# ");
  }

  lemma NeverInShorter(s: string, pattern: string)
    requires |s| < |pattern|
    ensures !Occurs(s, pattern)
  {
  }

  lemma MarkerShape(section: string)
    ensures EndMarker(section) != "" && EndMarker(section)[0] == '#'
    ensures EndMarker(section + "#") == EndMarker(section) + "#"
  {
  }

  lemma OverlapAtFront(m: string, p: nat, after: string)
    requires Overlaps(m, p) && m <= after
    ensures Find(m[..p] + after, m) == Some(0)
  {
    var s, n := m[..p] + after, |m|;
    assert m[p..] == m[..n - p] == after[..n - p];
    assert s[..n] == m[..p] + m[p..] == m;
    assert OccursAt(s, m, 0);
    FindIs(s, m, 0);
  }

  // ---------------------------------------------------------------------
  // The two commands
  // ---------------------------------------------------------------------

  function SectionBody(modules: seq<RegistryModule>): string {
    SectionText(CompositionsOf(modules)) + "\n"
  }

  /** `module-registry generate`: the new text of the core Cargo.toml. */
  function Generate(registryText: string, cargo: string): Result<string, CommandError> {
    match RegistryOf(registryText)
    case Err(e) => Err(BadRegistry(e))
    case Ok(modules) =>
      match ReplaceMarkedSection(cargo, SECTION, SectionBody(modules))
      case Err(e) => Err(BadSection(e))
      case Ok(updated) => Ok(updated)
  }

  /** The profile part of `module-registry check`: whether the section is up to date. */
  function ProfileUpToDate(registryText: string, cargo: string): Result<bool, CommandError> {
    match RegistryOf(registryText)
    case Err(e) => Err(BadRegistry(e))
    case Ok(modules) =>
      match ExtractMarkedSection(cargo, SECTION)
      case Err(e) => Err(BadSection(e))
      case Ok(current) => Ok(current == SectionBody(modules))
  }

  lemma NoHashInNames(modules: seq<RegistryModule>)
    requires forall m <- modules :: NoHash(m)
    ensures forall f <- FirstOccurrences(FeatureNames(modules)) :: '#' !in f
  {
    var names := FeatureNames(modules);
    forall f | f in FirstOccurrences(names)
      ensures '#' !in f
    {
      var i :| 0 <= i < |names| && names[i] == f;
      assert NoHash(modules[i]);
    }
  }

  lemma {:induction false} UnlinesAvoids(lines: seq<string>, c: char)
    requires c != '\n' && forall i :: 0 <= i < |lines| ==> c !in lines[i]
    ensures c !in Unlines(lines)
  {
    if lines != [] {
      UnlinesAvoids(lines[1..], c);
    }
  }

  lemma ItemLinesAvoidHash(features: seq<string>)
    requires forall f <- features :: '#' !in f
    ensures forall i :: 0 <= i < |features| ==> '#' !in ItemLines(features)[i]
  {
    forall i | 0 <= i < |features|
      ensures '#' !in ItemLines(features)[i]
    {
      assert features[i] in features;
    }
  }

  lemma SectionBodyHasNoHash(modules: seq<RegistryModule>)
    requires forall m <- modules :: NoHash(m)
    ensures '#' !in SectionBody(modules)
  {
    hide ItemLines, Unlines, FirstOccurrences;
    var features := FirstOccurrences(FeatureNames(modules));
    NoHashInNames(modules);
    ItemLinesAvoidHash(features);
    UnlinesAvoids(ItemLines(features), '#');
  }

  lemma OccurrenceHasFirst(s: string, pattern: string, at: nat)
    requires pattern != "" && OccursAt(s, pattern, at)
    ensures pattern[0] in s
  {
    assert s[at..at + |pattern|][0] == s[at];
  }

  lemma NoMarkerWithoutHash(body: string, section: string)
    requires '#' !in body
    ensures !Occurs(body, EndMarker(section))
  {
    if Occurs(body, EndMarker(section)) {
      var at: nat :| OccursAt(body, EndMarker(section), at);
      OccurrenceHasFirst(body, EndMarker(section), at);
    }
  }

  /**
   Whatever the registry and the Cargo.toml hold: when generate succeeds,
   check finds the generated profile section up to date, and generating
   again changes nothing.
   */
  lemma GenerateSettles(registryText: string, cargo: string)
    requires Generate(registryText, cargo).Ok?
    ensures ProfileUpToDate(registryText, Generate(registryText, cargo).value) == Ok(true)
    ensures Generate(registryText, Generate(registryText, cargo).value) == Generate(registryText, cargo)
  {
    hide ParseLines, Lines, SectionBody, Locate, EndMarker;
    var modules := RegistryOf(registryText).value;
    ParsedKeysHaveNoHash(Lines(registryText), [], None);
    SectionBodyHasNoHash(modules);
    NoMarkerWithoutHash(SectionBody(modules), SECTION);
    SectionNameHasNoHash();
    EndMarkerWithoutOverlap(SECTION);
    MarkerShape(SECTION);
    ShadowedWithoutOverlap(SectionBody(modules), EndMarker(SECTION));
    ExtractAfterReplace(cargo, SECTION, SectionBody(modules));
    LastReplaceWins(cargo, SECTION, SectionBody(modules), SectionBody(modules));
  }

  // ---------------------------------------------------------------------
  // What generate writes and what check accepts
  // ---------------------------------------------------------------------

  lemma GeneratedPieces(registryText: string, cargo: string) returns (before: string, after: string)
    requires Generate(registryText, cargo).Ok?
    ensures var updated, body := Generate(registryText, cargo).value, SectionBody(RegistryOf(registryText).value);
      && cargo == before + ExtractMarkedSection(cargo, SECTION).value + after
      && updated == before + body + after
      && ExtractMarkedSection(updated, SECTION) == Ok(body)
      && StripSuffix(before, BeginMarker(SECTION)).Some? && EndMarker(SECTION) <= after
  {
    hide RegistryOf, SectionBody, ExtractMarkedSection, BeginMarker, EndMarker;
    var body := SectionBody(RegistryOf(registryText).value);
    GenerateSettles(registryText, cargo);
    before, after := ReplaceKeepsOutside(cargo, SECTION, body);
  }

  lemma SectionBodyReads(modules: seq<RegistryModule>)
    requires forall m <- modules :: FeatureText(m.key.cargoFeature)
    ensures var body := SectionBody(modules);
      && body != "" && body[|body| - 1] == '\n'
      && FeaturesOf("[features]\n" + body) == Ok(map["profile-full" := FirstOccurrences(FeatureNames(modules))])
  {
    hide FeaturesOf, SectionText, FirstOccurrences;
    ProfileRoundTrip(modules);
    var text := SectionText(CompositionsOf(modules));
    assert TABLE + "\n" + text + "\n" == "[features]\n" + (text + "\n");
  }

  /**
   The section that generate leaves behind, read as the content of a
   `[features]` table, declares `profile-full` and nothing else: every feature
   of the registry once, in order of first appearance.
   */
  lemma GeneratedSection(registryText: string, cargo: string)
    requires Generate(registryText, cargo).Ok?
    requires forall m <- RegistryOf(registryText).value :: FeatureText(m.key.cargoFeature)
    ensures var section := ExtractMarkedSection(Generate(registryText, cargo).value, "profiles");
      && section.Ok? && section.value != "" && section.value[|section.value| - 1] == '\n'
      && var read := FeaturesOf("[features]\n" + section.value);
      && read.Ok? && read.value.Keys == {"profile-full"}
      && EachFeatureOnce(read.value["profile-full"], RegistryOf(registryText).value)
  {
    var modules := RegistryOf(registryText).value;
    hide RegistryOf, Generate, SectionBody, ExtractMarkedSection, FeaturesOf, FirstOccurrences, EachFeatureOnce, FeatureText;
    var _, _ := GeneratedPieces(registryText, cargo);
    SectionBodyReads(modules);
    ProfileListsEachFeatureOnce(modules);
  }

  lemma LinesOfPieces(before: string, body: string, after: string)
    requires before != "" && before[|before| - 1] == '\n' && body != "" && body[|body| - 1] == '\n'
    ensures Lines(before + body + after) == Lines(before) + Lines(body) + Lines(after)
    ensures Lines(before + after) == Lines(before) + Lines(after)
  {
    hide Lines;
    LinesAppend(before + body, after);
    LinesAppend(before, body);
    LinesAppend(before, after);
  }

  lemma LinesOfSectionBody(modules: seq<RegistryModule>)
    requires forall m <- modules :: FeatureText(m.key.cargoFeature)
    ensures Lines(SectionBody(modules)) == SectionLines(CompositionsOf(modules))
  {
    hide SectionText, SectionLines, Lines, IsLine, Renderable;
    var cs := CompositionsOf(modules);
    RegistryIsRenderable(modules);
    SectionTextLines(cs);
    SectionLinesAreLines(cs);
    LinesUnlines(SectionLines(cs), "");
    LinesOfNothing();
    assert Unlines(SectionLines(cs)) + "" == Unlines(SectionLines(cs));
    assert SectionLines(cs) + [] == SectionLines(cs);
  }

  lemma EndsInLineFeed(before: string, section: string)
    requires StripSuffix(before, BeginMarker(section)).Some?
    ensures before != "" && before[|before| - 1] == '\n'
  {
    var m := BeginMarker(section);
    assert before[|before| - |m|..][|m| - 1] == '\n';
  }

  /**
   In the whole file: where the marked section stands inside the `[features]`
   table, generating declares `profile-full` with every feature of the registry,
   unless a later line declares it again, and leaves every other entry alone.
   */
  lemma GeneratedTable(registryText: string, cargo: string) returns (before: string, after: string)
    requires Generate(registryText, cargo).Ok?
    requires forall m <- RegistryOf(registryText).value :: FeatureText(m.key.cargoFeature)
    ensures var updated, modules := Generate(registryText, cargo).value, RegistryOf(registryText).value;
      && cargo == before + ExtractMarkedSection(cargo, "profiles").value + after
      && ExtractMarkedSection(updated, "profiles").Ok?
      && updated == before + ExtractMarkedSection(updated, "profiles").value + after
      && StripSuffix(before, "# BEGIN OXIDE-REGISTRY: profiles\n").Some? && "# END OXIDE-REGISTRY: profiles" <= after
      && var state := TableState(Lines(before), map[], false);
      state.Some? && state.value.1 ==>
        var read, others := FeaturesOf(updated), FeaturesFrom(Lines(before + after), map[], false);
        && read.Ok? && read.value.Keys == others.Keys + {"profile-full"}
        && (forall name <- others :: name != "profile-full" ==> read.value[name] == others[name])
        && var later := FeaturesFrom(Lines(after), map[], true);
        if "profile-full" in later then read.value["profile-full"] == later["profile-full"]
        else EachFeatureOnce(read.value["profile-full"], modules)
  {
    var updated, modules := Generate(registryText, cargo).value, RegistryOf(registryText).value;
    hide RegistryOf, Generate, SectionBody, ExtractMarkedSection, Lines, TableState, FeaturesFrom, EachFeatureOnce,
      FeatureText, StripSuffix, FeaturesOf;
    before, after := GeneratedPieces(registryText, cargo);
    MarkersOfSection();
    var state := TableState(Lines(before), map[], false);
    if state.Some? && state.value.1 {
      EndsInLineFeed(before, SECTION);
      ProfileInFile(before, modules, after);
    }
  }

  lemma ProfileInFile(before: string, modules: seq<RegistryModule>, after: string)
    requires forall m <- modules :: FeatureText(m.key.cargoFeature)
    requires before != "" && before[|before| - 1] == '\n'
    requires var state := TableState(Lines(before), map[], false); state.Some? && state.value.1
    ensures var read, others := FeaturesOf(before + SectionBody(modules) + after),
        FeaturesFrom(Lines(before + after), map[], false);
      && read.Ok? && read.value.Keys == others.Keys + {"profile-full"}
      && (forall name <- others :: name != "profile-full" ==> read.value[name] == others[name])
      && var later := FeaturesFrom(Lines(after), map[], true);
      if "profile-full" in later then read.value["profile-full"] == later["profile-full"]
      else EachFeatureOnce(read.value["profile-full"], modules)
  {
    hide SectionBody, Lines, TableState, FeaturesFrom, FirstOccurrences, EachFeatureOnce, FeatureText, SectionLines;
    SectionBodyReads(modules);
    LinesOfPieces(before, SectionBody(modules), after);
    LinesOfSectionBody(modules);
    ProfileInTable(Lines(before), modules, Lines(after));
    ProfileListsEachFeatureOnce(modules);
    assert "profile-full" in FeaturesFrom(Lines(before + SectionBody(modules) + after), map[], false);
  }

  lemma MarkersOfSection()
    ensures BeginMarker(SECTION) == "# BEGIN OXIDE-REGISTRY: profiles\n"
    ensures EndMarker(SECTION) == "# END OXIDE-REGISTRY: profiles"
  {
  }

  /**
   Check accepts a file if and only if generate would leave it as it is; that
   is, exactly when the section holds this one text.
   */
  lemma UpToDateExactly(registryText: string, cargo: string) returns (features: seq<string>)
    ensures ProfileUpToDate(registryText, cargo) == Ok(true) <==> Generate(registryText, cargo) == Ok(cargo)
    ensures RegistryOf(registryText).Ok? ==>
      && EachFeatureOnce(features, RegistryOf(registryText).value)
      && var text :=
           "profile-full = [\n"
           + Unlines(seq(|features|, i requires 0 <= i < |features| =>
               "    \"" + features[i] + "\"" + (if i == |features| - 1 then "" else ",")))
           + "]\n";
      ProfileUpToDate(registryText, cargo) == Ok(true) <==> ExtractMarkedSection(cargo, "profiles") == Ok(text)
  {
    hide RegistryOf, Locate;
    features := [];
    if RegistryOf(registryText).Ok? {
      var modules := RegistryOf(registryText).value;
      features := FirstOccurrences(FeatureNames(modules));
      ProfileListsEachFeatureOnce(modules);
      SectionBodyText(modules);
      hide SectionBody, EachFeatureOnce, FirstOccurrences;
      var body := SectionBody(modules);
      if Locate(cargo, SECTION).Ok? {
        var (bodyStart, bodyEnd) := Locate(cargo, SECTION).value;
        Pieces(cargo[..bodyStart], body, cargo[bodyEnd..]);
        var updated := cargo[..bodyStart] + body + cargo[bodyEnd..];
        assert cargo == cargo[..bodyStart] + cargo[bodyStart..bodyEnd] + cargo[bodyEnd..];
        assert updated == cargo <==> cargo[bodyStart..bodyEnd] == body;
      }
    }
  }

  lemma SectionBodyText(modules: seq<RegistryModule>)
    ensures var features := FirstOccurrences(FeatureNames(modules));
      SectionBody(modules) ==
        "profile-full = [\n"
        + Unlines(seq(|features|, i requires 0 <= i < |features| =>
            "    \"" + features[i] + "\"" + (if i == |features| - 1 then "" else ",")))
        + "]\n"
  {
    hide FirstOccurrences, Unlines;
    var features := FirstOccurrences(FeatureNames(modules));
    var items := seq(|features|, i requires 0 <= i < |features| =>
      "    \"" + features[i] + "\"" + (if i == |features| - 1 then "" else ","));
    assert items == ItemLines(features) by {
      forall i | 0 <= i < |features|
        ensures items[i] == ItemLine(features, i)
      {
      }
    }
    hide ItemLines;
    var text := BlockText(Composition(PROFILE_NAME, features));
    assert PROFILE_PREFIX + PROFILE_NAME + " = [" == "profile-full = [";
    assert SectionText(CompositionsOf(modules)) == text;
    assert text + "\n" == "profile-full = [\n" + Unlines(items) + "]\n";
  }

  lemma SectionNameHasNoHash()
    ensures '#' !in SECTION
  {
  }
}
