/**
 What the two independent registry parsers have in common, and the round
 trip of canonical registry text through both of them.
 */
module RegistryAgreement {
  import opened Prelude
  import opened Text
  import opened QuoteScanners
  import opened RegistryParser
  import Build = BuildScript

  function Pairs(modules: seq<RegistryModule>): seq<Build.Entry> {
    seq(|modules|, i requires 0 <= i < |modules| => (modules[i].key.id, modules[i].key.cargoFeature))
  }

  lemma PairsHold(modules: seq<RegistryModule>)
    ensures |Pairs(modules)| == |modules|
    ensures forall i :: 0 <= i < |modules| ==> Pairs(modules)[i] == (modules[i].key.id, modules[i].key.cargoFeature)
  {
  }

  // ---------------------------------------------------------------------
  // When the two parsers see the same thing
  // ---------------------------------------------------------------------

  /** A line the build script reacts to. */
  predicate Significant(line: string) {
    var t := Trim(line);
    t == HEADER || Build.ID_KEY <= t || Build.FEATURE_KEY <= t
  }

  /** Spelled the one way the build script recognises, with a value that ends on its line. */
  predicate SpelledField(line: string, key: string, value: string) {
    key <= Trim(line) && Balanced(Trim(value))
  }

  /**
   The text spells ids and features the one way the build script recognises:
   `key = value` on one line, below a header, and no line swallowed by a
   multi-line array looks like one of them or like a header.  Comments may
   stand anywhere.
   */
  predicate Spelled(lines: seq<string>, started: bool)
    decreases |lines|
  {
    lines == [] ||
    var line, rest := Statement(lines[0]), lines[1..];
    if line == HEADER then Spelled(rest, true)
    else if line == "" then Spelled(rest, started)
    else if !started then !Significant(lines[0]) && Spelled(rest, started)
    else match SplitOnce(line, '=')
      case None => Spelled(rest, started)
      case Some((name, value)) =>
        var (full, rest') := Gather(Trim(value), rest);
        && (Trim(name) == "id" ==> SpelledField(lines[0], Build.ID_KEY, value))
        && (Trim(name) == "cargo_feature" ==> SpelledField(lines[0], Build.FEATURE_KEY, value))
        && (forall i :: 0 <= i < |rest| - |rest'| ==> !Significant(rest[i]))
        && Spelled(rest', started)
  }

  /**
   No `#` on any header but the first, on the last id line of a section, or
   on its last feature line.  The flags say whether the id and the feature
   line last seen in the section had none.
   */
  predicate Uncommented(lines: seq<string>, started: bool, idClean: bool, featureClean: bool)
    decreases |lines|
  {
    if lines == [] then started ==> idClean && featureClean
    else
      var line, rest := Statement(lines[0]), lines[1..];
      if line == HEADER then
        (started ==> idClean && featureClean && '#' !in lines[0]) && Uncommented(rest, true, true, true)
      else if line == "" || !started then Uncommented(rest, started, idClean, featureClean)
      else match SplitOnce(line, '=')
        case None => Uncommented(rest, started, idClean, featureClean)
        case Some((name, value)) =>
          var clean := '#' !in lines[0];
          Uncommented(Gather(Trim(value), rest).1, started,
            if Trim(name) == "id" then clean else idClean,
            if Trim(name) == "cargo_feature" then clean else featureClean)
  }

  // ---------------------------------------------------------------------
  // One line, seen by both parsers
  // ---------------------------------------------------------------------

  lemma {:induction false} StripCommentBehind(before: string, s: string)
    requires '#' !in before
    ensures StripComment(before + s) == before + StripComment(s)
  {
    if '#' in s {
      var i := IndexOf(s, '#');
      assert before + s == (before + s[..i]) + ['#'] + s[i + 1..];
      CutAt(before + s[..i], '#', s[i + 1..]);
    } else {
      IndexOfAbsent(s, '#');
      IndexOfAbsent(before + s, '#');
    }
  }

  lemma BlankHasNoHash(s: string)
    requires Blank(s)
    ensures '#' !in s && StripComment(s) == s
  {
    assert forall c <- s :: IsWhitespace(c);
    IndexOfAbsent(s, '#');
  }

  /** Cutting the comment and trimming commute. */
  lemma StatementOfTrimmed(line: string)
    ensures Statement(line) == TrimEnd(StripComment(Trim(line)))
  {
    hide TrimStart, TrimEnd, StripComment;
    var s := TrimStart(line);
    var w := line[..|line| - |s|];
    var t := TrimEnd(s);
    var v := s[|t|..];
    calc {
      Statement(line);
      { assert line == w + s && Blank(w); }
      TrimEnd(TrimStart(StripComment(w + s)));
      { BlankHasNoHash(w); StripCommentBehind(w, s); }
      TrimEnd(TrimStart(w + StripComment(s)));
      { TrimStartOfCut(w, s); }
      TrimEnd(StripComment(s));
      { assert s == t + v && Blank(v); TrimEndOfCut(t, v); }
      TrimEnd(StripComment(t));
    }
  }

  lemma TrimStartOfCut(w: string, s: string)
    requires Blank(w) && (s != "" ==> !IsWhitespace(s[0]))
    ensures TrimStart(w + StripComment(s)) == StripComment(s)
  {
    if StripComment(s) == "" {
      assert w + StripComment(s) == w;
      TrimStartAllBlank(w);
    } else {
      assert StripComment(s)[0] == s[0];
      TrimStartBlank(w, StripComment(s));
    }
  }

  lemma {:induction false} TrimStartAllBlank(w: string)
    requires Blank(w)
    ensures TrimStart(w) == ""
  {
    if w != "" {
      TrimStartAllBlank(w[1..]);
    }
  }

  lemma TrimEndOfCut(t: string, v: string)
    requires Blank(v) && (t != "" ==> !IsWhitespace(t[|t| - 1]))
    ensures TrimEnd(StripComment(t + v)) == TrimEnd(StripComment(t))
  {
    if '#' in t {
      var i := IndexOf(t, '#');
      assert t + v == t[..i] + ['#'] + (t[i + 1..] + v);
      CutAt(t[..i], '#', t[i + 1..] + v);
    } else {
      BlankHasNoHash(v);
      StripCommentBehind(t, v);
      IndexOfAbsent(t, '#');
      TrimEndBlank(t, v);
      TrimEndBlank(t, "");
      assert t + "" == t;
    }
  }

  /** A trimmed line that opens with `key = ` splits at that sign. */
  lemma KeyOfLine(t: string, name: string)
    requires name != "" && '=' !in name && '#' !in name && Solid(name)
    requires name + " = " <= t
    ensures var u := TrimEnd(StripComment(t));
      SplitOnce(u, '=').Some? && SplitOnce(u, '=').value.0 == name + " "
    ensures Trim(name + " ") == name
  {
    hide TrimStart, TrimEnd, StripComment, SplitOnce;
    var head, tail := name + " =", t[|name| + 2..];
    assert t == head + tail;
    StripCommentBehind(head, tail);
    TrimEndBehind(head, StripComment(tail));
    var u := TrimEnd(StripComment(t));
    var rest := u[|head|..];
    assert u == (name + " ") + ['='] + rest;
    SplitOnceAt(name + " ", '=', rest);
    TrimSolid("", name, " ");
    assert "" + name + " " == name + " ";
  }

  lemma {:induction false} TrimEndBehind(head: string, tail: string)
    requires head != "" && !IsWhitespace(head[|head| - 1])
    ensures head <= TrimEnd(head + tail)
  {
    var s := head + tail;
    if tail != "" && IsWhitespace(s[|s| - 1]) {
      assert s[..|s| - 1] == head + tail[..|tail| - 1];
      TrimEndBehind(head, tail[..|tail| - 1]);
    }
  }

  /** Every line the build script reacts to is a header, an id or a feature for the other parser. */
  lemma SignificantIsParsed(line: string)
    requires Significant(line)
    ensures var u := Statement(line);
      || u == HEADER
      || (SplitOnce(u, '=').Some? && Trim(SplitOnce(u, '=').value.0) in ["id", "cargo_feature"])
  {
    hide Trim, Statement, TrimEnd, SplitOnce, StripComment;
    var t := Trim(line);
    StatementOfTrimmed(line);
    if t == HEADER {
      HeaderIsStatement();
    } else if Build.ID_KEY <= t {
      KeyOfLine(t, "id");
    } else {
      KeyOfLine(t, "cargo_feature");
    }
  }

  lemma HeaderIsStatement()
    ensures TrimEnd(StripComment(HEADER)) == HEADER
  {
    hide IndexOf, TrimEnd;
    HeaderShape();
    IndexOfAbsent(HEADER, '#');
    TrimEndBlank(HEADER, "");
    assert HEADER + "" == HEADER;
  }

  /** An uncommented field reads as the same string in both parsers. */
  lemma UncommentedFieldAgrees(line: string, name: string, value: string)
    requires name in ["id", "cargo_feature"]
    requires name + " = " <= Trim(line) && '#' !in line
    requires SplitOnce(Statement(line), '=') == Some((name + " ", value))
    ensures var r := ParseString(Trim(value));
      r.Ok? ==> Build.ParseStringValue(Trim(line)[|name| + 3..]) == r.value
  {
    hide Trim, SplitOnce;
    var t := Trim(line);
    IndexOfAbsent(line, '#');
    assert StripComment(line) == line;
    assert Statement(line) == t;
    var raw := t[|name| + 3..];
    assert t == (name + " ") + ['='] + (" " + raw);
    SplitOnceAt(name + " ", '=', " " + raw);
    assert value == " " + raw;
    TrimSkipsBlank(" ", raw);
    TrimIdempotent(value);
    ValuesAgree(raw, Trim(value));
  }

  /** Trimming and unquoting never drop a `#`. */
  lemma TrimKeepsHash(s: string)
    requires '#' in s
    ensures '#' in Trim(s)
  {
    hide TrimStart, TrimEnd;
    var t := TrimStart(s);
    var w := |s| - |t|;
    var i :| 0 <= i < |s| && s[i] == '#';
    assert i >= w && t[i - w] == '#';
    assert i - w < |TrimEnd(t)|;
    assert TrimEnd(t)[i - w] == '#';
  }

  lemma UnquotedKeepsHash(v: string)
    requires '#' in Quoted(v)
    ensures '#' in v
  {
    var i :| 0 <= i < |Quoted(v)| && Quoted(v)[i] == '#';
    assert v[i - 1] == '#';
  }

  lemma UnquotedOrWhole(raw: string)
    ensures var v := Build.ParseStringValue(raw); Trim(raw) == v || Trim(raw) == Quoted(v)
  {
    hide Trim;
  }

  lemma ValueKeepsHash(raw: string)
    requires '#' in raw
    ensures '#' in Build.ParseStringValue(raw)
  {
    TrimKeepsHash(raw);
    UnquotedOrWhole(raw);
    hide *;
    if Trim(raw) == Quoted(Build.ParseStringValue(raw)) {
      UnquotedKeepsHash(Build.ParseStringValue(raw));
    }
  }

  /** The build script hands a `#` on a recognised line on to the value. */
  lemma CommentReachesValue(line: string, name: string)
    requires name in ["id", "cargo_feature"] && name + " = " <= Trim(line) && '#' in line
    ensures '#' in Build.ParseStringValue(Trim(line)[|name| + 3..])
  {
    hide *;
    TrimKeepsHash(line);
    var head := name + " = ";
    KeyHasNoHash(name);
    HashBehind(head, Trim(line));
    ValueKeepsHash(Trim(line)[|head|..]);
  }

  lemma KeyHasNoHash(name: string)
    requires name in ["id", "cargo_feature"]
    ensures '#' !in name + " = " && |name + " = "| == |name| + 3
  {
  }

  lemma HashBehind(head: string, s: string)
    requires head <= s && '#' !in head && '#' in s
    ensures '#' in s[|head|..]
  {
    assert s == head + s[|head|..];
  }

  /**
   On every line the build script recognises as an id or a feature, whose
   value the registry parser accepts: both read the same text if and only if
   there is no `#` on the line.
   */
  lemma FieldReadAlikeExactly(line: string, name: string)
    requires name in ["id", "cargo_feature"] && name + " = " <= Trim(line)
    ensures SplitOnce(Statement(line), '=').Some?
    ensures var (key, value) := SplitOnce(Statement(line), '=').value;
      var accepted := ParseString(Trim(value));
      && Trim(key) == name
      && (accepted.Ok? ==>
            && (Build.ParseStringValue(Trim(line)[|name| + 3..]) == accepted.value <==> '#' !in line)
            && '#' !in accepted.value)
  {
    hide Trim, TrimEnd, SplitOnce, StripComment, ParseString, Build.ParseStringValue;
    StatementOfTrimmed(line);
    KeyOfLine(Trim(line), name);
    var (key, value) := SplitOnce(Statement(line), '=').value;
    assert '#' !in value;
    TrimAvoids(value, '#');
    ParseStringAvoids(Trim(value), '#');
    if '#' in line {
      CommentReachesValue(line, name);
    } else {
      UncommentedFieldAgrees(line, name, value);
    }
  }

  lemma ValuesAgree(raw: string, value: string)
    requires Trim(value) == Trim(raw)
    ensures var r := ParseString(value); r.Ok? ==> Build.ParseStringValue(raw) == r.value
  {
    hide Trim;
  }

  lemma TrimSkipsBlank(before: string, s: string)
    requires Blank(before)
    ensures Trim(before + s) == Trim(s)
  {
    hide TrimStart, TrimEnd;
    var t := TrimStart(s);
    var w := s[..|s| - |t|];
    assert s == w + t;
    if t == "" {
      TrimStartAllBlank(s);
      TrimStartAllBlank(before + s);
    } else {
      assert before + s == (before + w) + t;
      TrimStartBlank(before + w, t);
    }
  }

  // ---------------------------------------------------------------------
  // Agreement
  // ---------------------------------------------------------------------

  /** What the build script has seen of a field, against what the registry parser stored. */
  predicate Reads(stored: string, seen: Option<string>, clean: bool) {
    if clean then seen == Some(stored) || (seen.None? && stored == "")
    else seen.Some? && '#' in seen.value
  }

  predicate Follows(
      current: Option<RegistryModule>, id: Option<string>, feature: Option<string>, idClean: bool, featureClean: bool)
  {
    match current
    case None => id.None? && feature.None? && idClean && featureClean
    case Some(m) => Reads(m.key.id, id, idClean) && Reads(m.key.cargoFeature, feature, featureClean)
  }

  ghost predicate AllNoHash(modules: seq<RegistryModule>, current: Option<RegistryModule>) {
    (forall m <- modules :: NoHash(m)) && (current.Some? ==> NoHash(current.value))
  }

  lemma {:induction false} ParsedKeepsModules(
      lines: seq<string>, modules: seq<RegistryModule>, current: Option<RegistryModule>)
    ensures var r := ParseLines(lines, modules, current); r.Ok? ==> Flush(modules, None) <= r.value
    decreases |lines|
  {
    hide Statement, SplitOnce, SetField, Gather;
    if lines != [] {
      var line, rest := Statement(lines[0]), lines[1..];
      if line == "" {
        ParsedKeepsModules(rest, modules, current);
      } else if line == HEADER {
        ParsedKeepsModules(rest, Flush(modules, current), Some(EMPTY_MODULE));
      } else if current.None? || SplitOnce(line, '=').None? {
        ParsedKeepsModules(rest, modules, current);
      } else {
        var (name, value) := SplitOnce(line, '=').value;
        var (full, rest') := Gather(Trim(value), rest);
        var updated := SetField(current.value, Trim(name), full);
        if updated.Ok? {
          ParsedKeepsModules(rest', modules, Some(updated.value));
        }
      }
    }
  }

  lemma {:induction false} SkipLines(
      lines: seq<string>, k: nat, entries: seq<Build.Entry>, id: Option<string>, feature: Option<string>)
    requires k <= |lines| && forall i :: 0 <= i < k ==> !Significant(lines[i])
    ensures Build.EntriesFrom(lines, entries, id, feature) == Build.EntriesFrom(lines[k..], entries, id, feature)
    decreases k
  {
    hide Trim;
    if k > 0 {
      assert lines[1..][k - 1..] == lines[k..];
      SkipLines(lines[1..], k - 1, entries, id, feature);
    }
  }

  ghost predicate AllComplete(modules: seq<RegistryModule>) {
    forall m <- modules :: Complete(m)
  }

  lemma PairsAppend(modules: seq<RegistryModule>, m: RegistryModule)
    ensures Pairs(modules + [m]) == Pairs(modules) + [(m.key.id, m.key.cargoFeature)]
  {
  }

  /** An id or feature line, as the registry parser stores it and the build script reads it. */
  lemma SpelledFieldStep(line: string, value: string, rest: seq<string>, m: RegistryModule, name: string)
    requires name in ["id", "cargo_feature"]
    requires SpelledField(line, name + " = ", value)
    requires SplitOnce(Statement(line), '=').Some? && SplitOnce(Statement(line), '=').value.1 == value
    ensures Gather(Trim(value), rest) == (Trim(value), rest)
    ensures var r := SetField(m, name, Trim(value));
      r.Ok? ==>
        var stored := if name == "id" then r.value.key.id else r.value.key.cargoFeature;
        && Reads(stored, Some(Build.ParseStringValue(Trim(line)[|name| + 3..])), '#' !in line)
        && r.value.key == if name == "id" then m.key.(id := stored) else m.key.(cargoFeature := stored)
  {
    hide Trim, SplitOnce, Balanced, Statement, StripComment, ParseString, Build.ParseStringValue, ParseStringArray;
    FieldReadAlikeExactly(line, name);
    if '#' in line {
      CommentReachesValue(line, name);
    }
  }

  /** One step of the build script on a line it recognises as a field. */
  lemma BuildFieldStep(lines: seq<string>, entries: seq<Build.Entry>,
      id: Option<string>, feature: Option<string>, name: string)
    requires lines != [] && name in ["id", "cargo_feature"] && name + " = " <= Trim(lines[0])
    ensures var s := Build.ParseStringValue(Trim(lines[0])[|name| + 3..]);
      Build.EntriesFrom(lines, entries, id, feature)
      == if name == "id" then Build.EntriesFrom(lines[1..], entries, Some(s), feature)
         else Build.EntriesFrom(lines[1..], entries, id, Some(s))
  {
    hide Trim, Build.ParseStringValue;
    var t := Trim(lines[0]);
    assert t[0] == name[0];
  }

  // A pair with a `#` in it, or one pair too few, is never made up for.

  lemma {:induction false} EntriesGrow(
      lines: seq<string>, entries: seq<Build.Entry>, id: Option<string>, feature: Option<string>)
    ensures entries <= Build.EntriesFrom(lines, entries, id, feature)
  {
    hide Trim, StripPrefix, Build.ParseStringValue;
    if lines != [] {
      if Trim(lines[0]) == Build.HEADER {
        EntriesGrow(lines[1..], Build.Emit(entries, id, feature), None, None);
      } else {
        var id', feature' := NonHeaderStep(lines, entries, id, feature);
        EntriesGrow(lines[1..], entries, id', feature');
      }
    }
  }

  lemma NonHeaderStep(lines: seq<string>, entries: seq<Build.Entry>, id: Option<string>, feature: Option<string>)
    returns (id': Option<string>, feature': Option<string>)
    requires lines != [] && Trim(lines[0]) != HEADER
    ensures Build.EntriesFrom(lines, entries, id, feature) == Build.EntriesFrom(lines[1..], entries, id', feature')
  {
    hide Trim, Build.ParseStringValue;
    var t := Trim(lines[0]);
    id', feature' := id, feature;
    if Build.ID_KEY <= t {
      id' := Some(Build.ParseStringValue(t[|Build.ID_KEY|..]));
    } else if Build.FEATURE_KEY <= t {
      feature' := Some(Build.ParseStringValue(t[|Build.FEATURE_KEY|..]));
    }
  }

  predicate HasHash(e: Build.Entry) {
    '#' in e.0 || '#' in e.1
  }

  lemma TaintedDiffer(
      lines: seq<string>, entries: seq<Build.Entry>, id: Option<string>, feature: Option<string>,
      modules: seq<RegistryModule>)
    requires entries != [] && HasHash(entries[|entries| - 1])
    requires forall m <- modules :: NoHash(m)
    ensures Build.EntriesFrom(lines, entries, id, feature) != Pairs(modules)
  {
    hide Build.EntriesFrom;
    EntriesGrow(lines, entries, id, feature);
    var n := |entries| - 1;
    if n < |modules| {
      assert NoHash(modules[n]);
      assert !HasHash(Pairs(modules)[n]);
    }
  }

  lemma {:induction false} BehindStays(
      lines: seq<string>, modules: seq<RegistryModule>, m: RegistryModule,
      entries: seq<Build.Entry>, id: Option<string>, feature: Option<string>)
    requires Spelled(lines, true) && |entries| < |modules|
    requires ParseLines(lines, modules, Some(m)).Ok?
    ensures |Build.EntriesFrom(lines, entries, id, feature)| < |ParseLines(lines, modules, Some(m)).value|
    decreases |lines|
  {
    hide Statement, Trim, SplitOnce, SetField, Gather, Balanced, Build.ParseStringValue, Significant, SpelledField;
    if lines != [] {
      var line, rest := Statement(lines[0]), lines[1..];
      if Trim(lines[0]) == HEADER {
        HeaderReadExactly(lines[0]);
        BehindStays(rest, modules + [m], EMPTY_MODULE, Build.Emit(entries, id, feature), None, None);
      } else {
        var id', feature' := NonHeaderStep(lines, entries, id, feature);
        hide Build.EntriesFrom;
        if line == HEADER {
          BehindStays(rest, modules + [m], EMPTY_MODULE, entries, id', feature');
        } else if line == "" || SplitOnce(line, '=').None? {
          BehindStays(rest, modules, m, entries, id', feature');
        } else {
          ParseFieldLine(lines, modules, m);
          SpelledFieldLine(lines);
          var (key, value) := SplitOnce(line, '=').value;
          var (full, rest') := Gather(Trim(value), rest);
          SkipLines(rest, |rest| - |rest'|, entries, id', feature');
          BehindStays(rest', modules, SetField(m, Trim(key), full).value, entries, id', feature');
        }
      }
    }
  }

  /** A header carries a comment exactly when the build script misses it. */
  lemma HeaderReadExactly(line: string)
    ensures Trim(line) == HEADER <==> Statement(line) == HEADER && '#' !in line
  {
    hide Trim, StripComment;
    HeaderShape();
    if '#' in line {
      TrimKeepsHash(line);
    } else {
      hide IndexOf;
      IndexOfAbsent(line, '#');
      assert StripComment(line) == line;
    }
  }

  /**
   From corresponding states, whenever the registry parser accepts the rest
   of a spelled text, the build script ends with the same pairs if and only
   if the rest is uncommented.
   */
  lemma {:induction false} AgreeFrom(
      lines: seq<string>, modules: seq<RegistryModule>, current: Option<RegistryModule>,
      entries: seq<Build.Entry>, id: Option<string>, feature: Option<string>, idClean: bool, featureClean: bool)
    requires Spelled(lines, current.Some?)
    requires Follows(current, id, feature, idClean, featureClean) && AllNoHash(modules, current)
    requires AllComplete(modules) ==> entries == Pairs(modules)
    requires var r := ParseLines(lines, modules, current); r.Ok? && AllComplete(r.value)
    ensures Build.EntriesFrom(lines, entries, id, feature) == Pairs(ParseLines(lines, modules, current).value)
       <==> Uncommented(lines, current.Some?, idClean, featureClean)
    decreases |lines|
  {
    hide Statement, Trim, SplitOnce, SetField, Gather, Balanced, Build.ParseStringValue, Significant,
      SpelledField, Follows, AllNoHash;
    ParsedKeepsModules(lines, modules, current);
    if lines == [] {
      FlushAgrees(modules, current, entries, id, feature, idClean, featureClean);
    } else {
      var line, rest := Statement(lines[0]), lines[1..];
      if line == HEADER {
        AgreeOnHeader(lines, modules, current, entries, id, feature, idClean, featureClean);
      } else if line == "" || current.None? || SplitOnce(line, '=').None? {
        InsignificantLine(lines[0], current.Some?);
        SkipLines(lines, 1, entries, id, feature);
        AgreeFrom(rest, modules, current, entries, id, feature, idClean, featureClean);
      } else {
        AgreeOnField(lines, modules, current, entries, id, feature, idClean, featureClean);
      }
    }
  }

  lemma FlushAgrees(modules: seq<RegistryModule>, current: Option<RegistryModule>,
      entries: seq<Build.Entry>, id: Option<string>, feature: Option<string>, idClean: bool, featureClean: bool)
    requires Follows(current, id, feature, idClean, featureClean) && AllNoHash(modules, current)
    requires AllComplete(modules) ==> entries == Pairs(modules)
    requires AllComplete(Flush(modules, current))
    ensures var emitted := Build.Emit(entries, id, feature);
      && (emitted == Pairs(Flush(modules, current)) <==> (current.Some? ==> idClean && featureClean))
      && (current.Some? && !(idClean && featureClean) ==> emitted != [] && HasHash(emitted[|emitted| - 1]))
  {
    assert forall m <- modules :: m in Flush(modules, current);
    if current.Some? {
      assert current.value in Flush(modules, current);
      PairsAppend(modules, current.value);
      var emitted := Build.Emit(entries, id, feature);
      assert |emitted| == |entries| + 1;
      assert !HasHash((current.value.key.id, current.value.key.cargoFeature));
      if !(idClean && featureClean) {
        assert emitted[|entries|] != Pairs(Flush(modules, current))[|entries|];
      }
    }
  }

  lemma {:induction false} AgreeOnHeader(
      lines: seq<string>, modules: seq<RegistryModule>, current: Option<RegistryModule>,
      entries: seq<Build.Entry>, id: Option<string>, feature: Option<string>, idClean: bool, featureClean: bool)
    requires lines != [] && Statement(lines[0]) == HEADER && Spelled(lines, current.Some?)
    requires Follows(current, id, feature, idClean, featureClean) && AllNoHash(modules, current)
    requires AllComplete(modules) ==> entries == Pairs(modules)
    requires var r := ParseLines(lines, modules, current); r.Ok? && AllComplete(r.value)
    ensures Build.EntriesFrom(lines, entries, id, feature) == Pairs(ParseLines(lines, modules, current).value)
       <==> Uncommented(lines, current.Some?, idClean, featureClean)
    decreases |lines|, 0
  {
    hide Statement, Trim, SplitOnce, SetField, Gather, Balanced, Build.ParseStringValue, Significant, SpelledField;
    var rest := lines[1..];
    var flushed := Flush(modules, current);
    var result := ParseLines(lines, modules, current).value;
    assert ParseLines(rest, flushed, Some(EMPTY_MODULE)) == ParseLines(lines, modules, current);
    ParsedKeepsModules(rest, flushed, Some(EMPTY_MODULE));
    assert AllComplete(flushed);
    FlushAgrees(modules, current, entries, id, feature, idClean, featureClean);
    HeaderReadExactly(lines[0]);
    assert AllNoHash(flushed, Some(EMPTY_MODULE));
    if Trim(lines[0]) == HEADER {
      var emitted := Build.Emit(entries, id, feature);
      assert Build.EntriesFrom(lines, entries, id, feature) == Build.EntriesFrom(rest, emitted, None, None);
      if current.Some? && !(idClean && featureClean) {
        ParsedKeysHaveNoHash(rest, flushed, Some(EMPTY_MODULE));
        TaintedDiffer(rest, emitted, None, None, result);
      } else {
        AgreeFrom(rest, flushed, Some(EMPTY_MODULE), emitted, None, None, true, true);
      }
    } else {
      HeaderIsNoField(lines[0]);
      SkipLines(lines, 1, entries, id, feature);
      if current.Some? {
        assert AllComplete(modules) by {
          assert forall m <- modules :: m in flushed;
        }
        BehindStays(rest, flushed, EMPTY_MODULE, entries, id, feature);
      } else {
        AgreeFrom(rest, flushed, Some(EMPTY_MODULE), entries, None, None, true, true);
      }
    }
  }

  /** A commented header means nothing to the build script. */
  lemma HeaderIsNoField(line: string)
    requires Statement(line) == HEADER && Trim(line) != HEADER
    ensures !Significant(line)
  {
    hide Statement, Trim;
    HeaderShape();
    if Build.ID_KEY <= Trim(line) {
      FieldReadAlikeExactly(line, "id");
    } else if Build.FEATURE_KEY <= Trim(line) {
      FieldReadAlikeExactly(line, "cargo_feature");
    }
  }

  /** Lines the registry parser skips are lines the build script skips. */
  lemma InsignificantLine(line: string, started: bool)
    requires Statement(line) != HEADER
    requires Statement(line) == "" || SplitOnce(Statement(line), '=').None? || !Significant(line)
    ensures !Significant(line)
  {
    hide Statement, Trim, SplitOnce;
    if Significant(line) {
      SignificantIsParsed(line);
    }
  }

  /** The registry parser on a `name = value` line inside a module. */
  lemma ParseFieldLine(lines: seq<string>, modules: seq<RegistryModule>, m: RegistryModule)
    requires lines != [] && Statement(lines[0]) != HEADER && Statement(lines[0]) != ""
    requires SplitOnce(Statement(lines[0]), '=').Some?
    ensures var (key, value) := SplitOnce(Statement(lines[0]), '=').value;
      var (full, rest) := Gather(Trim(value), lines[1..]);
      var updated := SetField(m, Trim(key), full);
      ParseLines(lines, modules, Some(m))
      == if updated.Ok? then ParseLines(rest, modules, Some(updated.value)) else Err(updated.error)
  {
    hide Statement, Trim, SplitOnce, SetField, Gather;
  }

  /** What a spelled text promises about such a line. */
  lemma SpelledFieldLine(lines: seq<string>)
    requires lines != [] && Statement(lines[0]) != HEADER && Statement(lines[0]) != ""
    requires SplitOnce(Statement(lines[0]), '=').Some? && Spelled(lines, true)
    ensures var (key, value) := SplitOnce(Statement(lines[0]), '=').value;
      var (full, rest) := Gather(Trim(value), lines[1..]);
      && (Trim(key) in ["id", "cargo_feature"] ==> SpelledField(lines[0], Trim(key) + " = ", value))
      && (forall i :: 0 <= i < |lines[1..]| - |rest| ==> !Significant(lines[1..][i]))
      && Spelled(rest, true)
  {
    hide Statement, Trim, SplitOnce, Gather, Balanced, Significant, SpelledField;
    assert "id" + " = " == Build.ID_KEY && "cargo_feature" + " = " == Build.FEATURE_KEY;
  }

  lemma UncommentedFieldLine(lines: seq<string>, idClean: bool, featureClean: bool)
    requires lines != [] && Statement(lines[0]) != HEADER && Statement(lines[0]) != ""
    requires SplitOnce(Statement(lines[0]), '=').Some?
    ensures var (key, value) := SplitOnce(Statement(lines[0]), '=').value;
      var clean := '#' !in lines[0];
      Uncommented(lines, true, idClean, featureClean)
      == Uncommented(Gather(Trim(value), lines[1..]).1, true,
           if Trim(key) == "id" then clean else idClean, if Trim(key) == "cargo_feature" then clean else featureClean)
  {
    hide Statement, Trim, SplitOnce, Gather;
  }

  lemma {:induction false} AgreeOnField(
      lines: seq<string>, modules: seq<RegistryModule>, current: Option<RegistryModule>,
      entries: seq<Build.Entry>, id: Option<string>, feature: Option<string>, idClean: bool, featureClean: bool)
    requires lines != [] && current.Some? && Spelled(lines, true)
    requires Statement(lines[0]) != HEADER && Statement(lines[0]) != ""
    requires SplitOnce(Statement(lines[0]), '=').Some?
    requires Follows(current, id, feature, idClean, featureClean) && AllNoHash(modules, current)
    requires AllComplete(modules) ==> entries == Pairs(modules)
    requires var r := ParseLines(lines, modules, current); r.Ok? && AllComplete(r.value)
    ensures Build.EntriesFrom(lines, entries, id, feature) == Pairs(ParseLines(lines, modules, current).value)
       <==> Uncommented(lines, true, idClean, featureClean)
    decreases |lines|, 0
  {
    hide *;
    var rest := lines[1..];
    var (key, value) := SplitOnce(Statement(lines[0]), '=').value;
    var name := Trim(key);
    var (full, rest') := Gather(Trim(value), rest);
    var updated := SetField(current.value, name, full);
    ParseFieldLine(lines, modules, current.value);
    SpelledFieldLine(lines);
    UncommentedFieldLine(lines, idClean, featureClean);
    GatheredHasNoHash(value, rest);
    StillNoHash(modules, current.value, name, full);
    if name == "id" {
      var s := IdSeen(lines, current.value, entries, id, feature, idClean, featureClean);
      AgreeFrom(rest', modules, Some(updated.value), entries, s, feature, '#' !in lines[0], featureClean);
    } else if name == "cargo_feature" {
      var s := FeatureSeen(lines, current.value, entries, id, feature, idClean, featureClean);
      AgreeFrom(rest', modules, Some(updated.value), entries, id, s, idClean, '#' !in lines[0]);
    } else {
      OtherSeen(lines, current.value, entries, id, feature, idClean, featureClean);
      AgreeFrom(rest', modules, Some(updated.value), entries, id, feature, idClean, featureClean);
    }
  }

  lemma StillNoHash(modules: seq<RegistryModule>, m: RegistryModule, name: string, full: string)
    requires AllNoHash(modules, Some(m)) && '#' !in full
    ensures var updated := SetField(m, name, full); updated.Ok? ==> AllNoHash(modules, Some(updated.value))
  {
    hide SetField, NoHash;
    SetFieldKeepsNoHash(m, name, full);
  }

  /** What the build script knows after an id line. */
  lemma IdSeen(
      lines: seq<string>, m: RegistryModule, entries: seq<Build.Entry>,
      id: Option<string>, feature: Option<string>, idClean: bool, featureClean: bool)
    returns (s: Option<string>)
    requires lines != [] && Spelled(lines, true)
    requires Statement(lines[0]) != HEADER && Statement(lines[0]) != ""
    requires SplitOnce(Statement(lines[0]), '=').Some? && Trim(SplitOnce(Statement(lines[0]), '=').value.0) == "id"
    requires Follows(Some(m), id, feature, idClean, featureClean)
    ensures var (key, value) := SplitOnce(Statement(lines[0]), '=').value;
      var (full, rest') := Gather(Trim(value), lines[1..]);
      var updated := SetField(m, Trim(key), full);
      && Build.EntriesFrom(lines, entries, id, feature) == Build.EntriesFrom(rest', entries, s, feature)
      && (updated.Ok? ==> Follows(Some(updated.value), s, feature, '#' !in lines[0], featureClean))
  {
    hide *;
    var rest := lines[1..];
    var (key, value) := SplitOnce(Statement(lines[0]), '=').value;
    SpelledFieldLine(lines);
    SpelledFieldStep(lines[0], value, rest, m, "id");
    KeyPrefix(lines[0], "id", value);
    BuildFieldStep(lines, entries, id, feature, "id");
    s := Some(Build.ParseStringValue(Trim(lines[0])[|"id"| + 3..]));
    var updated := SetField(m, "id", Trim(value));
    if updated.Ok? {
      FollowsId(m, updated.value, s, id, feature, '#' !in lines[0], idClean, featureClean);
    }
  }

  /** What it knows after a feature line. */
  lemma FeatureSeen(
      lines: seq<string>, m: RegistryModule, entries: seq<Build.Entry>,
      id: Option<string>, feature: Option<string>, idClean: bool, featureClean: bool)
    returns (s: Option<string>)
    requires lines != [] && Spelled(lines, true)
    requires Statement(lines[0]) != HEADER && Statement(lines[0]) != ""
    requires SplitOnce(Statement(lines[0]), '=').Some? && Trim(SplitOnce(Statement(lines[0]), '=').value.0) == "cargo_feature"
    requires Follows(Some(m), id, feature, idClean, featureClean)
    ensures var (key, value) := SplitOnce(Statement(lines[0]), '=').value;
      var (full, rest') := Gather(Trim(value), lines[1..]);
      var updated := SetField(m, Trim(key), full);
      && Build.EntriesFrom(lines, entries, id, feature) == Build.EntriesFrom(rest', entries, id, s)
      && (updated.Ok? ==> Follows(Some(updated.value), id, s, idClean, '#' !in lines[0]))
  {
    hide *;
    var rest := lines[1..];
    var (key, value) := SplitOnce(Statement(lines[0]), '=').value;
    SpelledFieldLine(lines);
    SpelledFieldStep(lines[0], value, rest, m, "cargo_feature");
    KeyPrefix(lines[0], "cargo_feature", value);
    BuildFieldStep(lines, entries, id, feature, "cargo_feature");
    s := Some(Build.ParseStringValue(Trim(lines[0])[|"cargo_feature"| + 3..]));
    var updated := SetField(m, "cargo_feature", Trim(value));
    if updated.Ok? {
      FollowsFeature(m, updated.value, s, id, feature, '#' !in lines[0], idClean, featureClean);
    }
  }

  /** Any other field, with the lines its value runs over, tells it nothing. */
  lemma OtherSeen(
      lines: seq<string>, m: RegistryModule, entries: seq<Build.Entry>,
      id: Option<string>, feature: Option<string>, idClean: bool, featureClean: bool)
    requires lines != [] && Spelled(lines, true)
    requires Statement(lines[0]) != HEADER && Statement(lines[0]) != ""
    requires SplitOnce(Statement(lines[0]), '=').Some? && Trim(SplitOnce(Statement(lines[0]), '=').value.0) !in ["id", "cargo_feature"]
    requires Follows(Some(m), id, feature, idClean, featureClean)
    ensures var (key, value) := SplitOnce(Statement(lines[0]), '=').value;
      var (full, rest') := Gather(Trim(value), lines[1..]);
      var updated := SetField(m, Trim(key), full);
      && Build.EntriesFrom(lines, entries, id, feature) == Build.EntriesFrom(rest', entries, id, feature)
      && (updated.Ok? ==> Follows(Some(updated.value), id, feature, idClean, featureClean))
  {
    hide *;
    var rest := lines[1..];
    var (key, value) := SplitOnce(Statement(lines[0]), '=').value;
    SpelledFieldLine(lines);
    var (full, rest') := Gather(Trim(value), rest);
    OtherFieldStep(m, Trim(key), full);
    InsignificantField(lines[0]);
    SkipLines(lines, 1, entries, id, feature);
    SkipLines(rest, |rest| - |rest'|, entries, id, feature);
    var updated := SetField(m, Trim(key), full);
    if updated.Ok? {
      FollowsKey(m, updated.value, id, feature, idClean, featureClean);
    }
  }

  lemma FollowsId(m: RegistryModule, m': RegistryModule, s: Option<string>, id: Option<string>, feature: Option<string>,
      clean: bool, idClean: bool, featureClean: bool)
    requires Follows(Some(m), id, feature, idClean, featureClean)
    requires Reads(m'.key.id, s, clean) && m'.key.cargoFeature == m.key.cargoFeature
    ensures Follows(Some(m'), s, feature, clean, featureClean)
  {
  }

  lemma FollowsFeature(m: RegistryModule, m': RegistryModule, s: Option<string>, id: Option<string>,
      feature: Option<string>, clean: bool, idClean: bool, featureClean: bool)
    requires Follows(Some(m), id, feature, idClean, featureClean)
    requires Reads(m'.key.cargoFeature, s, clean) && m'.key.id == m.key.id
    ensures Follows(Some(m'), id, s, idClean, clean)
  {
  }

  lemma FollowsKey(m: RegistryModule, m': RegistryModule, id: Option<string>, feature: Option<string>,
      idClean: bool, featureClean: bool)
    requires Follows(Some(m), id, feature, idClean, featureClean)
    requires m'.key.cargoFeature == m.key.cargoFeature && m'.key.id == m.key.id
    ensures Follows(Some(m'), id, feature, idClean, featureClean)
  {
  }

  lemma GatheredHasNoHash(value: string, rest: seq<string>)
    requires '#' !in value
    ensures '#' !in Gather(Trim(value), rest).0
  {
    hide Trim;
    TrimAvoids(value, '#');
  }

  lemma KeyPrefix(line: string, name: string, value: string)
    requires SpelledField(line, name + " = ", value)
    ensures name + " = " <= Trim(line)
  {
  }

  lemma OtherFieldStep(m: RegistryModule, name: string, value: string)
    requires name !in ["id", "cargo_feature"]
    ensures var r := SetField(m, name, value);
      r.Ok? ==> r.value.key.id == m.key.id && r.value.key.cargoFeature == m.key.cargoFeature
  {
    hide ParseString, ParseStringArray;
  }

  lemma InsignificantField(line: string)
    requires Statement(line) != HEADER && SplitOnce(Statement(line), '=').Some?
    requires Trim(SplitOnce(Statement(line), '=').value.0) !in ["id", "cargo_feature"]
    ensures !Significant(line)
  {
    hide Statement, Trim, SplitOnce;
    if Significant(line) {
      SignificantIsParsed(line);
    }
  }

  /**
   On every spelled text that the registry parser accepts, the two parsers
   find the same ids and features if and only if the text is uncommented
   where it matters.
   */
  lemma ParsersAgreeExactly(text: string)
    requires Spelled(Lines(text), false) && RegistryOf(text).Ok?
    ensures Build.EntriesOf(text) == Pairs(RegistryOf(text).value) <==> Uncommented(Lines(text), false, true, true)
  {
    AgreeFrom(Lines(text), [], None, [], None, None, true, true);
  }

  // ---------------------------------------------------------------------
  // Canonical text through both parsers
  // ---------------------------------------------------------------------

  const FIELD_NAMES := ["id", "cargo_feature", "kind", "provides", "requires"]

  predicate CanonicalValue(value: string) {
    Solid(value) && '#' !in value && '\n' !in value && Balanced(value)
  }

  lemma FieldNameShape(name: string)
    requires name in FIELD_NAMES
    ensures Solid(name) && '=' !in name && '#' !in name && '\n' !in name
  {
  }

  lemma FieldLineStatement(name: string, value: string)
    requires name in FIELD_NAMES && CanonicalValue(value)
    ensures Statement(FieldLine(name, value)) == FieldLine(name, value) != HEADER
    ensures SplitOnce(FieldLine(name, value), '=') == Some((name + " ", " " + value))
    ensures Trim(name + " ") == name && Trim(" " + value) == value
  {
    hide Trim, SplitOnce, IndexOf, Balanced;
    FieldNameShape(name);
    hide FIELD_NAMES;
    var line := FieldLine(name, value);
    IndexOfAbsent(line, '#');
    assert StripComment(line) == line;
    TrimSelf(line);
    assert line == (name + " ") + ['='] + (" " + value);
    SplitOnceAt(name + " ", '=', " " + value);
    TrimSolid("", name, " ");
    assert "" + name + " " == name + " ";
    TrimSolidEnd(" ", value);
    assert line[|line| - 1] == value[|value| - 1];
    assert line[|name| + 1] == '=';
    HeaderShape();
  }

  lemma CanonicalField(
      name: string, value: string, rest: seq<string>, modules: seq<RegistryModule>, m: RegistryModule)
    requires name in FIELD_NAMES && CanonicalValue(value)
    requires SetField(m, name, value).Ok?
    ensures ParseLines([FieldLine(name, value)] + rest, modules, Some(m))
         == ParseLines(rest, modules, Some(SetField(m, name, value).value))
  {
    hide Statement, Trim, SplitOnce, SetField, Balanced, ParseLines;
    var lines := [FieldLine(name, value)] + rest;
    FieldLineStatement(name, value);
    assert lines[1..] == rest;
    ParseFieldLine(lines, modules, m);
  }

  lemma ParseHeader(rest: seq<string>, modules: seq<RegistryModule>, current: Option<RegistryModule>)
    ensures ParseLines([HEADER] + rest, modules, current)
         == ParseLines(rest, Flush(modules, current), Some(EMPTY_MODULE))
  {
    hide Statement, SplitOnce, SetField, Gather;
    HeaderStatement();
    assert ([HEADER] + rest)[1..] == rest;
  }

  lemma HeaderStatement()
    ensures Statement(HEADER) == HEADER
  {
    hide Trim, IndexOf;
    HeaderShape();
    IndexOfAbsent(HEADER, '#');
    TrimSelf(HEADER);
    assert StripComment(HEADER) == HEADER;
  }

  lemma HeaderShape()
    ensures '#' !in HEADER && '=' !in HEADER && IsLine(HEADER) && Solid(HEADER)
  {
  }

  lemma ParseEmptyLine(rest: seq<string>, modules: seq<RegistryModule>, current: Option<RegistryModule>)
    ensures ParseLines([""] + rest, modules, current) == ParseLines(rest, modules, current)
  {
    assert StripComment("") == "" && Statement("") == "";
    assert ([""] + rest)[1..] == rest;
  }

  lemma QuotedIsCanonical(s: string)
    requires ScalarText(s)
    ensures CanonicalValue(Quoted(s))
  {
    QuotedIsFlat(s, '[', ']');
  }

  lemma ArrayTextIsCanonical(xs: seq<string>)
    requires forall s <- xs :: EntryText(s)
    ensures CanonicalValue(ArrayText(xs))
  {
    hide Balanced;
    ArrayTextIsBalanced(xs);
    ArrayTextAvoids(xs, '#');
    ArrayTextAvoids(xs, '\n');
  }

  /** Reading one printed module adds exactly that module. */
  lemma ParseModuleLines(
      m: RegistryModule, rest: seq<string>, modules: seq<RegistryModule>, current: Option<RegistryModule>)
    requires Printable(m)
    ensures ParseLines(ModuleLines(m) + rest, modules, current)
         == ParseLines(rest, Flush(modules, current), Some(m))
  {
    hide ParseLines, CanonicalValue, ParseString, ParseStringArray, Quoted, ArrayText;
    var done := Flush(modules, current);
    QuotedIsCanonical(m.key.id);
    QuotedIsCanonical(m.key.cargoFeature);
    QuotedIsCanonical(m.key.kind);
    ArrayTextIsCanonical(m.providesList);
    ArrayTextIsCanonical(m.requiresList);
    ParseQuotedSelf(m.key.id);
    ParseQuotedSelf(m.key.cargoFeature);
    ParseQuotedSelf(m.key.kind);
    ParseArrayText(m.providesList);
    ParseArrayText(m.requiresList);
    var r5 := [""] + rest;
    var r4 := [FieldLine("requires", ArrayText(m.requiresList))] + r5;
    var r3 := [FieldLine("provides", ArrayText(m.providesList))] + r4;
    var r2 := [FieldLine("kind", Quoted(m.key.kind))] + r3;
    var r1 := [FieldLine("cargo_feature", Quoted(m.key.cargoFeature))] + r2;
    var r0 := [FieldLine("id", Quoted(m.key.id))] + r1;
    var m1 := EMPTY_MODULE.(key := EMPTY_MODULE.key.(id := m.key.id));
    var m2 := m1.(key := m1.key.(cargoFeature := m.key.cargoFeature));
    var m3 := m2.(key := m.key);
    var m4 := m3.(providesList := m.providesList);
    calc {
      ParseLines(ModuleLines(m) + rest, modules, current);
      { assert ModuleLines(m) + rest == [HEADER] + r0; }
      ParseLines([HEADER] + r0, modules, current);
      { ParseHeader(r0, modules, current); }
      ParseLines(r0, done, Some(EMPTY_MODULE));
      { CanonicalField("id", Quoted(m.key.id), r1, done, EMPTY_MODULE); }
      ParseLines(r1, done, Some(m1));
      { CanonicalField("cargo_feature", Quoted(m.key.cargoFeature), r2, done, m1); }
      ParseLines(r2, done, Some(m2));
      { CanonicalField("kind", Quoted(m.key.kind), r3, done, m2); }
      ParseLines(r3, done, Some(m3));
      { CanonicalField("provides", ArrayText(m.providesList), r4, done, m3); }
      ParseLines(r4, done, Some(m4));
      { CanonicalField("requires", ArrayText(m.requiresList), r5, done, m4); }
      ParseLines(r5, done, Some(m));
      { ParseEmptyLine(rest, done, Some(m)); }
      ParseLines(rest, done, Some(m));
    }
  }

  lemma ParseQuotedSelf(s: string)
    ensures ParseString(Quoted(s)) == Ok(s)
  {
    hide ParseString, Quoted;
    ParsePiece(Quoted(s), s);
  }

  lemma {:induction false} ParseRegistryLines(
      ms: seq<RegistryModule>, modules: seq<RegistryModule>, current: Option<RegistryModule>)
    requires forall m <- ms :: Printable(m)
    ensures ParseLines(RegistryLines(ms), modules, current) == Ok(Flush(modules, current) + ms)
  {
    hide ParseLines, Printable, ModuleLines;
    if ms == [] {
      ParseNothing(modules, current);
      assert Flush(modules, current) + ms == Flush(modules, current);
    } else {
      var rest := RegistryLines(ms[1..]);
      ParseModuleLines(ms[0], rest, modules, current);
      ParseRegistryLines(ms[1..], Flush(modules, current), Some(ms[0]));
      assert ms == [ms[0]] + ms[1..];
      assert Flush(modules, current) + [ms[0]] + ms[1..] == Flush(modules, current) + ms;
    }
  }

  lemma ParseNothing(modules: seq<RegistryModule>, current: Option<RegistryModule>)
    ensures ParseLines([], modules, current) == Ok(Flush(modules, current))
  {
  }

  lemma FieldLineIsLine(name: string, value: string)
    requires '\n' !in name && CanonicalValue(value)
    ensures IsLine(FieldLine(name, value))
  {
    hide Balanced;
    var line := FieldLine(name, value);
    assert line[|line| - 1] == value[|value| - 1];
  }

  lemma ModuleLinesAreLines(m: RegistryModule)
    requires Printable(m)
    ensures forall i :: 0 <= i < |ModuleLines(m)| ==> IsLine(ModuleLines(m)[i])
  {
    hide CanonicalValue, Quoted, ArrayText, FieldLine, IsLine;
    HeaderShape();
    QuotedIsCanonical(m.key.id);
    QuotedIsCanonical(m.key.cargoFeature);
    QuotedIsCanonical(m.key.kind);
    ArrayTextIsCanonical(m.providesList);
    ArrayTextIsCanonical(m.requiresList);
    FieldLineIsLine("id", Quoted(m.key.id));
    FieldLineIsLine("cargo_feature", Quoted(m.key.cargoFeature));
    FieldLineIsLine("kind", Quoted(m.key.kind));
    FieldLineIsLine("provides", ArrayText(m.providesList));
    FieldLineIsLine("requires", ArrayText(m.requiresList));
    EmptyIsLine();
  }

  lemma EmptyIsLine()
    ensures IsLine("")
  {
  }

  lemma {:induction false} RegistryLinesAreLines(ms: seq<RegistryModule>)
    requires forall m <- ms :: Printable(m)
    ensures forall i :: 0 <= i < |RegistryLines(ms)| ==> IsLine(RegistryLines(ms)[i])
  {
    hide IsLine, ModuleLines, Printable;
    if ms != [] {
      ModuleLinesAreLines(ms[0]);
      RegistryLinesAreLines(ms[1..]);
    }
  }

  lemma LinesOfRegistryText(ms: seq<RegistryModule>)
    requires forall m <- ms :: Printable(m)
    ensures Lines(RegistryText(ms)) == RegistryLines(ms)
  {
    hide Printable, RegistryLines;
    RegistryLinesAreLines(ms);
    LinesUnlines(RegistryLines(ms), "");
    assert RegistryText(ms) + "" == RegistryText(ms);
    assert RegistryLines(ms) + Lines("") == RegistryLines(ms);
  }

  /** Printing then parsing a registry gives back every module with all its fields. */
  lemma RegistryRoundTrip(ms: seq<RegistryModule>)
    requires forall m <- ms :: Printable(m)
    ensures RegistryOf(RegistryText(ms)) == Ok(ms)
  {
    hide RegistryText, RegistryLines, ParseLines;
    LinesOfRegistryText(ms);
    ParseRegistryLines(ms, [], None);
    assert [] + ms == ms;
  }

  /** Spelled, and without comments in a section that had none so far. */
  predicate Plain(lines: seq<string>, started: bool) {
    Spelled(lines, started) && Uncommented(lines, started, true, true)
  }

  lemma PlainCanonicalField(name: string, value: string, rest: seq<string>)
    requires name in FIELD_NAMES && CanonicalValue(value) && Plain(rest, true)
    ensures Plain([FieldLine(name, value)] + rest, true)
  {
    hide Statement, Trim, SplitOnce, Balanced, Significant;
    var line := FieldLine(name, value);
    var lines := [line] + rest;
    FieldLineStatement(name, value);
    FieldLineTrim(name, value);
    assert lines[1..] == rest;
    assert "id" + " = " == Build.ID_KEY && "cargo_feature" + " = " == Build.FEATURE_KEY;
    assert name + " = " <= line;
  }

  lemma FieldLineTrim(name: string, value: string)
    requires name in FIELD_NAMES && CanonicalValue(value)
    ensures Trim(FieldLine(name, value)) == FieldLine(name, value) && '#' !in FieldLine(name, value)
  {
    hide Trim, Balanced;
    FieldNameShape(name);
    TrimSelf(FieldLine(name, value));
  }

  lemma PlainHeader(rest: seq<string>, started: bool)
    requires Plain(rest, true)
    ensures Plain([HEADER] + rest, started)
  {
    hide Statement, Trim, SplitOnce, Gather;
    HeaderStatement();
    HeaderShape();
    assert ([HEADER] + rest)[1..] == rest;
  }

  lemma PlainEmptyLine(rest: seq<string>)
    requires Plain(rest, true)
    ensures Plain([""] + rest, true)
  {
    assert StripComment("") == "" && Statement("") == "";
    assert ([""] + rest)[1..] == rest;
  }

  lemma PlainModuleLines(m: RegistryModule, rest: seq<string>, started: bool)
    requires Printable(m) && Plain(rest, true)
    ensures Plain(ModuleLines(m) + rest, started)
  {
    hide Plain, CanonicalValue, Quoted, ArrayText, FieldLine;
    QuotedIsCanonical(m.key.id);
    QuotedIsCanonical(m.key.cargoFeature);
    QuotedIsCanonical(m.key.kind);
    ArrayTextIsCanonical(m.providesList);
    ArrayTextIsCanonical(m.requiresList);
    var r5 := [""] + rest;
    var r4 := [FieldLine("requires", ArrayText(m.requiresList))] + r5;
    var r3 := [FieldLine("provides", ArrayText(m.providesList))] + r4;
    var r2 := [FieldLine("kind", Quoted(m.key.kind))] + r3;
    var r1 := [FieldLine("cargo_feature", Quoted(m.key.cargoFeature))] + r2;
    var r0 := [FieldLine("id", Quoted(m.key.id))] + r1;
    PlainEmptyLine(rest);
    PlainCanonicalField("requires", ArrayText(m.requiresList), r5);
    PlainCanonicalField("provides", ArrayText(m.providesList), r4);
    PlainCanonicalField("kind", Quoted(m.key.kind), r3);
    PlainCanonicalField("cargo_feature", Quoted(m.key.cargoFeature), r2);
    PlainCanonicalField("id", Quoted(m.key.id), r1);
    PlainHeader(r0, started);
    assert ModuleLines(m) + rest == [HEADER] + r0;
  }

  lemma {:induction false} PlainRegistryLines(ms: seq<RegistryModule>, started: bool)
    requires forall m <- ms :: Printable(m)
    ensures Plain(RegistryLines(ms), started)
  {
    hide Plain, Printable, ModuleLines;
    if ms == [] {
      PlainNothing(started);
    } else {
      PlainRegistryLines(ms[1..], true);
      PlainModuleLines(ms[0], RegistryLines(ms[1..]), started);
    }
  }

  lemma PlainNothing(started: bool)
    ensures Plain([], started)
  {
  }

  /** The build script reads the same ids and features, in order, from the same text. */
  lemma BuildRoundTrip(ms: seq<RegistryModule>)
    requires forall m <- ms :: Printable(m)
    ensures Build.EntriesOf(RegistryText(ms)) == Pairs(ms)
    ensures |Build.EntriesOf(RegistryText(ms))| == |ms|
    ensures forall i :: 0 <= i < |ms| ==>
      Build.EntriesOf(RegistryText(ms))[i] == (ms[i].key.id, ms[i].key.cargoFeature)
  {
    PairsHold(ms);
    hide RegistryText, RegistryLines, Spelled, Uncommented, RegistryOf, Build.EntriesOf, Pairs, Printable;
    LinesOfRegistryText(ms);
    PlainRegistryLines(ms, false);
    RegistryRoundTrip(ms);
    ParsersAgreeExactly(RegistryText(ms));
  }

  // ---------------------------------------------------------------------
  // Where the agreement stops
  // ---------------------------------------------------------------------

  /** The registry parser never sees a trailing comment ... */
  lemma CommentIsStripped(field: string, note: string)
    requires Solid(field) && '#' !in field
    ensures Statement(field + " #" + note) == field
  {
    hide Trim, IndexOf;
    assert field + " #" + note == (field + " ") + ['#'] + note;
    CutAt(field + " ", '#', note);
    TrimSolid("", field, " ");
    assert "" + field + " " == field + " ";
  }

  /** ... so with a comment behind it, whatever it says, the two parsers read different ids. */
  lemma CommentedIdIsReadDifferently(id: string, note: string)
    requires ScalarText(id)
    ensures var line := FieldLine("id", Quoted(id)) + " #" + note;
      && Statement(line) == FieldLine("id", Quoted(id)) && ParseString(Quoted(id)) == Ok(id)
      && Build.ID_KEY <= Trim(line) && Build.ParseStringValue(Trim(line)[|Build.ID_KEY|..]) != id
  {
    hide Trim, Statement, ParseString, Build.ParseStringValue;
    var field := FieldLine("id", Quoted(id));
    var line := field + " #" + note;
    QuotedIsCanonical(id);
    FieldLineTrim("id", Quoted(id));
    CommentIsStripped(field, note);
    ParseQuotedSelf(id);
    KeyOfCommented(field, note);
    assert line[|field| + 1] == '#';
    CommentReachesValue(line, "id");
  }

  lemma KeyOfCommented(field: string, note: string)
    requires Build.ID_KEY <= field && Solid(field)
    ensures Build.ID_KEY <= Trim(field + " #" + note)
  {
    hide TrimStart, TrimEnd;
    var line := field + " #" + note;
    assert "" + line == line;
    TrimStartBlank("", line);
    TrimEndBehind(field, " #" + note);
    assert field + (" #" + note) == line;
  }

  /** A comment behind a header hides it from the build script alone. */
  lemma CommentedHeaderIsMissed(note: string)
    ensures Statement(HEADER + " #" + note) == HEADER && !Significant(HEADER + " #" + note)
  {
    hide Trim, Statement;
    var line := HEADER + " #" + note;
    HeaderShape();
    CommentIsStripped(HEADER, note);
    assert line[|HEADER| + 1] == '#';
    HeaderReadExactly(line);
    HeaderIsNoField(line);
  }

  /** Outside the spelled texts: an id written without blanks is read by the registry parser alone. */
  lemma OtherSpellingIsMissed(id: string)
    requires ScalarText(id)
    ensures var line := "id=" + Quoted(id);
      SplitOnce(Statement(line), '=') == Some(("id", Quoted(id))) && ParseString(Quoted(id)) == Ok(id) && !Significant(line)
  {
    hide Trim, SplitOnce, ParseString;
    var line := "id=" + Quoted(id);
    ParseQuotedSelf(id);
    TrimSelf(line);
    IndexOfAbsent(line, '#');
    assert StripComment(line) == line;
    assert line == "id" + ['='] + Quoted(id);
    SplitOnceAt("id", '=', Quoted(id));
    assert line[2] == '=' && Build.ID_KEY[2] == ' ' && Build.FEATURE_KEY[0] == 'c' && HEADER[0] == '[';
  }
}
