/** Escaping of angle brackets and of error text, from the core utilities. */
module HtmlEscape {
  import opened Text

  const ALLOWED_HTML_TAGS := [
    "b", "i", "u", "s", "code", "pre", "a", "/b", "/i", "/u", "/s", "/code", "/pre", "/a"
  ]

  predicate IsAsciiAlphanumeric(c: char) {
    '0' <= c <= '9' || 'A' <= c <= 'Z' || 'a' <= c <= 'z'
  }

  function AlphanumericRun(s: string): (run: string)
    ensures run <= s && forall i :: 0 <= i < |run| ==> IsAsciiAlphanumeric(run[i])
    ensures |run| < |s| ==> !IsAsciiAlphanumeric(s[|run|])
  {
    if s != "" && IsAsciiAlphanumeric(s[0]) then
      assert AlphanumericRun(s[1..]) <= s[1..];
      [s[0]] + AlphanumericRun(s[1..])
    else ""
  }

  /** What follows a `<`, as far as a tag name can reach. */
  function TagName(s: string): (name: string)
    ensures name <= s
  {
    if s != "" && s[0] == '/' then
      assert AlphanumericRun(s[1..]) <= s[1..];
      "/" + AlphanumericRun(s[1..])
    else AlphanumericRun(s)
  }

  /** What one character, together with the tag name behind a `<`, is turned into. */
  function Piece(c: char, name: string, inTag: bool): string {
    if c == '<' then (if name in ALLOWED_HTML_TAGS then "<" + name else "&lt;" + name)
    else if c == '>' then (if inTag then ">" else "&gt;")
    else [c]
  }

  function TagAfter(c: char, name: string, inTag: bool): bool {
    if c == '<' then inTag || name in ALLOWED_HTML_TAGS else c != '>' && inTag
  }

  /** The tag name behind the character at the front, if it is a `<`. */
  function NameBehind(s: string): (name: string)
    requires s != ""
    ensures name <= s[1..]
  {
    if s[0] == '<' then TagName(s[1..]) else ""
  }

  function EscapeFrom(s: string, inTag: bool): string
    decreases |s|
  {
    if s == "" then ""
    else
      var name := NameBehind(s);
      Piece(s[0], name, inTag) + EscapeFrom(s[1 + |name|..], TagAfter(s[0], name, inTag))
  }

  function Escape(s: string): string {
    EscapeFrom(s, false)
  }

  lemma EscapeStep(text: string, i: nat, inTag: bool)
    requires i < |text|
    ensures var c, name := text[i], if text[i] == '<' then TagName(text[i + 1..]) else "";
      EscapeFrom(text[i..], inTag)
      == Piece(c, name, inTag) + EscapeFrom(text[i + 1 + |name|..], TagAfter(c, name, inTag))
  {
    hide TagName, Piece, TagAfter;
    var s := text[i..];
    assert s[0] == text[i] && s[1..] == text[i + 1..];
    var name := NameBehind(s);
    assert s[1 + |name|..] == text[i + 1 + |name|..];
    hide NameBehind;
  }

  lemma EscapeAtTag(s: string, inTag: bool)
    requires s != "" && s[0] == '<'
    ensures var name := TagName(s[1..]);
      var rest := s[1 + |name|..];
      EscapeFrom(s, inTag)
      == if name in ALLOWED_HTML_TAGS then "<" + name + EscapeFrom(rest, true)
         else "&lt;" + name + EscapeFrom(rest, inTag)
  {
    hide TagName, ALLOWED_HTML_TAGS;
  }

  lemma EscapeAtClose(s: string, inTag: bool)
    requires s != "" && s[0] == '>'
    ensures EscapeFrom(s, inTag) == (if inTag then ">" else "&gt;") + EscapeFrom(s[1..], false)
  {
  }

  lemma EscapeAtOther(s: string, inTag: bool)
    requires s != "" && s[0] != '<' && s[0] != '>'
    ensures EscapeFrom(s, inTag) == [s[0]] + EscapeFrom(s[1..], inTag)
  {
  }

  lemma EmptyIsNotATag()
    ensures "" !in ALLOWED_HTML_TAGS
  {
  }

  method EscapeAngleBrackets(text: string) returns (result: string)
    ensures result == Escape(text)
  {
    hide EscapeFrom, TagName, ALLOWED_HTML_TAGS;
    EmptyIsNotATag();
    result := "";
    var i := 0;
    var inTag := false;
    assert text[0..] == text;
    while i < |text|
      invariant 0 <= i <= |text|
      invariant result + EscapeFrom(text[i..], inTag) == Escape(text)
    {
      EscapeStep(text, i, inTag);
      var c := text[i];
      var piece := [c];
      i := i + 1;
      if c == '<' {
        var lookahead := ReadTagName(text, i);
        i := i + |lookahead|;
        if lookahead != "" && lookahead in ALLOWED_HTML_TAGS {
          piece := "<" + lookahead;
          inTag := true;
        } else {
          piece := "&lt;" + lookahead;
        }
      } else if c == '>' {
        if inTag {
          inTag := false;
        } else {
          piece := "&gt;";
        }
      }
      Associative(result, piece, EscapeFrom(text[i..], inTag));
      result := result + piece;
    }
    EscapeNothing(inTag);
    assert text[i..] == "" && result + "" == result;
  }

  lemma EscapeNothing(inTag: bool)
    ensures EscapeFrom("", inTag) == ""
  {
  }

  /** The lookahead: an optional slash, then letters and digits. */
  method ReadTagName(text: string, start: nat) returns (lookahead: string)
    requires start <= |text|
    ensures lookahead == TagName(text[start..])
  {
    hide AlphanumericRun, TagName;
    TagNameStart(text, start);
    if start < |text| && text[start] == '/' {
      var run := ReadRun(text, start + 1);
      lookahead := "/" + run;
    } else {
      lookahead := ReadRun(text, start);
    }
  }

  method ReadRun(text: string, start: nat) returns (run: string)
    requires start <= |text|
    ensures run == AlphanumericRun(text[start..])
  {
    hide AlphanumericRun;
    run := "";
    var i := start;
    while i < |text| && IsAsciiAlphanumeric(text[i])
      invariant start <= i <= |text|
      invariant run == text[start..i]
      invariant forall k :: start <= k < i ==> IsAsciiAlphanumeric(text[k])
    {
      run := run + [text[i]];
      i := i + 1;
    }
    assert text[start..] == run + text[i..];
    RunEnds(run, text[i..]);
  }

  lemma TagNameStart(text: string, start: nat)
    requires start <= |text|
    ensures TagName(text[start..])
         == if start < |text| && text[start] == '/' then "/" + AlphanumericRun(text[start + 1..])
            else AlphanumericRun(text[start..])
  {
    hide AlphanumericRun;
    assert start < |text| ==> text[start..][1..] == text[start + 1..];
  }

  // ---------------------------------------------------------------------
  // Safe text: what the escaper can produce
  // ---------------------------------------------------------------------

  /** Every raw `<` opens a whitelisted tag and every raw `>` closes the tag that is open. */
  predicate SafeFrom(s: string, inTag: bool) {
    s == "" ||
    if s[0] == '<' then TagName(s[1..]) in ALLOWED_HTML_TAGS && SafeFrom(s[1..], true)
    else if s[0] == '>' then inTag && SafeFrom(s[1..], false)
    else SafeFrom(s[1..], inTag)
  }

  predicate Flat(s: string) {
    '<' !in s && '>' !in s
  }

  lemma {:induction false} TagNameIsFlat(s: string)
    ensures Flat(TagName(s)) && '&' !in TagName(s)
  {
  }

  lemma {:induction false} SafeBehindFlat(p: string, s: string, inTag: bool)
    requires Flat(p)
    ensures SafeFrom(p + s, inTag) <==> SafeFrom(s, inTag)
  {
    hide TagName, ALLOWED_HTML_TAGS;
    if p == "" {
      assert p + s == s;
    } else {
      assert (p + s)[0] == p[0] && (p + s)[1..] == p[1..] + s;
      SafeBehindFlat(p[1..], s, inTag);
    }
  }

  lemma {:induction false} EscapeBehindFlat(p: string, s: string, inTag: bool)
    requires Flat(p)
    ensures EscapeFrom(p + s, inTag) == p + EscapeFrom(s, inTag)
  {
    hide EscapeFrom;
    if p == "" {
      assert p + s == s;
    } else {
      EscapeAtOther(p + s, inTag);
      Associative([p[0]], p[1..], EscapeFrom(s, inTag));
      assert [p[0]] + p[1..] == p;
      assert (p + s)[0] == p[0] && (p + s)[1..] == p[1..] + s;
      EscapeBehindFlat(p[1..], s, inTag);
    }
  }

  /** Escaping never puts a letter or digit in front. */
  lemma EscapeKeepsBoundary(s: string, inTag: bool)
    requires s != "" ==> !IsAsciiAlphanumeric(s[0])
    ensures var r := EscapeFrom(s, inTag); r != "" ==> !IsAsciiAlphanumeric(r[0])
  {
    hide EscapeFrom;
    if s == "" {
      EscapeNothing(inTag);
    } else if s[0] == '<' || s[0] == '>' {
      BracketGoesFirst(s, inTag);
    } else {
      EscapeAtOther(s, inTag);
    }
  }

  lemma {:induction false} RunEnds(run: string, s: string)
    requires forall i :: 0 <= i < |run| ==> IsAsciiAlphanumeric(run[i])
    requires s != "" ==> !IsAsciiAlphanumeric(s[0])
    ensures AlphanumericRun(run + s) == run
  {
    if run == "" {
      assert run + s == s;
    } else {
      assert (run + s)[0] == run[0] && (run + s)[1..] == run[1..] + s;
      RunEnds(run[1..], s);
    }
  }

  /** A tag name read once is read again in front of other text that does not extend it. */
  lemma TagNameAgain(s: string, rest: string)
    requires TagName(s) != "" && TagName(s) != "/"
    requires rest != "" ==> !IsAsciiAlphanumeric(rest[0])
    ensures TagName(TagName(s) + rest) == TagName(s)
  {
    var name := TagName(s);
    if s[0] == '/' {
      var run := name[1..];
      assert (name + rest)[1..] == run + rest;
      RunEnds(run, rest);
    } else {
      RunEnds(name, rest);
    }
  }

  lemma BareSlashIsNotATag()
    ensures "/" !in ALLOWED_HTML_TAGS
  {
  }

  lemma BoundaryAfterTag(s: string)
    ensures |TagName(s)| < |s| && TagName(s) != "" ==> TagName(s) == "/" || !IsAsciiAlphanumeric(s[|TagName(s)|])
  {
    hide AlphanumericRun;
    if s != "" && s[0] == '/' {
      var rest := s[1..];
      var run := AlphanumericRun(rest);
      assert |run| < |rest| ==> s[|run| + 1] == rest[|run|];
    }
  }

  /** The output is always safe. */
  lemma {:induction false} EscapeIsSafe(s: string, inTag: bool)
    ensures SafeFrom(EscapeFrom(s, inTag), inTag)
    decreases |s|
  {
    hide TagName, ALLOWED_HTML_TAGS, EscapeFrom, SafeFrom;
    if s == "" {
      EscapeNothing(inTag);
      NothingIsSafe(inTag);
    } else if s[0] == '<' {
      EscapeTagIsSafe(s, inTag);
    } else if s[0] == '>' {
      EscapeAtClose(s, inTag);
      EscapeIsSafe(s[1..], false);
      CloseIsSafe(EscapeFrom(s[1..], false), inTag);
    } else {
      EscapeAtOther(s, inTag);
      EscapeIsSafe(s[1..], inTag);
      SafeBehindFlat([s[0]], EscapeFrom(s[1..], inTag), inTag);
    }
  }

  lemma NothingIsSafe(inTag: bool)
    ensures SafeFrom("", inTag)
  {
  }

  lemma CloseIsSafe(escaped: string, inTag: bool)
    requires SafeFrom(escaped, false)
    ensures SafeFrom((if inTag then ">" else "&gt;") + escaped, inTag)
  {
    if inTag {
      assert (">" + escaped)[1..] == escaped;
    } else {
      SafeBehindFlat("&gt;", escaped, inTag);
    }
  }

  lemma {:induction false} EscapeTagIsSafe(s: string, inTag: bool)
    requires s != "" && s[0] == '<'
    ensures SafeFrom(EscapeFrom(s, inTag), inTag)
    decreases |s|, 0
  {
    hide TagName, ALLOWED_HTML_TAGS, EscapeFrom, SafeFrom;
    var name := TagName(s[1..]);
    var rest := s[1 + |name|..];
    EscapeAtTag(s, inTag);
    TagNameIsFlat(s[1..]);
    if name in ALLOWED_HTML_TAGS {
      EscapeIsSafe(rest, true);
      EmptyIsNotATag();
      BareSlashIsNotATag();
      BoundaryAfterTag(s[1..]);
      EscapeKeepsBoundary(rest, true);
      TagIsSafe(s[1..], EscapeFrom(rest, true), inTag);
    } else {
      EscapeIsSafe(rest, inTag);
      SafeBehindFlat("&lt;" + name, EscapeFrom(rest, inTag), inTag);
    }
  }

  lemma TagIsSafe(s: string, escaped: string, inTag: bool)
    requires TagName(s) in ALLOWED_HTML_TAGS && SafeFrom(escaped, true)
    requires escaped != "" ==> !IsAsciiAlphanumeric(escaped[0])
    ensures SafeFrom("<" + TagName(s) + escaped, inTag)
  {
    hide TagName, ALLOWED_HTML_TAGS;
    var name := TagName(s);
    var text := "<" + name + escaped;
    EmptyIsNotATag();
    BareSlashIsNotATag();
    TagNameAgain(s, escaped);
    TagNameIsFlat(s);
    SafeBehindFlat(name, escaped, true);
    assert text[1..] == name + escaped;
  }

  /** Safe text is left alone. */
  lemma {:induction false} SafeIsFixed(s: string, inTag: bool)
    requires SafeFrom(s, inTag)
    ensures EscapeFrom(s, inTag) == s
    decreases |s|
  {
    hide TagName, ALLOWED_HTML_TAGS, EscapeFrom;
    if s == "" {
      EscapeNothing(inTag);
    } else if s[0] == '<' {
      var name := TagName(s[1..]);
      var rest := s[1 + |name|..];
      EscapeAtTag(s, inTag);
      TagNameIsFlat(s[1..]);
      assert s[1..] == name + rest;
      SafeBehindFlat(name, rest, true);
      SafeIsFixed(rest, true);
      SplitAtTag(s);
    } else if s[0] == '>' {
      EscapeAtClose(s, inTag);
      SafeIsFixed(s[1..], false);
    } else {
      EscapeAtOther(s, inTag);
      SafeIsFixed(s[1..], inTag);
    }
  }

  /** The texts the escaper leaves alone are exactly the safe ones ... */
  lemma EscapeFixesExactlySafe(s: string)
    ensures Escape(s) == s <==> SafeFrom(s, false)
  {
    EscapeIsSafe(s, false);
    if SafeFrom(s, false) {
      SafeIsFixed(s, false);
    }
  }

  /** ... so escaping twice is escaping once. */
  lemma EscapeIdempotent(s: string)
    ensures Escape(Escape(s)) == Escape(s)
  {
    EscapeIsSafe(s, false);
    SafeIsFixed(Escape(s), false);
  }

  /** In safe text each bracket has its counterpart: tags open with `<`, and `>` only closes them. */
  lemma {:induction false} SafeBrackets(s: string, inTag: bool, i: nat)
    requires SafeFrom(s, inTag) && i < |s|
    ensures s[i] == '<' ==> TagName(s[i + 1..]) in ALLOWED_HTML_TAGS
    ensures s[i] == '>' ==> (inTag && '>' !in s[..i]) || exists j :: 0 <= j < i && s[j] == '<' && '>' !in s[j..i]
  {
    hide TagName, ALLOWED_HTML_TAGS;
    if i > 0 {
      var next := if s[0] == '<' then true else if s[0] == '>' then false else inTag;
      SafeBrackets(s[1..], next, i - 1);
      assert s[1..][i..] == s[i + 1..];
      if s[i] == '>' {
        if next && '>' !in s[1..][..i - 1] {
          assert s[0..i] == [s[0]] + s[1..][..i - 1];
          if s[0] == '<' {
            assert s[0] == '<' && '>' !in s[0..i];
          } else {
            assert s[..i] == s[0..i];
          }
        } else {
          var j :| 0 <= j < i - 1 && s[1..][j] == '<' && '>' !in s[1..][j..i - 1];
          assert s[1..][j..i - 1] == s[j + 1..i];
          assert s[j + 1] == '<' && '>' !in s[j + 1..i];
        }
      }
    }
  }

  // ---------------------------------------------------------------------
  // Which brackets stay, told from the text alone
  // ---------------------------------------------------------------------

  /** The text is this name, or goes on with something that is no ASCII letter or digit. */
  predicate NameEnds(name: string, s: string) {
    name <= s && (|s| == |name| || !('0' <= s[|name|] <= '9' || 'A' <= s[|name|] <= 'Z' || 'a' <= s[|name|] <= 'z'))
  }

  /** What stands behind a `<` makes it a tag. */
  predicate OpensTag(s: string) {
    exists tag <- ["b", "i", "u", "s", "code", "pre", "a"] :: NameEnds(tag, s) || NameEnds("/" + tag, s)
  }

  /** A `<` in front has opened a tag, and no `>` has come since. */
  predicate TagOpen(s: string, inTag: bool) {
    (inTag && '>' !in s) || exists j :: 0 <= j < |s| && s[j] == '<' && OpensTag(s[j + 1..]) && '>' !in s[j..]
  }

  lemma AllowedTags(name: string)
    ensures name in ALLOWED_HTML_TAGS
       <==> exists tag <- ["b", "i", "u", "s", "code", "pre", "a"] :: name == tag || name == "/" + tag
  {
    var tags := ["b", "i", "u", "s", "code", "pre", "a"];
    assert ALLOWED_HTML_TAGS == tags + ["/b", "/i", "/u", "/s", "/code", "/pre", "/a"];
    forall i | 0 <= i < 7
      ensures ALLOWED_HTML_TAGS[i] == tags[i] && ALLOWED_HTML_TAGS[7 + i] == "/" + tags[i]
    {
    }
    if name in ALLOWED_HTML_TAGS {
      var i :| 0 <= i < 14 && ALLOWED_HTML_TAGS[i] == name;
      var tag := if i < 7 then tags[i] else tags[i - 7];
      assert tag in tags && (name == tag || name == "/" + tag);
    }
    if tag :| tag in tags && (name == tag || name == "/" + tag) {
      var i :| 0 <= i < 7 && tags[i] == tag;
      assert ALLOWED_HTML_TAGS[i] == tag && ALLOWED_HTML_TAGS[7 + i] == "/" + tag;
    }
  }

  lemma TagIsRun(tag: string)
    requires tag in ["b", "i", "u", "s", "code", "pre", "a"]
    ensures tag != "" && forall c <- tag :: IsAsciiAlphanumeric(c)
  {
  }

  lemma RunIsName(run: string, rest: string)
    requires run != "" && forall c <- run :: IsAsciiAlphanumeric(c)
    requires rest != "" ==> !IsAsciiAlphanumeric(rest[0])
    ensures TagName(run + rest) == run && TagName("/" + run + rest) == "/" + run
  {
    hide AlphanumericRun;
    RunEnds(run, rest);
    assert (run + rest)[0] == run[0] && run[0] in run;
    assert ("/" + run + rest)[0] == '/' && ("/" + run + rest)[1..] == run + rest;
  }

  lemma NameIsRead(tag: string, s: string)
    requires tag in ["b", "i", "u", "s", "code", "pre", "a"]
    ensures NameEnds(tag, s) ==> TagName(s) == tag
    ensures NameEnds("/" + tag, s) ==> TagName(s) == "/" + tag
  {
    TagIsRun(tag);
    hide TagName;
    if NameEnds(tag, s) {
      assert s == tag + s[|tag|..];
      RunIsName(tag, s[|tag|..]);
    }
    var slashed := "/" + tag;
    if NameEnds(slashed, s) {
      assert s == slashed + s[|slashed|..];
      RunIsName(tag, s[|slashed|..]);
    }
  }

  /** The lookahead accepts exactly this. */
  lemma OpensTagExactly(s: string)
    ensures TagName(s) in ALLOWED_HTML_TAGS <==> OpensTag(s)
  {
    hide TagName, ALLOWED_HTML_TAGS;
    var name := TagName(s);
    AllowedTags(name);
    if name in ALLOWED_HTML_TAGS {
      EmptyIsNotATag();
      BareSlashIsNotATag();
      BoundaryAfterTag(s);
      assert NameEnds(name, s);
    }
    if OpensTag(s) {
      var tag :| tag in ["b", "i", "u", "s", "code", "pre", "a"] && (NameEnds(tag, s) || NameEnds("/" + tag, s));
      NameIsRead(tag, s);
    }
  }

  /** In every output, each raw `<` starts a tag and each raw `>` ends one. */
  lemma EscapedBrackets(s: string, i: nat)
    requires i < |Escape(s)|
    ensures Escape(s)[i] == '<' ==> OpensTag(Escape(s)[i + 1..])
    ensures Escape(s)[i] == '>' ==> exists j :: 0 <= j < i && Escape(s)[j] == '<' && '>' !in Escape(s)[j..i]
  {
    hide TagName, ALLOWED_HTML_TAGS, EscapeFrom, SafeFrom, OpensTag;
    EscapeIsSafe(s, false);
    SafeBrackets(Escape(s), false, i);
    OpensTagExactly(Escape(s)[i + 1..]);
  }

  /** Whether a tag is open behind the text. */
  function InTagAfter(s: string, inTag: bool): bool
    decreases |s|
  {
    if s == "" then inTag
    else
      var name := NameBehind(s);
      InTagAfter(s[1 + |name|..], TagAfter(s[0], name, inTag))
  }

  /** A tag name never reaches over a bracket. */
  lemma NameBeforeBracket(s: string, rest: string)
    requires s != "" && rest != "" && (rest[0] == '<' || rest[0] == '>')
    ensures NameBehind(s + rest) == NameBehind(s)
  {
    assert (s + rest)[0] == s[0] && (s + rest)[1..] == s[1..] + rest;
    if s[0] == '<' {
      TagNameBeforeBracket(s[1..], rest);
    }
  }

  lemma TagNameBeforeBracket(s: string, rest: string)
    requires rest != "" && (rest[0] == '<' || rest[0] == '>')
    ensures TagName(s + rest) == TagName(s)
  {
    if s != "" && s[0] == '/' {
      assert (s + rest)[1..] == s[1..] + rest;
      RunBeforeBracket(s[1..], rest);
    } else {
      RunBeforeBracket(s, rest);
    }
  }

  lemma RunBeforeBracket(s: string, rest: string)
    requires rest != "" && (rest[0] == '<' || rest[0] == '>')
    ensures AlphanumericRun(s + rest) == AlphanumericRun(s)
  {
    hide AlphanumericRun;
    var run := AlphanumericRun(s);
    assert s + rest == run + (s[|run|..] + rest);
    RunEnds(run, s[|run|..] + rest);
  }

  lemma EscapeHead(s: string, inTag: bool)
    requires s != ""
    ensures var name := NameBehind(s);
      var rest, next := s[1 + |name|..], TagAfter(s[0], name, inTag);
      && EscapeFrom(s, inTag) == Piece(s[0], name, inTag) + EscapeFrom(rest, next)
      && InTagAfter(s, inTag) == InTagAfter(rest, next)
  {
    hide NameBehind, Piece, TagAfter;
  }

  lemma NothingChangesTag(inTag: bool)
    ensures InTagAfter("", inTag) == inTag
  {
  }

  lemma {:induction false} EscapeSplits(s: string, rest: string, inTag: bool)
    requires rest != "" && (rest[0] == '<' || rest[0] == '>')
    ensures EscapeFrom(s + rest, inTag) == EscapeFrom(s, inTag) + EscapeFrom(rest, InTagAfter(s, inTag))
    decreases |s|
  {
    hide *;
    if s == "" {
      assert s + rest == rest;
      EscapeNothing(inTag);
      NothingChangesTag(inTag);
      assert "" + EscapeFrom(rest, inTag) == EscapeFrom(rest, inTag);
    } else {
      NameBeforeBracket(s, rest);
      var name := NameBehind(s);
      var tail, next := s[1 + |name|..], TagAfter(s[0], name, inTag);
      assert (s + rest)[0] == s[0] && (s + rest)[1 + |name|..] == tail + rest;
      EscapeHead(s, inTag);
      EscapeHead(s + rest, inTag);
      EscapeSplits(tail, rest, next);
      Associative(Piece(s[0], name, inTag), EscapeFrom(tail, next), EscapeFrom(rest, InTagAfter(tail, next)));
    }
  }

  lemma TagOpenStep(c: char, s: string, inTag: bool)
    ensures TagOpen([c] + s, inTag)
       <==> TagOpen(s, if c == '<' then inTag || OpensTag(s) else c != '>' && inTag)
  {
    hide OpensTag;
    var text := [c] + s;
    assert text[0..] == text && text[1..] == s;
    if TagOpen(text, inTag) && !(inTag && '>' !in text) {
      var j :| 0 <= j < |text| && text[j] == '<' && OpensTag(text[j + 1..]) && '>' !in text[j..];
      if j > 0 {
        assert text[j..] == s[j - 1..] && text[j + 1..] == s[j..];
        assert s[j - 1] == '<' && OpensTag(s[j - 1 + 1..]) && '>' !in s[j - 1..];
      }
    }
    if j :| 0 <= j < |s| && s[j] == '<' && OpensTag(s[j + 1..]) && '>' !in s[j..] {
      assert text[j + 1..] == s[j..] && text[j + 2..] == s[j + 1..];
      assert text[j + 1] == '<' && OpensTag(text[j + 1 + 1..]) && '>' !in text[j + 1..];
    }
  }

  lemma {:induction false} TagOpenBehindFlat(p: string, s: string, inTag: bool)
    requires Flat(p)
    ensures TagOpen(p + s, inTag) <==> TagOpen(s, inTag)
  {
    hide TagOpen, OpensTag;
    if p == "" {
      assert p + s == s;
    } else {
      assert p + s == [p[0]] + (p[1..] + s);
      TagOpenStep(p[0], p[1..] + s, inTag);
      TagOpenBehindFlat(p[1..], s, inTag);
    }
  }

  lemma {:induction false} InTagExactly(s: string, inTag: bool)
    ensures InTagAfter(s, inTag) <==> TagOpen(s, inTag)
    decreases |s|
  {
    hide TagName, ALLOWED_HTML_TAGS, TagOpen, OpensTag;
    if s == "" {
      NothingOpens(inTag);
    } else {
      var name := NameBehind(s);
      var rest := s[1 + |name|..];
      assert s == [s[0]] + s[1..] && s[1..] == name + rest;
      NameIsFlat(s);
      OpensTagExactly(s[1..]);
      TagOpenStep(s[0], s[1..], inTag);
      TagOpenBehindFlat(name, rest, TagAfter(s[0], name, inTag));
      InTagExactly(rest, TagAfter(s[0], name, inTag));
    }
  }

  lemma NothingOpens(inTag: bool)
    ensures TagOpen("", inTag) <==> inTag
  {
  }

  lemma NameIsFlat(s: string)
    requires s != ""
    ensures Flat(NameBehind(s))
  {
    if s[0] == '<' {
      TagNameIsFlat(s[1..]);
    }
  }

  /**
   Every bracket of the input: a `<` stays if and only if a whitelisted name
   stands behind it, a `>` if and only if such a tag is open in front of it;
   the text on either side is escaped on its own.
   */
  lemma BracketsStayExactly(before: string, after: string, inTag: bool)
    ensures EscapeFrom(before + ("<" + after), inTag)
         == EscapeFrom(before, inTag) + ((if OpensTag(after) then "<" else "&lt;")
            + EscapeFrom(after, OpensTag(after) || TagOpen(before, inTag)))
    ensures EscapeFrom(before + (">" + after), inTag)
         == EscapeFrom(before, inTag) + ((if TagOpen(before, inTag) then ">" else "&gt;") + EscapeFrom(after, false))
  {
    hide *;
    EscapeSplits(before, "<" + after, inTag);
    EscapeSplits(before, ">" + after, inTag);
    InTagExactly(before, inTag);
    assert (">" + after)[0] == '>' && (">" + after)[1..] == after;
    EscapeAtClose(">" + after, InTagAfter(before, inTag));
    EscapeAtLess(after, InTagAfter(before, inTag));
  }

  lemma EscapeAtLess(after: string, inTag: bool)
    ensures EscapeFrom("<" + after, inTag)
         == (if OpensTag(after) then "<" else "&lt;") + EscapeFrom(after, OpensTag(after) || inTag)
  {
    hide *;
    var text, name := "<" + after, TagName(after);
    var rest := after[|name|..];
    assert text[0] == '<' && text[1..] == after && text[1 + |name|..] == rest && after == name + rest;
    EscapeAtTag(text, inTag);
    OpensTagExactly(after);
    TagNameIsFlat(after);
    EscapeBehindFlat(name, rest, OpensTag(after) || inTag);
    Associative(if OpensTag(after) then "<" else "&lt;", name, EscapeFrom(rest, OpensTag(after) || inTag));
  }

  // ---------------------------------------------------------------------
  // Nothing but brackets is changed
  // ---------------------------------------------------------------------

  /** Replaces the two entities by the characters they stand for, from left to right. */
  function Decode(s: string): string
    decreases |s|
  {
    if s == "" then ""
    else if "&lt;" <= s then "<" + Decode(s[4..])
    else if "&gt;" <= s then ">" + Decode(s[4..])
    else [s[0]] + Decode(s[1..])
  }

  predicate Inert(p: string) {
    '<' !in p && '>' !in p && '&' !in p
  }

  lemma {:induction false} DecodeBehindInert(p: string, s: string)
    requires Inert(p)
    ensures Decode(p + s) == p + Decode(s)
  {
    hide Decode;
    if p == "" {
      assert p + s == s;
    } else {
      assert p + s == [p[0]] + (p[1..] + s);
      DecodeOther(p[0], p[1..] + s);
      DecodeBehindInert(p[1..], s);
      Associative([p[0]], p[1..], Decode(s));
      assert [p[0]] + p[1..] == p;
    }
  }

  lemma DecodeOther(c: char, rest: string)
    requires c != '&'
    ensures Decode([c] + rest) == [c] + Decode(rest)
  {
    assert ([c] + rest)[1..] == rest;
    assert ([c] + rest)[0] == c && "&lt;"[0] == '&' && "&gt;"[0] == '&';
  }

  lemma DecodeEntity(s: string)
    ensures Decode("&lt;" + s) == "<" + Decode(s)
    ensures Decode("&gt;" + s) == ">" + Decode(s)
    ensures Decode("<" + s) == "<" + Decode(s)
    ensures Decode(">" + s) == ">" + Decode(s)
  {
    assert ("&lt;" + s)[4..] == s && ("&gt;" + s)[4..] == s;
    assert ("&gt;" + s)[1] == 'g' && "&lt;"[1] == 'l';
    assert "&gt;" <= "&gt;" + s;
    assert ("<" + s)[1..] == s && (">" + s)[1..] == s;
  }

  /** Inert text is a prefix of the output exactly when it is one of the input. */
  lemma {:induction false} InertPrefix(p: string, s: string, inTag: bool)
    requires Inert(p)
    ensures p <= EscapeFrom(s, inTag) <==> p <= s
    decreases |p|
  {
    hide EscapeFrom;
    if s == "" {
      EscapeNothing(inTag);
    } else if p != "" && (s[0] == '<' || s[0] == '>') {
      BracketGoesFirst(s, inTag);
      assert p[0] in p;
    } else if p != "" && s != "" {
      var r := EscapeFrom(s[1..], inTag);
      InertPrefix(p[1..], s[1..], inTag);
      EscapeAtOther(s, inTag);
      PrefixStep(p, s[0], r);
      PrefixStep(p, s[0], s[1..]);
      assert s == [s[0]] + s[1..];
    }
  }

  lemma BracketGoesFirst(s: string, inTag: bool)
    requires s != "" && (s[0] == '<' || s[0] == '>')
    ensures EscapeFrom(s, inTag) != "" && EscapeFrom(s, inTag)[0] in "<>&"
  {
    hide TagName, ALLOWED_HTML_TAGS, EscapeFrom;
    if s[0] == '<' {
      EscapeAtTag(s, inTag);
    } else {
      EscapeAtClose(s, inTag);
    }
  }

  lemma PrefixStep(p: string, c: char, rest: string)
    requires p != ""
    ensures p <= [c] + rest <==> p[0] == c && p[1..] <= rest
  {
    var s := [c] + rest;
    assert s[1..] == rest;
    assert p == [p[0]] + p[1..];
    if p[0] == c && p[1..] <= rest {
      assert s[..|p|] == [c] + rest[..|p| - 1];
    }
  }

  /** Behind an ampersand, an entity is seen after escaping exactly when it was there before. */
  lemma EntityStays(s: string, inTag: bool)
    ensures "&lt;" <= "&" + EscapeFrom(s, inTag) <==> "&lt;" <= "&" + s
    ensures "&gt;" <= "&" + EscapeFrom(s, inTag) <==> "&gt;" <= "&" + s
  {
    hide EscapeFrom;
    assert "&lt;"[1..] == "lt;" && "&gt;"[1..] == "gt;";
    InertPrefix("lt;", s, inTag);
    InertPrefix("gt;", s, inTag);
    PrefixStep("&lt;", '&', EscapeFrom(s, inTag));
    PrefixStep("&gt;", '&', EscapeFrom(s, inTag));
    PrefixStep("&lt;", '&', s);
    PrefixStep("&gt;", '&', s);
  }

  lemma DecodeEscapedTag(name: string, rest: string, escaped: string)
    requires Inert(name) && Decode(escaped) == Decode(rest)
    ensures Decode("<" + name + escaped) == Decode("<" + name + rest)
    ensures Decode("&lt;" + name + escaped) == Decode("<" + name + rest)
  {
    hide Decode;
    DecodeBehindInert(name, rest);
    DecodeBehindInert(name, escaped);
    DecodeEntity(name + rest);
    DecodeEntity(name + escaped);
    Associative("<", name, rest);
    Associative("<", name, escaped);
    Associative("&lt;", name, escaped);
  }

  lemma SplitAtTag(s: string)
    requires s != "" && s[0] == '<'
    ensures s == "<" + TagName(s[1..]) + s[1 + |TagName(s[1..])|..]
  {
    hide TagName;
    assert s[1..] == TagName(s[1..]) + s[1 + |TagName(s[1..])|..];
  }

  /** Decoding sees the same text behind the escaper as in front of it. */
  lemma {:induction false} DecodeEscaped(s: string, inTag: bool)
    ensures Decode(EscapeFrom(s, inTag)) == Decode(s)
    decreases |s|
  {
    hide TagName, ALLOWED_HTML_TAGS, Decode, EscapeFrom;
    if s == "" {
      EscapeNothing(inTag);
    } else if s[0] == '<' {
      EscapeAtTag(s, inTag);
      var name := TagName(s[1..]);
      var rest := s[1 + |name|..];
      var inTag' := if name in ALLOWED_HTML_TAGS then true else inTag;
      TagNameIsFlat(s[1..]);
      SplitAtTag(s);
      DecodeEscaped(rest, inTag');
      DecodeEscapedTag(name, rest, EscapeFrom(rest, inTag'));
    } else if s[0] == '>' {
      EscapeAtClose(s, inTag);
      DecodeEscaped(s[1..], false);
      DecodeEntity(s[1..]);
      DecodeEntity(EscapeFrom(s[1..], false));
      assert s == ">" + s[1..];
    } else {
      DecodeEscapedOther(s, inTag);
    }
  }

  lemma {:induction false} DecodeEscapedOther(s: string, inTag: bool)
    requires s != "" && s[0] != '<' && s[0] != '>'
    ensures Decode(EscapeFrom(s, inTag)) == Decode(s)
    decreases |s|, 2
  {
    hide Decode;
    var c, rest := s[0], s[1..];
    var r := EscapeFrom(rest, inTag);
    EscapeAtOther(s, inTag);
    hide EscapeFrom;
    assert s == [c] + rest;
    if c != '&' {
      DecodeEscaped(rest, inTag);
      DecodeOther(c, rest);
      DecodeOther(c, r);
    } else {
      assert [c] == "&";
      DecodeEscapedAmpersand(rest, inTag);
    }
  }

  lemma {:induction false} DecodeEscapedAmpersand(rest: string, inTag: bool)
    ensures Decode("&" + EscapeFrom(rest, inTag)) == Decode("&" + rest)
    decreases |rest| + 1, 1
  {
    hide Decode, EscapeFrom;
    EntityStays(rest, inTag);
    if "&lt;" <= "&" + rest {
      DecodeEscapedEntity("lt;", rest, inTag);
    } else if "&gt;" <= "&" + rest {
      DecodeEscapedEntity("gt;", rest, inTag);
    } else {
      DecodeEscaped(rest, inTag);
      DecodeAmpersand(rest);
      DecodeAmpersand(EscapeFrom(rest, inTag));
    }
  }

  lemma DecodeAmpersand(s: string)
    requires !("&lt;" <= "&" + s) && !("&gt;" <= "&" + s)
    ensures Decode("&" + s) == "&" + Decode(s)
  {
    assert ("&" + s)[1..] == s;
  }

  lemma {:induction false} DecodeEscapedEntity(name: string, s: string, inTag: bool)
    requires (name == "lt;" || name == "gt;") && "&" + name <= "&" + s
    ensures Decode("&" + EscapeFrom(s, inTag)) == Decode("&" + s)
    decreases |s|, 1
  {
    hide Decode, EscapeFrom;
    PrefixStep("&" + name, '&', s);
    assert ("&" + name)[1..] == name;
    var rest := s[3..];
    assert s == name + rest;
    EscapeBehindFlat(name, rest, inTag);
    DecodeEscaped(rest, inTag);
    DecodeEntity(rest);
    DecodeEntity(EscapeFrom(rest, inTag));
    assert "&" + (name + rest) == "&" + name + rest;
    assert "&" + (name + EscapeFrom(rest, inTag)) == "&" + name + EscapeFrom(rest, inTag);
    assert "&" + "lt;" == "&lt;" && "&" + "gt;" == "&gt;";
  }

  ghost predicate HoldsEntity(s: string) {
    Occurs(s, "&lt;") || Occurs(s, "&gt;")
  }

  lemma DecodeShrinks(s: string)
    ensures |Decode(s)| <= |s|
    decreases |s|
  {
  }

  lemma ShiftedSlice(c: char, rest: string, from: nat, to: nat)
    requires from <= to <= |rest|
    ensures ([c] + rest)[from + 1..to + 1] == rest[from..to]
  {
  }

  lemma OccursBehind(c: char, rest: string, pattern: string)
    requires pattern != "" && !(pattern <= [c] + rest)
    ensures Occurs([c] + rest, pattern) <==> Occurs(rest, pattern)
  {
    var s := [c] + rest;
    if Occurs(s, pattern) {
      var at: nat :| OccursAt(s, pattern, at);
      assert |pattern| <= |s| ==> s[0..|pattern|] != pattern;
      assert at > 0;
      ShiftedSlice(c, rest, at - 1, at - 1 + |pattern|);
      assert OccursAt(rest, pattern, at - 1);
    }
    if Occurs(rest, pattern) {
      var at: nat :| OccursAt(rest, pattern, at);
      ShiftedSlice(c, rest, at, at + |pattern|);
      assert OccursAt(s, pattern, at + 1);
    }
  }

  lemma {:induction false} DecodeFixesPlain(s: string)
    ensures Decode(s) == s <==> !HoldsEntity(s)
    decreases |s|
  {
    hide Occurs;
    DecodeShrinks(s);
    if s == "" {
      NothingOccurs();
    } else if "&lt;" <= s {
      OccursInFront(s, "&lt;");
      DecodeShrinks(s[4..]);
    } else if "&gt;" <= s {
      OccursInFront(s, "&gt;");
      DecodeShrinks(s[4..]);
    } else {
      assert s == [s[0]] + s[1..];
      OccursBehind(s[0], s[1..], "&lt;");
      OccursBehind(s[0], s[1..], "&gt;");
      DecodeFixesPlain(s[1..]);
      assert Decode(s) == [s[0]] + Decode(s[1..]);
      assert Decode(s)[1..] == Decode(s[1..]);
    }
  }

  lemma NothingOccurs()
    ensures !Occurs("", "&lt;") && !Occurs("", "&gt;")
  {
  }

  lemma OccursInFront(s: string, pattern: string)
    requires pattern <= s
    ensures Occurs(s, pattern)
  {
    assert OccursAt(s, pattern, 0);
  }

  /** Decoding undoes escaping if and only if the input held no such entity already. */
  lemma DecodeUndoesEscape(s: string)
    ensures Decode(Escape(s)) == s <==> !HoldsEntity(s)
  {
    DecodeEscaped(s, false);
    DecodeFixesPlain(s);
  }

  // ---------------------------------------------------------------------
  // sanitize_html_error
  // ---------------------------------------------------------------------

  /** `str::replace` of a single character. */
  function ReplaceChar(s: string, c: char, replacement: string): string {
    if s == "" then ""
    else (if s[0] == c then replacement else [s[0]]) + ReplaceChar(s[1..], c, replacement)
  }

  function SanitizeHtmlError(text: string): string {
    ReplaceChar(ReplaceChar(ReplaceChar(ReplaceChar(text, '&', "&amp;"), '<', "&lt;"), '>', "&gt;"), '"', "&quot;")
  }

  function Entity(c: char): string {
    match c
    case '&' => "&amp;"
    case '<' => "&lt;"
    case '>' => "&gt;"
    case '"' => "&quot;"
    case _ => [c]
  }

  /** Reads the four entities back in one pass from left to right. */
  function Unescape(s: string): string
    decreases |s|
  {
    if s == "" then ""
    else if "&amp;" <= s then "&" + Unescape(s[5..])
    else if "&lt;" <= s then "<" + Unescape(s[4..])
    else if "&gt;" <= s then ">" + Unescape(s[4..])
    else if "&quot;" <= s then "\"" + Unescape(s[6..])
    else [s[0]] + Unescape(s[1..])
  }

  lemma {:induction false} ReplaceAppend(a: string, b: string, c: char, replacement: string)
    ensures ReplaceChar(a + b, c, replacement) == ReplaceChar(a, c, replacement) + ReplaceChar(b, c, replacement)
  {
    if a == "" {
      assert a + b == b;
    } else {
      assert (a + b)[0] == a[0] && (a + b)[1..] == a[1..] + b;
      ReplaceAppend(a[1..], b, c, replacement);
      Associative(if a[0] == c then replacement else [a[0]],
        ReplaceChar(a[1..], c, replacement), ReplaceChar(b, c, replacement));
    }
  }

  lemma {:induction false} ReplaceAbsent(s: string, c: char, replacement: string)
    requires c !in s
    ensures ReplaceChar(s, c, replacement) == s
  {
    if s != "" {
      ReplaceAbsent(s[1..], c, replacement);
    }
  }

  lemma ReplaceOne(c: char, replacement: string)
    ensures ReplaceChar([c], c, replacement) == replacement
  {
    assert [c][1..] == "";
    assert replacement + "" == replacement;
  }

  /** The four passes replace one character at a time: no pass touches what an earlier one wrote. */
  lemma SanitizeOne(c: char)
    ensures SanitizeHtmlError([c]) == Entity(c)
  {
    hide ReplaceChar;
    var s := [c];
    if c == '&' {
      ReplaceOne(c, "&amp;");
      ReplaceAbsent("&amp;", '<', "&lt;");
      ReplaceAbsent("&amp;", '>', "&gt;");
      ReplaceAbsent("&amp;", '"', "&quot;");
    } else if c == '<' {
      ReplaceAbsent(s, '&', "&amp;");
      ReplaceOne(c, "&lt;");
      ReplaceAbsent("&lt;", '>', "&gt;");
      ReplaceAbsent("&lt;", '"', "&quot;");
    } else if c == '>' {
      ReplaceAbsent(s, '&', "&amp;");
      ReplaceAbsent(s, '<', "&lt;");
      ReplaceOne(c, "&gt;");
      ReplaceAbsent("&gt;", '"', "&quot;");
    } else {
      ReplaceAbsent(s, '&', "&amp;");
      ReplaceAbsent(s, '<', "&lt;");
      ReplaceAbsent(s, '>', "&gt;");
      if c == '"' {
        ReplaceOne(c, "&quot;");
      } else {
        ReplaceAbsent(s, '"', "&quot;");
      }
    }
  }

  lemma SanitizeStep(c: char, rest: string)
    ensures SanitizeHtmlError([c] + rest) == Entity(c) + SanitizeHtmlError(rest)
  {
    hide ReplaceChar, Entity;
    SanitizeOne(c);
    var a1, b1 := ReplaceChar([c], '&', "&amp;"), ReplaceChar(rest, '&', "&amp;");
    ReplaceAppend([c], rest, '&', "&amp;");
    var a2, b2 := ReplaceChar(a1, '<', "&lt;"), ReplaceChar(b1, '<', "&lt;");
    ReplaceAppend(a1, b1, '<', "&lt;");
    var a3, b3 := ReplaceChar(a2, '>', "&gt;"), ReplaceChar(b2, '>', "&gt;");
    ReplaceAppend(a2, b2, '>', "&gt;");
    ReplaceAppend(a3, b3, '"', "&quot;");
  }

  lemma UnescapeEntity(c: char, rest: string)
    ensures Unescape(Entity(c) + rest) == [c] + Unescape(rest)
  {
    var s := Entity(c) + rest;
    match c {
      case '&' => assert s[5..] == rest;
      case '<' => assert s[4..] == rest && s[1] == 'l';
      case '>' => assert s[4..] == rest && s[1] == 'g';
      case '"' => assert s[6..] == rest && s[1] == 'q';
      case _ => assert s[1..] == rest && s[0] == c;
    }
  }

  /** Sanitized text can always be read back, and holds no raw markup character. */
  lemma {:induction false} SanitizeRoundTrip(text: string)
    ensures Unescape(SanitizeHtmlError(text)) == text
    ensures forall c <- SanitizeHtmlError(text) :: c !in "<>\""
  {
    hide SanitizeHtmlError, Unescape, Entity;
    if text == "" {
      SanitizeNothing();
    } else {
      var c, rest := text[0], text[1..];
      SanitizeRoundTrip(rest);
      SanitizeStep(c, rest);
      UnescapeEntity(c, SanitizeHtmlError(rest));
      EntityIsRawFree(c);
      assert text == [c] + rest;
    }
  }

  lemma SanitizeNothing()
    ensures SanitizeHtmlError("") == "" && Unescape("") == ""
  {
  }

  lemma EntityIsRawFree(c: char)
    ensures forall d <- Entity(c) :: d !in "<>\""
  {
  }
}
