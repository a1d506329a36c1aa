/**
 The string operations of the Rust standard library that the scanners use,
 on text as a sequence of Unicode scalar values.
 */
module Text {
  import opened Prelude

  // ---------------------------------------------------------------------
  // Characters and substrings
  // ---------------------------------------------------------------------

  /** `char::is_whitespace`: the Unicode White_Space property. */
  predicate IsWhitespace(c: char) {
    var n := c as int;
    || 0x9 <= n <= 0xD || n == 0x20 || n == 0x85 || n == 0xA0 || n == 0x1680
    || 0x2000 <= n <= 0x200A || n == 0x2028 || n == 0x2029 || n == 0x202F
    || n == 0x205F || n == 0x3000
  }

  predicate OccursAt(s: string, pattern: string, at: nat) {
    at + |pattern| <= |s| && s[at..at + |pattern|] == pattern
  }

  ghost predicate Occurs(s: string, pattern: string) {
    exists at: nat :: OccursAt(s, pattern, at)
  }

  lemma Associative(a: string, b: string, c: string)
    ensures (a + b) + c == a + (b + c)
  {
  }

  /** `str::find` with a string pattern. */
  function Find(s: string, pattern: string): (r: Option<nat>)
    ensures r.Some? ==> OccursAt(s, pattern, r.value)
    ensures r.Some? ==> forall k: nat :: k < r.value ==> !OccursAt(s, pattern, k)
    ensures r.None? ==> !Occurs(s, pattern)
  {
    FindFrom(s, pattern, 0)
  }

  function FindFrom(s: string, pattern: string, from: nat): (r: Option<nat>)
    requires from <= |s|
    ensures r.Some? ==> from <= r.value && OccursAt(s, pattern, r.value)
    ensures r.Some? ==> forall k: nat :: from <= k < r.value ==> !OccursAt(s, pattern, k)
    ensures r.None? ==> forall k: nat :: from <= k ==> !OccursAt(s, pattern, k)
    decreases |s| - from
  {
    if OccursAt(s, pattern, from) then Some(from)
    else if from == |s| then None
    else FindFrom(s, pattern, from + 1)
  }

  /** The position of the first `c`, or the length when there is none. */
  function IndexOf(s: string, c: char): (i: nat)
    ensures i <= |s| && c !in s[..i]
    ensures i < |s| ==> s[i] == c
    ensures i < |s| <==> c in s
  {
    if s == "" || s[0] == c then 0 else 1 + IndexOf(s[1..], c)
  }

  lemma IndexOfSplit(before: string, c: char, after: string)
    requires c !in before
    ensures IndexOf(before + [c] + after, c) == |before|
  {
    var s := before + [c] + after;
    if before != "" {
      assert s[1..] == before[1..] + [c] + after;
      IndexOfSplit(before[1..], c, after);
    }
  }

  lemma CutAt(before: string, c: char, after: string)
    requires c !in before
    ensures var s := before + [c] + after;
      IndexOf(s, c) == |before| && s[..|before|] == before && s[|before| + 1..] == after
  {
    IndexOfSplit(before, c, after);
  }

  lemma IndexOfAbsent(s: string, c: char)
    requires c !in s
    ensures IndexOf(s, c) == |s|
  {
  }

  // ---------------------------------------------------------------------
  // Prefixes, suffixes and splitting
  // ---------------------------------------------------------------------

  predicate StartsWith(s: string, prefix: string) {
    prefix <= s
  }

  function StripPrefix(s: string, prefix: string): Option<string> {
    if prefix <= s then Some(s[|prefix|..]) else None
  }

  function StripSuffix(s: string, suffix: string): Option<string> {
    if |suffix| <= |s| && s[|s| - |suffix|..] == suffix then Some(s[..|s| - |suffix|]) else None
  }

  /** `str::split_once` with a character. */
  function SplitOnce(s: string, c: char): (r: Option<(string, string)>)
    ensures r.Some? ==> s == r.value.0 + [c] + r.value.1 && c !in r.value.0
    ensures r.None? <==> c !in s
  {
    var i := IndexOf(s, c);
    if i == |s| then None else Some((s[..i], s[i + 1..]))
  }

  lemma SplitOnceAt(before: string, c: char, after: string)
    requires c !in before
    ensures SplitOnce(before + [c] + after, c) == Some((before, after))
  {
    CutAt(before, c, after);
  }

  /** `str::split` with a character: always at least one piece. */
  function Split(s: string, c: char): (pieces: seq<string>)
    ensures |pieces| >= 1
    decreases |s|
  {
    var i := IndexOf(s, c);
    if i == |s| then [s] else [s[..i]] + Split(s[i + 1..], c)
  }

  function Join(pieces: seq<string>, separator: string): string {
    if pieces == [] then ""
    else if |pieces| == 1 then pieces[0]
    else pieces[0] + separator + Join(pieces[1..], separator)
  }

  lemma SplitStep(piece: string, c: char, rest: string)
    requires c !in piece
    ensures Split(piece + [c] + rest, c) == [piece] + Split(rest, c)
  {
    hide IndexOf;
    CutAt(piece, c, rest);
  }

  /** Text without the separator in front goes to the first piece. */
  lemma SplitPrefix(prefix: string, s: string, c: char)
    requires c !in prefix
    ensures Split(prefix + s, c) == [prefix + Split(s, c)[0]] + Split(s, c)[1..]
  {
    hide IndexOf;
    var i := IndexOf(s, c);
    if i == |s| {
      IndexOfAbsent(prefix + s, c);
    } else {
      var before, after := s[..i], s[i + 1..];
      assert prefix + s == (prefix + before) + [c] + after;
      CutAt(prefix + before, c, after);
    }
  }

  /** The pieces that come back when `pieces` are joined with `c` and `tail`. */
  function Padded(pieces: seq<string>, tail: string): (padded: seq<string>)
    requires pieces != []
    ensures |padded| == |pieces| && padded[0] == pieces[0]
    ensures forall i :: 1 <= i < |pieces| ==> padded[i] == tail + pieces[i]
  {
    [pieces[0]] + seq(|pieces| - 1, i requires 0 <= i < |pieces| - 1 => tail + pieces[i + 1])
  }

  /** Splitting undoes joining when no piece holds the separator. */
  lemma {:induction false} SplitJoin(pieces: seq<string>, c: char, tail: string)
    requires pieces != []
    requires forall i :: 0 <= i < |pieces| ==> c !in pieces[i]
    requires c !in tail
    ensures Split(Join(pieces, [c] + tail), c) == Padded(pieces, tail)
  {
    var joined := Join(pieces, [c] + tail);
    if |pieces| == 1 {
      IndexOfAbsent(pieces[0], c);
    } else {
      hide Split;
      var first, others := pieces[0], pieces[1..];
      var rest := Join(others, [c] + tail);
      calc {
        Split(joined, c);
        { assert joined == first + [c] + (tail + rest); }
        Split(first + [c] + (tail + rest), c);
        { SplitStep(first, c, tail + rest); }
        [first] + Split(tail + rest, c);
        { SplitPrefix(tail, rest, c); SplitJoin(others, c, tail); }
        [first] + ([tail + others[0]] + Padded(others, tail)[1..]);
        Padded(pieces, tail);
      }
    }
  }

  // ---------------------------------------------------------------------
  // Trimming
  // ---------------------------------------------------------------------

  function TrimStart(s: string): (r: string)
    ensures |r| <= |s| && r == s[|s| - |r|..]
    ensures r != "" ==> !IsWhitespace(r[0])
    ensures forall k :: 0 <= k < |s| - |r| ==> IsWhitespace(s[k])
  {
    if s != "" && IsWhitespace(s[0]) then TrimStart(s[1..]) else s
  }

  function TrimEnd(s: string): (r: string)
    ensures r <= s
    ensures r != "" ==> !IsWhitespace(r[|r| - 1])
    ensures forall k :: |r| <= k < |s| ==> IsWhitespace(s[k])
  {
    if s != "" && IsWhitespace(s[|s| - 1]) then TrimEnd(s[..|s| - 1]) else s
  }

  function Trim(s: string): (r: string)
    ensures r != "" ==> !IsWhitespace(r[0]) && !IsWhitespace(r[|r| - 1])
  {
    var t := TrimStart(s);
    TrimEnd(t)
  }

  lemma TrimAvoids(s: string, c: char)
    requires c !in s
    ensures c !in Trim(s)
  {
    hide TrimStart, TrimEnd;
    var t, r := TrimStart(s), Trim(s);
    forall i | 0 <= i < |r|
      ensures r[i] != c
    {
      assert r[i] == t[i] == s[|s| - |t| + i];
    }
  }

  /** Text that begins and ends in something visible. */
  predicate Solid(s: string) {
    s != "" && !IsWhitespace(s[0]) && !IsWhitespace(s[|s| - 1])
  }

  predicate Blank(s: string) {
    forall c <- s :: IsWhitespace(c)
  }

  lemma TrimSolid(before: string, s: string, after: string)
    requires Blank(before) && Blank(after) && Solid(s)
    ensures Trim(before + s + after) == s
  {
    hide TrimStart, TrimEnd;
    TrimStartBlank(before, s + after);
    assert before + s + after == before + (s + after);
    TrimEndBlank(s, after);
  }

  lemma TrimStartBlank(before: string, s: string)
    requires Blank(before) && s != "" && !IsWhitespace(s[0])
    ensures TrimStart(before + s) == s
  {
    if before == "" {
      assert before + s == s;
    } else {
      assert (before + s)[1..] == before[1..] + s;
      TrimStartBlank(before[1..], s);
    }
  }

  lemma TrimEndBlank(s: string, after: string)
    requires Blank(after) && (s != "" ==> !IsWhitespace(s[|s| - 1]))
    ensures TrimEnd(s + after) == s
  {
    if after == "" {
      assert s + after == s;
    } else {
      var last := |after| - 1;
      assert (s + after)[..|s| + last] == s + after[..last];
      TrimEndBlank(s, after[..last]);
    }
  }

  lemma TrimEmpty()
    ensures Trim("") == ""
  {
  }

  lemma TrimSelf(s: string)
    requires s == "" || Solid(s)
    ensures Trim(s) == s
  {
    hide Trim;
    if s == "" {
      TrimEmpty();
    } else {
      TrimSolid("", s, "");
      assert "" + s + "" == s;
    }
  }

  lemma TrimIdempotent(s: string)
    ensures Trim(Trim(s)) == Trim(s)
  {
    TrimSelf(Trim(s));
  }

  // ---------------------------------------------------------------------
  // Lines
  // ---------------------------------------------------------------------

  function StripCarriageReturn(line: string): string {
    if line != "" && line[|line| - 1] == '\r' then line[..|line| - 1] else line
  }

  /** `str::lines`: a carriage return is dropped only in front of a line feed. */
  function Lines(s: string): seq<string>
    decreases |s|
  {
    var i := IndexOf(s, '\n');
    if s == "" then []
    else if i == |s| then [s]
    else [StripCarriageReturn(s[..i])] + Lines(s[i + 1..])
  }

  lemma LinesCut(line: string, rest: string)
    requires '\n' !in line
    ensures Lines(line + ['\n'] + rest) == [StripCarriageReturn(line)] + Lines(rest)
  {
    hide IndexOf, StripCarriageReturn;
    CutAt(line, '\n', rest);
  }

  /** Both line endings end a line, and neither belongs to it. */
  lemma LineEndings(line: string, rest: string)
    requires IsLine(line)
    ensures Lines(line + "\n" + rest) == [line] + Lines(rest)
    ensures Lines(line + "\r\n" + rest) == [line] + Lines(rest)
  {
    hide Lines;
    LinesCut(line, rest);
    LinesCut(line + "\r", rest);
    assert line + "\n" + rest == line + ['\n'] + rest;
    assert line + "\r\n" + rest == (line + "\r") + ['\n'] + rest;
    assert (line + "\r")[..|line|] == line;
  }

  /** Text that ends in a line feed is read line by line on its own. */
  lemma {:induction false} LinesAppend(a: string, b: string)
    requires a != "" ==> a[|a| - 1] == '\n'
    ensures Lines(a + b) == Lines(a) + Lines(b)
    decreases |a|
  {
    hide StripCarriageReturn, Lines, IndexOf;
    if a == "" {
      assert a + b == b;
      LinesOfNothing();
    } else {
      var i := IndexOf(a, '\n');
      var line, rest := a[..i], a[i + 1..];
      assert a == line + ['\n'] + rest;
      assert a + b == line + ['\n'] + (rest + b);
      LinesCut(line, rest);
      LinesCut(line, rest + b);
      LinesAppend(rest, b);
      assert [StripCarriageReturn(line)] + (Lines(rest) + Lines(b)) == [StripCarriageReturn(line)] + Lines(rest) + Lines(b);
    }
  }

  lemma LinesOfNothing()
    ensures Lines("") == []
  {
  }

  /** Every line followed by a line feed. */
  function Unlines(lines: seq<string>): string {
    if lines == [] then "" else lines[0] + "\n" + Unlines(lines[1..])
  }

  predicate IsLine(line: string) {
    '\n' !in line && (line != "" ==> line[|line| - 1] != '\r')
  }

  lemma LinesStep(line: string, rest: string)
    requires IsLine(line)
    ensures Lines(line + "\n" + rest) == [line] + Lines(rest)
  {
    hide IndexOf;
    var s := line + "\n" + rest;
    CutAt(line, '\n', rest);
    assert s == line + ['\n'] + rest;
    assert StripCarriageReturn(line) == line;
  }

  lemma {:induction false} LinesUnlines(lines: seq<string>, rest: string)
    requires forall i :: 0 <= i < |lines| ==> IsLine(lines[i])
    ensures Lines(Unlines(lines) + rest) == lines + Lines(rest)
  {
    hide Lines, IsLine;
    if lines == [] {
      assert Unlines(lines) + rest == rest;
    } else {
      var first, tail := lines[0], Unlines(lines[1..]) + rest;
      calc {
        Lines(Unlines(lines) + rest);
        { assert Unlines(lines) + rest == first + "\n" + tail; }
        Lines(first + "\n" + tail);
        { LinesStep(first, tail); }
        [first] + Lines(tail);
        { LinesUnlines(lines[1..], rest); }
        [first] + (lines[1..] + Lines(rest));
        { assert lines == [first] + lines[1..]; }
        lines + Lines(rest);
      }
    }
  }

  lemma {:induction false} UnlinesAppend(a: seq<string>, b: seq<string>)
    ensures Unlines(a + b) == Unlines(a) + Unlines(b)
  {
    if a == [] {
      assert a + b == b;
    } else {
      assert (a + b)[1..] == a[1..] + b;
      UnlinesAppend(a[1..], b);
    }
  }
}
