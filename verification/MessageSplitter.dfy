/**
 `split_long_message`: cutting a message into parts at line ends, closing and
 reopening code blocks at the cuts.  Grapheme segmentation comes from a
 library and is a parameter.
 */
module MessageSplitter {
  import opened Text

  const FENCE := "```"
  const FENCE_LINE := "```\n"

  type Segmenter = string -> seq<string>

  // ---------------------------------------------------------------------
  // Length in UTF-8 bytes
  // ---------------------------------------------------------------------

  function Utf8Len(c: char): (n: nat)
    ensures 1 <= n <= 4
    // the shortest form that has room: 7, 11, 16 or 21 bits
    ensures c as int < [0x80, 0x800, 0x1_0000, 0x20_0000][n - 1]
    ensures n > 1 ==> c as int >= [0x80, 0x800, 0x1_0000][n - 2]
  {
    var code := c as int;
    if code < 0x80 then 1 else if code < 0x800 then 2 else if code < 0x1_0000 then 3 else 4
  }

  function Bytes(s: string): nat {
    if s == "" then 0 else Utf8Len(s[0]) + Bytes(s[1..])
  }

  function Flatten(pieces: seq<string>): string {
    if pieces == [] then "" else pieces[0] + Flatten(pieces[1..])
  }

  ghost predicate Segments(seg: Segmenter) {
    forall line :: Flatten(seg(line)) == line
  }

  // ---------------------------------------------------------------------
  // The algorithm, one line at a time
  // ---------------------------------------------------------------------

  datatype State = State(parts: seq<string>, current: string, codeBlock: bool)

  const START := State([], "", false)

  /** The part sent when the buffer is flushed; an open code block is closed first. */
  function Closed(current: string, codeBlock: bool): string {
    TrimEnd(if codeBlock then current + FENCE_LINE else current)
  }

  /** What the next part starts with. */
  function Reopened(codeBlock: bool): string {
    if codeBlock then FENCE_LINE else ""
  }

  /** Packs graphemes into chunks; the last chunk is still open. */
  function Chunks(graphemes: seq<string>, parts: seq<string>, chunk: string, maxLength: nat): (seq<string>, string)
    decreases |graphemes|
  {
    if graphemes == [] then (parts, chunk)
    else
      var g, rest := graphemes[0], graphemes[1..];
      if Bytes(chunk) + Bytes(g) > maxLength then Chunks(rest, parts + [TrimEnd(chunk)], g, maxLength)
      else Chunks(rest, parts, chunk + g, maxLength)
  }

  function Flush(st: State): State {
    if st.current == "" then st
    else State(st.parts + [Closed(st.current, st.codeBlock)], Reopened(st.codeBlock), st.codeBlock)
  }

  function AddLongLine(st: State, line: string, maxLength: nat, seg: Segmenter): State {
    var flushed := Flush(st);
    var (parts, chunk) := Chunks(seg(line), flushed.parts, "", maxLength);
    State(parts, if chunk == "" then flushed.current else flushed.current + (chunk + "\n"), st.codeBlock)
  }

  function AddShortLine(st: State, line: string, maxLength: nat): State {
    var codeBlock := if FENCE <= line then !st.codeBlock else st.codeBlock;
    if Bytes(st.current) + Bytes(line) + 1 > maxLength && st.current != "" then
      State(st.parts + [Closed(st.current, codeBlock)],
        if !codeBlock then line + "\n" else if FENCE <= line then FENCE_LINE else FENCE_LINE + (line + "\n"),
        codeBlock)
    else
      State(st.parts, st.current + (line + "\n"), codeBlock)
  }

  function AddLine(st: State, line: string, maxLength: nat, seg: Segmenter): State {
    if Bytes(line) > maxLength then AddLongLine(st, line, maxLength, seg)
    else AddShortLine(st, line, maxLength)
  }

  function AddLines(st: State, lines: seq<string>, maxLength: nat, seg: Segmenter): State
    decreases |lines|
  {
    if lines == [] then st else AddLines(AddLine(st, lines[0], maxLength, seg), lines[1..], maxLength, seg)
  }

  function Finish(st: State): seq<string> {
    if st.current == "" then st.parts else st.parts + [Closed(st.current, st.codeBlock)]
  }

  function PartsOf(message: string, maxLength: nat, seg: Segmenter): seq<string> {
    if message == "" then []
    else if Bytes(message) <= maxLength then [message]
    else Finish(AddLines(START, Lines(message), maxLength, seg))
  }

  // ---------------------------------------------------------------------
  // The loops
  // ---------------------------------------------------------------------

  method SplitLongMessage(message: string, maxLength: nat, seg: Segmenter) returns (parts: seq<string>)
    ensures parts == PartsOf(message, maxLength, seg)
  {
    hide Bytes, TrimEnd, Lines, Chunks, FENCE, FENCE_LINE;
    if message == "" {
      return [];
    }
    if Bytes(message) <= maxLength {
      return [message];
    }
    parts := [];
    var current := "";
    var codeBlock := false;
    var lines := Lines(message);
    for i := 0 to |lines|
      invariant AddLines(State(parts, current, codeBlock), lines[i..], maxLength, seg)
             == AddLines(START, lines, maxLength, seg)
    {
      ghost var st := State(parts, current, codeBlock);
      assert lines[i..][1..] == lines[i + 1..];
      assert "" + FENCE_LINE == FENCE_LINE;
      var line := lines[i];
      assert "" + (line + "\n") == line + "\n";
      if Bytes(line) > maxLength {
        if current != "" {
          if codeBlock {
            current := current + FENCE_LINE;
          }
          parts := parts + [TrimEnd(current)];
          current := "";
          if codeBlock {
            current := current + FENCE_LINE;
          }
        }
        var chunk;
        parts, chunk := PackGraphemes(seg(line), parts, maxLength);
        if chunk != "" {
          current := current + (chunk + "\n");
        }
        assert State(parts, current, codeBlock) == AddLongLine(st, line, maxLength, seg);
        continue;
      }
      if StartsWith(line, FENCE) {
        codeBlock := !codeBlock;
      }
      var newLength := Bytes(current) + Bytes(line) + 1;
      if newLength > maxLength && current != "" {
        if codeBlock {
          current := current + FENCE_LINE;
        }
        parts := parts + [TrimEnd(current)];
        current := "";
        if codeBlock {
          current := current + FENCE_LINE;
          if !StartsWith(line, FENCE) {
            current := current + (line + "\n");
          }
        } else {
          current := current + (line + "\n");
        }
      } else {
        current := current + (line + "\n");
      }
      assert State(parts, current, codeBlock) == AddShortLine(st, line, maxLength);
    }
    if current != "" {
      if codeBlock {
        current := current + FENCE_LINE;
      }
      parts := parts + [TrimEnd(current)];
    }
  }

  method PackGraphemes(graphemes: seq<string>, before: seq<string>, maxLength: nat)
    returns (parts: seq<string>, chunk: string)
    ensures (parts, chunk) == Chunks(graphemes, before, "", maxLength)
  {
    hide Bytes, TrimEnd;
    parts, chunk := before, "";
    for i := 0 to |graphemes|
      invariant Chunks(graphemes[i..], parts, chunk, maxLength) == Chunks(graphemes, before, "", maxLength)
    {
      assert graphemes[i..][1..] == graphemes[i + 1..];
      var g := graphemes[i];
      if Bytes(chunk) + Bytes(g) > maxLength {
        parts := parts + [TrimEnd(chunk)];
        chunk := "";
        assert "" + g == g;
      }
      chunk := chunk + g;
    }
  }

  // ---------------------------------------------------------------------
  // How long a part can get
  // ---------------------------------------------------------------------

  lemma {:induction false} BytesAppend(a: string, b: string)
    ensures Bytes(a + b) == Bytes(a) + Bytes(b)
  {
    if a == "" {
      assert a + b == b;
    } else {
      assert (a + b)[0] == a[0] && (a + b)[1..] == a[1..] + b;
      BytesAppend(a[1..], b);
    }
  }

  lemma TrimEndBytes(s: string)
    ensures Bytes(TrimEnd(s)) <= Bytes(s)
  {
    hide TrimEnd, Bytes;
    var t := TrimEnd(s);
    assert s == t + s[|t|..];
    BytesAppend(t, s[|t|..]);
  }

  /** A trailing line feed never counts. */
  lemma TrimLineFeedBytes(s: string)
    ensures Bytes(TrimEnd(s + "\n")) <= Bytes(s)
  {
    assert (s + "\n")[..|s|] == s;
    TrimEndBytes(s);
  }

  lemma FenceBytes()
    ensures Bytes(FENCE) == 3 && Bytes(FENCE_LINE) == 4 && Bytes("\n") == 1
    ensures FENCE_LINE == FENCE + "\n"
  {
    assert FENCE[1..] == "``" && "``"[1..] == "`" && "`"[1..] == "" && "\n"[1..] == "";
    BytesAppend(FENCE, "\n");
  }

  lemma ClosedBytes(current: string, codeBlock: bool)
    ensures Bytes(Closed(current, codeBlock)) <= Bytes(current) + if codeBlock then 3 else 0
  {
    hide Bytes, TrimEnd;
    FenceBytes();
    if codeBlock {
      Associative(current, FENCE, "\n");
      TrimLineFeedBytes(current + FENCE);
      BytesAppend(current, FENCE);
    } else {
      TrimEndBytes(current);
    }
  }

  lemma LineBytes(before: string, line: string)
    ensures Bytes(before + (line + "\n")) == Bytes(before) + Bytes(line) + 1
  {
    hide Bytes;
    FenceBytes();
    BytesAppend(line, "\n");
    BytesAppend(before, line + "\n");
  }

  ghost predicate AllWithin(pieces: seq<string>, limit: nat) {
    forall p <- pieces :: Bytes(p) <= limit
  }

  /** No grapheme of any line is longer than the limit. */
  ghost predicate GraphemesFit(lines: seq<string>, seg: Segmenter, limit: nat) {
    forall line <- lines :: AllWithin(seg(line), limit)
  }

  lemma {:induction false} ChunksWithin(
      graphemes: seq<string>, parts: seq<string>, chunk: string, maxLength: nat, limit: nat, bound: nat)
    requires maxLength <= limit <= bound && AllWithin(graphemes, limit)
    requires AllWithin(parts, bound) && Bytes(chunk) <= limit
    ensures var (ps, c) := Chunks(graphemes, parts, chunk, maxLength);
      AllWithin(ps, bound) && Bytes(c) <= limit
    decreases |graphemes|
  {
    hide Bytes, TrimEnd;
    if graphemes != [] {
      var g := graphemes[0];
      if Bytes(chunk) + Bytes(g) > maxLength {
        TrimEndBytes(chunk);
        ChunksWithin(graphemes[1..], parts + [TrimEnd(chunk)], g, maxLength, limit, bound);
      } else {
        BytesAppend(chunk, g);
        ChunksWithin(graphemes[1..], parts, chunk + g, maxLength, limit, bound);
      }
    }
  }

  /** With code fences a reopened block costs 4 bytes in front, a line feed 1 and a closing fence 3. */
  ghost predicate Roomy(st: State, limit: nat) {
    AllWithin(st.parts, limit + 8) && Bytes(st.current) <= limit + 5
  }

  lemma AddLineRoomy(st: State, line: string, maxLength: nat, seg: Segmenter, limit: nat)
    requires Roomy(st, limit) && maxLength <= limit && AllWithin(seg(line), limit)
    ensures Roomy(AddLine(st, line, maxLength, seg), limit)
  {
    hide Bytes, Closed, Chunks, FENCE, FENCE_LINE;
    FenceBytes();
    EmptyBytes();
    ClosedBytes(st.current, st.codeBlock);
    ClosedBytes(st.current, !st.codeBlock);
    if Bytes(line) > maxLength {
      var flushed := Flush(st);
      var (parts, chunk) := Chunks(seg(line), flushed.parts, "", maxLength);
      ChunksWithin(seg(line), flushed.parts, "", maxLength, limit, limit + 8);
      LineBytes(flushed.current, chunk);
    } else {
      LineBytes(st.current, line);
      LineBytes(FENCE_LINE, line);
      LineBytes("", line);
      assert "" + (line + "\n") == line + "\n";
    }
  }

  lemma EmptyBytes()
    ensures Bytes("") == 0
  {
  }

  lemma {:induction false} AddLinesRoomy(st: State, lines: seq<string>, maxLength: nat, seg: Segmenter, limit: nat)
    requires Roomy(st, limit) && maxLength <= limit && GraphemesFit(lines, seg, limit)
    ensures Roomy(AddLines(st, lines, maxLength, seg), limit)
    decreases |lines|
  {
    hide Roomy, AddLine, AllWithin;
    if lines != [] {
      AddLineRoomy(st, lines[0], maxLength, seg, limit);
      AddLinesRoomy(AddLine(st, lines[0], maxLength, seg), lines[1..], maxLength, seg, limit);
    }
  }

  /**
   No part is more than 8 bytes over the maximum length, or over the longest
   grapheme when that does not fit in the maximum length by itself.
   */
  lemma PartsWithinEight(message: string, maxLength: nat, seg: Segmenter, limit: nat)
    requires maxLength <= limit && GraphemesFit(Lines(message), seg, limit)
    ensures AllWithin(PartsOf(message, maxLength, seg), limit + 8)
  {
    hide Bytes, Lines, AddLines, Closed;
    EmptyBytes();
    AddLinesRoomy(START, Lines(message), maxLength, seg, limit);
    var st := AddLines(START, Lines(message), maxLength, seg);
    ClosedBytes(st.current, st.codeBlock);
  }

  // Exactly when the limit itself holds.

  /** The text sent when this buffer is flushed is longer than the limit. */
  predicate Overfull(current: string, codeBlock: bool, limit: nat) {
    if codeBlock then Bytes(current) + 3 > limit else Bytes(TrimEnd(current)) > limit
  }

  lemma ClosedOverfull(current: string, codeBlock: bool, limit: nat)
    ensures Bytes(Closed(current, codeBlock)) > limit <==> Overfull(current, codeBlock, limit)
  {
    hide Bytes, TrimEnd;
    if codeBlock {
      ClosedFenceLine(current);
      BytesAppend(current, FENCE);
      FenceBytes();
    }
  }

  /** The line does not fit behind the buffer. */
  predicate Flushes(st: State, line: string, maxLength: nat) {
    st.current != "" && (Bytes(line) > maxLength || Bytes(st.current) + Bytes(line) + 1 > maxLength)
  }

  function BlockAtFlush(st: State, line: string, maxLength: nat): bool {
    if Bytes(line) <= maxLength && FENCE <= line then !st.codeBlock else st.codeBlock
  }

  /** Some buffer is overfull when it is flushed. */
  predicate SomeOverfull(st: State, lines: seq<string>, maxLength: nat, seg: Segmenter)
    decreases |lines|
  {
    if lines == [] then st.current != "" && Overfull(st.current, st.codeBlock, maxLength)
    else
      || (Flushes(st, lines[0], maxLength) && Overfull(st.current, BlockAtFlush(st, lines[0], maxLength), maxLength))
      || SomeOverfull(AddLine(st, lines[0], maxLength, seg), lines[1..], maxLength, seg)
  }

  lemma AllWithinAppend(pieces: seq<string>, last: string, limit: nat)
    ensures AllWithin(pieces + [last], limit) <==> AllWithin(pieces, limit) && Bytes(last) <= limit
  {
    hide Bytes;
    assert forall p <- pieces :: p in pieces + [last];
    assert last in pieces + [last];
  }

  lemma {:induction false} ChunksWithinExactly(
      graphemes: seq<string>, parts: seq<string>, chunk: string, maxLength: nat)
    requires AllWithin(graphemes, maxLength) && Bytes(chunk) <= maxLength
    ensures AllWithin(Chunks(graphemes, parts, chunk, maxLength).0, maxLength) <==> AllWithin(parts, maxLength)
    decreases |graphemes|
  {
    hide Bytes, TrimEnd;
    if graphemes != [] {
      var g := graphemes[0];
      if Bytes(chunk) + Bytes(g) > maxLength {
        TrimEndBytes(chunk);
        AllWithinAppend(parts, TrimEnd(chunk), maxLength);
        ChunksWithinExactly(graphemes[1..], parts + [TrimEnd(chunk)], g, maxLength);
      } else {
        BytesAppend(chunk, g);
        ChunksWithinExactly(graphemes[1..], parts, chunk + g, maxLength);
      }
    }
  }

  lemma AddLineWithinExactly(st: State, line: string, maxLength: nat, seg: Segmenter)
    requires AllWithin(seg(line), maxLength)
    ensures AllWithin(AddLine(st, line, maxLength, seg).parts, maxLength)
       <==> AllWithin(st.parts, maxLength)
            && !(Flushes(st, line, maxLength) && Overfull(st.current, BlockAtFlush(st, line, maxLength), maxLength))
  {
    hide Bytes, Closed, Chunks, FENCE, FENCE_LINE, AllWithin, Overfull;
    var codeBlock := BlockAtFlush(st, line, maxLength);
    ClosedOverfull(st.current, codeBlock, maxLength);
    AllWithinAppend(st.parts, Closed(st.current, codeBlock), maxLength);
    if Bytes(line) > maxLength {
      EmptyBytes();
      ChunksWithinExactly(seg(line), Flush(st).parts, "", maxLength);
    }
  }

  lemma {:induction false} AddLinesWithinExactly(st: State, lines: seq<string>, maxLength: nat, seg: Segmenter)
    requires GraphemesFit(lines, seg, maxLength)
    ensures AllWithin(Finish(AddLines(st, lines, maxLength, seg)), maxLength)
       <==> AllWithin(st.parts, maxLength) && !SomeOverfull(st, lines, maxLength, seg)
    decreases |lines|
  {
    hide AddLine, AllWithin, Overfull, Bytes, Closed, Flushes, BlockAtFlush;
    if lines == [] {
      ClosedOverfull(st.current, st.codeBlock, maxLength);
      AllWithinAppend(st.parts, Closed(st.current, st.codeBlock), maxLength);
    } else {
      AddLineWithinExactly(st, lines[0], maxLength, seg);
      AddLinesWithinExactly(AddLine(st, lines[0], maxLength, seg), lines[1..], maxLength, seg);
    }
  }

  /**
   When graphemes fit, every part respects the limit if and only if the
   message does, or no flushed buffer is overfull: less than three bytes short
   of the limit inside a code block, or over the limit outside one.
   */
  lemma PartsWithinExactly(message: string, maxLength: nat, seg: Segmenter)
    requires GraphemesFit(Lines(message), seg, maxLength)
    ensures AllWithin(PartsOf(message, maxLength, seg), maxLength)
       <==> Bytes(message) <= maxLength || !SomeOverfull(START, Lines(message), maxLength, seg)
  {
    hide Bytes, Lines, AddLines, Finish, SomeOverfull;
    EmptyBytes();
    AddLinesWithinExactly(START, Lines(message), maxLength, seg);
  }

  // Without fences the limit itself holds.

  predicate Fenceless(lines: seq<string>) {
    forall i :: 0 <= i < |lines| ==> !(FENCE <= lines[i])
  }

  ghost predicate Tight(st: State, limit: nat) {
    && AllWithin(st.parts, limit) && !st.codeBlock
    && Bytes(st.current) <= limit + 1
    && (st.current != "" ==> st.current[|st.current| - 1] == '\n')
  }

  lemma ClosedTight(current: string, limit: nat)
    requires Bytes(current) <= limit + 1 && current != "" && current[|current| - 1] == '\n'
    ensures Bytes(Closed(current, false)) <= limit
  {
    hide Bytes, TrimEnd;
    var s := current[..|current| - 1];
    assert current == s + "\n";
    FenceBytes();
    BytesAppend(s, "\n");
    TrimLineFeedBytes(s);
  }

  lemma AddLineTight(st: State, line: string, maxLength: nat, seg: Segmenter, limit: nat)
    requires Tight(st, limit) && maxLength <= limit && AllWithin(seg(line), limit) && !(FENCE <= line)
    ensures Tight(AddLine(st, line, maxLength, seg), limit)
  {
    hide Bytes, Closed, Chunks, FENCE, FENCE_LINE;
    EmptyBytes();
    if st.current != "" {
      ClosedTight(st.current, limit);
    }
    if Bytes(line) > maxLength {
      var flushed := Flush(st);
      var (parts, chunk) := Chunks(seg(line), flushed.parts, "", maxLength);
      ChunksWithin(seg(line), flushed.parts, "", maxLength, limit, limit);
      LineBytes(flushed.current, chunk);
    } else {
      LineBytes(st.current, line);
      LineBytes("", line);
      assert "" + (line + "\n") == line + "\n";
    }
  }

  lemma {:induction false} AddLinesTight(st: State, lines: seq<string>, maxLength: nat, seg: Segmenter, limit: nat)
    requires Tight(st, limit) && maxLength <= limit && GraphemesFit(lines, seg, limit) && Fenceless(lines)
    ensures Tight(AddLines(st, lines, maxLength, seg), limit)
    decreases |lines|
  {
    hide Tight, AddLine, AllWithin;
    if lines != [] {
      AddLineTight(st, lines[0], maxLength, seg, limit);
      AddLinesTight(AddLine(st, lines[0], maxLength, seg), lines[1..], maxLength, seg, limit);
    }
  }

  /** When no line starts with a fence, every part respects the limit. */
  lemma FencelessPartsWithin(message: string, maxLength: nat, seg: Segmenter, limit: nat)
    requires maxLength <= limit && GraphemesFit(Lines(message), seg, limit) && Fenceless(Lines(message))
    ensures AllWithin(PartsOf(message, maxLength, seg), limit)
  {
    hide Bytes, Lines, AddLines, Closed;
    EmptyBytes();
    AddLinesTight(START, Lines(message), maxLength, seg, limit);
    var st := AddLines(START, Lines(message), maxLength, seg);
    if st.current != "" {
      ClosedTight(st.current, limit);
    }
  }

  /** The 8 bytes are reached: a full-length line in an open code block, for every limit a fence fits in. */
  lemma EightBytesAreReached(maxLength: nat, seg: Segmenter)
    requires 3 <= maxLength
    ensures var parts := PartsOf(FENCE_LINE + Fill(maxLength), maxLength, seg);
      |parts| == 2 && Bytes(parts[1]) == maxLength + 8
  {
    hide Bytes, Closed, Lines, AddLines, FENCE, FENCE_LINE, Fill;
    var fill := Fill(maxLength);
    var message := FENCE_LINE + fill;
    FillShape(maxLength);
    FenceBytes();
    EmptyBytes();
    BytesAppend(FENCE_LINE, fill);
    FilledMessageLines(fill);
    var open := AddShortLine(START, FENCE, maxLength);
    assert "" + (FENCE + "\n") == FENCE_LINE;
    assert open == State([], FENCE_LINE, true);
    var filled := AddShortLine(open, fill, maxLength);
    assert filled == State([Closed(FENCE_LINE, true)], FENCE_LINE + (fill + "\n"), true);
    AddTwoLines(START, FENCE, fill, maxLength, seg);
    ClosedFill(fill);
    LineBytes(FENCE_LINE, fill);
    BytesAppend(FENCE_LINE + (fill + "\n"), FENCE);
  }

  lemma AddTwoLines(st: State, a: string, b: string, maxLength: nat, seg: Segmenter)
    ensures AddLines(st, [a, b], maxLength, seg) == AddLine(AddLine(st, a, maxLength, seg), b, maxLength, seg)
  {
    hide AddLine;
    var first := AddLine(st, a, maxLength, seg);
    assert [a, b][1..] == [b] && [b][1..] == [];
    assert AddLines(st, [a, b], maxLength, seg) == AddLines(first, [b], maxLength, seg);
    assert AddLines(first, [b], maxLength, seg) == AddLines(AddLine(first, b, maxLength, seg), [], maxLength, seg);
  }

  function Fill(n: nat): string {
    seq(n, _ => 'x')
  }

  lemma {:induction false} FillShape(n: nat)
    ensures |Fill(n)| == Bytes(Fill(n)) == n && '\n' !in Fill(n)
    ensures n > 0 ==> Fill(n) != "" && Fill(n)[0] == 'x' && Fill(n)[n - 1] == 'x' && !(FENCE <= Fill(n))
  {
    if n > 0 {
      assert Fill(n)[1..] == Fill(n - 1);
      FillShape(n - 1);
      assert FENCE[0] == '`';
    }
  }

  lemma FilledMessageLines(fill: string)
    requires fill != "" && '\n' !in fill
    ensures Lines(FENCE_LINE + fill) == [FENCE, fill]
  {
    hide IndexOf;
    LinesStep(FENCE, fill);
    assert FENCE_LINE == FENCE + "\n";
    IndexOfAbsent(fill, '\n');
  }

  lemma ClosedFill(fill: string)
    ensures Closed(FENCE_LINE + (fill + "\n"), true) == FENCE_LINE + (fill + "\n") + FENCE
  {
    hide TrimEnd;
    var s := FENCE_LINE + (fill + "\n") + FENCE;
    assert FENCE_LINE + (fill + "\n") + FENCE_LINE == s + "\n";
    TrimEndBlank(s, "\n");
  }

  // ---------------------------------------------------------------------
  // What is kept
  // ---------------------------------------------------------------------

  /** The characters of `s` that are not white space and, on request, not backticks. */
  function Visible(s: string, ticks: bool): string {
    if s == "" then ""
    else (if IsWhitespace(s[0]) || (!ticks && s[0] == '`') then "" else [s[0]]) + Visible(s[1..], ticks)
  }

  lemma {:induction false} VisibleAppend(a: string, b: string, ticks: bool)
    ensures Visible(a + b, ticks) == Visible(a, ticks) + Visible(b, ticks)
  {
    if a == "" {
      assert a + b == b;
    } else {
      assert (a + b)[0] == a[0] && (a + b)[1..] == a[1..] + b;
      VisibleAppend(a[1..], b, ticks);
    }
  }

  lemma {:induction false} VisibleBlank(s: string, ticks: bool)
    requires Blank(s)
    ensures Visible(s, ticks) == ""
  {
    if s != "" {
      assert s[0] in s;
      VisibleBlank(s[1..], ticks);
    }
  }

  lemma VisibleTrimEnd(s: string, ticks: bool)
    ensures Visible(TrimEnd(s), ticks) == Visible(s, ticks)
  {
    hide TrimEnd, Visible;
    var t := TrimEnd(s);
    assert s == t + s[|t|..];
    VisibleAppend(t, s[|t|..], ticks);
    VisibleBlank(s[|t|..], ticks);
  }

  lemma VisibleLine(before: string, line: string, ticks: bool)
    ensures Visible(before + (line + "\n"), ticks) == Visible(before, ticks) + Visible(line, ticks)
  {
    hide Visible;
    VisibleAppend(before, line + "\n", ticks);
    VisibleAppend(line, "\n", ticks);
    VisibleBlank("\n", ticks);
  }

  lemma {:induction false} FlattenAppend(pieces: seq<string>, last: string)
    ensures Flatten(pieces + [last]) == Flatten(pieces) + last
  {
    if pieces == [] {
      assert [last][1..] == [];
    } else {
      assert (pieces + [last])[1..] == pieces[1..] + [last];
      FlattenAppend(pieces[1..], last);
    }
  }

  function Seen(st: State, ticks: bool): string {
    Visible(Flatten(st.parts), ticks) + Visible(st.current, ticks)
  }

  lemma FlattenVisible(pieces: seq<string>, last: string, ticks: bool)
    ensures Visible(Flatten(pieces + [last]), ticks) == Visible(Flatten(pieces), ticks) + Visible(last, ticks)
  {
    hide Visible, Flatten;
    FlattenAppend(pieces, last);
    VisibleAppend(Flatten(pieces), last, ticks);
  }

  /**
   The line opens a code block, says more than the fence itself, and forces
   the text in front of it out: the one case in which a line is not copied.
   */
  predicate LosesTag(st: State, line: string, maxLength: nat) {
    && FENCE <= line && Visible(line, false) != "" && !st.codeBlock && st.current != ""
    && Bytes(line) <= maxLength < Bytes(st.current) + Bytes(line) + 1
  }

  /** Some line of the rest loses its tag. */
  predicate SomeTagLost(st: State, lines: seq<string>, maxLength: nat, seg: Segmenter)
    decreases |lines|
  {
    lines != [] &&
    (LosesTag(st, lines[0], maxLength) || SomeTagLost(AddLine(st, lines[0], maxLength, seg), lines[1..], maxLength, seg))
  }

  /** The lines that are copied. */
  function Kept(st: State, lines: seq<string>, maxLength: nat, seg: Segmenter): string
    decreases |lines|
  {
    if lines == [] then ""
    else
      var kept := if LosesTag(st, lines[0], maxLength) then "" else lines[0];
      kept + Kept(AddLine(st, lines[0], maxLength, seg), lines[1..], maxLength, seg)
  }

  lemma FenceInvisible()
    ensures Visible(FENCE_LINE, false) == ""
  {
    assert FENCE_LINE[1..] == "``\n" && "``\n"[1..] == "`\n" && "`\n"[1..] == "\n" && "\n"[1..] == "";
  }

  lemma ClosedVisible(current: string, codeBlock: bool, ticks: bool)
    requires ticks ==> !codeBlock
    ensures Visible(Closed(current, codeBlock), ticks) == Visible(current, ticks)
  {
    hide Visible, TrimEnd, FENCE_LINE;
    FenceInvisible();
    VisibleTrimEnd(current, ticks);
    if codeBlock {
      VisibleTrimEnd(current + FENCE_LINE, ticks);
      VisibleAppend(current, FENCE_LINE, ticks);
      assert Visible(current, ticks) + "" == Visible(current, ticks);
    }
  }

  lemma {:induction false} ChunksVisible(
      graphemes: seq<string>, parts: seq<string>, chunk: string, maxLength: nat, ticks: bool)
    ensures var (ps, c) := Chunks(graphemes, parts, chunk, maxLength);
      Visible(Flatten(ps), ticks) + Visible(c, ticks)
      == Visible(Flatten(parts), ticks) + Visible(chunk, ticks) + Visible(Flatten(graphemes), ticks)
    decreases |graphemes|
  {
    hide Visible, TrimEnd, Bytes;
    VisibleNothing(ticks);
    var before, seen := Visible(Flatten(parts), ticks), Visible(chunk, ticks);
    if graphemes == [] {
      assert before + seen + "" == before + seen;
    } else {
      var g, rest := graphemes[0], graphemes[1..];
      VisibleAppend(g, Flatten(rest), ticks);
      if Bytes(chunk) + Bytes(g) > maxLength {
        VisibleTrimEnd(chunk, ticks);
        FlattenVisible(parts, TrimEnd(chunk), ticks);
        ChunksVisible(rest, parts + [TrimEnd(chunk)], g, maxLength, ticks);
      } else {
        VisibleAppend(chunk, g, ticks);
        ChunksVisible(rest, parts, chunk + g, maxLength, ticks);
        Associative(before, seen, Visible(g, ticks));
      }
      Associative(before + seen, Visible(g, ticks), Visible(Flatten(rest), ticks));
    }
  }

  lemma VisibleNothing(ticks: bool)
    ensures Visible("", ticks) == "" && Flatten([]) == ""
  {
  }

  lemma FlushSeen(st: State, ticks: bool)
    requires ticks ==> !st.codeBlock
    ensures Seen(Flush(st), ticks) == Seen(st, ticks)
  {
    hide Visible, Closed, Flatten, FENCE_LINE;
    if st.current != "" {
      ClosedVisible(st.current, st.codeBlock, ticks);
      FlattenVisible(st.parts, Closed(st.current, st.codeBlock), ticks);
      FenceInvisible();
      VisibleNothing(ticks);
    }
  }

  lemma AddLongLineSeen(st: State, line: string, maxLength: nat, seg: Segmenter, ticks: bool)
    requires (ticks ==> !st.codeBlock) && Segments(seg)
    ensures Seen(AddLongLine(st, line, maxLength, seg), ticks) == Seen(st, ticks) + Visible(line, ticks)
  {
    hide Visible, Flatten, Chunks, Flush, Closed;
    var flushed := Flush(st);
    var (parts, chunk) := Chunks(seg(line), flushed.parts, "", maxLength);
    FlushSeen(st, ticks);
    FlushedIsInvisible(st, ticks);
    ChunksVisible(seg(line), flushed.parts, "", maxLength, ticks);
    VisibleNothing(ticks);
    assert Flatten(seg(line)) == line;
    VisibleLine(flushed.current, chunk, ticks);
    var before := Visible(Flatten(flushed.parts), ticks);
    assert before + "" == before;
    assert "" + Visible(chunk, ticks) == Visible(chunk, ticks);
  }

  lemma FlushedIsInvisible(st: State, ticks: bool)
    requires ticks ==> !st.codeBlock
    ensures Visible(Flush(st).current, ticks) == ""
  {
    FenceInvisible();
  }

  /**
   A short line's visible text is added in full, unless it is an opening
   fence that loses its tag; of such a line nothing is added.
   */
  lemma AddShortLineSeen(st: State, line: string, maxLength: nat, ticks: bool)
    requires (ticks ==> !st.codeBlock && !(FENCE <= line)) && Bytes(line) <= maxLength
    ensures Seen(AddShortLine(st, line, maxLength), ticks)
         == Seen(st, ticks) + if LosesTag(st, line, maxLength) then "" else Visible(line, ticks)
  {
    hide Visible, Flatten, Closed, Bytes, FENCE_LINE;
    var codeBlock := if FENCE <= line then !st.codeBlock else st.codeBlock;
    var before, seen := Visible(Flatten(st.parts), ticks), Visible(st.current, ticks);
    VisibleLine(st.current, line, ticks);
    Associative(before, seen, Visible(line, ticks));
    ClosedVisible(st.current, codeBlock, ticks);
    FlattenVisible(st.parts, Closed(st.current, codeBlock), ticks);
    FenceInvisible();
    VisibleNothing(ticks);
    VisibleLine("", line, ticks);
    assert "" + (line + "\n") == line + "\n" && "" + Visible(line, ticks) == Visible(line, ticks);
    VisibleLine(FENCE_LINE, line, ticks);
    assert before + seen + "" == before + seen;
  }

  /** One line keeps its visible text if and only if it is not such a fence. */
  lemma LineKeepsTextExactly(st: State, line: string, maxLength: nat, seg: Segmenter)
    requires Segments(seg)
    ensures Seen(AddLine(st, line, maxLength, seg), false) == Seen(st, false) + Visible(line, false)
       <==> !LosesTag(st, line, maxLength)
  {
    hide Seen, AddLongLine, AddShortLine, Visible, Segments, Bytes;
    AddLineSeen(st, line, maxLength, seg, false);
    assert Seen(st, false) + "" == Seen(st, false);
    if LosesTag(st, line, maxLength) {
      assert |Seen(st, false) + Visible(line, false)| > |Seen(st, false)|;
    }
  }

  lemma AddLineSeen(st: State, line: string, maxLength: nat, seg: Segmenter, ticks: bool)
    requires (ticks ==> !st.codeBlock && !(FENCE <= line)) && Segments(seg)
    ensures Seen(AddLine(st, line, maxLength, seg), ticks)
         == Seen(st, ticks) + if LosesTag(st, line, maxLength) then "" else Visible(line, ticks)
  {
    hide Seen, AddLongLine, AddShortLine, Visible, Segments, Bytes;
    AddLongLineSeen(st, line, maxLength, seg, ticks);
    if Bytes(line) <= maxLength {
      AddShortLineSeen(st, line, maxLength, ticks);
    }
  }

  lemma {:induction false} AddLinesSeen(st: State, lines: seq<string>, maxLength: nat, seg: Segmenter, ticks: bool)
    requires (ticks ==> !st.codeBlock && Fenceless(lines)) && Segments(seg)
    ensures var r := AddLines(st, lines, maxLength, seg);
      Seen(r, ticks) == Seen(st, ticks) + Visible(Kept(st, lines, maxLength, seg), ticks) && (ticks ==> !r.codeBlock)
    decreases |lines|
  {
    hide Seen, AddLine, LosesTag, Visible, Segments, FENCE;
    VisibleNothing(ticks);
    if lines == [] {
      assert Seen(st, ticks) + "" == Seen(st, ticks);
    } else {
      var line, rest := lines[0], lines[1..];
      var next := AddLine(st, line, maxLength, seg);
      AddLineSeen(st, line, maxLength, seg, ticks);
      BlockAfter(st, line, maxLength, seg, ticks);
      AddLinesSeen(next, rest, maxLength, seg, ticks);
      var first := if LosesTag(st, line, maxLength) then "" else line;
      VisibleAppend(first, Kept(next, rest, maxLength, seg), ticks);
      Associative(Seen(st, ticks), Visible(first, ticks), Visible(Kept(next, rest, maxLength, seg), ticks));
    }
  }

  lemma BlockAfter(st: State, line: string, maxLength: nat, seg: Segmenter, ticks: bool)
    requires ticks ==> !st.codeBlock && !(FENCE <= line)
    ensures ticks ==> !AddLine(st, line, maxLength, seg).codeBlock
  {
    hide Bytes, Closed, Chunks;
  }

  /** Everything is copied if and only if no tag is lost; otherwise visible characters are missing. */
  lemma {:induction false} KeptExactly(st: State, lines: seq<string>, maxLength: nat, seg: Segmenter)
    ensures var kept, all := Visible(Kept(st, lines, maxLength, seg), false), Visible(Flatten(lines), false);
      && |kept| <= |all| && (kept == all <==> |kept| == |all|)
      && (kept == all <==> !SomeTagLost(st, lines, maxLength, seg))
    decreases |lines|
  {
    hide AddLine, Visible, Bytes, FENCE;
    VisibleNothing(false);
    if lines != [] {
      var line, rest := lines[0], lines[1..];
      var next := AddLine(st, line, maxLength, seg);
      KeptExactly(next, rest, maxLength, seg);
      var lost := LosesTag(st, line, maxLength);
      VisibleAppend(if lost then "" else line, Kept(next, rest, maxLength, seg), false);
      VisibleAppend(line, Flatten(rest), false);
      var kept, all := Visible(Kept(next, rest, maxLength, seg), false), Visible(Flatten(rest), false);
      if !lost {
        SamePrefix(Visible(line, false), kept, all);
      }
    }
  }

  lemma SamePrefix(prefix: string, a: string, b: string)
    ensures prefix + a == prefix + b <==> a == b
  {
    assert (prefix + a)[|prefix|..] == a && (prefix + b)[|prefix|..] == b;
  }

  lemma {:induction false} KeptFenceless(st: State, lines: seq<string>, maxLength: nat, seg: Segmenter)
    requires Fenceless(lines)
    ensures Kept(st, lines, maxLength, seg) == Flatten(lines)
    decreases |lines|
  {
    hide AddLine, Visible, Bytes, FENCE;
    if lines != [] {
      KeptFenceless(AddLine(st, lines[0], maxLength, seg), lines[1..], maxLength, seg);
    }
  }

  lemma {:induction false} LinesVisible(s: string, ticks: bool)
    ensures Visible(Flatten(Lines(s)), ticks) == Visible(s, ticks)
    decreases |s|
  {
    hide Visible, IndexOf, StripCarriageReturn;
    VisibleNothing(ticks);
    var i := IndexOf(s, '\n');
    if s == "" {
    } else if i == |s| {
      assert Flatten([s]) == s + "" == s by {
        assert [s][1..] == [];
      }
    } else {
      var first, rest := s[..i], s[i + 1..];
      assert s == first + ("\n" + rest);
      VisibleAppend(first, "\n" + rest, ticks);
      VisibleAppend("\n", rest, ticks);
      VisibleBlank("\n", ticks);
      StripVisible(first, ticks);
      LinesVisible(rest, ticks);
      VisibleAppend(StripCarriageReturn(first), Flatten(Lines(rest)), ticks);
      assert ([StripCarriageReturn(first)] + Lines(rest))[1..] == Lines(rest);
      assert "" + Visible(rest, ticks) == Visible(rest, ticks);
    }
  }

  lemma StripVisible(line: string, ticks: bool)
    ensures Visible(StripCarriageReturn(line), ticks) == Visible(line, ticks)
  {
    hide Visible;
    if line != "" && line[|line| - 1] == '\r' {
      var s := line[..|line| - 1];
      assert line == s + "\r";
      VisibleAppend(s, "\r", ticks);
      VisibleBlank("\r", ticks);
      assert Visible(s, ticks) + "" == Visible(s, ticks);
    }
  }

  lemma FinishSeen(st: State, ticks: bool)
    requires ticks ==> !st.codeBlock
    ensures Visible(Flatten(Finish(st)), ticks) == Seen(st, ticks)
  {
    hide Visible, Flatten, Closed;
    VisibleNothing(ticks);
    if st.current == "" {
      var before := Visible(Flatten(st.parts), ticks);
      assert before + "" == before;
    } else {
      ClosedVisible(st.current, st.codeBlock, ticks);
      FlattenVisible(st.parts, Closed(st.current, st.codeBlock), ticks);
    }
  }

  lemma FlattenOne(s: string)
    ensures Flatten([s]) == s
  {
    assert [s][1..] == [] && s + "" == s;
  }

  lemma PartsKeepVisible(message: string, maxLength: nat, seg: Segmenter, ticks: bool)
    requires Segments(seg) && (ticks ==> Fenceless(Lines(message))) && Bytes(message) > maxLength
    ensures Visible(Flatten(PartsOf(message, maxLength, seg)), ticks)
         == Visible(Kept(START, Lines(message), maxLength, seg), ticks)
  {
    hide Visible, Flatten, Lines, AddLines, Finish, Segments, Bytes, Fenceless, Kept;
    VisibleNothing(ticks);
    EmptyBytes();
    AddLinesSeen(START, Lines(message), maxLength, seg, ticks);
    FinishSeen(AddLines(START, Lines(message), maxLength, seg), ticks);
    assert "" + "" == "";
    var kept := Visible(Kept(START, Lines(message), maxLength, seg), ticks);
    assert "" + kept == kept;
  }

  lemma ShortMessageIsKept(message: string, maxLength: nat, seg: Segmenter, ticks: bool)
    requires Bytes(message) <= maxLength
    ensures Visible(Flatten(PartsOf(message, maxLength, seg)), ticks) == Visible(message, ticks)
  {
    hide Visible, Flatten, Bytes;
    VisibleNothing(ticks);
    FlattenOne(message);
  }

  /**
   Without fence lines the parts, read in order, hold the visible characters
   of the message exactly once and in order.
   */
  lemma FencelessPartsKeepText(message: string, maxLength: nat, seg: Segmenter)
    requires Segments(seg) && Fenceless(Lines(message))
    ensures Visible(Flatten(PartsOf(message, maxLength, seg)), true) == Visible(message, true)
  {
    hide Visible, Flatten, Lines, PartsOf, FENCE, Bytes, Kept, Segments, Fenceless;
    if Bytes(message) <= maxLength {
      ShortMessageIsKept(message, maxLength, seg, true);
    } else {
      PartsKeepVisible(message, maxLength, seg, true);
      KeptFenceless(START, Lines(message), maxLength, seg);
      LinesVisible(message, true);
    }
  }

  /**
   With fence lines, backticks aside: the parts hold the visible characters
   of the message in order if and only if the message is within the limit or
   no opening fence with a tag forces a flush.
   */
  lemma PartsKeepTextExactly(message: string, maxLength: nat, seg: Segmenter)
    requires Segments(seg)
    ensures Visible(Flatten(PartsOf(message, maxLength, seg)), false) == Visible(message, false)
       <==> Bytes(message) <= maxLength || !SomeTagLost(START, Lines(message), maxLength, seg)
  {
    hide Visible, Flatten, Lines, PartsOf, Bytes, Kept, Segments, SomeTagLost;
    if Bytes(message) <= maxLength {
      ShortMessageIsKept(message, maxLength, seg, false);
    } else {
      PartsKeepVisible(message, maxLength, seg, false);
      KeptExactly(START, Lines(message), maxLength, seg);
      LinesVisible(message, false);
    }
  }

  /** A full line in front of an opening fence: the same two parts for every tag. */
  function TaggedMessage(tag: string, maxLength: nat): string {
    Fill(maxLength) + "\n" + (FENCE + tag)
  }

  /**
   For every limit, a message whose parts do not depend on the tag of its
   code block; so whenever the tag is visible, it is missing.
   */
  lemma OpeningFenceLosesTag(tag: string, maxLength: nat, seg: Segmenter)
    requires '\n' !in tag && Bytes(FENCE + tag) <= maxLength
    ensures PartsOf(TaggedMessage(tag, maxLength), maxLength, seg)
         == [Fill(maxLength) + "\n" + FENCE, FENCE_LINE + FENCE]
    ensures Segments(seg) && Visible(tag, false) != "" ==>
      Visible(Flatten(PartsOf(TaggedMessage(tag, maxLength), maxLength, seg)), false)
      != Visible(TaggedMessage(tag, maxLength), false)
  {
    hide Bytes, Closed, Lines, AddLines, FENCE, FENCE_LINE, Fill, Visible, Flatten;
    var fill, line, message := Fill(maxLength), FENCE + tag, TaggedMessage(tag, maxLength);
    FenceBytes();
    EmptyBytes();
    BytesAppend(FENCE, tag);
    FillShape(maxLength);
    LineBytes("", fill);
    assert "" + (fill + "\n") == fill + "\n";
    BytesAppend(fill + "\n", line);
    TaggedMessageLines(fill, tag);
    AddTwoLines(START, fill, line, maxLength, seg);
    var filled := AddLine(START, fill, maxLength, seg);
    assert filled == State([], fill + "\n", false);
    var after := AddLine(filled, line, maxLength, seg);
    assert after == State([Closed(fill + "\n", true)], FENCE_LINE, true);
    ClosedFenceLine(fill + "\n");
    ClosedFenceLine(FENCE_LINE);
    if Segments(seg) && Visible(tag, false) != "" {
      VisibleAppend(FENCE, tag, false);
      assert LosesTag(filled, line, maxLength);
      assert [fill, line][1..] == [line];
      assert SomeTagLost(START, [fill, line], maxLength, seg);
      PartsKeepTextExactly(message, maxLength, seg);
    }
  }

  lemma TaggedMessageLines(fill: string, tag: string)
    requires '\n' !in tag && '\n' !in fill && fill != "" && fill[|fill| - 1] == 'x'
    ensures Lines(fill + "\n" + (FENCE + tag)) == [fill, FENCE + tag]
  {
    hide IndexOf;
    LinesStep(fill, FENCE + tag);
    assert '\n' !in FENCE;
    IndexOfAbsent(FENCE + tag, '\n');
  }

  lemma ClosedFenceLine(current: string)
    ensures Closed(current, true) == current + FENCE
  {
    hide TrimEnd;
    assert current + FENCE_LINE == current + FENCE + "\n";
    TrimEndBlank(current + FENCE, "\n");
  }
}
