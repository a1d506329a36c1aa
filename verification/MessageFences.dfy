/**
 Whether every part of a split message opens as many code blocks as it
 closes, so that each can be rendered on its own.
 */
module MessageFences {
  import opened Text
  import opened MessageSplitter

  /** How many lines of the text start with a fence; `atStart` tells whether its first character starts a line. */
  function FenceLines(s: string, atStart: bool): nat {
    if s == "" then 0 else (if atStart && "```" <= s then 1 else 0) + FenceLines(s[1..], s[0] == '\n')
  }

  /** Every code block that is opened is closed. */
  predicate Even(s: string) {
    FenceLines(s, true) % 2 == 0
  }

  ghost predicate AllEven(parts: seq<string>) {
    forall p <- parts :: Even(p)
  }

  // ---------------------------------------------------------------------
  // Counting fence lines
  // ---------------------------------------------------------------------

  predicate EndsLine(s: string) {
    s == "" || s[|s| - 1] == '\n'
  }

  lemma FencePrefix(a: string, b: string)
    requires b != "" && b[0] != '`'
    ensures "```" <= a + b <==> "```" <= a
  {
    var s := a + b;
    if |a| < 3 <= |s| {
      assert s[|a|] == b[0];
    }
    if "```" <= a {
      assert s[..3] == a[..3];
    }
    if "```" <= s && |a| >= 3 {
      assert a[..3] == s[..3];
    }
  }

  lemma FencePrefixOfLines(a: string, b: string)
    requires a != "" && EndsLine(a)
    ensures "```" <= a + b <==> "```" <= a
  {
    var s := a + b;
    assert s[|a| - 1] == '\n';
    if "```" <= s {
      assert |a| > 3;
      assert a[..3] == s[..3];
    }
    if "```" <= a {
      assert s[..3] == a[..3];
    }
  }

  lemma {:induction false} FenceLinesAppend(a: string, b: string, atStart: bool)
    requires a != "" && EndsLine(a)
    ensures FenceLines(a + b, atStart) == FenceLines(a, atStart) + FenceLines(b, true)
  {
    assert (a + b)[0] == a[0] && (a + b)[1..] == a[1..] + b;
    FencePrefixOfLines(a, b);
    if |a| == 1 {
      assert a[1..] == "" && a[1..] + b == b;
    } else {
      FenceLinesAppend(a[1..], b, a[0] == '\n');
    }
  }

  /** What follows whole lines is counted on its own. */
  lemma FenceLinesBehind(a: string, b: string)
    requires EndsLine(a)
    ensures FenceLines(a + b, true) == FenceLines(a, true) + FenceLines(b, true)
  {
    if a == "" {
      assert a + b == b;
    } else {
      FenceLinesAppend(a, b, true);
    }
  }

  lemma {:induction false} NoFenceInside(s: string)
    requires '\n' !in s
    ensures FenceLines(s, false) == 0
  {
    if s != "" {
      NoFenceInside(s[1..]);
    }
  }

  lemma OneLine(line: string)
    requires '\n' !in line
    ensures FenceLines(line, true) == if FENCE <= line then 1 else 0
  {
    if line != "" {
      NoFenceInside(line[1..]);
    }
  }

  lemma {:induction false} OneMoreBlank(s: string, c: char, atStart: bool)
    requires IsWhitespace(c)
    ensures FenceLines(s + [c], atStart) == FenceLines(s, atStart)
  {
    if s == "" {
      assert s + [c] == [c] && [c][1..] == "";
    } else {
      assert (s + [c])[0] == s[0] && (s + [c])[1..] == s[1..] + [c];
      FencePrefix(s, [c]);
      OneMoreBlank(s[1..], c, s[0] == '\n');
    }
  }

  lemma {:induction false} BlankBehind(s: string, blank: string)
    requires Blank(blank)
    ensures FenceLines(s + blank, true) == FenceLines(s, true)
    decreases |blank|
  {
    hide FenceLines;
    if blank == "" {
      assert s + blank == s;
    } else {
      var n := |blank| - 1;
      assert s + blank == (s + blank[..n]) + [blank[n]];
      BlankBehind(s, blank[..n]);
      OneMoreBlank(s + blank[..n], blank[n], true);
    }
  }

  lemma TrimmedFences(s: string)
    ensures FenceLines(TrimEnd(s), true) == FenceLines(s, true)
  {
    hide TrimEnd, FenceLines;
    var t := TrimEnd(s);
    assert s == t + s[|t|..];
    BlankBehind(t, s[|t|..]);
  }

  lemma AddedLine(current: string, line: string)
    requires EndsLine(current) && '\n' !in line
    ensures FenceLines(current + (line + "\n"), true) == FenceLines(current, true) + if FENCE <= line then 1 else 0
    ensures EndsLine(current + (line + "\n"))
  {
    hide FenceLines;
    FenceLinesBehind(current, line + "\n");
    OneMoreBlank(line, '\n', true);
    OneLine(line);
    assert [ '\n' ] == "\n";
  }

  lemma ReopenedFences()
    ensures FenceLines(FENCE_LINE, true) == 1 && EndsLine(FENCE_LINE) && FenceLines("", true) == 0
  {
    hide FenceLines;
    AddedLine("", FENCE);
    assert "" + (FENCE + "\n") == FENCE_LINE;
    NoFenceInside("");
    OneLine("");
  }

  lemma ClosedFences(current: string, codeBlock: bool)
    requires EndsLine(current)
    ensures FenceLines(Closed(current, codeBlock), true) == FenceLines(current, true) + if codeBlock then 1 else 0
  {
    hide FenceLines, TrimEnd, FENCE_LINE;
    ReopenedFences();
    TrimmedFences(if codeBlock then current + FENCE_LINE else current);
    FenceLinesBehind(current, FENCE_LINE);
  }

  // ---------------------------------------------------------------------
  // One line
  // ---------------------------------------------------------------------

  /** The buffer holds whole lines, and an open block exactly when the flag says so. */
  predicate Sound(st: State) {
    EndsLine(st.current) && (Even(st.current) <==> !st.codeBlock)
  }

  /** A fence line that does not fit behind the buffer. */
  predicate FenceFlushes(st: State, line: string, maxLength: nat) {
    FENCE <= line && Bytes(line) <= maxLength && Flushes(st, line, maxLength)
  }

  lemma AddedFence(current: string, line: string)
    requires EndsLine(current) && '\n' !in line
    ensures EndsLine(current + (line + "\n"))
    ensures Even(current + (line + "\n")) <==> (Even(current) <==> !(FENCE <= line))
  {
    hide FenceLines;
    AddedLine(current, line);
  }

  lemma ClosedEven(current: string, codeBlock: bool)
    requires EndsLine(current)
    ensures Even(Closed(current, codeBlock)) <==> (Even(current) <==> !codeBlock)
    ensures EndsLine(Reopened(codeBlock)) && (Even(Reopened(codeBlock)) <==> !codeBlock)
  {
    hide FenceLines, Closed;
    ClosedFences(current, codeBlock);
    ReopenedFences();
  }

  lemma ShortLineFences(st: State, line: string, maxLength: nat)
    requires Sound(st) && '\n' !in line && Bytes(line) <= maxLength
    ensures var st' := AddShortLine(st, line, maxLength);
      if FenceFlushes(st, line, maxLength) then st'.parts != [] && !Even(st'.parts[|st'.parts| - 1])
      else Sound(st') && (AllEven(st'.parts) <==> AllEven(st.parts))
    ensures st.parts <= AddShortLine(st, line, maxLength).parts
  {
    hide Even, EndsLine, Closed, Bytes, FENCE, FENCE_LINE, AllEven;
    var codeBlock := if FENCE <= line then !st.codeBlock else st.codeBlock;
    AddedFence(st.current, line);
    ClosedEven(st.current, codeBlock);
    OneMorePart(st.parts, Closed(st.current, codeBlock));
    AddedFence(Reopened(codeBlock), line);
    assert "" + (line + "\n") == line + "\n";
  }

  lemma OneMorePart(parts: seq<string>, last: string)
    ensures AllEven(parts + [last]) <==> AllEven(parts) && Even(last)
  {
    hide Even;
    assert forall p <- parts :: p in parts + [last];
    assert last in parts + [last];
  }

  /** The pieces of a line without a fence hold none. */
  lemma {:induction false} ChunksFences(line: string, at: nat, graphemes: seq<string>, parts: seq<string>, chunk: string,
      maxLength: nat)
    requires '\n' !in line && !Occurs(line, FENCE)
    requires at + |chunk + Flatten(graphemes)| <= |line| && line[at..at + |chunk + Flatten(graphemes)|] == chunk + Flatten(graphemes)
    ensures var (ps, c) := Chunks(graphemes, parts, chunk, maxLength);
      && parts <= ps && (AllEven(ps) <==> AllEven(parts)) && '\n' !in c && !(FENCE <= c)
    decreases |graphemes|
  {
    hide Bytes, TrimEnd, FenceLines, FENCE;
    var whole := chunk + Flatten(graphemes);
    assert line[at..at + |chunk|] == whole[..|chunk|] == chunk;
    NoFenceIn(line, at, chunk);
    if graphemes != [] {
      var g, rest := graphemes[0], graphemes[1..];
      if Bytes(chunk) + Bytes(g) > maxLength {
        OneLine(chunk);
        TrimmedFences(chunk);
        OneMorePart(parts, TrimEnd(chunk));
        var at' := at + |chunk|;
        assert g + Flatten(rest) == whole[|chunk|..] == line[at'..at' + |g + Flatten(rest)|];
        ChunksFences(line, at', rest, parts + [TrimEnd(chunk)], g, maxLength);
      } else {
        assert chunk + g + Flatten(rest) == whole;
        ChunksFences(line, at, rest, parts, chunk + g, maxLength);
      }
    }
  }

  lemma NoFenceIn(line: string, at: nat, piece: string)
    requires '\n' !in line && !Occurs(line, FENCE)
    requires at + |piece| <= |line| && line[at..at + |piece|] == piece
    ensures '\n' !in piece && !(FENCE <= piece)
  {
    if FENCE <= piece {
      assert line[at..at + |FENCE|] == piece[..|FENCE|];
      assert OccursAt(line, FENCE, at);
    }
  }

  lemma LongLineFences(st: State, line: string, maxLength: nat, seg: Segmenter)
    requires Sound(st) && '\n' !in line && !Occurs(line, FENCE) && Flatten(seg(line)) == line
    ensures var st' := AddLongLine(st, line, maxLength, seg);
      st.parts <= st'.parts && Sound(st') && (AllEven(st'.parts) <==> AllEven(st.parts))
  {
    hide FenceLines, Closed, Bytes, FENCE, FENCE_LINE, Chunks, Occurs;
    ClosedFences(st.current, st.codeBlock);
    OneMorePart(st.parts, Closed(st.current, st.codeBlock));
    ReopenedFences();
    var flushed := Flush(st);
    assert Sound(flushed);
    assert "" + Flatten(seg(line)) == line == line[0..0 + |line|];
    ChunksFences(line, 0, seg(line), flushed.parts, "", maxLength);
    AddedLine(flushed.current, Chunks(seg(line), flushed.parts, "", maxLength).1);
  }

  // ---------------------------------------------------------------------
  // Messages
  // ---------------------------------------------------------------------

  /** Somewhere a fence line does not fit behind the buffer. */
  predicate SomeFenceFlushes(st: State, lines: seq<string>, maxLength: nat, seg: Segmenter)
    decreases |lines|
  {
    lines != [] &&
    (FenceFlushes(st, lines[0], maxLength) || SomeFenceFlushes(AddLine(st, lines[0], maxLength, seg), lines[1..], maxLength, seg))
  }

  /** The line is one line, cut into consecutive pieces, and holds no fence if it is over the limit. */
  ghost predicate Ordinary(line: string, maxLength: nat, seg: Segmenter) {
    '\n' !in line && Flatten(seg(line)) == line && (Bytes(line) > maxLength ==> !Occurs(line, FENCE))
  }

  lemma LineFences(st: State, line: string, maxLength: nat, seg: Segmenter)
    requires Sound(st) && Ordinary(line, maxLength, seg)
    ensures var st' := AddLine(st, line, maxLength, seg);
      if FenceFlushes(st, line, maxLength) then !AllEven(st'.parts)
      else Sound(st') && (AllEven(st'.parts) <==> AllEven(st.parts))
  {
    hide AddLongLine, AddShortLine, Bytes, Sound, Even, Flushes, FENCE;
    if Bytes(line) > maxLength {
      LongLineFences(st, line, maxLength, seg);
    } else {
      ShortLineFences(st, line, maxLength);
      var parts := AddShortLine(st, line, maxLength).parts;
      assert parts != [] ==> parts[|parts| - 1] in parts;
    }
  }

  lemma PartsStay(st: State, line: string, maxLength: nat, seg: Segmenter)
    ensures st.parts <= AddLine(st, line, maxLength, seg).parts
  {
    hide Bytes, Closed, Chunks;
    PiecesStay(seg(line), Flush(st).parts, "", maxLength);
  }

  lemma {:induction false} PiecesStay(graphemes: seq<string>, parts: seq<string>, chunk: string, maxLength: nat)
    ensures parts <= Chunks(graphemes, parts, chunk, maxLength).0
    decreases |graphemes|
  {
    hide Bytes, TrimEnd;
    if graphemes != [] {
      PiecesStay(graphemes[1..], parts, chunk + graphemes[0], maxLength);
      PiecesStay(graphemes[1..], parts + [TrimEnd(chunk)], graphemes[0], maxLength);
    }
  }

  lemma {:induction false} OddStays(st: State, lines: seq<string>, maxLength: nat, seg: Segmenter)
    requires !AllEven(st.parts)
    ensures !AllEven(Finish(AddLines(st, lines, maxLength, seg)))
    decreases |lines|
  {
    hide AddLine, Even, Closed;
    if lines == [] {
      assert forall p <- st.parts :: p in Finish(st);
    } else {
      PartsStay(st, lines[0], maxLength, seg);
      assert forall p <- st.parts :: p in AddLine(st, lines[0], maxLength, seg).parts;
      OddStays(AddLine(st, lines[0], maxLength, seg), lines[1..], maxLength, seg);
    }
  }

  lemma {:induction false} LinesFences(st: State, lines: seq<string>, maxLength: nat, seg: Segmenter)
    requires Sound(st) && AllEven(st.parts) && forall line <- lines :: Ordinary(line, maxLength, seg)
    ensures AllEven(Finish(AddLines(st, lines, maxLength, seg))) <==> !SomeFenceFlushes(st, lines, maxLength, seg)
    decreases |lines|
  {
    hide AddLine, AllEven, FenceFlushes, Ordinary, Closed, FenceLines;
    if lines == [] {
      ClosedFences(st.current, st.codeBlock);
      OneMorePart(st.parts, Closed(st.current, st.codeBlock));
    } else {
      var next := AddLine(st, lines[0], maxLength, seg);
      LineFences(st, lines[0], maxLength, seg);
      if FenceFlushes(st, lines[0], maxLength) {
        OddStays(next, lines[1..], maxLength, seg);
      } else {
        LinesFences(next, lines[1..], maxLength, seg);
      }
    }
  }

  /**
   As long as no line over the limit holds a fence: every part of a message
   over the limit closes the code blocks it opens, if and only if no fence line
   ever fails to fit behind the buffer.
   */
  lemma PartsBalanceExactly(message: string, maxLength: nat, seg: Segmenter)
    requires Segments(seg) && Bytes(message) > maxLength
    requires forall line <- Lines(message) :: Bytes(line) > maxLength ==> !Occurs(line, "```")
    ensures (forall part <- PartsOf(message, maxLength, seg) :: FenceLines(part, true) % 2 == 0)
       <==> !SomeFenceFlushes(START, Lines(message), maxLength, seg)
  {
    hide Bytes, Lines, AddLines, Finish, SomeFenceFlushes, Occurs;
    EmptyBytes();
    LinesAreLines(message);
    ReopenedFences();
    LinesFences(START, Lines(message), maxLength, seg);
    assert AllEven(PartsOf(message, maxLength, seg)) <==>
      forall part <- PartsOf(message, maxLength, seg) :: FenceLines(part, true) % 2 == 0;
  }

  lemma {:induction false} LinesAreLines(s: string)
    ensures forall line <- Lines(s) :: '\n' !in line
    decreases |s|
  {
    hide StripCarriageReturn, IndexOf;
    var i := IndexOf(s, '\n');
    if s != "" && i < |s| {
      LinesAreLines(s[i + 1..]);
      StrippedIsPrefix(s[..i]);
    }
  }

  lemma StrippedIsPrefix(line: string)
    ensures StripCarriageReturn(line) <= line
  {
  }

  /**
   A code block whose closing fence does not fit: the first part leaves the
   block open, and the second consists of the closing fence alone.
   */
  lemma ClosingFenceIsLeftOut(maxLength: nat, seg: Segmenter)
    requires 6 <= maxLength
    ensures PartsOf("```\n" + Fill(maxLength - 5) + "\n```", maxLength, seg) == ["```\n" + Fill(maxLength - 5), "```"]
  {
    hide Bytes, Lines, AddLines, Fill, TrimEnd, FENCE, FENCE_LINE, Closed;
    var fill := Fill(maxLength - 5);
    var message := "```\n" + fill + "\n```";
    FillShape(maxLength - 5);
    FenceBytes();
    EmptyBytes();
    FenceText();
    BytesAppend(FENCE_LINE, fill + "\n");
    BytesAppend(fill, "\n");
    BytesAppend(FENCE_LINE + (fill + "\n"), FENCE);
    assert message == FENCE_LINE + (fill + "\n") + FENCE;
    ThreeLines(fill);
    AddThreeLines(START, FENCE, fill, FENCE, maxLength, seg);
    var open := AddLine(START, FENCE, maxLength, seg);
    assert "" + (FENCE + "\n") == FENCE_LINE;
    assert open == State([], FENCE_LINE, true);
    var filled := AddLine(open, fill, maxLength, seg);
    assert filled == State([], FENCE_LINE + (fill + "\n"), true);
    var after := AddLine(filled, FENCE, maxLength, seg);
    assert after == State([Closed(FENCE_LINE + (fill + "\n"), false)], FENCE + "\n", false);
    ClosedLine(FENCE_LINE + fill);
    ClosedLine(FENCE);
    assert FENCE_LINE + (fill + "\n") == FENCE_LINE + fill + "\n";
  }

  lemma FenceText()
    ensures FENCE == "```" && FENCE_LINE == "```\n"
  {
  }

  lemma ClosedLine(line: string)
    requires line != "" && !IsWhitespace(line[|line| - 1])
    ensures Closed(line + "\n", false) == line
  {
    hide TrimEnd;
    TrimEndBlank(line, "\n");
  }

  lemma ThreeLines(fill: string)
    requires '\n' !in fill && fill != "" && fill[|fill| - 1] == 'x'
    ensures Lines("```\n" + fill + "\n```") == ["```", fill, "```"]
  {
    hide IndexOf, Lines;
    assert "```\n" + fill + "\n```" == "```" + "\n" + (fill + "\n" + "```");
    LinesStep("```", fill + "\n" + "```");
    LinesStep(fill, "```");
    LastLine("```");
  }

  lemma LastLine(line: string)
    requires line != "" && '\n' !in line
    ensures Lines(line) == [line]
  {
    hide IndexOf;
    IndexOfAbsent(line, '\n');
  }

  lemma AddThreeLines(st: State, a: string, b: string, c: string, maxLength: nat, seg: Segmenter)
    ensures AddLines(st, [a, b, c], maxLength, seg)
         == AddLine(AddLine(AddLine(st, a, maxLength, seg), b, maxLength, seg), c, maxLength, seg)
  {
    hide AddLine;
    assert [a, b, c][1..] == [b, c];
    AddTwoLines(AddLine(st, a, maxLength, seg), b, c, maxLength, seg);
  }
}
