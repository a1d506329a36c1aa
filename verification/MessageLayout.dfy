/**
 Where `split_long_message` cuts: parts are packed greedily.  A message is read
 as a sequence of units, which the parts cover in order without gaps.
 */
module MessageLayout {
  import opened Text
  import opened MessageSplitter

  /** What is never cut: a line that fits in the limit, or one grapheme of a line that does not. */
  datatype Unit = LineUnit(line: string) | GraphemeUnit(grapheme: string, first: bool, last: bool)

  function UnitText(u: Unit): string {
    match u
    case LineUnit(line) => line + "\n"
    case GraphemeUnit(grapheme, _, last) => if last then grapheme + "\n" else grapheme
  }

  function Content(units: seq<Unit>): string {
    if units == [] then "" else UnitText(units[0]) + Content(units[1..])
  }

  function GraphemeUnits(graphemes: seq<string>): (units: seq<Unit>)
    ensures |units| == |graphemes|
    ensures forall i :: 0 <= i < |graphemes| ==> units[i] == GraphemeUnit(graphemes[i], i == 0, i == |graphemes| - 1)
  {
    seq(|graphemes|, i requires 0 <= i < |graphemes| => GraphemeUnit(graphemes[i], i == 0, i == |graphemes| - 1))
  }

  function UnitsOfLine(line: string, maxLength: nat, seg: Segmenter): seq<Unit> {
    if Bytes(line) <= maxLength then [LineUnit(line)] else GraphemeUnits(seg(line))
  }

  function UnitsOf(lines: seq<string>, maxLength: nat, seg: Segmenter): seq<Unit> {
    if lines == [] then [] else UnitsOfLine(lines[0], maxLength, seg) + UnitsOf(lines[1..], maxLength, seg)
  }

  /**
   A part that starts at unit `from` must end in front of unit `j`: with that
   unit it would pass the limit, or a line longer than the limit begins there.
   */
  predicate Breaks(units: seq<Unit>, from: nat, j: nat, maxLength: nat)
    requires from <= j < |units|
  {
    var used := Bytes(Content(units[from..j]));
    match units[j]
    case LineUnit(line) => from < j && used + Bytes(line) + 1 > maxLength
    case GraphemeUnit(grapheme, first, _) => (first && from < j) || used + Bytes(grapheme) > maxLength
  }

  /** The part holds the units `from` to `to`, and did not have to end before. */
  ghost predicate Fills(units: seq<Unit>, from: nat, to: nat, part: string, maxLength: nat) {
    && from <= to <= |units| && part == TrimEnd(Content(units[from..to]))
    && forall j: nat :: from < j < to ==> !Breaks(units, from, j, maxLength)
  }

  /** Part `k` reaches from cut `k` to the next one. */
  ghost predicate PartIs(units: seq<Unit>, cuts: seq<nat>, parts: seq<string>, k: nat, maxLength: nat) {
    k < |parts| && k + 1 < |cuts| && Fills(units, cuts[k], cuts[k + 1], parts[k], maxLength)
  }

  /** And it has to end there. */
  ghost predicate EndsInTime(units: seq<Unit>, cuts: seq<nat>, k: nat, maxLength: nat) {
    k + 1 < |cuts| && cuts[k] <= cuts[k + 1] < |units| && Breaks(units, cuts[k], cuts[k + 1], maxLength)
  }

  /** The parts follow each other without gaps, and each but the last ends exactly where it must. */
  ghost predicate LaidOut(units: seq<Unit>, cuts: seq<nat>, parts: seq<string>, maxLength: nat) {
    && |cuts| == |parts| + 1 && cuts[0] == 0 && cuts[|parts|] == |units|
    && (forall k: nat :: k < |parts| ==> PartIs(units, cuts, parts, k, maxLength))
    && (forall k: nat :: k < |parts| - 1 ==> EndsInTime(units, cuts, k, maxLength))
  }

  /** The same when only the first `n` units were read and the last part is still open. */
  ghost predicate LaidOutTo(
      units: seq<Unit>, n: nat, cuts: seq<nat>, parts: seq<string>, current: string, maxLength: nat)
  {
    && n <= |units| && |cuts| == |parts| + 1 && cuts[0] == 0 && cuts[|parts|] <= n
    && (forall k: nat :: k < |parts| ==> PartIs(units, cuts, parts, k, maxLength) && EndsInTime(units, cuts, k, maxLength))
    && current == Content(units[cuts[|parts|]..n])
    && (forall j: nat :: cuts[|parts|] < j < n ==> !Breaks(units, cuts[|parts|], j, maxLength))
  }

  lemma PartStays(units: seq<Unit>, cuts: seq<nat>, parts: seq<string>, k: nat, cut: nat, part: string, maxLength: nat)
    requires k < |parts| && |cuts| == |parts| + 1
    ensures PartIs(units, cuts + [cut], parts + [part], k, maxLength) <==> PartIs(units, cuts, parts, k, maxLength)
    ensures EndsInTime(units, cuts + [cut], k, maxLength) <==> EndsInTime(units, cuts, k, maxLength)
  {
    hide Fills, Breaks;
  }

  lemma {:induction false} ContentSnoc(units: seq<Unit>, u: Unit)
    ensures Content(units + [u]) == Content(units) + UnitText(u)
  {
    if units == [] {
      assert [u][1..] == [];
      assert UnitText(u) + "" == UnitText(u);
    } else {
      assert (units + [u])[1..] == units[1..] + [u];
      ContentSnoc(units[1..], u);
      Associative(UnitText(units[0]), Content(units[1..]), UnitText(u));
    }
  }

  lemma CutHere(units: seq<Unit>, n: nat, cuts: seq<nat>, parts: seq<string>, current: string, maxLength: nat)
    requires LaidOutTo(units, n, cuts, parts, current, maxLength) && n < |units|
    requires Breaks(units, cuts[|parts|], n, maxLength)
    ensures LaidOutTo(units, n, cuts + [n], parts + [TrimEnd(current)], "", maxLength)
  {
    hide Breaks, TrimEnd, Content;
    NoContent();
    assert units[n..n] == [];
    var last := |parts|;
    assert PartIs(units, cuts + [n], parts + [TrimEnd(current)], last, maxLength);
    assert EndsInTime(units, cuts + [n], last, maxLength);
    hide PartIs, EndsInTime, Fills;
    forall k: nat | k < last
      ensures PartIs(units, cuts + [n], parts + [TrimEnd(current)], k, maxLength)
      ensures EndsInTime(units, cuts + [n], k, maxLength)
    {
      PartStays(units, cuts, parts, k, n, TrimEnd(current), maxLength);
    }
  }

  lemma NoContent()
    ensures Content([]) == ""
  {
  }

  lemma TakeUnit(units: seq<Unit>, n: nat, cuts: seq<nat>, parts: seq<string>, current: string, maxLength: nat)
    requires LaidOutTo(units, n, cuts, parts, current, maxLength) && n < |units|
    requires cuts[|parts|] == n || !Breaks(units, cuts[|parts|], n, maxLength)
    ensures LaidOutTo(units, n + 1, cuts, parts, current + UnitText(units[n]), maxLength)
  {
    hide Breaks, TrimEnd, Content;
    var from := cuts[|parts|];
    assert units[from..n + 1] == units[from..n] + [units[n]];
    ContentSnoc(units[from..n], units[n]);
  }

  // ---------------------------------------------------------------------
  // Graphemes of one line
  // ---------------------------------------------------------------------

  /** The units from `n` on begin with the graphemes of a line. */
  ghost predicate LineAt(units: seq<Unit>, n: nat, graphemes: seq<string>) {
    n + |graphemes| <= |units| && units[n..n + |graphemes|] == GraphemeUnits(graphemes) && "" !in graphemes
  }

  function Ended(chunk: string, i: nat, graphemes: seq<string>): string {
    if i < |graphemes| then chunk else chunk + "\n"
  }

  lemma LineAtFits(units: seq<Unit>, n: nat, graphemes: seq<string>)
    requires LineAt(units, n, graphemes)
    ensures n + |graphemes| <= |units|
  {
  }

  lemma NoMoreChunks(parts: seq<string>, chunk: string, maxLength: nat)
    ensures Chunks([], parts, chunk, maxLength) == (parts, chunk)
  {
  }

  lemma ChunkStep(graphemes: seq<string>, i: nat, parts: seq<string>, chunk: string, maxLength: nat)
    requires i < |graphemes|
    ensures var g := graphemes[i];
      Chunks(graphemes[i..], parts, chunk, maxLength)
      == if Bytes(chunk) + Bytes(g) > maxLength then Chunks(graphemes[i + 1..], parts + [TrimEnd(chunk)], g, maxLength)
         else Chunks(graphemes[i + 1..], parts, chunk + g, maxLength)
  {
    hide Bytes, TrimEnd;
    assert graphemes[i..][0] == graphemes[i] && graphemes[i..][1..] == graphemes[i + 1..];
  }

  /** Packing the graphemes from `i` on. */
  lemma {:induction false} ChunksAreGreedy(units: seq<Unit>, n: nat, graphemes: seq<string>, i: nat,
      cuts: seq<nat>, parts: seq<string>, chunk: string, maxLength: nat)
    returns (cuts': seq<nat>)
    requires LineAt(units, n, graphemes) && i <= |graphemes| && (i == |graphemes| ==> chunk != "")
    requires LaidOutTo(units, n + i, cuts, parts, Ended(chunk, i, graphemes), maxLength)
    requires cuts[|parts|] >= n && (i == 0 ==> chunk == "")
    ensures var (parts', chunk') := Chunks(graphemes[i..], parts, chunk, maxLength);
      && chunk' != "" && cuts <= cuts' && parts <= parts'
      && LaidOutTo(units, n + |graphemes|, cuts', parts', chunk' + "\n", maxLength)
    decreases |graphemes| - i
  {
    hide Bytes, TrimEnd, LaidOutTo, Breaks, Chunks, Content, UnitText, LineAt;
    cuts' := cuts;
    LineAtFits(units, n, graphemes);
    if i == |graphemes| {
      NoMoreChunks(parts, chunk, maxLength);
      assert graphemes[i..] == [];
    } else {
      var g := graphemes[i];
      TextOfGrapheme(units, n, graphemes, i);
      ChunkStep(graphemes, i, parts, chunk, maxLength);
      OpenContent(units, n + i, cuts, parts, chunk, maxLength);
      BreakAtGrapheme(units, cuts[|parts|], n, graphemes, i, maxLength);
      if Bytes(chunk) + Bytes(g) > maxLength {
        CutHere(units, n + i, cuts, parts, chunk, maxLength);
        TakeUnit(units, n + i, cuts + [n + i], parts + [TrimEnd(chunk)], "", maxLength);
        assert "" + Ended(g, i + 1, graphemes) == Ended(g, i + 1, graphemes);
        cuts' := ChunksAreGreedy(units, n, graphemes, i + 1, cuts + [n + i], parts + [TrimEnd(chunk)], g, maxLength);
      } else {
        TakeUnit(units, n + i, cuts, parts, chunk, maxLength);
        Associative(chunk, g, "\n");
        cuts' := ChunksAreGreedy(units, n, graphemes, i + 1, cuts, parts, chunk + g, maxLength);
      }
    }
  }

  lemma OpenContent(units: seq<Unit>, n: nat, cuts: seq<nat>, parts: seq<string>, current: string, maxLength: nat)
    requires LaidOutTo(units, n, cuts, parts, current, maxLength)
    ensures |cuts| == |parts| + 1 && cuts[|parts|] <= n <= |units|
    ensures Content(units[cuts[|parts|]..n]) == current
  {
  }

  lemma BreakAtGrapheme(units: seq<Unit>, from: nat, n: nat, graphemes: seq<string>, i: nat, maxLength: nat)
    requires LineAt(units, n, graphemes) && n <= from <= n + i && i < |graphemes|
    ensures Breaks(units, from, n + i, maxLength)
       <==> Bytes(Content(units[from..n + i])) + Bytes(graphemes[i]) > maxLength
  {
    hide Bytes, Content;
    assert units[n + i] == units[n..n + |graphemes|][i];
  }

  lemma TextOfGrapheme(units: seq<Unit>, n: nat, graphemes: seq<string>, i: nat)
    requires LineAt(units, n, graphemes) && i < |graphemes|
    ensures graphemes[i] != "" && UnitText(units[n + i]) == Ended(graphemes[i], i + 1, graphemes)
  {
    assert units[n + i] == units[n..n + |graphemes|][i];
    assert graphemes[i] in graphemes;
  }

  lemma {:induction false} ChunksBehind(graphemes: seq<string>, before: seq<string>, parts: seq<string>, chunk: string,
      maxLength: nat)
    ensures Chunks(graphemes, before + parts, chunk, maxLength)
         == (before + Chunks(graphemes, parts, chunk, maxLength).0, Chunks(graphemes, parts, chunk, maxLength).1)
    decreases |graphemes|
  {
    hide Bytes, TrimEnd;
    if graphemes != [] {
      var g, rest := graphemes[0], graphemes[1..];
      if Bytes(chunk) + Bytes(g) > maxLength {
        assert before + parts + [TrimEnd(chunk)] == before + (parts + [TrimEnd(chunk)]);
        ChunksBehind(rest, before, parts + [TrimEnd(chunk)], g, maxLength);
      } else {
        ChunksBehind(rest, before, parts, chunk + g, maxLength);
      }
    }
  }

  lemma {:induction false} GraphemeContent(graphemes: seq<string>, from: nat, to: nat)
    requires from <= to <= |graphemes|
    ensures Content(GraphemeUnits(graphemes)[from..to])
         == if from < to == |graphemes| then Flatten(graphemes[from..to]) + "\n" else Flatten(graphemes[from..to])
    decreases |graphemes| - from
  {
    if from < to {
      var units := GraphemeUnits(graphemes);
      GraphemeContent(graphemes, from + 1, to);
      assert units[from..to][1..] == units[from + 1..to];
      assert graphemes[from..to][1..] == graphemes[from + 1..to];
    }
  }

  /** A piece of the line: the graphemes `from` to `to`, as many as fit, where the next one does not fit. */
  ghost predicate IsFullPiece(graphemes: seq<string>, from: nat, to: nat, piece: string, maxLength: nat) {
    && from <= to < |graphemes| && piece == TrimEnd(Flatten(graphemes[from..to]))
    && Bytes(Flatten(graphemes[from..to])) + Bytes(graphemes[to]) > maxLength
    && forall j: nat :: from < j < to ==> Bytes(Flatten(graphemes[from..j])) + Bytes(graphemes[j]) <= maxLength
  }

  ghost predicate PieceIs(graphemes: seq<string>, cuts: seq<nat>, pieces: seq<string>, k: nat, maxLength: nat) {
    k < |pieces| && k + 1 < |cuts| && IsFullPiece(graphemes, cuts[k], cuts[k + 1], pieces[k], maxLength)
  }

  /** A long line on its own: every piece is full, and the rest stays open. */
  lemma PiecesAreFull(graphemes: seq<string>, before: seq<string>, maxLength: nat) returns (cuts: seq<nat>)
    requires graphemes != [] && "" !in graphemes
    ensures var (parts, chunk) := Chunks(graphemes, before, "", maxLength);
      && before <= parts && |cuts| == |parts| - |before| + 1 && cuts[0] == 0
      && (forall k: nat :: k < |parts| - |before| ==> PieceIs(graphemes, cuts, parts[|before|..], k, maxLength))
      && cuts[|cuts| - 1] < |graphemes| && chunk == Flatten(graphemes[cuts[|cuts| - 1]..])
  {
    hide Bytes, TrimEnd, Chunks, Content;
    var units := GraphemeUnits(graphemes);
    NothingIsLaidOut(units, maxLength);
    assert graphemes[0..] == graphemes && units[0..|graphemes|] == units && before + [] == before;
    cuts := ChunksAreGreedy(units, 0, graphemes, 0, [0], [], "", maxLength);
    ChunksBehind(graphemes, before, [], "", maxLength);
    var (parts, chunk) := Chunks(graphemes, [], "", maxLength);
    assert (before + parts)[|before|..] == parts;
    OpenContent(units, |units|, cuts, parts, chunk + "\n", maxLength);
    var last := cuts[|parts|];
    GraphemeContent(graphemes, last, |graphemes|);
    assert graphemes[last..|graphemes|] == graphemes[last..];
    assert chunk + "\n" == Content(units[last..|graphemes|]);
    assert last < |graphemes|;
    assert (chunk + "\n")[..|chunk|] == (Flatten(graphemes[last..]) + "\n")[..|chunk|];
    forall k: nat | k < |parts|
      ensures PieceIs(graphemes, cuts, parts, k, maxLength)
    {
      assert PartIs(units, cuts, parts, k, maxLength) && EndsInTime(units, cuts, k, maxLength);
      FullPiece(graphemes, cuts[k], cuts[k + 1], parts[k], maxLength);
    }
  }

  lemma FullPiece(graphemes: seq<string>, from: nat, to: nat, piece: string, maxLength: nat)
    requires var units := GraphemeUnits(graphemes);
      Fills(units, from, to, piece, maxLength) && to < |units| && Breaks(units, from, to, maxLength)
    ensures IsFullPiece(graphemes, from, to, piece, maxLength)
  {
    hide Bytes, TrimEnd, Content;
    GraphemeContent(graphemes, from, to);
    forall j: nat | from < j < to
      ensures Bytes(Flatten(graphemes[from..j])) + Bytes(graphemes[j]) <= maxLength
    {
      assert !Breaks(GraphemeUnits(graphemes), from, j, maxLength);
      GraphemeContent(graphemes, from, j);
    }
  }

  // ---------------------------------------------------------------------
  // Lines
  // ---------------------------------------------------------------------

  ghost predicate NoneEmpty(units: seq<Unit>) {
    forall u <- units :: UnitText(u) != ""
  }

  lemma ContentIsNotEmpty(units: seq<Unit>, from: nat, to: nat)
    requires NoneEmpty(units) && from <= to <= |units|
    ensures Content(units[from..to]) == "" <==> from == to
  {
    if from < to {
      assert units[from..to][0] == units[from];
    }
  }

  /** The units from `n` on begin with those of this line. */
  ghost predicate Begins(units: seq<Unit>, n: nat, first: seq<Unit>) {
    n + |first| <= |units| && units[n..n + |first|] == first
  }

  /** Graphemes cut a line into consecutive pieces, none of them empty. */
  ghost predicate CutsIntoGraphemes(line: string, seg: Segmenter) {
    Flatten(seg(line)) == line && "" !in seg(line)
  }

  lemma LongLineIsGreedy(units: seq<Unit>, n: nat, cuts: seq<nat>, st: State, line: string, maxLength: nat, seg: Segmenter)
    returns (cuts': seq<nat>)
    requires LaidOutTo(units, n, cuts, st.parts, st.current, maxLength) && NoneEmpty(units)
    requires Bytes(line) > maxLength && CutsIntoGraphemes(line, seg) && !st.codeBlock
    requires Begins(units, n, GraphemeUnits(seg(line)))
    ensures var st' := AddLongLine(st, line, maxLength, seg);
      LaidOutTo(units, n + |seg(line)|, cuts', st'.parts, st'.current, maxLength) && !st'.codeBlock
  {
    hide TrimEnd, LaidOutTo, Breaks, Content, Chunks, NoneEmpty;
    var graphemes := seg(line);
    EmptyBytes();
    assert graphemes != [];
    hide Bytes;
    OpenContent(units, n, cuts, st.parts, st.current, maxLength);
    ContentIsNotEmpty(units, cuts[|st.parts|], n);
    var flushed := Flush(st);
    cuts' := cuts;
    if st.current != "" {
      BreakAtLongLine(units, cuts[|st.parts|], n, graphemes, maxLength);
      CutHere(units, n, cuts, st.parts, st.current, maxLength);
      cuts' := cuts + [n];
    }
    assert LaidOutTo(units, n, cuts', flushed.parts, "", maxLength);
    OpenContent(units, n, cuts', flushed.parts, "", maxLength);
    ContentIsNotEmpty(units, cuts'[|flushed.parts|], n);
    assert graphemes[0..] == graphemes;
    cuts' := ChunksAreGreedy(units, n, graphemes, 0, cuts', flushed.parts, "", maxLength);
    var (parts, chunk) := Chunks(graphemes, flushed.parts, "", maxLength);
    assert "" + (chunk + "\n") == chunk + "\n";
  }

  lemma BreakAtLongLine(units: seq<Unit>, from: nat, n: nat, graphemes: seq<string>, maxLength: nat)
    requires LineAt(units, n, graphemes) && from < n && graphemes != []
    ensures Breaks(units, from, n, maxLength)
  {
    hide Bytes, Content;
    assert units[n] == units[n..n + |graphemes|][0];
  }

  lemma ShortLineIsGreedy(units: seq<Unit>, n: nat, cuts: seq<nat>, st: State, line: string, maxLength: nat)
    returns (cuts': seq<nat>)
    requires LaidOutTo(units, n, cuts, st.parts, st.current, maxLength) && NoneEmpty(units)
    requires !st.codeBlock && !(FENCE <= line) && Begins(units, n, [LineUnit(line)])
    ensures var st' := AddShortLine(st, line, maxLength);
      LaidOutTo(units, n + 1, cuts', st'.parts, st'.current, maxLength) && !st'.codeBlock
  {
    hide TrimEnd, LaidOutTo, Content, NoneEmpty, Bytes;
    assert units[n] == units[n..n + 1][0] == LineUnit(line);
    OpenContent(units, n, cuts, st.parts, st.current, maxLength);
    ContentIsNotEmpty(units, cuts[|st.parts|], n);
    cuts' := cuts;
    if Bytes(st.current) + Bytes(line) + 1 > maxLength && st.current != "" {
      CutHere(units, n, cuts, st.parts, st.current, maxLength);
      cuts' := cuts + [n];
      TakeUnit(units, n, cuts', st.parts + [TrimEnd(st.current)], "", maxLength);
      assert "" + (line + "\n") == line + "\n";
    } else {
      TakeUnit(units, n, cuts, st.parts, st.current, maxLength);
    }
  }

  lemma LineIsGreedy(units: seq<Unit>, n: nat, cuts: seq<nat>, st: State, line: string, maxLength: nat, seg: Segmenter)
    returns (cuts': seq<nat>)
    requires LaidOutTo(units, n, cuts, st.parts, st.current, maxLength) && NoneEmpty(units)
    requires !st.codeBlock && !(FENCE <= line) && CutsIntoGraphemes(line, seg)
    requires Begins(units, n, UnitsOfLine(line, maxLength, seg))
    ensures var st' := AddLine(st, line, maxLength, seg);
      LaidOutTo(units, n + |UnitsOfLine(line, maxLength, seg)|, cuts', st'.parts, st'.current, maxLength) && !st'.codeBlock
  {
    hide LaidOutTo, NoneEmpty, AddLongLine, AddShortLine, Bytes, CutsIntoGraphemes, FENCE, Begins;
    if Bytes(line) > maxLength {
      cuts' := LongLineIsGreedy(units, n, cuts, st, line, maxLength, seg);
    } else {
      cuts' := ShortLineIsGreedy(units, n, cuts, st, line, maxLength);
    }
  }

  lemma {:induction false} LinesAreGreedy(units: seq<Unit>, n: nat, cuts: seq<nat>, st: State, lines: seq<string>,
      maxLength: nat, seg: Segmenter)
    returns (cuts': seq<nat>)
    requires LaidOutTo(units, n, cuts, st.parts, st.current, maxLength) && NoneEmpty(units)
    requires !st.codeBlock && Fenceless(lines) && forall line <- lines :: CutsIntoGraphemes(line, seg)
    requires n <= |units| && units[n..] == UnitsOf(lines, maxLength, seg)
    ensures var st' := AddLines(st, lines, maxLength, seg);
      LaidOutTo(units, |units|, cuts', st'.parts, st'.current, maxLength) && !st'.codeBlock
    decreases |lines|
  {
    hide LaidOutTo, NoneEmpty, AddLine, UnitsOfLine, CutsIntoGraphemes, FENCE;
    cuts' := cuts;
    if lines != [] {
      var line := lines[0];
      var first := UnitsOfLine(line, maxLength, seg);
      assert units[n..][..|first|] == first == units[n..n + |first|];
      assert units[n + |first|..] == units[n..][|first|..] == UnitsOf(lines[1..], maxLength, seg);
      cuts' := LineIsGreedy(units, n, cuts, st, line, maxLength, seg);
      cuts' := LinesAreGreedy(units, n + |first|, cuts', AddLine(st, line, maxLength, seg), lines[1..], maxLength, seg);
    }
  }

  lemma {:induction false} UnitsAreNotEmpty(lines: seq<string>, maxLength: nat, seg: Segmenter)
    requires forall line <- lines :: CutsIntoGraphemes(line, seg)
    ensures NoneEmpty(UnitsOf(lines, maxLength, seg))
  {
    hide Bytes;
    if lines != [] {
      var line := lines[0];
      var graphemes := seg(line);
      assert CutsIntoGraphemes(line, seg);
      assert forall g <- graphemes :: g != "";
      assert forall i :: 0 <= i < |graphemes| ==> graphemes[i] in graphemes;
      UnitsAreNotEmpty(lines[1..], maxLength, seg);
    }
  }

  // ---------------------------------------------------------------------
  // Messages
  // ---------------------------------------------------------------------

  /**
   Without fence lines the parts of a message over the limit cover its lines
   and graphemes in order, and a part ends in front of one of them only if with
   it the part would pass the limit, or a line over the limit begins there.
   */
  lemma FencelessPartsAreGreedy(message: string, maxLength: nat, seg: Segmenter) returns (cuts: seq<nat>)
    requires Bytes(message) > maxLength && Fenceless(Lines(message))
    requires forall line <- Lines(message) :: CutsIntoGraphemes(line, seg)
    ensures LaidOut(UnitsOf(Lines(message), maxLength, seg), cuts, PartsOf(message, maxLength, seg), maxLength)
  {
    hide LaidOutTo, NoneEmpty, Lines, UnitsOf, AddLines, Bytes, CutsIntoGraphemes, Fenceless, LaidOut;
    var lines := Lines(message);
    var units := UnitsOf(lines, maxLength, seg);
    UnitsAreNotEmpty(lines, maxLength, seg);
    NothingIsLaidOut(units, maxLength);
    assert units[0..] == units;
    cuts := LinesAreGreedy(units, 0, [0], START, lines, maxLength, seg);
    EmptyBytes();
    var st := AddLines(START, lines, maxLength, seg);
    OpenContent(units, |units|, cuts, st.parts, st.current, maxLength);
    ContentIsNotEmpty(units, cuts[|st.parts|], |units|);
    FinishedLayout(units, cuts, st, maxLength);
    if st.current != "" {
      cuts := cuts + [|units|];
    }
  }

  /** A message within the limit is sent as it is, and an empty one not at all. */
  lemma ShortMessagesStayWhole(message: string, maxLength: nat, seg: Segmenter)
    ensures Bytes(message) <= maxLength ==>
      PartsOf(message, maxLength, seg) == if message == "" then [] else [message]
  {
  }

  lemma NothingIsLaidOut(units: seq<Unit>, maxLength: nat)
    ensures LaidOutTo(units, 0, [0], [], "", maxLength)
  {
    assert units[0..0] == [];
  }

  lemma FinishedLayout(units: seq<Unit>, cuts: seq<nat>, st: State, maxLength: nat)
    requires LaidOutTo(units, |units|, cuts, st.parts, st.current, maxLength) && !st.codeBlock
    requires st.current == "" <==> cuts[|st.parts|] == |units|
    ensures LaidOut(units, if st.current == "" then cuts else cuts + [|units|], Finish(st), maxLength)
  {
    hide Breaks, TrimEnd, Content;
    if st.current != "" {
      var last := |st.parts|;
      assert Finish(st) == st.parts + [TrimEnd(st.current)];
      assert PartIs(units, cuts + [|units|], Finish(st), last, maxLength);
      hide PartIs, EndsInTime, Fills;
      forall k: nat | k < last
        ensures PartIs(units, cuts + [|units|], Finish(st), k, maxLength)
        ensures EndsInTime(units, cuts + [|units|], k, maxLength)
      {
        PartStays(units, cuts, st.parts, k, |units|, TrimEnd(st.current), maxLength);
      }
    }
  }
}
