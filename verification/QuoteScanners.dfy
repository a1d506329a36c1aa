/**
 The three hand-written scanners of xtask that step over quoted text:
 bracket balance, matching parenthesis, quoted literals.  Each keeps its own
 pair of flags; `Run` is the one state machine they are all proved to follow.
 */
module QuoteScanners {
  import opened Prelude

  datatype Quote = Quote(inString: bool, escaped: bool)

  const OUTSIDE := Quote(false, false)
  const INSIDE := Quote(true, false)

  function Step(q: Quote, ch: char): Quote {
    if q.inString then Quote(ch != '"' || q.escaped, ch == '\\' && !q.escaped)
    else Quote(ch == '"', false)
  }

  /** The state after reading `s` from state `q`. */
  function Run(q: Quote, s: string): Quote
    decreases |s|
  {
    if s == "" then q else Run(Step(q, s[0]), s[1..])
  }

  lemma {:induction false} RunAppend(q: Quote, a: string, b: string)
    ensures Run(q, a + b) == Run(Run(q, a), b)
    decreases |a|
  {
    if a == "" {
      assert a + b == b;
    } else {
      assert (a + b)[0] == a[0] && (a + b)[1..] == a[1..] + b;
      RunAppend(Step(q, a[0]), a[1..], b);
    }
  }

  lemma RunSnoc(q: Quote, s: string, i: nat)
    requires i < |s|
    ensures Run(q, s[..i + 1]) == Step(Run(q, s[..i]), s[i])
  {
    assert s[..i + 1] == s[..i] + [s[i]];
    RunAppend(q, s[..i], [s[i]]);
    assert [s[i]][1..] == "";
  }

  // ---------------------------------------------------------------------
  // Nesting depth outside quotes
  // ---------------------------------------------------------------------

  function Weight(q: Quote, ch: char, open: char, close: char): int {
    if q.inString then 0 else if ch == open then 1 else if ch == close then -1 else 0
  }

  /** Unquoted openers minus unquoted closers. */
  function Depth(q: Quote, s: string, open: char, close: char): int
    decreases |s|
  {
    if s == "" then 0
    else Weight(q, s[0], open, close) + Depth(Step(q, s[0]), s[1..], open, close)
  }

  lemma {:induction false} DepthAppend(q: Quote, a: string, b: string, open: char, close: char)
    ensures Depth(q, a + b, open, close) == Depth(q, a, open, close) + Depth(Run(q, a), b, open, close)
    decreases |a|
  {
    if a == "" {
      assert a + b == b;
    } else {
      assert (a + b)[0] == a[0] && (a + b)[1..] == a[1..] + b;
      DepthAppend(Step(q, a[0]), a[1..], b, open, close);
    }
  }

  lemma DepthSnoc(q: Quote, s: string, i: nat, open: char, close: char)
    requires i < |s|
    ensures Depth(q, s[..i + 1], open, close)
         == Depth(q, s[..i], open, close) + Weight(Run(q, s[..i]), s[i], open, close)
  {
    assert s[..i + 1] == s[..i] + [s[i]];
    DepthAppend(q, s[..i], [s[i]], open, close);
    assert [s[i]][1..] == "";
  }

  predicate Balanced(s: string) {
    Depth(OUTSIDE, s, '[', ']') == 0
  }

  method BracketsBalanced(s: string) returns (balanced: bool)
    ensures balanced <==> Balanced(s)
  {
    var depth := 0;
    var inString, prevEscape := false, false;
    for i := 0 to |s|
      invariant Quote(inString, prevEscape) == Run(OUTSIDE, s[..i])
      invariant !inString ==> !prevEscape
      invariant depth == Depth(OUTSIDE, s[..i], '[', ']')
    {
      RunSnoc(OUTSIDE, s, i);
      DepthSnoc(OUTSIDE, s, i, '[', ']');
      var ch := s[i];
      if inString {
        if ch == '"' && !prevEscape {
          inString := false;
        }
        prevEscape := ch == '\\' && !prevEscape;
      } else {
        match ch {
          case '"' => inString := true;
          case '[' => depth := depth + 1;
          case ']' => depth := depth - 1;
          case _ =>
        }
      }
    }
    assert s[..|s|] == s;
    balanced := depth == 0;
  }

  // ---------------------------------------------------------------------
  // Matching parenthesis
  // ---------------------------------------------------------------------

  /** Nesting depth just after position `k` of a scan that starts at `open`. */
  function Nesting(input: string, open: nat, k: nat): int
    requires open <= k < |input|
  {
    Depth(OUTSIDE, input[open..k + 1], '(', ')')
  }

  /** `close` is an unquoted `)` and the first position where the nesting is back at zero. */
  ghost predicate IsMatchingParen(input: string, open: nat, close: nat) {
    && open < close < |input|
    && input[close] == ')' && !Run(OUTSIDE, input[open..close]).inString
    && Nesting(input, open, close) == 0
    && forall k :: open <= k < close ==> Nesting(input, open, k) > 0
  }

  /** An unquoted `)` at which the nesting is used up, wherever the scan starts. */
  ghost predicate ClosesAt(input: string, open: nat, close: nat) {
    && open <= close < |input|
    && input[close] == ')' && !Run(OUTSIDE, input[open..close]).inString
    && Nesting(input, open, close) <= 0
  }

  /** The first such position is the answer; the saturating decrement never shows. */
  method FindMatchingParen(input: string, open: nat) returns (r: Option<nat>)
    requires open <= |input|
    ensures r.Some? ==> ClosesAt(input, open, r.value) && forall k: nat :: k < r.value ==> !ClosesAt(input, open, k)
    ensures r.None? ==> forall k: nat :: !ClosesAt(input, open, k)
  {
    var depth := 0;
    var inString, previousEscape := false, false;
    ghost var text := input[open..];
    for i := 0 to |input| - open
      invariant Quote(inString, previousEscape) == Run(OUTSIDE, text[..i])
      invariant !inString ==> !previousEscape
      invariant depth >= 0 && depth == Depth(OUTSIDE, text[..i], '(', ')')
      invariant forall k: nat :: k < open + i ==> !ClosesAt(input, open, k)
    {
      RunSnoc(OUTSIDE, text, i);
      DepthSnoc(OUTSIDE, text, i, '(', ')');
      assert text[..i] == input[open..open + i];
      assert text[..i + 1] == input[open..(open + i) + 1];
      assert Nesting(input, open, open + i) == Depth(OUTSIDE, text[..i + 1], '(', ')');
      var ch := input[open + i];
      if inString {
        if ch == '"' && !previousEscape {
          inString := false;
        }
        previousEscape := ch == '\\' && !previousEscape;
        continue;
      }
      match ch {
        case '"' => inString := true;
        case '(' => depth := depth + 1;
        case ')' =>
          depth := if depth > 0 then depth - 1 else 0;
          if depth == 0 {
            return Some(open + i);
          }
        case _ =>
      }
      previousEscape := false;
    }
    return None;
  }

  /** Started on a `(`, that is the first position where the nesting is back at zero. */
  lemma MatchingParenClosesFirst(input: string, open: nat, close: nat)
    requires open < |input| && input[open] == '('
    ensures IsMatchingParen(input, open, close)
       <==> ClosesAt(input, open, close) && forall k: nat :: k < close ==> !ClosesAt(input, open, k)
  {
    hide Run, Depth;
    if IsMatchingParen(input, open, close) {
    } else if ClosesAt(input, open, close) && forall k: nat :: k < close ==> !ClosesAt(input, open, k) {
      forall k | open <= k < close
        ensures Nesting(input, open, k) > 0
      {
        NestedBefore(input, open, close, k);
      }
      NestedBefore(input, open, close, close - 1);
      NestingStep(input, open, close);
    }
  }

  lemma {:induction false} NestedBefore(input: string, open: nat, close: nat, k: nat)
    requires open <= k < close < |input| && input[open] == '('
    requires forall k: nat :: k < close ==> !ClosesAt(input, open, k)
    ensures Nesting(input, open, k) > 0
  {
    hide Run, Depth;
    NestingStep(input, open, k);
    assert !ClosesAt(input, open, k);
    if k > open {
      NestedBefore(input, open, close, k - 1);
    }
  }

  /** One more character changes the nesting by its weight. */
  lemma NestingStep(input: string, open: nat, k: nat)
    requires open <= k < |input|
    ensures var before := if k == open then 0 else Nesting(input, open, k - 1);
      && Nesting(input, open, k) == before + Weight(Run(OUTSIDE, input[open..k]), input[k], '(', ')')
      && (k == open ==> !Run(OUTSIDE, input[open..k]).inString)
  {
    var text := input[open..];
    DepthSnoc(OUTSIDE, text, k - open, '(', ')');
    assert text[..k - open] == input[open..k];
    assert text[..k - open + 1] == input[open..k + 1];
    if k > open {
      assert input[open..(k - 1) + 1] == input[open..k];
    }
  }

  // ---------------------------------------------------------------------
  // Quoted literals
  // ---------------------------------------------------------------------

  /** The literals closed while reading `s`, with `current` already collected. */
  function Literals(q: Quote, current: string, s: string): seq<string>
    decreases |s|
  {
    if s == "" then []
    else if q.inString then
      if s[0] == '"' && !q.escaped then [current] + Literals(Step(q, s[0]), "", s[1..])
      else Literals(Step(q, s[0]), current + [s[0]], s[1..])
    else Literals(Step(q, s[0]), current, s[1..])
  }

  function QuotedStringsOf(s: string): seq<string> {
    Literals(OUTSIDE, "", s)
  }

  method QuotedStrings(input: string) returns (values: seq<string>)
    ensures values == QuotedStringsOf(input)
  {
    values := [];
    var current := "";
    var inString, previousEscape := false, false;
    for i := 0 to |input|
      invariant Quote(inString, previousEscape) == Run(OUTSIDE, input[..i])
      invariant !inString ==> !previousEscape
      invariant values + Literals(Quote(inString, previousEscape), current, input[i..]) == QuotedStringsOf(input)
    {
      RunSnoc(OUTSIDE, input, i);
      assert input[i..][1..] == input[i + 1..];
      var ch := input[i];
      if inString {
        if ch == '"' && !previousEscape {
          values := values + [current];
          current := "";
          inString := false;
        } else {
          current := current + [ch];
        }
        previousEscape := ch == '\\' && !previousEscape;
      } else if ch == '"' {
        inString := true;
        previousEscape := false;
      }
    }
  }

  /**
   The body of a quoted literal, as a grammar: ordinary characters and pairs
   of a backslash with any character.
   */
  predicate WellEscaped(body: string) {
    || body == ""
    || (body[0] == '\\' && |body| >= 2 && WellEscaped(body[2..]))
    || (body[0] != '\\' && body[0] != '"' && WellEscaped(body[1..]))
  }

  datatype Segment = Segment(gap: string, body: string)

  function Assemble(parts: seq<Segment>, tail: string): string {
    if parts == [] then tail
    else parts[0].gap + ("\"" + parts[0].body + "\"" + Assemble(parts[1..], tail))
  }

  /** Text that closes no literal: no quote at all, or one that stays open. */
  ghost predicate Unclosed(tail: string) {
    '"' !in tail || exists i: nat :: FirstQuoteAt(tail, i) && OpenBody(tail[i + 1..])
  }

  predicate FirstQuoteAt(s: string, i: nat) {
    i < |s| && s[i] == '"' && '"' !in s[..i]
  }

  predicate OpenBody(body: string) {
    WellEscaped(body) || (body != "" && body[|body| - 1] == '\\' && WellEscaped(body[..|body| - 1]))
  }

  ghost predicate IsQuotation(parts: seq<Segment>, tail: string) {
    && (forall p <- parts :: '"' !in p.gap && WellEscaped(p.body))
    && Unclosed(tail)
  }

  function Bodies(parts: seq<Segment>): seq<string> {
    if parts == [] then [] else [parts[0].body] + Bodies(parts[1..])
  }

  /** However a text is written as gaps and quoted literals, exactly the literals come back. */
  lemma {:induction false} QuotedStringsOfAssembled(parts: seq<Segment>, tail: string)
    requires IsQuotation(parts, tail)
    ensures QuotedStringsOf(Assemble(parts, tail)) == Bodies(parts)
  {
    if parts == [] {
      LiteralsOfUnclosed(tail);
    } else {
      var p, rest := parts[0], Assemble(parts[1..], tail);
      assert p in parts;
      SkipGap(p.gap, "\"" + p.body + "\"" + rest);
      OpenQuote(p.body + "\"" + rest);
      assert "\"" + p.body + "\"" + rest == "\"" + (p.body + "\"" + rest);
      CollectBody("", p.body, "\"" + rest);
      assert p.body + "\"" + rest == p.body + ("\"" + rest);
      assert ("\"" + rest)[1..] == rest && "" + p.body == p.body;
      QuotedStringsOfAssembled(parts[1..], tail);
    }
  }

  /** Every text can be written that way. */
  lemma {:induction false} QuotationOf(s: string) returns (parts: seq<Segment>, tail: string)
    ensures IsQuotation(parts, tail) && Assemble(parts, tail) == s
    decreases |s|
  {
    if i: nat :| FirstQuoteAt(s, i) {
      var body := s[i + 1..];
      if n: nat :| n < |body| && body[n] == '"' && WellEscaped(body[..n]) {
        var rest := body[n + 1..];
        var parts', tail' := QuotationOf(rest);
        parts, tail := [Segment(s[..i], body[..n])] + parts', tail';
        assert s == s[..i] + ("\"" + body[..n] + "\"" + rest);
      } else {
        BodyNeverCloses(body);
        parts, tail := [], s;
      }
    } else {
      NoFirstQuote(s);
      parts, tail := [], s;
    }
  }

  lemma {:induction false} SkipGap(gap: string, rest: string)
    requires '"' !in gap
    ensures Literals(OUTSIDE, "", gap + rest) == Literals(OUTSIDE, "", rest)
  {
    if gap == "" {
      assert gap + rest == rest;
    } else {
      assert (gap + rest)[0] == gap[0] && (gap + rest)[1..] == gap[1..] + rest;
      SkipGap(gap[1..], rest);
    }
  }

  lemma OpenQuote(rest: string)
    ensures Literals(OUTSIDE, "", "\"" + rest) == Literals(INSIDE, "", rest)
  {
    assert ("\"" + rest)[1..] == rest;
  }

  lemma {:induction false} CollectBody(current: string, body: string, rest: string)
    requires WellEscaped(body)
    ensures Literals(INSIDE, current, body + rest) == Literals(INSIDE, current + body, rest)
    decreases |body|
  {
    var s := body + rest;
    if body == "" {
      assert s == rest && current + body == current;
    } else {
      assert s[0] == body[0] && s[1..] == body[1..] + rest;
      if body[0] == '\\' {
        assert s[1..][0] == body[1] && s[1..][1..] == body[2..] + rest;
        assert current + [body[0]] + [body[1]] + body[2..] == current + body;
        CollectBody(current + [body[0]] + [body[1]], body[2..], rest);
      } else {
        assert current + [body[0]] + body[1..] == current + body;
        CollectBody(current + [body[0]], body[1..], rest);
      }
    }
  }

  lemma LiteralsOfUnclosed(tail: string)
    requires Unclosed(tail)
    ensures QuotedStringsOf(tail) == []
  {
    if '"' !in tail {
      SkipGap(tail, "");
      assert tail + "" == tail;
    } else {
      var i: nat :| FirstQuoteAt(tail, i) && OpenBody(tail[i + 1..]);
      LiteralsOfUnclosedQuote(tail[..i], tail[i + 1..]);
      SplitAtQuote(tail, i);
    }
  }

  lemma SplitAtQuote(s: string, i: nat)
    requires i < |s| && s[i] == '"'
    ensures s == s[..i] + ("\"" + s[i + 1..])
  {
  }

  lemma LiteralsOfUnclosedQuote(gap: string, body: string)
    requires '"' !in gap && OpenBody(body)
    ensures QuotedStringsOf(gap + ("\"" + body)) == []
  {
    SkipGap(gap, "\"" + body);
    OpenQuote(body);
    LiteralsOfOpenBody(body);
  }

  lemma LiteralsOfOpenBody(body: string)
    requires OpenBody(body)
    ensures Literals(INSIDE, "", body) == []
  {
    if WellEscaped(body) {
      CollectBody("", body, "");
      assert body + "" == body;
    } else {
      var n := |body| - 1;
      CollectBody("", body[..n], "\\");
      assert body == body[..n] + "\\";
    }
  }

  lemma {:induction false} NoFirstQuote(s: string)
    requires forall i: nat :: !FirstQuoteAt(s, i)
    ensures '"' !in s
  {
    if s != "" {
      var n := |s| - 1;
      forall i: nat
        ensures !FirstQuoteAt(s[..n], i)
      {
        assert !FirstQuoteAt(s, i);
        assert i < n ==> s[..n][..i] == s[..i];
      }
      NoFirstQuote(s[..n]);
      assert !FirstQuoteAt(s, n);
      assert s == s[..n] + [s[n]];
    }
  }

  /** A body with no closing quote is an open body. */
  lemma {:induction false} BodyNeverCloses(body: string)
    requires forall n: nat :: !(n < |body| && body[n] == '"' && WellEscaped(body[..n]))
    ensures OpenBody(body)
    decreases |body|
  {
    if body != "" && body != "\\" {
      var k := if body[0] == '\\' then 2 else 1;
      if k == 1 {
        assert body[..0] == "" && body[0] != '"';
      }
      var rest := body[k..];
      forall n: nat
        ensures !(n < |rest| && rest[n] == '"' && WellEscaped(rest[..n]))
      {
        if n < |rest| {
          assert body[..k + n][k..] == rest[..n] && body[k + n] == rest[n];
          assert body[..k + n][0] == body[0];
        }
      }
      BodyNeverCloses(rest);
      if !WellEscaped(rest) {
        assert body[..|body| - 1][k..] == rest[..|rest| - 1];
      }
    } else if body == "\\" {
      assert body[..0] == "";
    }
  }
}
