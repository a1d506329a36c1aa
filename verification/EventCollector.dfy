/**
 `collect_events_inner`: numbering the events a browser gets to see and
 pairing tool calls with their results.
 */
module EventCollector {
  import opened Prelude

  const U64_MAX: nat := 0xFFFF_FFFF_FFFF_FFFF

  datatype AgentEvent =
    | ToolCall(id: string, name: string)
    | ToolResult(id: string, name: string)
    | SubAgent(event: AgentEvent)
    | RateLimitRetrying
    | LlmRetrying
    | OtherEvent(name: string)

  /** An event and when the collector received it. */
  datatype Received = Received(event: AgentEvent, at: int)

  datatype ToolCallTiming = ToolCallTiming(id: string, name: string, startedAt: int, finishedAt: Option<int>)

  datatype Row = Row(seqNo: nat, createdAt: int, event: AgentEvent)

  /** Only one level of sub-agent wrapping is looked through. */
  function Effective(event: AgentEvent): AgentEvent {
    if event.SubAgent? then event.event else event
  }

  /** Retries are not shown; a wrapped retry is. */
  predicate ShouldPersist(event: AgentEvent) {
    !event.RateLimitRetrying? && !event.LlmRetrying?
  }

  function PairingKey(id: string, name: string): string {
    if id == "" then "legacy-name:" + name else "id:" + id
  }

  /** Two tool events pair exactly when they share an id, or both lack one and share a name. */
  lemma PairingKeyIsExact(id: string, name: string, id': string, name': string)
    ensures PairingKey(id, name) == PairingKey(id', name')
       <==> id == id' && (id == "" ==> name == name')
  {
    var k, k' := PairingKey(id, name), PairingKey(id', name');
    assert ("legacy-name:" + name)[12..] == name && ("legacy-name:" + name')[12..] == name';
    assert ("id:" + id)[3..] == id && ("id:" + id')[3..] == id';
    assert (id == "") != (id' == "") ==> k[0] != k'[0];
  }

  // ---------------------------------------------------------------------
  // Tool calls: the reference
  // ---------------------------------------------------------------------

  predicate IsCall(r: Received) {
    Effective(r.event).ToolCall?
  }

  predicate IsToolEvent(r: Received) {
    var e := Effective(r.event);
    e.ToolCall? || e.ToolResult?
  }

  function KeyOf(r: Received): string
    requires IsToolEvent(r)
  {
    var e := Effective(r.event);
    PairingKey(e.id, e.name)
  }

  predicate HasKey(r: Received, key: string) {
    IsToolEvent(r) && KeyOf(r) == key
  }

  /** The first tool event with this key at or behind `from`, or the length. */
  function NextWithKey(events: seq<Received>, key: string, from: nat): (q: nat)
    requires from <= |events|
    ensures from <= q <= |events|
    ensures q < |events| ==> HasKey(events[q], key)
    ensures forall k :: from <= k < q ==> !HasKey(events[k], key)
    decreases |events| - from
  {
    if from == |events| || HasKey(events[from], key) then from else NextWithKey(events, key, from + 1)
  }

  /** A call is finished by the next event of its key, provided that is a result. */
  function TimingOf(events: seq<Received>, p: nat): ToolCallTiming
    requires p < |events| && IsCall(events[p])
  {
    var call := Effective(events[p].event);
    var q := NextWithKey(events, KeyOf(events[p]), p + 1);
    ToolCallTiming(call.id, call.name, events[p].at,
      if q < |events| && !IsCall(events[q]) then Some(events[q].at) else None)
  }

  /** The positions of the calls, in order. */
  function CallPositions(events: seq<Received>): (ps: seq<nat>)
    ensures forall i :: 0 <= i < |ps| ==> ps[i] < |events| && IsCall(events[ps[i]])
    ensures forall i, j :: 0 <= i < j < |ps| ==> ps[i] < ps[j]
  {
    if events == [] then []
    else
      var n := |events| - 1;
      var before := CallPositions(events[..n]);
      if IsCall(events[n]) then before + [n] else before
  }

  /** The tool calls that should be reported for a stream of events. */
  ghost predicate ReportsCalls(events: seq<Received>, calls: seq<ToolCallTiming>) {
    && |calls| == |CallPositions(events)|
    && forall i :: 0 <= i < |calls| ==> calls[i] == TimingOf(events, CallPositions(events)[i])
  }

  /** No event of the call's key has come after it. */
  ghost predicate IsOpen(events: seq<Received>, p: nat)
    requires p < |events| && IsCall(events[p])
  {
    NextWithKey(events, KeyOf(events[p]), p + 1) == |events|
  }

  /** The active map holds exactly the open calls, each under its own key. */
  ghost predicate TracksOpenCalls(events: seq<Received>, active: map<string, nat>) {
    var ps := CallPositions(events);
    && (forall key <- active ::
          active[key] < |ps| && IsOpen(events, ps[active[key]]) && KeyOf(events[ps[active[key]]]) == key)
    && (forall i :: 0 <= i < |ps| && IsOpen(events, ps[i]) ==>
          KeyOf(events[ps[i]]) in active && active[KeyOf(events[ps[i]])] == i)
  }

  // ---------------------------------------------------------------------
  // One more event
  // ---------------------------------------------------------------------

  lemma NextWithOneMore(events: seq<Received>, r: Received, key: string, from: nat)
    requires from <= |events|
    ensures var q := NextWithKey(events, key, from);
      NextWithKey(events + [r], key, from)
      == if q < |events| then q else if HasKey(r, key) then |events| else |events| + 1
    decreases |events| - from
  {
    hide HasKey;
    var more := events + [r];
    if from < |events| {
      assert more[from] == events[from];
      NextWithOneMore(events, r, key, from + 1);
    }
  }

  lemma PositionsWithOneMore(events: seq<Received>, r: Received)
    ensures CallPositions(events + [r]) == if IsCall(r) then CallPositions(events) + [|events|] else CallPositions(events)
  {
    assert (events + [r])[..|events|] == events;
  }

  /** What one more event does to a call that was already there. */
  lemma TimingWithOneMore(events: seq<Received>, r: Received, p: nat)
    requires p < |events| && IsCall(events[p])
    ensures var t := TimingOf(events, p);
      TimingOf(events + [r], p)
      == if IsOpen(events, p) && HasKey(r, KeyOf(events[p])) && !IsCall(r) then t.(finishedAt := Some(r.at)) else t
    ensures IsOpen(events + [r], p) <==> IsOpen(events, p) && !HasKey(r, KeyOf(events[p]))
  {
    hide HasKey, KeyOf, NextWithKey;
    var more, key := events + [r], KeyOf(events[p]);
    assert more[p] == events[p] && more[|events|] == r;
    NextWithOneMore(events, r, key, p + 1);
    var q := NextWithKey(events, key, p + 1);
    assert q < |events| ==> more[q] == events[q];
  }

  lemma AddCall(events: seq<Received>, r: Received, calls: seq<ToolCallTiming>, active: map<string, nat>)
    requires ReportsCalls(events, calls) && TracksOpenCalls(events, active) && IsCall(r)
    ensures ReportsCalls(events + [r],
      calls + [ToolCallTiming(Effective(r.event).id, Effective(r.event).name, r.at, None)])
    ensures TracksOpenCalls(events + [r], active[KeyOf(r) := |calls|])
  {
    hide KeyOf, IsOpen, TimingOf, CallPositions;
    var more, ps := events + [r], CallPositions(events);
    PositionsWithOneMore(events, r);
    NewCall(events, r);
    forall i | 0 <= i < |ps|
      ensures TimingOf(more, ps[i]) == TimingOf(events, ps[i])
      ensures more[ps[i]] == events[ps[i]]
      ensures IsOpen(more, ps[i]) <==> IsOpen(events, ps[i]) && KeyOf(events[ps[i]]) != KeyOf(r)
    {
      TimingWithOneMore(events, r, ps[i]);
    }
  }

  lemma NewCall(events: seq<Received>, r: Received)
    requires IsCall(r)
    ensures var more := events + [r];
      more[|events|] == r && IsOpen(more, |events|)
      && TimingOf(more, |events|) == ToolCallTiming(Effective(r.event).id, Effective(r.event).name, r.at, None)
  {
  }

  /** What a result does to the call at index `i`. */
  lemma ResultEffect(events: seq<Received>, r: Received, active: map<string, nat>, i: nat)
    requires TracksOpenCalls(events, active) && IsToolEvent(r) && !IsCall(r) && i < |CallPositions(events)|
    ensures var more, p, key := events + [r], CallPositions(events)[i], KeyOf(r);
      && more[p] == events[p]
      && (IsOpen(more, p) <==> IsOpen(events, p) && KeyOf(events[p]) != key)
      && TimingOf(more, p)
         == if key in active && active[key] == i then TimingOf(events, p).(finishedAt := Some(r.at))
            else TimingOf(events, p)
  {
    hide KeyOf, IsOpen, TimingOf, CallPositions, NextWithKey;
    TimingWithOneMore(events, r, CallPositions(events)[i]);
  }

  lemma ResultReports(events: seq<Received>, r: Received, calls: seq<ToolCallTiming>, active: map<string, nat>)
    requires ReportsCalls(events, calls) && TracksOpenCalls(events, active) && IsToolEvent(r) && !IsCall(r)
    ensures var key := KeyOf(r);
      ReportsCalls(events + [r],
        if key in active then calls[active[key] := calls[active[key]].(finishedAt := Some(r.at))] else calls)
  {
    PositionsWithOneMore(events, r);
    ActiveInRange(events, calls, active);
    forall i | 0 <= i < |calls|
      ensures TimingOf(events + [r], CallPositions(events)[i])
        == if KeyOf(r) in active && active[KeyOf(r)] == i then calls[i].(finishedAt := Some(r.at)) else calls[i]
    {
      ResultEffect(events, r, active, i);
    }
    hide KeyOf, TimingOf, CallPositions, TracksOpenCalls;
  }

  lemma ResultTracks(events: seq<Received>, r: Received, active: map<string, nat>)
    requires TracksOpenCalls(events, active) && IsToolEvent(r) && !IsCall(r)
    ensures TracksOpenCalls(events + [r], active - {KeyOf(r)})
  {
    hide KeyOf, IsOpen, TimingOf, CallPositions, NextWithKey;
    PositionsWithOneMore(events, r);
    forall i | 0 <= i < |CallPositions(events)|
      ensures var p := CallPositions(events)[i];
        (events + [r])[p] == events[p]
        && (IsOpen(events + [r], p) <==> IsOpen(events, p) && KeyOf(events[p]) != KeyOf(r))
    {
      ResultEffect(events, r, active, i);
    }
  }

  lemma AddResult(events: seq<Received>, r: Received, calls: seq<ToolCallTiming>, active: map<string, nat>)
    requires ReportsCalls(events, calls) && TracksOpenCalls(events, active) && IsToolEvent(r) && !IsCall(r)
    ensures forall key <- active :: active[key] < |calls|
    ensures var key := KeyOf(r);
      && ReportsCalls(events + [r],
           if key in active then calls[active[key] := calls[active[key]].(finishedAt := Some(r.at))] else calls)
      && TracksOpenCalls(events + [r], active - {key})
  {
    hide ReportsCalls, TracksOpenCalls, KeyOf;
    ActiveInRange(events, calls, active);
    ResultReports(events, r, calls, active);
    ResultTracks(events, r, active);
  }

  lemma AddOther(events: seq<Received>, r: Received, calls: seq<ToolCallTiming>, active: map<string, nat>)
    requires ReportsCalls(events, calls) && TracksOpenCalls(events, active) && !IsToolEvent(r)
    ensures ReportsCalls(events + [r], calls) && TracksOpenCalls(events + [r], active)
  {
    hide KeyOf, IsOpen, TimingOf, CallPositions, NextWithKey;
    var more, ps := events + [r], CallPositions(events);
    PositionsWithOneMore(events, r);
    forall i | 0 <= i < |ps|
      ensures more[ps[i]] == events[ps[i]]
      ensures IsOpen(more, ps[i]) <==> IsOpen(events, ps[i])
      ensures TimingOf(more, ps[i]) == TimingOf(events, ps[i])
    {
      TimingWithOneMore(events, r, ps[i]);
    }
  }

  // ---------------------------------------------------------------------
  // Numbering
  // ---------------------------------------------------------------------

  function Accepted(events: seq<Received>): seq<Received> {
    if events == [] then []
    else
      var n := |events| - 1;
      var before := Accepted(events[..n]);
      if ShouldPersist(events[n].event) then before + [events[n]] else before
  }

  /** The first number saturates; later ones wrap around, as 64-bit arithmetic without checks does. */
  function NumberAt(initialLastSeq: nat, k: nat): nat {
    var first := if initialLastSeq < U64_MAX then initialLastSeq + 1 else U64_MAX;
    (first + k) % (U64_MAX + 1)
  }

  function RowsOf(events: seq<Received>, initialLastSeq: nat): (rows: seq<Row>)
    ensures |rows| == |Accepted(events)|
  {
    Numbered(Accepted(events), initialLastSeq)
  }

  function Numbered(accepted: seq<Received>, initialLastSeq: nat): (rows: seq<Row>)
    ensures |rows| == |accepted|
  {
    seq(|accepted|, k requires 0 <= k < |accepted| => Row(NumberAt(initialLastSeq, k), accepted[k].at, accepted[k].event))
  }

  lemma NumberedSnoc(accepted: seq<Received>, r: Received, initialLastSeq: nat)
    ensures Numbered(accepted + [r], initialLastSeq)
         == Numbered(accepted, initialLastSeq) + [Row(NumberAt(initialLastSeq, |accepted|), r.at, r.event)]
  {
    hide NumberAt;
  }

  lemma RowsWithOneMore(events: seq<Received>, r: Received, initialLastSeq: nat)
    ensures RowsOf(events + [r], initialLastSeq)
      == if r.event == RateLimitRetrying || r.event == LlmRetrying then RowsOf(events, initialLastSeq)
         else RowsOf(events, initialLastSeq) + [Row(NumberAt(initialLastSeq, |RowsOf(events, initialLastSeq)|), r.at, r.event)]
  {
    hide NumberAt, Accepted, Numbered;
    AcceptedSnoc(events, r);
    NumberedSnoc(Accepted(events), r, initialLastSeq);
  }

  lemma AcceptedSnoc(events: seq<Received>, r: Received)
    ensures Accepted(events + [r]) == if ShouldPersist(r.event) then Accepted(events) + [r] else Accepted(events)
  {
    assert (events + [r])[..|events|] == events;
  }

  // ---------------------------------------------------------------------
  // The loop
  // ---------------------------------------------------------------------

  /** The loop over the events received before the channel ends. */
  method CollectEvents(received: seq<Received>, hasBrowserScope: bool, hasLiveChannel: bool, initialLastSeq: nat)
    returns (toolCalls: seq<ToolCallTiming>, persistedEvents: seq<Row>, liveEvents: seq<Row>)
    requires initialLastSeq <= U64_MAX
    ensures ReportsCalls(received, toolCalls)
    ensures persistedEvents == if hasBrowserScope then RowsOf(received, initialLastSeq) else []
    ensures liveEvents == if hasLiveChannel then persistedEvents else []
  {
    hide ReportsCalls, TracksOpenCalls, RowsOf, Accepted;
    NothingReceived(initialLastSeq);
    toolCalls, persistedEvents, liveEvents := [], [], [];
    var activeToolCalls: map<string, nat> := map[];
    var nextSeq := if initialLastSeq < U64_MAX then initialLastSeq + 1 else U64_MAX;
    for i := 0 to |received|
      invariant ReportsCalls(received[..i], toolCalls) && TracksOpenCalls(received[..i], activeToolCalls)
      invariant persistedEvents == if hasBrowserScope then RowsOf(received[..i], initialLastSeq) else []
      invariant hasBrowserScope ==> nextSeq == NumberAt(initialLastSeq, |Accepted(received[..i])|)
      invariant liveEvents == if hasLiveChannel then persistedEvents else []
    {
      assert received[..i + 1] == received[..i] + [received[i]];
      var event, now := received[i].event, received[i].at;
      toolCalls, activeToolCalls := TrackToolEvent(received[..i], received[i], toolCalls, activeToolCalls);
      RowsWithOneMore(received[..i], received[i], initialLastSeq);
      AcceptedSnoc(received[..i], received[i]);
      if hasBrowserScope && ShouldPersist(event) {
        var persistedEvent := Row(nextSeq, now, event);
        if hasLiveChannel {
          liveEvents := liveEvents + [persistedEvent];
        }
        persistedEvents := persistedEvents + [persistedEvent];
        nextSeq := (nextSeq + 1) % (U64_MAX + 1);
        NumberAfter(initialLastSeq, |Accepted(received[..i])|);
      }
    }
    assert received[..|received|] == received;
  }

  lemma NothingReceived(initialLastSeq: nat)
    requires initialLastSeq <= U64_MAX
    ensures ReportsCalls([], []) && TracksOpenCalls([], map[]) && RowsOf([], initialLastSeq) == [] && Accepted([]) == []
    ensures NumberAt(initialLastSeq, 0) == if initialLastSeq < U64_MAX then initialLastSeq + 1 else U64_MAX
  {
  }

  lemma NumberAfter(initialLastSeq: nat, k: nat)
    ensures NumberAt(initialLastSeq, k + 1) == (NumberAt(initialLastSeq, k) + 1) % (U64_MAX + 1)
  {
  }

  /** The pairing part of one turn. */
  method TrackToolEvent(ghost before: seq<Received>, r: Received, calls: seq<ToolCallTiming>, active: map<string, nat>)
    returns (toolCalls: seq<ToolCallTiming>, activeToolCalls: map<string, nat>)
    requires ReportsCalls(before, calls) && TracksOpenCalls(before, active)
    ensures ReportsCalls(before + [r], toolCalls) && TracksOpenCalls(before + [r], activeToolCalls)
  {
    hide ReportsCalls, TracksOpenCalls, PairingKey;
    toolCalls, activeToolCalls := calls, active;
    ActiveInRange(before, calls, active);
    match Effective(r.event) {
      case ToolCall(id, name) =>
        AddCall(before, r, calls, active);
        var idx, key := |toolCalls|, PairingKey(id, name);
        toolCalls := toolCalls + [ToolCallTiming(id, name, r.at, None)];
        activeToolCalls := activeToolCalls[key := idx];
      case ToolResult(id, name) =>
        AddResult(before, r, calls, active);
        var key := PairingKey(id, name);
        if key in activeToolCalls {
          var idx := activeToolCalls[key];
          activeToolCalls := activeToolCalls - {key};
          if idx < |toolCalls| {
            toolCalls := toolCalls[idx := toolCalls[idx].(finishedAt := Some(r.at))];
          }
        } else {
          assert activeToolCalls - {key} == activeToolCalls;
        }
      case _ =>
        AddOther(before, r, calls, active);
    }
  }

  lemma ActiveInRange(events: seq<Received>, calls: seq<ToolCallTiming>, active: map<string, nat>)
    requires ReportsCalls(events, calls) && TracksOpenCalls(events, active)
    ensures forall key <- active :: active[key] < |calls|
  {
  }

  // ---------------------------------------------------------------------
  // What follows for the active map and for well-paired streams
  // ---------------------------------------------------------------------

  /** The active indexes are in range, distinct, unfinished, and under their own pairing keys. */
  lemma ActiveCallsAreOpen(events: seq<Received>, calls: seq<ToolCallTiming>, active: map<string, nat>, key: string)
    requires ReportsCalls(events, calls) && TracksOpenCalls(events, active) && key in active
    ensures active[key] < |calls|
    ensures calls[active[key]].finishedAt.None?
    ensures PairingKey(calls[active[key]].id, calls[active[key]].name) == key
    ensures forall other <- active :: other != key ==> active[other] != active[key]
  {
  }

  /**
   When a call and a result are the only tool events of their key, in that
   order, the call is reported as finished by that result, whatever else is
   interleaved with them.
   */
  lemma MatchedCallIsFinished(events: seq<Received>, calls: seq<ToolCallTiming>, p: nat, q: nat)
    requires ReportsCalls(events, calls)
    requires p < q < |events| && IsCall(events[p]) && IsToolEvent(events[q]) && !IsCall(events[q])
    requires KeyOf(events[q]) == KeyOf(events[p])
    requires forall k :: 0 <= k < |events| && k != p && k != q ==> !HasKey(events[k], KeyOf(events[p]))
    ensures exists i :: 0 <= i < |calls| && CallPositions(events)[i] == p && calls[i].finishedAt == Some(events[q].at)
  {
    var i := PositionOfCall(events, p);
    var next := NextWithKey(events, KeyOf(events[p]), p + 1);
    assert HasKey(events[q], KeyOf(events[p]));
    assert next == q;
    assert calls[i] == TimingOf(events, p);
  }

  /** The event is a tool call, or one wrapped by one sub-agent. */
  predicate CallsTool(e: AgentEvent, id: string, name: string) {
    e == ToolCall(id, name) || e == SubAgent(ToolCall(id, name))
  }

  predicate ReturnsFromTool(e: AgentEvent, id: string, name: string) {
    e == ToolResult(id, name) || e == SubAgent(ToolResult(id, name))
  }

  /** The event calls a tool or returns from it, under this id, or without an id under this name. */
  ghost predicate BelongsTo(e: AgentEvent, id: string, name: string) {
    exists name': string :: (CallsTool(e, id, name') || ReturnsFromTool(e, id, name')) && (id == "" ==> name' == name)
  }

  predicate IsResult(e: AgentEvent) {
    e.ToolResult? || (e.SubAgent? && e.event.ToolResult?)
  }

  /** The first event behind `p` that belongs to the call is at `q`. */
  ghost predicate IsNextOf(events: seq<Received>, call: ToolCallTiming, p: nat, q: int) {
    && p < q < |events| && BelongsTo(events[q].event, call.id, call.name)
    && forall k :: p < k < q ==> !BelongsTo(events[k].event, call.id, call.name)
  }

  lemma BelongsExactly(r: Received, id: string, name: string)
    ensures BelongsTo(r.event, id, name) <==> HasKey(r, PairingKey(id, name))
    ensures CallsTool(r.event, id, name) ==> IsCall(r) && KeyOf(r) == PairingKey(id, name)
    ensures IsCall(r) ==> CallsTool(r.event, Effective(r.event).id, Effective(r.event).name)
    ensures ReturnsFromTool(r.event, id, name) ==> IsToolEvent(r) && !IsCall(r)
  {
    hide PairingKey;
    var e := Effective(r.event);
    if IsToolEvent(r) {
      PairingKeyIsExact(e.id, e.name, id, name);
      assert CallsTool(r.event, e.id, e.name) || ReturnsFromTool(r.event, e.id, e.name);
    }
  }

  /**
   Every report is a call of the stream with its id, name and time, and calls
   are reported in order.  The first later event that belongs to the call
   finishes it if it is a result; otherwise the call stays unfinished.
   */
  lemma ReportedCall(events: seq<Received>, calls: seq<ToolCallTiming>, i: nat) returns (p: nat)
    requires ReportsCalls(events, calls) && i < |calls|
    ensures p < |events| && CallsTool(events[p].event, calls[i].id, calls[i].name) && calls[i].startedAt == events[p].at
    ensures p == CallPositions(events)[i]
    ensures calls[i].finishedAt.Some? ==>
      exists q :: IsNextOf(events, calls[i], p, q) && IsResult(events[q].event) && calls[i].finishedAt == Some(events[q].at)
    ensures calls[i].finishedAt.None? ==>
      || (forall q :: p < q < |events| ==> !BelongsTo(events[q].event, calls[i].id, calls[i].name))
      || exists q :: IsNextOf(events, calls[i], p, q) && !IsResult(events[q].event)
  {
    p := CallPositions(events)[i];
    var id, name := calls[i].id, calls[i].name;
    forall k | 0 <= k < |events|
      ensures BelongsTo(events[k].event, id, name) <==> HasKey(events[k], PairingKey(id, name))
    {
      BelongsExactly(events[k], id, name);
    }
    BelongsExactly(events[p], id, name);
    hide BelongsTo, PairingKey, HasKey;
    var q := NextWithKey(events, KeyOf(events[p]), p + 1);
    assert calls[i] == TimingOf(events, p);
    assert KeyOf(events[p]) == PairingKey(id, name);
    if q < |events| {
      assert IsNextOf(events, calls[i], p, q);
    }
  }

  /** And every call of the stream is reported. */
  lemma EveryCallIsReported(events: seq<Received>, calls: seq<ToolCallTiming>, p: nat, id: string, name: string)
    requires ReportsCalls(events, calls) && p < |events| && CallsTool(events[p].event, id, name)
    ensures exists i ::
      && 0 <= i < |calls| && calls[i].id == id && calls[i].name == name && calls[i].startedAt == events[p].at
      && CallPositions(events)[i] == p
  {
    BelongsExactly(events[p], id, name);
    var i := PositionOfCall(events, p);
    assert calls[i] == TimingOf(events, p);
  }

  lemma {:induction false} PositionOfCall(events: seq<Received>, p: nat) returns (i: nat)
    requires p < |events| && IsCall(events[p])
    ensures i < |CallPositions(events)| && CallPositions(events)[i] == p
  {
    var n := |events| - 1;
    if p == n {
      i := |CallPositions(events)| - 1;
    } else {
      assert events[..n][p] == events[p];
      i := PositionOfCall(events[..n], p);
    }
  }

  // ---------------------------------------------------------------------
  // What follows for the numbering
  // ---------------------------------------------------------------------

  /** The numbers continue the last one without a gap exactly as long as they fit in 64 bits. */
  lemma NumberingIsGapless(initialLastSeq: nat, count: nat)
    requires initialLastSeq <= U64_MAX
    ensures (forall k: nat :: k < count ==> NumberAt(initialLastSeq, k) == initialLastSeq + 1 + k)
       <==> count == 0 || initialLastSeq + count <= U64_MAX
  {
    if count > 0 && initialLastSeq + count > U64_MAX {
      assert NumberAt(initialLastSeq, count - 1) <= U64_MAX;
    }
  }

  /** What the collector reports as the last number. */
  function LastNumber(rows: seq<Row>, initialLastSeq: nat): nat {
    if rows == [] then initialLastSeq else rows[|rows| - 1].seqNo
  }

  lemma {:induction false} AcceptedAppend(a: seq<Received>, b: seq<Received>)
    ensures Accepted(a + b) == Accepted(a) + Accepted(b)
    decreases |b|
  {
    if b == [] {
      assert a + b == a;
    } else {
      var n := |b| - 1;
      assert (a + b)[..|a| + n] == a + b[..n];
      AcceptedAppend(a, b[..n]);
    }
  }

  /** Stopping and resuming from the last number gives the rows of one uninterrupted run. */
  lemma ResumeContinues(a: seq<Received>, b: seq<Received>, initialLastSeq: nat)
    requires initialLastSeq + |Accepted(a + b)| <= U64_MAX
    ensures RowsOf(a + b, initialLastSeq)
         == RowsOf(a, initialLastSeq) + RowsOf(b, LastNumber(RowsOf(a, initialLastSeq), initialLastSeq))
  {
    hide Accepted, NumberAt;
    AcceptedAppend(a, b);
    var n := |Accepted(a)|;
    if n > 0 {
      NumberInRange(initialLastSeq, n - 1);
    }
    var last := LastNumber(RowsOf(a, initialLastSeq), initialLastSeq);
    assert last == initialLastSeq + n;
    forall k: nat | k < |Accepted(b)|
      ensures NumberAt(initialLastSeq, n + k) == NumberAt(last, k)
    {
      NumberInRange(initialLastSeq, n + k);
      NumberInRange(last, k);
    }
  }

  lemma NumberInRange(initialLastSeq: nat, k: nat)
    requires initialLastSeq + k < U64_MAX
    ensures NumberAt(initialLastSeq, k) == initialLastSeq + 1 + k
  {
  }

  // ---------------------------------------------------------------------
  // The channel: buffered events, shutdown and draining
  // ---------------------------------------------------------------------

  /**
   The receiving side.  `armed` is the shutdown receiver still being held;
   `consumed` are the events the loop has taken, in order.
   */
  datatype Channel = Channel(
    buffer: seq<Received>,
    receiverClosed: bool,
    sendersGone: bool,
    armed: bool,
    signalled: bool,
    consumed: seq<Received>,
    ended: bool
  )

  datatype Action = Send(r: Received) | DropSenders | Signal | Turn

  function Act(c: Channel, action: Action): Channel {
    match action
    case Send(r) => if c.receiverClosed || c.sendersGone then c else c.(buffer := c.buffer + [r])
    case DropSenders => c.(sendersGone := true)
    case Signal => c.(signalled := true)
    case Turn =>
      if c.ended then c
      else if c.armed && c.signalled then c.(armed := false, receiverClosed := true)
      else if c.buffer != [] then c.(buffer := c.buffer[1..], consumed := c.consumed + [c.buffer[0]])
      else if c.receiverClosed || c.sendersGone then c.(ended := true)
      else c
  }

  function ActAll(c: Channel, actions: seq<Action>): Channel
    decreases |actions|
  {
    if actions == [] then c else ActAll(Act(c, actions[0]), actions[1..])
  }

  /** The events that got into the channel while the actions ran. */
  function Sent(c: Channel, actions: seq<Action>): seq<Received>
    decreases |actions|
  {
    if actions == [] then []
    else
      (if actions[0].Send? && !c.receiverClosed && !c.sendersGone then [actions[0].r] else [])
      + Sent(Act(c, actions[0]), actions[1..])
  }

  function Turns(actions: seq<Action>): nat {
    if actions == [] then 0 else (if actions[0].Turn? then 1 else 0) + Turns(actions[1..])
  }

  predicate ChannelInvariant(c: Channel) {
    && !(c.receiverClosed && c.armed)
    && (c.ended ==> c.buffer == [] && (c.receiverClosed || c.sendersGone))
  }

  /** Nothing is lost or reordered: what was sent is what was consumed, followed by what is buffered. */
  lemma {:induction false} NothingIsLost(c: Channel, actions: seq<Action>)
    requires ChannelInvariant(c)
    ensures var c' := ActAll(c, actions);
      ChannelInvariant(c') && c'.consumed + c'.buffer == c.consumed + c.buffer + Sent(c, actions)
    decreases |actions|
  {
    if actions == [] {
      assert c.consumed + c.buffer + [] == c.consumed + c.buffer;
    } else {
      var c1 := Act(c, actions[0]);
      var arrived := if actions[0].Send? && !c.receiverClosed && !c.sendersGone then [actions[0].r] else [];
      ActKeepsOrder(c, actions[0], arrived);
      NothingIsLost(c1, actions[1..]);
      assert c.consumed + c.buffer + arrived + Sent(c1, actions[1..])
        == c.consumed + c.buffer + (arrived + Sent(c1, actions[1..]));
    }
  }

  lemma ActKeepsOrder(c: Channel, action: Action, arrived: seq<Received>)
    requires ChannelInvariant(c)
    requires arrived == if action.Send? && !c.receiverClosed && !c.sendersGone then [action.r] else []
    ensures var c' := Act(c, action);
      ChannelInvariant(c') && c'.consumed + c'.buffer == c.consumed + c.buffer + arrived
  {
    assert c.buffer != [] ==> c.buffer == [c.buffer[0]] + c.buffer[1..];
    assert c.consumed + c.buffer + [] == c.consumed + c.buffer;
  }

  /**
   Once the shutdown was seen or all senders are gone, the loop consumes
   exactly the buffered events and then ends, after at most one turn more
   than there are events, or two if a shutdown can still be seen, whatever
   the senders try meanwhile.
   */
  lemma {:induction false} QuietChannelDrains(c: Channel, actions: seq<Action>)
    requires ChannelInvariant(c) && (c.receiverClosed || c.sendersGone)
    ensures var c' := ActAll(c, actions);
      && c'.consumed + c'.buffer == c.consumed + c.buffer
      && (c'.ended ==> c'.consumed == c.consumed + c.buffer)
      && (Turns(actions) > |c.buffer| + (if c.armed then 1 else 0) ==> c'.ended)
    decreases |actions|
  {
    if actions == [] {
      assert c.ended ==> c.consumed + c.buffer == c.consumed;
    } else {
      ActKeepsOrder(c, actions[0], []);
      assert c.consumed + c.buffer + [] == c.consumed + c.buffer;
      var c1 := Act(c, actions[0]);
      QuietChannelDrains(c1, actions[1..]);
      if c.ended || c1.ended {
        EndedStays(c1, actions[1..]);
      }
    }
  }

  /**
   A shutdown that was signalled: the loop's next turn stops the intake, and
   from then on it takes what is buffered and ends.
   */
  lemma ShutdownDrains(c: Channel, actions: seq<Action>)
    requires ChannelInvariant(c) && c.armed && c.signalled && !c.ended
    ensures Sent(c, [Turn] + actions) == []
    ensures var c' := ActAll(c, [Turn] + actions);
      && c'.consumed + c'.buffer == c.consumed + c.buffer
      && (Turns(actions) > |c.buffer| ==> c'.ended && c'.consumed == c.consumed + c.buffer)
  {
    var c1 := Act(c, Turn);
    assert ([Turn] + actions)[1..] == actions;
    QuietChannelDrains(c1, actions);
    NothingEnters(c1, actions);
    assert [] + Sent(c1, actions) == [];
  }

  lemma {:induction false} NothingEnters(c: Channel, actions: seq<Action>)
    requires c.receiverClosed
    ensures Sent(c, actions) == []
    decreases |actions|
  {
    if actions != [] {
      NothingEnters(Act(c, actions[0]), actions[1..]);
      assert [] + Sent(Act(c, actions[0]), actions[1..]) == [];
    }
  }

  lemma {:induction false} EndedStays(c: Channel, actions: seq<Action>)
    requires c.ended && (c.receiverClosed || c.sendersGone)
    ensures ActAll(c, actions).ended
    decreases |actions|
  {
    if actions != [] {
      EndedStays(Act(c, actions[0]), actions[1..]);
    }
  }
}
