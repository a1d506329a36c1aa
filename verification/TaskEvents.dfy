/** Persisted task events and the in-memory log that broadcasts them. */
module TaskEvents {
  import opened Prelude

  datatype EventKind = Finished | NotFinished(name: string)

  datatype TaskEvent = TaskEvent(
    taskId: string,
    seqNo: nat,
    createdAt: int,
    kind: EventKind,
    body: string
  )

  datatype Message =
    | Persisted(event: TaskEvent)
    | StatusChanged(status: string, finalResponseAvailable: bool, lastSeq: nat)
    | ProgressChanged(snapshot: string, lastSeq: nat)
    | Closed

  // ---------------------------------------------------------------------
  // Rows in append order, deduplicated by sequence number
  // ---------------------------------------------------------------------

  function Position(rows: seq<TaskEvent>, seqNo: nat): (i: nat)
    ensures i <= |rows|
    ensures i < |rows| ==> rows[i].seqNo == seqNo
    ensures forall k :: 0 <= k < i ==> rows[k].seqNo != seqNo
  {
    if rows == [] || rows[0].seqNo == seqNo then 0 else 1 + Position(rows[1..], seqNo)
  }

  function Pushed(rows: seq<TaskEvent>, event: TaskEvent): seq<TaskEvent> {
    var i := Position(rows, event.seqNo);
    if i < |rows| then rows[i := event] else rows + [event]
  }

  function PushedAll(events: seq<TaskEvent>): seq<TaskEvent> {
    if events == [] then []
    else Pushed(PushedAll(events[..|events| - 1]), events[|events| - 1])
  }

  ghost predicate DistinctSeqs(rows: seq<TaskEvent>) {
    forall i, j :: 0 <= i < j < |rows| ==> rows[i].seqNo != rows[j].seqNo
  }

  /** What the rows say about each sequence number. */
  function AsMap(rows: seq<TaskEvent>): map<nat, TaskEvent> {
    if rows == [] then map[]
    else AsMap(rows[..|rows| - 1])[rows[|rows| - 1].seqNo := rows[|rows| - 1]]
  }

  /** The sequence numbers in the order they first appear. */
  function FirstSeqs(events: seq<TaskEvent>): seq<nat> {
    if events == [] then []
    else
      var before, last := FirstSeqs(events[..|events| - 1]), events[|events| - 1].seqNo;
      if last in before then before else before + [last]
  }

  function Seqs(rows: seq<TaskEvent>): seq<nat> {
    seq(|rows|, i requires 0 <= i < |rows| => rows[i].seqNo)
  }

  /** A map built by distinct rows holds exactly those rows. */
  lemma {:induction false} AsMapOfRows(rows: seq<TaskEvent>, seqNo: nat)
    ensures seqNo in AsMap(rows) <==> seqNo in Seqs(rows)
    ensures DistinctSeqs(rows) ==>
              forall i :: 0 <= i < |rows| ==> rows[i].seqNo in AsMap(rows) && AsMap(rows)[rows[i].seqNo] == rows[i]
  {
    if rows != [] {
      var n := |rows| - 1;
      AsMapOfRows(rows[..n], seqNo);
      assert Seqs(rows) == Seqs(rows[..n]) + [rows[n].seqNo];
      assert forall i :: 0 <= i < n ==> rows[..n][i] == rows[i];
    }
  }

  lemma {:induction false} AsMapOfPushed(rows: seq<TaskEvent>, event: TaskEvent)
    requires DistinctSeqs(rows)
    ensures DistinctSeqs(Pushed(rows, event))
    ensures AsMap(Pushed(rows, event)) == AsMap(rows)[event.seqNo := event]
  {
    var r, m := Pushed(rows, event), AsMap(rows)[event.seqNo := event];
    var at := Position(rows, event.seqNo);
    if at == |rows| {
      assert r[..|rows|] == rows;
    } else {
      forall seqNo: nat
        ensures seqNo in AsMap(r) <==> seqNo in m
        ensures seqNo in m ==> AsMap(r)[seqNo] == m[seqNo]
      {
        AsMapOfRows(r, seqNo);
        AsMapOfRows(rows, seqNo);
        assert Seqs(r) == Seqs(rows);
        if seqNo in m && seqNo != event.seqNo {
          var i :| 0 <= i < |rows| && Seqs(rows)[i] == seqNo;
          assert r[i] == rows[i];
        } else if seqNo in m {
          assert r[at] == event;
        }
      }
    }
  }

  /**
   After any pushes the rows hold each sequence number once, in the order of
   first appearance, with the event pushed last for it.
   */
  lemma {:induction false} LogIsLastWriteWins(events: seq<TaskEvent>)
    ensures DistinctSeqs(PushedAll(events))
    ensures Seqs(PushedAll(events)) == FirstSeqs(events)
    ensures AsMap(PushedAll(events)) == AsMap(events)
  {
    if events != [] {
      var n := |events| - 1;
      var rows, last := PushedAll(events[..n]), events[n];
      LogIsLastWriteWins(events[..n]);
      AsMapOfPushed(rows, last);
      var at := Position(rows, last.seqNo);
      if at < |rows| {
        assert Seqs(rows)[at] == last.seqNo;
        assert Seqs(Pushed(rows, last)) == Seqs(rows);
      } else {
        assert last.seqNo !in Seqs(rows);
        assert Seqs(Pushed(rows, last)) == Seqs(rows) + [last.seqNo];
      }
    }
  }

  // ---------------------------------------------------------------------
  // Operations on a log, one at a time
  // ---------------------------------------------------------------------

  datatype LogState = LogState(
    persisted: seq<TaskEvent>,
    lastStatus: Option<string>,
    lastProgressSnapshot: Option<string>,
    broadcast: seq<Message>,
    done: bool,
    closedAt: Option<int>
  )

  const NEW_LOG := LogState([], None, None, [], false, None)

  datatype LogOp =
    | Push(event: TaskEvent)
    | Status(status: string, finalResponseAvailable: bool, lastSeq: nat)
    | Progress(snapshot: string, lastSeq: nat)
    | CloseAt(now: int)

  function LogStep(s: LogState, op: LogOp): LogState {
    match op
    case Push(event) =>
      s.(persisted := Pushed(s.persisted, event), broadcast := s.broadcast + [Persisted(event)])
    case Status(status, available, lastSeq) =>
      s.(lastStatus := Some(status), broadcast := s.broadcast + [StatusChanged(status, available, lastSeq)])
    case Progress(snapshot, lastSeq) =>
      s.(lastProgressSnapshot := Some(snapshot), broadcast := s.broadcast + [ProgressChanged(snapshot, lastSeq)])
    case CloseAt(now) =>
      if s.done then s else s.(done := true, closedAt := Some(now), broadcast := s.broadcast + [Closed])
  }

  function RunLog(ops: seq<LogOp>): LogState {
    if ops == [] then NEW_LOG else LogStep(RunLog(ops[..|ops| - 1]), ops[|ops| - 1])
  }

  /** The events of the push operations, in order. */
  function PushesOf(ops: seq<LogOp>): seq<TaskEvent> {
    if ops == [] then []
    else
      var last := ops[|ops| - 1];
      PushesOf(ops[..|ops| - 1]) + if last.Push? then [last.event] else []
  }

  /** The time of the first close operation. */
  function FirstClose(ops: seq<LogOp>): Option<int> {
    if ops == [] then None
    else if ops[0].CloseAt? then Some(ops[0].now)
    else FirstClose(ops[1..])
  }

  /** No message follows the sentinel. */
  ghost predicate ClosedIsLast(messages: seq<Message>) {
    forall i :: 0 <= i < |messages| - 1 ==> messages[i] != Closed
  }

  /** No push and no notification comes after a close. */
  ghost predicate NothingAfterClose(ops: seq<LogOp>) {
    forall i, j :: 0 <= i < j < |ops| && ops[i].CloseAt? ==> ops[j].CloseAt?
  }

  lemma {:induction false} FirstCloseAppend(ops: seq<LogOp>, last: LogOp)
    ensures FirstClose(ops + [last])
         == if FirstClose(ops).None? && last.CloseAt? then Some(last.now) else FirstClose(ops)
    ensures FirstClose(ops).Some? <==> exists op <- ops :: op.CloseAt?
  {
    if ops == [] {
      assert [last][1..] == [];
    } else {
      assert (ops + [last])[1..] == ops[1..] + [last];
      FirstCloseAppend(ops[1..], last);
      assert ops == [ops[0]] + ops[1..];
    }
  }

  /** After any run the rows are those of the pushes, and the first close alone has stamped the log. */
  lemma {:induction false} RunRecords(ops: seq<LogOp>)
    ensures RunLog(ops).persisted == PushedAll(PushesOf(ops))
    ensures RunLog(ops).closedAt == FirstClose(ops) && (RunLog(ops).done <==> FirstClose(ops).Some?)
  {
    if ops != [] {
      hide FirstClose, Pushed;
      var front, last := ops[..|ops| - 1], ops[|ops| - 1];
      assert ops == front + [last];
      RunRecords(front);
      FirstCloseAppend(front, last);
      if last.Push? {
        assert PushesOf(ops)[..|PushesOf(ops)| - 1] == PushesOf(front);
      } else {
        assert PushesOf(ops) == PushesOf(front);
      }
    } else {
      FirstCloseAppend([], CloseAt(0));
    }
  }

  /**
   The sentinel is sent at most once; it is the last message of the log if
   and only if nothing is pushed or notified after the first close.
   */
  lemma {:induction false} ClosedIsLastExactly(ops: seq<LogOp>)
    ensures var s := RunLog(ops);
      && multiset(s.broadcast)[Closed] == (if s.done then 1 else 0)
      && (ClosedIsLast(s.broadcast) <==> NothingAfterClose(ops))
      && (s.done <==> HasClose(ops))
  {
    if ops != [] {
      hide ClosedIsLast, NothingAfterClose, HasClose, LogStep;
      var front, last := ops[..|ops| - 1], ops[|ops| - 1];
      assert ops == front + [last];
      ClosedIsLastExactly(front);
      BroadcastStep(RunLog(front), last);
      CloseStep(front, last);
    }
  }

  ghost predicate HasClose(ops: seq<LogOp>) {
    exists i :: 0 <= i < |ops| && ops[i].CloseAt?
  }

  lemma BroadcastStep(s: LogState, op: LogOp)
    requires multiset(s.broadcast)[Closed] == if s.done then 1 else 0
    ensures var s' := LogStep(s, op);
      && (s'.done <==> s.done || op.CloseAt?)
      && multiset(s'.broadcast)[Closed] == (if s'.done then 1 else 0)
      && (ClosedIsLast(s'.broadcast) <==> if op.CloseAt? && s.done then ClosedIsLast(s.broadcast) else !s.done)
  {
    hide Pushed;
    var s' := LogStep(s, op);
    forall k | 0 <= k < |s.broadcast|
      ensures s.broadcast[k] == Closed ==> s.done
    {
      assert s.broadcast[k] in multiset(s.broadcast);
    }
    if s.done && !op.CloseAt? {
      assert Closed in multiset(s.broadcast);
      var k :| 0 <= k < |s.broadcast| && s.broadcast[k] == Closed;
      assert s'.broadcast[k] == Closed;
    }
  }

  lemma CloseStep(front: seq<LogOp>, last: LogOp)
    ensures HasClose(front + [last]) <==> HasClose(front) || last.CloseAt?
    ensures NothingAfterClose(front + [last]) <==>
      if last.CloseAt? && HasClose(front) then NothingAfterClose(front) else !HasClose(front)
  {
    var ops := front + [last];
    assert ops[|front|] == last;
    assert forall i :: 0 <= i < |front| ==> ops[i] == front[i];
    if HasClose(front) {
      var i :| 0 <= i < |front| && front[i].CloseAt?;
      assert ops[i].CloseAt?;
    }
  }

  /** A push into a closed log follows the sentinel. */
  lemma PushAfterClosed(event: TaskEvent, now: int)
    ensures var sent := RunLog([CloseAt(now), Push(event)]).broadcast;
      sent == [Closed, Persisted(event)] && !ClosedIsLast(sent)
  {
    var ops := [CloseAt(now), Push(event)];
    assert ops[..1] == [CloseAt(now)] && ops[..1][..0] == [];
    assert RunLog(ops[..1]).broadcast == [Closed];
    var sent := RunLog(ops).broadcast;
    assert sent[0] == Closed && |sent| == 2;
  }

  class TaskEventLog {
    var persisted: seq<TaskEvent>
    var lastStatus: Option<string>
    var lastProgressSnapshot: Option<string>
    var broadcast: seq<Message>
    var done: bool
    var closedAt: Option<int>

    function State(): LogState
      reads this
    {
      LogState(persisted, lastStatus, lastProgressSnapshot, broadcast, done, closedAt)
    }

    constructor ()
      ensures State() == NEW_LOG
    {
      persisted, broadcast, done, closedAt := [], [], false, None;
      lastStatus, lastProgressSnapshot := None, None;
    }

    method PushPersisted(event: TaskEvent)
      modifies this`persisted, this`broadcast
      ensures State() == LogStep(old(State()), Push(event))
      ensures broadcast == old(broadcast) + [Persisted(event)] && event in persisted
    {
      var existing := Position(persisted, event.seqNo);
      if existing < |persisted| {
        persisted := persisted[existing := event];
      } else {
        persisted := persisted + [event];
      }
      broadcast := broadcast + [Persisted(event)];
      assert persisted[existing] == event;
    }

    /** The highest recorded sequence number, or zero. */
    method LatestSeq() returns (latest: nat)
      ensures forall e <- persisted :: e.seqNo <= latest
      ensures if persisted == [] then latest == 0 else exists e <- persisted :: e.seqNo == latest
    {
      latest := 0;
      for i := 0 to |persisted|
        invariant forall k :: 0 <= k < i ==> persisted[k].seqNo <= latest
        invariant if i == 0 then latest == 0 else exists k :: 0 <= k < i && persisted[k].seqNo == latest
      {
        if i == 0 || persisted[i].seqNo > latest {
          latest := persisted[i].seqNo;
        }
      }
    }

    method NotifyStatus(status: string, finalResponseAvailable: bool, lastSeq: nat)
      modifies this`lastStatus, this`broadcast
      ensures State() == LogStep(old(State()), Status(status, finalResponseAvailable, lastSeq))
      ensures lastStatus == Some(status)
      ensures broadcast == old(broadcast) + [StatusChanged(status, finalResponseAvailable, lastSeq)]
    {
      lastStatus := Some(status);
      broadcast := broadcast + [StatusChanged(status, finalResponseAvailable, lastSeq)];
    }

    method NotifyProgress(snapshot: string, lastSeq: nat)
      modifies this`lastProgressSnapshot, this`broadcast
      ensures State() == LogStep(old(State()), Progress(snapshot, lastSeq))
      ensures lastProgressSnapshot == Some(snapshot)
      ensures broadcast == old(broadcast) + [ProgressChanged(snapshot, lastSeq)]
    {
      lastProgressSnapshot := Some(snapshot);
      broadcast := broadcast + [ProgressChanged(snapshot, lastSeq)];
    }

    /** One closer running alone. */
    method Close(now: int)
      modifies this`done, this`closedAt, this`broadcast
      ensures State() == LogStep(old(State()), CloseAt(now))
      ensures if old(done) then unchanged(this)
              else done && closedAt == Some(now) && broadcast == old(broadcast) + [Closed]
    {
      if done {
        return;
      }
      done := true;
      closedAt := Some(now);
      broadcast := broadcast + [Closed];
    }
  }

  // ---------------------------------------------------------------------
  // Closers running concurrently
  // ---------------------------------------------------------------------

  /** Where a closer is: each lock section is one step. */
  datatype Closer = Before | Won | Stamped | Sent | Lost

  datatype Closing = Closing(done: bool, closedAt: Option<int>, closedMessages: nat, closers: seq<Closer>)

  function InitialClosing(n: nat): Closing {
    Closing(false, None, 0, seq(n, _ => Before))
  }

  /** Closer `i` takes its next step; the clock shows `now`. */
  function StepCloser(s: Closing, i: nat, now: int): Closing {
    if i >= |s.closers| then s
    else match s.closers[i]
      case Before =>
        if s.done then s.(closers := s.closers[i := Lost])
        else s.(done := true, closers := s.closers[i := Won])
      case Won => s.(closedAt := Some(now), closers := s.closers[i := Stamped])
      case Stamped => s.(closedMessages := s.closedMessages + 1, closers := s.closers[i := Sent])
      case _ => s
  }

  /** A closer whose steps follow each other directly does what `Close` promises. */
  lemma UninterruptedCloser(s: Closing, i: nat, now: int)
    requires i < |s.closers| && s.closers[i].Before?
    ensures var s' := StepCloser(StepCloser(StepCloser(s, i, now), i, now), i, now);
      && s'.done
      && (s.done ==> s'.closedAt == s.closedAt && s'.closedMessages == s.closedMessages)
      && (!s.done ==> s'.closedAt == Some(now) && s'.closedMessages == s.closedMessages + 1)
  {
    var s1 := StepCloser(s, i, now);
    assert s1.closers[i] == if s.done then Lost else Won;
  }

  function RunClosers(s: Closing, schedule: seq<(nat, int)>): Closing
    decreases |schedule|
  {
    if schedule == [] then s
    else RunClosers(StepCloser(s, schedule[0].0, schedule[0].1), schedule[1..])
  }

  predicate IsWinner(c: Closer) {
    c.Won? || c.Stamped? || c.Sent?
  }

  /** Nobody has won yet, or exactly one closer has, and the log shows how far it got. */
  ghost predicate ClosingInvariant(s: Closing) {
    if s.done then exists w: nat :: IsOnlyWinner(s, w)
    else
      && s.closedAt.None? && s.closedMessages == 0
      && forall i :: 0 <= i < |s.closers| ==> s.closers[i].Before?
  }

  ghost predicate IsOnlyWinner(s: Closing, w: nat) {
    && w < |s.closers| && IsWinner(s.closers[w])
    && (forall i :: 0 <= i < |s.closers| && i != w ==> !IsWinner(s.closers[i]))
    && (s.closedAt.Some? <==> !s.closers[w].Won?)
    && s.closedMessages == (if s.closers[w].Sent? then 1 else 0)
  }

  lemma StepKeepsClosing(s: Closing, i: nat, now: int)
    requires ClosingInvariant(s)
    ensures ClosingInvariant(StepCloser(s, i, now))
    ensures s.closedAt.Some? ==> StepCloser(s, i, now).closedAt == s.closedAt
  {
    var s' := StepCloser(s, i, now);
    if i < |s.closers| {
      var w := i;
      if s.done {
        w :| IsOnlyWinner(s, w);
      }
      assert IsOnlyWinner(s', w);
    }
  }

  /** In every interleaving at most one Closed message is sent, and the closing time never changes. */
  lemma {:induction false} ClosedOnce(s: Closing, schedule: seq<(nat, int)>)
    requires ClosingInvariant(s)
    ensures var s' := RunClosers(s, schedule);
      && ClosingInvariant(s') && s'.closedMessages <= 1
      && (s.closedAt.Some? ==> s'.closedAt == s.closedAt)
      && |s'.closers| == |s.closers|
    decreases |schedule|
  {
    if schedule != [] {
      StepKeepsClosing(s, schedule[0].0, schedule[0].1);
      ClosedOnce(StepCloser(s, schedule[0].0, schedule[0].1), schedule[1..]);
    }
  }

  /** Once every closer is through, the log is closed, stamped, and has sent exactly one Closed message. */
  lemma AllClosersDone(n: nat, schedule: seq<(nat, int)>)
    requires n > 0
    requires forall c <- RunClosers(InitialClosing(n), schedule).closers :: c.Sent? || c.Lost?
    ensures var s := RunClosers(InitialClosing(n), schedule);
      s.done && s.closedAt.Some? && s.closedMessages == 1
  {
    ClosedOnce(InitialClosing(n), schedule);
    var s := RunClosers(InitialClosing(n), schedule);
    assert s.closers[0] in s.closers;
  }

  /** At any time, the log is closed without a closing time exactly while some closer has won and not stamped yet. */
  lemma ClosedWithoutStampExactly(n: nat, schedule: seq<(nat, int)>)
    ensures var s := RunClosers(InitialClosing(n), schedule);
      s.done && s.closedAt.None? <==> exists w :: 0 <= w < |s.closers| && s.closers[w].Won?
  {
    hide RunClosers;
    ClosedOnce(InitialClosing(n), schedule);
    var s := RunClosers(InitialClosing(n), schedule);
    if s.done {
      var w :| IsOnlyWinner(s, w);
    }
  }

  /** Between the first two steps of the winner the log is closed but not yet stamped. */
  lemma ClosedBeforeStamped(n: nat, now: int)
    requires n > 0
    ensures var s := RunClosers(InitialClosing(n), [(0, now)]);
      s.done && s.closedAt.None?
  {
    assert [(0, now)][1..] == [];
    var s := StepCloser(InitialClosing(n), 0, now);
    assert RunClosers(InitialClosing(n), [(0, now)]) == RunClosers(s, []);
  }
}
