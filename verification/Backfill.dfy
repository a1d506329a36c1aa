/** Fetching missed events page by page from a fixed event log. */
module Backfill {
  import opened Prelude
  import opened TaskEvents
  import opened EventList

  const TASK_EVENT_BACKFILL_LIMIT := 500

  datatype Page = Page(events: seq<TaskEvent>, lastSeq: nat, hasMore: bool)

  /** Rows are stored in ascending order of their sequence numbers. */
  ghost predicate AscendingLog(log: seq<TaskEvent>) {
    forall i, j :: 0 <= i < j < |log| ==> log[i].seqNo < log[j].seqNo
  }

  function After(log: seq<TaskEvent>, afterSeq: nat): seq<TaskEvent> {
    if log == [] then []
    else (if log[0].seqNo > afterSeq then [log[0]] else []) + After(log[1..], afterSeq)
  }

  /** `list_task_events` of the store: the answer the client gets. */
  function ListTaskEvents(log: seq<TaskEvent>, afterSeq: nat, limit: nat): Page {
    var matching := After(log, afterSeq);
    var events := if |matching| > limit then matching[..limit] else matching;
    Page(events, if events == [] then afterSeq else events[|events| - 1].seqNo, |matching| > limit)
  }

  // ---------------------------------------------------------------------
  // Pages of an ascending log are slices of it
  // ---------------------------------------------------------------------

  /** How many events the cursor has passed. */
  function Passed(log: seq<TaskEvent>, cursor: nat): (n: nat)
    ensures n <= |log|
    ensures forall k :: 0 <= k < n ==> log[k].seqNo <= cursor
    ensures n < |log| ==> log[n].seqNo > cursor
  {
    if log == [] || log[0].seqNo > cursor then 0 else 1 + Passed(log[1..], cursor)
  }

  lemma AscendingTail(log: seq<TaskEvent>)
    requires AscendingLog(log) && log != []
    ensures AscendingLog(log[1..]) && (log[1..] != [] ==> log[1..][0].seqNo > log[0].seqNo)
  {
    assert forall i :: 0 <= i < |log| - 1 ==> log[1..][i] == log[i + 1];
  }

  lemma {:induction false} AfterIsSuffix(log: seq<TaskEvent>, cursor: nat)
    requires AscendingLog(log)
    ensures After(log, cursor) == log[Passed(log, cursor)..]
  {
    hide AscendingLog;
    if log != [] {
      AscendingTail(log);
      if log[0].seqNo > cursor {
        AllAfter(log, cursor);
      } else {
        AfterIsSuffix(log[1..], cursor);
        assert log[1..][Passed(log[1..], cursor)..] == log[1 + Passed(log[1..], cursor)..];
      }
    }
  }

  lemma {:induction false} AllAfter(log: seq<TaskEvent>, cursor: nat)
    requires AscendingLog(log) && (log != [] ==> log[0].seqNo > cursor)
    ensures After(log, cursor) == log
  {
    hide AscendingLog;
    if log != [] {
      AscendingTail(log);
      AllAfter(log[1..], cursor);
    }
  }

  /** A cursor at the event before `n` has passed exactly `n` events. */
  lemma {:induction false} PassedAt(log: seq<TaskEvent>, n: nat)
    requires AscendingLog(log) && 0 < n <= |log|
    ensures Passed(log, log[n - 1].seqNo) == n
  {
    var rest := log[1..];
    assert forall i :: 0 <= i < |rest| ==> rest[i] == log[i + 1];
    if n > 1 {
      PassedAt(rest, n - 1);
      assert log[0].seqNo < log[n - 1].seqNo;
    }
  }

  // ---------------------------------------------------------------------
  // What a backfill should do
  // ---------------------------------------------------------------------

  function OfTask(events: seq<TaskEvent>, taskId: string): seq<TaskEvent> {
    if events == [] then []
    else
      var front, last := OfTask(events[..|events| - 1], taskId), events[|events| - 1];
      if last.taskId == taskId then front + [last] else front
  }

  predicate HasFinished(events: seq<TaskEvent>) {
    exists i :: 0 <= i < |events| && events[i].kind == Finished
  }

  predicate TargetReached(target: Option<nat>, cursor: nat) {
    target.None? || cursor >= target.value
  }

  datatype Outcome = Drained | SawFinished | Failed

  /** Cursor and list after the events up to position `n` of the log. */
  ghost predicate AtPosition(log: seq<TaskEvent>, taskId: string, start: nat, before: seq<TaskEvent>,
    n: nat, cursor: nat, items: seq<TaskEvent>)
  {
    var from := Passed(log, start);
    && from <= n <= |log|
    && cursor == (if n == from then start else log[n - 1].seqNo)
    && items == AppendAll(before, OfTask(log[from..n], taskId))
  }

  lemma {:induction false} AppendAllAppends(items: seq<TaskEvent>, a: seq<TaskEvent>, b: seq<TaskEvent>)
    ensures AppendAll(items, a + b) == AppendAll(AppendAll(items, a), b)
    decreases |a|
  {
    hide AppendUnique;
    if a == [] {
      assert a + b == b;
    } else {
      assert (a + b)[0] == a[0] && (a + b)[1..] == a[1..] + b;
      AppendAllAppends(AppendUnique(items, a[0]), a[1..], b);
    }
  }

  /** Taking the next event of the log. */
  lemma NextPosition(log: seq<TaskEvent>, taskId: string, start: nat, before: seq<TaskEvent>,
      n: nat, cursor: nat, items: seq<TaskEvent>)
    requires AscendingLog(log) && AtPosition(log, taskId, start, before, n, cursor, items) && n < |log|
    ensures log[n].seqNo > cursor
    ensures AtPosition(log, taskId, start, before, n + 1, log[n].seqNo,
      if log[n].taskId == taskId then AppendUnique(items, log[n]) else items)
  {
    hide AppendUnique, AppendAll, OfTask;
    var from := Passed(log, start);
    if n > from {
      assert log[n - 1].seqNo < log[n].seqNo;
    }
    assert log[from..n + 1] == log[from..n] + [log[n]];
    OfTaskOneMore(log[from..n], log[n], taskId);
    AppendAllAppends(before, OfTask(log[from..n], taskId), [log[n]]);
    AppendOne(items, log[n]);
  }

  lemma OfTaskOneMore(events: seq<TaskEvent>, event: TaskEvent, taskId: string)
    ensures OfTask(events + [event], taskId)
         == if event.taskId == taskId then OfTask(events, taskId) + [event] else OfTask(events, taskId)
  {
    assert (events + [event])[..|events|] == events;
  }

  lemma AppendOne(items: seq<TaskEvent>, event: TaskEvent)
    ensures AppendAll(items, [event]) == AppendUnique(items, event)
  {
    hide AppendUnique;
    assert [event][1..] == [];
    assert AppendAll(items, [event]) == AppendAll(AppendUnique(items, event), []);
  }

  /** Where a cursor reached that way stands. */
  lemma PassedPosition(log: seq<TaskEvent>, taskId: string, start: nat, before: seq<TaskEvent>,
      n: nat, cursor: nat, items: seq<TaskEvent>)
    requires AscendingLog(log) && AtPosition(log, taskId, start, before, n, cursor, items)
    ensures Passed(log, cursor) == n && After(log, cursor) == log[n..] && cursor >= start
  {
    AfterIsSuffix(log, cursor);
    if n > Passed(log, start) {
      PassedAt(log, n);
    }
  }

  // ---------------------------------------------------------------------
  // The loop
  // ---------------------------------------------------------------------

  /** How many pages `k` events fill. */
  function Pages(k: nat): nat {
    (k + (TASK_EVENT_BACKFILL_LIMIT - 1)) / TASK_EVENT_BACKFILL_LIMIT
  }

  /** As many full pages as hold that many events, and not one more. */
  lemma PagesHold(k: nat)
    ensures k <= 500 * Pages(k) < k + 500
  {
  }

  /** A page ends at position `n`, a Finished event has been seen by then, and the target is reached. */
  ghost predicate StopsEarlyAt(log: seq<TaskEvent>, start: nat, target: Option<nat>, n: nat) {
    var from := Passed(log, start);
    && from < n <= |log|
    && ((n - from) % 500 == 0 || n == |log|)
    && (exists k :: from <= k < n && log[k].kind == Finished)
    && (target.Some? ==> log[n - 1].seqNo >= target.value)
  }

  /**
   `backfill_missed_events_until` on a stream that stays current, against a
   log that does not change.  `failsAt` is the poll at which the request
   fails, if any.  The last result is ghost: the position reached in the log.

   The loop stops early at the first page end where it may, otherwise it
   reaches the end of the log; with the target still ahead it then polls four
   more times in vain.
   */
  method BackfillUntil(log: seq<TaskEvent>, taskId: string, start: nat, before: seq<TaskEvent>, target: Option<nat>,
      failsAt: Option<nat>)
    returns (outcome: Outcome, cursor: nat, items: seq<TaskEvent>, polls: nat, ghost n: nat)
    requires AscendingLog(log)
    ensures AtPosition(log, taskId, start, before, n, cursor, items)
    ensures outcome == SawFinished <==> StopsEarlyAt(log, start, target, n)
    ensures forall k :: 0 <= k < n ==> !StopsEarlyAt(log, start, target, k)
    ensures outcome == Drained ==> n == |log|
    ensures outcome == Drained ==>
              var size := |log| - Passed(log, start);
              polls == Pages(size)
                + if target.Some? && cursor < target.value then 4 else if size == 0 then 1 else 0
    ensures outcome == Failed ==> failsAt == Some(polls)
    ensures failsAt.Some? ==> polls <= failsAt.value
  {
    hide AtPosition, AppendUnique, AppendAll, OfTask, AscendingLog, After, HasFinished;
    hide ListTaskEvents, StopsEarlyAt, Pages, Passed;
    cursor, items := start, before;
    n := Passed(log, start);
    ghost var from := n;
    StartPosition(log, taskId, start, before);
    NoStopAtStart(log, start, target);
    var sawFinished := false;
    var emptyPolls := 0;
    polls := 0;
    while true
      invariant AtPosition(log, taskId, start, before, n, cursor, items)
      invariant from <= n <= |log| && ((n - from) % TASK_EVENT_BACKFILL_LIMIT == 0 || n == |log|)
      invariant 0 <= emptyPolls <= 3 && polls == Pages(n - from) + emptyPolls
      invariant emptyPolls > 0 ==> n == |log|
      invariant n == |log| && (emptyPolls > 0 || n > from) ==> !TargetReached(target, cursor)
      invariant sawFinished <==> HasFinished(log[from..n])
      invariant forall k :: 0 <= k <= n ==> !StopsEarlyAt(log, start, target, k)
      invariant failsAt.Some? ==> polls <= failsAt.value
      decreases |log| - n, 3 - emptyPolls
    {
      var beforeSeq := cursor;
      if failsAt == Some(polls) {
        outcome := Failed;
        break;
      }
      polls := polls + 1;
      var response := ListTaskEvents(log, cursor, TASK_EVENT_BACKFILL_LIMIT);
      PassedPosition(log, taskId, start, before, n, cursor, items);
      PageIsSlice(log, n, cursor);
      CursorAt(log, taskId, start, before, n, cursor, items);
      ghost var first := n;
      cursor, items, sawFinished :=
        TakePage(response.events, taskId, cursor, items, sawFinished, log, start, before, first);
      n := first + |response.events|;
      var targetReached := TargetReached(target, cursor);
      CursorAt(log, taskId, start, before, n, cursor, items);
      NoStopInside(log, start, target, first, n);
      StopsExactly(log, start, target, n, cursor);
      PagesStep(first - from, n - from);
      if sawFinished && targetReached {
        outcome := SawFinished;
        return;
      }
      if response.hasMore {
        continue;
      }
      if targetReached {
        outcome := Drained;
        break;
      }
      if response.lastSeq <= beforeSeq {
        if emptyPolls >= 3 {
          outcome := Drained;
          break;
        }
        emptyPolls := emptyPolls + 1;
      }
    }
  }

  /** The events of one page, which are the next ones of the log. */
  method TakePage(events: seq<TaskEvent>, taskId: string, cursor0: nat, items0: seq<TaskEvent>, saw0: bool,
      ghost log: seq<TaskEvent>, ghost start: nat, ghost before: seq<TaskEvent>, ghost first: nat)
    returns (cursor: nat, items: seq<TaskEvent>, sawFinished: bool)
    requires AscendingLog(log) && AtPosition(log, taskId, start, before, first, cursor0, items0)
    requires Passed(log, start) <= first && first + |events| <= |log| && events == log[first..first + |events|]
    requires saw0 <==> HasFinished(log[Passed(log, start)..first])
    ensures AtPosition(log, taskId, start, before, first + |events|, cursor, items)
    ensures sawFinished <==> HasFinished(log[Passed(log, start)..first + |events|])
  {
    hide AtPosition, AppendUnique, AppendAll, OfTask, AscendingLog, HasFinished;
    cursor, items, sawFinished := cursor0, items0, saw0;
    for i := 0 to |events|
      invariant AtPosition(log, taskId, start, before, first + i, cursor, items)
      invariant sawFinished <==> HasFinished(log[Passed(log, start)..first + i])
    {
      var event := events[i];
      assert event == log[first + i];
      NextPosition(log, taskId, start, before, first + i, cursor, items);
      if event.seqNo > cursor {
        cursor := event.seqNo;
        if event.taskId == taskId {
          items := AppendUnique(items, event);
        }
      }
      FinishedSoFar(log, Passed(log, start), first + i);
      if event.kind == Finished {
        sawFinished := true;
      }
    }
  }

  lemma StartPosition(log: seq<TaskEvent>, taskId: string, start: nat, before: seq<TaskEvent>)
    ensures AtPosition(log, taskId, start, before, Passed(log, start), start, before)
  {
    var from := Passed(log, start);
    assert log[from..from] == [];
  }

  lemma NoStopAtStart(log: seq<TaskEvent>, start: nat, target: Option<nat>)
    ensures forall k :: 0 <= k <= Passed(log, start) ==> !StopsEarlyAt(log, start, target, k)
    ensures Pages(0) == 0 && !HasFinished(log[Passed(log, start)..Passed(log, start)])
  {
  }

  lemma CursorAt(log: seq<TaskEvent>, taskId: string, start: nat, before: seq<TaskEvent>,
    n: nat, cursor: nat, items: seq<TaskEvent>)
    requires AtPosition(log, taskId, start, before, n, cursor, items)
    ensures cursor == if n == Passed(log, start) then start else log[n - 1].seqNo
  {
  }

  /** No page ends strictly between two page ends. */
  lemma NoStopInside(log: seq<TaskEvent>, start: nat, target: Option<nat>, first: nat, n: nat)
    requires Passed(log, start) <= first <= n <= |log| && n <= first + TASK_EVENT_BACKFILL_LIMIT
    requires first == |log| || (first - Passed(log, start)) % TASK_EVENT_BACKFILL_LIMIT == 0
    ensures forall k :: first < k < n ==> !StopsEarlyAt(log, start, target, k)
  {
    var from := Passed(log, start);
    forall k | first < k < n
      ensures !StopsEarlyAt(log, start, target, k)
    {
      NoMultipleInside(first - from, k - from);
    }
  }

  lemma NoMultipleInside(a: nat, b: nat)
    requires a % 500 == 0 && a < b < a + 500
    ensures b % 500 != 0
  {
  }

  lemma StopsExactly(log: seq<TaskEvent>, start: nat, target: Option<nat>, n: nat, cursor: nat)
    requires var from := Passed(log, start);
      && from <= n <= |log| && ((n - from) % TASK_EVENT_BACKFILL_LIMIT == 0 || n == |log|)
      && cursor == (if n == from then start else log[n - 1].seqNo)
    ensures StopsEarlyAt(log, start, target, n)
       <==> HasFinished(log[Passed(log, start)..n]) && TargetReached(target, cursor)
  {
    FinishedInSlice(log, Passed(log, start), n);
    hide HasFinished, Passed;
  }

  lemma FinishedInSlice(log: seq<TaskEvent>, from: nat, n: nat)
    requires from <= n <= |log|
    ensures HasFinished(log[from..n]) <==> exists k :: from <= k < n && log[k].kind == Finished
  {
    if k :| from <= k < n && log[k].kind == Finished {
      assert log[from..n][k - from] == log[k];
    }
  }

  lemma PagesStep(k: nat, k': nat)
    requires k <= k' <= k + TASK_EVENT_BACKFILL_LIMIT
    requires k == k' || k % TASK_EVENT_BACKFILL_LIMIT == 0
    ensures Pages(k') == Pages(k) + if k == k' then 0 else 1
  {
  }

  /** One page is the next slice of the log; without more to come it reaches the end. */
  lemma PageIsSlice(log: seq<TaskEvent>, n: nat, cursor: nat)
    requires AscendingLog(log) && n <= |log| && Passed(log, cursor) == n && After(log, cursor) == log[n..]
    ensures var page := ListTaskEvents(log, cursor, TASK_EVENT_BACKFILL_LIMIT);
      && n + |page.events| <= |log| && page.events == log[n..n + |page.events|]
      && (page.hasMore ==> |page.events| == TASK_EVENT_BACKFILL_LIMIT && n + |page.events| < |log|)
      && (!page.hasMore ==> |page.events| <= TASK_EVENT_BACKFILL_LIMIT && n + |page.events| == |log|)
      && (page.lastSeq > cursor <==> page.events != [])
  {
    var page := ListTaskEvents(log, cursor, TASK_EVENT_BACKFILL_LIMIT);
    var k := |page.events|;
    assert page.events == log[n..][..k] == log[n..n + k];
    if k > 0 {
      assert page.events[k - 1] == log[n + k - 1];
      assert log[n].seqNo <= log[n + k - 1].seqNo;
    }
  }

  lemma FinishedSoFar(log: seq<TaskEvent>, from: nat, n: nat)
    requires from <= n < |log|
    ensures HasFinished(log[from..n + 1]) <==> HasFinished(log[from..n]) || log[n].kind == Finished
  {
    var more := log[from..n + 1];
    assert more[..n - from] == log[from..n] && more[n - from] == log[n];
  }

  // ---------------------------------------------------------------------
  // What the list holds afterwards
  // ---------------------------------------------------------------------

  lemma {:induction false} OfTaskElements(events: seq<TaskEvent>, taskId: string)
    ensures forall e :: e in OfTask(events, taskId) <==> e in events && e.taskId == taskId
  {
    if events != [] {
      var n := |events| - 1;
      OfTaskElements(events[..n], taskId);
      assert events == events[..n] + [events[n]];
    }
  }

  lemma LogIsSorted(log: seq<TaskEvent>, i: nat, j: nat)
    requires AscendingLog(log) && i <= j < |log|
    ensures log[i].seqNo <= log[j].seqNo
  {
  }

  /** The slice behind the start and up to the cursor, in terms of sequence numbers. */
  lemma SliceBySeq(log: seq<TaskEvent>, taskId: string, start: nat, before: seq<TaskEvent>,
      n: nat, cursor: nat, items: seq<TaskEvent>, i: nat)
    requires AscendingLog(log) && AtPosition(log, taskId, start, before, n, cursor, items) && i < |log|
    ensures Passed(log, start) <= i < n <==> start < log[i].seqNo <= cursor
  {
    hide AppendAll, OfTask, AscendingLog, After;
    PassedPosition(log, taskId, start, before, n, cursor, items);
    var from := Passed(log, start);
    if from <= i < n {
      LogIsSorted(log, from, i);
      LogIsSorted(log, i, n - 1);
    } else if i >= n {
      LogIsSorted(log, n, i);
    }
  }

  lemma SliceMembers(log: seq<TaskEvent>, from: nat, n: nat, e: TaskEvent)
    requires from <= n <= |log|
    ensures e in log[from..n] <==> exists i :: from <= i < n && log[i] == e
  {
    if e in log[from..n] {
      var k :| 0 <= k < n - from && log[from..n][k] == e;
      assert log[from + k] == e;
    }
    if i :| from <= i < n && log[i] == e {
      assert log[from..n][i - from] == e;
    }
  }

  /**
   A list that was sorted and duplicate-free before still is, and it gained
   exactly the task's events behind the start and up to the cursor.
   */
  lemma BackfilledList(log: seq<TaskEvent>, taskId: string, start: nat, before: seq<TaskEvent>,
      n: nat, cursor: nat, items: seq<TaskEvent>)
    requires AscendingLog(log) && AtPosition(log, taskId, start, before, n, cursor, items)
    requires Canonical(before) && Coherent(Elements(before) + Elements(log))
    ensures cursor >= start && Canonical(items)
    ensures forall e :: e in items <==>
      e in before || (e in log && e.taskId == taskId && start < e.seqNo <= cursor)
  {
    hide AppendAll, OfTask, AtPosition, Ascending;
    PassedPosition(log, taskId, start, before, n, cursor, items);
    var taken, from := PositionItems(log, taskId, start, before, n, cursor, items);
    AppendAllIsCanonical(before, taken);
    OfTaskElements(log[from..n], taskId);
    assert Elements(taken) <= Elements(log);
    AppendAllElements(before, taken);
    forall e
      ensures e in items <==> e in before || (e in log && e.taskId == taskId && start < e.seqNo <= cursor)
    {
      assert e in items <==> e in Elements(items);
      SliceMembers(log, from, n, e);
      if i: nat :| i < |log| && log[i] == e {
        SliceBySeq(log, taskId, start, before, n, cursor, items, i);
      }
    }
  }

  lemma PositionItems(log: seq<TaskEvent>, taskId: string, start: nat, before: seq<TaskEvent>,
      n: nat, cursor: nat, items: seq<TaskEvent>) returns (taken: seq<TaskEvent>, from: nat)
    requires AtPosition(log, taskId, start, before, n, cursor, items)
    ensures from == Passed(log, start) && from <= n <= |log|
    ensures taken == OfTask(log[from..n], taskId) && items == AppendAll(before, taken)
  {
    from := Passed(log, start);
    taken := OfTask(log[from..n], taskId);
  }

  /** In a canonical list every event appears once. */
  lemma ListedOnce(items: seq<TaskEvent>, i: nat, j: nat)
    requires Canonical(items) && i < j < |items|
    ensures !SameId(items[i], items[j])
  {
    hide Less;
    assert items[i] in Elements(items) && items[j] in Elements(items);
    assert Less(items[i], items[j]);
    LessIsAnOrder(items[i], items[i]);
  }
}
