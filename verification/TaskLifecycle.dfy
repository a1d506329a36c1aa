/**
 The task lifecycle of the web session manager.  Each operation takes several
 locks one after the other; every lock section is one atomic step here, so
 that operations can interleave between sections.
 */
module TaskLifecycle {
  import opened Prelude

  datatype TaskStatus = Running | Completed | Cancelled | Failed

  datatype SessionStatus = Idle | Processing | Error

  datatype TaskMeta = TaskMeta(
    taskId: string,
    sessionId: string,
    taskText: string,
    status: TaskStatus,
    createdAt: int,
    finishedAt: Option<int>
  )

  datatype SessionMeta = SessionMeta(status: SessionStatus, lastActivityAt: int)

  datatype RunningTask = RunningTask(taskId: string)

  type Tasks = map<string, TaskMeta>
  type Sessions = map<string, SessionMeta>
  type RunningTasks = map<string, RunningTask>

  // ---------------------------------------------------------------------
  // Lock sections
  // ---------------------------------------------------------------------

  /** Completing or failing a task leaves a cancelled one alone. */
  function Concluded(tasks: Tasks, taskId: string, status: TaskStatus, now: int): Tasks {
    if taskId in tasks && tasks[taskId].status != Cancelled
    then tasks[taskId := tasks[taskId].(status := status, finishedAt := Some(now))]
    else tasks
  }

  predicate UpdatesSession(tasks: Tasks, taskId: string) {
    taskId in tasks ==> tasks[taskId].status != Cancelled
  }

  /** Cancelling overrides whatever the status is. */
  function CancelledIn(tasks: Tasks, taskId: string, now: int): Tasks {
    if taskId in tasks then tasks[taskId := tasks[taskId].(status := Cancelled, finishedAt := Some(now))] else tasks
  }

  function WithSessionStatus(sessions: Sessions, sessionId: string, status: SessionStatus): Sessions {
    if sessionId in sessions then sessions[sessionId := sessions[sessionId].(status := status)] else sessions
  }

  function WithActivity(sessions: Sessions, sessionId: string, status: SessionStatus, now: int): Sessions {
    if sessionId in sessions then sessions[sessionId := SessionMeta(status, now)] else sessions
  }

  function RunningMeta(tasks: Tasks, taskId: string, sessionId: string, taskText: string, resumed: bool, now: int): TaskMeta {
    var createdAt := if resumed && taskId in tasks then tasks[taskId].createdAt else now;
    TaskMeta(taskId, sessionId, taskText, Running, createdAt, None)
  }

  // ---------------------------------------------------------------------
  // One operation at a time
  // ---------------------------------------------------------------------

  /** The running tasks are exactly the tasks with status Running, and exactly the others have an end time. */
  ghost predicate Consistent(tasks: Tasks, running: RunningTasks) {
    && (forall t <- running :: t in tasks && running[t] == RunningTask(t))
    && (forall t <- tasks :: tasks[t].status == Running <==> t in running)
    && (forall t <- tasks :: tasks[t].status == Running <==> tasks[t].finishedAt.None?)
    && running.Keys <= tasks.Keys
  }

  class WebSessionManager {
    var sessions: Sessions
    var tasks: Tasks
    var runningTasks: RunningTasks

    ghost predicate Valid()
      reads this
    {
      Consistent(tasks, runningTasks)
    }

    constructor (sessions: Sessions)
      ensures Valid() && this.sessions == sessions && tasks == map[] && runningTasks == map[]
    {
      this.sessions, tasks, runningTasks := sessions, map[], map[];
    }

    method RegisterTaskWithId(sessionId: string, taskId: string, taskText: string, now: int)
      returns (r: Option<RunningTask>)
      requires Valid()
      modifies this
      ensures Valid()
      ensures sessionId !in old(sessions) ==> r.None? && unchanged(this)
      ensures sessionId in old(sessions) ==>
        && r == Some(RunningTask(taskId))
        && sessions == old(sessions)[sessionId := SessionMeta(Processing, now)]
        && tasks == old(tasks)[taskId := TaskMeta(taskId, sessionId, taskText, Running, now, None)]
        && runningTasks == old(runningTasks)[taskId := RunningTask(taskId)]
    {
      if sessionId !in sessions {
        return None;
      }
      sessions := sessions[sessionId := sessions[sessionId].(lastActivityAt := now, status := Processing)];
      tasks := tasks[taskId := TaskMeta(taskId, sessionId, taskText, Running, now, None)];
      var running := RunningTask(taskId);
      runningTasks := runningTasks[taskId := running];
      return Some(running);
    }

    /** Resuming keeps the creation time. */
    method RegisterExistingTask(sessionId: string, taskId: string, taskText: string, now: int)
      returns (r: Option<RunningTask>)
      requires Valid()
      modifies this
      ensures Valid()
      ensures sessionId !in old(sessions) ==> r.None? && unchanged(this)
      ensures sessionId in old(sessions) ==>
        && r == Some(RunningTask(taskId))
        && sessions == old(sessions)[sessionId := SessionMeta(Processing, now)]
        && tasks == old(tasks)[taskId := TaskMeta(taskId, sessionId, taskText, Running,
             if taskId in old(tasks) then old(tasks)[taskId].createdAt else now, None)]
        && runningTasks == old(runningTasks)[taskId := RunningTask(taskId)]
    {
      if sessionId !in sessions {
        return None;
      }
      sessions := sessions[sessionId := sessions[sessionId].(lastActivityAt := now, status := Processing)];
      var createdAt := if taskId in tasks then tasks[taskId].createdAt else now;
      tasks := tasks[taskId := TaskMeta(taskId, sessionId, taskText, Running, createdAt, None)];
      var running := RunningTask(taskId);
      runningTasks := runningTasks[taskId := running];
      return Some(running);
    }

    method CompleteTask(taskId: string, sessionId: string, now: int)
      requires Valid()
      modifies this
      ensures Valid()
      ensures tasks == if taskId in old(tasks) && old(tasks)[taskId].status != Cancelled
                       then old(tasks)[taskId := old(tasks)[taskId].(status := Completed, finishedAt := Some(now))]
                       else old(tasks)
      ensures sessions == if sessionId in old(sessions) && (taskId in old(tasks) ==> old(tasks)[taskId].status != Cancelled)
                          then old(sessions)[sessionId := old(sessions)[sessionId].(status := Idle)]
                          else old(sessions)
      ensures runningTasks == old(runningTasks) - {taskId}
    {
      var updateSession := true;
      if taskId in tasks {
        var meta := tasks[taskId];
        if meta.status == Cancelled {
          updateSession := false;
        } else {
          tasks := tasks[taskId := meta.(status := Completed, finishedAt := Some(now))];
        }
      }
      if updateSession && sessionId in sessions {
        sessions := sessions[sessionId := sessions[sessionId].(status := Idle)];
      }
      runningTasks := runningTasks - {taskId};
    }

    method FailTask(taskId: string, sessionId: string, now: int)
      requires Valid()
      modifies this
      ensures Valid()
      ensures tasks == if taskId in old(tasks) && old(tasks)[taskId].status != Cancelled
                       then old(tasks)[taskId := old(tasks)[taskId].(status := Failed, finishedAt := Some(now))]
                       else old(tasks)
      ensures sessions == if sessionId in old(sessions) && (taskId in old(tasks) ==> old(tasks)[taskId].status != Cancelled)
                          then old(sessions)[sessionId := old(sessions)[sessionId].(status := Error)]
                          else old(sessions)
      ensures runningTasks == old(runningTasks) - {taskId}
    {
      var updateSession := true;
      if taskId in tasks {
        var meta := tasks[taskId];
        if meta.status == Cancelled {
          updateSession := false;
        } else {
          tasks := tasks[taskId := meta.(status := Failed, finishedAt := Some(now))];
        }
      }
      if updateSession && sessionId in sessions {
        sessions := sessions[sessionId := sessions[sessionId].(status := Error)];
      }
      runningTasks := runningTasks - {taskId};
    }

    method CancelTask(taskId: string, sessionId: string, now: int) returns (wasRunning: bool)
      requires Valid()
      modifies this
      ensures Valid()
      ensures tasks == if taskId in old(tasks)
                       then old(tasks)[taskId := old(tasks)[taskId].(status := Cancelled, finishedAt := Some(now))]
                       else old(tasks)
      ensures sessions == if sessionId in old(sessions) then old(sessions)[sessionId := SessionMeta(Idle, now)]
                          else old(sessions)
      ensures runningTasks == old(runningTasks) - {taskId}
      ensures wasRunning <==> taskId in old(tasks) && old(tasks)[taskId].status == Running
    {
      if taskId in tasks {
        tasks := tasks[taskId := tasks[taskId].(status := Cancelled, finishedAt := Some(now))];
      }
      if sessionId in sessions {
        sessions := sessions[sessionId := sessions[sessionId].(status := Idle, lastActivityAt := now)];
      }
      wasRunning := taskId in runningTasks;
      runningTasks := runningTasks - {taskId};
    }

    /** A running task of the session, whenever there is one. */
    method RunningTaskForSession(sessionId: string) returns (r: Option<string>)
      requires Valid()
      ensures r.Some? ==> r.value in tasks && tasks[r.value].sessionId == sessionId && tasks[r.value].status == Running
      ensures r.None? ==> forall t <- tasks :: tasks[t].sessionId == sessionId ==> tasks[t].status != Running
    {
      var ids := runningTasks.Keys;
      while ids != {}
        invariant ids <= runningTasks.Keys
        invariant forall t <- runningTasks.Keys - ids ::
          t in tasks && !(tasks[t].sessionId == sessionId && tasks[t].status == Running)
        decreases |ids|
      {
        var t :| t in ids;
        if t in tasks && tasks[t].sessionId == sessionId && tasks[t].status == Running {
          return Some(t);
        }
        ids := ids - {t};
      }
      return None;
    }
  }

  // ---------------------------------------------------------------------
  // Operations interleaving between lock sections
  // ---------------------------------------------------------------------

  datatype Operation =
    | Complete(taskId: string, sessionId: string)
    | Fail(taskId: string, sessionId: string)
    | Cancel(taskId: string, sessionId: string)
    | Register(taskId: string, sessionId: string, taskText: string, resumed: bool)

  datatype Progress = Begun | FirstDone | SecondDone | Returned

  /** A call in flight: how far it is, whether it will touch the session, and whether it found the task running. */
  datatype Call = Call(op: Operation, progress: Progress, updateSession: bool, foundRunning: bool)

  datatype World = World(tasks: Tasks, sessions: Sessions, running: RunningTasks, calls: seq<Call>)

  function FirstSection(w: World, i: nat, now: int): World
    requires i < |w.calls|
  {
    var call := w.calls[i];
    match call.op
    case Complete(t, _) =>
      w.(tasks := Concluded(w.tasks, t, Completed, now),
         calls := w.calls[i := call.(progress := FirstDone, updateSession := UpdatesSession(w.tasks, t))])
    case Fail(t, _) =>
      w.(tasks := Concluded(w.tasks, t, Failed, now),
         calls := w.calls[i := call.(progress := FirstDone, updateSession := UpdatesSession(w.tasks, t))])
    case Cancel(t, _) =>
      w.(tasks := CancelledIn(w.tasks, t, now), calls := w.calls[i := call.(progress := FirstDone, updateSession := true)])
    case Register(_, s, _, _) =>
      w.(sessions := WithActivity(w.sessions, s, Processing, now),
         calls := w.calls[i := call.(progress := if s in w.sessions then FirstDone else Returned)])
  }

  function SecondSection(w: World, i: nat, now: int): World
    requires i < |w.calls|
  {
    var call := w.calls[i];
    var calls := w.calls[i := call.(progress := SecondDone)];
    match call.op
    case Complete(_, s) =>
      w.(sessions := if call.updateSession then WithSessionStatus(w.sessions, s, Idle) else w.sessions, calls := calls)
    case Fail(_, s) =>
      w.(sessions := if call.updateSession then WithSessionStatus(w.sessions, s, Error) else w.sessions, calls := calls)
    case Cancel(_, s) => w.(sessions := WithActivity(w.sessions, s, Idle, now), calls := calls)
    case Register(t, s, text, resumed) =>
      w.(tasks := w.tasks[t := RunningMeta(w.tasks, t, s, text, resumed, now)], calls := calls)
  }

  function ThirdSection(w: World, i: nat): World
    requires i < |w.calls|
  {
    var call := w.calls[i];
    var t := call.op.taskId;
    var calls := w.calls[i := call.(progress := Returned, foundRunning := !call.op.Register? && t in w.running)];
    if call.op.Register? then w.(running := w.running[t := RunningTask(t)], calls := calls)
    else w.(running := w.running - {t}, calls := calls)
  }

  /** Call `i` runs its next lock section at time `now`. */
  function Advance(w: World, i: nat, now: int): (w': World)
    ensures |w'.calls| == |w.calls|
  {
    if i >= |w.calls| then w
    else match w.calls[i].progress
      case Begun => FirstSection(w, i, now)
      case FirstDone => SecondSection(w, i, now)
      case SecondDone => ThirdSection(w, i)
      case Returned => w
  }

  lemma SectionsOfCall(w: World, i: nat, now: int)
    requires i < |w.calls| && w.calls[i].progress == Begun && !w.calls[i].op.Register?
    ensures var op, w' := w.calls[i].op, Advance(Advance(Advance(w, i, now), i, now), i, now);
      var (t, s) := (op.taskId, op.sessionId);
      && w'.calls[i].progress == Returned && (w'.calls[i].foundRunning <==> t in w.running)
      && w'.running == w.running - {t}
      && (op.Complete? ==>
            && w'.tasks == Concluded(w.tasks, t, Completed, now)
            && w'.sessions == if UpdatesSession(w.tasks, t) then WithSessionStatus(w.sessions, s, Idle) else w.sessions)
      && (op.Fail? ==>
            && w'.tasks == Concluded(w.tasks, t, Failed, now)
            && w'.sessions == if UpdatesSession(w.tasks, t) then WithSessionStatus(w.sessions, s, Error) else w.sessions)
      && (op.Cancel? ==>
            && w'.tasks == CancelledIn(w.tasks, t, now)
            && w'.sessions == WithActivity(w.sessions, s, Idle, now))
  {
    hide Concluded, UpdatesSession, CancelledIn, WithSessionStatus, WithActivity;
    var w1 := Advance(w, i, now);
    assert w1.calls[i].op == w.calls[i].op && w1.calls[i].progress == FirstDone && w1.running == w.running;
    var w2 := Advance(w1, i, now);
    assert w2.calls[i].op == w.calls[i].op && w2.calls[i].progress == SecondDone && w2.running == w.running;
  }

  /** A call whose three sections follow each other directly does what the method of the class promises. */
  lemma UninterruptedCall(w: World, i: nat, now: int)
    requires i < |w.calls| && w.calls[i].progress == Begun && !w.calls[i].op.Register?
    ensures var op, w' := w.calls[i].op, Advance(Advance(Advance(w, i, now), i, now), i, now);
      var (t, s) := (op.taskId, op.sessionId);
      && w'.calls[i].progress == Returned && (w'.calls[i].foundRunning <==> t in w.running)
      && w'.running == w.running - {t}
      && (op.Complete? ==>
            && w'.tasks == (if t in w.tasks && w.tasks[t].status != Cancelled
                            then w.tasks[t := w.tasks[t].(status := Completed, finishedAt := Some(now))] else w.tasks)
            && w'.sessions == if s in w.sessions && (t in w.tasks ==> w.tasks[t].status != Cancelled)
                              then w.sessions[s := w.sessions[s].(status := Idle)] else w.sessions)
      && (op.Fail? ==>
            && w'.tasks == (if t in w.tasks && w.tasks[t].status != Cancelled
                            then w.tasks[t := w.tasks[t].(status := Failed, finishedAt := Some(now))] else w.tasks)
            && w'.sessions == if s in w.sessions && (t in w.tasks ==> w.tasks[t].status != Cancelled)
                              then w.sessions[s := w.sessions[s].(status := Error)] else w.sessions)
      && (op.Cancel? ==>
            && w'.tasks == (if t in w.tasks then w.tasks[t := w.tasks[t].(status := Cancelled, finishedAt := Some(now))]
                            else w.tasks)
            && w'.sessions == if s in w.sessions then w.sessions[s := SessionMeta(Idle, now)] else w.sessions)
  {
    hide Advance;
    SectionsOfCall(w, i, now);
  }

  lemma SectionsOfRegistration(w: World, i: nat, now: int)
    requires i < |w.calls| && w.calls[i].progress == Begun && w.calls[i].op.Register?
    ensures var op, w' := w.calls[i].op, Advance(Advance(Advance(w, i, now), i, now), i, now);
      var (t, s) := (op.taskId, op.sessionId);
      && w'.calls[i].progress == Returned
      && (s !in w.sessions ==> w'.tasks == w.tasks && w'.sessions == w.sessions && w'.running == w.running)
      && (s in w.sessions ==>
            && w'.tasks == w.tasks[t := RunningMeta(w.tasks, t, s, op.taskText, op.resumed, now)]
            && w'.sessions == WithActivity(w.sessions, s, Processing, now)
            && w'.running == w.running[t := RunningTask(t)])
  {
    hide RunningMeta;
    var op, w1 := w.calls[i].op, Advance(w, i, now);
    if op.sessionId in w.sessions {
      assert w1.calls[i].op == op && w1.calls[i].progress == FirstDone;
      var w2 := Advance(w1, i, now);
      assert w2.calls[i].op == op && w2.calls[i].progress == SecondDone;
    } else {
      assert w1.calls[i].progress == Returned && Advance(w1, i, now) == w1;
    }
  }

  /** The same for the two registrations: of a new task, and of an existing one for a resumed run. */
  lemma UninterruptedRegistration(w: World, i: nat, now: int)
    requires i < |w.calls| && w.calls[i].progress == Begun && w.calls[i].op.Register?
    ensures var op, w' := w.calls[i].op, Advance(Advance(Advance(w, i, now), i, now), i, now);
      var (t, s) := (op.taskId, op.sessionId);
      && w'.calls[i].progress == Returned
      && (s !in w.sessions ==> w'.tasks == w.tasks && w'.sessions == w.sessions && w'.running == w.running)
      && (s in w.sessions ==>
            && w'.tasks == w.tasks[t := TaskMeta(t, s, op.taskText, Running,
                 if op.resumed && t in w.tasks then w.tasks[t].createdAt else now, None)]
            && w'.sessions == w.sessions[s := SessionMeta(Processing, now)]
            && w'.running == w.running[t := RunningTask(t)])
  {
    hide Advance;
    SectionsOfRegistration(w, i, now);
  }

  function Interleave(w: World, schedule: seq<(nat, int)>): (w': World)
    ensures |w'.calls| == |w.calls|
    decreases |schedule|
  {
    if schedule == [] then w else Interleave(Advance(w, schedule[0].0, schedule[0].1), schedule[1..])
  }

  /** The call works on task `t`. */
  predicate On(call: Call, t: string) {
    call.op.taskId == t
  }

  /** A registered, running task on which only complete, fail and cancel calls are about to start. */
  ghost predicate Ready(w: World, t: string) {
    && t in w.tasks && w.tasks[t].status == Running && t in w.running
    && (forall i :: 0 <= i < |w.calls| ==>
          w.calls[i].progress == Begun && !w.calls[i].foundRunning && (On(w.calls[i], t) ==> !w.calls[i].op.Register?))
  }

  /** What a call on `t` tells about the task and its handle. */
  predicate CallInvariant(call: Call, meta: TaskMeta, isRunning: bool) {
    && !call.op.Register?
    // a cancel that is past its first section has the last word
    && (call.op.Cancel? && call.progress != Begun ==> meta.status == Cancelled)
    && (call.progress != Begun ==> meta.status != Running && meta.finishedAt.Some?)
    && (call.progress == Returned ==> !isRunning)
    && (call.foundRunning ==> call.progress == Returned)
  }

  ghost predicate TaskInvariant(w: World, t: string) {
    && t in w.tasks
    && (forall i :: 0 <= i < |w.calls| && On(w.calls[i], t) ==> CallInvariant(w.calls[i], w.tasks[t], t in w.running))
    && (w.tasks[t].status != Running ==> w.tasks[t].finishedAt.Some?)
    && AtMostOneFound(w.calls, t)
    && (t !in w.running ==> SomeFound(w.calls, t))
  }

  /** The handle is removed by one call only. */
  ghost predicate AtMostOneFound(calls: seq<Call>, t: string) {
    forall i, j :: 0 <= i < j < |calls| && On(calls[i], t) && On(calls[j], t)
      ==> !(calls[i].foundRunning && calls[j].foundRunning)
  }

  ghost predicate SomeFound(calls: seq<Call>, t: string) {
    exists i :: 0 <= i < |calls| && On(calls[i], t) && calls[i].foundRunning
  }

  /** What one lock section of call `i` does, seen from task `t`. */
  ghost predicate Effect(w: World, w': World, i: nat, t: string)
    requires t in w.tasks && i < |w.calls| == |w'.calls|
  {
    var call, call' := w.calls[i], w'.calls[i];
    && w'.calls == w.calls[i := call'] && call'.op == call.op && t in w'.tasks
    && (!On(call, t) ==> w'.tasks[t] == w.tasks[t] && (t in w'.running <==> t in w.running))
    && (On(call, t) ==>
          && CallInvariant(call', w'.tasks[t], t in w'.running)
          && (w.tasks[t].status == Cancelled ==> w'.tasks[t].status == Cancelled)
          && (w.tasks[t].status != Running ==> w'.tasks[t].status != Running)
          && (w'.tasks[t].status != Running ==> w'.tasks[t].finishedAt.Some?)
          && (t in w'.running ==> t in w.running)
          && (t in w.running && t !in w'.running ==> call'.foundRunning)
          && (call'.foundRunning && !call.foundRunning ==> t in w.running && t !in w'.running)
          && (call.foundRunning ==> call'.foundRunning))
  }

  lemma FirstSectionEffect(w: World, i: nat, now: int, t: string)
    requires TaskInvariant(w, t) && i < |w.calls| && w.calls[i].progress == Begun
    ensures Effect(w, FirstSection(w, i, now), i, t)
  {
    hide AtMostOneFound, SomeFound;
  }

  lemma SecondSectionEffect(w: World, i: nat, now: int, t: string)
    requires TaskInvariant(w, t) && i < |w.calls| && w.calls[i].progress == FirstDone
    ensures Effect(w, SecondSection(w, i, now), i, t)
  {
    hide AtMostOneFound, SomeFound, WithSessionStatus, WithActivity;
  }

  lemma ThirdSectionEffect(w: World, i: nat, t: string)
    requires TaskInvariant(w, t) && i < |w.calls| && w.calls[i].progress == SecondDone
    ensures Effect(w, ThirdSection(w, i), i, t)
  {
    hide AtMostOneFound, SomeFound;
  }

  lemma AdvanceEffect(w: World, i: nat, now: int, t: string)
    requires TaskInvariant(w, t) && i < |w.calls|
    ensures Effect(w, Advance(w, i, now), i, t)
  {
    hide FirstSection, SecondSection, ThirdSection, Effect;
    match w.calls[i].progress {
      case Begun => FirstSectionEffect(w, i, now, t);
      case FirstDone => SecondSectionEffect(w, i, now, t);
      case SecondDone => ThirdSectionEffect(w, i, t);
      case Returned => NoEffect(w, i, t);
    }
  }

  lemma NoEffect(w: World, i: nat, t: string)
    requires TaskInvariant(w, t) && i < |w.calls|
    ensures Effect(w, w, i, t)
  {
    hide AtMostOneFound, SomeFound;
  }

  lemma AdvanceKeepsInvariant(w: World, i: nat, now: int, t: string)
    requires TaskInvariant(w, t)
    ensures TaskInvariant(Advance(w, i, now), t)
    ensures forall k :: 0 <= k < |w.calls| ==> Advance(w, i, now).calls[k].op == w.calls[k].op
  {
    if i < |w.calls| {
      AdvanceEffect(w, i, now, t);
      hide Advance;
      var w' := Advance(w, i, now);
      if t in w.running {
        NoneFound(w, t);
      } else {
        var k :| 0 <= k < |w.calls| && On(w.calls[k], t) && w.calls[k].foundRunning;
        assert On(w'.calls[k], t) && w'.calls[k].foundRunning;
      }
      if On(w.calls[i], t) && t in w.running && t !in w'.running {
        assert On(w'.calls[i], t) && w'.calls[i].foundRunning;
      }
    }
  }

  lemma NoneFound(w: World, t: string)
    requires TaskInvariant(w, t) && t in w.running
    ensures forall i :: 0 <= i < |w.calls| && On(w.calls[i], t) ==> !w.calls[i].foundRunning
  {
  }

  lemma {:induction false} InterleaveKeepsInvariant(w: World, schedule: seq<(nat, int)>, t: string)
    requires TaskInvariant(w, t)
    ensures TaskInvariant(Interleave(w, schedule), t)
    ensures forall k :: 0 <= k < |w.calls| ==> Interleave(w, schedule).calls[k].op == w.calls[k].op
    decreases |schedule|
  {
    hide TaskInvariant, Advance;
    if schedule != [] {
      AdvanceKeepsInvariant(w, schedule[0].0, schedule[0].1, t);
      InterleaveKeepsInvariant(Advance(w, schedule[0].0, schedule[0].1), schedule[1..], t);
    }
  }

  /**
   In every interleaving of complete, fail and cancel calls on a registered
   task: at no time have two calls found it running; as soon as a cancel is
   past its first lock section the task is, and stays, cancelled; and once
   any of the calls has returned the task is not in the running map.
   */
  lemma CancelHasTheLastWord(w: World, schedule: seq<(nat, int)>, t: string, i: nat)
    requires Ready(w, t) && i < |w.calls| && On(w.calls[i], t)
    ensures var w', call := Interleave(w, schedule), Interleave(w, schedule).calls[i];
      && t in w'.tasks
      && (call.op.Cancel? && call.progress != Begun ==> w'.tasks[t].status == Cancelled)
      && (call.progress != Begun ==> w'.tasks[t].status != Running && w'.tasks[t].finishedAt.Some?)
      && (call.progress == Returned ==> t !in w'.running)
      && (forall j :: 0 <= j < |w'.calls| && j != i && On(w'.calls[j], t)
            ==> !(call.foundRunning && w'.calls[j].foundRunning))
  {
    hide Advance;
    InterleaveKeepsInvariant(w, schedule, t);
    var w' := Interleave(w, schedule);
    assert CallInvariant(w'.calls[i], w'.tasks[t], t in w'.running);
  }

  /** When all calls on the task have returned, exactly one of them found it running. */
  lemma ExactlyOneFindsItRunning(w: World, schedule: seq<(nat, int)>, t: string, i: nat) returns (finder: nat)
    requires Ready(w, t) && i < |w.calls| && On(w.calls[i], t)
    requires Interleave(w, schedule).calls[i].progress == Returned
    ensures var calls := Interleave(w, schedule).calls;
      && finder < |calls| && On(calls[finder], t) && calls[finder].foundRunning
      && forall j :: 0 <= j < |calls| && j != finder && On(calls[j], t) ==> !calls[j].foundRunning
  {
    hide Advance;
    InterleaveKeepsInvariant(w, schedule, t);
    var w' := Interleave(w, schedule);
    assert CallInvariant(w'.calls[i], w'.tasks[t], t in w'.running);
    finder :| 0 <= finder < |w'.calls| && On(w'.calls[finder], t) && w'.calls[finder].foundRunning;
  }

  // ---------------------------------------------------------------------
  // Which call decides what becomes of the task
  // ---------------------------------------------------------------------

  ghost predicate HasTurn(schedule: seq<(nat, int)>, i: nat) {
    exists q: nat :: q < |schedule| && schedule[q].0 == i
  }

  /** Call `i` runs its first lock section at step `p` of the schedule. */
  ghost predicate StartsAt(schedule: seq<(nat, int)>, i: nat, p: nat) {
    p < |schedule| && schedule[p].0 == i && forall q :: 0 <= q < p ==> schedule[q].0 != i
  }

  /** The last cancel to start, or if none has started the last call of all. */
  ghost predicate Decides(calls: seq<Call>, schedule: seq<(nat, int)>, t: string, i: nat, p: nat) {
    && i < |calls| && On(calls[i], t) && StartsAt(schedule, i, p)
    && forall j: nat, q: nat :: j < |calls| && j != i && On(calls[j], t) && StartsAt(schedule, j, q) ==>
         if calls[j].op.Cancel? then calls[i].op.Cancel? && q < p else calls[i].op.Cancel? || q < p
  }

  ghost predicate NoneStarted(calls: seq<Call>, schedule: seq<(nat, int)>, t: string) {
    forall j: nat, q: nat :: j < |calls| && On(calls[j], t) ==> !StartsAt(schedule, j, q)
  }

  lemma StartsLater(schedule: seq<(nat, int)>, step: (nat, int), i: nat, p: nat)
    ensures StartsAt(schedule + [step], i, p)
       <==> StartsAt(schedule, i, p) || (p == |schedule| && step.0 == i && !HasTurn(schedule, i))
  {
    var more := schedule + [step];
    assert forall q :: 0 <= q < |schedule| ==> more[q] == schedule[q];
  }

  lemma TurnsLater(schedule: seq<(nat, int)>, step: (nat, int), i: nat)
    ensures HasTurn(schedule + [step], i) <==> HasTurn(schedule, i) || step.0 == i
  {
    var more := schedule + [step];
    assert forall q :: 0 <= q < |schedule| ==> more[q] == schedule[q];
    assert more[|schedule|] == step;
  }

  lemma {:induction false} InterleaveSnoc(w: World, schedule: seq<(nat, int)>, step: (nat, int))
    ensures Interleave(w, schedule + [step]) == Advance(Interleave(w, schedule), step.0, step.1)
    decreases |schedule|
  {
    hide Advance;
    if schedule == [] {
      assert [step][1..] == [];
      assert Interleave(w, [step]) == Interleave(Advance(w, step.0, step.1), []);
    } else {
      assert (schedule + [step])[1..] == schedule[1..] + [step];
      InterleaveSnoc(Advance(w, schedule[0].0, schedule[0].1), schedule[1..], step);
    }
  }

  /** The calls in flight are those of the start, and they have begun exactly when they had a turn. */
  ghost predicate InFlight(w: World, schedule: seq<(nat, int)>, w': World) {
    && |w'.calls| == |w.calls|
    && forall i :: 0 <= i < |w.calls| ==>
         && w'.calls[i].op == w.calls[i].op
         && (w'.calls[i].progress == Begun <==> !HasTurn(schedule, i))
  }

  lemma InFlightStep(w: World, schedule: seq<(nat, int)>, step: (nat, int), w': World)
    requires InFlight(w, schedule, w')
    ensures InFlight(w, schedule + [step], Advance(w', step.0, step.1))
  {
    hide HasTurn, Advance;
    AdvanceProgress(w', step.0, step.1);
    forall i: nat
      ensures HasTurn(schedule + [step], i) <==> HasTurn(schedule, i) || step.0 == i
    {
      TurnsLater(schedule, step, i);
    }
  }

  lemma AdvanceProgress(w: World, k: nat, now: int)
    ensures forall i :: 0 <= i < |w.calls| ==>
      && Advance(w, k, now).calls[i].op == w.calls[i].op
      && (Advance(w, k, now).calls[i].progress == Begun <==> w.calls[i].progress == Begun && i != k)
  {
    hide Concluded, CancelledIn, UpdatesSession, WithActivity, WithSessionStatus, RunningMeta;
    if k < |w.calls| {
      var call := Advance(w, k, now).calls[k];
      assert call.op == w.calls[k].op && call.progress != Begun;
      assert Advance(w, k, now).calls == w.calls[k := call];
    }
  }

  /** What one more turn does to the task. */
  lemma TurnEffect(w: World, k: nat, now: int, t: string)
    requires t in w.tasks && (k < |w.calls| && On(w.calls[k], t) ==> !w.calls[k].op.Register?)
    ensures var w' := Advance(w, k, now);
      t in w'.tasks && w'.tasks[t] ==
        if k < |w.calls| && On(w.calls[k], t) && w.calls[k].progress == Begun
           && (w.calls[k].op.Cancel? || w.tasks[t].status != Cancelled)
        then
          var op := w.calls[k].op;
          w.tasks[t].(status := if op.Complete? then Completed else if op.Fail? then Failed else Cancelled,
            finishedAt := Some(now))
        else w.tasks[t]
  {
  }

  /**
   In every interleaving of complete, fail and cancel calls on a registered
   task, at any time: the last cancel to have started decides, or without one
   the last call of all; the task has its outcome and ended when it started.
   As long as none has started the task is as it was.
   */
  lemma {:induction false} OneCallDecides(w: World, schedule: seq<(nat, int)>, t: string) returns (decider: Option<(nat, nat)>)
    requires Ready(w, t)
    ensures var w' := Interleave(w, schedule);
      && t in w'.tasks && InFlight(w, schedule, w')
      && match decider
         case None => NoneStarted(w.calls, schedule, t) && w'.tasks[t] == w.tasks[t]
         case Some((i, p)) =>
           && Decides(w.calls, schedule, t, i, p)
           && var op := w.calls[i].op;
           w'.tasks[t] == w.tasks[t].(
             status := if op.Complete? then Completed else if op.Fail? then Failed else Cancelled,
             finishedAt := Some(schedule[p].1))
    decreases |schedule|
  {
    if schedule == [] {
      decider := None;
    } else {
      var n := |schedule| - 1;
      var front := schedule[..n];
      var (k, now) := schedule[n];
      assert schedule == front + [(k, now)];
      var before := OneCallDecides(w, front, t);
      InterleaveSnoc(w, front, (k, now));
      var w1 := Interleave(w, front);
      hide Interleave, Advance, InFlight, Decides, NoneStarted, StartsAt, HasTurn, Ready;
      InFlightStep(w, front, (k, now), w1);
      TurnOf(w, front, w1, k, t);
      TurnEffect(w1, k, now, t);
      var starts := k < |w.calls| && On(w.calls[k], t) && w1.calls[k].progress == Begun;
      DecisionStep(w.calls, front, (k, now), t, before, starts);
      decider := if starts && (w.calls[k].op.Cancel? || before.None? || !w.calls[before.value.0].op.Cancel?)
        then Some((k, n)) else before;
    }
  }

  lemma TurnOf(w: World, schedule: seq<(nat, int)>, w': World, k: nat, t: string)
    requires Ready(w, t) && InFlight(w, schedule, w')
    ensures |w'.calls| == |w.calls|
    ensures k < |w.calls| ==>
      && w'.calls[k].op == w.calls[k].op && (On(w.calls[k], t) ==> !w.calls[k].op.Register?)
      && (w'.calls[k].progress == Begun <==> !HasTurn(schedule, k))
  {
    hide HasTurn;
  }

  /** How the decision changes with one more turn, which starts a call on `t` or not. */
  lemma DecisionStep(calls: seq<Call>, schedule: seq<(nat, int)>, step: (nat, int), t: string,
      before: Option<(nat, nat)>, starts: bool)
    requires match before
      case None => NoneStarted(calls, schedule, t)
      case Some((i, p)) => Decides(calls, schedule, t, i, p)
    requires starts <==> step.0 < |calls| && On(calls[step.0], t) && !HasTurn(schedule, step.0)
    ensures var more, k, n := schedule + [step], step.0, |schedule|;
      if !starts then
        match before
        case None => NoneStarted(calls, more, t)
        case Some((i, p)) => Decides(calls, more, t, i, p)
      else if calls[k].op.Cancel? || before.None? || !calls[before.value.0].op.Cancel? then Decides(calls, more, t, k, n)
      else Decides(calls, more, t, before.value.0, before.value.1)
    ensures before.Some? ==> before.value.0 < |calls| && before.value.1 < |schedule|
  {
    forall i: nat, p: nat
      ensures StartsAt(schedule + [step], i, p)
         <==> StartsAt(schedule, i, p) || (p == |schedule| && step.0 == i && !HasTurn(schedule, i))
      ensures StartsAt(schedule, i, p) ==> p < |schedule| && HasTurn(schedule, i)
    {
      StartsLater(schedule, step, i, p);
    }
    hide StartsAt, HasTurn;
  }

  // ---------------------------------------------------------------------
  // What interleaving does break
  // ---------------------------------------------------------------------

  function Start(op: Operation): Call {
    Call(op, Begun, false, false)
  }

  function SixSteps(w: World, a: nat, b: nat, c: nat, d: nat, e: nat, f: nat, now: int): World {
    Advance(Advance(Advance(Advance(Advance(Advance(w, a, now), b, now), c, now), d, now), e, now), f, now)
  }

  lemma SixStepsInterleave(w: World, a: nat, b: nat, c: nat, d: nat, e: nat, f: nat, now: int)
    ensures SixSteps(w, a, b, c, d, e, f, now)
         == Interleave(w, [(a, now), (b, now), (c, now), (d, now), (e, now), (f, now)])
  {
    hide Advance;
    var w1 := Advance(w, a, now);
    var w2 := Advance(w1, b, now);
    var w3 := Advance(w2, c, now);
    var w4 := Advance(w3, d, now);
    var w5 := Advance(w4, e, now);
    InterleaveStep(w, (a, now), [(b, now), (c, now), (d, now), (e, now), (f, now)]);
    InterleaveStep(w1, (b, now), [(c, now), (d, now), (e, now), (f, now)]);
    InterleaveStep(w2, (c, now), [(d, now), (e, now), (f, now)]);
    InterleaveStep(w3, (d, now), [(e, now), (f, now)]);
    InterleaveStep(w4, (e, now), [(f, now)]);
    InterleaveStep(w5, (f, now), []);
  }

  lemma InterleaveStep(w: World, step: (nat, int), rest: seq<(nat, int)>)
    ensures Interleave(w, [step] + rest) == Interleave(Advance(w, step.0, step.1), rest)
    ensures Interleave(w, []) == w
    ensures [step] + [] == [step]
  {
    hide Advance;
    assert ([step] + rest)[1..] == rest;
  }

  /**
   The task must already be registered: a cancel that runs between the two
   map insertions of a registration reports that nothing was running, and
   leaves a cancelled task in the running map for good.
   */
  lemma CancelDuringRegistration(sessions: Sessions, t: string, s: string, text: string, now: int)
    requires s in sessions
    ensures var w := World(map[], sessions, map[], [Start(Register(t, s, text, false)), Start(Cancel(t, s))]);
      var w' := Interleave(w, [(0, now), (0, now), (1, now), (1, now), (1, now), (0, now)]);
      && w'.calls[0].progress == w'.calls[1].progress == Returned
      && t in w'.tasks && w'.tasks[t].status == Cancelled && t in w'.running && !w'.calls[1].foundRunning
  {
    var w := World(map[], sessions, map[], [Start(Register(t, s, text, false)), Start(Cancel(t, s))]);
    SixStepsInterleave(w, 0, 0, 1, 1, 1, 0, now);
    var w2 := Advance(Advance(w, 0, now), 0, now);
    assert w2.tasks[t].status == Running && w2.running == map[] && w2.calls[1] == Start(Cancel(t, s));
    var w5 := Advance(Advance(Advance(w2, 1, now), 1, now), 1, now);
    assert w5.tasks[t].status == Cancelled && w5.calls[0].progress == SecondDone;
    assert w5.calls[0].op == Register(t, s, text, false);
  }

  /**
   The other way round: a cancel that looks for the task before it is there,
   and for its handle when it is, answers that it cancelled a running task,
   and leaves the task running without a handle.
   */
  lemma CancelAroundRegistration(sessions: Sessions, t: string, s: string, text: string, now: int)
    requires s in sessions
    ensures var w := World(map[], sessions, map[], [Start(Register(t, s, text, false)), Start(Cancel(t, s))]);
      var w' := Interleave(w, [(1, now), (0, now), (0, now), (0, now), (1, now), (1, now)]);
      && w'.calls[0].progress == w'.calls[1].progress == Returned
      && t in w'.tasks && w'.tasks[t].status == Running && t !in w'.running && w'.calls[1].foundRunning
  {
    var w := World(map[], sessions, map[], [Start(Register(t, s, text, false)), Start(Cancel(t, s))]);
    SixStepsInterleave(w, 1, 0, 0, 0, 1, 1, now);
    var w1 := Advance(w, 1, now);
    assert w1.tasks == map[] && w1.calls[0] == w.calls[0] && w1.calls[1].progress == FirstDone;
    var w4 := Advance(Advance(Advance(w1, 0, now), 0, now), 0, now);
    assert w4.tasks[t].status == Running && t in w4.running && w4.calls[0].progress == Returned;
    assert w4.calls[1] == w1.calls[1];
    var w5 := Advance(w4, 1, now);
    assert w5.tasks == w4.tasks && w5.running == w4.running && w5.calls[1].progress == SecondDone;
  }

  // ---------------------------------------------------------------------
  // Exactly which schedules break it
  // ---------------------------------------------------------------------

  /** The position in the schedule of the `k`-th turn of call `i`, counted from 1; its length when there is none. */
  function Turn(schedule: seq<(nat, int)>, i: nat, k: nat): nat
    decreases |schedule|
  {
    if schedule == [] then 0
    else if schedule[0].0 != i then 1 + Turn(schedule[1..], i, k)
    else if k <= 1 then 0
    else 1 + Turn(schedule[1..], i, k - 1)
  }

  function Done(call: Call): nat {
    match call.progress
    case Begun => 0
    case FirstDone => 1
    case SecondDone => 2
    case Returned => 3
  }

  /** When call `i` runs its section `k`; negative when it is past it. */
  function At(w: World, schedule: seq<(nat, int)>, i: nat, k: nat): int
    requires i < |w.calls|
  {
    if k <= Done(w.calls[i]) then -1 else Turn(schedule, i, k - Done(w.calls[i]))
  }

  /** Everything fits except that `t` may have a handle without running or run without a handle. */
  ghost predicate ConsistentBut(tasks: Tasks, running: RunningTasks, t: string) {
    && (forall u <- running :: u in tasks && running[u] == RunningTask(u))
    && (forall u <- tasks :: u != t ==> (tasks[u].status == Running <==> u in running))
    && (forall u <- tasks :: tasks[u].status == Running <==> tasks[u].finishedAt.None?)
  }

  /** One registration, call 0, and one cancel, call 1, of the same task, in any stage. */
  ghost predicate Registering(w: World, t: string) {
    && |w.calls| == 2
    && w.calls[0].op.Register? && On(w.calls[0], t) && w.calls[0].op.sessionId in w.sessions
    && w.calls[1].op.Cancel? && On(w.calls[1], t)
    && ConsistentBut(w.tasks, w.running, t)
    && (Done(w.calls[0]) >= 2 ==> t in w.tasks)
    && (Done(w.calls[0]) == 3 && Done(w.calls[1]) < 3 ==> t in w.running)
  }

  ghost predicate IsRunning(tasks: Tasks, t: string) {
    t in tasks && tasks[t].status == Running
  }

  /** What the section that call `i` runs next does to the task and its handle. */
  ghost predicate RegisteringEffect(w: World, w': World, i: nat, t: string)
    requires |w.calls| == |w'.calls| == 2
  {
    && Registering(w', t)
    && (forall k :: 0 <= k < 2 ==> Done(w'.calls[k]) == Next(w.calls[k], k == i))
    && (IsRunning(w'.tasks, t) <==>
          if i == 0 && Done(w.calls[0]) == 1 then true
          else if i == 1 && Done(w.calls[1]) == 0 then false
          else IsRunning(w.tasks, t))
    && (t in w'.running <==>
          if i == 0 && Done(w.calls[0]) == 2 then true
          else if i == 1 && Done(w.calls[1]) == 2 then false
          else t in w.running)
    && (w'.calls[1].foundRunning <==>
          if i == 1 && Done(w.calls[1]) == 2 then t in w.running else w.calls[1].foundRunning)
  }

  function Next(call: Call, itsTurn: bool): nat {
    if itsTurn && Done(call) < 3 then Done(call) + 1 else Done(call)
  }

  lemma RegisteringFirst(w: World, i: nat, now: int, t: string)
    requires Registering(w, t) && i < 2 && w.calls[i].progress == Begun
    ensures RegisteringEffect(w, FirstSection(w, i, now), i, t)
  {
  }

  lemma RegisteringSecond(w: World, i: nat, now: int, t: string)
    requires Registering(w, t) && i < 2 && w.calls[i].progress == FirstDone
    ensures RegisteringEffect(w, SecondSection(w, i, now), i, t)
  {
    if i == 1 {
      assert SecondSection(w, i, now).tasks == w.tasks;
    }
  }

  lemma RegisteringThird(w: World, i: nat, t: string)
    requires Registering(w, t) && i < 2 && w.calls[i].progress == SecondDone
    ensures RegisteringEffect(w, ThirdSection(w, i), i, t)
  {
  }

  lemma RegisteringIdle(w: World, i: nat, t: string)
    requires Registering(w, t) && (i >= 2 || w.calls[i].progress == Returned)
    ensures RegisteringEffect(w, w, i, t)
  {
  }

  lemma RegisteringStep(w: World, i: nat, now: int, t: string)
    requires Registering(w, t)
    ensures RegisteringEffect(w, Advance(w, i, now), i, t)
  {
    hide FirstSection, SecondSection, ThirdSection, RegisteringEffect;
    if i >= 2 {
      RegisteringIdle(w, i, t);
    } else {
      match w.calls[i].progress {
        case Begun => RegisteringFirst(w, i, now, t);
        case FirstDone => RegisteringSecond(w, i, now, t);
        case SecondDone => RegisteringThird(w, i, t);
        case Returned => RegisteringIdle(w, i, t);
      }
    }
  }

  /** Positions one step later. */
  lemma AtStep(w: World, w1: World, schedule: seq<(nat, int)>, i: nat, k: nat)
    requires schedule != [] && i < |w.calls| == |w1.calls| && k <= 3
    requires Done(w1.calls[i]) == Next(w.calls[i], i == schedule[0].0)
    ensures At(w, schedule, i, k)
         == if k <= Done(w.calls[i]) then -1
            else if schedule[0].0 == i && k == Done(w.calls[i]) + 1 then 0
            else 1 + At(w1, schedule[1..], i, k)
    ensures At(w1, schedule[1..], i, k) >= -1
  {
  }

  /**
   From any stage: the order of the last writes to the task and to its handle
   decides what is left when both calls have returned.
   */
  lemma {:induction false} RegisteringEnds(w: World, schedule: seq<(nat, int)>, t: string)
    requires Registering(w, t)
    ensures Registering(Interleave(w, schedule), t)
    ensures var w' := Interleave(w, schedule);
      Done(w'.calls[0]) == Done(w'.calls[1]) == 3 ==>
      && (IsRunning(w'.tasks, t) <==>
            if Done(w.calls[0]) >= 2 && Done(w.calls[1]) >= 1 then IsRunning(w.tasks, t)
            else At(w, schedule, 1, 1) < At(w, schedule, 0, 2))
      && (t in w'.running <==>
            if Done(w.calls[0]) == Done(w.calls[1]) == 3 then t in w.running
            else At(w, schedule, 1, 3) < At(w, schedule, 0, 3))
      && (w'.calls[1].foundRunning <==>
            if Done(w.calls[1]) == 3 then w.calls[1].foundRunning
            else t in w.running || At(w, schedule, 0, 3) < At(w, schedule, 1, 3))
    decreases |schedule|
  {
    if schedule != [] {
      var (i, now) := schedule[0];
      var w1 := Advance(w, i, now);
      RegisteringStep(w, i, now, t);
      hide Advance, Registering, IsRunning, Done, At, Next;
      RegisteringEnds(w1, schedule[1..], t);
      AtStep(w, w1, schedule, 0, 2);
      AtStep(w, w1, schedule, 0, 3);
      AtStep(w, w1, schedule, 1, 1);
      AtStep(w, w1, schedule, 1, 3);
    }
  }

  /**
   For every schedule of one registration and one cancel, once both returned:
   the tasks and their handles fit together if and only if the cancel comes
   after the registration at the task and at its handle, or at neither.
   */
  lemma RegistrationConsistentExactly(w: World, schedule: seq<(nat, int)>, register: Operation, cancel: Operation, t: string)
    requires Consistent(w.tasks, w.running)
    requires register.Register? && cancel.Cancel? && register.taskId == cancel.taskId == t
    requires w.calls == [Start(register), Start(cancel)] && register.sessionId in w.sessions
    ensures var w' := Interleave(w, schedule);
      var taskStays, handleStays := Turn(schedule, 1, 1) < Turn(schedule, 0, 2), Turn(schedule, 1, 3) < Turn(schedule, 0, 3);
      w'.calls[0].progress == w'.calls[1].progress == Returned ==>
      && (Consistent(w'.tasks, w'.running) <==> (taskStays <==> handleStays))
      && t in w'.tasks && (w'.tasks[t].status == Running <==> taskStays)
      && (t in w'.running <==> handleStays)
      && (w'.calls[1].foundRunning <==> t in w.running || Turn(schedule, 0, 3) < Turn(schedule, 1, 3))
  {
    RegisteringStarts(w, register, cancel, t);
    hide Interleave, Turn, At, ConsistentBut, Consistent;
    AtStart(w, schedule, 0, 2);
    AtStart(w, schedule, 0, 3);
    AtStart(w, schedule, 1, 1);
    AtStart(w, schedule, 1, 3);
    RegisteringEnds(w, schedule, t);
    var w' := Interleave(w, schedule);
    if w'.calls[0].progress == w'.calls[1].progress == Returned {
      ConsistentAtLast(w'.tasks, w'.running, t);
    }
  }

  lemma RegisteringStarts(w: World, register: Operation, cancel: Operation, t: string)
    requires Consistent(w.tasks, w.running)
    requires register.Register? && cancel.Cancel? && register.taskId == cancel.taskId == t
    requires w.calls == [Start(register), Start(cancel)] && register.sessionId in w.sessions
    ensures Registering(w, t)
  {
    assert On(w.calls[0], t) && On(w.calls[1], t);
  }

  lemma AtStart(w: World, schedule: seq<(nat, int)>, i: nat, k: nat)
    requires i < |w.calls| && w.calls[i].progress == Begun && k > 0
    ensures At(w, schedule, i, k) == Turn(schedule, i, k)
  {
  }

  lemma ConsistentAtLast(tasks: Tasks, running: RunningTasks, t: string)
    requires ConsistentBut(tasks, running, t) && t in tasks
    ensures Consistent(tasks, running) <==> (tasks[t].status == Running <==> t in running)
  {
  }

  // A failure and a cancel of one running task.

  ghost predicate Failing(w: World, t: string, s: string) {
    && |w.calls| == 2 && w.calls[0].op == Fail(t, s) && w.calls[1].op == Cancel(t, s)
    && t in w.tasks && s in w.sessions
    && (w.tasks[t].status == Cancelled <==> Done(w.calls[1]) >= 1)
    && (Done(w.calls[1]) >= 2 && Done(w.calls[0]) < 2 ==> w.sessions[s].status == Idle)
  }

  ghost predicate FailingEffect(w: World, w': World, i: nat, t: string, s: string)
    requires |w.calls| == |w'.calls| == 2 && s in w.sessions
  {
    && Failing(w', t, s)
    && (forall k :: 0 <= k < 2 ==> Done(w'.calls[k]) == Next(w.calls[k], k == i))
    && (w'.sessions[s].status == Error <==>
          if i == 0 && Done(w.calls[0]) == 1 && w.calls[0].updateSession then true
          else if i == 1 && Done(w.calls[1]) == 1 then false
          else w.sessions[s].status == Error)
    && (w'.calls[0].updateSession <==>
          if i == 0 && Done(w.calls[0]) == 0 then Done(w.calls[1]) == 0 else w.calls[0].updateSession)
  }

  lemma FailingFirst(w: World, i: nat, now: int, t: string, s: string)
    requires Failing(w, t, s) && i < 2 && w.calls[i].progress == Begun
    ensures FailingEffect(w, FirstSection(w, i, now), i, t, s)
  {
  }

  lemma FailingSecond(w: World, i: nat, now: int, t: string, s: string)
    requires Failing(w, t, s) && i < 2 && w.calls[i].progress == FirstDone
    ensures FailingEffect(w, SecondSection(w, i, now), i, t, s)
  {
  }

  lemma FailingThird(w: World, i: nat, t: string, s: string)
    requires Failing(w, t, s) && i < 2 && w.calls[i].progress == SecondDone
    ensures FailingEffect(w, ThirdSection(w, i), i, t, s)
  {
  }

  lemma FailingStep(w: World, i: nat, now: int, t: string, s: string)
    requires Failing(w, t, s)
    ensures FailingEffect(w, Advance(w, i, now), i, t, s)
  {
    hide FirstSection, SecondSection, ThirdSection;
    if i < 2 {
      match w.calls[i].progress {
        case Begun => FailingFirst(w, i, now, t, s);
        case FirstDone => FailingSecond(w, i, now, t, s);
        case SecondDone => FailingThird(w, i, t, s);
        case Returned =>
      }
    }
  }

  lemma {:induction false} FailingEnds(w: World, schedule: seq<(nat, int)>, t: string, s: string)
    requires Failing(w, t, s)
    ensures Failing(Interleave(w, schedule), t, s)
    ensures var w' := Interleave(w, schedule);
      Done(w'.calls[0]) == Done(w'.calls[1]) == 3 ==>
        (w'.sessions[s].status == Error <==>
          if Done(w.calls[0]) >= 2 && Done(w.calls[1]) >= 2 then w.sessions[s].status == Error
          else
            && At(w, schedule, 1, 2) < At(w, schedule, 0, 2)
            && if Done(w.calls[0]) >= 1 then w.calls[0].updateSession
               else At(w, schedule, 0, 1) < At(w, schedule, 1, 1))
    decreases |schedule|
  {
    if schedule != [] {
      var (i, now) := schedule[0];
      var w1 := Advance(w, i, now);
      FailingStep(w, i, now, t, s);
      hide Advance, Done, At, Next;
      FailingEnds(w1, schedule[1..], t, s);
      AtStep(w, w1, schedule, 0, 1);
      AtStep(w, w1, schedule, 0, 2);
      AtStep(w, w1, schedule, 1, 1);
      AtStep(w, w1, schedule, 1, 2);
    }
  }

  /**
   For every schedule of one failure and one cancel of a task that is not
   cancelled yet, once both returned: the task is cancelled, and the session
   ends in error if and only if the failure reached the task before the
   cancel and the session after it.
   */
  lemma SessionEndsInErrorExactly(w: World, schedule: seq<(nat, int)>, t: string, s: string)
    requires t in w.tasks && w.tasks[t].status != Cancelled && s in w.sessions
    requires w.calls == [Start(Fail(t, s)), Start(Cancel(t, s))]
    ensures var w' := Interleave(w, schedule);
      w'.calls[0].progress == w'.calls[1].progress == Returned ==>
      && t in w'.tasks && w'.tasks[t].status == Cancelled && s in w'.sessions
      && (w'.sessions[s].status == Error <==>
            Turn(schedule, 0, 1) < Turn(schedule, 1, 1) && Turn(schedule, 1, 2) < Turn(schedule, 0, 2))
  {
    FailingEnds(w, schedule, t, s);
    hide Interleave, Turn;
  }

  /** The session status is not protected: a failure that lost to a cancel can still mark the session. */
  lemma CancelledTaskFailedSession(w: World, t: string, s: string, now: int)
    requires t in w.tasks && w.tasks[t].status == Running && s in w.sessions
    requires w.calls == [Start(Fail(t, s)), Start(Cancel(t, s))]
    ensures var w' := Interleave(w, [(0, now), (1, now), (1, now), (0, now), (0, now), (1, now)]);
      && w'.calls[0].progress == w'.calls[1].progress == Returned
      && t in w'.tasks && w'.tasks[t].status == Cancelled
      && s in w'.sessions && w'.sessions[s].status == Error
  {
    SixStepsInterleave(w, 0, 1, 1, 0, 0, 1, now);
    var w2 := Advance(Advance(w, 0, now), 1, now);
    assert w2.tasks[t].status == Cancelled && w2.calls[0].updateSession && w2.calls[0].progress == FirstDone;
    var w4 := Advance(Advance(w2, 1, now), 0, now);
    assert w4.sessions[s].status == Error && w4.tasks[t].status == Cancelled;
  }
}
