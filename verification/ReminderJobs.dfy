/** Reminder records and what each storage operation does to one of them. */
module ReminderJobs {
  import opened Prelude

  const U64_MAX: nat := 0xFFFF_FFFF_FFFF_FFFF

  datatype UserId = UserId(id: int)

  datatype JobStatus = Scheduled | Paused | Completed | Cancelled | Failed

  datatype ThreadKind = Dm | Forum | NoThread

  datatype ScheduleKind = Once | Interval | Cron

  /** What is fixed when a job is created. */
  datatype JobDetails = JobDetails(
    contextKey: string,
    flowId: string,
    chatId: int,
    threadId: Option<int>,
    threadKind: ThreadKind,
    taskPrompt: string,
    scheduleKind: ScheduleKind,
    intervalSecs: Option<nat>,
    cronExpression: Option<string>,
    timezone: Option<string>
  )

  datatype Job = Job(
    version: nat,
    reminderId: string,
    userId: UserId,
    details: JobDetails,
    status: JobStatus,
    nextRunAt: int,
    leaseUntil: Option<int>,
    lastRunAt: Option<int>,
    lastError: Option<string>,
    runCount: nat,
    createdAt: int,
    updatedAt: int
  )

  type Key = (UserId, string)

  type Jobs = map<Key, Job>

  function KeyOf(job: Job): Key {
    (job.userId, job.reminderId)
  }

  predicate IsLeased(job: Job, now: int) {
    job.leaseUntil.Some? && job.leaseUntil.value > now
  }

  predicate IsDue(job: Job, now: int) {
    job.status == Scheduled && job.nextRunAt <= now && !IsLeased(job, now)
  }

  /** Adding to a 64-bit counter that stops at its maximum. */
  function SaturatingAdd(n: nat, k: nat): (r: nat) {
    if n + k <= U64_MAX then n + k else U64_MAX
  }

  function OrElse(first: Option<int>, second: Option<int>): Option<int> {
    if first.Some? then first else second
  }

  datatype Operation =
    | Claim(leaseUntil: int, now: int)
    | Reschedule(nextRunAt: int, lastRunAt: Option<int>, lastError: Option<string>, incrementRunCount: bool)
    | Complete(completedAt: int)
    | Fail(failedAt: int, error: string)
    | Cancel(cancelledAt: int)
    | Pause(pausedAt: int)
    | Resume(nextRunAt: int, resumedAt: int)
    | Retry(nextRunAt: int, retriedAt: int)

  /** When an operation is accepted. */
  predicate Accepts(job: Job, op: Operation) {
    match op
    case Claim(_, now) => IsDue(job, now)
    case Resume(_, _) => job.status == Paused
    case Retry(_, _) => job.status == Failed
    case _ => job.status == Scheduled
  }

  /** The record after an accepted operation, written at time `clock`. */
  function Updated(job: Job, op: Operation, clock: int): Job {
    var next := job.(version := SaturatingAdd(job.version, 1), updatedAt := clock);
    match op
    case Claim(leaseUntil, _) => next.(leaseUntil := Some(leaseUntil))
    case Reschedule(nextRunAt, lastRunAt, lastError, incrementRunCount) =>
      next.(nextRunAt := nextRunAt, leaseUntil := None, lastRunAt := OrElse(lastRunAt, job.lastRunAt),
        lastError := lastError, runCount := if incrementRunCount then SaturatingAdd(job.runCount, 1) else job.runCount)
    case Complete(completedAt) =>
      next.(status := Completed, leaseUntil := None, lastRunAt := Some(completedAt), lastError := None,
        runCount := SaturatingAdd(job.runCount, 1))
    case Fail(failedAt, error) =>
      next.(status := Failed, leaseUntil := None, lastRunAt := Some(failedAt), lastError := Some(error))
    case Cancel(cancelledAt) =>
      next.(status := Cancelled, leaseUntil := None, lastRunAt := OrElse(job.lastRunAt, Some(cancelledAt)))
    case Pause(pausedAt) =>
      next.(status := Paused, leaseUntil := None, lastRunAt := OrElse(job.lastRunAt, Some(pausedAt)))
    case Resume(nextRunAt, resumedAt) =>
      next.(status := Scheduled, nextRunAt := nextRunAt, leaseUntil := None,
        lastRunAt := OrElse(job.lastRunAt, Some(resumedAt)))
    case Retry(nextRunAt, retriedAt) =>
      next.(status := Scheduled, nextRunAt := nextRunAt, leaseUntil := None,
        lastRunAt := OrElse(job.lastRunAt, Some(retriedAt)), lastError := None)
  }

  function NewJob(key: Key, details: JobDetails, nextRunAt: int, clock: int): Job {
    Job(1, key.1, key.0, details, Scheduled, nextRunAt, None, None, None, 0, clock, clock)
  }

  // ---------------------------------------------------------------------
  // Runs of the store
  // ---------------------------------------------------------------------

  datatype Step =
    | Create(key: Key, details: JobDetails, nextRunAt: int, clock: int)
    | Mutate(key: Key, op: Operation, clock: int)
    | Delete(key: Key)

  /** The store together with every reminder id it ever handed out. */
  datatype Store = Store(jobs: Jobs, issued: set<Key>)

  predicate Succeeds(jobs: Jobs, step: Step) {
    step.Mutate? ==> step.key in jobs && Accepts(jobs[step.key], step.op)
  }

  function Apply(jobs: Jobs, step: Step): Jobs {
    match step
    case Create(key, details, nextRunAt, clock) => jobs[key := NewJob(key, details, nextRunAt, clock)]
    case Mutate(key, op, clock) =>
      if Succeeds(jobs, step) then jobs[key := Updated(jobs[key], op, clock)] else jobs
    case Delete(key) => jobs - {key}
  }

  function Advance(s: Store, step: Step): Store {
    Store(Apply(s.jobs, step), if step.Create? then s.issued + {step.key} else s.issued)
  }

  /** Reminder ids are universally unique: a created id was never handed out before. */
  predicate FreshIds(s: Store, steps: seq<Step>)
    decreases |steps|
  {
    steps == [] ||
    ((steps[0].Create? ==> steps[0].key !in s.issued) && FreshIds(Advance(s, steps[0]), steps[1..]))
  }

  function Run(s: Store, steps: seq<Step>): Store
    decreases |steps|
  {
    if steps == [] then s else Run(Advance(s, steps[0]), steps[1..])
  }

  // ---------------------------------------------------------------------
  // What every run keeps
  // ---------------------------------------------------------------------

  predicate JobInvariant(key: Key, job: Job) {
    && KeyOf(job) == key
    && 1 <= job.version <= U64_MAX && job.runCount <= U64_MAX
    && (job.leaseUntil.Some? ==> job.status == Scheduled)
    && (job.status == Failed ==> job.lastError.Some? && job.lastRunAt.Some?)
    && (job.status == Completed ==> job.lastError.None? && job.lastRunAt.Some? && job.runCount >= 1)
    && (job.status in {Cancelled, Paused} ==> job.lastRunAt.Some?)
  }

  ghost predicate StoreInvariant(s: Store) {
    && s.jobs.Keys <= s.issued
    && forall key <- s.jobs :: JobInvariant(key, s.jobs[key])
  }

  lemma AdvanceKeepsInvariant(s: Store, step: Step)
    requires StoreInvariant(s)
    ensures StoreInvariant(Advance(s, step))
  {
    hide JobInvariant, Updated, Accepts;
    match step {
      case Create(key, details, nextRunAt, clock) => NewJobKeepsInvariant(key, details, nextRunAt, clock);
      case Mutate(key, op, clock) =>
        if Succeeds(s.jobs, step) {
          UpdateKeepsInvariant(key, s.jobs[key], op, clock);
        }
      case Delete(key) =>
    }
  }

  lemma NewJobKeepsInvariant(key: Key, details: JobDetails, nextRunAt: int, clock: int)
    ensures JobInvariant(key, NewJob(key, details, nextRunAt, clock))
  {
  }

  lemma UpdateKeepsInvariant(key: Key, job: Job, op: Operation, clock: int)
    requires JobInvariant(key, job) && Accepts(job, op)
    ensures JobInvariant(key, Updated(job, op, clock))
    ensures Updated(job, op, clock).version == SaturatingAdd(job.version, 1)
  {
  }

  /** In every run leases exist only on scheduled jobs, failed jobs carry an error, and so on. */
  lemma {:induction false} RunKeepsInvariant(s: Store, steps: seq<Step>)
    requires StoreInvariant(s)
    ensures StoreInvariant(Run(s, steps))
    decreases |steps|
  {
    if steps != [] {
      AdvanceKeepsInvariant(s, steps[0]);
      RunKeepsInvariant(Advance(s, steps[0]), steps[1..]);
    }
  }

  /** A run can be cut in two anywhere. */
  lemma {:induction false} RunSplit(s: Store, steps: seq<Step>, k: nat)
    requires k <= |steps|
    ensures Run(s, steps) == Run(Run(s, steps[..k]), steps[k..])
    ensures FreshIds(s, steps) ==> FreshIds(Run(s, steps[..k]), steps[k..])
    decreases k
  {
    hide Apply;
    if k == 0 {
      assert steps[0..] == steps && steps[..0] == [];
    } else {
      assert steps[1..][..k - 1] == steps[..k][1..] && steps[1..][k - 1..] == steps[k..];
      RunSplit(Advance(s, steps[0]), steps[1..], k - 1);
    }
  }

  /** How many of the steps change the job. */
  function Mutations(s: Store, steps: seq<Step>, key: Key): nat
    decreases |steps|
  {
    if steps == [] then 0
    else
      (if steps[0].Mutate? && steps[0].key == key && Succeeds(s.jobs, steps[0]) then 1 else 0)
      + Mutations(Advance(s, steps[0]), steps[1..], key)
  }

  /** An id that is gone never comes back. */
  lemma {:induction false} DeletedStaysDeleted(s: Store, steps: seq<Step>, key: Key)
    requires StoreInvariant(s) && FreshIds(s, steps)
    requires key in s.issued && key !in s.jobs
    ensures key !in Run(s, steps).jobs
    decreases |steps|
  {
    if steps != [] {
      AdvanceKeepsInvariant(s, steps[0]);
      DeletedStaysDeleted(Advance(s, steps[0]), steps[1..], key);
    }
  }

  /**
   For a job that is there before and after a run, the version counts the
   mutations in between, up to saturation, and without any the record is
   unchanged.
   */
  lemma {:induction false} VersionCountsMutations(s: Store, steps: seq<Step>, key: Key)
    requires StoreInvariant(s) && FreshIds(s, steps)
    requires key in s.jobs && key in Run(s, steps).jobs
    ensures var n := Mutations(s, steps, key);
      && Run(s, steps).jobs[key].version == SaturatingAdd(s.jobs[key].version, n)
      && (n == 0 ==> Run(s, steps).jobs[key] == s.jobs[key])
    decreases |steps|
  {
    hide Updated, Accepts;
    assert s.jobs[key].version <= U64_MAX;
    hide JobInvariant;
    if steps != [] {
      var s' := Advance(s, steps[0]);
      AdvanceKeepsInvariant(s, steps[0]);
      if key !in s'.jobs {
        DeletedStaysDeleted(s', steps[1..], key);
      } else {
        VersionCountsMutations(s', steps[1..], key);
        VersionStep(s, steps[0], key);
      }
    }
  }

  lemma VersionStep(s: Store, step: Step, key: Key)
    requires StoreInvariant(s) && key in s.jobs && (step.Create? ==> step.key !in s.issued)
    requires key in Apply(s.jobs, step)
    ensures Apply(s.jobs, step)[key].version <= U64_MAX
    ensures if step.Mutate? && step.key == key && Succeeds(s.jobs, step)
      then Apply(s.jobs, step)[key].version == SaturatingAdd(s.jobs[key].version, 1)
      else Apply(s.jobs, step)[key] == s.jobs[key]
  {
    hide Updated, Accepts;
    if step.Mutate? && step.key == key && Succeeds(s.jobs, step) {
      UpdateKeepsInvariant(key, s.jobs[key], step.op, step.clock);
    }
  }

  lemma CreatedJobVersion(s: Store, create: Step, steps: seq<Step>)
    requires StoreInvariant(s) && create.Create? && FreshIds(s, [create] + steps)
    requires create.key in Run(s, [create] + steps).jobs
    ensures Run(s, [create] + steps).jobs[create.key].version
         == SaturatingAdd(1, Mutations(Advance(s, create), steps, create.key))
  {
    assert ([create] + steps)[1..] == steps;
    AdvanceKeepsInvariant(s, create);
    VersionCountsMutations(Advance(s, create), steps, create.key);
  }

  /** Two reads with equal key and version return equal records, as long as the counter has not saturated. */
  lemma VersionDeterminesRecord(s: Store, steps: seq<Step>, key: Key)
    requires StoreInvariant(s) && FreshIds(s, steps)
    requires key in s.jobs && key in Run(s, steps).jobs
    requires Run(s, steps).jobs[key].version == s.jobs[key].version < U64_MAX
    ensures Run(s, steps).jobs[key] == s.jobs[key]
  {
    VersionCountsMutations(s, steps, key);
  }

  /** At saturation a mutation leaves the version alone, whatever the status it can still leave. */
  lemma SaturatedVersionRepeats(s: Store, key: Key, error: string, clock: int) returns (step: Step)
    requires key in s.jobs && JobInvariant(key, s.jobs[key])
    requires s.jobs[key].version == U64_MAX && s.jobs[key].status !in {Completed, Cancelled}
    ensures step.Mutate? && FreshIds(s, [step])
    ensures var s' := Run(s, [step]);
      key in s'.jobs && s'.jobs[key].version == s.jobs[key].version && s'.jobs[key] != s.jobs[key]
  {
    step := match s.jobs[key].status
      case Scheduled => Mutate(key, Fail(clock, error), clock)
      case Paused => Mutate(key, Resume(clock, clock), clock)
      case _ => Mutate(key, Retry(clock, clock), clock);
    assert [step][1..] == [];
    assert Run(s, [step]) == Advance(s, step);
    assert FreshIds(Advance(s, step), []);
  }

  /**
   From here on, a read with the version of the present record sees the
   present record, if and only if that version is below the maximum or the
   job is in a final state.
   */
  lemma VersionDeterminesExactly(s: Store, key: Key)
    requires StoreInvariant(s) && key in s.jobs
    ensures (forall steps: seq<Step> ::
               FreshIds(s, steps) && key in Run(s, steps).jobs && Run(s, steps).jobs[key].version == s.jobs[key].version
               ==> Run(s, steps).jobs[key] == s.jobs[key])
       <==> s.jobs[key].version < U64_MAX || s.jobs[key].status in {Completed, Cancelled}
  {
    hide Run, FreshIds, Updated, Accepts;
    if s.jobs[key].version < U64_MAX {
      forall steps: seq<Step> | FreshIds(s, steps) && key in Run(s, steps).jobs
          && Run(s, steps).jobs[key].version == s.jobs[key].version
        ensures Run(s, steps).jobs[key] == s.jobs[key]
      {
        VersionDeterminesRecord(s, steps, key);
      }
    } else if s.jobs[key].status in {Completed, Cancelled} {
      forall steps: seq<Step> | FreshIds(s, steps) && key in Run(s, steps).jobs
        ensures Run(s, steps).jobs[key] == s.jobs[key]
      {
        FinalIsFinal(s, steps, key);
      }
    } else {
      var step := SaturatedVersionRepeats(s, key, "", 0);
      assert Run(s, [step]).jobs[key] != s.jobs[key];
    }
  }

  /** Completed and cancelled jobs never change again; they can only be deleted. */
  lemma {:induction false} FinalIsFinal(s: Store, steps: seq<Step>, key: Key)
    requires StoreInvariant(s) && FreshIds(s, steps)
    requires key in s.jobs && s.jobs[key].status in {Completed, Cancelled}
    ensures key in Run(s, steps).jobs ==> Run(s, steps).jobs[key] == s.jobs[key]
    decreases |steps|
  {
    if steps != [] {
      var s' := Advance(s, steps[0]);
      AdvanceKeepsInvariant(s, steps[0]);
      if key !in s'.jobs {
        DeletedStaysDeleted(s', steps[1..], key);
      } else {
        FinalIsFinal(s', steps[1..], key);
      }
    }
  }

  /**
   Leases are exclusive: if a claim succeeds and the next change to the job
   is again a successful claim, then the second worker came no earlier than
   the end of the first lease.
   */
  lemma LeasesAreExclusive(s: Store, first: Step, between: seq<Step>, second: Step, key: Key)
    requires StoreInvariant(s) && FreshIds(s, [first] + between)
    requires first.Mutate? && first.op.Claim? && first.key == key && Succeeds(s.jobs, first)
    requires Mutations(Advance(s, first), between, key) == 0
    requires second.Mutate? && second.op.Claim? && second.key == key
    requires Succeeds(Run(s, [first] + between).jobs, second)
    ensures second.op.now >= first.op.leaseUntil
  {
    assert ([first] + between)[1..] == between;
    AdvanceKeepsInvariant(s, first);
    VersionCountsMutations(Advance(s, first), between, key);
  }

  // ---------------------------------------------------------------------
  // Claims are on time
  // ---------------------------------------------------------------------

  /** The run time after the steps, as the job's owner last asked for it. */
  function PlannedAt(s: Store, steps: seq<Step>, key: Key, planned: int): int
    decreases |steps|
  {
    if steps == [] then planned
    else
      var next :=
        if !(steps[0].Mutate? && steps[0].key == key && Succeeds(s.jobs, steps[0])) then planned
        else match steps[0].op
          case Reschedule(nextRunAt, _, _, _) => nextRunAt
          case Resume(nextRunAt, _) => nextRunAt
          case Retry(nextRunAt, _) => nextRunAt
          case _ => planned;
      PlannedAt(Advance(s, steps[0]), steps[1..], key, next)
  }

  /**
   After any run, a claim succeeds if and only if the job is scheduled, the
   time last asked for has come and no lease reaches beyond this moment: never
   too early, and never refused without a reason.
   */
  lemma {:induction false} ClaimsAreOnTime(s: Store, steps: seq<Step>, claim: Step)
    requires StoreInvariant(s) && FreshIds(s, steps)
    requires claim.Mutate? && claim.op.Claim? && claim.key in s.jobs && claim.key in Run(s, steps).jobs
    ensures var job, now := Run(s, steps).jobs[claim.key], claim.op.now;
      && job.nextRunAt == PlannedAt(s, steps, claim.key, s.jobs[claim.key].nextRunAt)
      && (Succeeds(Run(s, steps).jobs, claim) <==>
            && job.status == Scheduled
            && PlannedAt(s, steps, claim.key, s.jobs[claim.key].nextRunAt) <= now
            && (job.leaseUntil.Some? ==> job.leaseUntil.value <= now))
    decreases |steps|
  {
    if steps != [] {
      var s' := Advance(s, steps[0]);
      AdvanceKeepsInvariant(s, steps[0]);
      if claim.key !in s'.jobs {
        DeletedStaysDeleted(s', steps[1..], claim.key);
      } else {
        ClaimsAreOnTime(s', steps[1..], claim);
      }
    }
  }
}
