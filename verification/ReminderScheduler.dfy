/**
 The due queue of the Telegram transport: a second map of reminder records,
 fed by notifications and by rebuilding it from storage.
 */
module ReminderScheduler {
  import opened Prelude
  import opened ReminderJobs
  import opened ReminderStore

  const DEFAULT_REBUILD_LIMIT := 4096

  datatype ListingError = ListingFailed

  datatype ScheduleEvent = Upsert(record: Job) | Remove(key: Key)

  /** What the queue should hold: the scheduled jobs of the allowed users. */
  function Tracked(jobs: Jobs, allowed: set<UserId>): Jobs {
    map key | key in jobs && jobs[key].status == Scheduled && key.0 in allowed :: jobs[key]
  }

  function Notified(records: Jobs, allowed: set<UserId>, event: ScheduleEvent): Jobs {
    match event
    case Upsert(record) =>
      if record.userId !in allowed then records
      else if record.status == Scheduled then records[KeyOf(record) := record]
      else records - {KeyOf(record)}
    case Remove(key) => records - {key}
  }

  // ---------------------------------------------------------------------
  // Runs in which every successful change is announced
  // ---------------------------------------------------------------------

  function Announcement(step: Step, after: Jobs): ScheduleEvent
    requires !step.Delete? ==> step.key in after
  {
    if step.Delete? then Remove(step.key) else Upsert(after[step.key])
  }

  function Announced(jobs: Jobs, records: Jobs, allowed: set<UserId>, step: Step): Jobs {
    if Succeeds(jobs, step) then Notified(records, allowed, Announcement(step, Apply(jobs, step))) else records
  }

  function RunAnnounced(s: Store, records: Jobs, allowed: set<UserId>, steps: seq<Step>): Jobs
    decreases |steps|
  {
    if steps == [] then records
    else RunAnnounced(Advance(s, steps[0]), Announced(s.jobs, records, allowed, steps[0]), allowed, steps[1..])
  }

  lemma UpsertStaysInSync(jobs: Jobs, allowed: set<UserId>, job: Job)
    ensures Notified(Tracked(jobs, allowed), allowed, Upsert(job)) == Tracked(jobs[KeyOf(job) := job], allowed)
  {
  }

  lemma RemoveStaysInSync(jobs: Jobs, allowed: set<UserId>, key: Key)
    ensures Notified(Tracked(jobs, allowed), allowed, Remove(key)) == Tracked(jobs - {key}, allowed)
  {
  }

  lemma AnnouncedStaysInSync(s: Store, allowed: set<UserId>, step: Step)
    requires StoreInvariant(s)
    ensures Announced(s.jobs, Tracked(s.jobs, allowed), allowed, step) == Tracked(Apply(s.jobs, step), allowed)
  {
    hide Updated, Accepts, Tracked, Notified;
    match step {
      case Create(key, details, nextRunAt, clock) =>
        UpsertStaysInSync(s.jobs, allowed, NewJob(key, details, nextRunAt, clock));
      case Mutate(key, op, clock) =>
        if Succeeds(s.jobs, step) {
          UpdateKeepsInvariant(key, s.jobs[key], op, clock);
          UpsertStaysInSync(s.jobs, allowed, Updated(s.jobs[key], op, clock));
        }
      case Delete(key) => RemoveStaysInSync(s.jobs, allowed, key);
    }
  }

  /** The queue is exactly the scheduled part of storage after every such run. */
  lemma {:induction false} RunStaysInSync(s: Store, allowed: set<UserId>, steps: seq<Step>)
    requires StoreInvariant(s)
    ensures RunAnnounced(s, Tracked(s.jobs, allowed), allowed, steps) == Tracked(Run(s, steps).jobs, allowed)
    decreases |steps|
  {
    hide Tracked, Announced, Apply;
    if steps != [] {
      AnnouncedStaysInSync(s, allowed, steps[0]);
      AdvanceKeepsInvariant(s, steps[0]);
      RunStaysInSync(Advance(s, steps[0]), allowed, steps[1..]);
    }
  }

  // ---------------------------------------------------------------------
  // What the queue answers
  // ---------------------------------------------------------------------

  ghost predicate IsEarliest(answer: Option<int>, jobs: Jobs, keys: set<Key>)
    requires keys <= jobs.Keys
  {
    match answer
    case None => keys == {}
    case Some(time) =>
      && (exists key <- keys :: jobs[key].nextRunAt == time)
      && (forall key <- keys :: time <= jobs[key].nextRunAt)
  }

  lemma EarliestOfNone(jobs: Jobs)
    ensures IsEarliest(None, jobs, {})
  {
  }

  lemma EarliestMore(answer: Option<int>, jobs: Jobs, keys: set<Key>, key: Key)
    requires keys <= jobs.Keys && key in jobs && IsEarliest(answer, jobs, keys)
    ensures var time := jobs[key].nextRunAt;
      IsEarliest(if answer.None? || time < answer.value then Some(time) else answer, jobs, keys + {key})
  {
    var time := jobs[key].nextRunAt;
    assert key in keys + {key};
    if answer.Some? {
      var best :| best in keys && jobs[best].nextRunAt == answer.value;
      assert best in keys + {key};
    }
  }

  function DueRecords(records: Jobs, now: int): set<Key> {
    set key | key in records && IsDue(records[key], now)
  }

  function ScheduledKeys(jobs: Jobs, users: set<UserId>): set<Key> {
    set key | key in jobs && key.0 in users && jobs[key].status == Scheduled
  }

  /** In sync, the next due time is the minimum over the scheduled jobs in storage. */
  lemma InSyncNextDue(jobs: Jobs, allowed: set<UserId>, answer: Option<int>)
    ensures var records := Tracked(jobs, allowed);
      IsEarliest(answer, records, records.Keys) <==> IsEarliest(answer, jobs, ScheduledKeys(jobs, allowed))
  {
    assert Tracked(jobs, allowed).Keys == ScheduledKeys(jobs, allowed);
  }

  /** In sync, a batch taken from the queue is a batch a full scan of storage could give, and conversely. */
  lemma InSyncBatch(jobs: Jobs, allowed: set<UserId>, now: int, limit: nat, batch: seq<Job>)
    requires WellKeyed(jobs)
    ensures var records := Tracked(jobs, allowed);
      IsListing(batch, records, DueRecords(records, now), true, limit)
      <==> IsListing(batch, jobs, DueKeys(jobs, allowed, now), true, limit)
  {
    var records := Tracked(jobs, allowed);
    assert DueRecords(records, now) == DueKeys(jobs, allowed, now);
    hide IsDue, InOrder, Sorted;
  }

  lemma DueInQueue(records: Jobs, allowed: set<UserId>, now: int)
    requires IsQueue(records, allowed)
    ensures DueRecords(records, now) == DueKeys(records, allowed, now)
  {
  }

  /** So no reminder of an allowed user is taken early, and none that is due is overlooked while there is room. */
  lemma InSyncBatchIsOnTime(jobs: Jobs, allowed: set<UserId>, now: int, limit: nat, batch: seq<Job>)
    requires WellKeyed(jobs)
    requires IsListing(batch, Tracked(jobs, allowed), DueRecords(Tracked(jobs, allowed), now), true, limit)
    ensures ListsDueJobs(batch, jobs, allowed, now, limit)
  {
    hide IsListing, ListsDueJobs, Tracked, DueRecords, DueKeys;
    InSyncBatch(jobs, allowed, now, limit, batch);
    DueListingIsExact(batch, jobs, allowed, now, limit);
  }

  // ---------------------------------------------------------------------
  // Rebuilding one user
  // ---------------------------------------------------------------------

  function OfUser(jobs: Jobs, user: UserId): Jobs {
    map key | key in jobs && key.0 == user :: jobs[key]
  }

  function OfOthers(jobs: Jobs, user: UserId): Jobs {
    map key | key in jobs && key.0 != user :: jobs[key]
  }

  /** A stored record, with a later run time that was cached for the same version. */
  function Merged(cached: Jobs, stored: Job): Job {
    if CachedAhead(cached, stored) then stored.(nextRunAt := cached[KeyOf(stored)].nextRunAt) else stored
  }

  predicate CachedAhead(cached: Jobs, stored: Job) {
    var key := KeyOf(stored);
    key in cached && cached[key].version == stored.version && cached[key].nextRunAt > stored.nextRunAt
  }

  /**
   `after` is a correct rebuild of one user's records from `jobs`: merged
   records of scheduled jobs, all of them or as many as the limit allows,
   and those left out are due no later than those kept.
   */
  ghost predicate Rebuilt(cached: Jobs, jobs: Jobs, user: UserId, limit: nat, after: Jobs) {
    var scheduled := ScheduledKeys(jobs, {user});
    && after.Keys <= scheduled
    && |after.Keys| == (if |scheduled| <= limit then |scheduled| else limit)
    && (forall key <- after :: after[key] == Merged(cached, jobs[key]))
    && (forall lost <- scheduled - after.Keys, kept <- after :: NoLater(jobs[lost], jobs[kept]))
  }

  lemma SubsetOfSameSize(a: set<Key>, b: set<Key>)
    requires a <= b && |a| == |b|
    ensures a == b
  {
    PartsOfSet(a, b);
  }

  lemma PartsOfSet(a: set<Key>, b: set<Key>)
    requires a <= b
    ensures |b| == |a| + |b - a| && (b - a == {} <==> a == b)
  {
    assert b == a + (b - a);
  }

  /** A rebuild holds exactly the user's scheduled jobs if and only if they fit in the limit. */
  lemma RebuildIsCompleteWithinLimit(cached: Jobs, jobs: Jobs, user: UserId, limit: nat, after: Jobs)
    requires Rebuilt(cached, jobs, user, limit, after)
    ensures after.Keys == ScheduledKeys(jobs, {user}) <==> |ScheduledKeys(jobs, {user})| <= limit
  {
    if |ScheduledKeys(jobs, {user})| <= limit {
      SubsetOfSameSize(after.Keys, ScheduledKeys(jobs, {user}));
    }
  }

  /** Beyond the limit a job is lost that is due no later than any job that is kept. */
  lemma RebuildDropsTheSoonest(cached: Jobs, jobs: Jobs, user: UserId, limit: nat, after: Jobs) returns (lost: Key)
    requires Rebuilt(cached, jobs, user, limit, after) && |ScheduledKeys(jobs, {user})| > limit
    ensures lost in ScheduledKeys(jobs, {user}) && lost !in after
    ensures forall key <- after :: jobs[lost].nextRunAt <= after[key].nextRunAt
  {
    var scheduled := ScheduledKeys(jobs, {user});
    PartsOfSet(after.Keys, scheduled);
    lost :| lost in scheduled - after.Keys;
  }

  /** Rebuilding a queue that is in sync keeps it in sync if and only if the user's jobs fit in the limit. */
  lemma RebuildInSync(jobs: Jobs, allowed: set<UserId>, user: UserId, limit: nat, after: Jobs)
    requires WellKeyed(jobs) && user in allowed
    requires Rebuilt(Tracked(jobs, allowed), jobs, user, limit, OfUser(after, user))
    requires OfOthers(after, user) == OfOthers(Tracked(jobs, allowed), user)
    ensures after == Tracked(jobs, allowed) <==> |ScheduledKeys(jobs, {user})| <= limit
  {
    var tracked := Tracked(jobs, allowed);
    RebuildIsCompleteWithinLimit(tracked, jobs, user, limit, OfUser(after, user));
    assert OfUser(tracked, user).Keys == ScheduledKeys(jobs, {user});
    if |ScheduledKeys(jobs, {user})| <= limit {
      forall key | key in after || key in tracked
        ensures key in after && key in tracked && after[key] == tracked[key]
      {
        if key.0 == user {
          assert key in OfUser(after, user) && key in OfUser(tracked, user);
          assert OfUser(after, user)[key] == Merged(tracked, jobs[key]);
        } else {
          assert key in OfOthers(after, user) || key in OfOthers(tracked, user);
          assert OfOthers(after, user)[key] == OfOthers(tracked, user)[key];
        }
      }
      assert after == tracked;
    }
  }

  // ---------------------------------------------------------------------
  // The queue
  // ---------------------------------------------------------------------

  ghost predicate IsQueue(records: Jobs, allowed: set<UserId>) {
    forall key <- records ::
      KeyOf(records[key]) == key && key.0 in allowed && records[key].status == Scheduled
  }

  class ReminderSchedulerHandle {
    const allowedUsers: set<UserId>
    const rebuildLimit: nat
    var records: Jobs

    /** Scheduled records of allowed users only, each under its own key. */
    ghost predicate Valid()
      reads this
    {
      IsQueue(records, allowedUsers)
    }

    constructor (users: set<UserId>)
      ensures Valid() && records == map[] && allowedUsers == users && rebuildLimit == 4096
    {
      allowedUsers, rebuildLimit, records := users, DEFAULT_REBUILD_LIMIT, map[];
    }

    method UpsertRecord(record: Job)
      requires Valid()
      modifies this
      ensures Valid() && records == Notified(old(records), allowedUsers, Upsert(record))
    {
      if record.userId !in allowedUsers {
        return;
      }
      var key := (record.userId, record.reminderId);
      if record.status == Scheduled {
        records := records[key := record];
      } else {
        records := records - {key};
      }
    }

    method DeleteRecord(userId: UserId, reminderId: string)
      requires Valid()
      modifies this
      ensures Valid() && records == Notified(old(records), allowedUsers, Remove((userId, reminderId)))
    {
      records := records - {(userId, reminderId)};
    }

    method Notify(event: ScheduleEvent)
      requires Valid()
      modifies this
      ensures Valid() && records == Notified(old(records), allowedUsers, event)
    {
      match event {
        case Upsert(record) => UpsertRecord(record);
        case Remove(key) => DeleteRecord(key.0, key.1);
      }
    }

    method NextDueAt() returns (next: Option<int>)
      ensures IsEarliest(next, records, records.Keys)
    {
      hide IsEarliest;
      next := None;
      EarliestOfNone(records);
      assert records.Keys - records.Keys == {};
      var rest := records.Keys;
      while rest != {}
        invariant rest <= records.Keys
        invariant IsEarliest(next, records, records.Keys - rest)
        decreases |rest|
      {
        var key :| key in rest;
        ghost var before := rest;
        var time := records[key].nextRunAt;
        rest := rest - {key};
        assert before == rest + {key};
        EarliestMore(next, records, records.Keys - before, key);
        TakeKey(records.Keys, rest, key);
        if next.None? || time < next.value {
          next := Some(time);
        }
      }
      assert records.Keys - {} == records.Keys;
    }

    method TakeDueBatch(now: int, limit: nat) returns (due: seq<Job>)
      requires Valid()
      ensures IsListing(due, records, DueRecords(records, now), true, limit)
      ensures ListsDueJobs(due, records, allowedUsers, now, limit)
    {
      var wanted := (job: Job) => IsDue(job, now);
      var all := Collect(records, wanted);
      assert Matching(records, wanted) == DueRecords(records, now);
      hide Enumerates, Sorted, IsListing, ListsDueJobs;
      due := Sort(all, true);
      ListingOfSorted(all, due, records, DueRecords(records, now), true, limit);
      if |due| > limit {
        due := due[..limit];
      }
      DueInQueue(records, allowedUsers, now);
      DueListingIsExact(due, records, allowedUsers, now, limit);
    }

    /** The part of a rebuild that reads storage; whether the request fails is up to the storage. */
    method ListScheduled(storage: InMemoryStorage, userId: UserId, fails: bool)
      returns (r: Result<seq<Job>, ListingError>)
      requires WellKeyed(storage.reminderJobs)
      ensures r.Err? <==> fails
      ensures r.Ok? ==>
        IsListing(r.value, storage.reminderJobs, ScheduledKeys(storage.reminderJobs, {userId}), false, rebuildLimit)
    {
      if fails {
        return Err(ListingFailed);
      }
      hide IsListing;
      ListedAreScheduled(storage.reminderJobs, userId);
      var stored := storage.ListReminderJobs(userId, None, Some([Scheduled]), rebuildLimit);
      return Ok(stored);
    }

    /** The part of a rebuild that holds the queue's lock. */
    method InstallListing(userId: UserId, stored: seq<Job>) returns (tracked: nat)
      requires Valid() && userId in allowedUsers
      requires forall job <- stored :: job.userId == userId && job.status == Scheduled
      modifies this`records
      ensures Valid() && records == Installed(old(records), userId, stored) && tracked == |stored|
    {
      InstalledIsQueue(records, allowedUsers, userId, stored);
      hide IsQueue, MergedRecords;
      var others := map key | key in records && key.0 != userId :: records[key];
      assert others == OfOthers(records, userId);
      tracked := |stored|;
      records := InsertMerged(others, records, stored);
    }

    /** Both parts with nothing in between. */
    method ReconcileUserFromStorage(storage: InMemoryStorage, userId: UserId, fails: bool)
      returns (r: Result<nat, ListingError>)
      requires Valid() && WellKeyed(storage.reminderJobs)
      modifies this`records
      ensures Valid()
      ensures userId !in allowedUsers ==> r == Ok(0) && records == old(records)
      ensures userId in allowedUsers && fails ==> r.Err? && records == old(records)
      ensures userId in allowedUsers && !fails ==>
        && Rebuilt(old(records), storage.reminderJobs, userId, rebuildLimit, OfUser(records, userId))
        && OfOthers(records, userId) == OfOthers(old(records), userId)
        && r == Ok(|OfUser(records, userId)|)
    {
      if userId !in allowedUsers {
        return Ok(0);
      }
      var listed := ListScheduled(storage, userId, fails);
      if listed.Err? {
        return Err(listed.error);
      }
      RebuiltQueue(records, allowedUsers, storage.reminderJobs, userId, rebuildLimit, listed.value);
      ListedOfUser(listed.value, storage.reminderJobs, userId, rebuildLimit);
      hide IsQueue, Rebuilt, IsListing, MergedRecords, WellKeyed, OfUser, OfOthers;
      var tracked := InstallListing(userId, listed.value);
      return Ok(tracked);
    }

    /**
     Rebuilds user by user and stops at the first listing that fails; the
     users not reached keep what they had.
     */
    method BootstrapFromStorage(storage: InMemoryStorage, failing: set<UserId>) returns (r: Result<nat, ListingError>)
      requires Valid() && WellKeyed(storage.reminderJobs)
      modifies this`records
      ensures Valid()
      ensures r.Ok? <==> allowedUsers * failing == {}
      ensures r.Ok? ==>
        r.value == |records| && AllRebuilt(old(records), storage.reminderJobs, allowedUsers, rebuildLimit, records)
      ensures r.Err? ==>
        exists rest: set<UserId> ::
          && rest <= allowedUsers && allowedUsers * failing <= rest
          && AllRebuilt(old(records), storage.reminderJobs, allowedUsers - rest, rebuildLimit, records)
          && OfUsers(records, rest) == OfUsers(old(records), rest)
    {
      var total := 0;
      var rest := allowedUsers;
      ghost var jobs, cached := storage.reminderJobs, records;
      BootstrapStarts(cached, jobs, allowedUsers, rebuildLimit);
      hide IsQueue, WellKeyed, Rebuilt, OfUser, OfOthers, OfUsers, AllRebuilt, BootstrapProgress;
      while rest != {}
        invariant Valid() && rest <= allowedUsers && storage.reminderJobs == jobs && allowedUsers * failing <= rest
        invariant BootstrapProgress(cached, jobs, allowedUsers, rest, rebuildLimit, records, total)
        decreases |rest|
      {
        var user :| user in rest;
        ghost var before := records;
        var tracked := ReconcileUserFromStorage(storage, user, user in failing);
        if tracked.Err? {
          BootstrapStops(cached, jobs, allowedUsers, rest, rebuildLimit, records, total);
          assert user in allowedUsers * failing;
          return Err(tracked.error);
        }
        BootstrapAdvances(cached, jobs, allowedUsers, rest, rebuildLimit, before, total, user, records, tracked.value);
        total := total + tracked.value;
        rest := rest - {user};
      }
      BootstrapEnds(cached, jobs, allowedUsers, rebuildLimit, records, total);
      assert allowedUsers * failing == {};
      return Ok(total);
    }

    method TrackedCount() returns (count: nat)
      ensures count == |records|
    {
      count := |records|;
    }
  }

  /** The queue after a listing of one user was installed. */
  function Installed(records: Jobs, user: UserId, stored: seq<Job>): Jobs {
    OfOthers(records, user) + MergedRecords(records, stored)
  }

  lemma {:induction false} MergedOfUser(cached: Jobs, user: UserId, stored: seq<Job>)
    requires forall job <- stored :: job.userId == user && job.status == Scheduled
    ensures forall key <- MergedRecords(cached, stored) ::
      var job := MergedRecords(cached, stored)[key]; key == KeyOf(job) && key.0 == user && job.status == Scheduled
  {
    if stored != [] {
      var n := |stored| - 1;
      assert stored[n] in stored;
      MergedOfUser(cached, user, stored[..n]);
    }
  }

  lemma InstalledIsQueue(records: Jobs, allowed: set<UserId>, user: UserId, stored: seq<Job>)
    requires IsQueue(records, allowed) && user in allowed
    requires forall job <- stored :: job.userId == user && job.status == Scheduled
    ensures IsQueue(Installed(records, user, stored), allowed)
  {
    MergedOfUser(records, user, stored);
  }

  lemma ListedOfUser(stored: seq<Job>, jobs: Jobs, user: UserId, limit: nat)
    requires IsListing(stored, jobs, ScheduledKeys(jobs, {user}), false, limit)
    ensures forall job <- stored :: job.userId == user && job.status == Scheduled
  {
  }

  lemma RebuiltQueue(records: Jobs, allowed: set<UserId>, jobs: Jobs, user: UserId, limit: nat, stored: seq<Job>)
    requires IsQueue(records, allowed) && user in allowed
    requires WellKeyed(jobs) && IsListing(stored, jobs, ScheduledKeys(jobs, {user}), false, limit)
    ensures var after := Installed(records, user, stored);
      && IsQueue(after, allowed)
      && Rebuilt(records, jobs, user, limit, OfUser(after, user))
      && OfOthers(after, user) == OfOthers(records, user)
      && |OfUser(after, user)| == |stored|
  {
    hide Rebuilt, IsListing, MergedRecords, ScheduledKeys, WellKeyed;
    MergedListingIsRebuilt(records, jobs, user, limit, stored);
    SplitByUser(OfOthers(records, user), MergedRecords(records, stored), user);
  }

  // ---------------------------------------------------------------------
  // Rebuilding all users
  // ---------------------------------------------------------------------

  function OfUsers(jobs: Jobs, users: set<UserId>): Jobs {
    map key | key in jobs && key.0 in users :: jobs[key]
  }

  lemma OthersUntouched(before: Jobs, after: Jobs, user: UserId, other: UserId)
    requires OfOthers(before, user) == OfOthers(after, user) && other != user
    ensures OfUser(before, other) == OfUser(after, other)
  {
    forall key: Key | key.0 == other
      ensures key in before <==> key in after
      ensures key in before ==> before[key] == after[key]
    {
      assert key in OfOthers(before, user) <==> key in OfOthers(after, user);
      assert key in before ==> OfOthers(before, user)[key] == OfOthers(after, user)[key];
    }
  }

  lemma UsersUntouched(before: Jobs, after: Jobs, user: UserId, users: set<UserId>)
    requires OfOthers(before, user) == OfOthers(after, user) && user !in users
    ensures OfUsers(before, users) == OfUsers(after, users)
  {
    forall key: Key | key.0 in users
      ensures key in before <==> key in after
      ensures key in before ==> before[key] == after[key]
    {
      assert key in OfOthers(before, user) <==> key in OfOthers(after, user);
      assert key in before ==> OfOthers(before, user)[key] == OfOthers(after, user)[key];
    }
  }

  lemma CountUsers(jobs: Jobs, users: set<UserId>, user: UserId)
    requires user !in users
    ensures |OfUsers(jobs, users + {user})| == |OfUsers(jobs, users)| + |OfUser(jobs, user)|
  {
    var a, b := OfUsers(jobs, users).Keys, OfUser(jobs, user).Keys;
    assert OfUsers(jobs, users + {user}).Keys == a + b;
    assert a !! b;
    SizesOfMaps(OfUsers(jobs, users + {user}), OfUsers(jobs, users), OfUser(jobs, user));
  }

  lemma SizesOfMaps(whole: Jobs, a: Jobs, b: Jobs)
    requires whole.Keys == a.Keys + b.Keys && a.Keys !! b.Keys
    ensures |whole| == |a| + |b|
  {
    assert |whole| == |whole.Keys| && |a| == |a.Keys| && |b| == |b.Keys|;
  }

  lemma CountOneMoreUser(before: Jobs, after: Jobs, users: set<UserId>, user: UserId)
    requires OfOthers(before, user) == OfOthers(after, user) && user !in users
    ensures |OfUsers(after, users + {user})| == |OfUsers(before, users)| + |OfUser(after, user)|
  {
    hide OfUsers, OfUser, OfOthers;
    UsersUntouched(before, after, user, users);
    CountUsers(after, users, user);
  }

  /** A rebuild of a user only depends on what was cached for that user. */
  lemma RebuiltIsLocal(cached: Jobs, cached': Jobs, jobs: Jobs, user: UserId, limit: nat, after: Jobs)
    requires WellKeyed(jobs) && OfUser(cached, user) == OfUser(cached', user)
    requires Rebuilt(cached, jobs, user, limit, after)
    ensures Rebuilt(cached', jobs, user, limit, after)
  {
    hide NoLater;
    forall key | key in after
      ensures Merged(cached, jobs[key]) == Merged(cached', jobs[key])
    {
      assert key in OfUser(cached, user) <==> key in OfUser(cached', user);
      assert key in cached ==> OfUser(cached, user)[key] == OfUser(cached', user)[key];
    }
  }

  ghost predicate AllRebuilt(cached: Jobs, jobs: Jobs, users: set<UserId>, limit: nat, after: Jobs) {
    forall user <- users :: Rebuilt(cached, jobs, user, limit, OfUser(after, user))
  }

  /** The loop invariant of the bootstrap, carried over one more user. */
  lemma OneMoreRebuilt(cached: Jobs, before: Jobs, after: Jobs, jobs: Jobs, done: set<UserId>, rest: set<UserId>, user: UserId,
      limit: nat)
    requires WellKeyed(jobs) && user !in done && user in rest
    requires AllRebuilt(cached, jobs, done, limit, before)
    requires forall other <- rest :: OfUser(before, other) == OfUser(cached, other)
    requires OfOthers(before, user) == OfOthers(after, user)
    requires Rebuilt(before, jobs, user, limit, OfUser(after, user))
    ensures AllRebuilt(cached, jobs, done + {user}, limit, after)
    ensures forall other <- rest - {user} :: OfUser(after, other) == OfUser(cached, other)
  {
    hide Rebuilt, OfUser, OfOthers, WellKeyed;
    RebuiltIsLocal(before, cached, jobs, user, limit, OfUser(after, user));
    forall other | other != user
      ensures OfUser(before, other) == OfUser(after, other)
    {
      OthersUntouched(before, after, user, other);
    }
  }

  /** The users outside `rest` are rebuilt and counted, the others are as they were. */
  ghost predicate BootstrapProgress(cached: Jobs, jobs: Jobs, allowed: set<UserId>, rest: set<UserId>, limit: nat,
    records: Jobs, total: nat)
  {
    && AllRebuilt(cached, jobs, allowed - rest, limit, records)
    && (forall user <- rest :: OfUser(records, user) == OfUser(cached, user))
    && total == |OfUsers(records, allowed - rest)|
  }

  lemma BootstrapStarts(cached: Jobs, jobs: Jobs, allowed: set<UserId>, limit: nat)
    ensures BootstrapProgress(cached, jobs, allowed, allowed, limit, cached, 0)
  {
    assert allowed - allowed == {};
    assert OfUsers(cached, {}) == map[];
  }

  lemma BootstrapAdvances(cached: Jobs, jobs: Jobs, allowed: set<UserId>, rest: set<UserId>, limit: nat,
      before: Jobs, total: nat, user: UserId, after: Jobs, tracked: nat)
    requires WellKeyed(jobs) && rest <= allowed && user in rest
    requires BootstrapProgress(cached, jobs, allowed, rest, limit, before, total)
    requires Rebuilt(before, jobs, user, limit, OfUser(after, user))
    requires OfOthers(after, user) == OfOthers(before, user) && tracked == |OfUser(after, user)|
    ensures BootstrapProgress(cached, jobs, allowed, rest - {user}, limit, after, total + tracked)
  {
    hide Rebuilt, OfUser, OfOthers, OfUsers, AllRebuilt, WellKeyed;
    OneMoreRebuilt(cached, before, after, jobs, allowed - rest, rest, user, limit);
    CountOneMoreUser(before, after, allowed - rest, user);
    assert allowed - (rest - {user}) == allowed - rest + {user};
  }

  lemma BootstrapStops(cached: Jobs, jobs: Jobs, allowed: set<UserId>, rest: set<UserId>, limit: nat,
      records: Jobs, total: nat)
    requires BootstrapProgress(cached, jobs, allowed, rest, limit, records, total)
    ensures AllRebuilt(cached, jobs, allowed - rest, limit, records)
    ensures OfUsers(records, rest) == OfUsers(cached, rest)
  {
    hide Rebuilt;
    forall key: Key | key.0 in rest
      ensures key in records <==> key in cached
      ensures key in records ==> records[key] == cached[key]
    {
      assert OfUser(records, key.0) == OfUser(cached, key.0);
      assert key in OfUser(records, key.0) <==> key in OfUser(cached, key.0);
      assert key in records ==> OfUser(records, key.0)[key] == OfUser(cached, key.0)[key];
    }
  }

  lemma BootstrapEnds(cached: Jobs, jobs: Jobs, allowed: set<UserId>, limit: nat, records: Jobs, total: nat)
    requires IsQueue(records, allowed) && BootstrapProgress(cached, jobs, allowed, {}, limit, records, total)
    ensures AllRebuilt(cached, jobs, allowed, limit, records) && total == |records|
  {
    assert allowed - {} == allowed;
    QueueIsOfItsUsers(records, allowed);
  }

  lemma QueueIsOfItsUsers(records: Jobs, allowed: set<UserId>)
    requires IsQueue(records, allowed)
    ensures OfUsers(records, allowed) == records
  {
  }

  lemma RebuiltKey(cached: Jobs, jobs: Jobs, user: UserId, limit: nat, after: Jobs, key: Key)
    requires Rebuilt(cached, jobs, user, limit, OfUser(after, user)) && key.0 == user
    requires |ScheduledKeys(jobs, {user})| <= limit
    ensures key in after <==> key in jobs && jobs[key].status == Scheduled
    ensures key in after ==> after[key] == Merged(cached, jobs[key])
  {
    hide NoLater, Merged;
    RebuildIsCompleteWithinLimit(cached, jobs, user, limit, OfUser(after, user));
    assert key in OfUser(after, user) <==> key in ScheduledKeys(jobs, {user});
  }

  /**
   After a quiet bootstrap in which every user fits in the limit, the queue
   holds exactly the scheduled jobs of the allowed users, each merged with
   what was cached.
   */
  lemma BootstrapRestoresKeys(cached: Jobs, jobs: Jobs, allowed: set<UserId>, limit: nat, after: Jobs)
    requires IsQueue(after, allowed) && AllRebuilt(cached, jobs, allowed, limit, after)
    requires forall user <- allowed :: |ScheduledKeys(jobs, {user})| <= limit
    ensures after.Keys == Tracked(jobs, allowed).Keys
    ensures forall key <- after :: after[key] == Merged(cached, jobs[key])
  {
    hide Rebuilt, OfUser, ScheduledKeys, Merged;
    forall key: Key | key.0 in allowed
      ensures key in after <==> key in jobs && jobs[key].status == Scheduled
      ensures key in after ==> after[key] == Merged(cached, jobs[key])
    {
      RebuiltKey(cached, jobs, key.0, limit, after, key);
    }
  }

  /** It is back in sync exactly when no later run time was cached for an unchanged version. */
  lemma BootstrapRestoresSync(cached: Jobs, jobs: Jobs, allowed: set<UserId>, limit: nat, after: Jobs)
    requires WellKeyed(jobs) && IsQueue(after, allowed) && AllRebuilt(cached, jobs, allowed, limit, after)
    requires forall user <- allowed :: |ScheduledKeys(jobs, {user})| <= limit
    ensures after == Tracked(jobs, allowed)
       <==> forall key <- Tracked(jobs, allowed) :: !CachedAhead(cached, jobs[key])
  {
    hide AllRebuilt, IsQueue, ScheduledKeys;
    BootstrapRestoresKeys(cached, jobs, allowed, limit, after);
    var tracked := Tracked(jobs, allowed);
    forall key | key in tracked
      ensures after[key] == tracked[key]
        <==> !CachedAhead(cached, jobs[key])
    {
      assert KeyOf(jobs[key]) == key;
    }
  }

  /**
   The case in which it is not: a reminder found busy is rescheduled to its
   old time, while the queue gets the same record with a later time.
   */
  lemma DeferredReminderStaysAhead(job: Job, retryAt: int, error: string, clock: int, limit: nat, after: Jobs)
    requires job.status == Scheduled && retryAt > job.nextRunAt && limit >= 1
    requires var stored := Updated(job, Reschedule(job.nextRunAt, None, Some(error), false), clock);
      var deferred := Notified(map[], {job.userId}, Upsert(stored.(nextRunAt := retryAt)));
      && IsQueue(after, {job.userId})
      && AllRebuilt(deferred, map[KeyOf(job) := stored], {job.userId}, limit, after)
    ensures var stored := Updated(job, Reschedule(job.nextRunAt, None, Some(error), false), clock);
      && after == map[KeyOf(job) := stored.(nextRunAt := retryAt)]
      && after != Tracked(map[KeyOf(job) := stored], {job.userId})
  {
    hide AllRebuilt, IsQueue;
    var key, users := KeyOf(job), {job.userId};
    var stored := Updated(job, Reschedule(job.nextRunAt, None, Some(error), false), clock);
    var jobs := map[key := stored];
    var deferred := Notified(map[], users, Upsert(stored.(nextRunAt := retryAt)));
    assert deferred == map[key := stored.(nextRunAt := retryAt)];
    forall user <- users
      ensures |ScheduledKeys(jobs, {user})| <= limit
    {
      assert ScheduledKeys(jobs, {user}) == {key};
    }
    BootstrapRestoresKeys(deferred, jobs, users, limit, after);
    assert Tracked(jobs, users) == jobs;
    assert after.Keys == {key} && after[key] == Merged(deferred, stored);
  }

  // ---------------------------------------------------------------------
  // Healing: whatever happened to the notifications
  // ---------------------------------------------------------------------

  /** The run passed through a state in which storage held this record. */
  ghost predicate WasStored(s: Store, steps: seq<Step>, job: Job) {
    exists k :: 0 <= k <= |steps| && HeldAfter(s, steps[..k], job)
  }

  predicate HeldAfter(s: Store, steps: seq<Step>, job: Job) {
    var jobs := Run(s, steps).jobs;
    KeyOf(job) in jobs && jobs[KeyOf(job)] == job
  }

  function Delivered(records: Jobs, allowed: set<UserId>, events: seq<ScheduleEvent>): Jobs
    decreases |events|
  {
    if events == [] then records else Delivered(Notified(records, allowed, events[0]), allowed, events[1..])
  }

  /** Each entry is a record that storage held at some time of the run. */
  ghost predicate Historic(s: Store, steps: seq<Step>, records: Jobs) {
    forall key <- records :: KeyOf(records[key]) == key && WasStored(s, steps, records[key])
  }

  lemma {:induction false} DeliveredIsHistoric(
      s: Store, steps: seq<Step>, records: Jobs, allowed: set<UserId>, events: seq<ScheduleEvent>)
    requires Historic(s, steps, records)
    requires forall e <- events :: e.Upsert? ==> WasStored(s, steps, e.record)
    ensures Historic(s, steps, Delivered(records, allowed, events))
    decreases |events|
  {
    hide WasStored;
    if events != [] {
      assert events[0] in events;
      DeliveredIsHistoric(s, steps, Notified(records, allowed, events[0]), allowed, events[1..]);
    }
  }

  /** Below the maximum version, a record that storage once held is never ahead of the one it holds now. */
  lemma HistoricIsNotAhead(s: Store, steps: seq<Step>, cached: Jobs, key: Key)
    requires StoreInvariant(s) && FreshIds(s, steps) && Historic(s, steps, cached)
    requires key in Run(s, steps).jobs && Run(s, steps).jobs[key].version < U64_MAX
    ensures KeyOf(Run(s, steps).jobs[key]) == key && !CachedAhead(cached, Run(s, steps).jobs[key])
  {
    hide Run, FreshIds, JobInvariant;
    RunKeepsInvariant(s, steps);
    JobHasItsKey(Run(s, steps), key);
    if key in cached {
      var k :| 0 <= k <= |steps| && HeldAfter(s, steps[..k], cached[key]);
      var s' := Run(s, steps[..k]);
      RunSplit(s, steps, k);
      RunKeepsInvariant(s, steps[..k]);
      if s'.jobs[key].version == Run(s, steps).jobs[key].version {
        VersionDeterminesRecord(s', steps[k..], key);
      }
    }
  }

  lemma JobHasItsKey(s: Store, key: Key)
    requires StoreInvariant(s) && key in s.jobs
    ensures KeyOf(s.jobs[key]) == key
  {
  }

  /**
   Whatever notifications of stored records were lost, repeated, delayed or
   reordered: below the maximum version and within the limit, one bootstrap
   brings the queue back to exactly the scheduled jobs of the allowed users.
   */
  lemma BootstrapHealsAnyDelivery(
      s: Store, steps: seq<Step>, allowed: set<UserId>, events: seq<ScheduleEvent>, limit: nat, after: Jobs)
    requires StoreInvariant(s) && FreshIds(s, steps)
    requires forall e <- events :: e.Upsert? ==> WasStored(s, steps, e.record)
    requires forall key <- Run(s, steps).jobs :: Run(s, steps).jobs[key].version < U64_MAX
    requires forall user <- allowed :: |ScheduledKeys(Run(s, steps).jobs, {user})| <= limit
    requires IsQueue(after, allowed)
    requires AllRebuilt(Delivered(map[], allowed, events), Run(s, steps).jobs, allowed, limit, after)
    ensures after == Tracked(Run(s, steps).jobs, allowed)
  {
    hide Run, FreshIds, AllRebuilt, IsQueue, WasStored, ScheduledKeys, JobInvariant, CachedAhead;
    var jobs, cached := Run(s, steps).jobs, Delivered(map[], allowed, events);
    RunKeepsInvariant(s, steps);
    DeliveredIsHistoric(s, steps, map[], allowed, events);
    forall key | key in jobs
      ensures KeyOf(jobs[key]) == key && !CachedAhead(cached, jobs[key])
    {
      HistoricIsNotAhead(s, steps, cached, key);
    }
    BootstrapRestoresSync(cached, jobs, allowed, limit, after);
  }

  // ---------------------------------------------------------------------
  // Storage changing between the listing and its installation
  // ---------------------------------------------------------------------

  /**
   A queue in sync, a complete listing of one user, then any announced steps,
   then the installation: below the maximum version the queue is still in
   sync if and only if the user's scheduled jobs are what they were when they
   were listed.
   */
  lemma InterruptedRebuildExactly(
      s: Store, steps: seq<Step>, allowed: set<UserId>, user: UserId, limit: nat, stored: seq<Job>)
    requires StoreInvariant(s) && FreshIds(s, steps) && user in allowed
    requires IsListing(stored, s.jobs, ScheduledKeys(s.jobs, {user}), false, limit)
    requires |ScheduledKeys(s.jobs, {user})| <= limit
    requires forall key <- Run(s, steps).jobs :: Run(s, steps).jobs[key].version < U64_MAX
    ensures var records := RunAnnounced(s, Tracked(s.jobs, allowed), allowed, steps);
      Installed(records, user, stored) == Tracked(Run(s, steps).jobs, allowed)
      <==> OfUser(Tracked(s.jobs, allowed), user) == OfUser(Tracked(Run(s, steps).jobs, allowed), user)
  {
    hide Run, FreshIds, RunAnnounced, IsListing, JobInvariant, StoreInvariant, MergedRecords, Rebuilt, ScheduledKeys,
      OfUser, OfOthers, Tracked;
    RunStaysInSync(s, allowed, steps);
    var listed, now := Tracked(s.jobs, allowed), Tracked(Run(s, steps).jobs, allowed);
    StoreIsWellKeyed(s);
    MergedListingIsRebuilt(now, s.jobs, user, limit, stored);
    forall key | key in ScheduledKeys(s.jobs, {user})
      ensures key in s.jobs && Merged(now, s.jobs[key]) == s.jobs[key]
    {
      ListedIsNotMerged(s, steps, allowed, user, key);
    }
    RebuiltAsListed(now, s.jobs, allowed, user, limit, MergedRecords(now, stored));
    ReplacedPart(now, listed, user);
  }

  lemma StoreIsWellKeyed(s: Store)
    requires StoreInvariant(s)
    ensures WellKeyed(s.jobs)
  {
  }

  /** What the queue holds by now is never ahead of what was listed. */
  lemma ListedIsNotMerged(s: Store, steps: seq<Step>, allowed: set<UserId>, user: UserId, key: Key)
    requires StoreInvariant(s) && FreshIds(s, steps) && key in ScheduledKeys(s.jobs, {user})
    requires forall k <- Run(s, steps).jobs :: Run(s, steps).jobs[k].version < U64_MAX
    ensures key in s.jobs && Merged(Tracked(Run(s, steps).jobs, allowed), s.jobs[key]) == s.jobs[key]
  {
    hide Run, FreshIds, JobInvariant;
    JobHasItsKey(s, key);
    var jobs := Run(s, steps).jobs;
    if key in jobs && jobs[key].version == s.jobs[key].version {
      VersionDeterminesRecord(s, steps, key);
    }
  }

  lemma RebuiltAsListed(cached: Jobs, jobs: Jobs, allowed: set<UserId>, user: UserId, limit: nat, after: Jobs)
    requires Rebuilt(cached, jobs, user, limit, after) && user in allowed
    requires |ScheduledKeys(jobs, {user})| <= limit
    requires forall key <- ScheduledKeys(jobs, {user}) :: key in jobs && Merged(cached, jobs[key]) == jobs[key]
    ensures after == OfUser(Tracked(jobs, allowed), user)
  {
    hide Merged, NoLater;
    RebuildIsCompleteWithinLimit(cached, jobs, user, limit, after);
    var mine := OfUser(Tracked(jobs, allowed), user);
    assert mine.Keys == ScheduledKeys(jobs, {user});
    forall key | key in after
      ensures after[key] == mine[key]
    {
      assert key in ScheduledKeys(jobs, {user});
    }
  }

  /** Replacing the records of one user by those of another map changes nothing exactly when they are the same. */
  lemma ReplacedPart(records: Jobs, others: Jobs, user: UserId)
    ensures OfOthers(records, user) + OfUser(others, user) == records <==> OfUser(others, user) == OfUser(records, user)
  {
    SplitByUser(OfOthers(records, user), OfUser(others, user), user);
    assert OfOthers(records, user) + OfUser(records, user) == records;
  }

  /** For instance, a job deleted in between comes back into the queue. */
  lemma DeletedJobResurrected(s: Store, allowed: set<UserId>, key: Key, limit: nat, stored: seq<Job>)
    requires StoreInvariant(s) && key.0 in allowed && key in ScheduledKeys(s.jobs, {key.0})
    requires IsListing(stored, s.jobs, ScheduledKeys(s.jobs, {key.0}), false, limit)
    requires |ScheduledKeys(s.jobs, {key.0})| <= limit
    ensures var records := RunAnnounced(s, Tracked(s.jobs, allowed), allowed, [Delete(key)]);
      && key !in Run(s, [Delete(key)]).jobs && key !in records
      && key in Installed(records, key.0, stored)
  {
    hide IsListing, MergedRecords, JobInvariant;
    var steps := [Delete(key)];
    assert steps[1..] == [];
    assert Run(s, steps) == Advance(s, Delete(key));
    RunStaysInSync(s, allowed, steps);
    var records := RunAnnounced(s, Tracked(s.jobs, allowed), allowed, steps);
    StoreIsWellKeyed(s);
    MergedListingIsRebuilt(records, s.jobs, key.0, limit, stored);
    RebuildIsCompleteWithinLimit(records, s.jobs, key.0, limit, MergedRecords(records, stored));
  }

  lemma ListedAreScheduled(jobs: Jobs, user: UserId)
    requires WellKeyed(jobs)
    ensures ListedKeys(jobs, user, None, Some([Scheduled])) == ScheduledKeys(jobs, {user})
  {
  }

  /** The rebuild loop: each stored record is merged with the cached one and inserted. */
  method InsertMerged(others: Jobs, previous: Jobs, stored: seq<Job>) returns (records: Jobs)
    ensures records == others + MergedRecords(previous, stored)
  {
    records := others;
    for i := 0 to |stored|
      invariant records == others + MergedRecords(previous, stored[..i])
    {
      var record := stored[i];
      var key := (record.userId, record.reminderId);
      if key in previous && previous[key].version == record.version && previous[key].nextRunAt > record.nextRunAt {
        record := record.(nextRunAt := previous[key].nextRunAt);
      }
      assert record == Merged(previous, stored[i]) && key == KeyOf(stored[i]);
      assert stored[..i + 1][..i] == stored[..i];
      records := records[key := record];
    }
    assert stored[..|stored|] == stored;
  }

  /** The merged records under their keys, later entries replacing earlier ones. */
  function MergedRecords(cached: Jobs, stored: seq<Job>): Jobs {
    if stored == [] then map[]
    else
      var n := |stored| - 1;
      MergedRecords(cached, stored[..n])[KeyOf(stored[n]) := Merged(cached, stored[n])]
  }

  function KeysOfAll(stored: seq<Job>): set<Key> {
    set job | job in stored :: KeyOf(job)
  }

  ghost predicate DistinctKeys(stored: seq<Job>) {
    forall i, j :: 0 <= i < j < |stored| ==> KeyOf(stored[i]) != KeyOf(stored[j])
  }

  ghost predicate HoldsMerged(m: Jobs, cached: Jobs, stored: seq<Job>) {
    && m.Keys == KeysOfAll(stored)
    && (forall job <- stored :: KeyOf(job) in m && m[KeyOf(job)] == Merged(cached, job))
    && |m.Keys| == |stored|
  }

  lemma KeysOfOneMore(front: seq<Job>, last: Job)
    ensures KeysOfAll(front + [last]) == KeysOfAll(front) + {KeyOf(last)}
    ensures forall job <- front :: KeyOf(job) in KeysOfAll(front)
  {
    hide KeyOf;
  }

  lemma HoldsOneMore(m: Jobs, cached: Jobs, front: seq<Job>, last: Job)
    requires HoldsMerged(m, cached, front) && DistinctKeys(front + [last])
    ensures HoldsMerged(m[KeyOf(last) := Merged(cached, last)], cached, front + [last])
  {
    hide Merged, KeyOf;
    LastKeyIsNew(front, last);
    KeysOfOneMore(front, last);
    var key, merged := KeyOf(last), Merged(cached, last);
    StillMerged(m, cached, front, key, merged);
    OneMoreKey(m, key, merged);
    hide KeysOfAll, DistinctKeys;
    forall job | job in front + [last]
      ensures KeyOf(job) in m[key := merged] && m[key := merged][KeyOf(job)] == Merged(cached, job)
    {
      if job !in front {
        assert job == last;
      }
    }
  }

  lemma OneMoreKey(m: Jobs, key: Key, merged: Job)
    requires key !in m
    ensures m[key := merged].Keys == m.Keys + {key} && |m[key := merged].Keys| == |m.Keys| + 1
  {
  }

  lemma StillMerged(m: Jobs, cached: Jobs, front: seq<Job>, key: Key, merged: Job)
    requires key !in m && forall job <- front :: KeyOf(job) in m && m[KeyOf(job)] == Merged(cached, job)
    ensures forall job <- front :: KeyOf(job) in m[key := merged] && m[key := merged][KeyOf(job)] == Merged(cached, job)
  {
    hide Merged, KeyOf;
  }

  lemma {:induction false} MergedRecordsShape(cached: Jobs, stored: seq<Job>)
    requires DistinctKeys(stored)
    ensures HoldsMerged(MergedRecords(cached, stored), cached, stored)
  {
    hide Merged, KeyOf;
    if stored != [] {
      var n := |stored| - 1;
      var front, last := stored[..n], stored[n];
      assert stored == front + [last];
      FrontIsDistinct(front, last);
      MergedRecordsShape(cached, front);
      HoldsOneMore(MergedRecords(cached, front), cached, front, last);
    }
  }

  lemma FrontIsDistinct(front: seq<Job>, last: Job)
    requires DistinctKeys(front + [last])
    ensures DistinctKeys(front)
  {
    hide KeyOf;
    var s := front + [last];
    forall i, j | 0 <= i < j < |front|
      ensures KeyOf(front[i]) != KeyOf(front[j])
    {
      assert KeyOf(s[i]) != KeyOf(s[j]);
    }
  }

  lemma LastKeyIsNew(front: seq<Job>, last: Job)
    requires DistinctKeys(front + [last])
    ensures KeyOf(last) !in KeysOfAll(front)
  {
    hide KeyOf;
    var s := front + [last];
    forall job | job in front
      ensures KeyOf(job) != KeyOf(last)
    {
      var i :| 0 <= i < |front| && front[i] == job;
      assert KeyOf(s[i]) != KeyOf(s[|front|]);
    }
  }

  lemma MergedListingIsRebuilt(cached: Jobs, jobs: Jobs, user: UserId, limit: nat, stored: seq<Job>)
    requires WellKeyed(jobs) && IsListing(stored, jobs, ScheduledKeys(jobs, {user}), false, limit)
    ensures Rebuilt(cached, jobs, user, limit, MergedRecords(cached, stored))
    ensures |MergedRecords(cached, stored)| == |stored|
    ensures forall key <- MergedRecords(cached, stored) ::
      key.0 == user && MergedRecords(cached, stored)[key].status == Scheduled
      && KeyOf(MergedRecords(cached, stored)[key]) == key
  {
    hide NoLater, Sorted, MergedRecords;
    MergedRecordsShape(cached, stored);
    var after, scheduled := MergedRecords(cached, stored), ScheduledKeys(jobs, {user});
    assert |after| == |after.Keys|;
    forall key | key in after
      ensures jobs[key] in stored && after[key] == Merged(cached, jobs[key])
    {
      var job :| job in stored && KeyOf(job) == key;
    }
    forall lost, kept | lost in scheduled - after.Keys && kept in after
      ensures NoLater(jobs[lost], jobs[kept])
    {
      assert jobs[lost] !in stored by {
        assert KeyOf(jobs[lost]) !in KeysOfAll(stored);
      }
      assert jobs[kept] in stored;
      assert InOrder(jobs[kept], jobs[lost], false);
    }
  }

  lemma SplitByUser(others: Jobs, mine: Jobs, user: UserId)
    requires (forall key <- others :: key.0 != user) && (forall key <- mine :: key.0 == user)
    ensures OfUser(others + mine, user) == mine && OfOthers(others + mine, user) == others
  {
  }
}
