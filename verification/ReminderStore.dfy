/** The in-memory reminder store: records in a map, changed in place. */
module ReminderStore {
  import opened Prelude
  import opened ReminderJobs

  // ---------------------------------------------------------------------
  // Listings: filter, sort, truncate
  // ---------------------------------------------------------------------

  /** The order of both listings: by run time, then by creation time. */
  predicate NoLater(a: Job, b: Job) {
    a.nextRunAt < b.nextRunAt || (a.nextRunAt == b.nextRunAt && a.createdAt <= b.createdAt)
  }

  predicate InOrder(a: Job, b: Job, ascending: bool) {
    if ascending then NoLater(a, b) else NoLater(b, a)
  }

  predicate Sorted(jobs: seq<Job>, ascending: bool) {
    forall i, j :: 0 <= i < j < |jobs| ==> InOrder(jobs[i], jobs[j], ascending)
  }

  function Matching(jobs: Jobs, wanted: Job -> bool): set<Key> {
    set key | key in jobs && wanted(jobs[key])
  }

  /** Each record of the chosen keys exactly once. */
  ghost predicate Enumerates(records: seq<Job>, jobs: Jobs, keys: set<Key>) {
    && |records| == |keys|
    && (forall key <- keys :: key in jobs && jobs[key] in records && KeyOf(jobs[key]) == key)
    && (forall r <- records ::
          KeyOf(r) in keys && KeyOf(r) in jobs && jobs[KeyOf(r)] == r && multiset(records)[r] == 1)
  }

  /**
   The answer of a listing with a limit: a sorted list of distinct records of
   the chosen keys, as many as the limit allows, and nothing that was left
   out belongs in front of something that was taken.
   */
  ghost predicate IsListing(r: seq<Job>, jobs: Jobs, keys: set<Key>, ascending: bool, limit: nat) {
    && |r| == (if |keys| <= limit then |keys| else limit)
    && Sorted(r, ascending)
    && (forall job <- r :: KeyOf(job) in keys && KeyOf(job) in jobs && jobs[KeyOf(job)] == job)
    && (forall i, j :: 0 <= i < j < |r| ==> KeyOf(r[i]) != KeyOf(r[j]))
    && (|keys| <= limit ==> forall key <- keys :: key in jobs && jobs[key] in r)
    && (forall key <- keys, job <- r :: key in jobs && (jobs[key] in r || InOrder(job, jobs[key], ascending)))
  }

  ghost predicate WellKeyed(jobs: Jobs) {
    forall key <- jobs :: KeyOf(jobs[key]) == key
  }

  /** Every store a run can reach is well keyed. */
  lemma RunIsWellKeyed(steps: seq<Step>)
    ensures WellKeyed(Run(Store(map[], {}), steps).jobs)
  {
    RunKeepsInvariant(Store(map[], {}), steps);
  }

  /** Collects the wanted records, in whatever order the map yields them. */
  method Collect(jobs: Jobs, wanted: Job -> bool) returns (records: seq<Job>)
    requires WellKeyed(jobs)
    ensures Enumerates(records, jobs, Matching(jobs, wanted))
  {
    records := [];
    var rest := jobs.Keys;
    ghost var keys := Matching(jobs, wanted);
    assert forall key <- jobs :: key in keys <==> wanted(jobs[key]);
    EnumeratesNothing(jobs);
    assert keys - rest == {};
    hide Enumerates, Matching;
    while rest != {}
      invariant rest <= jobs.Keys
      invariant Enumerates(records, jobs, keys - rest)
      decreases |rest|
    {
      var key :| key in rest;
      ghost var done := keys - rest;
      ghost var before := rest;
      rest := rest - {key};
      assert before == rest + {key};
      TakeKey(keys, rest, key);
      if wanted(jobs[key]) {
        EnumeratesMore(records, jobs, done, key);
        records := records + [jobs[key]];
      }
    }
    assert keys - {} == keys;
  }

  lemma TakeKey(keys: set<Key>, rest: set<Key>, key: Key)
    requires key !in rest
    ensures keys - rest == if key in keys then keys - (rest + {key}) + {key} else keys - (rest + {key})
  {
  }

  lemma EnumeratesNothing(jobs: Jobs)
    ensures Enumerates([], jobs, {})
  {
  }

  lemma EnumeratesMore(records: seq<Job>, jobs: Jobs, keys: set<Key>, key: Key)
    requires Enumerates(records, jobs, keys) && key in jobs && key !in keys && KeyOf(jobs[key]) == key
    ensures Enumerates(records + [jobs[key]], jobs, keys + {key})
  {
  }

  function Insert(job: Job, sorted: seq<Job>, ascending: bool): (r: seq<Job>)
    ensures multiset(r) == multiset(sorted) + multiset{job}
    ensures Sorted(sorted, ascending) ==> Sorted(r, ascending)
  {
    if sorted == [] || !InOrder(sorted[0], job, ascending) then
      InsertFront(job, sorted, ascending);
      [job] + sorted
    else
      var rest := Insert(job, sorted[1..], ascending);
      InsertBehind(job, sorted, rest, ascending);
      [sorted[0]] + rest
  }

  lemma InsertFront(job: Job, sorted: seq<Job>, ascending: bool)
    requires sorted == [] || !InOrder(sorted[0], job, ascending)
    ensures Sorted(sorted, ascending) ==> Sorted([job] + sorted, ascending)
  {
    if Sorted(sorted, ascending) {
      var r := [job] + sorted;
      forall i, j | 0 <= i < j < |r|
        ensures InOrder(r[i], r[j], ascending)
      {
        if i == 0 {
          assert j > 1 ==> InOrder(sorted[0], sorted[j - 1], ascending);
        } else {
          assert InOrder(sorted[i - 1], sorted[j - 1], ascending);
        }
      }
    }
  }

  lemma InsertBehind(job: Job, sorted: seq<Job>, rest: seq<Job>, ascending: bool)
    requires sorted != [] && InOrder(sorted[0], job, ascending)
    requires multiset(rest) == multiset(sorted[1..]) + multiset{job}
    requires Sorted(sorted[1..], ascending) ==> Sorted(rest, ascending)
    ensures multiset([sorted[0]] + rest) == multiset(sorted) + multiset{job}
    ensures Sorted(sorted, ascending) ==> Sorted([sorted[0]] + rest, ascending)
  {
    assert sorted == [sorted[0]] + sorted[1..];
    if Sorted(sorted, ascending) {
      var r := [sorted[0]] + rest;
      forall i, j | 0 <= i < j < |r|
        ensures InOrder(r[i], r[j], ascending)
      {
        if i == 0 {
          assert r[j] in multiset(rest);
          if r[j] != job {
            assert r[j] in sorted[1..];
            var k :| 0 <= k < |sorted[1..]| && sorted[1..][k] == r[j];
            assert InOrder(sorted[0], sorted[k + 1], ascending);
          }
        } else {
          assert InOrder(rest[i - 1], rest[j - 1], ascending);
        }
      }
    }
  }

  method Sort(records: seq<Job>, ascending: bool) returns (sorted: seq<Job>)
    ensures Sorted(sorted, ascending) && multiset(sorted) == multiset(records)
  {
    sorted := [];
    for i := 0 to |records|
      invariant Sorted(sorted, ascending) && multiset(sorted) == multiset(records[..i])
    {
      assert records[..i + 1] == records[..i] + [records[i]];
      sorted := Insert(records[i], sorted, ascending);
    }
    assert records[..|records|] == records;
  }

  lemma OccursTwice(s: seq<Job>, i: nat, j: nat)
    requires i < j < |s| && s[i] == s[j]
    ensures multiset(s)[s[i]] >= 2
  {
    assert s == s[..i] + [s[i]] + s[i + 1..j] + [s[j]] + s[j + 1..];
  }

  /** A permutation of an enumeration holds the same distinct records. */
  lemma PermutedEnumeration(records: seq<Job>, sorted: seq<Job>, jobs: Jobs, keys: set<Key>)
    requires Enumerates(records, jobs, keys) && multiset(sorted) == multiset(records)
    ensures |sorted| == |keys|
    ensures forall job <- sorted :: KeyOf(job) in keys && KeyOf(job) in jobs && jobs[KeyOf(job)] == job
    ensures forall key <- keys :: key in jobs && jobs[key] in sorted
    ensures forall i, j :: 0 <= i < j < |sorted| ==> KeyOf(sorted[i]) != KeyOf(sorted[j])
  {
    hide KeyOf;
    assert |sorted| == |multiset(sorted)| == |multiset(records)| == |records|;
    forall job | job in sorted
      ensures job in records
    {
      assert job in multiset(sorted);
    }
    forall key | key in keys
      ensures key in jobs && jobs[key] in sorted
    {
      assert jobs[key] in multiset(records);
    }
    forall i, j | 0 <= i < j < |sorted|
      ensures KeyOf(sorted[i]) != KeyOf(sorted[j])
    {
      if sorted[i] == sorted[j] {
        OccursTwice(sorted, i, j);
      }
    }
  }

  /** Sorting and truncating an enumeration gives a listing. */
  lemma ListingOfSorted(records: seq<Job>, sorted: seq<Job>, jobs: Jobs, keys: set<Key>, ascending: bool, limit: nat)
    requires Enumerates(records, jobs, keys)
    requires Sorted(sorted, ascending) && multiset(sorted) == multiset(records)
    ensures |sorted| == |keys|
    ensures IsListing(if |sorted| > limit then sorted[..limit] else sorted, jobs, keys, ascending, limit)
  {
    hide KeyOf, Enumerates, Sorted, IsListing;
    PermutedEnumeration(records, sorted, jobs, keys);
    TruncatedListing(sorted, jobs, keys, ascending, limit);
  }

  lemma TruncatedListing(sorted: seq<Job>, jobs: Jobs, keys: set<Key>, ascending: bool, limit: nat)
    requires Sorted(sorted, ascending) && |sorted| == |keys|
    requires forall job <- sorted :: KeyOf(job) in keys && KeyOf(job) in jobs && jobs[KeyOf(job)] == job
    requires forall key <- keys :: key in jobs && jobs[key] in sorted
    requires forall i, j :: 0 <= i < j < |sorted| ==> KeyOf(sorted[i]) != KeyOf(sorted[j])
    ensures IsListing(if |sorted| > limit then sorted[..limit] else sorted, jobs, keys, ascending, limit)
  {
    hide KeyOf, InOrder;
    var r := if |sorted| > limit then sorted[..limit] else sorted;
    forall key, job | key in keys && job in r
      ensures jobs[key] in r || InOrder(job, jobs[key], ascending)
    {
      var i :| 0 <= i < |r| && r[i] == job;
      var j :| 0 <= j < |sorted| && sorted[j] == jobs[key];
      if j < |r| {
        assert r[j] == jobs[key];
      } else {
        assert InOrder(sorted[i], sorted[j], ascending);
      }
    }
  }

  // ---------------------------------------------------------------------
  // The store
  // ---------------------------------------------------------------------

  function ListedKeys(jobs: Jobs, userId: UserId, contextKey: Option<string>, statuses: Option<seq<JobStatus>>): set<Key> {
    set key | key in jobs
      && jobs[key].userId == userId
      && (contextKey.Some? ==> jobs[key].details.contextKey == contextKey.value)
      && (statuses.Some? ==> jobs[key].status in statuses.value)
  }

  function DueKeys(jobs: Jobs, users: set<UserId>, now: int): set<Key> {
    set key | key in jobs && jobs[key].userId in users && IsDue(jobs[key], now)
  }

  /**
   The scheduled jobs of these users whose time has come and that no worker
   holds: the earliest first, none missing while there is room.
   */
  ghost predicate ListsDueJobs(records: seq<Job>, jobs: Jobs, users: set<UserId>, now: int, limit: nat) {
    && (forall job <- records ::
          && job.userId in users && job.status == Scheduled && job.nextRunAt <= now
          && (job.leaseUntil.Some? ==> job.leaseUntil.value <= now)
          && KeyOf(job) in jobs && jobs[KeyOf(job)] == job)
    && (forall i, j :: 0 <= i < j < |records| ==>
          records[i].nextRunAt <= records[j].nextRunAt && KeyOf(records[i]) != KeyOf(records[j]))
    && |records| <= limit
    && (forall key <- jobs ::
          && jobs[key].userId in users && jobs[key].status == Scheduled && jobs[key].nextRunAt <= now
          && (jobs[key].leaseUntil.Some? ==> jobs[key].leaseUntil.value <= now)
          ==> jobs[key] in records
              || (|records| == limit && forall job <- records :: job.nextRunAt <= jobs[key].nextRunAt))
  }

  lemma DueListingIsExact(records: seq<Job>, jobs: Jobs, users: set<UserId>, now: int, limit: nat)
    requires IsListing(records, jobs, DueKeys(jobs, users, now), true, limit)
    ensures ListsDueJobs(records, jobs, users, now, limit)
  {
    var keys := DueKeys(jobs, users, now);
    forall i, j | 0 <= i < j < |records|
      ensures records[i].nextRunAt <= records[j].nextRunAt
    {
      assert InOrder(records[i], records[j], true);
    }
    forall key, job | key in keys && jobs[key] !in records && job in records
      ensures |records| == limit && job.nextRunAt <= jobs[key].nextRunAt
    {
      assert InOrder(job, jobs[key], true);
    }
  }

  lemma LatestFirst(records: seq<Job>, jobs: Jobs, keys: set<Key>, limit: nat)
    requires IsListing(records, jobs, keys, false, limit)
    ensures forall job <- records :: KeyOf(job) in keys && KeyOf(job) in jobs && jobs[KeyOf(job)] == job
    ensures |records| < limit ==> forall key <- keys :: key in jobs && jobs[key] in records
    ensures forall i, j :: 0 <= i < j < |records| ==> records[i].nextRunAt >= records[j].nextRunAt
  {
    forall i, j | 0 <= i < j < |records|
      ensures records[i].nextRunAt >= records[j].nextRunAt
    {
      assert InOrder(records[i], records[j], false);
    }
  }

  class InMemoryStorage {
    var reminderJobs: Jobs

    constructor ()
      ensures reminderJobs == map[]
    {
      reminderJobs := map[];
    }

    method CreateReminderJob(userId: UserId, reminderId: string, details: JobDetails, nextRunAt: int, clock: int)
      returns (record: Job)
      modifies this
      ensures reminderJobs == Apply(old(reminderJobs), Create((userId, reminderId), details, nextRunAt, clock))
      ensures record == reminderJobs[(userId, reminderId)]
      ensures record == Job(1, reminderId, userId, details, Scheduled, nextRunAt, None, None, None, 0, clock, clock)
    {
      record := Job(1, reminderId, userId, details, Scheduled, nextRunAt, None, None, None, 0, clock, clock);
      reminderJobs := reminderJobs[(record.userId, record.reminderId) := record];
    }

    method ListReminderJobs(userId: UserId, contextKey: Option<string>, statuses: Option<seq<JobStatus>>, limit: nat)
      returns (records: seq<Job>)
      requires WellKeyed(reminderJobs)
      ensures IsListing(records, reminderJobs, ListedKeys(reminderJobs, userId, contextKey, statuses), false, limit)
      ensures forall job <- records ::
        && job.userId == userId && (contextKey.Some? ==> job.details.contextKey == contextKey.value)
        && (statuses.Some? ==> job.status in statuses.value)
      ensures |records| < limit ==>
        forall key <- reminderJobs ::
          && reminderJobs[key].userId == userId
          && (contextKey.Some? ==> reminderJobs[key].details.contextKey == contextKey.value)
          && (statuses.Some? ==> reminderJobs[key].status in statuses.value)
          ==> reminderJobs[key] in records
      ensures forall i, j :: 0 <= i < j < |records| ==> records[i].nextRunAt >= records[j].nextRunAt
    {
      var wanted := (job: Job) =>
        && job.userId == userId
        && (contextKey.Some? ==> job.details.contextKey == contextKey.value)
        && (statuses.Some? ==> job.status in statuses.value);
      var all := Collect(reminderJobs, wanted);
      ghost var keys := ListedKeys(reminderJobs, userId, contextKey, statuses);
      assert Matching(reminderJobs, wanted) == keys;
      hide Enumerates, Sorted, IsListing;
      records := Sort(all, false);
      ListingOfSorted(all, records, reminderJobs, keys, false, limit);
      if |records| > limit {
        records := records[..limit];
      }
      LatestFirst(records, reminderJobs, keys, limit);
    }

    method ListDueReminderJobs(userId: UserId, now: int, limit: nat) returns (records: seq<Job>)
      requires WellKeyed(reminderJobs)
      ensures IsListing(records, reminderJobs, DueKeys(reminderJobs, {userId}, now), true, limit)
      ensures ListsDueJobs(records, reminderJobs, {userId}, now, limit)
    {
      var wanted := (job: Job) => job.userId == userId && IsDue(job, now);
      var all := Collect(reminderJobs, wanted);
      ghost var keys := DueKeys(reminderJobs, {userId}, now);
      assert Matching(reminderJobs, wanted) == keys;
      hide Enumerates, Sorted, IsListing, ListsDueJobs;
      records := Sort(all, true);
      ListingOfSorted(all, records, reminderJobs, keys, true, limit);
      if |records| > limit {
        records := records[..limit];
      }
      DueListingIsExact(records, reminderJobs, {userId}, now, limit);
    }

    method ClaimReminderJob(userId: UserId, reminderId: string, leaseUntil: int, now: int, clock: int)
      returns (r: Option<Job>)
      modifies this
      ensures Performed(old(reminderJobs), Mutate((userId, reminderId), Claim(leaseUntil, now), clock), reminderJobs, r)
      ensures r.Some? <==>
        var key := (userId, reminderId);
        && key in old(reminderJobs) && old(reminderJobs)[key].status == Scheduled
        && old(reminderJobs)[key].nextRunAt <= now
        && (old(reminderJobs)[key].leaseUntil.Some? ==> old(reminderJobs)[key].leaseUntil.value <= now)
      ensures r.Some? ==> r.value == old(reminderJobs)[(userId, reminderId)].(
        leaseUntil := Some(leaseUntil), version := r.value.version, updatedAt := clock)
    {
      var key := (userId, reminderId);
      if key !in reminderJobs || !IsDue(reminderJobs[key], now) {
        return None;
      }
      var record := reminderJobs[key];
      record := record.(version := SaturatingAdd(record.version, 1));
      record := record.(leaseUntil := Some(leaseUntil));
      record := record.(updatedAt := clock);
      reminderJobs := reminderJobs[key := record];
      return Some(record);
    }

    method RescheduleReminderJob(userId: UserId, reminderId: string, nextRunAt: int, lastRunAt: Option<int>,
        lastError: Option<string>, incrementRunCount: bool, clock: int)
      returns (r: Option<Job>)
      modifies this
      ensures Performed(old(reminderJobs),
        Mutate((userId, reminderId), Reschedule(nextRunAt, lastRunAt, lastError, incrementRunCount), clock),
        reminderJobs, r)
      ensures r.Some? <==>
        var key := (userId, reminderId); key in old(reminderJobs) && old(reminderJobs)[key].status == Scheduled
      ensures r.Some? ==>
        && r.value.status == Scheduled && r.value.nextRunAt == nextRunAt && r.value.leaseUntil == None
        && r.value.lastError == lastError
        && r.value.lastRunAt == (if lastRunAt.Some? then lastRunAt else old(reminderJobs)[(userId, reminderId)].lastRunAt)
        && (!incrementRunCount ==> r.value.runCount == old(reminderJobs)[(userId, reminderId)].runCount)
        && (incrementRunCount && old(reminderJobs)[(userId, reminderId)].runCount < U64_MAX ==>
              r.value.runCount == old(reminderJobs)[(userId, reminderId)].runCount + 1)
    {
      var key := (userId, reminderId);
      if key !in reminderJobs || reminderJobs[key].status != Scheduled {
        return None;
      }
      var record := reminderJobs[key];
      record := record.(version := SaturatingAdd(record.version, 1));
      record := record.(nextRunAt := nextRunAt);
      record := record.(leaseUntil := None);
      record := record.(lastRunAt := OrElse(lastRunAt, record.lastRunAt));
      record := record.(lastError := lastError);
      if incrementRunCount {
        record := record.(runCount := SaturatingAdd(record.runCount, 1));
      }
      record := record.(updatedAt := clock);
      reminderJobs := reminderJobs[key := record];
      return Some(record);
    }

    method CompleteReminderJob(userId: UserId, reminderId: string, completedAt: int, clock: int) returns (r: Option<Job>)
      modifies this
      ensures Performed(old(reminderJobs), Mutate((userId, reminderId), Complete(completedAt), clock), reminderJobs, r)
      ensures r.Some? <==>
        var key := (userId, reminderId); key in old(reminderJobs) && old(reminderJobs)[key].status == Scheduled
      ensures r.Some? ==>
        && r.value.status == JobStatus.Completed && r.value.leaseUntil == None
        && r.value.lastRunAt == Some(completedAt) && r.value.lastError == None
        && (old(reminderJobs)[(userId, reminderId)].runCount < U64_MAX ==>
              r.value.runCount == old(reminderJobs)[(userId, reminderId)].runCount + 1)
    {
      var key := (userId, reminderId);
      if key !in reminderJobs || reminderJobs[key].status != Scheduled {
        return None;
      }
      var record := reminderJobs[key];
      record := record.(version := SaturatingAdd(record.version, 1));
      record := record.(status := Completed);
      record := record.(leaseUntil := None);
      record := record.(lastRunAt := Some(completedAt));
      record := record.(lastError := None);
      record := record.(runCount := SaturatingAdd(record.runCount, 1));
      record := record.(updatedAt := clock);
      reminderJobs := reminderJobs[key := record];
      return Some(record);
    }

    method FailReminderJob(userId: UserId, reminderId: string, failedAt: int, error: string, clock: int)
      returns (r: Option<Job>)
      modifies this
      ensures Performed(old(reminderJobs), Mutate((userId, reminderId), Fail(failedAt, error), clock), reminderJobs, r)
      ensures r.Some? <==>
        var key := (userId, reminderId); key in old(reminderJobs) && old(reminderJobs)[key].status == Scheduled
      ensures r.Some? ==>
        && r.value.status == JobStatus.Failed && r.value.leaseUntil == None
        && r.value.lastRunAt == Some(failedAt) && r.value.lastError == Some(error)
    {
      var key := (userId, reminderId);
      if key !in reminderJobs || reminderJobs[key].status != Scheduled {
        return None;
      }
      var record := reminderJobs[key];
      record := record.(version := SaturatingAdd(record.version, 1));
      record := record.(status := Failed);
      record := record.(leaseUntil := None);
      record := record.(lastRunAt := Some(failedAt));
      record := record.(lastError := Some(error));
      record := record.(updatedAt := clock);
      reminderJobs := reminderJobs[key := record];
      return Some(record);
    }

    method CancelReminderJob(userId: UserId, reminderId: string, cancelledAt: int, clock: int) returns (r: Option<Job>)
      modifies this
      ensures Performed(old(reminderJobs), Mutate((userId, reminderId), Cancel(cancelledAt), clock), reminderJobs, r)
      ensures r.Some? <==>
        var key := (userId, reminderId); key in old(reminderJobs) && old(reminderJobs)[key].status == Scheduled
      ensures r.Some? ==>
        var before := old(reminderJobs)[(userId, reminderId)];
        && r.value.status == JobStatus.Cancelled && r.value.leaseUntil == None
        && r.value.lastRunAt == if before.lastRunAt.Some? then before.lastRunAt else Some(cancelledAt)
    {
      var key := (userId, reminderId);
      if key !in reminderJobs || reminderJobs[key].status != Scheduled {
        return None;
      }
      var record := reminderJobs[key];
      record := record.(version := SaturatingAdd(record.version, 1));
      record := record.(status := Cancelled);
      record := record.(leaseUntil := None);
      record := record.(lastRunAt := OrElse(record.lastRunAt, Some(cancelledAt)));
      record := record.(updatedAt := clock);
      reminderJobs := reminderJobs[key := record];
      return Some(record);
    }

    method PauseReminderJob(userId: UserId, reminderId: string, pausedAt: int, clock: int) returns (r: Option<Job>)
      modifies this
      ensures Performed(old(reminderJobs), Mutate((userId, reminderId), Pause(pausedAt), clock), reminderJobs, r)
      ensures r.Some? <==>
        var key := (userId, reminderId); key in old(reminderJobs) && old(reminderJobs)[key].status == Scheduled
      ensures r.Some? ==>
        var before := old(reminderJobs)[(userId, reminderId)];
        && r.value.status == JobStatus.Paused && r.value.leaseUntil == None
        && r.value.lastRunAt == if before.lastRunAt.Some? then before.lastRunAt else Some(pausedAt)
    {
      var key := (userId, reminderId);
      if key !in reminderJobs || reminderJobs[key].status != Scheduled {
        return None;
      }
      var record := reminderJobs[key];
      record := record.(version := SaturatingAdd(record.version, 1));
      record := record.(status := Paused);
      record := record.(leaseUntil := None);
      record := record.(lastRunAt := OrElse(record.lastRunAt, Some(pausedAt)));
      record := record.(updatedAt := clock);
      reminderJobs := reminderJobs[key := record];
      return Some(record);
    }

    method ResumeReminderJob(userId: UserId, reminderId: string, nextRunAt: int, resumedAt: int, clock: int)
      returns (r: Option<Job>)
      modifies this
      ensures Performed(old(reminderJobs), Mutate((userId, reminderId), Resume(nextRunAt, resumedAt), clock),
        reminderJobs, r)
      ensures r.Some? <==>
        var key := (userId, reminderId); key in old(reminderJobs) && old(reminderJobs)[key].status == JobStatus.Paused
      ensures r.Some? ==>
        r.value.status == Scheduled && r.value.nextRunAt == nextRunAt && r.value.leaseUntil == None
    {
      var key := (userId, reminderId);
      if key !in reminderJobs || reminderJobs[key].status != Paused {
        return None;
      }
      var record := reminderJobs[key];
      record := record.(version := SaturatingAdd(record.version, 1));
      record := record.(status := Scheduled);
      record := record.(nextRunAt := nextRunAt);
      record := record.(leaseUntil := None);
      record := record.(lastRunAt := OrElse(record.lastRunAt, Some(resumedAt)));
      record := record.(updatedAt := clock);
      reminderJobs := reminderJobs[key := record];
      return Some(record);
    }

    method RetryReminderJob(userId: UserId, reminderId: string, nextRunAt: int, retriedAt: int, clock: int)
      returns (r: Option<Job>)
      modifies this
      ensures Performed(old(reminderJobs), Mutate((userId, reminderId), Retry(nextRunAt, retriedAt), clock),
        reminderJobs, r)
      ensures r.Some? <==>
        var key := (userId, reminderId); key in old(reminderJobs) && old(reminderJobs)[key].status == JobStatus.Failed
      ensures r.Some? ==>
        && r.value.status == Scheduled && r.value.nextRunAt == nextRunAt && r.value.leaseUntil == None
        && r.value.lastError == None
    {
      var key := (userId, reminderId);
      if key !in reminderJobs || reminderJobs[key].status != Failed {
        return None;
      }
      var record := reminderJobs[key];
      record := record.(version := SaturatingAdd(record.version, 1));
      record := record.(status := Scheduled);
      record := record.(nextRunAt := nextRunAt);
      record := record.(leaseUntil := None);
      record := record.(lastRunAt := OrElse(record.lastRunAt, Some(retriedAt)));
      record := record.(lastError := None);
      record := record.(updatedAt := clock);
      reminderJobs := reminderJobs[key := record];
      return Some(record);
    }

    method DeleteReminderJob(userId: UserId, reminderId: string)
      modifies this
      ensures reminderJobs == Apply(old(reminderJobs), Delete((userId, reminderId)))
      ensures reminderJobs == old(reminderJobs) - {(userId, reminderId)}
    {
      reminderJobs := reminderJobs - {(userId, reminderId)};
    }
  }

  /**
   The step was taken, and the answer is the new record exactly when it
   succeeded: one version later, with what was fixed at creation as it was.
   */
  predicate Performed(before: Jobs, step: Step, after: Jobs, answer: Option<Job>) {
    && after == Apply(before, step)
    && (answer.Some? <==> Succeeds(before, step))
    && (answer.Some? ==> step.key in after && answer.value == after[step.key])
    && (answer.Some? && step.Mutate? ==>
          && step.key in before && answer.value.updatedAt == step.clock
          && (before[step.key].version < U64_MAX ==> answer.value.version == before[step.key].version + 1)
          && answer.value.details == before[step.key].details && answer.value.createdAt == before[step.key].createdAt)
  }
}
