/** The job table and the statements on it, one method each. */
module JobStore {
  import opened JobQueue
  import opened Wrappers

  ghost predicate IsLatestIfAny(db: Db, path: string, latest: Option<int>) {
    match latest
    case Some(id) => IsLatest(db, path, id)
    case None => forall k :: k in db.jobs ==> db.jobs[k].notePath != path
  }

  lemma {:induction false} OneRowIsSkipped(db: Db, path: string, reason: string, latest: Option<int>)
    requires IsLatestIfAny(db, path, latest)
    ensures SkippedAll(db, path, reason)
            == if latest == None then db
               else db.(jobs := db.jobs[latest.value := db.jobs[latest.value].(status := Skipped, skipReason := reason)])
  {
    assert SkippedAll(db, path, reason).jobs
           == if latest == None then db.jobs
              else db.jobs[latest.value := db.jobs[latest.value].(status := Skipped, skipReason := reason)];
  }

  lemma {:induction false} OneRowIsUnskipped(db: Db, path: string, now: int, latest: Option<int>)
    requires IsLatestIfAny(db, path, latest)
    ensures Unskipped(db, path, now)
            == if latest == None || db.jobs[latest.value].status != Skipped then db
               else db.(jobs := db.jobs[latest.value := db.jobs[latest.value].(status := Pending, skipReason := "", queuedAt := now)])
  {
    assert Unskipped(db, path, now).jobs
           == if latest == None || db.jobs[latest.value].status != Skipped then db.jobs
              else db.jobs[latest.value := db.jobs[latest.value].(status := Pending, skipReason := "", queuedAt := now)];
  }

  class Store {
    var jobs: map<int, Job>
    var notes: set<string>
    var lastId: int

    ghost function State(): Db
      reads this
    {
      Db(jobs, notes, lastId)
    }

    constructor (db: Db)
      ensures State() == db
    {
      jobs, notes, lastId := db.jobs, db.notes, db.lastId;
    }

    /** Two statements; run back to back, the insert always finds the note row. */
    method EnqueueJob(notePath: string, now: int)
      modifies this
      ensures InsertJob(EnsureNote(old(State()), notePath), notePath, now) == Some(State())
      ensures lastId == old(lastId) + 1 && notes == old(notes) + {notePath}
      ensures jobs == old(jobs)[lastId := Job(notePath, Pending, "", "", "", 0, "", now, 0, 0, None)]
    {
      notes := notes + {notePath};
      lastId := lastId + 1;
      jobs := jobs[lastId := NewJob(notePath, now)];
    }

    method OldestEligible(now: int) returns (found: Option<int>)
      ensures found.Some? ==> IsOldestEligible(State(), now, found.value)
      ensures found == None ==> NoneEligible(State(), now)
    {
      found := None;
      var rest := jobs.Keys;
      while rest != {}
        invariant rest <= jobs.Keys
        invariant found.Some? ==> found.value in jobs && IsEligible(jobs[found.value], now)
        invariant forall k :: k in jobs && k !in rest && IsEligible(jobs[k], now) ==>
                    found.Some? && jobs[found.value].queuedAt <= jobs[k].queuedAt
      {
        assert (forall x :: x !in rest) ==> rest == {};
        var k :| k in rest;
        if IsEligible(jobs[k], now) && (found == None || jobs[k].queuedAt < jobs[found.value].queuedAt) {
          found := Some(k);
        }
        rest := rest - {k};
      }
    }

    /** The jobs that may be claimed: pending ones that are not put off until later. */
    ghost function Claimable(now: int): set<int>
      reads this
    {
      set k | k in jobs && jobs[k].status == Pending && (jobs[k].requeueAfter == None || jobs[k].requeueAfter.value <= now)
    }

    /** Nothing but the named row has changed. */
    twostate predicate OnlyRow(id: int)
      reads this
    {
      && jobs.Keys == old(jobs).Keys && notes == old(notes) && lastId == old(lastId)
      && forall k :: k in jobs && k != id ==> jobs[k] == old(jobs)[k]
    }

    /** Claims an eligible job queued no later than any other, or nothing if there is none. */
    method ClaimNextJob(now: int) returns (claimed: Option<int>)
      modifies this
      ensures claimed.Some? ==>
                IsOldestEligible(old(State()), now, claimed.value) && State() == Claimed(old(State()), claimed.value, now)
      ensures claimed == None ==> NoneEligible(old(State()), now) && State() == old(State())
      ensures claimed == None <==> forall k :: k !in old(Claimable(now))
      ensures claimed.Some? ==>
                && claimed.value in old(Claimable(now))
                && (forall k :: k in old(Claimable(now)) ==> old(jobs)[claimed.value].queuedAt <= old(jobs)[k].queuedAt)
                && OnlyRow(claimed.value)
                && jobs[claimed.value] == old(jobs)[claimed.value].(status := InProgress, startedAt := now,
                                                                    attempts := old(jobs)[claimed.value].attempts + 1)
    {
      claimed := OldestEligible(now);
      assert claimed.Some? ==> claimed.value in Claimable(now);
      forall k | k in Claimable(now)
        ensures claimed.Some? && jobs[claimed.value].queuedAt <= jobs[k].queuedAt
      {
        assert IsEligible(jobs[k], now);
      }
      if claimed.Some? {
        jobs := jobs[claimed.value := ClaimedJob(jobs[claimed.value], now)];
      }
    }

    method CompleteJob(id: int, ocrSource: string, apiModel: string, now: int)
      modifies this
      ensures State() == Finished(old(State()), id, Completed(ocrSource, apiModel), now)
      ensures OnlyRow(id)
      ensures id in jobs ==>
                jobs[id] == old(jobs)[id].(status := Done, ocrSource := ocrSource, apiModel := apiModel, finishedAt := now)
    {
      if id in jobs {
        jobs := jobs[id := jobs[id].(status := Done, ocrSource := ocrSource, apiModel := apiModel, finishedAt := now)];
      }
    }

    method FailJob(id: int, message: string, now: int)
      modifies this
      ensures State() == Finished(old(State()), id, Errored(message), now)
      ensures OnlyRow(id)
      ensures id in jobs ==> jobs[id] == old(jobs)[id].(status := Failed, lastError := message, finishedAt := now)
    {
      if id in jobs {
        jobs := jobs[id := jobs[id].(status := Failed, lastError := message, finishedAt := now)];
      }
    }

    /** The row with the greatest id among those of a note. */
    method LatestJob(path: string) returns (latest: Option<int>)
      ensures latest.Some? ==> IsLatest(State(), path, latest.value)
      ensures latest == None ==> forall k :: k in jobs ==> jobs[k].notePath != path
    {
      latest := None;
      var rest := jobs.Keys;
      while rest != {}
        invariant rest <= jobs.Keys
        invariant latest.Some? ==> latest.value in jobs && jobs[latest.value].notePath == path
        invariant forall k :: k in jobs && k !in rest && jobs[k].notePath == path ==> latest.Some? && k <= latest.value
      {
        assert (forall x :: x !in rest) ==> rest == {};
        var k :| k in rest;
        if jobs[k].notePath == path && (latest == None || latest.value < k) {
          latest := Some(k);
        }
        rest := rest - {k};
      }
    }

    /** The ids of a note's jobs. */
    ghost function JobsOf(path: string): set<int>
      reads this
    {
      set k | k in jobs && jobs[k].notePath == path
    }

    /** Job `id` is the note's most recent one. */
    ghost predicate IsNewestOf(path: string, id: int)
      reads this
    {
      id in JobsOf(path) && forall k :: k in JobsOf(path) ==> k <= id
    }

    method SkipNote(path: string, reason: string)
      modifies this
      ensures State() == SkippedAll(old(State()), path, reason)
      ensures old(JobsOf(path)) == {} ==> State() == old(State())
      ensures forall id :: old(IsNewestOf(path, id)) ==>
                OnlyRow(id) && jobs[id] == old(jobs)[id].(status := Skipped, skipReason := reason)
    {
      var latest := LatestJob(path);
      assert latest.Some? ==> latest.value in JobsOf(path);
      forall id | IsNewestOf(path, id)
        ensures latest == Some(id)
      {
        assert id in JobsOf(path);
      }
      OneRowIsSkipped(State(), path, reason, latest);
      if latest.Some? {
        jobs := jobs[latest.value := jobs[latest.value].(status := Skipped, skipReason := reason)];
      }
    }

    method UnskipNote(path: string, now: int)
      modifies this
      ensures State() == Unskipped(old(State()), path, now)
      ensures old(JobsOf(path)) == {} ==> State() == old(State())
      ensures forall id :: old(IsNewestOf(path, id)) ==>
                && OnlyRow(id)
                && jobs[id] == (if old(jobs)[id].status == Skipped
                                then old(jobs)[id].(status := Pending, skipReason := "", queuedAt := now) else old(jobs)[id])
    {
      var latest := LatestJob(path);
      assert latest.Some? ==> latest.value in JobsOf(path);
      forall id | IsNewestOf(path, id)
        ensures latest == Some(id)
      {
        assert id in JobsOf(path);
      }
      OneRowIsUnskipped(State(), path, now, latest);
      if latest.Some? && jobs[latest.value].status == Skipped {
        jobs := jobs[latest.value := jobs[latest.value].(status := Pending, skipReason := "", queuedAt := now)];
      }
    }

    /** Returns how many jobs were put back. */
    method RetryAllFailed(now: int) returns (n: nat)
      modifies this
      ensures State() == Retried(old(State()), now)
      ensures n == |set id | id in old(jobs) && old(jobs)[id].status == Failed|
      ensures jobs.Keys == old(jobs).Keys && notes == old(notes) && lastId == old(lastId)
      ensures forall id :: id in jobs ==>
                jobs[id] == (if old(jobs)[id].status == Failed
                             then old(jobs)[id].(status := Pending, lastError := "", queuedAt := now) else old(jobs)[id])
    {
      var failed := set id | id in jobs && jobs[id].status == Failed;
      n := |failed|;
      jobs := map id | id in jobs :: if id in failed then jobs[id].(status := Pending, lastError := "", queuedAt := now) else jobs[id];
    }

    /** On startup: nothing is in progress afterwards. */
    method ReclaimAllInProgress()
      modifies this
      ensures Sys(State(), Idle) == Started(old(State()))
      ensures jobs.Keys == old(jobs).Keys && notes == old(notes) && lastId == old(lastId)
      ensures forall id :: id in jobs ==>
                jobs[id] == (if old(jobs)[id].status == InProgress
                             then old(jobs)[id].(status := Pending, attempts := old(jobs)[id].attempts + 1) else old(jobs)[id])
    {
      jobs := map id | id in jobs :: if jobs[id].status == InProgress then Reclaim(jobs[id]) else jobs[id];
    }

    method ReclaimStuckJobs(now: int)
      modifies this
      ensures State() == ReclaimedStuck(old(State()), now)
      ensures jobs.Keys == old(jobs).Keys && notes == old(notes) && lastId == old(lastId)
      ensures forall id :: id in jobs ==>
                jobs[id] == (if old(jobs)[id].status == InProgress && old(jobs)[id].startedAt < now - 600
                             then old(jobs)[id].(status := Pending, attempts := old(jobs)[id].attempts + 1) else old(jobs)[id])
    {
      jobs := map id | id in jobs :: if IsStuck(jobs[id], now) then Reclaim(jobs[id]) else jobs[id];
    }

    method DeleteNote(path: string)
      modifies this
      ensures State() == Deleted(old(State()), path)
      ensures notes == old(notes) - {path} && lastId == old(lastId)
      ensures forall id :: id in jobs <==> id in old(jobs) && old(jobs)[id].notePath != path
      ensures forall id :: id in jobs ==> jobs[id] == old(jobs)[id]
    {
      jobs := map id | id in jobs && jobs[id].notePath != path :: jobs[id];
      notes := notes - {path};
    }
  }

  /** The worker: it holds the job it has claimed until `processJob` is through. */
  class Processor {
    const store: Store
    var worker: Worker

    ghost function State(): Sys
      reads this, store
    {
      Sys(store.State(), worker)
    }

    /** `Start`: reclaim what a crash left behind, then begin idle. */
    constructor (store: Store)
      modifies store
      ensures this.store == store && State() == Started(old(store.State()))
    {
      this.store := store;
      worker := Idle;
      new;
      store.ReclaimAllInProgress();
    }

    /** One pass of the worker's loop up to the job: a claim, or a wait if nothing is eligible. */
    method Poll(now: int) returns (got: bool)
      requires worker == Idle
      modifies this, store
      ensures got ==> worker.Busy?
      ensures var e := if got then Claim(now, worker.id) else Wait(now);
              Enabled(old(State()), e) && State() == Next(old(State()), e)
    {
      var claimed := store.ClaimNextJob(now);
      match claimed {
        case None => got := false;
        case Some(id) => got, worker := true, Busy(id);
      }
    }

    /** The end of `processJob`. */
    method FinishJob(outcome: Outcome, now: int)
      requires worker.Busy?
      modifies this, store
      ensures State() == Next(old(State()), Finish(outcome, now))
    {
      match outcome {
        case Completed(ocrSource, apiModel) => store.CompleteJob(worker.id, ocrSource, apiModel, now);
        case Errored(message) => store.FailJob(worker.id, message, now);
      }
      worker := Idle;
    }

    method WatchdogTick(now: int)
      modifies store
      ensures State() == Next(old(State()), Watchdog(now))
    {
      store.ReclaimStuckJobs(now);
    }
  }
}
