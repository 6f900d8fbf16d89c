/**
 The job queue: one worker claims and finishes jobs while a watchdog, uploads and the user
 interface change the same table. Times are in whole seconds.
 */
module JobQueue {
  import opened Wrappers

  datatype Status = Pending | InProgress | Done | Failed | Skipped

  datatype Job = Job(notePath: string, status: Status, skipReason: string, ocrSource: string, apiModel: string, attempts: int,
                     lastError: string, queuedAt: int, startedAt: int, finishedAt: int, requeueAfter: Option<int>)

  /** The rows by id, the paths of the note rows they refer to, and the largest id ever given out. */
  datatype Db = Db(jobs: map<int, Job>, notes: set<string>, lastId: int)

  const STUCK_AFTER := 600

  // ----- the statements -----

  function EnsureNote(db: Db, path: string): Db {
    db.(notes := db.notes + {path})
  }

  function NewJob(path: string, now: int): Job {
    Job(path, Pending, "", "", "", 0, "", now, 0, 0, None)
  }

  /** The insert fails if the note row is gone again. */
  function InsertJob(db: Db, path: string, now: int): Option<Db> {
    if path !in db.notes then None
    else Some(db.(jobs := db.jobs[db.lastId + 1 := NewJob(path, now)], lastId := db.lastId + 1))
  }

  predicate IsEligible(j: Job, now: int) {
    j.status == Pending && (j.requeueAfter.Some? ==> j.requeueAfter.value <= now)
  }

  /** An eligible job queued no later than any other eligible one. */
  predicate IsOldestEligible(db: Db, now: int, id: int) {
    && id in db.jobs && IsEligible(db.jobs[id], now)
    && forall k :: k in db.jobs && IsEligible(db.jobs[k], now) ==> db.jobs[id].queuedAt <= db.jobs[k].queuedAt
  }

  predicate NoneEligible(db: Db, now: int) {
    forall k :: k in db.jobs ==> !IsEligible(db.jobs[k], now)
  }

  function ClaimedJob(j: Job, now: int): Job {
    j.(status := InProgress, startedAt := now, attempts := j.attempts + 1)
  }

  function Claimed(db: Db, id: int, now: int): Db
    requires id in db.jobs
  {
    db.(jobs := db.jobs[id := ClaimedJob(db.jobs[id], now)])
  }

  datatype Outcome = Completed(ocrSource: string, apiModel: string) | Errored(message: string)

  /** `CompleteJob` and `FailJob`; neither minds if the row has been deleted. */
  function Finished(db: Db, id: int, outcome: Outcome, now: int): Db {
    if id !in db.jobs then db
    else
      var j := db.jobs[id];
      var j' :=
        match outcome
        case Completed(ocrSource, apiModel) => j.(status := Done, ocrSource := ocrSource, apiModel := apiModel, finishedAt := now)
        case Errored(message) => j.(status := Failed, lastError := message, finishedAt := now);
      db.(jobs := db.jobs[id := j'])
  }

  /** The note's most recent job. */
  predicate IsLatest(db: Db, path: string, id: int) {
    && id in db.jobs && db.jobs[id].notePath == path
    && forall k :: k in db.jobs && db.jobs[k].notePath == path ==> k <= id
  }

  function SkippedAll(db: Db, path: string, reason: string): Db {
    db.(jobs := map id | id in db.jobs ::
          if IsLatest(db, path, id) then db.jobs[id].(status := Skipped, skipReason := reason) else db.jobs[id])
  }

  function Unskipped(db: Db, path: string, now: int): Db {
    db.(jobs := map id | id in db.jobs ::
          if IsLatest(db, path, id) && db.jobs[id].status == Skipped
          then db.jobs[id].(status := Pending, skipReason := "", queuedAt := now) else db.jobs[id])
  }

  function Retried(db: Db, now: int): Db {
    db.(jobs := map id | id in db.jobs ::
          if db.jobs[id].status == Failed then db.jobs[id].(status := Pending, lastError := "", queuedAt := now) else db.jobs[id])
  }

  function Reclaim(j: Job): Job {
    j.(status := Pending, attempts := j.attempts + 1)
  }

  function ReclaimedAll(db: Db): Db {
    db.(jobs := map id | id in db.jobs :: if db.jobs[id].status == InProgress then Reclaim(db.jobs[id]) else db.jobs[id])
  }

  predicate IsStuck(j: Job, now: int) {
    j.status == InProgress && j.startedAt < now - STUCK_AFTER
  }

  function ReclaimedStuck(db: Db, now: int): Db {
    db.(jobs := map id | id in db.jobs :: if IsStuck(db.jobs[id], now) then Reclaim(db.jobs[id]) else db.jobs[id])
  }

  function Deleted(db: Db, path: string): Db {
    db.(jobs := map id | id in db.jobs && db.jobs[id].notePath != path :: db.jobs[id], notes := db.notes - {path})
  }

  // ----- the protocol -----

  /** What the worker holds between claiming a job and finishing it. */
  datatype Worker = Idle | Busy(id: int)

  datatype Sys = Sys(db: Db, worker: Worker)

  datatype Event =
    | Claim(now: int, id: int)
    | Wait(now: int)
    | Finish(outcome: Outcome, now: int)
    | Watchdog(now: int)
    | Ensure(path: string)
    | Insert(path: string, now: int)
    | Skip(path: string, reason: string)
    | Unskip(path: string, now: int)
    | RetryFailed(now: int)
    | DeleteNote(path: string)

  /** The worker claims only when it holds nothing, and finishes only what it holds; everyone else may act at any time. */
  predicate Enabled(s: Sys, e: Event) {
    match e
    case Claim(now, id) => s.worker == Idle && IsOldestEligible(s.db, now, id)
    case Wait(now) => s.worker == Idle && NoneEligible(s.db, now)
    case Finish(_, _) => s.worker.Busy?
    case _ => true
  }

  function Next(s: Sys, e: Event): Sys
    requires Enabled(s, e)
  {
    match e
    case Claim(now, id) => Sys(Claimed(s.db, id, now), Busy(id))
    case Wait(_) => s
    case Finish(outcome, now) => Sys(Finished(s.db, s.worker.id, outcome, now), Idle)
    case Watchdog(now) => s.(db := ReclaimedStuck(s.db, now))
    case Ensure(path) => s.(db := EnsureNote(s.db, path))
    case Insert(path, now) =>
      (match InsertJob(s.db, path, now)
       case None => s
       case Some(db) => s.(db := db))
    case Skip(path, reason) => s.(db := SkippedAll(s.db, path, reason))
    case Unskip(path, now) => s.(db := Unskipped(s.db, path, now))
    case RetryFailed(now) => s.(db := Retried(s.db, now))
    case DeleteNote(path) => s.(db := Deleted(s.db, path))
  }

  /** The state after a run of events, each enabled when it happens. */
  function Run(s: Sys, es: seq<Event>): Option<Sys> {
    if es == [] then Some(s)
    else
      match Run(s, es[..|es| - 1])
      case None => None
      case Some(m) => if Enabled(m, es[|es| - 1]) then Some(Next(m, es[|es| - 1])) else None
  }

  /** What a crash can leave behind: any statuses, ids within the sequence, no job without its note. */
  ghost predicate IsDb(db: Db) {
    forall id :: id in db.jobs ==> id <= db.lastId && db.jobs[id].notePath in db.notes
  }

  function Started(db: Db): Sys {
    Sys(ReclaimedAll(db), Idle)
  }

  /**
   At any moment the only job in progress is the one the worker holds, and a job it holds has
   not been finished by anyone else.
   */
  ghost predicate Inv(s: Sys) {
    && IsDb(s.db)
    && (forall id :: id in s.db.jobs && s.db.jobs[id].status == InProgress ==> s.worker == Busy(id))
    && (s.worker.Busy? && s.worker.id in s.db.jobs ==> s.db.jobs[s.worker.id].status !in {Done, Failed})
    && (s.worker.Busy? ==> s.worker.id <= s.db.lastId)
  }

  lemma {:induction false} StepKeepsInv(s: Sys, e: Event)
    requires Inv(s) && Enabled(s, e)
    ensures Inv(Next(s, e))
  {
  }

  lemma {:induction false} RunKeepsInv(s: Sys, es: seq<Event>)
    requires Inv(s) && Run(s, es).Some?
    ensures Inv(Run(s, es).value)
  {
    if es != [] {
      RunKeepsInv(s, es[..|es| - 1]);
      StepKeepsInv(Run(s, es[..|es| - 1]).value, es[|es| - 1]);
    }
  }

  /**
   After startup, in any interleaving: at most one job is in progress, it is the worker's, and
   none is while the worker is idle.
   */
  lemma {:induction false} AtMostTheWorkersJobIsInProgress(db: Db, es: seq<Event>)
    requires IsDb(db) && Run(Started(db), es).Some?
    ensures var t := Run(Started(db), es).value;
            && (forall id :: id in t.db.jobs && t.db.jobs[id].status == InProgress ==> t.worker == Busy(id))
            && (t.worker == Idle ==> forall id :: id in t.db.jobs ==> t.db.jobs[id].status != InProgress)
  {
    assert Inv(Started(db));
    RunKeepsInv(Started(db), es);
  }

  // ----- what a row goes through -----

  /** How much one step adds to a row's attempts: claims and reclaims count, nothing else. */
  function Bump(s: Sys, e: Event, id: int): int {
    if e.Claim? && e.id == id then 1
    else if e.Watchdog? && id in s.db.jobs && IsStuck(s.db.jobs[id], e.now) then 1
    else 0
  }

  lemma {:induction false} StepKeepsRow(s: Sys, e: Event, id: int)
    requires Inv(s) && Enabled(s, e) && id in s.db.jobs
    ensures id !in Next(s, e).db.jobs <==> e.DeleteNote? && e.path == s.db.jobs[id].notePath
    ensures id in Next(s, e).db.jobs ==>
              var j, j' := s.db.jobs[id], Next(s, e).db.jobs[id];
              && j'.notePath == j.notePath
              && j'.attempts == j.attempts + Bump(s, e, id)
              && (j.status == Done && !(e.Skip? && IsLatest(s.db, e.path, id)) ==> j' == j)
  {
  }

  /** Ids only grow, so a row that is gone never comes back under its id. */
  lemma {:induction false} IdsAreNotReused(s: Sys, e: Event, id: int)
    requires Inv(s) && Enabled(s, e) && id <= s.db.lastId && id !in s.db.jobs
    ensures id !in Next(s, e).db.jobs && id <= Next(s, e).db.lastId
  {
  }

  /** All bumps of a row in a run. */
  function Tally(s: Sys, es: seq<Event>, id: int): int
    requires Run(s, es).Some?
  {
    if es == [] then 0
    else Tally(s, es[..|es| - 1], id) + Bump(Run(s, es[..|es| - 1]).value, es[|es| - 1], id)
  }

  /**
   Over a whole run: a row present at both ends still belongs to the same note and has been
   attempted once more for every claim and every reclaim; and it can only have been removed by
   the deletion of its note.
   */
  lemma {:induction false} AttemptsCountClaimsAndReclaims(s: Sys, es: seq<Event>, id: int)
    requires Inv(s) && Run(s, es).Some? && id in s.db.jobs
    ensures var j, t := s.db.jobs[id], Run(s, es).value;
            && (id in t.db.jobs ==> t.db.jobs[id].notePath == j.notePath && t.db.jobs[id].attempts == j.attempts + Tally(s, es, id))
            && (id !in t.db.jobs ==> DeleteNote(j.notePath) in es && id <= t.db.lastId)
  {
    if es != [] {
      var earlier, e := es[..|es| - 1], es[|es| - 1];
      assert es == earlier + [e];
      AttemptsCountClaimsAndReclaims(s, earlier, id);
      RunKeepsInv(s, earlier);
      var m := Run(s, earlier).value;
      if id in m.db.jobs {
        StepKeepsRow(m, e, id);
      } else {
        IdsAreNotReused(m, e, id);
      }
    }
  }

  /** No event of the run deletes the row's note or skips the note while the row is its latest. */
  ghost predicate Undisturbed(s: Sys, es: seq<Event>, path: string, id: int) {
    && DeleteNote(path) !in es
    && forall i :: 0 <= i < |es| && es[i].Skip? && Run(s, es[..i]).Some? ==> !IsLatest(Run(s, es[..i]).value.db, es[i].path, id)
  }

  lemma {:induction false} UndisturbedBefore(s: Sys, es: seq<Event>, path: string, id: int)
    requires es != [] && Undisturbed(s, es, path, id)
    ensures Undisturbed(s, es[..|es| - 1], path, id)
  {
    var earlier := es[..|es| - 1];
    assert es == earlier + [es[|es| - 1]];
    forall i | 0 <= i < |earlier| && earlier[i].Skip? && Run(s, earlier[..i]).Some?
      ensures !IsLatest(Run(s, earlier[..i]).value.db, earlier[i].path, id)
    {
      assert earlier[..i] == es[..i] && earlier[i] == es[i];
    }
  }

  /** A finished job stays as it is until its note is deleted, or skipped while the job is its latest. */
  lemma {:induction false} DoneIsFinal(s: Sys, es: seq<Event>, id: int)
    requires Inv(s) && Run(s, es).Some?
    requires id in s.db.jobs && s.db.jobs[id].status == Done
    requires Undisturbed(s, es, s.db.jobs[id].notePath, id)
    ensures var t := Run(s, es).value; id in t.db.jobs && t.db.jobs[id] == s.db.jobs[id]
  {
    if es != [] {
      var earlier, e := es[..|es| - 1], es[|es| - 1];
      assert es == earlier + [e];
      UndisturbedBefore(s, es, s.db.jobs[id].notePath, id);
      DoneIsFinal(s, earlier, id);
      RunKeepsInv(s, earlier);
      StepKeepsRow(Run(s, earlier).value, e, id);
    }
  }

  // ----- how a job gets its status -----

  /** The worker's job ends `Done` if it was processed and `Failed` if it was not; nothing else about any row changes. */
  lemma {:induction false} FinishDecidesTheStatus(s: Sys, outcome: Outcome, now: int, id: int)
    requires Inv(s) && s.worker.Busy? && id in s.db.jobs
    ensures var j, t := s.db.jobs[id], Next(s, Finish(outcome, now));
            && t.worker == Idle && id in t.db.jobs
            && t.db.jobs[id] == if s.worker.id != id then j
                                else match outcome
                                  case Completed(ocrSource, apiModel) =>
                                    j.(status := Done, ocrSource := ocrSource, apiModel := apiModel, finishedAt := now)
                                  case Errored(message) => j.(status := Failed, lastError := message, finishedAt := now)
  {
  }

  /** Event `i` of a run ends the processing of job `id` in the way that gives it this status. */
  ghost predicate EndsJob(s: Sys, es: seq<Event>, i: nat, id: int, j: Job) {
    && i < |es| && Run(s, es[..i]).Some? && Run(s, es[..i]).value.worker == Busy(id) && es[i].Finish?
    && match es[i].outcome
       case Completed(ocrSource, apiModel) =>
         j.status == Done && j.ocrSource == ocrSource && j.apiModel == apiModel && j.finishedAt == es[i].now
       case Errored(message) => j.status == Failed && j.lastError == message && j.finishedAt == es[i].now
  }

  lemma {:induction false} SettledByFinish(s: Sys, e: Event, id: int)
    requires Inv(s) && Enabled(s, e) && id in Next(s, e).db.jobs && Next(s, e).db.jobs[id].status in {Done, Failed}
    ensures || (id in s.db.jobs && Next(s, e).db.jobs[id] == s.db.jobs[id])
            || (e.Finish? && s.worker == Busy(id) && EndsJob(s, [e], 0, id, Next(s, e).db.jobs[id]))
  {
    assert [e][..0] == [];
    if e.Finish? && id in s.db.jobs {
      FinishDecidesTheStatus(s, e.outcome, e.now, id);
    }
  }

  lemma {:induction false} EndsJobEarlier(s: Sys, earlier: seq<Event>, e: Event, i: nat, id: int, j: Job)
    requires EndsJob(s, earlier, i, id, j)
    ensures EndsJob(s, earlier + [e], i, id, j)
  {
    assert (earlier + [e])[..i] == earlier[..i];
  }

  lemma {:induction false} EndsJobNow(s: Sys, earlier: seq<Event>, e: Event, id: int, j: Job)
    requires Run(s, earlier).Some? && EndsJob(Run(s, earlier).value, [e], 0, id, j)
    ensures EndsJob(s, earlier + [e], |earlier|, id, j)
  {
    assert (earlier + [e])[..|earlier|] == earlier && [e][..0] == [];
  }

  /**
   Over a whole run, a job is done or failed only if it was so at the start, or because the worker
   held it and finished it in just that way, with just that source and model or message.
   */
  lemma {:induction false} OnlyFinishingSettles(s: Sys, es: seq<Event>, id: int) returns (i: nat)
    requires Inv(s) && Run(s, es).Some? && id in Run(s, es).value.db.jobs
    requires Run(s, es).value.db.jobs[id].status in {Done, Failed}
    ensures var j := Run(s, es).value.db.jobs[id];
            (id in s.db.jobs && s.db.jobs[id] == j) || EndsJob(s, es, i, id, j)
  {
    i := 0;
    if es != [] {
      var earlier, e := es[..|es| - 1], es[|es| - 1];
      assert es == earlier + [e];
      RunKeepsInv(s, earlier);
      var m, j := Run(s, earlier).value, Run(s, es).value.db.jobs[id];
      SettledByFinish(m, e, id);
      if id in m.db.jobs && j == m.db.jobs[id] {
        i := OnlyFinishingSettles(s, earlier, id);
        if EndsJob(s, earlier, i, id, j) {
          EndsJobEarlier(s, earlier, e, i, id, j);
        }
      } else {
        i := |earlier|;
        EndsJobNow(s, earlier, e, id, j);
      }
    }
  }

  // ----- when a skip lasts -----

  predicate IsSkipped(s: Sys, id: int) {
    id in s.db.jobs && s.db.jobs[id].status == Skipped
  }

  /** The run neither unskips nor deletes the note. */
  ghost predicate LeavesSkipped(es: seq<Event>, path: string) {
    forall e :: e in es && (e.Unskip? || e.DeleteNote?) ==> e.path != path
  }

  lemma {:induction false} SkippedStaysSkipped(s: Sys, es: seq<Event>, path: string, id: int)
    requires Inv(s) && IsSkipped(s, id) && s.db.jobs[id].notePath == path && s.worker != Busy(id)
    requires LeavesSkipped(es, path) && Run(s, es).Some?
    ensures var t := Run(s, es).value; IsSkipped(t, id) && t.db.jobs[id].notePath == path && t.worker != Busy(id)
  {
    if es != [] {
      var earlier, e := es[..|es| - 1], es[|es| - 1];
      assert es == earlier + [e];
      SkippedStaysSkipped(s, earlier, path, id);
      RunKeepsInv(s, earlier);
      StepKeepsRow(Run(s, earlier).value, e, id);
    }
  }

  /** Finishing overwrites the skip of the job the worker holds. */
  lemma {:induction false} FinishOverwritesSkip(s: Sys, id: int, outcome: Outcome, now: int)
    requires s.worker == Busy(id) && IsSkipped(s, id)
    ensures Run(s, [Finish(outcome, now)]).Some? && !IsSkipped(Run(s, [Finish(outcome, now)]).value, id)
  {
    var es := [Finish(outcome, now)];
    assert es[..|es| - 1] == [];
  }

  /** The job is skipped after every run that neither unskips nor deletes its note. */
  ghost predicate StaysSkipped(s: Sys, path: string, id: int) {
    forall es :: LeavesSkipped(es, path) && Run(s, es).Some? ==> IsSkipped(Run(s, es).value, id)
  }

  /**
   Skipping a note skips its latest job for as long as nobody unskips or deletes the note, if and
   only if that job is not the one the worker holds: a skip that arrives during processing is lost
   when the job finishes.
   */
  lemma {:induction false} SkipLastsIffWorkerIsElsewhere(s: Sys, path: string, id: int, reason: string)
    requires Inv(s) && IsLatest(s.db, path, id)
    ensures IsSkipped(Next(s, Skip(path, reason)), id)
    ensures StaysSkipped(Next(s, Skip(path, reason)), path, id) <==> s.worker != Busy(id)
  {
    var skipped := Next(s, Skip(path, reason));
    StepKeepsInv(s, Skip(path, reason));
    if s.worker == Busy(id) {
      var es := [Finish(Errored(""), 0)];
      FinishOverwritesSkip(skipped, id, Errored(""), 0);
      assert LeavesSkipped(es, path);
    } else {
      forall es | LeavesSkipped(es, path) && Run(skipped, es).Some?
        ensures IsSkipped(Run(skipped, es).value, id)
      {
        SkippedStaysSkipped(skipped, es, path, id);
      }
    }
  }
}
