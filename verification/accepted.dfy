/**
 The contiguous high-water `accepted_through`: it never falls, it covers only op_seqs that
 are in the changelog or were rejected, a poison op cannot wedge it, and sending a batch
 again reports the same water.
 */
module Accepted {
  import opened Wrappers
  import opened Ops
  import opened Reconcile
  import opened SyncState
  import opened SyncRuns
  import opened SampleOps
  import Ulid

  /** The op_seqs of a site that a response names as rejected. */
  ghost function RejectedFor(rejected: seq<RejectedOp>, site: string): set<int> {
    set r | r in rejected && r.siteId == site :: r.opSeq
  }

  lemma {:induction false} RejectedSeqsAreReported(b: Batch, site: string, ops: seq<Op>, now: int)
    requires b.rejectedSeqs == RejectedFor(b.rejected, site)
    ensures ApplyOps(b, site, ops, now).rejectedSeqs == RejectedFor(ApplyOps(b, site, ops, now).rejected, site)
  {
    if ops != [] {
      RejectedSeqsAreReported(b, site, ops[..|ops| - 1], now);
      ReportedStep(ApplyOps(b, site, ops[..|ops| - 1], now), site, ops[|ops| - 1], now);
    }
  }

  lemma {:induction false} ReportedStep(b: Batch, site: string, op: Op, now: int)
    requires b.rejectedSeqs == RejectedFor(b.rejected, site)
    ensures ApplyOp(b, site, op, now).rejectedSeqs == RejectedFor(ApplyOp(b, site, op, now).rejected, site)
  {
    var b' := ApplyOp(b, site, op, now);
    if b'.rejected != b.rejected {
      var r := b'.rejected[|b.rejected|];
      assert b'.rejected == b.rejected + [r];
      assert forall x :: x in b'.rejected <==> x in b.rejected || x == r;
    }
  }

  /** The water after a batch is the greatest extension of the old one over what is now settled. */
  lemma {:induction false} WaterIsGreatest(h: int, settled: set<int>, m: int)
    requires h <= m && forall i :: h < i <= m ==> i in settled
    ensures m <= Water(h, settled)
  {
    var n := Water(h, settled) + 1;
    assert h < n <= m ==> n in settled;
  }

  lemma {:induction false} WaterOf(h: int, settled: set<int>, w: int)
    requires h <= w && (forall i :: h < i <= w ==> i in settled) && w + 1 !in settled
    ensures Water(h, settled) == w
  {
    WaterIsGreatest(h, settled, w);
    assert h < w + 1 <= Water(h, settled) ==> w + 1 in settled;
  }

  lemma {:induction false} SettledGrows(log: seq<LogEntry>, log': seq<LogEntry>, site: string, rejected: set<int>, rejected': set<int>)
    requires log <= log' && rejected <= rejected'
    ensures Settled(log, site, rejected) <= Settled(log', site, rejected')
  {
    forall x | x in Settled(log, site, rejected)
      ensures x in Settled(log', site, rejected')
    {
      if x !in rejected {
        var e :| e in log && e.op.siteId == site && e.op.opSeq == x;
        assert e in log';
      }
    }
  }

  lemma {:induction false} ApplyOpSettles(b: Batch, site: string, op: Op, now: int)
    ensures var b' := ApplyOp(b, site, op, now);
            && b.db.log <= b'.db.log && b.rejectedSeqs <= b'.rejectedSeqs
            && b'.db.cursors == b.db.cursors
            && (op.siteId == site ==> op.opSeq in Settled(b'.db.log, site, b'.rejectedSeqs))
  {
    var b' := ApplyOp(b, site, op, now);
    if b'.db.log != b.db.log {
      assert b'.db.log[|b.db.log|] in b'.db.log;
    }
  }

  /** Whatever is wrong with it, an op the device sent under its own site id is settled by the call. */
  lemma {:induction false} ApplyOpsSettle(b: Batch, site: string, ops: seq<Op>, now: int)
    ensures var b' := ApplyOps(b, site, ops, now);
            && b.db.log <= b'.db.log && b.rejectedSeqs <= b'.rejectedSeqs
            && b'.db.cursors == b.db.cursors
            && (forall op :: op in ops && op.siteId == site ==> op.opSeq in Settled(b'.db.log, site, b'.rejectedSeqs))
  {
    if ops != [] {
      var front, last := ops[..|ops| - 1], ops[|ops| - 1];
      assert ops == front + [last];
      ApplyOpsSettle(b, site, front, now);
      var mid, b' := ApplyOps(b, site, front, now), ApplyOps(b, site, ops, now);
      ApplyOpSettles(mid, site, last, now);
      SettledGrows(mid.db.log, b'.db.log, site, mid.rejectedSeqs, b'.rejectedSeqs);
    }
  }

  /** `n` extends the water `h`, op_seq by op_seq, as far as the changelog and the rejections reach. */
  ghost predicate ContiguousHighWater(h: int, n: int, log: seq<LogEntry>, site: string, rejected: set<int>) {
    && h <= n
    && (forall i :: h < i <= n ==> i in rejected || Logged(log, site, i))
    && n + 1 !in rejected && !Logged(log, site, n + 1)
  }

  /** One call answers the contiguous high-water over its changelog and its rejected list, and stores it. */
  lemma {:induction false} AcceptedThroughIsContiguous(db: Db, site: string, ops: seq<Op>, now: int)
    ensures var (db', res) := ApplyBatch(db, site, ops, now);
            && Acked(db', site) == res.acceptedThrough
            && ContiguousHighWater(Acked(db, site), res.acceptedThrough, db'.log, site, RejectedFor(res.rejected, site))
            && (forall other :: other != site ==> Acked(db', other) == Acked(db, other))
  {
    var start := Batch(db, [], {}, []);
    ApplyOpsSettle(start, site, ops, now);
    RejectedSeqsAreReported(start, site, ops, now);
    var b := ApplyOps(start, site, ops, now);
    var settled := Settled(b.db.log, site, b.rejectedSeqs);
    assert forall i :: i in settled <==> i in b.rejectedSeqs || Logged(b.db.log, site, i);
  }

  ghost predicate Carries(ops: seq<Op>, site: string, opSeq: int) {
    exists op :: op in ops && op.siteId == site && op.opSeq == opSeq
  }

  /**
   A batch that carries every own op_seq above the water up to `k` moves the water to at
   least `k`, however many of its ops are refused.
   */
  lemma {:induction false} PoisonOpsDoNotWedge(db: Db, site: string, ops: seq<Op>, now: int, k: int)
    requires forall i :: Acked(db, site) < i <= k ==> Carries(ops, site, i)
    ensures k <= ApplyBatch(db, site, ops, now).1.acceptedThrough
  {
    var start := Batch(db, [], {}, []);
    ApplyOpsSettle(start, site, ops, now);
    var b := ApplyOps(start, site, ops, now);
    if Acked(db, site) <= k {
      forall i | Acked(db, site) < i <= k
        ensures i in Settled(b.db.log, site, b.rejectedSeqs)
      {
        assert Carries(ops, site, i);
      }
      WaterIsGreatest(Acked(db, site), Settled(b.db.log, site, b.rejectedSeqs), k);
    }
  }

  // ----- what a call answers and records -----

  /** The entry names this op and something that is wrong with it. */
  ghost predicate Rejects(r: RejectedOp, op: Op) {
    r.siteId == op.siteId && r.opSeq == op.opSeq && Faulty(op, r.reason)
  }

  ghost predicate Answered(log: seq<LogEntry>, rejected: seq<RejectedOp>, op: Op) {
    Logged(log, op.siteId, op.opSeq) || exists r :: r in rejected && Rejects(r, op)
  }

  ghost predicate IsRejected(ops: seq<Op>, r: RejectedOp) {
    exists op :: op in ops && Rejects(r, op)
  }

  /** Every op is in the changelog or named as rejected, and only faulty ops are. */
  ghost predicate AllAnswered(log: seq<LogEntry>, rejected: seq<RejectedOp>, ops: seq<Op>) {
    && (forall op :: op in ops ==> Answered(log, rejected, op))
    && (forall r :: r in rejected ==> IsRejected(ops, r))
  }

  lemma {:induction false} AnsweredOp(b: Batch, site: string, op: Op, now: int)
    returns (more: seq<RejectedOp>)
    ensures var b' := ApplyOp(b, site, op, now);
            && b'.rejected == b.rejected + more
            && ((more == [] && Logged(b'.db.log, op.siteId, op.opSeq)) || (|more| == 1 && Rejects(more[0], op)))
  {
    more := ApplyOp(b, site, op, now).rejected[|b.rejected|..];
    if Validate(op) == None && !Logged(b.db.log, op.siteId, op.opSeq) {
      if MergeRow(b.db.mirror, Normalize(op)).Malformed? {
        MalformedIsFaulty(b.db.mirror, op);
      } else {
        RecordedIsNews(b.db, op, now);
      }
    }
  }

  lemma {:induction false} StaysAnswered(log: seq<LogEntry>, log': seq<LogEntry>, rejected: seq<RejectedOp>, rejected': seq<RejectedOp>, op: Op)
    requires Answered(log, rejected, op) && log <= log' && rejected <= rejected'
    ensures Answered(log', rejected', op)
  {
    LoggedGrows(log, log');
    if !Logged(log, op.siteId, op.opSeq) {
      var r :| r in rejected && Rejects(r, op);
      assert r in rejected';
    }
  }

  lemma {:induction false} StaysRejected(front: seq<Op>, last: Op, r: RejectedOp)
    requires IsRejected(front, r) || Rejects(r, last)
    ensures IsRejected(front + [last], r)
  {
    var op :| (op in front || op == last) && Rejects(r, op);
    assert op in front + [last];
  }

  lemma {:induction false} OneMoreAnswered(log: seq<LogEntry>, log': seq<LogEntry>, rejected: seq<RejectedOp>, more: seq<RejectedOp>,
                                           front: seq<Op>, last: Op)
    requires AllAnswered(log, rejected, front) && log <= log'
    requires (more == [] && Logged(log', last.siteId, last.opSeq)) || (|more| == 1 && Rejects(more[0], last))
    ensures AllAnswered(log', rejected + more, front + [last])
  {
    forall op | op in front + [last]
      ensures Answered(log', rejected + more, op)
    {
      if op in front {
        StaysAnswered(log, log', rejected, rejected + more, op);
      } else if more != [] {
        assert more[0] in rejected + more;
      }
    }
    forall r | r in rejected + more
      ensures IsRejected(front + [last], r)
    {
      StaysRejected(front, last, r);
    }
  }

  lemma {:induction false} OpsAreAnswered(db: Db, site: string, ops: seq<Op>, now: int)
    ensures var b := ApplyOps(Batch(db, [], {}, []), site, ops, now);
            AllAnswered(b.db.log, b.rejected, ops)
  {
    if ops != [] {
      var front, last := ops[..|ops| - 1], ops[|ops| - 1];
      assert ops == front + [last];
      OpsAreAnswered(db, site, front, now);
      var mid := ApplyOps(Batch(db, [], {}, []), site, front, now);
      var b := ApplyOp(mid, site, last, now);
      var more := AnsweredOp(mid, site, last, now);
      ApplyOpSettles(mid, site, last, now);
      OneMoreAnswered(mid.db.log, b.db.log, mid.rejected, more, front, last);
    }
  }

  /**
   No op of a batch is passed over: each is in the changelog afterwards or named as rejected, with
   a true reason. Only ops of the batch are rejected, and a sound one never is.
   */
  lemma {:induction false} EveryOpIsAnswered(db: Db, site: string, ops: seq<Op>, now: int)
    ensures var (db', res) := ApplyBatch(db, site, ops, now);
            AllAnswered(db'.log, res.rejected, ops)
  {
    OpsAreAnswered(db, site, ops, now);
  }

  /** The positions, in ascending order, of the ops that these log entries record. */
  ghost predicate RecordsAt(entries: seq<LogEntry>, firstSeq: int, ops: seq<Op>, idx: seq<nat>, now: int) {
    && |idx| == |entries|
    && (forall k :: 0 <= k < |idx| ==> idx[k] < |ops| && entries[k] == LogEntry(firstSeq + k, ops[idx[k]], now))
    && (forall j, k :: 0 <= j < k < |idx| ==> idx[j] < idx[k])
  }

  lemma {:induction false} ApplyOpAppends(b: Batch, site: string, op: Op, now: int)
    ensures var b' := ApplyOp(b, site, op, now);
            || (b'.db.log == b.db.log && b'.db.lastSeq == b.db.lastSeq)
            || (b'.db.log == b.db.log + [LogEntry(b.db.lastSeq + 1, op, now)] && b'.db.lastSeq == b.db.lastSeq + 1)
  {
  }

  /** What a batch adds to the changelog: some of its ops, verbatim, in the order they came, under the next seqs and the time of the call. */
  lemma {:induction false} AppendsInOrder(b: Batch, site: string, ops: seq<Op>, now: int) returns (idx: seq<nat>)
    ensures var db' := ApplyOps(b, site, ops, now).db;
            && b.db.log <= db'.log && db'.lastSeq == b.db.lastSeq + |idx|
            && RecordsAt(db'.log[|b.db.log|..], b.db.lastSeq + 1, ops, idx, now)
  {
    idx := [];
    if ops != [] {
      var front, last := ops[..|ops| - 1], ops[|ops| - 1];
      idx := AppendsInOrder(b, site, front, now);
      var mid := ApplyOps(b, site, front, now);
      ApplyOpAppends(mid, site, last, now);
      if ApplyOp(mid, site, last, now).db.log != mid.db.log {
        idx := idx + [|front|];
        var log := ApplyOps(b, site, ops, now).db.log;
        assert log[|b.db.log|..] == mid.db.log[|b.db.log|..] + [LogEntry(mid.db.lastSeq + 1, last, now)];
      }
    }
  }

  // ----- the two halves of a cursor row -----

  /** The pull cursor recorded for a device. */
  function Pulled(db: Db, site: string): int {
    if site in db.cursors then db.cursors[site].lastPullSeq else 0
  }

  /** The device whose cursor row a call writes. */
  ghost predicate WritesCursor(call: Call, site: string) {
    (call.Push? || call.Pull?) && call.site == site
  }

  lemma {:induction false} StepKeepsCursors(db: Db, call: Call)
    ensures call.Push? ==> Step(db, call).cursors.Keys == db.cursors.Keys + {call.site}
    ensures call.Author? ==> Step(db, call).cursors == db.cursors
  {
    match call {
      case Push(s, ops, now) => ApplyOpsSettle(Batch(db, [], {}, []), s, ops, now);
      case Author(drafts, now) => AuthorKeepsCursors(db, drafts, now);
      case Pull(_, _, _) =>
    }
  }

  /** A push moves a device's acknowledged water and keeps its pull cursor, a pull does the reverse, and nothing else touches the row. */
  lemma {:induction false} CursorHalvesAreIndependent(db: Db, call: Call, site: string)
    ensures var db' := Step(db, call);
            && Pulled(db', site) == (if call.Pull? && call.site == site then call.lastPullSeq else Pulled(db, site))
            && Acked(db', site) == (if call.Push? && call.site == site then ApplyBatch(db, site, call.ops, call.now).1.acceptedThrough
                                    else Acked(db, site))
            && (site in db'.cursors <==> site in db.cursors || WritesCursor(call, site))
            && (site in db'.cursors ==> db'.cursors[site].updatedAt == if WritesCursor(call, site) then call.now else db.cursors[site].updatedAt)
  {
    StepKeepsCursors(db, call);
    if call.Push? {
      ApplyOpsSettle(Batch(db, [], {}, []), call.site, call.ops, call.now);
    }
  }

  // ----- over runs -----

  /** Everything ever rejected for a site, by any call of the run. */
  ghost function EverRejected(db: Db, calls: seq<Call>, site: string): set<int> {
    if calls == [] then {}
    else
      var front, last := calls[..|calls| - 1], calls[|calls| - 1];
      EverRejected(db, front, site)
      + if last.Push? && last.site == site
        then RejectedFor(ApplyBatch(Run(db, front), site, last.ops, last.now).1.rejected, site) else {}
  }

  lemma {:induction false} AuthorOpKeepsCursors(a: Authoring, op: Op, now: int)
    requires a.Authored?
    ensures AuthorOp(a, op, now).Authored? ==>
              AuthorOp(a, op, now).db.cursors == a.db.cursors && a.db.log <= AuthorOp(a, op, now).db.log
  {
  }

  lemma {:induction false} AuthorKeepsCursors(db: Db, drafts: seq<Op>, now: int)
    ensures AuthorAll(db, drafts, now).Authored? ==>
              AuthorAll(db, drafts, now).db.cursors == db.cursors && db.log <= AuthorAll(db, drafts, now).db.log
  {
    if drafts != [] {
      var earlier, last := AuthorAll(db, drafts[..|drafts| - 1], now), drafts[|drafts| - 1];
      AuthorKeepsCursors(db, drafts[..|drafts| - 1], now);
      if earlier.Authored? {
        AuthorOpKeepsCursors(earlier, Stamp(db, last, db.lastOpSeq + |drafts|, now), now);
      }
    }
  }

  lemma {:induction false} StepWater(db: Db, call: Call, site: string)
    ensures Acked(db, site) <= Acked(Step(db, call), site) && db.log <= Step(db, call).log
    ensures forall i :: Acked(db, site) < i <= Acked(Step(db, call), site) ==>
              || Logged(Step(db, call).log, site, i)
              || (call.Push? && call.site == site && i in RejectedFor(ApplyBatch(db, site, call.ops, call.now).1.rejected, site))
  {
    match call {
      case Push(s, ops, now) =>
        AcceptedThroughIsContiguous(db, s, ops, now);
        ApplyOpsSettle(Batch(db, [], {}, []), s, ops, now);
      case Author(drafts, now) => AuthorKeepsCursors(db, drafts, now);
      case Pull(_, _, _) =>
    }
  }

  /** Over any run the water of a device never falls. */
  lemma {:induction false} WaterIsMonotone(db: Db, calls: seq<Call>, site: string)
    ensures Acked(db, site) <= Acked(Run(db, calls), site)
  {
    if calls != [] {
      WaterIsMonotone(db, calls[..|calls| - 1], site);
      StepWater(Run(db, calls[..|calls| - 1]), calls[|calls| - 1], site);
    }
  }

  /** After any run every op_seq from 1 to the water is in the changelog or was rejected by some call. */
  lemma {:induction false} WaterCoversOnlySettled(siteId: string, calls: seq<Call>, site: string)
    ensures var db := Run(Fresh(siteId), calls);
            forall i :: 1 <= i <= Acked(db, site) ==> Logged(db.log, site, i) || i in EverRejected(Fresh(siteId), calls, site)
  {
    if calls != [] {
      var front, last := calls[..|calls| - 1], calls[|calls| - 1];
      WaterCoversOnlySettled(siteId, front, site);
      StepWater(Run(Fresh(siteId), front), last, site);
      LoggedGrows(Run(Fresh(siteId), front).log, Run(Fresh(siteId), calls).log);
    }
  }

  // ----- sending a batch again -----

  /** A badly typed op that its row now beats: the one kind of op a second delivery may still log. */
  ghost predicate LateLoser(db: Db, op: Op) {
    && Validate(op).None? && !WellTyped(op) && !Logged(db.log, op.siteId, op.opSeq)
    && Row(op) in db.mirror && !KeyLess(db.mirror[Row(op)].key, KeyOf(op))
  }

  /** What a second pass over handled ops may do: append some of them, without touching the mirror. */
  ghost predicate OnlyLateLosers(b: Batch, b': Batch, site: string, ops: seq<Op>) {
    && b'.db.mirror == b.db.mirror && b'.changed == b.changed && b'.db.cursors == b.db.cursors
    && b.db.log <= b'.db.log && NewsFrom(b.db.log, b'.db.log, ops)
    && (forall i :: i in b'.rejectedSeqs ==> i in b.rejectedSeqs || Carries(ops, site, i))
    && (b'.db.log != b.db.log <==> exists op :: op in ops && LateLoser(b.db, op))
  }

  /** Whether a handled op is logged by another delivery: only a badly typed one that now loses is. */
  lemma {:induction false} ResendLosesOrIsRefused(db: Db, op: Op)
    requires Handled(db.log, op) && Validate(op).None? && !Logged(db.log, op.siteId, op.opSeq)
    ensures MergeRow(db.mirror, Normalize(op)) == Kept <==> LateLoser(db, op)
    ensures !LateLoser(db, op) ==> MergeRow(db.mirror, Normalize(op)).Malformed?
  {
    NormalizeKeepsMeaning(op);
    WriterAcceptsWellTyped(Normalize(op));
  }

  lemma {:induction false} RefusedOp(b: Batch, site: string, op: Op, now: int)
    requires Validate(op).Some? || Logged(b.db.log, op.siteId, op.opSeq) || MergeRow(b.db.mirror, Normalize(op)).Malformed?
    ensures var b' := ApplyOp(b, site, op, now);
            && b'.db == b.db && b'.changed == b.changed
            && b'.rejectedSeqs <= b.rejectedSeqs + (if op.siteId == site then {op.opSeq} else {})
  {
  }

  lemma {:induction false} LosingOp(b: Batch, site: string, op: Op, now: int)
    requires Validate(op).None? && !Logged(b.db.log, op.siteId, op.opSeq) && MergeRow(b.db.mirror, Normalize(op)) == Kept
    ensures ApplyOp(b, site, op, now) == b.(db := Append(b.db, op, now))
  {
  }

  lemma {:induction false} ResendOp(b: Batch, site: string, op: Op, now: int)
    requires Handled(b.db.log, op)
    ensures var b' := ApplyOp(b, site, op, now);
            && b'.db.mirror == b.db.mirror && b'.changed == b.changed && b'.db.cursors == b.db.cursors
            && b'.rejectedSeqs <= b.rejectedSeqs + (if op.siteId == site then {op.opSeq} else {})
            && b'.db.log == if LateLoser(b.db, op) then b.db.log + [LogEntry(b.db.lastSeq + 1, op, now)] else b.db.log
  {
    if Validate(op).None? && !Logged(b.db.log, op.siteId, op.opSeq) {
      ResendLosesOrIsRefused(b.db, op);
    }
    if LateLoser(b.db, op) {
      LosingOp(b, site, op, now);
    } else {
      RefusedOp(b, site, op, now);
    }
  }

  lemma {:induction false} ResendStep(b: Batch, mid: Batch, b': Batch, site: string, front: seq<Op>, last: Op, now: int)
    requires OnlyLateLosers(b, mid, site, front)
    requires Handled(b.db.log, last) && b' == ApplyOp(mid, site, last, now)
    ensures OnlyLateLosers(b, b', site, front + [last])
  {
    LoggedGrows(b.db.log, mid.db.log);
    ResendOp(mid, site, last, now);
    var ops := front + [last];
    assert forall op :: op in ops <==> op in front || op == last;
    assert LateLoser(mid.db, last) ==> LateLoser(b.db, last);
    assert mid.db.log == b.db.log && LateLoser(b.db, last) ==> LateLoser(mid.db, last);
    forall i | i in b'.rejectedSeqs
      ensures i in b.rejectedSeqs || Carries(ops, site, i)
    {
      if i in mid.rejectedSeqs && i !in b.rejectedSeqs {
        var op :| op in front && op.siteId == site && op.opSeq == i;
        assert op in ops;
      }
    }
  }

  lemma {:induction false} ResendOps(b: Batch, site: string, ops: seq<Op>, now: int)
    requires forall op :: op in ops ==> Handled(b.db.log, op)
    ensures OnlyLateLosers(b, ApplyOps(b, site, ops, now), site, ops)
  {
    if ops != [] {
      var front, last := ops[..|ops| - 1], ops[|ops| - 1];
      assert ops == front + [last];
      ResendOps(b, site, front, now);
      ResendStep(b, ApplyOps(b, site, front, now), ApplyOps(b, site, ops, now), site, front, last, now);
    }
  }

  lemma {:induction false} SecondPassWater(db: Db, site: string, ops: seq<Op>, now: int, b2: Batch)
    requires OnlyLateLosers(Batch(ApplyBatch(db, site, ops, now).0, [], {}, []), b2, site, ops)
    ensures var h := Acked(ApplyBatch(db, site, ops, now).0, site);
            Water(h, Settled(b2.db.log, site, b2.rejectedSeqs)) == h
  {
    var db1 := ApplyBatch(db, site, ops, now).0;
    ApplyOpsSettle(Batch(db, [], {}, []), site, ops, now);
    WaterStops(db, site, ops, now);
    WaterStaysPut(ApplyOps(Batch(db, [], {}, []), site, ops, now), Batch(db1, [], {}, []), b2, site, ops, Acked(db1, site));
  }

  /** Ops a batch has dealt with stay dealt with, whatever calls follow. */
  lemma {:induction false} HandledForGood(db: Db, site: string, ops: seq<Op>, now: int, calls: seq<Call>)
    requires Inv(db)
    ensures var db1 := ApplyBatch(db, site, ops, now).0;
            && db1.log <= Run(db1, calls).log
            && forall op :: op in ops ==> Handled(Run(db1, calls).log, op)
  {
    ApplyOpsKeeps(Batch(db, [], {}, []), site, ops, now);
    var db1 := ApplyBatch(db, site, ops, now).0;
    StepKeepsInv(db, Push(site, ops, now));
    RunKeepsInv(db1, calls);
    LoggedGrows(db1.log, Run(db1, calls).log);
  }

  /**
   Delivering a batch again, as after a lost response, at once or after any other calls, changes
   no row and reports no page, and the water does not fall; delivered again at once, it stays the
   same. The changelog is not always left alone: it grows iff the batch holds a badly typed op
   that was rejected at first and that its row, written later, now beats.
   */
  lemma {:induction false} ResendIsHarmless(db: Db, site: string, ops: seq<Op>, now: int, calls: seq<Call>, later: int)
    requires Inv(db)
    ensures var (db1, res1) := ApplyBatch(db, site, ops, now);
            var db2 := Run(db1, calls);
            var (db3, res3) := ApplyBatch(db2, site, ops, later);
            && db3.mirror == db2.mirror && res3.changedPages == []
            && Acked(db2, site) <= res3.acceptedThrough
            && (calls == [] ==> res3.acceptedThrough == res1.acceptedThrough)
            && (db3.log != db2.log <==> exists op :: op in ops && LateLoser(db2, op))
  {
    var db1 := ApplyBatch(db, site, ops, now).0;
    var db2 := Run(db1, calls);
    HandledForGood(db, site, ops, now, calls);
    ResendOps(Batch(db2, [], {}, []), site, ops, later);
    if calls == [] {
      SecondPassWater(db, site, ops, now, ApplyOps(Batch(db1, [], {}, []), site, ops, later));
    }
  }

  lemma {:induction false} WaterStaysPut(b1: Batch, again: Batch, b2: Batch, site: string, ops: seq<Op>, h: int)
    requires again.db.log == b1.db.log && again.rejectedSeqs == {} && OnlyLateLosers(again, b2, site, ops)
    requires forall op :: op in ops && op.siteId == site ==> op.opSeq in Settled(b1.db.log, site, b1.rejectedSeqs)
    requires h + 1 !in Settled(b1.db.log, site, b1.rejectedSeqs)
    ensures Water(h, Settled(b2.db.log, site, b2.rejectedSeqs)) == h
  {
    ResendSettlesNothingNew(b1, again, b2, site, ops);
    WaterOf(h, Settled(b2.db.log, site, b2.rejectedSeqs), h);
  }

  lemma {:induction false} WaterStops(db: Db, site: string, ops: seq<Op>, now: int)
    ensures var b := ApplyOps(Batch(db, [], {}, []), site, ops, now);
            Acked(ApplyBatch(db, site, ops, now).0, site) + 1 !in Settled(b.db.log, site, b.rejectedSeqs)
  {
  }

  lemma {:induction false} ResendSettlesNothingNew(b1: Batch, again: Batch, b2: Batch, site: string, ops: seq<Op>)
    requires again.db.log == b1.db.log && again.rejectedSeqs == {} && OnlyLateLosers(again, b2, site, ops)
    requires forall op :: op in ops && op.siteId == site ==> op.opSeq in Settled(b1.db.log, site, b1.rejectedSeqs)
    ensures Settled(b2.db.log, site, b2.rejectedSeqs) <= Settled(b1.db.log, site, b1.rejectedSeqs)
  {
    forall x | x in Settled(b2.db.log, site, b2.rejectedSeqs)
      ensures x in Settled(b1.db.log, site, b1.rejectedSeqs)
    {
      if x !in b2.rejectedSeqs {
        var e :| e in b2.db.log && e.op.siteId == site && e.op.opSeq == x;
        var i :| 0 <= i < |b2.db.log| && b2.db.log[i] == e;
        if i < |b1.db.log| {
          assert b1.db.log[i] == e && e in b1.db.log;
        }
      }
    }
  }

  /**
   A batch on a fresh server whose first op is badly typed and whose second writes the same row
   later: the first delivery rejects op 1, the second delivery of the very same batch logs it.
   */
  lemma {:induction false} RejectedOpIsLoggedOnResend(server: string, pk: string, site: string, now: int)
    requires Ulid.IsUlid(pk) && Ulid.IsUlid(site)
    ensures var ops := [OpWith(Folder, pk, site, 1, Name, Num(7)), OpWith(Folder, pk, site, 2, Name, Str("Work"))];
            var (db1, res1) := ApplyBatch(Fresh(server), site, ops, now);
            var (db2, res2) := ApplyBatch(db1, site, ops, now);
            && res1.rejected == [RejectedOp(site, 1, BadType(Name))] && !Logged(db1.log, site, 1)
            && res2.rejected == [] && Logged(db2.log, site, 1)
  {
    assert Name in KnownCols(Folder) && KindOf(Name) == TextKind;
    OpWithFacts(Folder, pk, site, 1, Name, Num(7));
    OpWithFacts(Folder, pk, site, 2, Name, Str("Work"));
    BadThenGood(server, site, OpWith(Folder, pk, site, 1, Name, Num(7)), OpWith(Folder, pk, site, 2, Name, Str("Work")), Name, now);
  }

  lemma {:induction false} BadThenGood(server: string, site: string, bad: Op, good: Op, c: Column, now: int)
    requires Validate(bad) == None == Validate(good) && Normalize(bad) == bad && Normalize(good) == good
    requires FirstBad(UpsertOrder(bad.table), bad, 0) == Some(c) && FirstBad(UpsertOrder(good.table), good, 0) == None
    requires Row(bad) == Row(good) && KeyLess(KeyOf(bad), KeyOf(good))
    requires bad.siteId == site == good.siteId && bad.opSeq != good.opSeq
    ensures var ops := [bad, good];
            var (db1, res1) := ApplyBatch(Fresh(server), site, ops, now);
            var (db2, res2) := ApplyBatch(db1, site, ops, now);
            && res1.rejected == [RejectedOp(site, bad.opSeq, BadType(c))] && !Logged(db1.log, site, bad.opSeq)
            && res2.rejected == [] && Logged(db2.log, site, bad.opSeq)
  {
    var b0 := Batch(Fresh(server), [], {}, []);
    TwoOps(b0, site, bad, good, now);
    var b1 := ApplyOp(b0, site, bad, now);
    assert b1 == Reject(b0, site, bad, BadType(c));
    var b2 := ApplyOp(b1, site, good, now);
    assert b2.db == Record(b1.db, good, now);
    var b3 := Batch(ApplyBatch(Fresh(server), site, [bad, good], now).0, [], {}, []);
    TwoOps(b3, site, bad, good, now);
    var b4 := ApplyOp(b3, site, bad, now);
    assert b4.db == Record(b3.db, bad, now);
    assert b4.db.log[0].op == good && b4.db.log[0] in b4.db.log && b4.db.log[1].op == bad && b4.db.log[1] in b4.db.log;
  }

  lemma {:induction false} TwoOps(b: Batch, site: string, first: Op, second: Op, now: int)
    ensures ApplyOps(b, site, [first, second], now) == ApplyOp(ApplyOp(b, site, first, now), site, second, now)
  {
    assert [first, second][..1] == [first] && [first][..0] == [];
    assert ApplyOps(b, site, [first], now) == ApplyOp(b, site, first, now);
  }
}
