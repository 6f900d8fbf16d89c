/**
 Server authoring: the numbering of the server's own ops, when a batch of drafts is accepted,
 and what an accepted batch does to the mirror.
 */
module Authoring {
  import opened Wrappers
  import opened Ops
  import opened Reconcile
  import opened SyncState
  import opened SyncRuns
  import Ulid

  /** The op_seqs of one site's ops, in the order given. */
  function SeqsOf(ops: seq<Op>, site: string): seq<int> {
    if ops == [] then []
    else SeqsOf(ops[..|ops| - 1], site) + if ops[|ops| - 1].siteId == site then [ops[|ops| - 1].opSeq] else []
  }

  function CountFrom(first: int, n: nat): seq<int> {
    seq(n, i => first + i)
  }

  lemma {:induction false} SeqsOfConcat(a: seq<Op>, b: seq<Op>, site: string)
    ensures SeqsOf(a + b, site) == SeqsOf(a, site) + SeqsOf(b, site)
  {
    if b == [] {
      assert a + b == a;
    } else {
      assert (a + b)[..|a + b| - 1] == a + b[..|b| - 1];
      SeqsOfConcat(a, b[..|b| - 1], site);
    }
  }

  lemma {:induction false} SeqsOfOthers(ops: seq<Op>, site: string)
    requires forall op :: op in ops ==> op.siteId != site
    ensures SeqsOf(ops, site) == []
  {
    if ops != [] {
      SeqsOfOthers(ops[..|ops| - 1], site);
    }
  }

  lemma {:induction false} SeqsOfStamped(db: Db, drafts: seq<Op>, now: int)
    ensures SeqsOf(Stamped(db, drafts, now), db.siteId) == CountFrom(db.lastOpSeq + 1, |drafts|)
  {
    if drafts != [] {
      StampedStep(db, drafts, now);
      SeqsOfStamped(db, drafts[..|drafts| - 1], now);
      var front := Stamped(db, drafts[..|drafts| - 1], now);
      assert Stamped(db, drafts, now)[..|drafts| - 1] == front;
    }
  }

  ghost predicate ServerOpsNumbered(db: Db) {
    db.lastOpSeq >= 0 && SeqsOf(OpsOf(db.log), db.siteId) == CountFrom(1, db.lastOpSeq)
  }

  /** No device pushes ops under the server's own site id. */
  ghost predicate NoImpostor(call: Call, siteId: string) {
    call.Push? ==> forall op :: op in call.ops ==> op.siteId != siteId
  }

  lemma {:induction false} PushKeepsNumbering(log: seq<LogEntry>, log': seq<LogEntry>, news: seq<Op>, site: string)
    requires log <= log' && NewsFrom(log, log', news) && forall op :: op in news ==> op.siteId != site
    ensures SeqsOf(OpsOf(log'), site) == SeqsOf(OpsOf(log), site)
  {
    var added := OpsOf(log'[|log|..]);
    assert OpsOf(log') == OpsOf(log) + added;
    SeqsOfConcat(OpsOf(log), added, site);
    SeqsOfOthers(added, site);
  }

  lemma {:induction false} AuthoringNumbers(db: Db, ops: seq<Op>, drafts: seq<Op>, now: int)
    requires db.lastOpSeq >= 0 && SeqsOf(ops, db.siteId) == CountFrom(1, db.lastOpSeq)
    ensures SeqsOf(ops + Stamped(db, drafts, now), db.siteId) == CountFrom(1, db.lastOpSeq + |drafts|)
  {
    SeqsOfConcat(ops, Stamped(db, drafts, now), db.siteId);
    SeqsOfStamped(db, drafts, now);
  }

  lemma {:induction false} StepKeepsNumbering(db: Db, call: Call)
    requires Inv(db) && ServerOpsNumbered(db) && NoImpostor(call, db.siteId)
    ensures ServerOpsNumbered(Step(db, call))
  {
    match call {
      case Push(site, ops, now) =>
        ApplyOpsKeeps(Batch(db, [], {}, []), site, ops, now);
        PushKeepsNumbering(db.log, Step(db, call).log, ops, db.siteId);
      case Author(drafts, now) =>
        AuthorStepKeepsNumbering(db, drafts, now);
      case Pull(_, _, _) =>
    }
  }

  lemma {:induction false} AuthorStepKeepsNumbering(db: Db, drafts: seq<Op>, now: int)
    requires Inv(db) && ServerOpsNumbered(db)
    ensures ServerOpsNumbered(Step(db, Author(drafts, now)))
  {
    if AuthorAll(db, drafts, now).Authored? {
      AuthorAllKeeps(db, drafts, now);
      AuthoringNumbers(db, OpsOf(db.log), drafts, now);
    }
  }

  /**
   If no device pushes under the server's site id, the server's ops in the changelog carry
   the op_seqs 1, 2, ..., last_op_seq, in log order: none is skipped or used twice.
   */
  lemma {:induction false} ServerOpsAreNumbered(siteId: string, calls: seq<Call>)
    requires forall c :: c in calls ==> NoImpostor(c, siteId)
    ensures ServerOpsNumbered(Run(Fresh(siteId), calls))
  {
    if calls == [] {
      assert OpsOf([]) == [];
    } else {
      ServerOpsAreNumbered(siteId, calls[..|calls| - 1]);
      FreshInv(siteId);
      RunKeepsInv(Fresh(siteId), calls[..|calls| - 1]);
      StepKeepsNumbering(Run(Fresh(siteId), calls[..|calls| - 1]), calls[|calls| - 1]);
    }
  }

  lemma {:induction false} LoggedSeqIsCounted(ops: seq<Op>, i: nat)
    requires i < |ops|
    ensures ops[i].opSeq in SeqsOf(ops, ops[i].siteId)
  {
    if i < |ops| - 1 {
      LoggedSeqIsCounted(ops[..|ops| - 1], i);
    }
  }

  /** The server's next op_seqs are free. */
  lemma {:induction false} NextSeqIsFree(db: Db, opSeq: int)
    requires ServerOpsNumbered(db) && db.lastOpSeq < opSeq
    ensures !Logged(db.log, db.siteId, opSeq)
  {
    if Logged(db.log, db.siteId, opSeq) {
      var e :| e in db.log && e.op.siteId == db.siteId && e.op.opSeq == opSeq;
      var i :| 0 <= i < |db.log| && db.log[i] == e;
      LoggedSeqIsCounted(OpsOf(db.log), i);
    }
  }

  /** What a caller must supply: a known table, a ULID key, and every column at its type. */
  ghost predicate Complete(draft: Op) {
    && !draft.table.OtherTable? && Ulid.IsUlid(draft.pk)
    && (forall c :: c in KnownCols(draft.table) ==> c in draft.cols)
    && WellTyped(draft)
  }

  lemma {:induction false} StampIsGood(db: Db, draft: Op, opSeq: int, now: int)
    requires Complete(draft) && Ulid.IsUlid(db.siteId) && opSeq > 0
    ensures var op := Stamp(db, draft, opSeq, now);
            Validate(op).None? && WellTyped(op) && Cells(op) == Cells(draft)
  {
    var op := Stamp(db, draft, opSeq, now);
    ValidateAccepts(op);
    assert forall c :: c in KnownCols(op.table) ==> CellOf(op, c) == CellOf(draft, c);
  }

  /** The row that authoring `draft` at `opSeq` leaves behind. */
  ghost function AuthoredRow(db: Db, draft: Op, opSeq: int, now: int): MirrorRow {
    var key := Key(now, opSeq, db.siteId);
    if Row(draft) in db.mirror && !KeyLess(db.mirror[Row(draft)].key, key) then db.mirror[Row(draft)]
    else MirrorRow(key, Cells(draft))
  }

  /** No later draft names the same row. */
  ghost predicate IsLastForRow(drafts: seq<Op>, i: nat)
    requires i < |drafts|
  {
    forall j :: i < j < |drafts| ==> Row(drafts[j]) != Row(drafts[i])
  }

  ghost predicate Undrafted(drafts: seq<Op>, k: RowId) {
    forall i :: 0 <= i < |drafts| ==> Row(drafts[i]) != k
  }

  ghost predicate HoldsDraft(db: Db, drafts: seq<Op>, now: int, mirror: map<RowId, MirrorRow>, i: nat)
    requires i < |drafts|
  {
    Row(drafts[i]) in mirror && mirror[Row(drafts[i])] == AuthoredRow(db, drafts[i], db.lastOpSeq + i + 1, now)
  }

  ghost predicate SameRow(mirror: map<RowId, MirrorRow>, mirror': map<RowId, MirrorRow>, k: RowId) {
    (k in mirror' <==> k in mirror) && (k in mirror ==> mirror'[k] == mirror[k])
  }

  /**
   Every drafted row holds its last draft, unless the key stored before the batch beats it;
   no other row has changed.
   */
  ghost predicate AuthorsRows(db: Db, drafts: seq<Op>, now: int, mirror: map<RowId, MirrorRow>) {
    && (forall i :: 0 <= i < |drafts| && IsLastForRow(drafts, i) ==> HoldsDraft(db, drafts, now, mirror, i))
    && (forall k :: Undrafted(drafts, k) ==> SameRow(db.mirror, mirror, k))
  }

  /** A complete draft with a free op_seq is accepted and writes its own row only. */
  lemma {:induction false} CompleteDraftIsAccepted(mid: Authoring, draft: Op, opSeq: int, op: Op, now: int)
    requires mid.Authored? && Ulid.IsUlid(mid.db.siteId) && opSeq > 0 && op == Stamp(mid.db, draft, opSeq, now)
    requires Complete(draft) && !Logged(mid.db.log, mid.db.siteId, opSeq)
    ensures AuthorOp(mid, op, now).Authored?
    ensures AuthorOp(mid, op, now).db.mirror == mid.db.mirror[Row(draft) := AuthoredRow(mid.db, draft, opSeq, now)]
  {
    StampIsGood(mid.db, draft, opSeq, now);
    NormalizeKeepsMeaning(op);
    WriterAcceptsWellTyped(Normalize(op));
  }

  /** The last draft of a drafted row. */
  lemma {:induction false} LastIndexFor(drafts: seq<Op>, from: nat) returns (i: nat)
    requires from < |drafts|
    ensures from <= i < |drafts| && Row(drafts[i]) == Row(drafts[from]) && IsLastForRow(drafts, i)
    decreases |drafts| - from
  {
    if IsLastForRow(drafts, from) {
      i := from;
    } else {
      var j :| from < j < |drafts| && Row(drafts[j]) == Row(drafts[from]);
      i := LastIndexFor(drafts, j);
    }
  }

  /** A draft for a row that an earlier op_seq of the batch may have written ends where it would have ended alone. */
  lemma {:induction false} RedraftForgets(db: Db, mid: Db, early: Op, earlySeq: int, late: Op, lateSeq: int, now: int)
    requires Row(early) == Row(late) && earlySeq < lateSeq && mid.siteId == db.siteId
    requires Row(early) in mid.mirror && mid.mirror[Row(early)] == AuthoredRow(db, early, earlySeq, now)
    ensures AuthoredRow(mid, late, lateSeq, now) == AuthoredRow(db, late, lateSeq, now)
  {
    var k := Row(early);
    if k in db.mirror && KeyLess(db.mirror[k].key, Key(now, earlySeq, db.siteId)) {
      KeyLessTransitive(db.mirror[k].key, Key(now, earlySeq, db.siteId), Key(now, lateSeq, db.siteId));
    }
  }

  /** What the last draft of a batch leaves does not depend on the drafts before it. */
  lemma {:induction false} LastDraftForgets(db: Db, mid: Db, front: seq<Op>, last: Op, now: int)
    requires AuthorsRows(db, front, now, mid.mirror) && mid.siteId == db.siteId
    ensures AuthoredRow(mid, last, db.lastOpSeq + |front| + 1, now) == AuthoredRow(db, last, db.lastOpSeq + |front| + 1, now)
  {
    if Undrafted(front, Row(last)) {
      assert SameRow(db.mirror, mid.mirror, Row(last));
    } else {
      var from :| 0 <= from < |front| && Row(front[from]) == Row(last);
      var i := LastIndexFor(front, from);
      assert HoldsDraft(db, front, now, mid.mirror, i);
      RedraftForgets(db, mid, front[i], db.lastOpSeq + i + 1, last, db.lastOpSeq + |front| + 1, now);
    }
  }

  lemma {:induction false} LastForRowInFront(front: seq<Op>, last: Op, i: nat)
    requires i < |front| && IsLastForRow(front + [last], i)
    ensures IsLastForRow(front, i) && Row(front[i]) != Row(last)
  {
    var drafts := front + [last];
    assert drafts[|front|] == last;
    assert forall j :: i < j < |front| ==> front[j] == drafts[j];
  }

  lemma {:induction false} UndraftedInFront(front: seq<Op>, last: Op, k: RowId)
    requires Undrafted(front + [last], k)
    ensures Undrafted(front, k) && Row(last) != k
  {
    var drafts := front + [last];
    assert drafts[|front|] == last;
    assert forall j :: 0 <= j < |front| ==> front[j] == drafts[j];
  }

  lemma {:induction false} ExtendAuthorsRows(db: Db, mid: Db, front: seq<Op>, last: Op, now: int)
    requires AuthorsRows(db, front, now, mid.mirror) && mid.siteId == db.siteId
    ensures var row := AuthoredRow(mid, last, db.lastOpSeq + |front| + 1, now);
            AuthorsRows(db, front + [last], now, mid.mirror[Row(last) := row])
  {
    var drafts := front + [last];
    var mirror := mid.mirror[Row(last) := AuthoredRow(mid, last, db.lastOpSeq + |front| + 1, now)];
    LastDraftForgets(db, mid, front, last, now);
    forall i | 0 <= i < |drafts| && IsLastForRow(drafts, i)
      ensures HoldsDraft(db, drafts, now, mirror, i)
    {
      if i < |front| {
        LastForRowInFront(front, last, i);
        assert HoldsDraft(db, front, now, mid.mirror, i);
      }
    }
    forall k | Undrafted(drafts, k)
      ensures SameRow(db.mirror, mirror, k)
    {
      UndraftedInFront(front, last, k);
      assert SameRow(db.mirror, mid.mirror, k);
    }
  }

  /**
   A batch of complete drafts is accepted, even if it drafts a row more than once. Each drafted
   row then holds its last draft unless its stored key beats the authored one; no other row changes.
   */
  lemma {:induction false} AuthoringWritesItsRows(db: Db, drafts: seq<Op>, now: int)
    requires Inv(db) && ServerOpsNumbered(db) && Ulid.IsUlid(db.siteId)
    requires forall d :: d in drafts ==> Complete(d)
    ensures AuthorAll(db, drafts, now).Authored?
    ensures AuthorsRows(db, drafts, now, AuthorAll(db, drafts, now).db.mirror)
  {
    if drafts != [] {
      var front, last := drafts[..|drafts| - 1], drafts[|drafts| - 1];
      assert drafts == front + [last];
      AuthoringWritesItsRows(db, front, now);
      var mid := AuthorAll(db, front, now);
      FreeAfterFront(db, front, now);
      var op := Stamp(db, last, db.lastOpSeq + |drafts|, now);
      AuthorsOneMore(db, mid, front, last, op, now);
      LastDraft(db, drafts, mid, op, now);
    }
  }

  lemma {:induction false} RefusedOpIsFaulty(a: Authoring, op: Op, now: int)
    requires a.Authored? && !Logged(a.db.log, op.siteId, op.opSeq) && AuthorOp(a, op, now).Refused?
    ensures Faulty(op, AuthorOp(a, op, now).reason)
  {
    if Validate(op) == None {
      MalformedIsFaulty(a.db.mirror, op);
    }
  }

  /** Authoring is refused only for a fault of a stamped draft, and always if one is structurally invalid. */
  lemma {:induction false} AuthoringRefusesOnlyFaults(db: Db, drafts: seq<Op>, now: int)
    requires Inv(db) && ServerOpsNumbered(db)
    ensures AuthorOps(db, drafts, now).Refused? ==>
              exists op :: op in Stamped(db, drafts, now) && Faulty(op, AuthorOps(db, drafts, now).reason)
    ensures (exists op :: op in Stamped(db, drafts, now) && Validate(op) != None) ==> AuthorOps(db, drafts, now).Refused?
  {
    if drafts != [] {
      var front, last := drafts[..|drafts| - 1], drafts[|drafts| - 1];
      var op := Stamp(db, last, db.lastOpSeq + |drafts|, now);
      AuthoringRefusesOnlyFaults(db, front, now);
      StampedStep(db, drafts, now);
      assert Stamped(db, drafts, now)[|front|] == op;
      var mid := AuthorAll(db, front, now);
      if mid.Authored? {
        FreeAfterFront(db, front, now);
        LastDraft(db, drafts, mid, op, now);
        if AuthorOp(mid, op, now).Refused? {
          RefusedOpIsFaulty(mid, op, now);
        }
      } else {
        DraftsEndWith(db, drafts, now);
      }
    }
  }

  lemma {:induction false} AuthorsOneMore(db: Db, mid: Authoring, front: seq<Op>, last: Op, op: Op, now: int)
    requires mid.Authored? && mid.db.siteId == db.siteId && Ulid.IsUlid(db.siteId) && db.lastOpSeq >= 0
    requires AuthorsRows(db, front, now, mid.db.mirror) && Complete(last)
    requires op == Stamp(db, last, db.lastOpSeq + |front| + 1, now)
    requires !Logged(mid.db.log, db.siteId, db.lastOpSeq + |front| + 1)
    ensures AuthorOp(mid, op, now).Authored? && AuthorsRows(db, front + [last], now, AuthorOp(mid, op, now).db.mirror)
  {
    CompleteDraftIsAccepted(mid, last, db.lastOpSeq + |front| + 1, op, now);
    ExtendAuthorsRows(db, mid.db, front, last, now);
  }

  lemma {:induction false} FreeAfterFront(db: Db, front: seq<Op>, now: int)
    requires Inv(db) && ServerOpsNumbered(db) && AuthorAll(db, front, now).Authored?
    ensures AuthorAll(db, front, now).db.siteId == db.siteId
    ensures !Logged(AuthorAll(db, front, now).db.log, db.siteId, db.lastOpSeq + |front| + 1)
  {
    AuthorAllKeeps(db, front, now);
    StepKeepsNumbering(db, Author(front, now));
    NextSeqIsFree(Step(db, Author(front, now)), db.lastOpSeq + |front| + 1);
  }

  /**
   Within one authored batch a later draft of a row beats an earlier one: the row ends with a key
   above the earlier draft's and not below the later one's, and with the later one's cells if
   nothing newer was stored and no draft of the row follows.
   */
  lemma {:induction false} LaterDraftBeatsEarlier(db: Db, drafts: seq<Op>, now: int, i: nat, j: nat)
    requires Inv(db) && ServerOpsNumbered(db) && Ulid.IsUlid(db.siteId)
    requires forall d :: d in drafts ==> Complete(d)
    requires i < j < |drafts| && Row(drafts[i]) == Row(drafts[j])
    ensures AuthorAll(db, drafts, now).Authored?
    ensures var mirror, k := AuthorAll(db, drafts, now).db.mirror, Row(drafts[i]);
            && k in mirror
            && KeyLess(Key(now, db.lastOpSeq + i + 1, db.siteId), mirror[k].key)
            && !KeyLess(mirror[k].key, Key(now, db.lastOpSeq + j + 1, db.siteId))
            && (IsLastForRow(drafts, j) && (k in db.mirror ==> KeyLess(db.mirror[k].key, Key(now, db.lastOpSeq + j + 1, db.siteId)))
                ==> mirror[k] == MirrorRow(Key(now, db.lastOpSeq + j + 1, db.siteId), Cells(drafts[j])))
  {
    AuthoringWritesItsRows(db, drafts, now);
    var m := LastIndexFor(drafts, j);
    assert HoldsDraft(db, drafts, now, AuthorAll(db, drafts, now).db.mirror, m);
    assert IsLastForRow(drafts, j) ==> HoldsDraft(db, drafts, now, AuthorAll(db, drafts, now).db.mirror, j);
    AuthoredKeyIsAtLeast(db, drafts[m], db.lastOpSeq + m + 1, db.lastOpSeq + j + 1, now);
    AuthoredKeyIsAtLeast(db, drafts[m], db.lastOpSeq + m + 1, db.lastOpSeq + i + 1, now);
  }

  lemma {:induction false} AuthoredKeyIsAtLeast(db: Db, draft: Op, opSeq: int, earlier: int, now: int)
    requires earlier <= opSeq
    ensures var key := AuthoredRow(db, draft, opSeq, now).key;
            && !KeyLess(key, Key(now, earlier, db.siteId))
            && (earlier < opSeq ==> KeyLess(Key(now, earlier, db.siteId), key))
  {
    var key, own, low := AuthoredRow(db, draft, opSeq, now).key, Key(now, opSeq, db.siteId), Key(now, earlier, db.siteId);
    KeyLessConnected(own, key);
    KeyLessIrreflexive(low);
    if key != own {
      if earlier < opSeq {
        KeyLessTransitive(low, own, key);
      }
      if KeyLess(key, low) {
        KeyLessTransitive(own, key, low);
      }
    }
  }
}
