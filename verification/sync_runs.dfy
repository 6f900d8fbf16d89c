/**
 Runs: any sequence of device batches, server authoring and cursor bookkeeping on a fresh
 database. Proves that the incremental store refines the merge of its changelog.
 */
module SyncRuns {
  import opened Wrappers
  import opened Ops
  import opened Reconcile
  import opened SyncState
  import AsciiOrder

  datatype Call =
    | Push(site: string, ops: seq<Op>, now: int)
    | Author(drafts: seq<Op>, now: int)
    | Pull(site: string, lastPullSeq: int, now: int)

  function Step(db: Db, call: Call): Db {
    match call
    case Push(site, ops, now) => ApplyBatch(db, site, ops, now).0
    case Author(drafts, now) => (match AuthorOps(db, drafts, now) case Authored(db', _) => db' case Refused(_) => db)
    case Pull(site, lastPullSeq, now) => SetPulled(db, site, lastPullSeq, now)
  }

  function Run(db: Db, calls: seq<Call>): Db {
    if calls == [] then db else Step(Run(db, calls[..|calls| - 1]), calls[|calls| - 1])
  }

  // ----- the invariant -----

  /** The mirror a set of winning ops stands for. */
  ghost function Rows(winners: map<RowId, Op>): map<RowId, MirrorRow> {
    map k | k in winners :: RowOf(winners[k])
  }

  ghost predicate SeqsAreGapFree(db: Db) {
    db.lastSeq == |db.log| && forall i :: 0 <= i < |db.log| ==> db.log[i].globalSeq == i + 1
  }

  ghost predicate IdentitiesUnique(log: seq<LogEntry>) {
    forall i, j :: 0 <= i < j < |log| ==>
      !(log[i].op.siteId == log[j].op.siteId && log[i].op.opSeq == log[j].op.opSeq)
  }

  ghost predicate MirrorIsMergeOfLog(db: Db) {
    db.mirror == Rows(Merged(OpsOf(db.log)))
  }

  ghost predicate LogIsValid(log: seq<LogEntry>) {
    forall i :: 0 <= i < |log| ==> Validate(log[i].op).None?
  }

  ghost predicate WinnersTyped(log: seq<LogEntry>) {
    forall k :: k in Merged(OpsOf(log)) ==> WellTyped(Merged(OpsOf(log))[k])
  }

  ghost predicate Inv(db: Db) {
    && SeqsAreGapFree(db)
    && IdentitiesUnique(db.log)
    && LogIsValid(db.log)
    && WinnersTyped(db.log)
    && MirrorIsMergeOfLog(db)
  }

  /** An op the store may record: valid, not in the changelog yet, and not a badly typed winner. */
  ghost predicate Recordable(db: Db, op: Op) {
    && Validate(op).None?
    && !Logged(db.log, op.siteId, op.opSeq)
    && !MergeRow(db.mirror, Normalize(op)).Malformed?
  }

  lemma {:induction false} MergedAppend(log: seq<LogEntry>, e: LogEntry)
    ensures Merged(OpsOf(log + [e])) == MergeInto(Merged(OpsOf(log)), e.op)
  {
    var ops := OpsOf(log + [e]);
    assert ops[..|ops| - 1] == OpsOf(log);
  }

  /** Merging one row of a materialised mirror is materialising the merge of one more op. */
  lemma {:induction false} MergeRowRefines(w: map<RowId, Op>, op: Op)
    requires !MergeRow(Rows(w), Normalize(op)).Malformed?
    ensures MirrorAfter(Rows(w), Normalize(op)) == Rows(MergeInto(w, op))
    ensures (forall k :: k in w ==> WellTyped(w[k])) ==>
              forall k :: k in MergeInto(w, op) ==> WellTyped(MergeInto(w, op)[k])
  {
    var n := Normalize(op);
    match MergeRow(Rows(w), n) {
      case Kept =>
        assert MergeInto(w, op) == w;
      case Written(_, _) =>
        WriterAcceptsWellTyped(n);
        assert MergeInto(w, op) == w[Row(n) := n];
        assert Rows(w[Row(n) := n]) == Rows(w)[Row(n) := RowOf(n)];
    }
  }

  lemma {:induction false} RecordRefinesMerge(db: Db, op: Op, now: int)
    requires Inv(db) && Recordable(db, op)
    ensures MirrorIsMergeOfLog(Record(db, op, now)) && WinnersTyped(Record(db, op, now).log)
  {
    MergedAppend(db.log, LogEntry(db.lastSeq + 1, op, now));
    MergeRowRefines(Merged(OpsOf(db.log)), op);
  }

  lemma {:induction false} RecordKeepsInv(db: Db, op: Op, now: int)
    requires Inv(db) && Recordable(db, op)
    ensures Inv(Record(db, op, now))
  {
    RecordRefinesMerge(db, op, now);
    var db' := Record(db, op, now);
    forall i, j | 0 <= i < j < |db'.log|
      ensures !(db'.log[i].op.siteId == db'.log[j].op.siteId && db'.log[i].op.opSeq == db'.log[j].op.opSeq)
    {
      if j == |db.log| {
        assert db'.log[i] == db.log[i] && db.log[i] in db.log;
      }
    }
  }

  // ----- one transaction -----

  /** The log of `db'` extends that of `db`, and nothing else but the mirror differs. */
  ghost predicate Grown(db: Db, db': Db) {
    && db.log <= db'.log
    && db'.cursors == db.cursors && db'.siteId == db.siteId && db'.lastOpSeq == db.lastOpSeq
  }

  /** Every op that `log'` has beyond `log` is in `news`. */
  ghost predicate NewsFrom(log: seq<LogEntry>, log': seq<LogEntry>, news: seq<Op>) {
    forall i :: |log| <= i < |log'| ==> log'[i].op in news
  }

  /** What becomes of a pushed op: it is invalid, badly typed, or its identity is in the changelog. */
  ghost predicate Handled(log: seq<LogEntry>, op: Op) {
    Validate(op).Some? || !WellTyped(op) || Logged(log, op.siteId, op.opSeq)
  }

  /** Why an op may be turned down: it is invalid, or one of its columns has a value of the wrong type. */
  ghost predicate Faulty(op: Op, reason: Reason) {
    || Validate(op) == Some(reason)
    || (Validate(op) == None && reason.BadType? && reason.column in KnownCols(op.table) && CellOf(op, reason.column) == None)
  }

  lemma {:induction false} MalformedIsFaulty(mirror: map<RowId, MirrorRow>, op: Op)
    requires Validate(op) == None && MergeRow(mirror, Normalize(op)).Malformed?
    ensures Faulty(op, BadType(MergeRow(mirror, Normalize(op)).column))
  {
    var n := Normalize(op);
    NormalizeKeepsMeaning(op);
    UpsertReadsKnownCols(op.table);
    FirstBadFinds(UpsertOrder(n.table), n, 0);
    assert UpsertOrder(n.table)[0..] == UpsertOrder(n.table);
    var c := MergeRow(mirror, n).column;
    assert ValueOf(n, c) == ValueOf(op, c);
  }

  lemma {:induction false} LoggedGrows(log: seq<LogEntry>, log': seq<LogEntry>)
    requires log <= log'
    ensures forall s, q :: Logged(log, s, q) ==> Logged(log', s, q)
  {
    forall s, q | Logged(log, s, q)
      ensures Logged(log', s, q)
    {
      var e :| e in log && e.op.siteId == s && e.op.opSeq == q;
      assert e in log';
    }
  }

  lemma {:induction false} ApplyOpKeeps(b: Batch, site: string, op: Op, now: int)
    requires Inv(b.db)
    ensures var b' := ApplyOp(b, site, op, now);
            Inv(b'.db) && Grown(b.db, b'.db) && NewsFrom(b.db.log, b'.db.log, [op]) && Handled(b'.db.log, op)
  {
    if Validate(op).None? && !Logged(b.db.log, op.siteId, op.opSeq) && !MergeRow(b.db.mirror, Normalize(op)).Malformed? {
      RecordKeepsInv(b.db, op, now);
      RecordedIsNews(b.db, op, now);
    } else {
      RefusedIsHandled(b, op);
    }
  }

  lemma {:induction false} RecordedIsNews(db: Db, op: Op, now: int)
    ensures var log' := Record(db, op, now).log;
            Grown(db, Record(db, op, now)) && NewsFrom(db.log, log', [op]) && Handled(log', op)
  {
    var log' := Record(db, op, now).log;
    assert log'[|db.log|].op == op && log'[|db.log|] in log';
  }

  lemma {:induction false} RefusedIsHandled(b: Batch, op: Op)
    requires Validate(op).Some? || Logged(b.db.log, op.siteId, op.opSeq) || MergeRow(b.db.mirror, Normalize(op)).Malformed?
    ensures Handled(b.db.log, op)
  {
    NormalizeKeepsMeaning(op);
    WriterAcceptsWellTyped(Normalize(op));
  }

  lemma {:induction false} GrownTransitive(db: Db, mid: Db, db': Db, news: seq<Op>, more: seq<Op>)
    requires Grown(db, mid) && Grown(mid, db')
    ensures Grown(db, db')
    ensures NewsFrom(db.log, mid.log, news) && NewsFrom(mid.log, db'.log, more) ==> NewsFrom(db.log, db'.log, news + more)
    ensures forall op :: Handled(mid.log, op) ==> Handled(db'.log, op)
  {
    LoggedGrows(mid.log, db'.log);
    if NewsFrom(db.log, mid.log, news) && NewsFrom(mid.log, db'.log, more) {
      forall i | |db.log| <= i < |db'.log|
        ensures db'.log[i].op in news + more
      {
        if i < |mid.log| {
          assert db'.log[i] == mid.log[i] && mid.log[i].op in news;
        }
      }
    }
  }

  lemma {:induction false} ApplyOpsKeeps(b: Batch, site: string, ops: seq<Op>, now: int)
    requires Inv(b.db)
    ensures var b' := ApplyOps(b, site, ops, now);
            && Inv(b'.db) && Grown(b.db, b'.db) && NewsFrom(b.db.log, b'.db.log, ops)
            && forall op :: op in ops ==> Handled(b'.db.log, op)
  {
    if ops != [] {
      var front, last := ops[..|ops| - 1], ops[|ops| - 1];
      assert ops == front + [last];
      ApplyOpsKeeps(b, site, front, now);
      var mid := ApplyOps(b, site, front, now);
      ApplyOpKeeps(mid, site, last, now);
      GrownTransitive(b.db, mid.db, ApplyOp(mid, site, last, now).db, front, [last]);
    }
  }

  /** The ops a call to AuthorOps puts on the wire. */
  function Stamped(db: Db, drafts: seq<Op>, now: int): seq<Op> {
    seq(|drafts|, i requires 0 <= i < |drafts| => Stamp(db, drafts[i], db.lastOpSeq + i + 1, now))
  }

  lemma {:induction false} StampedStep(db: Db, drafts: seq<Op>, now: int)
    requires drafts != []
    ensures Stamped(db, drafts, now)
            == Stamped(db, drafts[..|drafts| - 1], now) + [Stamp(db, drafts[|drafts| - 1], db.lastOpSeq + |drafts|, now)]
  {
  }

  lemma {:induction false} AuthorOpKeeps(a: Authoring, op: Op, now: int)
    requires a.Authored? && Inv(a.db) && AuthorOp(a, op, now).Authored?
    ensures var db' := AuthorOp(a, op, now).db;
            Inv(db') && Grown(a.db, db') && OpsOf(db'.log) == OpsOf(a.db.log) + [op]
  {
    RecordKeepsInv(a.db, op, now);
  }

  /** What authoring `stamped` on top of `db` has to leave. */
  ghost predicate Appends(db: Db, db': Db, stamped: seq<Op>) {
    Inv(db') && Grown(db, db') && OpsOf(db'.log) == OpsOf(db.log) + stamped
  }

  lemma {:induction false} AppendsOneMore(db: Db, a: Authoring, stamped: seq<Op>, op: Op, now: int)
    requires a.Authored? && Appends(db, a.db, stamped) && AuthorOp(a, op, now).Authored?
    ensures Appends(db, AuthorOp(a, op, now).db, stamped + [op])
  {
    var db' := AuthorOp(a, op, now).db;
    AuthorOpKeeps(a, op, now);
    assert OpsOf(db.log) + stamped + [op] == OpsOf(db.log) + (stamped + [op]);
    GrownTransitive(db, a.db, db', [], []);
  }

  /** Authoring that is not refused appends exactly the stamped drafts, in order. */
  lemma {:induction false} AuthorAllKeeps(db: Db, drafts: seq<Op>, now: int)
    requires Inv(db) && AuthorAll(db, drafts, now).Authored?
    ensures Appends(db, AuthorAll(db, drafts, now).db, Stamped(db, drafts, now))
  {
    if drafts != [] {
      var front, last := drafts[..|drafts| - 1], drafts[|drafts| - 1];
      var mid := AuthorAll(db, front, now);
      var op := Stamp(db, last, db.lastOpSeq + |drafts|, now);
      DraftsEndWith(db, drafts, now);
      StampedStep(db, drafts, now);
      AuthorAllKeeps(db, front, now);
      LastDraft(db, drafts, mid, op, now);
      AppendsOneMore(db, mid, Stamped(db, front, now), op, now);
    }
  }

  // ----- runs -----

  lemma {:induction false} FreshInv(siteId: string)
    ensures Inv(Fresh(siteId))
  {
  }

  lemma {:induction false} StepKeepsInv(db: Db, call: Call)
    requires Inv(db)
    ensures Inv(Step(db, call)) && db.log <= Step(db, call).log && Step(db, call).siteId == db.siteId
  {
    match call {
      case Push(site, ops, now) => ApplyOpsKeeps(Batch(db, [], {}, []), site, ops, now);
      case Author(drafts, now) =>
        if AuthorAll(db, drafts, now).Authored? {
          AuthorAllKeeps(db, drafts, now);
        }
      case Pull(_, _, _) =>
    }
  }

  lemma {:induction false} RunKeepsInv(db: Db, calls: seq<Call>)
    requires Inv(db)
    ensures Inv(Run(db, calls)) && db.log <= Run(db, calls).log && Run(db, calls).siteId == db.siteId
  {
    if calls != [] {
      RunKeepsInv(db, calls[..|calls| - 1]);
      StepKeepsInv(Run(db, calls[..|calls| - 1]), calls[|calls| - 1]);
    }
  }

  /**
   After any run the mirror is the merge of the changelog: a row exists iff the log names
   it, and holds the key and the typed columns of the greatest logged op for it.
   */
  lemma {:induction false} MirrorRefinesMerge(siteId: string, calls: seq<Call>)
    ensures var db := Run(Fresh(siteId), calls);
            && db.mirror == Rows(Merged(OpsOf(db.log)))
            && IsMergeOf(Elements(OpsOf(db.log)), Merged(OpsOf(db.log)))
            && (forall k :: k in db.mirror <==> exists o :: o in OpsOf(db.log) && Row(o) == k)
            && (forall k :: k in Merged(OpsOf(db.log)) ==> WellTyped(Merged(OpsOf(db.log))[k]))
  {
    FreshInv(siteId);
    RunKeepsInv(Fresh(siteId), calls);
    MergedIsMerge(OpsOf(Run(Fresh(siteId), calls).log));
  }

  /** A row with this key was written no earlier than `o`: by its clock, then its op_seq, then its site id. */
  ghost predicate NoOlderThan(key: Key, o: Op) {
    || key.wallTs > o.wallTs
    || (key.wallTs == o.wallTs && key.opSeq > o.opSeq)
    || (key.wallTs == o.wallTs && key.opSeq == o.opSeq && forall k: nat :: !AsciiOrder.SmallerAt(key.siteId, o.siteId, k))
  }

  /** The row is what this op writes, under the op's own clock and identity. */
  ghost predicate WrittenBy(row: MirrorRow, o: Op) {
    && row.key.wallTs == o.wallTs && row.key.opSeq == o.opSeq && row.key.siteId == o.siteId
    && (forall c :: c in row.cells <==> c in KnownCols(o.table))
    && (forall c :: c in row.cells ==> CellOf(o, c) == Some(row.cells[c]))
  }

  lemma {:induction false} UnbeatenIsNoOlder(w: Op, o: Op)
    requires !Less(w, o)
    ensures NoOlderThan(KeyOf(w), o)
  {
    ClockThenSeqThenSite(w, o);
  }

  lemma {:induction false} CellsAreWritten(o: Op, n: Op)
    requires n == Normalize(o) && WellTyped(n)
    ensures WrittenBy(RowOf(n), o)
  {
    NormalizeKeepsMeaning(o);
  }

  /** After any run a logged op's row was written by a logged op, and by none that is older than it. */
  lemma {:induction false} LatestWriteIsKept(siteId: string, calls: seq<Call>, o: Op)
    requires o in OpsOf(Run(Fresh(siteId), calls).log)
    ensures var db := Run(Fresh(siteId), calls);
            && Row(o) in db.mirror && NoOlderThan(db.mirror[Row(o)].key, o)
            && exists w :: w in OpsOf(db.log) && Row(w) == Row(o) && WrittenBy(db.mirror[Row(o)], w)
  {
    MirrorRefinesMerge(siteId, calls);
    var ops := OpsOf(Run(Fresh(siteId), calls).log);
    assert o in Elements(ops);
    var n := Merged(ops)[Row(o)];
    UnbeatenIsNoOlder(n, o);
    var w := WinnerOf(Elements(ops), Merged(ops), Row(o));
    CellsAreWritten(w, n);
  }

  /** Over any run the global seqs are 1..last_seq, no identity is logged twice, and the log only grows. */
  lemma {:induction false} ChangelogIsGapFree(siteId: string, calls: seq<Call>, more: seq<Call>)
    ensures var db, db' := Run(Fresh(siteId), calls), Run(Run(Fresh(siteId), calls), more);
            SeqsAreGapFree(db) && IdentitiesUnique(db.log) && db.log <= db'.log
  {
    FreshInv(siteId);
    RunKeepsInv(Fresh(siteId), calls);
    RunKeepsInv(Run(Fresh(siteId), calls), more);
  }
}
