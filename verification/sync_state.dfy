/**
 The sync database as a value, and each store transaction as a function on it: the op
 changelog, the mirror rows with the key of the op that wrote them, one cursor row per
 device, and the server's own authoring identity.
 */
module SyncState {
  import opened Wrappers
  import opened Ops
  import opened Reconcile

  datatype LogEntry = LogEntry(globalSeq: int, op: Op, appliedAt: int)

  datatype MirrorRow = MirrorRow(key: Key, cells: map<Column, Cell>)

  datatype CursorRow = CursorRow(lastPullSeq: int, ackedOpSeq: int, updatedAt: int)

  datatype Db = Db(
    log: seq<LogEntry>, lastSeq: int,
    mirror: map<RowId, MirrorRow>,
    cursors: map<string, CursorRow>,
    siteId: string, lastOpSeq: int)

  /** A freshly migrated database. */
  function Fresh(siteId: string): Db {
    Db([], 0, map[], map[], siteId, 0)
  }

  datatype RejectedOp = RejectedOp(siteId: string, opSeq: int, reason: Reason)

  datatype ApplyResult = ApplyResult(acceptedThrough: int, rejected: seq<RejectedOp>, changedPages: seq<RowId>)

  predicate Logged(log: seq<LogEntry>, siteId: string, opSeq: int) {
    exists e :: e in log && e.op.siteId == siteId && e.op.opSeq == opSeq
  }

  // ----- one op -----

  datatype MergeOutcome = Kept | Written(row: MirrorRow, page: string) | Malformed(column: Column)

  function RowOf(op: Op): MirrorRow {
    MirrorRow(KeyOf(op), Cells(op))
  }

  /** The page whose render input a winning op may change; "" when there is none. */
  function TouchedPage(op: Op): string {
    match op.table
    case Page => op.pk
    case Stroke | TextBox => (match CellOf(op, PageId) case Some(TextCell(p)) => p case _ => "")
    case _ => ""
  }

  function MergeRow(mirror: map<RowId, MirrorRow>, n: Op): MergeOutcome {
    if Row(n) in mirror && !KeyLess(mirror[Row(n)].key, KeyOf(n)) then Kept
    else match FirstBad(UpsertOrder(n.table), n, 0)
      case Some(c) => Malformed(c)
      case None => Written(RowOf(n), TouchedPage(n))
  }

  function MirrorAfter(mirror: map<RowId, MirrorRow>, n: Op): map<RowId, MirrorRow> {
    match MergeRow(mirror, n)
    case Written(row, _) => mirror[Row(n) := row]
    case _ => mirror
  }

  function ReportPage(changed: seq<RowId>, outcome: MergeOutcome): seq<RowId> {
    if outcome.Written? && outcome.page != "" then changed + [RowId(Page, outcome.page)] else changed
  }

  function Append(db: Db, op: Op, now: int): Db {
    db.(log := db.log + [LogEntry(db.lastSeq + 1, op, now)], lastSeq := db.lastSeq + 1)
  }

  /** Merges an op into the mirror and appends it, verbatim, to the changelog. */
  function Record(db: Db, op: Op, now: int): Db {
    Append(db.(mirror := MirrorAfter(db.mirror, Normalize(op))), op, now)
  }

  // ----- a device batch -----

  datatype Batch = Batch(db: Db, rejected: seq<RejectedOp>, rejectedSeqs: set<int>, changed: seq<RowId>)

  function Reject(b: Batch, siteId: string, op: Op, reason: Reason): Batch {
    b.(rejected := b.rejected + [RejectedOp(op.siteId, op.opSeq, reason)],
       rejectedSeqs := if op.siteId == siteId then b.rejectedSeqs + {op.opSeq} else b.rejectedSeqs)
  }

  function ApplyOp(b: Batch, siteId: string, op: Op, now: int): Batch {
    match Validate(op)
    case Some(reason) => Reject(b, siteId, op, reason)
    case None =>
      if Logged(b.db.log, op.siteId, op.opSeq) then b
      else
        var outcome := MergeRow(b.db.mirror, Normalize(op));
        match outcome
        case Malformed(c) => Reject(b, siteId, op, BadType(c))
        case _ => b.(db := Record(b.db, op, now), changed := ReportPage(b.changed, outcome))
  }

  function ApplyOps(b: Batch, siteId: string, ops: seq<Op>, now: int): Batch {
    if ops == [] then b
    else ApplyOp(ApplyOps(b, siteId, ops[..|ops| - 1], now), siteId, ops[|ops| - 1], now)
  }

  /** The op_seqs of a site that are in the changelog or were rejected in this call. */
  function Settled(log: seq<LogEntry>, siteId: string, rejectedSeqs: set<int>): set<int> {
    rejectedSeqs + set e | e in log && e.op.siteId == siteId :: e.op.opSeq
  }

  function Above(s: set<int>, h: int): set<int> {
    set x | x in s && h < x
  }

  /** The walk from a high-water `h` over consecutive settled op_seqs. */
  function Water(h: int, settled: set<int>): (w: int)
    ensures h <= w
    ensures forall i :: h < i <= w ==> i in settled
    ensures w + 1 !in settled
    decreases Above(settled, h)
  {
    if h + 1 in settled then
      assert h + 1 in Above(settled, h) && h + 1 !in Above(settled, h + 1);
      Water(h + 1, settled)
    else h
  }

  function Acked(db: Db, siteId: string): int {
    if siteId in db.cursors then db.cursors[siteId].ackedOpSeq else 0
  }

  function SetAcked(db: Db, siteId: string, h: int, now: int): Db {
    var pulled := if siteId in db.cursors then db.cursors[siteId].lastPullSeq else 0;
    db.(cursors := db.cursors[siteId := CursorRow(pulled, h, now)])
  }

  function SetPulled(db: Db, siteId: string, lastPullSeq: int, now: int): Db {
    db.(cursors := db.cursors[siteId := CursorRow(lastPullSeq, Acked(db, siteId), now)])
  }

  function ApplyBatch(db: Db, siteId: string, ops: seq<Op>, now: int): (Db, ApplyResult) {
    var b := ApplyOps(Batch(db, [], {}, []), siteId, ops, now);
    var h := Water(Acked(b.db, siteId), Settled(b.db.log, siteId, b.rejectedSeqs));
    (SetAcked(b.db, siteId, h, now), ApplyResult(h, b.rejected, b.changed))
  }

  // ----- server authoring -----

  /** A server op: identity and clock are stamped here, whatever the caller put there. */
  function Stamp(db: Db, draft: Op, opSeq: int, now: int): Op {
    draft.(siteId := db.siteId, opSeq := opSeq, wallTs := now)
  }

  datatype Authoring = Refused(reason: Reason) | Authored(db: Db, changed: seq<RowId>)

  function AuthorOp(a: Authoring, op: Op, now: int): Authoring
    requires a.Authored?
  {
    match Validate(op)
    case Some(reason) => Refused(reason)
    case None =>
      var outcome := MergeRow(a.db.mirror, Normalize(op));
      if outcome.Malformed? then Refused(BadType(outcome.column))
      else if Logged(a.db.log, op.siteId, op.opSeq) then Refused(SeqTaken)
      else Authored(Record(a.db, op, now), ReportPage(a.changed, outcome))
  }

  /** Nothing is authored after a refusal. */
  function AuthorLater(a: Authoring, op: Op, now: int): Authoring {
    if a.Refused? then a else AuthorOp(a, op, now)
  }

  /** Authors every draft on top of the counter of `db`, leaving the counter itself alone. */
  function AuthorAll(db: Db, drafts: seq<Op>, now: int): Authoring {
    if drafts == [] then Authored(db, [])
    else
      AuthorLater(AuthorAll(db, drafts[..|drafts| - 1], now), Stamp(db, drafts[|drafts| - 1], db.lastOpSeq + |drafts|, now), now)
  }

  lemma {:induction false} LastDraft(db: Db, drafts: seq<Op>, a: Authoring, op: Op, now: int)
    requires drafts != [] && a.Authored? && AuthorAll(db, drafts[..|drafts| - 1], now) == a
    requires op == Stamp(db, drafts[|drafts| - 1], db.lastOpSeq + |drafts|, now)
    ensures AuthorAll(db, drafts, now) == AuthorOp(a, op, now)
  {
    DraftsEndWith(db, drafts, now);
    AfterAuthored(a, op, now);
  }

  lemma {:induction false} DraftsEndWith(db: Db, drafts: seq<Op>, now: int)
    requires drafts != []
    ensures AuthorAll(db, drafts, now)
            == AuthorLater(AuthorAll(db, drafts[..|drafts| - 1], now), Stamp(db, drafts[|drafts| - 1], db.lastOpSeq + |drafts|, now), now)
  {
  }

  lemma {:induction false} AfterAuthored(a: Authoring, op: Op, now: int)
    requires a.Authored?
    ensures AuthorLater(a, op, now) == AuthorOp(a, op, now)
  {
  }

  function AuthorOps(db: Db, drafts: seq<Op>, now: int): Authoring {
    match AuthorAll(db, drafts, now)
    case Refused(reason) => Refused(reason)
    case Authored(db', changed) => Authored(db'.(lastOpSeq := db.lastOpSeq + |drafts|), changed)
  }

  // ----- relay -----

  /** Changelog entries after a cursor that other sites authored, in ascending seq. */
  function Foreign(log: seq<LogEntry>, cursor: int, site: string): seq<LogEntry> {
    if log == [] then []
    else
      var last := log[|log| - 1];
      Foreign(log[..|log| - 1], cursor, site)
      + if last.globalSeq > cursor && last.op.siteId != site then [last] else []
  }

  function OpsOf(entries: seq<LogEntry>): seq<Op> {
    seq(|entries|, i requires 0 <= i < |entries| => entries[i].op)
  }

  function EffectiveLimit(limit: int): int {
    if limit <= 0 then 500 else limit
  }

  datatype Relay = Relay(ops: seq<Op>, cursor: int, hasMore: bool)

  function OpsSince(log: seq<LogEntry>, cursor: int, site: string, limit: int): Relay {
    var found, cap := Foreign(log, cursor, site), EffectiveLimit(limit);
    if |found| <= cap then Relay(OpsOf(found), if found == [] then cursor else found[|found| - 1].globalSeq, false)
    else Relay(OpsOf(found[..cap]), found[cap - 1].globalSeq, true)
  }
}
