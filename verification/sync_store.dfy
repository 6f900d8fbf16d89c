/** The store over the sync tables: one method per transaction, each tied to its function in SyncState. */
module SyncStore {
  import opened Wrappers
  import opened Ops
  import opened Reconcile
  import Spec = SyncState
  import opened SyncState

  class Store {
    var log: seq<LogEntry>
    var lastSeq: int
    var mirror: map<RowId, MirrorRow>
    var cursors: map<string, CursorRow>
    var siteId: string
    var lastOpSeq: int

    ghost function State(): Db
      reads this
    {
      Db(log, lastSeq, mirror, cursors, siteId, lastOpSeq)
    }

    constructor (siteId: string)
      ensures State() == Fresh(siteId)
    {
      log, lastSeq, mirror, cursors := [], 0, map[], map[];
      this.siteId, lastOpSeq := siteId, 0;
    }

    method MergeRow(n: Op) returns (outcome: MergeOutcome)
      modifies this`mirror
      ensures outcome == Spec.MergeRow(old(mirror), n)
      ensures mirror == MirrorAfter(old(mirror), n)
    {
      if Row(n) in mirror && !KeyLess(mirror[Row(n)].key, KeyOf(n)) {
        return Kept;
      }
      var bad := FirstBad(UpsertOrder(n.table), n, 0);
      if bad.Some? {
        return Malformed(bad.value);
      }
      mirror := mirror[Row(n) := RowOf(n)];
      return Written(RowOf(n), TouchedPage(n));
    }

    method AppendOp(op: Op, now: int)
      modifies this`log, this`lastSeq
      ensures State() == Append(old(State()), op, now)
    {
      lastSeq := lastSeq + 1;
      log := log + [LogEntry(lastSeq, op, now)];
    }

    method ApplyBatch(site: string, ops: seq<Op>, now: int) returns (res: ApplyResult)
      modifies this
      ensures (State(), res) == Spec.ApplyBatch(old(State()), site, ops, now)
    {
      var rejected, rejectedSeqs, changed := [], {}, [];
      ghost var start := Batch(State(), [], {}, []);
      for i := 0 to |ops|
        invariant Batch(State(), rejected, rejectedSeqs, changed) == ApplyOps(start, site, ops[..i], now)
      {
        var op := ops[i];
        assert ops[..i + 1][..i] == ops[..i];
        var reason := Validate(op);
        if reason.None? {
          if Logged(log, op.siteId, op.opSeq) {
            continue;
          }
          ghost var before := State();
          var outcome := MergeRow(Normalize(op));
          if !outcome.Malformed? {
            AppendOp(op, now);
            assert State() == Record(before, op, now);
            if outcome.Written? && outcome.page != "" {
              changed := changed + [RowId(Page, outcome.page)];
            }
            continue;
          }
          reason := Some(BadType(outcome.column));
        }
        rejected := rejected + [RejectedOp(op.siteId, op.opSeq, reason.value)];
        if op.siteId == site {
          rejectedSeqs := rejectedSeqs + {op.opSeq};
        }
      }
      assert ops[..|ops|] == ops;
      var h := AdvanceAccepted(site, rejectedSeqs, now);
      res := ApplyResult(h, rejected, changed);
    }

    method AdvanceAccepted(site: string, rejectedSeqs: set<int>, now: int) returns (h: int)
      modifies this`cursors
      ensures h == Water(Acked(old(State()), site), Settled(log, site, rejectedSeqs))
      ensures State() == SetAcked(old(State()), site, h, now)
    {
      h := if site in cursors then cursors[site].ackedOpSeq else 0;
      ghost var start, settled := h, Settled(log, site, rejectedSeqs);
      while true
        invariant Water(h, settled) == Water(start, settled)
        decreases Above(settled, h)
      {
        if h + 1 !in rejectedSeqs && !Logged(log, site, h + 1) {
          break;
        }
        assert h + 1 in settled;
        assert h + 1 in Above(settled, h) && h + 1 !in Above(settled, h + 1);
        h := h + 1;
      }
      assert h + 1 !in settled;
      var pulled := if site in cursors then cursors[site].lastPullSeq else 0;
      cursors := cursors[site := CursorRow(pulled, h, now)];
    }

    /** The body of the authoring loop: validates, merges and appends one stamped op. */
    method AuthorOp(op: Op, now: int, changed: seq<RowId>) returns (refusal: Option<Reason>, changed': seq<RowId>)
      modifies this`log, this`lastSeq, this`mirror
      ensures Spec.AuthorOp(Authored(old(State()), changed), op, now)
              == if refusal.Some? then Refused(refusal.value) else Authored(State(), changed')
    {
      changed' := changed;
      refusal := Validate(op);
      if refusal.Some? {
        return;
      }
      ghost var before := State();
      var outcome := MergeRow(Normalize(op));
      if outcome.Malformed? {
        refusal := Some(BadType(outcome.column));
      } else if Logged(log, op.siteId, op.opSeq) {
        refusal := Some(SeqTaken);
      } else {
        AppendOp(op, now);
        assert State() == Record(before, op, now);
        if outcome.Written? && outcome.page != "" {
          changed' := changed + [RowId(Page, outcome.page)];
        }
      }
    }

    /** One turn of the authoring loop that started from `start`. */
    method AuthorNext(drafts: seq<Op>, i: nat, opSeq: int, now: int, changed: seq<RowId>, ghost start: Db)
      returns (refusal: Option<Reason>, changed': seq<RowId>)
      requires i < |drafts| && siteId == start.siteId && opSeq == start.lastOpSeq + i + 1
      requires AuthorAll(start, drafts[..i], now) == Authored(State(), changed)
      modifies this`log, this`lastSeq, this`mirror
      ensures refusal.Some? ==> AuthorAll(start, drafts[..i + 1], now) == Refused(refusal.value)
      ensures refusal.None? ==> AuthorAll(start, drafts[..i + 1], now) == Authored(State(), changed')
    {
      var op := drafts[i].(siteId := siteId, opSeq := opSeq, wallTs := now);
      AuthorAllStep(start, drafts, i, Authored(State(), changed), op, now);
      refusal, changed' := AuthorOp(op, now, changed);
    }

    /** The authoring loop, up to the first refusal. */
    method AuthorDrafts(drafts: seq<Op>, now: int) returns (refusal: Option<Reason>, changed: seq<RowId>)
      modifies this`log, this`lastSeq, this`mirror
      ensures refusal.Some? ==> AuthorAll(old(State()), drafts, now) == Refused(refusal.value)
      ensures refusal.None? ==> AuthorAll(old(State()), drafts, now) == Authored(State(), changed)
    {
      ghost var start := State();
      var opSeq := lastOpSeq;
      refusal, changed := None, [];
      for i := 0 to |drafts|
        invariant AuthorAll(start, drafts[..i], now) == Authored(State(), changed)
        invariant opSeq == start.lastOpSeq + i && refusal == None
      {
        opSeq := opSeq + 1;
        refusal, changed := AuthorNext(drafts, i, opSeq, now, changed, start);
        if refusal.Some? {
          RefusalStays(start, drafts, i + 1, now);
          return;
        }
      }
      assert drafts[..|drafts|] == drafts;
    }

    /** One transaction: on a refusal every table is put back as it was. */
    method AuthorOps(drafts: seq<Op>, now: int) returns (result: Authoring)
      modifies this
      ensures result == Spec.AuthorOps(old(State()), drafts, now)
      ensures State() == if result.Authored? then result.db else old(State())
    {
      if drafts == [] {
        return Authored(Db(log, lastSeq, mirror, cursors, siteId, lastOpSeq), []);
      }
      var log0, lastSeq0, mirror0 := log, lastSeq, mirror;
      var refusal, changed := AuthorDrafts(drafts, now);
      if refusal.Some? {
        log, lastSeq, mirror := log0, lastSeq0, mirror0;
        return Refused(refusal.value);
      }
      lastOpSeq := lastOpSeq + |drafts|;
      result := Authored(Db(log, lastSeq, mirror, cursors, siteId, lastOpSeq), changed);
    }

    method OpsSince(cursor: int, excludeSite: string, limit: int) returns (relay: Relay)
      ensures relay == Spec.OpsSince(log, cursor, excludeSite, limit)
    {
      var cap := if limit <= 0 then 500 else limit;
      var found := Foreign(log, cursor, excludeSite);
      var rows := if |found| <= cap + 1 then found else found[..cap + 1];
      var ops, newCursor, hasMore := [], cursor, false;
      for i := 0 to |rows|
        invariant i <= cap
        invariant ops == OpsOf(found[..i])
        invariant newCursor == if i == 0 then cursor else found[i - 1].globalSeq
        invariant !hasMore
      {
        if |ops| == cap {
          hasMore := true;
          break;
        }
        ops := ops + [rows[i].op];
        newCursor := rows[i].globalSeq;
      }
      assert found[..|found|] == found;
      return Relay(ops, newCursor, hasMore);
    }

    method RecordCursor(site: string, lastPullSeq: int, now: int)
      modifies this`cursors
      ensures State() == SetPulled(old(State()), site, lastPullSeq, now)
    {
      var acked := if site in cursors then cursors[site].ackedOpSeq else 0;
      cursors := cursors[site := CursorRow(lastPullSeq, acked, now)];
    }
  }

  lemma {:induction false} AuthorAllStep(db: Db, drafts: seq<Op>, i: nat, a: Authoring, op: Op, now: int)
    requires i < |drafts| && a.Authored? && AuthorAll(db, drafts[..i], now) == a
    requires op == Stamp(db, drafts[i], db.lastOpSeq + i + 1, now)
    ensures AuthorAll(db, drafts[..i + 1], now) == Spec.AuthorOp(a, op, now)
  {
    var longer := drafts[..i + 1];
    assert longer[..|longer| - 1] == drafts[..i] && longer[|longer| - 1] == drafts[i];
    LastDraft(db, longer, a, op, now);
  }

  /** A batch stays refused however many drafts follow the refused one. */
  lemma {:induction false} RefusalStays(db: Db, drafts: seq<Op>, n: nat, now: int)
    requires n <= |drafts| && AuthorAll(db, drafts[..n], now).Refused?
    ensures AuthorAll(db, drafts, now) == AuthorAll(db, drafts[..n], now)
  {
    if n < |drafts| {
      assert drafts[..|drafts| - 1][..n] == drafts[..n];
      RefusalStays(db, drafts[..|drafts| - 1], n, now);
    } else {
      assert drafts[..n] == drafts;
    }
  }
}
