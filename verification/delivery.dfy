/**
 Convergence of the server: whatever the batching, order and repetition of deliveries, the
 mirror is the merge of the valid, well-typed ops that were delivered.
 */
module Delivery {
  import opened Wrappers
  import opened Ops
  import opened Reconcile
  import opened SyncState
  import opened SyncRuns

  /** The ops one call brings to the store: a device's batch, or what the server authors. */
  function Brought(db: Db, call: Call): seq<Op> {
    match call
    case Push(_, ops, _) => ops
    case Author(drafts, now) => if AuthorOps(db, drafts, now).Authored? then Stamped(db, drafts, now) else []
    case Pull(_, _, _) => []
  }

  function Delivered(db: Db, calls: seq<Call>): seq<Op> {
    if calls == [] then []
    else
      var front := calls[..|calls| - 1];
      Delivered(db, front) + Brought(Run(db, front), calls[|calls| - 1])
  }

  ghost predicate Good(op: Op) {
    Validate(op).None? && WellTyped(op)
  }

  ghost function GoodOps(ops: seq<Op>): seq<Op> {
    if ops == [] then []
    else GoodOps(ops[..|ops| - 1]) + if Good(ops[|ops| - 1]) then [ops[|ops| - 1]] else []
  }

  /** The protocol's assumption on its environment: an identity is never used for two different ops. */
  ghost predicate IdentityFixesOp(ops: seq<Op>) {
    forall a, b | a in ops && b in ops && Validate(a).None? && Validate(b).None? ::
      a.siteId == b.siteId && a.opSeq == b.opSeq ==> a == b
  }

  lemma {:induction false} GoodOpsAreThese(ops: seq<Op>)
    ensures forall op :: op in GoodOps(ops) <==> op in ops && Good(op)
  {
    if ops != [] {
      GoodOpsAreThese(ops[..|ops| - 1]);
      assert ops == ops[..|ops| - 1] + [ops[|ops| - 1]];
    }
  }

  /** The log holds only delivered ops, and every delivered op has been dealt with. */
  ghost predicate Accounted(log: seq<LogEntry>, delivered: seq<Op>) {
    && (forall e :: e in log ==> e.op in delivered)
    && (forall op :: op in delivered ==> Handled(log, op))
  }

  lemma {:induction false} StepAccounts(db: Db, call: Call, delivered: seq<Op>)
    requires Inv(db) && Accounted(db.log, delivered)
    ensures Accounted(Step(db, call).log, delivered + Brought(db, call))
  {
    var db' := Step(db, call);
    StepKeepsInv(db, call);
    LoggedGrows(db.log, db'.log);
    match call {
      case Push(site, ops, now) =>
        ApplyOpsKeeps(Batch(db, [], {}, []), site, ops, now);
        NewsAccount(db.log, db'.log, delivered, ops);
      case Author(drafts, now) =>
        if AuthorOps(db, drafts, now).Authored? {
          AuthorAllKeeps(db, drafts, now);
          AuthoredAccount(db.log, db'.log, Stamped(db, drafts, now));
          NewsAccount(db.log, db'.log, delivered, Stamped(db, drafts, now));
        }
      case Pull(_, _, _) =>
    }
  }

  lemma {:induction false} AuthoredAccount(log: seq<LogEntry>, log': seq<LogEntry>, stamped: seq<Op>)
    requires log <= log' && OpsOf(log') == OpsOf(log) + stamped
    ensures NewsFrom(log, log', stamped) && forall op :: op in stamped ==> Handled(log', op)
  {
    assert |log'| == |OpsOf(log')| == |log| + |stamped|;
    assert forall i :: |log| <= i < |log'| ==> log'[i].op == OpsOf(log')[i] == stamped[i - |log|];
    forall op | op in stamped
      ensures Handled(log', op)
    {
      var i :| 0 <= i < |stamped| && stamped[i] == op;
      assert log'[|log| + i].op == op && log'[|log| + i] in log';
    }
  }

  lemma {:induction false} NewsAccount(log: seq<LogEntry>, log': seq<LogEntry>, delivered: seq<Op>, news: seq<Op>)
    requires log <= log' && Accounted(log, delivered)
    requires NewsFrom(log, log', news) && forall op :: op in news ==> Handled(log', op)
    ensures Accounted(log', delivered + news)
  {
    LoggedGrows(log, log');
    forall e | e in log'
      ensures e.op in delivered + news
    {
      var i :| 0 <= i < |log'| && log'[i] == e;
      if i < |log| {
        assert log[i] in log;
      }
    }
  }

  lemma {:induction false} RunAccounts(db: Db, calls: seq<Call>)
    requires Inv(db) && db.log == []
    ensures Accounted(Run(db, calls).log, Delivered(db, calls))
  {
    if calls != [] {
      var front := calls[..|calls| - 1];
      RunAccounts(db, front);
      RunKeepsInv(db, front);
      StepAccounts(Run(db, front), calls[|calls| - 1], Delivered(db, front));
    }
  }

  lemma {:induction false} EntryOf(log: seq<LogEntry>, o: Op) returns (i: nat)
    requires o in OpsOf(log)
    ensures i < |log| && log[i].op == o && log[i] in log
  {
    i :| 0 <= i < |OpsOf(log)| && OpsOf(log)[i] == o;
  }

  lemma {:induction false} WinnerIsGood(log: seq<LogEntry>, delivered: seq<Op>, k: RowId) returns (o: Op)
    requires LogIsValid(log) && WinnersTyped(log) && Accounted(log, delivered) && k in Merged(OpsOf(log))
    ensures o in delivered && Good(o) && Row(o) == k && Normalize(o) == Merged(OpsOf(log))[k]
  {
    MergedIsMerge(OpsOf(log));
    o :| o in Elements(OpsOf(log)) && Row(o) == k && Normalize(o) == Merged(OpsOf(log))[k];
    NormalizeKeepsMeaning(o);
    var i := EntryOf(log, o);
  }

  lemma {:induction false} LogMergesGoodOps(log: seq<LogEntry>, delivered: seq<Op>)
    requires LogIsValid(log) && WinnersTyped(log) && Accounted(log, delivered) && IdentityFixesOp(delivered)
    ensures IsMergeOf(Elements(GoodOps(delivered)), Merged(OpsOf(log)))
  {
    var w, good := Merged(OpsOf(log)), Elements(GoodOps(delivered));
    GoodOpsAreThese(delivered);
    forall o | o in good
      ensures Row(o) in w && !Less(w[Row(o)], o)
    {
      GoodOpIsLogged(log, delivered, o);
      MergedIsMerge(OpsOf(log));
    }
    forall k | k in w
      ensures exists o :: o in good && Row(o) == k && Normalize(o) == w[k]
    {
      var o := WinnerIsGood(log, delivered, k);
      assert o in good;
    }
  }

  /** A log that accounts for the deliveries merges to the same winners as the good deliveries do. */
  lemma {:induction false} LogMergesLikeGoodOps(log: seq<LogEntry>, delivered: seq<Op>)
    requires LogIsValid(log) && WinnersTyped(log) && Accounted(log, delivered) && IdentityFixesOp(delivered)
    ensures Merged(OpsOf(log)) == Merged(GoodOps(delivered))
  {
    LogMergesGoodOps(log, delivered);
    MergedIsMerge(GoodOps(delivered));
    GoodOpsHaveDistinctKeys(delivered);
    MergeUnique(Elements(GoodOps(delivered)), Merged(OpsOf(log)), Merged(GoodOps(delivered)));
  }

  lemma {:induction false} GoodOpsHaveDistinctKeys(delivered: seq<Op>)
    requires IdentityFixesOp(delivered)
    ensures KeysDistinct(Elements(GoodOps(delivered)))
  {
    GoodOpsAreThese(delivered);
    forall x, y | x in GoodOps(delivered) && y in GoodOps(delivered) && KeyOf(x) == KeyOf(y)
      ensures x == y
    {
      assert x in delivered && y in delivered;
    }
  }

  lemma {:induction false} GoodOpIsLogged(log: seq<LogEntry>, delivered: seq<Op>, o: Op)
    requires LogIsValid(log) && Accounted(log, delivered) && IdentityFixesOp(delivered)
    requires o in delivered && Good(o)
    ensures o in OpsOf(log)
  {
    assert Handled(log, o);
    var e :| e in log && e.op.siteId == o.siteId && e.op.opSeq == o.opSeq;
    var i :| 0 <= i < |log| && log[i] == e;
    assert Validate(log[i].op).None? && e.op in delivered;
    assert OpsOf(log)[i] == o;
  }

  /** After any run the mirror is the merge of the valid, well-typed ops that were delivered. */
  lemma {:induction false} MirrorIsMergeOfDelivered(siteId: string, calls: seq<Call>)
    requires IdentityFixesOp(Delivered(Fresh(siteId), calls))
    ensures Run(Fresh(siteId), calls).mirror == Rows(Merged(GoodOps(Delivered(Fresh(siteId), calls))))
  {
    FreshInv(siteId);
    RunKeepsInv(Fresh(siteId), calls);
    RunAccounts(Fresh(siteId), calls);
    LogMergesLikeGoodOps(Run(Fresh(siteId), calls).log, Delivered(Fresh(siteId), calls));
  }

  /**
   Two runs, on two servers if you like, that were delivered the same set of ops end with the
   same mirror, however the ops were batched, ordered and repeated.
   */
  lemma {:induction false} DeliveryOrderIsIrrelevant(siteA: string, callsA: seq<Call>, siteB: string, callsB: seq<Call>)
    requires Elements(Delivered(Fresh(siteA), callsA)) == Elements(Delivered(Fresh(siteB), callsB))
    requires IdentityFixesOp(Delivered(Fresh(siteA), callsA))
    ensures Run(Fresh(siteA), callsA).mirror == Run(Fresh(siteB), callsB).mirror
  {
    var a, b := Delivered(Fresh(siteA), callsA), Delivered(Fresh(siteB), callsB);
    assert forall op :: op in a <==> op in Elements(a);
    assert forall op :: op in b <==> op in Elements(b);
    MirrorIsMergeOfDelivered(siteA, callsA);
    MirrorIsMergeOfDelivered(siteB, callsB);
    GoodOpsAreThese(a);
    GoodOpsAreThese(b);
    GoodOpsHaveDistinctKeys(a);
    assert Elements(GoodOps(a)) == Elements(GoodOps(b));
    MergeIgnoresOrderAndDuplicates(GoodOps(a), GoodOps(b));
  }

  /**
   A type error is noticed only on an op that would win: a new, badly typed op enters the
   changelog iff its row already holds a key it does not beat. So the changelog, unlike the
   mirror, depends on the order of delivery.
   */
  lemma {:induction false} BadlyTypedOpIsLoggedIffItLoses(b: Batch, site: string, op: Op, now: int)
    requires Validate(op).None? && !WellTyped(op) && !Logged(b.db.log, op.siteId, op.opSeq)
    ensures ApplyOp(b, site, op, now).db.log != b.db.log
            <==> Row(op) in b.db.mirror && !KeyLess(b.db.mirror[Row(op)].key, KeyOf(op))
    ensures ApplyOp(b, site, op, now).db.mirror == b.db.mirror
  {
    NormalizeKeepsMeaning(op);
    WriterAcceptsWellTyped(Normalize(op));
  }
}
