/**
 The relay: paging through the changelog by cursor, and the whole system of one server and
 its devices. What a device holds is always exactly the other sites' part of a prefix of the
 changelog, so devices that have caught up agree with the server and with each other.
 */
module RelayProtocol {
  import opened Ops
  import opened Reconcile
  import opened SyncState
  import opened SyncRuns

  ghost predicate GapFree(log: seq<LogEntry>) {
    forall i :: 0 <= i < |log| ==> log[i].globalSeq == i + 1
  }

  // ----- one page -----

  lemma {:induction false} ForeignAboveLog(log: seq<LogEntry>, cursor: int, site: string)
    requires GapFree(log) && |log| <= cursor
    ensures Foreign(log, cursor, site) == []
  {
    if log != [] {
      ForeignAboveLog(log[..|log| - 1], cursor, site);
    }
  }

  /** Cutting the relay at its `i`-th entry: what lies after that entry's seq, and what does not. */
  lemma {:induction false} ForeignCut(log: seq<LogEntry>, cursor: int, site: string, i: nat)
    requires GapFree(log) && i < |Foreign(log, cursor, site)|
    ensures var found := Foreign(log, cursor, site);
            var at := found[i].globalSeq;
            && cursor < at && 1 <= at <= |log|
            && Foreign(log, at, site) == found[i + 1..]
            && Foreign(log[..at], cursor, site) == found[..i + 1]
  {
    var front, last, found := log[..|log| - 1], log[|log| - 1], Foreign(log, cursor, site);
    if i == |Foreign(front, cursor, site)| {
      ForeignAboveLog(front, |log|, site);
      assert log[..|log|] == log;
      assert found[..i + 1] == found && found[i + 1..] == [];
    } else {
      ForeignCut(front, cursor, site, i);
      var at := found[i].globalSeq;
      assert log[..at] == front[..at];
    }
  }

  /** Everything foreign after `c` is what is foreign between `c` and `d`, then what is foreign after `d`. */
  lemma {:induction false} ForeignSplit(log: seq<LogEntry>, c: int, d: nat, site: string)
    requires GapFree(log) && c <= d <= |log|
    ensures Foreign(log, c, site) == Foreign(log[..d], c, site) + Foreign(log, d, site)
  {
    if d == |log| {
      assert log[..d] == log;
      ForeignAboveLog(log, d, site);
    } else {
      assert log[..|log| - 1][..d] == log[..d];
      ForeignSplit(log[..|log| - 1], c, d, site);
    }
  }

  lemma {:induction false} ForeignIsOthers(log: seq<LogEntry>, cursor: int, site: string)
    requires GapFree(log) && cursor <= 0
    ensures forall e :: e in Foreign(log, cursor, site) <==> e in log && e.op.siteId != site
  {
    if log != [] {
      ForeignIsOthers(log[..|log| - 1], cursor, site);
      assert log == log[..|log| - 1] + [log[|log| - 1]];
    }
  }

  /** The entry is another site's and lies after the cursor. */
  ghost predicate IsDue(e: LogEntry, cursor: int, site: string) {
    e.globalSeq > cursor && e.op.siteId != site
  }

  /** `idx` lists exactly the positions of the due entries, in log order. */
  ghost predicate ListsDue(log: seq<LogEntry>, cursor: int, site: string, idx: seq<nat>) {
    && (forall j, k :: 0 <= j < k < |idx| ==> idx[j] < idx[k])
    && (forall k :: 0 <= k < |idx| ==> idx[k] < |log| && IsDue(log[idx[k]], cursor, site))
    && (forall i :: 0 <= i < |log| && IsDue(log[i], cursor, site) ==> i in idx)
  }

  lemma {:induction false} OneMoreDue(front: seq<LogEntry>, last: LogEntry, cursor: int, site: string, idx: seq<nat>)
    requires ListsDue(front, cursor, site, idx)
    ensures ListsDue(front + [last], cursor, site, if IsDue(last, cursor, site) then idx + [|front|] else idx)
  {
    var log, longer := front + [last], if IsDue(last, cursor, site) then idx + [|front|] else idx;
    forall i | 0 <= i < |log| && IsDue(log[i], cursor, site)
      ensures i in longer
    {
      if i < |front| {
        assert front[i] == log[i] && i in idx;
        var k :| 0 <= k < |idx| && idx[k] == i;
        assert longer[k] == i;
      } else {
        assert longer[|idx|] == i;
      }
    }
  }

  ghost predicate ReadsAt(log: seq<LogEntry>, idx: seq<nat>, entries: seq<LogEntry>) {
    |idx| == |entries| && forall k :: 0 <= k < |idx| ==> idx[k] < |log| && entries[k] == log[idx[k]]
  }

  lemma {:induction false} ReadsOneMore(front: seq<LogEntry>, last: LogEntry, idx: seq<nat>, entries: seq<LogEntry>)
    requires ReadsAt(front, idx, entries)
    ensures ReadsAt(front + [last], idx, entries + [])
    ensures ReadsAt(front + [last], idx + [|front|], entries + [last])
  {
  }

  lemma {:induction false} ForeignStep(log: seq<LogEntry>, cursor: int, site: string)
    requires log != []
    ensures var front, last := log[..|log| - 1], log[|log| - 1];
            Foreign(log, cursor, site) == Foreign(front, cursor, site) + if IsDue(last, cursor, site) then [last] else []
  {
  }

  lemma {:induction false} ForeignIsDue(log: seq<LogEntry>, cursor: int, site: string) returns (idx: seq<nat>)
    ensures ListsDue(log, cursor, site, idx) && ReadsAt(log, idx, Foreign(log, cursor, site))
  {
    idx := [];
    if log != [] {
      var front, last := log[..|log| - 1], log[|log| - 1];
      assert log == front + [last];
      idx := ForeignIsDue(front, cursor, site);
      ForeignStep(log, cursor, site);
      OneMoreDue(front, last, cursor, site, idx);
      ReadsOneMore(front, last, idx, Foreign(front, cursor, site));
      idx := if IsDue(last, cursor, site) then idx + [|front|] else idx;
    }
  }

  /**
   A page by the positions of its ops in the changelog: the due entries after the cursor in log
   order, cut off at the limit (500 if none is asked for), with the seq of the last one taken as
   the new cursor and `hasMore` when any is left.
   */
  lemma {:induction false} PageTakesDueEntries(log: seq<LogEntry>, cursor: int, site: string, limit: int) returns (idx: seq<nat>, n: nat)
    ensures ListsDue(log, cursor, site, idx)
    ensures var page, cap := OpsSince(log, cursor, site, limit), if limit <= 0 then 500 else limit;
            && n == (if |idx| <= cap then |idx| else cap) && |page.ops| == n
            && (forall k :: 0 <= k < n ==> page.ops[k] == log[idx[k]].op)
            && page.cursor == (if n == 0 then cursor else log[idx[n - 1]].globalSeq)
            && (page.hasMore <==> n < |idx|)
  {
    idx := ForeignIsDue(log, cursor, site);
    var cap := EffectiveLimit(limit);
    n := if |idx| <= cap then |idx| else cap;
  }

  lemma {:induction false} OpsOfConcat(a: seq<LogEntry>, b: seq<LogEntry>)
    ensures OpsOf(a + b) == OpsOf(a) + OpsOf(b)
  {
  }

  /**
   One page, taken from a cursor inside the log: it holds precisely the foreign ops up to the
   cursor it answers, at most the limit, and `hasMore` says whether any foreign op lies beyond.
   */
  lemma {:induction false} PageIsNextStretch(log: seq<LogEntry>, cursor: nat, site: string, limit: int)
    requires GapFree(log) && cursor <= |log|
    ensures var page := OpsSince(log, cursor, site, limit);
            && cursor <= page.cursor <= |log|
            && |page.ops| <= EffectiveLimit(limit)
            && OpsOf(Foreign(log[..page.cursor], 0, site)) == OpsOf(Foreign(log[..cursor], 0, site)) + page.ops
            && (page.hasMore <==> Foreign(log, page.cursor, site) != [])
            && (page.hasMore ==> page.ops != [])
  {
    var found, page := Foreign(log, cursor, site), OpsSince(log, cursor, site, limit);
    if found == [] {
      assert page.ops == [];
    } else {
      var i := PageEndsAt(log, cursor, site, limit);
      ForeignCut(log, cursor, site, i);
      var shorter := log[..page.cursor];
      assert shorter[..cursor] == log[..cursor];
      ForeignSplit(shorter, 0, cursor, site);
      OpsOfConcat(Foreign(log[..cursor], 0, site), found[..i + 1]);
    }
  }

  /** The last entry that a page takes, when there is any. */
  lemma {:induction false} PageEndsAt(log: seq<LogEntry>, cursor: int, site: string, limit: int) returns (i: nat)
    requires Foreign(log, cursor, site) != []
    ensures var found, page := Foreign(log, cursor, site), OpsSince(log, cursor, site, limit);
            && i < |found| && i < EffectiveLimit(limit)
            && page == Relay(OpsOf(found[..i + 1]), found[i].globalSeq, i + 1 < |found|)
  {
    var found, cap := Foreign(log, cursor, site), EffectiveLimit(limit);
    i := if |found| <= cap then |found| - 1 else cap - 1;
    assert found[..|found|] == found;
  }

  lemma {:induction false} PagingAdvances(log: seq<LogEntry>, cursor: int, site: string, limit: int)
    requires GapFree(log) && OpsSince(log, cursor, site, limit).hasMore
    ensures var found, page := Foreign(log, cursor, site), OpsSince(log, cursor, site, limit);
            && Foreign(log, page.cursor, site) == found[EffectiveLimit(limit)..]
            && page.ops == OpsOf(found[..EffectiveLimit(limit)])
  {
    ForeignCut(log, cursor, site, EffectiveLimit(limit) - 1);
  }

  /** Asking again with the answered cursor until there is no more. */
  ghost function Drain(log: seq<LogEntry>, cursor: int, site: string, limit: int): seq<Op>
    requires GapFree(log)
    decreases |Foreign(log, cursor, site)|
  {
    var page := OpsSince(log, cursor, site, limit);
    if page.hasMore then
      PagingAdvances(log, cursor, site, limit);
      page.ops + Drain(log, page.cursor, site, limit)
    else page.ops
  }

  /** Paging ends, and yields the foreign ops after the cursor, in order, each once, for every limit and cursor. */
  lemma {:induction false} DrainIsWholeSuffix(log: seq<LogEntry>, cursor: int, site: string, limit: int)
    requires GapFree(log)
    ensures Drain(log, cursor, site, limit) == OpsOf(Foreign(log, cursor, site))
    decreases |Foreign(log, cursor, site)|
  {
    var found, page, cap := Foreign(log, cursor, site), OpsSince(log, cursor, site, limit), EffectiveLimit(limit);
    if page.hasMore {
      PagingAdvances(log, cursor, site, limit);
      DrainIsWholeSuffix(log, page.cursor, site, limit);
      OpsOfConcat(found[..cap], found[cap..]);
      assert found[..cap] + found[cap..] == found;
    }
  }

  /**
   The protocol asks the server to answer its own last_seq to a cursor that lies above it; the
   store echoes the cursor instead. The answered cursor is inside the log iff the asked one is,
   and a device left above the log is not sent the ops that are appended below its cursor.
   */
  lemma {:induction false} CursorAboveLogIsEchoed(log: seq<LogEntry>, cursor: int, site: string, limit: int)
    requires GapFree(log)
    ensures OpsSince(log, cursor, site, limit).cursor <= |log| <==> cursor <= |log|
    ensures |log| < cursor ==> OpsSince(log, cursor, site, limit) == Relay([], cursor, false)
  {
    var found := Foreign(log, cursor, site);
    if |log| < cursor {
      ForeignAboveLog(log, cursor, site);
    } else if found != [] {
      ForeignCut(log, cursor, site, if |found| <= EffectiveLimit(limit) then |found| - 1 else EffectiveLimit(limit) - 1);
    }
  }

  // ----- the system -----

  /** A device: the ops it authored, and what it has pulled under which cursor. */
  datatype Device = Device(own: seq<Op>, cursor: int, received: seq<Op>)

  datatype Net = Net(db: Db, devices: map<string, Device>)

  datatype Event =
    | Write(site: string, op: Op)
    | Exchange(site: string, ops: seq<Op>, limit: int, now: int, answered: bool)
    | ServerAuthors(drafts: seq<Op>, now: int)

  /** A batch, the relay page after it and the cursor bookkeeping: one accepted request. */
  function Exchanged(db: Db, site: string, ops: seq<Op>, cursor: int, limit: int, now: int): (Db, ApplyResult, Relay) {
    var (db1, res) := ApplyBatch(db, site, ops, now);
    var page := OpsSince(db1.log, cursor, site, limit);
    (SetPulled(db1, site, page.cursor, now), res, page)
  }

  /**
   The page of an exchange is taken from the changelog as the exchange leaves it, ops of the same
   request included; its cursor is what the server records for the device.
   */
  lemma {:induction false} AnswerReadsFinalLog(db: Db, site: string, ops: seq<Op>, cursor: int, limit: int, now: int) returns (idx: seq<nat>, n: nat)
    ensures var (db', res, page) := Exchanged(db, site, ops, cursor, limit, now);
            && db'.log == ApplyBatch(db, site, ops, now).0.log && res == ApplyBatch(db, site, ops, now).1
            && ListsDue(db'.log, cursor, site, idx) && n <= |idx|
            && |page.ops| == n && (forall k :: 0 <= k < n ==> page.ops[k] == db'.log[idx[k]].op)
            && (page.hasMore <==> n < |idx|)
            && site in db'.cursors && db'.cursors[site] == CursorRow(page.cursor, res.acceptedThrough, now)
  {
    idx, n := PageTakesDueEntries(ApplyBatch(db, site, ops, now).0.log, cursor, site, limit);
  }

  /** An honest device writes and sends ops under its own site id only. */
  ghost predicate Allowed(net: Net, e: Event) {
    match e
    case Write(site, op) => site in net.devices && op.siteId == site
    case Exchange(site, ops, _, _, _) => site in net.devices && forall op :: op in ops ==> op in net.devices[site].own
    case ServerAuthors(_, _) => true
  }

  /** The device applies a page and adopts its cursor. */
  function Adopt(d: Device, page: Relay): Device {
    d.(cursor := page.cursor, received := d.received + page.ops)
  }

  /** An answer that is lost (`answered` false) changes the server but not the device. */
  function Next(net: Net, e: Event): Net {
    match e
    case Write(site, op) =>
      if site !in net.devices then net
      else
        var d := net.devices[site];
        net.(devices := net.devices[site := d.(own := d.own + [op])])
    case Exchange(site, ops, limit, now, answered) =>
      if site !in net.devices then net
      else
        var d := net.devices[site];
        var (db', _, page) := Exchanged(net.db, site, ops, d.cursor, limit, now);
        Net(db', net.devices[site := if answered then Adopt(d, page) else d])
    case ServerAuthors(drafts, now) => net.(db := Step(net.db, Author(drafts, now)))
  }

  function NetRun(net: Net, events: seq<Event>): Net {
    if events == [] then net else Next(NetRun(net, events[..|events| - 1]), events[|events| - 1])
  }

  ghost predicate Honest(net: Net, events: seq<Event>) {
    forall i :: 0 <= i < |events| ==> Allowed(NetRun(net, events[..i]), events[i])
  }

  /** A server with an empty changelog and devices that have neither written nor pulled anything. */
  ghost predicate Start(net: Net) {
    && (exists id :: net.db == Fresh(id))
    && net.db.siteId !in net.devices
    && forall s :: s in net.devices ==> net.devices[s] == Device([], 0, [])
  }

  /** What a device holds of the changelog. */
  ghost predicate DeviceInv(log: seq<LogEntry>, site: string, d: Device) {
    && 0 <= d.cursor <= |log|
    && d.received == OpsOf(Foreign(log[..d.cursor], 0, site))
    && (forall op :: op in d.own ==> op.siteId == site)
    && (forall i :: 0 <= i < |log| && log[i].op.siteId == site ==> log[i].op in d.own)
  }

  ghost predicate NetInv(net: Net) {
    Inv(net.db) && net.db.siteId !in net.devices && DevicesInv(net.db.log, net.devices)
  }

  /** A device's view is unaffected by log growth that brings none of its own ops but known ones. */
  lemma {:induction false} DeviceInvGrows(log: seq<LogEntry>, log': seq<LogEntry>, site: string, d: Device, news: seq<Op>)
    requires DeviceInv(log, site, d) && log <= log' && NewsFrom(log, log', news)
    requires forall op :: op in news && op.siteId == site ==> op in d.own
    ensures DeviceInv(log', site, d)
  {
    assert log'[..d.cursor] == log[..d.cursor];
    forall i | 0 <= i < |log'| && log'[i].op.siteId == site
      ensures log'[i].op in d.own
    {
      if i < |log| {
        assert log'[i] == log[i];
      }
    }
  }

  lemma {:induction false} DevicePulls(log: seq<LogEntry>, site: string, d: Device, limit: int)
    requires GapFree(log) && DeviceInv(log, site, d)
    ensures DeviceInv(log, site, Adopt(d, OpsSince(log, d.cursor, site, limit)))
  {
    PageIsNextStretch(log, d.cursor, site, limit);
  }

  lemma {:induction false} DevicesSurviveGrowth(log: seq<LogEntry>, log': seq<LogEntry>, devices: map<string, Device>, news: seq<Op>)
    requires DevicesInv(log, devices) && log <= log' && NewsFrom(log, log', news)
    requires forall op :: op in news && op.siteId in devices ==> op in devices[op.siteId].own
    ensures DevicesInv(log', devices)
  {
    forall s | s in devices
      ensures DeviceInv(log', s, devices[s])
    {
      DeviceInvGrows(log, log', s, devices[s], news);
    }
  }

  ghost predicate DevicesInv(log: seq<LogEntry>, devices: map<string, Device>) {
    forall s :: s in devices ==> DeviceInv(log, s, devices[s])
  }

  lemma {:induction false} ExchangeKeepsDevices(log: seq<LogEntry>, log': seq<LogEntry>, devices: map<string, Device>, e: Event)
    requires GapFree(log') && DevicesInv(log, devices) && log <= log'
    requires e.Exchange? && e.site in devices && NewsFrom(log, log', e.ops)
    requires forall op :: op in e.ops ==> op in devices[e.site].own
    ensures DevicesInv(log', devices)
    ensures DevicesInv(log', devices[e.site := Adopt(devices[e.site], OpsSince(log', devices[e.site].cursor, e.site, e.limit))])
  {
    assert DeviceInv(log, e.site, devices[e.site]);
    DevicesSurviveGrowth(log, log', devices, e.ops);
    DevicePulls(log', e.site, devices[e.site], e.limit);
  }

  lemma {:induction false} ExchangeKeepsNetInv(net: Net, e: Event)
    requires NetInv(net) && Allowed(net, e) && e.Exchange?
    ensures NetInv(Next(net, e))
  {
    ApplyOpsKeeps(Batch(net.db, [], {}, []), e.site, e.ops, e.now);
    ExchangeKeepsDevices(net.db.log, Next(net, e).db.log, net.devices, e);
    KeepDevice(net.devices, e.site);
  }

  lemma {:induction false} KeepDevice(devices: map<string, Device>, site: string)
    requires site in devices
    ensures devices[site := devices[site]] == devices
  {
  }

  lemma {:induction false} StampedAreNews(log: seq<LogEntry>, log': seq<LogEntry>, stamped: seq<Op>)
    requires log <= log' && OpsOf(log') == OpsOf(log) + stamped
    ensures NewsFrom(log, log', stamped)
  {
    forall i | |log| <= i < |log'|
      ensures log'[i].op in stamped
    {
      assert |OpsOf(log')| == |log'| && OpsOf(log')[i] == log'[i].op == stamped[i - |log|];
    }
  }

  lemma {:induction false} AuthoringKeepsDevices(db: Db, log': seq<LogEntry>, devices: map<string, Device>, drafts: seq<Op>, now: int)
    requires DevicesInv(db.log, devices) && db.siteId !in devices
    requires db.log <= log' && OpsOf(log') == OpsOf(db.log) + Stamped(db, drafts, now)
    ensures DevicesInv(log', devices)
  {
    StampedAreNews(db.log, log', Stamped(db, drafts, now));
    DevicesSurviveGrowth(db.log, log', devices, Stamped(db, drafts, now));
  }

  lemma {:induction false} AuthorStepKeepsDevices(db: Db, devices: map<string, Device>, drafts: seq<Op>, now: int)
    requires Inv(db) && DevicesInv(db.log, devices) && db.siteId !in devices
    ensures DevicesInv(Step(db, Author(drafts, now)).log, devices)
  {
    if AuthorAll(db, drafts, now).Authored? {
      AuthorAllKeeps(db, drafts, now);
      AuthoringKeepsDevices(db, AuthorAll(db, drafts, now).db.log, devices, drafts, now);
    }
  }

  lemma {:induction false} ServerAuthorsKeepsNetInv(net: Net, drafts: seq<Op>, now: int)
    requires NetInv(net)
    ensures NetInv(Next(net, ServerAuthors(drafts, now)))
  {
    StepKeepsInv(net.db, Author(drafts, now));
    AuthorStepKeepsDevices(net.db, net.devices, drafts, now);
  }

  lemma {:induction false} NextKeepsNetInv(net: Net, e: Event)
    requires NetInv(net) && Allowed(net, e)
    ensures NetInv(Next(net, e))
  {
    match e {
      case Write(_, _) =>
      case Exchange(_, _, _, _, _) => ExchangeKeepsNetInv(net, e);
      case ServerAuthors(drafts, now) => ServerAuthorsKeepsNetInv(net, drafts, now);
    }
  }

  lemma {:induction false} NetRunKeepsInv(net: Net, events: seq<Event>)
    requires Start(net) && Honest(net, events)
    ensures NetInv(NetRun(net, events))
  {
    if events == [] {
      FreshInv(net.db.siteId);
      assert net.db.log[..0] == [];
    } else {
      var front := events[..|events| - 1];
      forall i | 0 <= i < |front|
        ensures Allowed(NetRun(net, front[..i]), front[i])
      {
        assert front[..i] == events[..i];
      }
      NetRunKeepsInv(net, front);
      assert Allowed(NetRun(net, events[..|front|]), events[|front|]);
      NextKeepsNetInv(NetRun(net, front), events[|events| - 1]);
    }
  }

  /** No foreign op lies beyond the device's cursor: what `hasMore` false has just told it. */
  ghost predicate CaughtUp(net: Net, site: string)
    requires site in net.devices
  {
    Foreign(net.db.log, net.devices[site].cursor, site) == []
  }

  ghost predicate AllOwnLogged(net: Net, site: string)
    requires site in net.devices
  {
    forall op :: op in net.devices[site].own ==> op in OpsOf(net.db.log)
  }

  /** Relay safety: over any honest run, lost answers included, a device holds exactly the others' ops up to its cursor. */
  lemma {:induction false} RelayIsExact(net: Net, events: seq<Event>, site: string)
    requires Start(net) && Honest(net, events) && site in NetRun(net, events).devices
    ensures var now := NetRun(net, events);
            && 0 <= now.devices[site].cursor <= |now.db.log|
            && now.devices[site].received == OpsOf(Foreign(now.db.log[..now.devices[site].cursor], 0, site))
  {
    NetRunKeepsInv(net, events);
  }

  lemma {:induction false} ForeignOpsAre(log: seq<LogEntry>, site: string)
    requires GapFree(log)
    ensures forall op :: op in OpsOf(Foreign(log, 0, site)) <==> op in OpsOf(log) && op.siteId != site
  {
    var others := Foreign(log, 0, site);
    ForeignIsOthers(log, 0, site);
    forall op | op in OpsOf(log) && op.siteId != site
      ensures op in OpsOf(others)
    {
      var i :| 0 <= i < |OpsOf(log)| && OpsOf(log)[i] == op;
      assert log[i] in others;
      var j :| 0 <= j < |others| && others[j] == log[i];
      assert OpsOf(others)[j] == op;
    }
    forall op | op in OpsOf(others)
      ensures op in OpsOf(log) && op.siteId != site
    {
      var j :| 0 <= j < |OpsOf(others)| && OpsOf(others)[j] == op;
      assert others[j] in others && others[j] in log;
      var i :| 0 <= i < |log| && log[i] == others[j];
      assert OpsOf(log)[i] == op;
    }
  }

  lemma {:induction false} CaughtUpHoldsLog(log: seq<LogEntry>, site: string, d: Device)
    requires GapFree(log) && DeviceInv(log, site, d) && Foreign(log, d.cursor, site) == []
    requires forall op :: op in d.own ==> op in OpsOf(log)
    ensures Elements(d.own + d.received) == Elements(OpsOf(log))
  {
    ForeignSplit(log, 0, d.cursor, site);
    ForeignOpsAre(log, site);
    assert Foreign(log, 0, site) == Foreign(log[..d.cursor], 0, site);
    forall op | op in OpsOf(log)
      ensures op in d.own + d.received
    {
      if op.siteId == site {
        var i :| 0 <= i < |OpsOf(log)| && OpsOf(log)[i] == op;
        assert log[i].op == op;
      }
    }
  }

  lemma {:induction false} LogKeysDistinct(log: seq<LogEntry>)
    requires IdentitiesUnique(log)
    ensures KeysDistinct(Elements(OpsOf(log)))
  {
    var ops := OpsOf(log);
    forall a, b | a in ops && b in ops && KeyOf(a) == KeyOf(b)
      ensures a == b
    {
      var i :| 0 <= i < |ops| && ops[i] == a;
      var j :| 0 <= j < |ops| && ops[j] == b;
      assert log[i].op == a && log[j].op == b;
    }
  }

  /**
   Convergence: after any honest run, a device that has caught up and whose own ops are all in
   the changelog merges what it holds to exactly the server's mirror.
   */
  lemma {:induction false} CaughtUpDeviceAgreesWithServer(net: Net, events: seq<Event>, site: string)
    requires Start(net) && Honest(net, events)
    requires site in NetRun(net, events).devices
    requires CaughtUp(NetRun(net, events), site) && AllOwnLogged(NetRun(net, events), site)
    ensures var now := NetRun(net, events);
            Rows(Merged(now.devices[site].own + now.devices[site].received)) == now.db.mirror
  {
    NetRunKeepsInv(net, events);
    var now := NetRun(net, events);
    CaughtUpHoldsLog(now.db.log, site, now.devices[site]);
    LogKeysDistinct(now.db.log);
    MergeIgnoresOrderAndDuplicates(OpsOf(now.db.log), now.devices[site].own + now.devices[site].received);
  }

  /** Any two such devices therefore agree, whatever they wrote and however their pulls interleaved. */
  lemma {:induction false} CaughtUpDevicesAgree(net: Net, events: seq<Event>, a: string, b: string)
    requires Start(net) && Honest(net, events)
    requires a in NetRun(net, events).devices && b in NetRun(net, events).devices
    requires CaughtUp(NetRun(net, events), a) && AllOwnLogged(NetRun(net, events), a)
    requires CaughtUp(NetRun(net, events), b) && AllOwnLogged(NetRun(net, events), b)
    ensures var devices := NetRun(net, events).devices;
            Rows(Merged(devices[a].own + devices[a].received)) == Rows(Merged(devices[b].own + devices[b].received))
  {
    CaughtUpDeviceAgreesWithServer(net, events, a);
    CaughtUpDeviceAgreesWithServer(net, events, b);
  }

  /** The answer that says there is no more leaves the device caught up. */
  lemma {:induction false} NoMoreMeansCaughtUp(net: Net, e: Event)
    requires NetInv(net) && Allowed(net, e) && e.Exchange? && e.answered
    ensures var net' := Next(net, e);
            CaughtUp(net', e.site) <==> !Exchanged(net.db, e.site, e.ops, net.devices[e.site].cursor, e.limit, e.now).2.hasMore
  {
    ApplyOpsKeeps(Batch(net.db, [], {}, []), e.site, e.ops, e.now);
    PageIsNextStretch(Next(net, e).db.log, net.devices[e.site].cursor, e.site, e.limit);
  }
}
