/** The request handler: envelope checks, then batch, relay page and cursor bookkeeping, in that order. */
module SyncService {
  import opened Ops
  import opened SyncState
  import RelayProtocol
  import SyncStore
  import Ulid

  const PROTOCOL_VERSION := 1

  /** The hash of the current column set, and the prior one that is still accepted. */
  const SCHEMA_HASH := "724411eb845ad3487393a77cb5559690e69332c35fdb5ee3e85c1767bf71f3fe"
  const SCHEMA_HASH_V2 := "bc1953e2b85e766a572329e7023b4582b768094b4d27e28a632e21bedb776874"

  predicate AcceptsSchemaHash(h: string) {
    h == SCHEMA_HASH || h == SCHEMA_HASH_V2
  }

  datatype Request = Request(protocolVersion: int, schemaHash: string, siteId: string, cursor: int, ops: seq<Op>)

  datatype Response = Response(
    protocolVersion: int, acceptedThrough: int, rejected: seq<RejectedOp>, ops: seq<Op>, cursor: int, hasMore: bool)

  datatype Answer = UnsupportedVersion | SchemaMismatch | BadRequest | Answered(response: Response)

  class Service {
    const store: SyncStore.Store
    const batchLimit: int

    constructor (store: SyncStore.Store, batchLimit: int)
      ensures this.store == store && this.batchLimit == EffectiveLimit(batchLimit)
    {
      this.store := store;
      this.batchLimit := if batchLimit <= 0 then 500 else batchLimit;
    }

    /** `notified` are the pages handed to the bridge; it is not called when there are none. */
    method Sync(req: Request, now: int) returns (answer: Answer, notified: seq<RowId>)
      modifies store
      ensures answer == UnsupportedVersion <==> req.protocolVersion != PROTOCOL_VERSION
      ensures answer == SchemaMismatch <==>
              req.protocolVersion == PROTOCOL_VERSION && !AcceptsSchemaHash(req.schemaHash)
      ensures answer.Answered? <==>
              && req.protocolVersion == PROTOCOL_VERSION && AcceptsSchemaHash(req.schemaHash)
              && Ulid.IsUlid(req.siteId) && req.cursor >= 0
      ensures !answer.Answered? ==> store.State() == old(store.State()) && notified == []
      ensures answer.Answered? ==>
              var (db', res, page) :=
                RelayProtocol.Exchanged(old(store.State()), req.siteId, req.ops, req.cursor, batchLimit, now);
              && store.State() == db' && notified == res.changedPages
              && answer.response
                 == Response(PROTOCOL_VERSION, res.acceptedThrough, res.rejected, page.ops, page.cursor, page.hasMore)
    {
      notified := [];
      if req.protocolVersion != PROTOCOL_VERSION {
        return UnsupportedVersion, [];
      }
      if !AcceptsSchemaHash(req.schemaHash) {
        return SchemaMismatch, [];
      }
      if !Ulid.IsUlid(req.siteId) || req.cursor < 0 {
        return BadRequest, [];
      }
      var res := store.ApplyBatch(req.siteId, req.ops, now);
      var page := store.OpsSince(req.cursor, req.siteId, batchLimit);
      store.RecordCursor(req.siteId, page.cursor, now);
      notified := res.changedPages;
      answer := Answered(Response(PROTOCOL_VERSION, res.acceptedThrough, res.rejected, page.ops, page.cursor, page.hasMore));
    }
  }
}
