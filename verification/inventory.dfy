/**
 Server-side edits of the mirrored notes: deleting a notebook with its content and editing a
 text box. Both re-emit whole rows through the authoring path, so every column that is not
 meant to change has to survive the trip from mirror cell to wire value and back.
 */
module Inventory {
  import opened Wrappers
  import opened Ops
  import opened Reconcile
  import opened SyncState
  import opened SyncRuns
  import opened Authoring
  import SyncStore
  import Base64
  import Ulid

  type Mirror = map<RowId, MirrorRow>

  // ----- reading rows -----

  predicate Live(mirror: Mirror, k: RowId) {
    k in mirror && DeletedAt in mirror[k].cells && mirror[k].cells[DeletedAt] == NullCell
  }

  /** Row `k` exists and its column `c` holds the text `s`. */
  predicate HasText(mirror: Mirror, k: RowId, c: Column, s: string) {
    k in mirror && c in mirror[k].cells && mirror[k].cells[c] == TextCell(s)
  }

  function LivePageIds(mirror: Mirror, notebookId: string): set<string> {
    set k | k in mirror && k.table == Page && Live(mirror, k) && HasText(mirror, k, NotebookId, notebookId) :: k.pk
  }

  predicate OnPage(mirror: Mirror, k: RowId, pages: set<string>) {
    k in mirror && PageId in mirror[k].cells && mirror[k].cells[PageId].TextCell? && mirror[k].cells[PageId].s in pages
  }

  function LiveStrokeIds(mirror: Mirror, pages: set<string>): set<string> {
    set k | k in mirror && k.table == Stroke && Live(mirror, k) && OnPage(mirror, k, pages) :: k.pk
  }

  /** The text boxes listed for a notebook: live boxes on its live pages. */
  function ListedTextBoxes(mirror: Mirror, notebookId: string): set<string> {
    set k | k in mirror && k.table == TextBox && Live(mirror, k)
            && OnPage(mirror, k, LivePageIds(mirror, notebookId)) :: k.pk
  }

  // ----- re-emitting rows -----

  /** How a mirror cell is written back as the wire value of a column. */
  function Wire(kind: Kind, cell: Cell): Value {
    match kind
    case IntKind => if cell.IntCell? then Num(cell.n) else Num(0)
    case NullIntKind => if cell.IntCell? then Num(cell.n) else Null
    case TextKind => if cell.TextCell? then Str(cell.s) else Str("")
    case NullTextKind => if cell.TextCell? then Str(cell.s) else Null
    case BytesKind => if cell.BytesCell? then Str(Base64.Encode(cell.b)) else Str("")
  }

  /** A full-row upsert of row `k` that keeps every column but `c`. */
  function Rewrite(mirror: Mirror, k: RowId, c: Column, v: Value): Op
    requires k in mirror
  {
    var cells := mirror[k].cells;
    Op(k.table, k.pk, "", 0, 0,
       map d | d in KnownCols(k.table) :: if d == c then v else Wire(KindOf(d), if d in cells then cells[d] else NullCell))
  }

  /** The tombstone of a page's recognised text: its content is blanked. */
  function BlankText(pk: string, now: int): Op {
    Op(PageTextFromServer, pk, "", 0, 0,
       map[CreatedAt := Num(now), DeletedAt := Num(now), Model := Null, OcrAt := Num(0), Text := Str("")])
  }

  function Tombstone(mirror: Mirror, k: RowId, now: int): Op
    requires k in mirror || k.table == PageTextFromServer
  {
    if k.table == PageTextFromServer then BlankText(k.pk, now) else Rewrite(mirror, k, DeletedAt, Num(now))
  }

  ghost predicate CellFits(kind: Kind, cell: Cell) {
    match kind
    case IntKind => cell.IntCell?
    case NullIntKind => cell.IntCell? || cell.NullCell?
    case TextKind => cell.TextCell?
    case NullTextKind => cell.TextCell? || cell.NullCell?
    case BytesKind => cell.BytesCell?
  }

  /** Row `k` has exactly its table's columns, each holding a value of its type. */
  ghost predicate RowTyped(mirror: Mirror, k: RowId) {
    && k in mirror && !k.table.OtherTable? && Ulid.IsUlid(k.pk)
    && (forall c :: c in mirror[k].cells <==> c in KnownCols(k.table))
    && (forall c :: c in mirror[k].cells ==> CellFits(KindOf(c), mirror[k].cells[c]))
  }

  /** A cell of a column's type survives the trip to the wire and back. */
  lemma {:induction false} WireRoundTrip(kind: Kind, cell: Cell)
    requires CellFits(kind, cell)
    ensures Coerce(kind, Wire(kind, cell)) == Some(cell)
  {
    if kind.BytesKind? {
      Base64.RoundTrip(cell.b);
    }
  }

  /** Reading a value at a type undoes writing: it gives a cell exactly when the value is that cell's wire form. */
  lemma {:induction false} CoerceInvertsWire(kind: Kind, v: Value, cell: Cell)
    ensures Coerce(kind, v) == Some(cell) <==>
            CellFits(kind, cell) && if kind.BytesKind? then v.Str? && Base64.Decode(v.s) == Some(cell.b) else v == Wire(kind, cell)
  {
  }

  lemma {:induction false} CoercedCellFits(kind: Kind, v: Value)
    requires Coerce(kind, v).Some?
    ensures CellFits(kind, Coerce(kind, v).value)
  {
  }

  lemma {:induction false} WriterOf(db: Db, k: RowId) returns (op: Op)
    requires Inv(db) && k in db.mirror
    ensures Validate(op).None? && WellTyped(op) && Row(op) == k && db.mirror[k].cells == Cells(op)
  {
    var w := Merged(OpsOf(db.log));
    MergedIsMerge(OpsOf(db.log));
    op :| op in Elements(OpsOf(db.log)) && Row(op) == k && Normalize(op) == w[k];
    var i :| 0 <= i < |OpsOf(db.log)| && OpsOf(db.log)[i] == op;
    assert Validate(db.log[i].op).None?;
    NormalizeKeepsMeaning(op);
  }

  lemma {:induction false} CellsFit(op: Op, c: Column)
    requires WellTyped(op) && c in KnownCols(op.table)
    ensures c in Cells(op) && CellFits(KindOf(c), Cells(op)[c])
  {
    CoercedCellFits(KindOf(c), ValueOf(op, c));
  }

  lemma {:induction false} RowsAreTyped(db: Db, k: RowId)
    requires Inv(db) && k in db.mirror
    ensures RowTyped(db.mirror, k)
  {
    var op := WriterOf(db, k);
    ValidateAccepts(op);
    forall c | c in KnownCols(k.table)
      ensures CellFits(KindOf(c), db.mirror[k].cells[c])
    {
      CellsFit(op, c);
    }
  }

  /** A rewritten row is a complete draft that differs from the mirror row in column `c` only. */
  lemma {:induction false} RewriteChangesOneColumn(mirror: Mirror, k: RowId, c: Column, v: Value)
    requires RowTyped(mirror, k) && c in KnownCols(k.table) && Coerce(KindOf(c), v).Some?
    ensures Complete(Rewrite(mirror, k, c, v))
    ensures Cells(Rewrite(mirror, k, c, v)) == mirror[k].cells[c := Coerce(KindOf(c), v).value]
  {
    forall d | d in KnownCols(k.table)
      ensures CellOf(Rewrite(mirror, k, c, v), d) == Some(if d == c then Coerce(KindOf(c), v).value else mirror[k].cells[d])
    {
      RewrittenCell(mirror, k, c, v, d);
    }
    CellsFromParts(Rewrite(mirror, k, c, v), mirror[k].cells[c := Coerce(KindOf(c), v).value]);
  }

  /** An op whose columns read as these cells is well typed and writes them. */
  lemma {:induction false} CellsFromParts(op: Op, cells: map<Column, Cell>)
    requires forall d :: d in KnownCols(op.table) ==> d in cells && CellOf(op, d) == Some(cells[d])
    requires forall d :: d in cells ==> d in KnownCols(op.table)
    ensures WellTyped(op) && Cells(op) == cells
  {
  }

  lemma {:induction false} RewrittenCell(mirror: Mirror, k: RowId, c: Column, v: Value, d: Column)
    requires RowTyped(mirror, k) && c in KnownCols(k.table) && Coerce(KindOf(c), v).Some? && d in KnownCols(k.table)
    ensures CellOf(Rewrite(mirror, k, c, v), d) == Some(if d == c then Coerce(KindOf(c), v).value else mirror[k].cells[d])
  {
    if d != c {
      WireRoundTrip(KindOf(d), mirror[k].cells[d]);
    }
  }

  lemma {:induction false} RewriteOf(db: Db, k: RowId, c: Column, v: Value)
    requires Inv(db) && k in db.mirror && c in KnownCols(k.table) && Coerce(KindOf(c), v).Some?
    ensures Complete(Rewrite(db.mirror, k, c, v))
    ensures Cells(Rewrite(db.mirror, k, c, v)) == db.mirror[k].cells[c := Coerce(KindOf(c), v).value]
  {
    RowsAreTyped(db, k);
    RewriteChangesOneColumn(db.mirror, k, c, v);
  }

  lemma {:induction false} ColumnCell(db: Db, k: RowId, c: Column)
    requires Inv(db) && k in db.mirror && c in KnownCols(k.table)
    ensures c in db.mirror[k].cells && CellFits(KindOf(c), db.mirror[k].cells[c])
  {
    var op := WriterOf(db, k);
    CellsFit(op, c);
  }

  // ----- deleting a notebook -----

  ghost predicate Enumerates(ids: seq<string>, s: set<string>) {
    && (forall i, j :: 0 <= i < j < |ids| ==> ids[i] != ids[j])
    && (forall x :: x in s <==> x in ids)
  }

  function RowIds(table: Table, pks: seq<string>): seq<RowId> {
    seq(|pks|, i requires 0 <= i < |pks| => RowId(table, pks[i]))
  }

  /** The rows a notebook delete authors, in order. */
  function Affected(notebookId: string, pages: seq<string>, strokes: seq<string>): seq<RowId> {
    [RowId(Notebook, notebookId)] + RowIds(Page, pages) + RowIds(Stroke, strokes) + RowIds(PageTextFromServer, pages)
  }

  function Tombstones(mirror: Mirror, rows: seq<RowId>, now: int): seq<Op>
    requires forall k :: k in rows ==> k in mirror || k.table == PageTextFromServer
  {
    seq(|rows|, i requires 0 <= i < |rows| => Tombstone(mirror, rows[i], now))
  }

  lemma {:induction false} AffectedRowsExist(mirror: Mirror, notebookId: string, pages: seq<string>, strokes: seq<string>)
    requires RowId(Notebook, notebookId) in mirror
    requires Enumerates(pages, LivePageIds(mirror, notebookId))
    requires Enumerates(strokes, LiveStrokeIds(mirror, LivePageIds(mirror, notebookId)))
    ensures forall k :: k in Affected(notebookId, pages, strokes) ==> k in mirror || k.table == PageTextFromServer
  {
    forall k | k in RowIds(Page, pages)
      ensures k in mirror
    {
      assert k.pk in pages && k.pk in LivePageIds(mirror, notebookId);
    }
    forall k | k in RowIds(Stroke, strokes)
      ensures k in mirror
    {
      assert k.pk in strokes && k.pk in LiveStrokeIds(mirror, LivePageIds(mirror, notebookId));
    }
  }

  lemma {:induction false} AffectedRowsDistinct(notebookId: string, pages: seq<string>, strokes: seq<string>, i: nat, j: nat)
    requires forall a, b :: 0 <= a < b < |pages| ==> pages[a] != pages[b]
    requires forall a, b :: 0 <= a < b < |strokes| ==> strokes[a] != strokes[b]
    requires i < j < |Affected(notebookId, pages, strokes)|
    ensures Affected(notebookId, pages, strokes)[i] != Affected(notebookId, pages, strokes)[j]
  {
  }

  /** The cells of a tombstone: recognised text is blanked, any other row keeps its other columns. */
  ghost function TombstoneCells(mirror: Mirror, k: RowId, now: int): map<Column, Cell>
    requires k in mirror || k.table == PageTextFromServer
  {
    if k.table == PageTextFromServer then
      map[CreatedAt := IntCell(now), DeletedAt := IntCell(now), Model := NullCell, OcrAt := IntCell(0), Text := TextCell("")]
    else mirror[k].cells[DeletedAt := IntCell(now)]
  }

  /** The row a delete leaves behind: its tombstone, unless the stored key beats it. */
  ghost predicate TombstonedOrNewer(db: Db, mirror': Mirror, k: RowId, opSeq: int, now: int, authorNow: int)
    requires k in db.mirror || k.table == PageTextFromServer
  {
    var key := Key(authorNow, opSeq, db.siteId);
    && k in mirror'
    && mirror'[k] ==
       if k in db.mirror && !KeyLess(db.mirror[k].key, key) then db.mirror[k]
       else MirrorRow(key, TombstoneCells(db.mirror, k, now))
  }

  /** What a notebook delete does to the mirror. */
  ghost predicate Deletes(db: Db, mirror': Mirror, rows: seq<RowId>, now: int, authorNow: int) {
    && (forall i :: 0 <= i < |rows| ==>
          && (rows[i] in db.mirror || rows[i].table == PageTextFromServer)
          && TombstonedOrNewer(db, mirror', rows[i], db.lastOpSeq + i + 1, now, authorNow))
    && (forall k :: k !in rows ==> (k in mirror' <==> k in db.mirror) && (k in mirror' ==> mirror'[k] == db.mirror[k]))
  }

  lemma {:induction false} BlankTextCell(pk: string, now: int, c: Column)
    requires c in KnownCols(PageTextFromServer)
    ensures c in BlankText(pk, now).cols
    ensures c in TombstoneCells(map[], RowId(PageTextFromServer, pk), now)
    ensures CellOf(BlankText(pk, now), c) == Some(TombstoneCells(map[], RowId(PageTextFromServer, pk), now)[c])
  {
  }

  lemma {:induction false} BlankTextIsComplete(mirror: Mirror, pk: string, now: int)
    requires Ulid.IsUlid(pk)
    ensures Complete(BlankText(pk, now))
    ensures Cells(BlankText(pk, now)) == TombstoneCells(mirror, RowId(PageTextFromServer, pk), now)
  {
    var op, cells := BlankText(pk, now), TombstoneCells(mirror, RowId(PageTextFromServer, pk), now);
    forall c | c in KnownCols(PageTextFromServer)
      ensures c in op.cols && c in cells && CellOf(op, c) == Some(cells[c])
    {
      BlankTextCell(pk, now, c);
    }
    BlankTextHasNoOtherCells(mirror, pk, now);
    CellsFromParts(op, cells);
  }

  lemma {:induction false} BlankTextHasNoOtherCells(mirror: Mirror, pk: string, now: int)
    ensures forall c :: c in TombstoneCells(mirror, RowId(PageTextFromServer, pk), now) ==> c in KnownCols(PageTextFromServer)
  {
  }

  lemma {:induction false} TombstoneIsComplete(db: Db, k: RowId, now: int)
    requires Inv(db)
    requires k in db.mirror || (k.table == PageTextFromServer && Ulid.IsUlid(k.pk))
    ensures Complete(Tombstone(db.mirror, k, now)) && Row(Tombstone(db.mirror, k, now)) == k
    ensures Cells(Tombstone(db.mirror, k, now)) == TombstoneCells(db.mirror, k, now)
  {
    if k in db.mirror {
      RowsAreTyped(db, k);
    }
    if k.table == PageTextFromServer {
      BlankTextIsComplete(db.mirror, k.pk, now);
    } else {
      RowTombstoneIsComplete(db.mirror, k, now);
    }
  }

  lemma {:induction false} RowTombstoneIsComplete(mirror: Mirror, k: RowId, now: int)
    requires RowTyped(mirror, k) && k.table != PageTextFromServer
    ensures var draft := Tombstone(mirror, k, now);
            Complete(draft) && Row(draft) == k && Cells(draft) == mirror[k].cells[DeletedAt := IntCell(now)]
  {
    assert DeletedAt in KnownCols(k.table);
    RewriteChangesOneColumn(mirror, k, DeletedAt, Num(now));
  }

  /** What authoring a draft for row `k` writes, in the terms of a delete. */
  lemma {:induction false} AuthoredTombstone(db: Db, mirror': Mirror, k: RowId, draft: Op, opSeq: int, now: int, authorNow: int)
    requires k in db.mirror || k.table == PageTextFromServer
    requires Row(draft) == k && Cells(draft) == TombstoneCells(db.mirror, k, now)
    requires k in mirror' && mirror'[k] == AuthoredRow(db, draft, opSeq, authorNow)
    ensures TombstonedOrNewer(db, mirror', k, opSeq, now, authorNow)
  {
  }

  ghost predicate Deletable(db: Db, rows: seq<RowId>) {
    && (forall i, j :: 0 <= i < j < |rows| ==> rows[i] != rows[j])
    && (forall k :: k in rows ==> k in db.mirror || (k.table == PageTextFromServer && Ulid.IsUlid(k.pk)))
  }

  lemma {:induction false} TombstonesAreComplete(db: Db, rows: seq<RowId>, now: int)
    requires Inv(db) && Deletable(db, rows)
    ensures forall d :: d in Tombstones(db.mirror, rows, now) ==> Complete(d)
    ensures forall i :: 0 <= i < |rows| ==> Row(Tombstones(db.mirror, rows, now)[i]) == rows[i]
  {
    forall i | 0 <= i < |rows|
      ensures Complete(Tombstones(db.mirror, rows, now)[i]) && Row(Tombstones(db.mirror, rows, now)[i]) == rows[i]
    {
      TombstoneIsComplete(db, rows[i], now);
    }
  }

  lemma {:induction false} AuthoredTombstoneAt(db: Db, rows: seq<RowId>, drafts: seq<Op>, mirror': Mirror, now: int, authorNow: int, i: nat)
    requires Inv(db) && Deletable(db, rows) && i < |rows| && drafts == Tombstones(db.mirror, rows, now)
    requires HoldsDraft(db, drafts, authorNow, mirror', i)
    ensures rows[i] in db.mirror || rows[i].table == PageTextFromServer
    ensures TombstonedOrNewer(db, mirror', rows[i], db.lastOpSeq + i + 1, now, authorNow)
  {
    assert rows[i] in rows;
    TombstoneIsComplete(db, rows[i], now);
    AuthoredTombstone(db, mirror', rows[i], drafts[i], db.lastOpSeq + i + 1, now, authorNow);
  }

  lemma {:induction false} AuthoredTombstones(db: Db, rows: seq<RowId>, drafts: seq<Op>, mirror': Mirror, now: int, authorNow: int)
    requires Inv(db) && Deletable(db, rows) && drafts == Tombstones(db.mirror, rows, now)
    requires AuthorsRows(db, drafts, authorNow, mirror')
    ensures Deletes(db, mirror', rows, now, authorNow)
  {
    TombstonesAreComplete(db, rows, now);
    forall i | 0 <= i < |rows|
      ensures rows[i] in db.mirror || rows[i].table == PageTextFromServer
      ensures TombstonedOrNewer(db, mirror', rows[i], db.lastOpSeq + i + 1, now, authorNow)
    {
      assert IsLastForRow(drafts, i);
      AuthoredTombstoneAt(db, rows, drafts, mirror', now, authorNow, i);
    }
    forall k | k !in rows
      ensures SameRow(db.mirror, mirror', k)
    {
      assert Undrafted(drafts, k);
    }
  }

  lemma {:induction false} DeleteTakesEffect(db: Db, rows: seq<RowId>, now: int, authorNow: int)
    requires Inv(db) && ServerOpsNumbered(db) && Ulid.IsUlid(db.siteId) && Deletable(db, rows)
    ensures AuthorAll(db, Tombstones(db.mirror, rows, now), authorNow).Authored?
    ensures Deletes(db, AuthorAll(db, Tombstones(db.mirror, rows, now), authorNow).db.mirror, rows, now, authorNow)
  {
    TombstonesAreComplete(db, rows, now);
    AuthoringWritesItsRows(db, Tombstones(db.mirror, rows, now), authorNow);
    AuthoredTombstones(db, rows, Tombstones(db.mirror, rows, now), AuthorAll(db, Tombstones(db.mirror, rows, now), authorNow).db.mirror,
                       now, authorNow);
  }

  /** The changelog has grown by exactly the stamped drafts, and the op_seq counter by their number. */
  ghost predicate Records(db: Db, db': Db, drafts: seq<Op>, now: int) {
    && db.log <= db'.log && OpsOf(db'.log) == OpsOf(db.log) + Stamped(db, drafts, now)
    && db'.lastOpSeq == db.lastOpSeq + |drafts| && db'.siteId == db.siteId && db'.cursors == db.cursors
  }

  lemma {:induction false} AuthoringRecords(db: Db, drafts: seq<Op>, now: int)
    requires Inv(db) && ServerOpsNumbered(db) && AuthorAll(db, drafts, now).Authored?
    ensures var a := AuthorOps(db, drafts, now);
            a.Authored? && Records(db, a.db, drafts, now) && Inv(a.db) && ServerOpsNumbered(a.db)
  {
    AuthorAllKeeps(db, drafts, now);
    StepKeepsInv(db, Author(drafts, now));
    StepKeepsNumbering(db, Author(drafts, now));
  }

  /** The key under which every affected row must lie for the delete to reach it. */
  ghost predicate AllOlder(db: Db, rows: seq<RowId>, authorNow: int) {
    forall i :: 0 <= i < |rows| && rows[i] in db.mirror ==>
      KeyLess(db.mirror[rows[i]].key, Key(authorNow, db.lastOpSeq + i + 1, db.siteId))
  }

  /**
   When no affected row was written later than the delete, the notebook is left without live
   pages, its former pages without live strokes, and none of its text boxes is listed any
   more, although no text box row is touched.
   */
  lemma {:induction false} DeletedNotebookIsEmpty(db: Db, mirror': Mirror, notebookId: string, pages: seq<string>, strokes: seq<string>,
                               now: int, authorNow: int)
    requires Enumerates(pages, LivePageIds(db.mirror, notebookId))
    requires Enumerates(strokes, LiveStrokeIds(db.mirror, LivePageIds(db.mirror, notebookId)))
    requires Deletes(db, mirror', Affected(notebookId, pages, strokes), now, authorNow)
    requires AllOlder(db, Affected(notebookId, pages, strokes), authorNow)
    ensures !Live(mirror', RowId(Notebook, notebookId))
    ensures LivePageIds(mirror', notebookId) == {}
    ensures LiveStrokeIds(mirror', LivePageIds(db.mirror, notebookId)) == {}
    ensures ListedTextBoxes(mirror', notebookId) == {}
    ensures forall k: RowId :: k.table == TextBox ==>
              (k in mirror' <==> k in db.mirror) && (k in mirror' ==> mirror'[k] == db.mirror[k])
  {
    var rows := Affected(notebookId, pages, strokes);
    AffectedAreDead(db, mirror', rows, now, authorNow, 0);
    forall k | k in mirror' && k.table == Page && HasText(mirror', k, NotebookId, notebookId)
      ensures !Live(mirror', k)
    {
      FormerPageIsDead(db, mirror', notebookId, pages, strokes, now, authorNow, k);
    }
    forall k | k in mirror' && k.table == Stroke && OnPage(mirror', k, LivePageIds(db.mirror, notebookId))
      ensures !Live(mirror', k)
    {
      FormerStrokeIsDead(db, mirror', notebookId, pages, strokes, now, authorNow, k);
    }
    TextBoxesAreUnaffected(notebookId, pages, strokes);
  }

  lemma {:induction false} TextBoxesAreUnaffected(notebookId: string, pages: seq<string>, strokes: seq<string>)
    ensures forall k :: k in Affected(notebookId, pages, strokes) ==> k.table != TextBox
  {
  }

  lemma {:induction false} AffectedAreDead(db: Db, mirror': Mirror, rows: seq<RowId>, now: int, authorNow: int, i: nat)
    requires i < |rows| && Deletes(db, mirror', rows, now, authorNow) && AllOlder(db, rows, authorNow)
    ensures !Live(mirror', rows[i])
  {
    assert TombstonedOrNewer(db, mirror', rows[i], db.lastOpSeq + i + 1, now, authorNow);
  }

  lemma {:induction false} FormerPageIsDead(db: Db, mirror': Mirror, notebookId: string, pages: seq<string>, strokes: seq<string>,
                                            now: int, authorNow: int, k: RowId)
    requires Enumerates(pages, LivePageIds(db.mirror, notebookId))
    requires Deletes(db, mirror', Affected(notebookId, pages, strokes), now, authorNow)
    requires AllOlder(db, Affected(notebookId, pages, strokes), authorNow)
    requires k in mirror' && k.table == Page && HasText(mirror', k, NotebookId, notebookId)
    ensures !Live(mirror', k)
  {
    var rows := Affected(notebookId, pages, strokes);
    if k in rows {
      var i :| 0 <= i < |rows| && rows[i] == k;
      AffectedAreDead(db, mirror', rows, now, authorNow, i);
    } else if Live(mirror', k) {
      assert k.pk in LivePageIds(db.mirror, notebookId) && k.pk in pages;
      ListedIsAffected(notebookId, pages, strokes, k.pk);
    }
  }

  lemma {:induction false} FormerStrokeIsDead(db: Db, mirror': Mirror, notebookId: string, pages: seq<string>, strokes: seq<string>,
                                              now: int, authorNow: int, k: RowId)
    requires Enumerates(strokes, LiveStrokeIds(db.mirror, LivePageIds(db.mirror, notebookId)))
    requires Deletes(db, mirror', Affected(notebookId, pages, strokes), now, authorNow)
    requires AllOlder(db, Affected(notebookId, pages, strokes), authorNow)
    requires k in mirror' && k.table == Stroke && OnPage(mirror', k, LivePageIds(db.mirror, notebookId))
    ensures !Live(mirror', k)
  {
    var rows := Affected(notebookId, pages, strokes);
    if k in rows {
      var i :| 0 <= i < |rows| && rows[i] == k;
      AffectedAreDead(db, mirror', rows, now, authorNow, i);
    } else if Live(mirror', k) {
      assert k.pk in LiveStrokeIds(db.mirror, LivePageIds(db.mirror, notebookId)) && k.pk in strokes;
      ListedIsAffected(notebookId, pages, strokes, k.pk);
    }
  }

  lemma {:induction false} ListedIsAffected(notebookId: string, pages: seq<string>, strokes: seq<string>, pk: string)
    ensures pk in pages ==> RowId(Page, pk) in Affected(notebookId, pages, strokes)
    ensures pk in strokes ==> RowId(Stroke, pk) in Affected(notebookId, pages, strokes)
  {
    var rows := Affected(notebookId, pages, strokes);
    if pk in pages {
      var i :| 0 <= i < |pages| && pages[i] == pk;
      assert rows[1 + i] == RowId(Page, pk);
    }
    if pk in strokes {
      var i :| 0 <= i < |strokes| && strokes[i] == pk;
      assert rows[1 + |pages| + i] == RowId(Stroke, pk);
    }
  }

  // ----- the delete, cell by cell -----

  /** Row `k` exists and its column `c` holds this cell. */
  ghost predicate Holds(mirror: Mirror, k: RowId, c: Column, cell: Cell) {
    k in mirror && c in mirror[k].cells && mirror[k].cells[c] == cell
  }

  /** A page that is not deleted and names the notebook as its own. */
  ghost predicate IsPageOf(mirror: Mirror, p: string, notebookId: string) {
    Holds(mirror, RowId(Page, p), DeletedAt, NullCell) && Holds(mirror, RowId(Page, p), NotebookId, TextCell(notebookId))
  }

  /** A row that is not deleted and names such a page as its own. */
  ghost predicate LiesIn(mirror: Mirror, k: RowId, notebookId: string) {
    Holds(mirror, k, DeletedAt, NullCell) && exists p :: Holds(mirror, k, PageId, TextCell(p)) && IsPageOf(mirror, p, notebookId)
  }

  /** The rows that have to go with a notebook. */
  ghost predicate Goes(mirror: Mirror, k: RowId, notebookId: string) {
    match k.table
    case Notebook => k.pk == notebookId
    case Page | PageTextFromServer => IsPageOf(mirror, k.pk, notebookId)
    case Stroke => LiesIn(mirror, k, notebookId)
    case _ => false
  }

  /** The row is marked deleted by the server; recognised text is blank, any other row otherwise as it was. */
  ghost predicate IsErased(db: Db, mirror': Mirror, k: RowId, now: int, authorNow: int) {
    && k in mirror' && mirror'[k].key.wallTs == authorNow && mirror'[k].key.siteId == db.siteId
    && Holds(mirror', k, DeletedAt, IntCell(now))
    && if k.table == PageTextFromServer then
         && Holds(mirror', k, Text, TextCell("")) && Holds(mirror', k, Model, NullCell)
         && Holds(mirror', k, OcrAt, IntCell(0)) && Holds(mirror', k, CreatedAt, IntCell(now))
       else
         && k in db.mirror && mirror'[k].cells.Keys == db.mirror[k].cells.Keys
         && forall c :: c in mirror'[k].cells && c != DeletedAt ==> mirror'[k].cells[c] == db.mirror[k].cells[c]
  }

  /** Erased, or left alone because it was written later; between equal clocks the rest of the key decides. */
  ghost predicate ErasedUnlessNewer(db: Db, mirror': Mirror, k: RowId, now: int, authorNow: int) {
    && (IsErased(db, mirror', k, now, authorNow) || (k in db.mirror && SameRow(db.mirror, mirror', k)))
    && (k !in db.mirror || db.mirror[k].key.wallTs < authorNow ==> IsErased(db, mirror', k, now, authorNow))
    && (k in db.mirror && db.mirror[k].key.wallTs > authorNow ==> SameRow(db.mirror, mirror', k))
  }

  /** What deleting a notebook promises: its rows go, no other row changes, and its pages are answered. */
  ghost predicate ErasesNotebook(db: Db, mirror': Mirror, notebookId: string, pageIds: seq<string>, now: int, authorNow: int) {
    && (forall i, j :: 0 <= i < j < |pageIds| ==> pageIds[i] != pageIds[j])
    && (forall p :: p in pageIds <==> IsPageOf(db.mirror, p, notebookId))
    && (forall k :: Goes(db.mirror, k, notebookId) ==> ErasedUnlessNewer(db, mirror', k, now, authorNow))
    && (forall k :: !Goes(db.mirror, k, notebookId) ==> SameRow(db.mirror, mirror', k))
  }

  lemma {:induction false} LivePagesAre(mirror: Mirror, notebookId: string)
    ensures forall p :: p in LivePageIds(mirror, notebookId) <==> IsPageOf(mirror, p, notebookId)
  {
    forall p | IsPageOf(mirror, p, notebookId)
      ensures p in LivePageIds(mirror, notebookId)
    {
      assert Live(mirror, RowId(Page, p)) && HasText(mirror, RowId(Page, p), NotebookId, notebookId);
    }
  }

  lemma {:induction false} LiveOnPageIs(mirror: Mirror, k: RowId, notebookId: string)
    ensures Live(mirror, k) && OnPage(mirror, k, LivePageIds(mirror, notebookId)) <==> LiesIn(mirror, k, notebookId)
  {
    LivePagesAre(mirror, notebookId);
    if Live(mirror, k) && OnPage(mirror, k, LivePageIds(mirror, notebookId)) {
      assert Holds(mirror, k, PageId, TextCell(mirror[k].cells[PageId].s));
    }
  }

  lemma {:induction false} LiveStrokesAre(mirror: Mirror, notebookId: string)
    ensures forall s :: s in LiveStrokeIds(mirror, LivePageIds(mirror, notebookId)) <==> LiesIn(mirror, RowId(Stroke, s), notebookId)
  {
    forall s
      ensures s in LiveStrokeIds(mirror, LivePageIds(mirror, notebookId)) <==> LiesIn(mirror, RowId(Stroke, s), notebookId)
    {
      LiveOnPageIs(mirror, RowId(Stroke, s), notebookId);
      if LiesIn(mirror, RowId(Stroke, s), notebookId) {
        assert RowId(Stroke, s) in mirror;
      }
    }
  }

  /** A box is listed for a notebook iff it is not deleted and names a page of it that is not deleted. */
  lemma {:induction false} ListedTextBoxesAre(mirror: Mirror, notebookId: string, box: string)
    ensures box in ListedTextBoxes(mirror, notebookId) <==> LiesIn(mirror, RowId(TextBox, box), notebookId)
  {
    LiveOnPageIs(mirror, RowId(TextBox, box), notebookId);
    if LiesIn(mirror, RowId(TextBox, box), notebookId) {
      assert RowId(TextBox, box) in mirror;
    }
  }

  lemma {:induction false} RowIdsAre(table: Table, pks: seq<string>, k: RowId)
    ensures k in RowIds(table, pks) <==> k.table == table && k.pk in pks
  {
    if k.table == table && k.pk in pks {
      var i :| 0 <= i < |pks| && pks[i] == k.pk;
      assert RowIds(table, pks)[i] == k;
    }
  }

  lemma {:induction false} AffectedGoes(mirror: Mirror, notebookId: string, pages: seq<string>, strokes: seq<string>, k: RowId)
    requires Enumerates(pages, LivePageIds(mirror, notebookId))
    requires Enumerates(strokes, LiveStrokeIds(mirror, LivePageIds(mirror, notebookId)))
    ensures k in Affected(notebookId, pages, strokes) <==> Goes(mirror, k, notebookId)
  {
    LivePagesAre(mirror, notebookId);
    LiveStrokesAre(mirror, notebookId);
    RowIdsAre(Page, pages, k);
    RowIdsAre(Stroke, strokes, k);
    RowIdsAre(PageTextFromServer, pages, k);
  }

  lemma {:induction false} TombstoneErases(db: Db, mirror': Mirror, k: RowId, opSeq: int, now: int, authorNow: int)
    requires k.table == PageTextFromServer || (k in db.mirror && DeletedAt in db.mirror[k].cells)
    requires TombstonedOrNewer(db, mirror', k, opSeq, now, authorNow)
    ensures ErasedUnlessNewer(db, mirror', k, now, authorNow)
  {
  }

  lemma {:induction false} RowHasDeletedAt(db: Db, k: RowId)
    requires Inv(db) && k in db.mirror
    ensures DeletedAt in db.mirror[k].cells
  {
    RowsAreTyped(db, k);
    assert DeletedAt in KnownCols(k.table);
  }

  /** What a delete of these rows does to one row. */
  lemma {:induction false} DeleteErasesRow(db: Db, mirror': Mirror, rows: seq<RowId>, now: int, authorNow: int, k: RowId)
    requires Inv(db) && Deletes(db, mirror', rows, now, authorNow)
    ensures k in rows ==> ErasedUnlessNewer(db, mirror', k, now, authorNow)
    ensures k !in rows ==> SameRow(db.mirror, mirror', k)
  {
    if k in rows {
      var i :| 0 <= i < |rows| && rows[i] == k;
      assert TombstonedOrNewer(db, mirror', rows[i], db.lastOpSeq + i + 1, now, authorNow);
      if k.table != PageTextFromServer {
        RowHasDeletedAt(db, k);
      }
      TombstoneErases(db, mirror', k, db.lastOpSeq + i + 1, now, authorNow);
    }
  }

  lemma {:induction false} DeleteErasesNotebook(db: Db, mirror': Mirror, notebookId: string, pages: seq<string>, strokes: seq<string>,
                                                now: int, authorNow: int)
    requires Inv(db)
    requires Enumerates(pages, LivePageIds(db.mirror, notebookId))
    requires Enumerates(strokes, LiveStrokeIds(db.mirror, LivePageIds(db.mirror, notebookId)))
    requires Deletes(db, mirror', Affected(notebookId, pages, strokes), now, authorNow)
    ensures ErasesNotebook(db, mirror', notebookId, pages, now, authorNow)
  {
    LivePagesAre(db.mirror, notebookId);
    forall k
      ensures Goes(db.mirror, k, notebookId) ==> ErasedUnlessNewer(db, mirror', k, now, authorNow)
      ensures !Goes(db.mirror, k, notebookId) ==> SameRow(db.mirror, mirror', k)
    {
      AffectedGoes(db.mirror, notebookId, pages, strokes, k);
      DeleteErasesRow(db, mirror', Affected(notebookId, pages, strokes), now, authorNow, k);
    }
  }

  lemma {:induction false} AffectedIsDeletable(db: Db, notebookId: string, pages: seq<string>, strokes: seq<string>)
    requires Inv(db) && RowId(Notebook, notebookId) in db.mirror
    requires Enumerates(pages, LivePageIds(db.mirror, notebookId))
    requires Enumerates(strokes, LiveStrokeIds(db.mirror, LivePageIds(db.mirror, notebookId)))
    ensures Deletable(db, Affected(notebookId, pages, strokes))
  {
    var rows := Affected(notebookId, pages, strokes);
    AffectedRowsExist(db.mirror, notebookId, pages, strokes);
    forall i, j | 0 <= i < j < |rows|
      ensures rows[i] != rows[j]
    {
      AffectedRowsDistinct(notebookId, pages, strokes, i, j);
    }
    forall k | k in rows && k.table == PageTextFromServer
      ensures Ulid.IsUlid(k.pk)
    {
      assert k.pk in pages && k.pk in LivePageIds(db.mirror, notebookId);
      RowsAreTyped(db, RowId(Page, k.pk));
    }
  }

  /** Lists a result set of the database in some order. */
  method Query(ids: set<string>) returns (rows: seq<string>)
    ensures Enumerates(rows, ids)
  {
    rows := [];
    var left := ids;
    while left != {}
      invariant left <= ids && Enumerates(rows, ids - left)
      decreases left
    {
      var id :| id in left;
      left := left - {id};
      rows := rows + [id];
    }
  }

  /**
   Deletes a notebook by authoring tombstones for it, its live pages, their live strokes and
   the pages' recognised text. `now` is read when the tombstones are built, `authorNow` when
   they are authored. Answers the pages that were live.
   */
  method SoftDeleteNotebook(store: SyncStore.Store, notebookId: string, now: int, authorNow: int)
    returns (pageIds: seq<string>, ghost strokeIds: seq<string>)
    requires Inv(store.State()) && ServerOpsNumbered(store.State()) && Ulid.IsUlid(store.siteId)
    modifies store
    ensures RowId(Notebook, notebookId) !in old(store.mirror) ==> pageIds == [] && store.State() == old(store.State())
    ensures RowId(Notebook, notebookId) in old(store.mirror) ==>
              && Enumerates(pageIds, LivePageIds(old(store.mirror), notebookId))
              && Enumerates(strokeIds, LiveStrokeIds(old(store.mirror), LivePageIds(old(store.mirror), notebookId)))
              && Deletes(old(store.State()), store.mirror, Affected(notebookId, pageIds, strokeIds), now, authorNow)
              && (forall k :: k in Affected(notebookId, pageIds, strokeIds) ==> k in old(store.mirror) || k.table == PageTextFromServer)
              && Records(old(store.State()), store.State(),
                         Tombstones(old(store.mirror), Affected(notebookId, pageIds, strokeIds), now), authorNow)
              && ErasesNotebook(old(store.State()), store.mirror, notebookId, pageIds, now, authorNow)
    ensures Inv(store.State()) && ServerOpsNumbered(store.State())
  {
    pageIds, strokeIds := [], [];
    if RowId(Notebook, notebookId) !in store.mirror {
      return;
    }
    ghost var db, mirror := store.State(), store.mirror;
    pageIds := Query(LivePageIds(store.mirror, notebookId));
    var strokes := Query(LiveStrokeIds(store.mirror, LivePageIds(store.mirror, notebookId)));
    strokeIds := strokes;
    AffectedIsDeletable(db, notebookId, pageIds, strokes);
    var ops := CollectTombstones(store.mirror, notebookId, pageIds, strokes, now);
    DeleteTakesEffect(db, Affected(notebookId, pageIds, strokes), now, authorNow);
    AuthoringRecords(db, ops, authorNow);
    var result := store.AuthorOps(ops, authorNow);
    DeleteErasesNotebook(db, store.mirror, notebookId, pageIds, strokes, now, authorNow);
  }

  method CollectTombstones(mirror: Mirror, notebookId: string, pageIds: seq<string>, strokes: seq<string>, now: int)
    returns (ops: seq<Op>)
    requires forall k :: k in Affected(notebookId, pageIds, strokes) ==> k in mirror || k.table == PageTextFromServer
    ensures ops == Tombstones(mirror, Affected(notebookId, pageIds, strokes), now)
  {
    ghost var rows := Affected(notebookId, pageIds, strokes);
    NextTombstone(mirror, rows, 0, now);
    ops := [Tombstone(mirror, RowId(Notebook, notebookId), now)];
    ops := AppendTombstones(mirror, ops, Page, pageIds, now, rows, 1);
    ops := AppendTombstones(mirror, ops, Stroke, strokes, now, rows, 1 + |pageIds|);
    ops := AppendTombstones(mirror, ops, PageTextFromServer, pageIds, now, rows, 1 + |pageIds| + |strokes|);
    assert rows[..|rows|] == rows;
  }

  /** One of the accumulating loops. */
  method AppendTombstones(mirror: Mirror, earlier: seq<Op>, table: Table, ids: seq<string>, now: int, ghost rows: seq<RowId>, ghost n: nat)
    returns (ops: seq<Op>)
    requires forall k :: k in rows ==> k in mirror || k.table == PageTextFromServer
    requires n + |ids| <= |rows| && rows[n..n + |ids|] == RowIds(table, ids)
    requires earlier == Tombstones(mirror, rows[..n], now)
    ensures ops == Tombstones(mirror, rows[..n + |ids|], now)
  {
    ops := earlier;
    for i := 0 to |ids|
      invariant ops == Tombstones(mirror, rows[..n + i], now)
    {
      assert rows[n + i] == rows[n..n + |ids|][i] == RowId(table, ids[i]);
      NextTombstone(mirror, rows, n + i, now);
      ops := ops + [Tombstone(mirror, RowId(table, ids[i]), now)];
    }
  }

  lemma {:induction false} NextTombstone(mirror: Mirror, rows: seq<RowId>, n: nat, now: int)
    requires n < |rows| && forall k :: k in rows ==> k in mirror || k.table == PageTextFromServer
    ensures rows[n] in mirror || rows[n].table == PageTextFromServer
    ensures Tombstones(mirror, rows[..n + 1], now) == Tombstones(mirror, rows[..n], now) + [Tombstone(mirror, rows[n], now)]
  {
    assert rows[n] in rows;
  }

  // ----- editing a text box -----

  datatype EditOutcome = NotFound | AlreadyDeleted | NotAuthored(reason: Reason) | Edited(pageId: string)

  /** The mirror with the text of box `k` replaced, unless the stored row is newer than the edit. */
  ghost function WithText(db: Db, k: RowId, newText: string, now: int): Mirror
    requires k in db.mirror
  {
    var key := Key(now, db.lastOpSeq + 1, db.siteId);
    if KeyLess(db.mirror[k].key, key)
    then db.mirror[k := MirrorRow(key, db.mirror[k].cells[Text := TextCell(newText)])]
    else db.mirror
  }

  /** An older box ends with the new text, everything else it holds as it was; a newer one and all other rows are untouched. */
  ghost predicate EditsOnlyText(db: Db, mirror': Mirror, k: RowId, newText: string, now: int)
    requires k in db.mirror
  {
    && (db.mirror[k].key.wallTs < now ==>
          && Holds(mirror', k, Text, TextCell(newText)) && mirror'[k].key.wallTs == now && mirror'[k].key.siteId == db.siteId
          && mirror'[k].cells.Keys == db.mirror[k].cells.Keys
          && forall c :: c in mirror'[k].cells && c != Text ==> mirror'[k].cells[c] == db.mirror[k].cells[c])
    && (db.mirror[k].key.wallTs > now ==> mirror' == db.mirror)
    && forall j :: j != k ==> SameRow(db.mirror, mirror', j)
  }

  lemma {:induction false} WithTextEditsOnlyText(db: Db, k: RowId, newText: string, now: int)
    requires Inv(db) && k in db.mirror && Text in KnownCols(k.table)
    ensures EditsOnlyText(db, WithText(db, k, newText, now), k, newText, now)
  {
    ColumnCell(db, k, Text);
  }

  /** The columns a text box edit relies on. */
  ghost predicate BoxLike(table: Table) {
    Text in KnownCols(table) && PageId in KnownCols(table) && DeletedAt in KnownCols(table)
  }

  lemma TextBoxIsBoxLike()
    ensures BoxLike(TextBox)
  {
  }

  lemma {:induction false} TextIsText(s: string, cell: Cell)
    ensures Coerce(KindOf(Text), Str(s)) == Some(TextCell(s))
    ensures CellFits(KindOf(PageId), cell) <==> cell.TextCell?
  {
  }

  lemma {:induction false} AuthorOneDraft(db: Db, draft: Op, now: int)
    requires ServerOpsNumbered(db) && Ulid.IsUlid(db.siteId) && Complete(draft)
    ensures var a := AuthorOps(db, [draft], now);
            a.Authored? && a.db.mirror == db.mirror[Row(draft) := AuthoredRow(db, draft, db.lastOpSeq + 1, now)]
  {
    NextSeqIsFree(db, db.lastOpSeq + 1);
    var op := Stamp(db, draft, db.lastOpSeq + 1, now);
    CompleteDraftIsAccepted(Authored(db, []), draft, db.lastOpSeq + 1, op, now);
    var drafts := [draft];
    assert drafts[..|drafts| - 1] == [];
    assert AuthorAll(db, [], now) == Authored(db, []);
    assert AuthorAll(db, drafts, now) == AuthorOp(Authored(db, []), op, now);
  }

  lemma {:induction false} EditTakesEffect(db: Db, k: RowId, newText: string, now: int)
    requires Inv(db) && ServerOpsNumbered(db) && Ulid.IsUlid(db.siteId)
    requires k in db.mirror && BoxLike(k.table)
    ensures var a := AuthorOps(db, [Rewrite(db.mirror, k, Text, Str(newText))], now);
            && a.Authored? && a.db.mirror == WithText(db, k, newText, now)
            && Records(db, a.db, [Rewrite(db.mirror, k, Text, Str(newText))], now) && Inv(a.db) && ServerOpsNumbered(a.db)
  {
    EditWritesText(db, k, newText, now);
    AuthoringRecords(db, [Rewrite(db.mirror, k, Text, Str(newText))], now);
  }

  lemma {:induction false} EditWritesText(db: Db, k: RowId, newText: string, now: int)
    requires Inv(db) && ServerOpsNumbered(db) && Ulid.IsUlid(db.siteId)
    requires k in db.mirror && BoxLike(k.table)
    ensures var a := AuthorOps(db, [Rewrite(db.mirror, k, Text, Str(newText))], now);
            a.Authored? && a.db.mirror == WithText(db, k, newText, now)
  {
    TextIsText(newText, NullCell);
    RewriteOf(db, k, Text, Str(newText));
    AuthorOneDraft(db, Rewrite(db.mirror, k, Text, Str(newText)), now);
    PuttingBackIsNothing(db.mirror, k);
  }

  lemma {:induction false} PuttingBackIsNothing(mirror: Mirror, k: RowId)
    requires k in mirror
    ensures mirror[k := mirror[k]] == mirror
  {
  }

  lemma {:induction false} BoxCells(db: Db, k: RowId)
    requires Inv(db) && k in db.mirror && BoxLike(k.table)
    ensures DeletedAt in db.mirror[k].cells
    ensures PageId in db.mirror[k].cells && db.mirror[k].cells[PageId].TextCell?
  {
    ColumnCell(db, k, PageId);
    TextIsText("", db.mirror[k].cells[PageId]);
    ColumnCell(db, k, DeletedAt);
  }

  /**
   Re-authors a live text box with new text and every other column preserved; answers its page.
   The edit is recorded in the changelog as one op of the server, from which devices pull it.
   */
  method EditTextBoxText(store: SyncStore.Store, boxId: string, newText: string, now: int) returns (outcome: EditOutcome)
    requires Inv(store.State()) && ServerOpsNumbered(store.State()) && Ulid.IsUlid(store.siteId)
    modifies store
    ensures outcome == NotFound <==> RowId(TextBox, boxId) !in old(store.mirror)
    ensures outcome == AlreadyDeleted <==>
            RowId(TextBox, boxId) in old(store.mirror) && !Live(old(store.mirror), RowId(TextBox, boxId))
    ensures !outcome.NotAuthored?
    ensures !outcome.Edited? ==> store.State() == old(store.State())
    ensures outcome.Edited? ==>
              && HasText(old(store.mirror), RowId(TextBox, boxId), PageId, outcome.pageId)
              && store.mirror == WithText(old(store.State()), RowId(TextBox, boxId), newText, now)
              && EditsOnlyText(old(store.State()), store.mirror, RowId(TextBox, boxId), newText, now)
              && Records(old(store.State()), store.State(),
                         [Rewrite(old(store.mirror), RowId(TextBox, boxId), Text, Str(newText))], now)
    ensures Inv(store.State()) && ServerOpsNumbered(store.State())
  {
    var k := RowId(TextBox, boxId);
    if k !in store.mirror {
      return NotFound;
    }
    TextBoxIsBoxLike();
    BoxCells(store.State(), k);
    var cells := store.mirror[k].cells;
    if cells[DeletedAt] != NullCell {
      return AlreadyDeleted;
    }
    EditTakesEffect(store.State(), k, newText, now);
    WithTextEditsOnlyText(store.State(), k, newText, now);
    var result := store.AuthorOps([Rewrite(store.mirror, k, Text, Str(newText))], now);
    outcome := match result
      case Refused(reason) => NotAuthored(reason)
      case Authored(_, _) => Edited(cells[PageId].s);
  }
}
