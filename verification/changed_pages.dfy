/**
 What a page is rendered from, and which changes of it a batch reports. Reports are complete
 except for one case: a winning op that moves a live stroke or text box to another page
 reports the page it arrives on, not the page it leaves.
 */
module ChangedPages {
  import opened Wrappers
  import opened Ops
  import opened Reconcile
  import opened SyncState
  import opened SyncRuns
  import opened Inventory
  import opened SampleOps
  import Ulid

  /** What a page is drawn from: its notebook and liveness, and its live strokes and text boxes by id. */
  datatype Render = Render(
    notebook: Cell, live: bool,
    strokes: map<RowId, map<Column, Cell>>, boxes: map<RowId, map<Column, Cell>>)

  function Project(cells: map<Column, Cell>, columns: set<Column>): map<Column, Cell> {
    map c | c in cells && c in columns :: cells[c]
  }

  /** The drawn columns of the live rows of a table that lie on page `p`. */
  function Drawn(mirror: Mirror, table: Table, p: string, columns: set<Column>): map<RowId, map<Column, Cell>> {
    map k | k in mirror && IsDrawn(mirror, k, table, p) :: Project(mirror[k].cells, columns)
  }

  predicate IsDrawn(mirror: Mirror, k: RowId, table: Table, p: string) {
    k.table == table && Live(mirror, k) && HasText(mirror, k, PageId, p)
  }

  function RenderInput(mirror: Mirror, p: string): Render {
    var k := RowId(Page, p);
    Render(
      if k in mirror && NotebookId in mirror[k].cells then mirror[k].cells[NotebookId] else NullCell,
      Live(mirror, k),
      Drawn(mirror, Stroke, p, {Color, PenWidthMin, PenWidthMax, Points, Z}),
      Drawn(mirror, TextBox, p, {X, Y, Width, Height, Text, FontName, FontSize, Color, Weight, BorderWidth, Z}))
  }

  /** Every column of a drawn row but its page, its creation and its deletion is drawn. */
  ghost predicate ShowsRow(drawn: map<RowId, map<Column, Cell>>, mirror: Mirror, k: RowId) {
    && k in drawn && k in mirror
    && (forall c :: c in drawn[k] <==> c in mirror[k].cells && c !in {PageId, CreatedAt, DeletedAt})
    && (forall c :: c in drawn[k] ==> drawn[k][c] == mirror[k].cells[c])
  }

  /** What a row of table `table` has to do with the picture of page `p`. */
  ghost predicate PicturesTable(drawn: map<RowId, map<Column, Cell>>, mirror: Mirror, table: Table, p: string) {
    && (forall k :: k in drawn <==> k.table == table && Holds(mirror, k, PageId, TextCell(p)) && Holds(mirror, k, DeletedAt, NullCell))
    && (forall k :: k in drawn ==> ShowsRow(drawn, mirror, k))
  }

  lemma {:induction false} DrawnPictures(db: Db, table: Table, p: string, columns: set<Column>)
    requires Inv(db) && (forall c :: c in columns <==> c in KnownCols(table) && c !in {PageId, CreatedAt, DeletedAt})
    ensures PicturesTable(Drawn(db.mirror, table, p, columns), db.mirror, table, p)
  {
    var drawn := Drawn(db.mirror, table, p, columns);
    forall k | k in drawn
      ensures ShowsRow(drawn, db.mirror, k)
    {
      RowsAreTyped(db, k);
    }
  }

  lemma {:induction false} PageRowHasNotebook(db: Db, k: RowId)
    requires Inv(db) && k in db.mirror && k.table == Page
    ensures NotebookId in db.mirror[k].cells
  {
    ColumnCell(db, k, NotebookId);
  }

  /** The picture of a page, from the cells: its notebook and liveness, and all that its live strokes and text boxes hold. */
  lemma {:induction false} RenderInputIsThePage(db: Db, p: string)
    requires Inv(db)
    ensures var r, k := RenderInput(db.mirror, p), RowId(Page, p);
            && (k in db.mirror ==> Holds(db.mirror, k, NotebookId, r.notebook))
            && (r.live <==> Holds(db.mirror, k, DeletedAt, NullCell))
            && PicturesTable(r.strokes, db.mirror, Stroke, p) && PicturesTable(r.boxes, db.mirror, TextBox, p)
  {
    DrawnPictures(db, Stroke, p, {Color, PenWidthMin, PenWidthMax, Points, Z});
    DrawnPictures(db, TextBox, p, {X, Y, Width, Height, Text, FontName, FontSize, Color, Weight, BorderWidth, Z});
    if RowId(Page, p) in db.mirror {
      PageRowHasNotebook(db, RowId(Page, p));
    }
  }

  /** Op `n` wins and takes a live stroke or text box away from page `p`. */
  ghost predicate MovesOff(mirror: Mirror, n: Op, p: string) {
    && (n.table == Stroke || n.table == TextBox)
    && MergeRow(mirror, n).Written?
    && Live(mirror, Row(n)) && HasText(mirror, Row(n), PageId, p)
    && TouchedPage(n) != p
  }

  /** What the batch adds to its report for one op; the empty page id, which no page has, is never added. */
  ghost predicate Reported(mirror: Mirror, n: Op, p: string) {
    RowId(Page, p) in ReportPage([], MergeRow(mirror, n))
  }

  ghost predicate Changes(mirror: Mirror, n: Op, p: string) {
    RenderInput(mirror, p) != RenderInput(MirrorAfter(mirror, n), p)
  }

  lemma {:induction false} WrittenRow(mirror: Mirror, n: Op)
    requires MergeRow(mirror, n).Written?
    ensures MirrorAfter(mirror, n) == mirror[Row(n) := RowOf(n)]
    ensures n.table == Stroke || n.table == TextBox ==>
              PageId in RowOf(n).cells && RowOf(n).cells[PageId] == TextCell(TouchedPage(n))
  {
    WriterAcceptsWellTyped(n);
    if n.table == Stroke || n.table == TextBox {
      WrittenPage(n);
    }
  }

  lemma {:induction false} WrittenPage(n: Op)
    requires WellTyped(n) && (n.table == Stroke || n.table == TextBox)
    ensures PageId in RowOf(n).cells && RowOf(n).cells[PageId] == TextCell(TouchedPage(n))
  {
    assert PageId in KnownCols(n.table);
    PageCellIsText(n);
  }

  lemma {:induction false} PageCellIsText(n: Op)
    requires CellOf(n, PageId).Some? && (n.table == Stroke || n.table == TextBox)
    ensures CellOf(n, PageId) == Some(TextCell(TouchedPage(n)))
  {
  }

  /** Page `p` draws neither the old nor the new form of the written row. */
  ghost predicate WrittenElsewhere(mirror: Mirror, k: RowId, row: MirrorRow, table: Table, p: string) {
    !IsDrawn(mirror, k, table, p) && (k.table == table ==> !(PageId in row.cells && row.cells[PageId] == TextCell(p)))
  }

  lemma {:induction false} DrawnAsBefore(mirror: Mirror, k: RowId, row: MirrorRow, table: Table, p: string, j: RowId)
    requires WrittenElsewhere(mirror, k, row, table, p)
    ensures IsDrawn(mirror[k := row], j, table, p) <==> IsDrawn(mirror, j, table, p)
    ensures IsDrawn(mirror, j, table, p) ==> j in mirror[k := row] && mirror[k := row][j] == mirror[j]
  {
  }

  /** A row that is on neither side of the write on page `p` draws nothing there. */
  lemma {:induction false} DrawnElsewhere(mirror: Mirror, k: RowId, row: MirrorRow, table: Table, p: string, columns: set<Column>)
    requires WrittenElsewhere(mirror, k, row, table, p)
    ensures Drawn(mirror[k := row], table, p, columns) == Drawn(mirror, table, p, columns)
  {
    forall j
      ensures IsDrawn(mirror[k := row], j, table, p) <==> IsDrawn(mirror, j, table, p)
      ensures IsDrawn(mirror, j, table, p) ==> j in mirror[k := row] && mirror[k := row][j] == mirror[j]
    {
      DrawnAsBefore(mirror, k, row, table, p, j);
    }
    SameDrawing(mirror, mirror[k := row], table, p, columns);
  }

  lemma {:induction false} SameDrawing(mirror: Mirror, mirror': Mirror, table: Table, p: string, columns: set<Column>)
    requires forall j :: IsDrawn(mirror', j, table, p) <==> IsDrawn(mirror, j, table, p)
    requires forall j :: IsDrawn(mirror, j, table, p) ==> j in mirror' && mirror'[j] == mirror[j]
    ensures Drawn(mirror', table, p, columns) == Drawn(mirror, table, p, columns)
  {
  }

  lemma {:induction false} UnreportedMeansUnchanged(mirror: Mirror, n: Op, p: string)
    requires p != "" && !Reported(mirror, n, p) && !MovesOff(mirror, n, p)
    ensures !Changes(mirror, n, p)
  {
    if MergeRow(mirror, n).Written? {
      WrittenRow(mirror, n);
      DrawnElsewhere(mirror, Row(n), RowOf(n), Stroke, p, {Color, PenWidthMin, PenWidthMax, Points, Z});
      DrawnElsewhere(mirror, Row(n), RowOf(n), TextBox, p,
                     {X, Y, Width, Height, Text, FontName, FontSize, Color, Weight, BorderWidth, Z});
    }
  }

  lemma {:induction false} MovedOffMeansChanged(mirror: Mirror, n: Op, p: string)
    requires MovesOff(mirror, n, p)
    ensures Changes(mirror, n, p) && !Reported(mirror, n, p)
  {
    WrittenRow(mirror, n);
    var mirror' := MirrorAfter(mirror, n);
    if n.table == Stroke {
      assert Row(n) in RenderInput(mirror, p).strokes && Row(n) !in RenderInput(mirror', p).strokes;
    } else {
      assert Row(n) in RenderInput(mirror, p).boxes && Row(n) !in RenderInput(mirror', p).boxes;
    }
  }

  /**
   One op reports every page whose render input it changes iff it does not take a live stroke
   or text box off some page.
   */
  lemma {:induction false} ReportIsCompleteIffNothingMoves(mirror: Mirror, n: Op)
    ensures (forall p :: p != "" && Changes(mirror, n, p) ==> Reported(mirror, n, p)) <==> (forall p :: p != "" ==> !MovesOff(mirror, n, p))
  {
    forall p | p != "" && !MovesOff(mirror, n, p) && !Reported(mirror, n, p)
      ensures !Changes(mirror, n, p)
    {
      UnreportedMeansUnchanged(mirror, n, p);
    }
    forall p | p != "" && MovesOff(mirror, n, p)
      ensures Changes(mirror, n, p) && !Reported(mirror, n, p)
    {
      MovedOffMeansChanged(mirror, n, p);
    }
  }

  // ----- a batch -----

  lemma {:induction false} ApplyOpReports(b: Batch, site: string, op: Op, now: int, p: string)
    requires p != "" && !MovesOff(b.db.mirror, Normalize(op), p)
    ensures var b' := ApplyOp(b, site, op, now);
            && (forall k :: k in b.changed ==> k in b'.changed)
            && (RenderInput(b.db.mirror, p) != RenderInput(b'.db.mirror, p) ==> RowId(Page, p) in b'.changed)
  {
    ApplyOpTouches(b, site, op, now);
    if !Reported(b.db.mirror, Normalize(op), p) {
      UnreportedMeansUnchanged(b.db.mirror, Normalize(op), p);
    }
  }

  /** What one op does to the mirror and to the report. */
  lemma {:induction false} ApplyOpTouches(b: Batch, site: string, op: Op, now: int)
    ensures var b', n := ApplyOp(b, site, op, now), Normalize(op);
            || (b'.db.mirror == b.db.mirror && b'.changed == b.changed)
            || (b'.db.mirror == MirrorAfter(b.db.mirror, n) && b'.changed == ReportPage(b.changed, MergeRow(b.db.mirror, n)))
  {
  }

  /** No op of the batch, when its turn comes, takes a live row off page `p`. */
  ghost predicate NothingMovesOff(b: Batch, site: string, ops: seq<Op>, now: int, p: string) {
    forall i :: 0 <= i < |ops| ==> !MovesOff(ApplyOps(b, site, ops[..i], now).db.mirror, Normalize(ops[i]), p)
  }

  /** Every page whose render input differs before and after a batch is reported, if nothing is moved off it. */
  lemma {:induction false} BatchReportsChangedPages(b: Batch, site: string, ops: seq<Op>, now: int, p: string)
    requires p != "" && NothingMovesOff(b, site, ops, now, p)
    ensures var b' := ApplyOps(b, site, ops, now);
            && (forall k :: k in b.changed ==> k in b'.changed)
            && (RenderInput(b.db.mirror, p) != RenderInput(b'.db.mirror, p) ==> RowId(Page, p) in b'.changed)
  {
    if ops != [] {
      var front, last := ops[..|ops| - 1], ops[|ops| - 1];
      forall i | 0 <= i < |front|
        ensures !MovesOff(ApplyOps(b, site, front[..i], now).db.mirror, Normalize(front[i]), p)
      {
        assert front[..i] == ops[..i];
      }
      BatchReportsChangedPages(b, site, front, now, p);
      assert !MovesOff(ApplyOps(b, site, ops[..|front|], now).db.mirror, Normalize(last), p);
      ApplyOpReports(ApplyOps(b, site, front, now), site, last, now, p);
    }
  }

  /** Recognised text is not render input: pages are reported for page, stroke and text box ops only. */
  lemma {:induction false} OnlyContentIsReported(b: Batch, site: string, ops: seq<Op>, now: int)
    ensures forall k :: k in ApplyOps(b, site, ops, now).changed && k !in b.changed ==>
              exists op :: op in ops && op.table in {Page, Stroke, TextBox} && k == RowId(Page, TouchedPage(op))
  {
    if ops != [] {
      var front, last := ops[..|ops| - 1], ops[|ops| - 1];
      assert ops == front + [last];
      OnlyContentIsReported(b, site, front, now);
      var mid, b' := ApplyOps(b, site, front, now), ApplyOps(b, site, ops, now);
      forall k | k in b'.changed && k !in b.changed
        ensures exists op :: op in ops && op.table in {Page, Stroke, TextBox} && k == RowId(Page, TouchedPage(op))
      {
        if k in mid.changed {
          var op :| op in front && op.table in {Page, Stroke, TextBox} && k == RowId(Page, TouchedPage(op));
          assert op in ops;
        } else {
          NormalizeKeepsTouch(last);
          assert last in ops;
        }
      }
    }
  }

  lemma {:induction false} NormalizeKeepsTouch(op: Op)
    ensures TouchedPage(Normalize(op)) == TouchedPage(op)
    ensures op.table !in {Page, Stroke, TextBox} ==> TouchedPage(op) == ""
  {
    if op.table == Stroke || op.table == TextBox {
      assert PageId in KnownCols(op.table);
      assert ValueOf(Normalize(op), PageId) == ValueOf(op, PageId);
    }
  }

  // ----- the case that is missed -----

  /** A live stroke on one page, and a later op that puts it on another. */
  ghost predicate IsMove(draw: Op, move: Op, from: string, to: string) {
    && draw.table == Stroke && Row(draw) == Row(move) && KeyLess(KeyOf(draw), KeyOf(move))
    && FirstBad(UpsertOrder(Stroke), draw, 0) == None && FirstBad(UpsertOrder(Stroke), move, 0) == None
    && CellOf(draw, PageId) == Some(TextCell(from)) && CellOf(draw, DeletedAt) == Some(NullCell)
    && CellOf(move, PageId) == Some(TextCell(to))
  }

  lemma {:induction false} MoveIsMissed(draw: Op, move: Op, from: string, to: string)
    requires IsMove(draw, move, from, to) && from != to
    ensures var mirror := MirrorAfter(map[], draw);
            && Changes(mirror, move, from) && !Reported(mirror, move, from)
            && (to != "" ==> Reported(mirror, move, to))
  {
    assert PageId in KnownCols(Stroke) && DeletedAt in KnownCols(Stroke);
    WrittenRow(map[], draw);
    MovedOffMeansChanged(MirrorAfter(map[], draw), move, from);
  }

  /** A stroke drawn on one page and then moved to another: the page it left changes and is not reported. */
  lemma {:induction false} MovedStrokeIsMissed(pk: string, site: string, from: string, to: string)
    requires Ulid.IsUlid(pk) && Ulid.IsUlid(site) && from != to
    ensures var draw, move := OpWith(Stroke, pk, site, 1, PageId, Str(from)), OpWith(Stroke, pk, site, 2, PageId, Str(to));
            var mirror := MirrorAfter(map[], draw);
            && Changes(mirror, move, from) && !Reported(mirror, move, from)
            && (to != "" ==> Reported(mirror, move, to))
  {
    assert PageId in KnownCols(Stroke) && DeletedAt in KnownCols(Stroke);
    OpWithFacts(Stroke, pk, site, 1, PageId, Str(from));
    OpWithFacts(Stroke, pk, site, 2, PageId, Str(to));
    OpWithCells(Stroke, pk, site, 1, PageId, Str(from), PageId);
    OpWithCells(Stroke, pk, site, 1, PageId, Str(from), DeletedAt);
    OpWithCells(Stroke, pk, site, 2, PageId, Str(to), PageId);
    MoveIsMissed(OpWith(Stroke, pk, site, 1, PageId, Str(from)), OpWith(Stroke, pk, site, 2, PageId, Str(to)), from, to);
  }
}
