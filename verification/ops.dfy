/**
 The unit of device sync: a full-row upsert, the column set of each synced table, and
 the checks an op must pass before it may change the mirror.
 */
module Ops {
  import opened Bytes
  import opened Wrappers
  import Base64
  import Ulid

  /** The tables an op may name. Any other name is an `OtherTable`. */
  datatype Table =
    | Folder | Notebook | Page | PageTextFromClient | PageTextFromServer | Stroke | TextBox
    | OtherTable(name: string)

  /** The keys of an op's `cols` object. A key no table knows is an `OtherColumn`. */
  datatype Column =
    | BorderWidth | Color | CreatedAt | DeletedAt | FolderId | FontName | FontSize | Height | Model
    | Name | NotebookId | OcrAt | PageId | ParentFolderId | PenWidthMax | PenWidthMin | Points
    | SortOrder | Template | TemplatePitchMm | Text | Weight | Width | X | Y | Z
    | OtherColumn(name: string)

  /** A decoded JSON value. `Json` stands for booleans, arrays and objects. */
  datatype Value = Null | Num(n: int) | Str(s: string) | Json(text: string)

  datatype Op = Op(table: Table, pk: string, siteId: string, opSeq: int, wallTs: int, cols: map<Column, Value>)

  /** Identifies one row of the mirror. */
  datatype RowId = RowId(table: Table, pk: string)

  function Row(op: Op): RowId {
    RowId(op.table, op.pk)
  }

  /** Why an op is refused for good. */
  datatype Reason =
    | UnknownTable | PkNotUlid | SiteIdNotUlid | OpSeqNotPositive
    | MissingColumn(column: Column)
    | BadType(column: Column)
    | SeqTaken

  /** The columns of each table, in alphabetical order. */
  function KnownCols(table: Table): seq<Column> {
    match table
    case Folder => [CreatedAt, DeletedAt, Name, ParentFolderId, SortOrder]
    case Notebook => [CreatedAt, DeletedAt, FolderId, Name, SortOrder]
    case Page => [CreatedAt, DeletedAt, NotebookId, SortOrder, Template, TemplatePitchMm]
    case PageTextFromClient => [CreatedAt, DeletedAt, Model, OcrAt, Text]
    case PageTextFromServer => [CreatedAt, DeletedAt, Model, OcrAt, Text]
    case Stroke => [Color, CreatedAt, DeletedAt, PageId, PenWidthMax, PenWidthMin, Points, Z]
    case TextBox => [BorderWidth, Color, CreatedAt, DeletedAt, FontName, FontSize, Height, PageId,
                     Text, Weight, Width, X, Y, Z]
    case OtherTable(_) => []
  }

  /** The columns of each table in the order in which its row writer reads them. */
  function UpsertOrder(table: Table): seq<Column> {
    match table
    case Folder => [Name, SortOrder, CreatedAt, DeletedAt, ParentFolderId]
    case Notebook => [Name, SortOrder, CreatedAt, DeletedAt, FolderId]
    case Page => [NotebookId, SortOrder, CreatedAt, DeletedAt, Template, TemplatePitchMm]
    case PageTextFromClient => [Text, OcrAt, Model, CreatedAt, DeletedAt]
    case PageTextFromServer => [Text, OcrAt, Model, CreatedAt, DeletedAt]
    case Stroke => [PageId, Color, PenWidthMin, PenWidthMax, Points, Z, CreatedAt, DeletedAt]
    case TextBox => [PageId, X, Y, Width, Height, Text, FontName, FontSize, Color, Weight, BorderWidth,
                     Z, CreatedAt, DeletedAt]
    case OtherTable(_) => []
  }

  /** The first column of `known`, from index `i` on, that an op does not carry. */
  function FirstMissing(known: seq<Column>, cols: map<Column, Value>, i: nat): Option<Column>
    requires i <= |known|
    decreases |known| - i
  {
    if i == |known| then None
    else if known[i] !in cols then Some(known[i])
    else FirstMissing(known, cols, i + 1)
  }

  /** The reason for which an op is structurally unacceptable, if there is one. */
  function Validate(op: Op): Option<Reason> {
    if op.table.OtherTable? then Some(UnknownTable)
    else if !Ulid.IsUlid(op.pk) then Some(PkNotUlid)
    else if !Ulid.IsUlid(op.siteId) then Some(SiteIdNotUlid)
    else if op.opSeq <= 0 then Some(OpSeqNotPositive)
    else match FirstMissing(KnownCols(op.table), op.cols, 0)
      case Some(c) => Some(MissingColumn(c))
      case None => None
  }

  /** The op with the columns its table does not know dropped. */
  function Normalize(op: Op): Op {
    op.(cols := map c | c in op.cols && c in KnownCols(op.table) :: op.cols[c])
  }

  datatype Kind = IntKind | NullIntKind | TextKind | NullTextKind | BytesKind

  /** The type a column is read at. A name has the same type in every table that has it. */
  function KindOf(c: Column): Kind {
    match c
    case DeletedAt | TemplatePitchMm => NullIntKind
    case FolderId | ParentFolderId | Template | Model => NullTextKind
    case Name | NotebookId | PageId | Text | FontName => TextKind
    case Points => BytesKind
    case _ => IntKind
  }

  /** What the mirror stores in one column. */
  datatype Cell = NullCell | IntCell(n: int) | TextCell(s: string) | BytesCell(b: seq<Byte>)

  /** Reads a wire value at a column type; None is a type error. */
  function Coerce(kind: Kind, v: Value): Option<Cell> {
    match kind
    case IntKind => if v.Num? then Some(IntCell(v.n)) else None
    case NullIntKind => if v.Null? then Some(NullCell) else if v.Num? then Some(IntCell(v.n)) else None
    case TextKind => if v.Str? then Some(TextCell(v.s)) else None
    case NullTextKind => if v.Null? then Some(NullCell) else if v.Str? then Some(TextCell(v.s)) else None
    case BytesKind =>
      if v.Str? then
        match Base64.Decode(v.s)
        case Some(b) => Some(BytesCell(b))
        case None => None
      else None
  }

  /** The value of a column of an op; an absent key reads as null. */
  function ValueOf(op: Op, c: Column): Value {
    if c in op.cols then op.cols[c] else Null
  }

  function CellOf(op: Op, c: Column): Option<Cell> {
    Coerce(KindOf(c), ValueOf(op, c))
  }

  /** The first column, in the order given and from index `i` on, that has a value of the wrong type. */
  function FirstBad(order: seq<Column>, op: Op, i: nat): Option<Column>
    requires i <= |order|
    decreases |order| - i
  {
    if i == |order| then None
    else if CellOf(op, order[i]).None? then Some(order[i])
    else FirstBad(order, op, i + 1)
  }

  /** Every column of the op's table has a value of its type. */
  ghost predicate WellTyped(op: Op) {
    forall c :: c in KnownCols(op.table) ==> CellOf(op, c).Some?
  }

  /** The cells an op writes into its row. */
  function Cells(op: Op): map<Column, Cell> {
    map c | c in KnownCols(op.table) ::
      match CellOf(op, c)
      case Some(cell) => cell
      case None => NullCell
  }

  /** The two listings of a table's columns name the same columns. */
  lemma {:induction false} UpsertReadsKnownCols(table: Table)
    ensures forall c :: c in UpsertOrder(table) <==> c in KnownCols(table)
  {
  }

  lemma {:induction false} FirstBadFinds(order: seq<Column>, op: Op, i: nat)
    requires i <= |order|
    ensures FirstBad(order, op, i).None? <==> forall c :: c in order[i..] ==> CellOf(op, c).Some?
    ensures FirstBad(order, op, i).Some? ==> FirstBad(order, op, i).value in order[i..] && CellOf(op, FirstBad(order, op, i).value).None?
    decreases |order| - i
  {
    if i < |order| {
      FirstBadFinds(order, op, i + 1);
      assert order[i..] == [order[i]] + order[i + 1..];
    }
  }

  /** The column named is the first one, in reading order, that is badly typed. */
  lemma {:induction false} FirstBadIsFirst(order: seq<Column>, op: Op, i: nat) returns (j: nat)
    requires i <= |order| && FirstBad(order, op, i).Some?
    ensures i <= j < |order| && order[j] == FirstBad(order, op, i).value && CellOf(op, order[j]).None?
    ensures forall m :: i <= m < j ==> CellOf(op, order[m]).Some?
    decreases |order| - i
  {
    j := i;
    if CellOf(op, order[i]).Some? {
      j := FirstBadIsFirst(order, op, i + 1);
    }
  }

  lemma {:induction false} FirstMissingFinds(known: seq<Column>, cols: map<Column, Value>, i: nat)
    requires i <= |known|
    ensures FirstMissing(known, cols, i).None? <==> forall c :: c in known[i..] ==> c in cols
    decreases |known| - i
  {
    if i < |known| {
      FirstMissingFinds(known, cols, i + 1);
      assert known[i..] == [known[i]] + known[i + 1..];
    }
  }

  lemma {:induction false} FirstMissingIsFirst(known: seq<Column>, cols: map<Column, Value>, i: nat) returns (j: nat)
    requires i <= |known| && FirstMissing(known, cols, i).Some?
    ensures i <= j < |known| && known[j] == FirstMissing(known, cols, i).value && known[j] !in cols
    ensures forall m :: i <= m < j ==> known[m] in cols
    decreases |known| - i
  {
    j := i;
    if known[i] in cols {
      j := FirstMissingIsFirst(known, cols, i + 1);
    }
  }

  /** The row writers accept exactly the well-typed ops. */
  lemma {:induction false} WriterAcceptsWellTyped(op: Op)
    ensures FirstBad(UpsertOrder(op.table), op, 0).None? <==> WellTyped(op)
  {
    UpsertReadsKnownCols(op.table);
    FirstBadFinds(UpsertOrder(op.table), op, 0);
    assert UpsertOrder(op.table)[0..] == UpsertOrder(op.table);
  }

  /** An op is structurally valid iff it names a known table, has ULIDs and a positive op_seq, and carries every column. */
  lemma {:induction false} ValidateAccepts(op: Op)
    ensures Validate(op).None? <==>
            && !op.table.OtherTable?
            && Ulid.IsUlid(op.pk) && Ulid.IsUlid(op.siteId)
            && op.opSeq > 0
            && (forall c :: c in KnownCols(op.table) ==> c in op.cols)
  {
    FirstMissingFinds(KnownCols(op.table), op.cols, 0);
    assert KnownCols(op.table)[0..] == KnownCols(op.table);
  }

  /** The reason given for a refusal names the first test that fails: table, pk, site id, op_seq, columns in order. */
  lemma {:induction false} ValidateNamesTheFault(op: Op)
    ensures match Validate(op)
            case None => true
            case Some(UnknownTable) => op.table.OtherTable?
            case Some(PkNotUlid) => !op.table.OtherTable? && !Ulid.IsUlid(op.pk)
            case Some(SiteIdNotUlid) => !op.table.OtherTable? && Ulid.IsUlid(op.pk) && !Ulid.IsUlid(op.siteId)
            case Some(OpSeqNotPositive) =>
              !op.table.OtherTable? && Ulid.IsUlid(op.pk) && Ulid.IsUlid(op.siteId) && op.opSeq <= 0
            case Some(MissingColumn(c)) =>
              && !op.table.OtherTable? && Ulid.IsUlid(op.pk) && Ulid.IsUlid(op.siteId) && op.opSeq > 0
              && exists j :: 0 <= j < |KnownCols(op.table)| && KnownCols(op.table)[j] == c && c !in op.cols
                             && forall m :: 0 <= m < j ==> KnownCols(op.table)[m] in op.cols
            case Some(_) => false
  {
    if FirstMissing(KnownCols(op.table), op.cols, 0).Some? {
      var j := FirstMissingIsFirst(KnownCols(op.table), op.cols, 0);
    }
  }

  /** Unknown columns neither change what an op writes nor whether it is accepted. */
  lemma {:induction false} NormalizeKeepsMeaning(op: Op)
    ensures forall c :: c in Normalize(op).cols <==> c in op.cols && c in KnownCols(op.table)
    ensures forall c :: c in Normalize(op).cols ==> Normalize(op).cols[c] == op.cols[c]
    ensures Normalize(Normalize(op)) == Normalize(op)
    ensures Row(Normalize(op)) == Row(op) && Cells(Normalize(op)) == Cells(op)
    ensures WellTyped(Normalize(op)) <==> WellTyped(op)
    ensures Validate(Normalize(op)) == Validate(op)
  {
    var n := Normalize(op);
    assert forall c :: c in KnownCols(op.table) ==> ValueOf(n, c) == ValueOf(op, c);
    assert forall c :: c in KnownCols(op.table) ==> CellOf(n, c) == CellOf(op, c);
    FirstMissingSame(KnownCols(op.table), op.cols, n.cols, 0);
  }

  lemma {:induction false} FirstMissingSame(known: seq<Column>, a: map<Column, Value>, b: map<Column, Value>, i: nat)
    requires i <= |known| && forall c :: c in known ==> (c in a <==> c in b)
    ensures FirstMissing(known, a, i) == FirstMissing(known, b, i)
    decreases |known| - i
  {
    if i < |known| {
      FirstMissingSame(known, a, b, i + 1);
    }
  }
}
