/** Complete ops for concrete inputs: every column has a plain value of its type, except one. */
module SampleOps {
  import opened Wrappers
  import opened Ops
  import Base64
  import Ulid

  function PlainValue(c: Column): Value {
    match KindOf(c)
    case IntKind => Num(0)
    case NullIntKind | NullTextKind => Null
    case TextKind | BytesKind => Str("")
  }

  function OpWith(table: Table, pk: string, site: string, opSeq: int, c: Column, v: Value): Op {
    Op(table, pk, site, opSeq, opSeq, (map x | x in KnownCols(table) :: PlainValue(x))[c := v])
  }

  lemma {:induction false} PlainValueReads(c: Column)
    ensures Coerce(KindOf(c), PlainValue(c)).Some?
  {
    assert Base64.Decode("") == Some([]);
  }

  lemma {:induction false} OpWithCells(table: Table, pk: string, site: string, opSeq: int, c: Column, v: Value, x: Column)
    requires x in KnownCols(table)
    ensures CellOf(OpWith(table, pk, site, opSeq, c, v), x) == Coerce(KindOf(x), if x == c then v else PlainValue(x))
  {
  }

  lemma {:induction false} OnlyBadColumn(order: seq<Column>, op: Op, c: Column, ok: bool)
    requires c in order && forall x :: x in order ==> (CellOf(op, x).Some? <==> x != c || ok)
    ensures FirstBad(order, op, 0) == if ok then None else Some(c)
  {
    FirstBadFinds(order, op, 0);
    assert order[0..] == order;
  }

  lemma {:induction false} OpWithReads(table: Table, pk: string, site: string, opSeq: int, c: Column, v: Value)
    requires c in KnownCols(table)
    ensures FirstBad(UpsertOrder(table), OpWith(table, pk, site, opSeq, c, v), 0) == if Coerce(KindOf(c), v).Some? then None else Some(c)
  {
    var op := OpWith(table, pk, site, opSeq, c, v);
    UpsertReadsKnownCols(table);
    forall x | x in UpsertOrder(table)
      ensures CellOf(op, x).Some? <==> x != c || Coerce(KindOf(c), v).Some?
    {
      OpWithCells(table, pk, site, opSeq, c, v, x);
      PlainValueReads(x);
    }
    OnlyBadColumn(UpsertOrder(table), op, c, Coerce(KindOf(c), v).Some?);
  }

  /** Such an op is structurally valid, has no unknown columns, and is well typed iff its special column is. */
  lemma {:induction false} OpWithFacts(table: Table, pk: string, site: string, opSeq: int, c: Column, v: Value)
    requires !table.OtherTable? && Ulid.IsUlid(pk) && Ulid.IsUlid(site) && opSeq > 0 && c in KnownCols(table)
    ensures var op := OpWith(table, pk, site, opSeq, c, v);
            && Validate(op) == None && Normalize(op) == op
            && FirstBad(UpsertOrder(table), op, 0) == (if Coerce(KindOf(c), v).Some? then None else Some(c))
            && Row(op) == RowId(table, pk) && op.siteId == site && op.opSeq == op.wallTs == opSeq
  {
    var op := OpWith(table, pk, site, opSeq, c, v);
    ValidateAccepts(op);
    assert Normalize(op).cols == op.cols;
    OpWithReads(table, pk, site, opSeq, c, v);
  }
}
