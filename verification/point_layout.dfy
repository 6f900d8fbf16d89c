/** Point files byte by byte: where the builder puts each field, and from where the parser takes it. */
module PointLayout {
  import opened Bytes
  import opened PointFile

  /** The four bytes at `i` as an unsigned number, most significant first. */
  ghost function U32At(data: seq<Byte>, i: nat): nat
    requires i + 4 <= |data|
  {
    var a: int, b: int, c: int, d: int := data[i], data[i + 1], data[i + 2], data[i + 3];
    ((a * 256 + b) * 256 + c) * 256 + d
  }

  /** The two bytes at `i` as a number in two's complement. */
  ghost function I16At(data: seq<Byte>, i: nat): int
    requires i + 2 <= |data|
  {
    var a: int, b: int := data[i], data[i + 1];
    if a < 128 then a * 256 + b else a * 256 + b - 0x1_0000
  }

  lemma {:induction false} SliceOfSlice(data: seq<Byte>, i: nat, j: nat, p: nat, q: nat)
    requires i <= j <= |data| && p <= q <= j - i
    ensures data[i..j][p..q] == data[i + p..i + q]
  {
    forall k | 0 <= k < q - p
      ensures data[i..j][p..q][k] == data[i + p..i + q][k]
    {
      assert data[i..j][p + k] == data[i + p + k];
    }
  }

  lemma {:induction false} TwoBytes(b: seq<Byte>)
    requires |b| == 2
    ensures FromBigEndian(b) == (b[0] as int) * 256 + b[1] as int
  {
    assert b[..1][..0] == [] && FromBigEndian(b[..1]) == b[0];
  }

  lemma {:induction false} FourBytes(b: seq<Byte>)
    requires |b| == 4
    ensures FromBigEndian(b) == ((b[0] as int * 256 + b[1] as int) * 256 + b[2] as int) * 256 + b[3] as int
  {
    TwoBytes(b[..3][..2]);
  }

  lemma {:induction false} ReadsU32(data: seq<Byte>, i: nat)
    requires i + 4 <= |data|
    ensures GetUint32(data[i..i + 4]) == U32At(data, i)
  {
    FourBytes(data[i..i + 4]);
  }

  lemma {:induction false} ReadsI16(data: seq<Byte>, i: nat)
    requires i + 2 <= |data|
    ensures GetInt16(data[i..i + 2]) == I16At(data, i)
  {
    TwoBytes(data[i..i + 2]);
  }

  // ----- what the parser reads -----

  /** The five fields of a point in the 16 bytes at `i`. */
  ghost predicate PointIsAt(data: seq<Byte>, i: nat, p: TinyPoint) {
    && i + 16 <= |data|
    && p.x == U32At(data, i) && p.y == U32At(data, i + 4)
    && p.size == I16At(data, i + 8) && p.pressure == I16At(data, i + 10)
    && p.time == U32At(data, i + 12)
  }

  lemma {:induction false} RecordIsAt(data: seq<Byte>, i: nat)
    requires i + 16 <= |data|
    ensures PointIsAt(data, i, PointFrom(data[i..i + 16]))
  {
    SliceOfSlice(data, i, i + 16, 0, 4);
    SliceOfSlice(data, i, i + 16, 4, 8);
    SliceOfSlice(data, i, i + 16, 8, 10);
    SliceOfSlice(data, i, i + 16, 10, 12);
    SliceOfSlice(data, i, i + 16, 12, 16);
    ReadsU32(data, i);
    ReadsU32(data, i + 4);
    ReadsI16(data, i + 8);
    ReadsI16(data, i + 10);
    ReadsU32(data, i + 12);
  }

  lemma {:induction false} PointsAreRecords(b: seq<Byte>, n: nat, j: nat)
    requires TINY_POINT_SIZE * n <= |b| && j < n
    ensures PointsFrom(b, n)[j] == PointFrom(b[TINY_POINT_SIZE * j..TINY_POINT_SIZE * j + TINY_POINT_SIZE])
  {
    if j < n - 1 {
      PointsAreRecords(b, n - 1, j);
    }
  }

  /** The points of a block: none below four bytes, then one for every whole 16 bytes behind the first four. */
  ghost predicate PointsAreAt(data: seq<Byte>, offset: nat, length: nat, ps: seq<TinyPoint>) {
    && |ps| == (if length < 4 then 0 else (length - 4) / 16)
    && forall j :: 0 <= j < |ps| ==> PointIsAt(data, offset + 4 + 16 * j, ps[j])
  }

  lemma {:induction false} PointOfBlock(data: seq<Byte>, offset: nat, length: nat, n: nat, j: nat)
    requires offset + length <= |data| && 4 + 16 * n <= length && j < n
    ensures PointIsAt(data, offset + 4 + 16 * j, PointsFrom(data[offset + 4..offset + length], n)[j])
  {
    var b := data[offset + 4..offset + length];
    PointsAreRecords(b, n, j);
    SliceOfSlice(data, offset + 4, offset + length, 16 * j, 16 * j + 16);
    RecordIsAt(data, offset + 4 + 16 * j);
  }

  lemma {:induction false} DecodedIs(block: seq<Byte>) returns (ps: seq<TinyPoint>, n: nat)
    ensures ps == DecodeBlock(block) && |ps| == n == if |block| < 4 then 0 else (|block| - 4) / 16
    ensures |block| >= 4 ==> 4 + 16 * n <= |block| && ps == PointsFrom(block[4..], n)
  {
    ps := DecodeBlock(block);
    n := if |block| < 4 then 0 else (|block| - 4) / 16;
  }

  lemma {:induction false} PointsLie(data: seq<Byte>, offset: nat, length: nat, n: nat, ps: seq<TinyPoint>)
    requires offset + length <= |data| && 4 + 16 * n <= length && ps == PointsFrom(data[offset + 4..offset + length], n)
    ensures forall j :: 0 <= j < n ==> PointIsAt(data, offset + 4 + 16 * j, ps[j])
  {
    forall j | 0 <= j < n
      ensures PointIsAt(data, offset + 4 + 16 * j, ps[j])
    {
      PointOfBlock(data, offset, length, n, j);
    }
  }

  lemma {:induction false} BlockIsAt(data: seq<Byte>, offset: nat, length: nat)
    requires offset + length <= |data|
    ensures PointsAreAt(data, offset, length, DecodeBlock(data[offset..offset + length]))
  {
    var ps, n := DecodedIs(data[offset..offset + length]);
    if length >= 4 {
      SliceOfSlice(data, offset, offset + length, 4, length);
      PointsLie(data, offset, length, n, ps);
    }
  }

  /** Taking NULs off the end takes all of them and nothing else. */
  lemma {:induction false} TrimNulTakesTrailingZeros(b: seq<Byte>)
    ensures |TrimNul(b)| <= |b| && TrimNul(b) == b[..|TrimNul(b)|]
    ensures TrimNul(b) != [] ==> TrimNul(b)[|TrimNul(b)| - 1] != 0
    ensures forall i :: |TrimNul(b)| <= i < |b| ==> b[i] == 0
  {
    if b != [] {
      TrimNulTakesTrailingZeros(b[..|b| - 1]);
    }
  }

  /** The id in the 36 bytes at `e`. */
  ghost function IdAt(data: seq<Byte>, e: nat): ShapeId
    requires e + 36 <= |data|
  {
    TrimNul(data[e..e + 36])
  }

  /** No later entry of a table of `n` entries at `x` has the id of entry `i`. */
  ghost predicate IsLastOfItsId(data: seq<Byte>, x: nat, n: nat, i: nat)
    requires x + 44 * n <= |data| && i < n
  {
    forall j :: i < j < n ==> IdAt(data, x + 44 * j) != IdAt(data, x + 44 * i)
  }

  /** The map has the id of entry `i`, with the points that its offset and length lead to if it is the last of its id. */
  ghost predicate HasEntry(data: seq<Byte>, x: nat, n: nat, i: nat, m: map<ShapeId, seq<TinyPoint>>)
    requires x + 44 * n <= |data| && i < n
  {
    var e := x + 44 * i;
    && IdAt(data, e) in m
    && (IsLastOfItsId(data, x, n, i) ==> PointsAreAt(data, U32At(data, e + 36), U32At(data, e + 40), m[IdAt(data, e)]))
  }

  /** An entry as the parser reads it, from the bytes of the file. */
  lemma {:induction false} EntryFromFile(data: seq<Byte>, x: nat, xref: seq<Byte>, i: nat)
    requires x + |xref| <= |data| && data[x..x + |xref|] == xref && XREF_ENTRY_SIZE * (i + 1) <= |xref|
    ensures var e := x + 44 * i;
            ReadEntry(EntryAt(xref, i)) == XrefEntry(IdAt(data, e), U32At(data, e + 36), U32At(data, e + 40))
  {
    var e := x + 44 * i;
    SliceOfSlice(data, x, x + |xref|, 44 * i, 44 * i + 44);
    EntryFields(data, e);
  }

  lemma {:induction false} EntryFields(data: seq<Byte>, e: nat)
    requires e + 44 <= |data|
    ensures ReadEntry(data[e..e + 44]) == XrefEntry(IdAt(data, e), U32At(data, e + 36), U32At(data, e + 40))
  {
    SliceOfSlice(data, e, e + 44, 0, 36);
    SliceOfSlice(data, e, e + 44, 36, 40);
    SliceOfSlice(data, e, e + 44, 40, 44);
    ReadsU32(data, e + 36);
    ReadsU32(data, e + 40);
  }

  /** An accepted table ends with an entry in range, on top of an accepted table. */
  lemma {:induction false} TableEndsWith(data: seq<Byte>, xref: seq<Byte>, n: nat) returns (last: XrefEntry, m: map<ShapeId, seq<TinyPoint>>)
    requires 0 < n && XREF_ENTRY_SIZE * n <= |xref| && ParseEntries(data, xref, n).Ok?
    ensures last == ReadEntry(EntryAt(xref, n - 1)) && InRange(data, last) && ParseEntries(data, xref, n - 1) == Ok(m)
    ensures ParseEntries(data, xref, n).points == m[last.shapeId := PointsAt(data, last)]
  {
    last, m := ReadEntry(EntryAt(xref, n - 1)), ParseEntries(data, xref, n - 1).points;
    EntryStep(data, xref, n - 1, last, m);
  }

  lemma {:induction false} EntryIsKept(data: seq<Byte>, xref: seq<Byte>, n: nat, i: nat)
    requires XREF_ENTRY_SIZE * n <= |xref| && ParseEntries(data, xref, n).Ok? && i < n
    ensures var x, m := ReadEntry(EntryAt(xref, i)), ParseEntries(data, xref, n).points;
            && x.shapeId in m && InRange(data, x)
            && ((forall j :: i < j < n ==> ReadEntry(EntryAt(xref, j)).shapeId != x.shapeId) ==> m[x.shapeId] == PointsAt(data, x))
  {
    var last, m := TableEndsWith(data, xref, n);
    if i < n - 1 {
      EntryIsKept(data, xref, n - 1, i);
    }
  }

  lemma {:induction false} IdIsFromEntry(data: seq<Byte>, xref: seq<Byte>, n: nat, id: ShapeId) returns (i: nat)
    requires XREF_ENTRY_SIZE * n <= |xref| && ParseEntries(data, xref, n).Ok? && id in ParseEntries(data, xref, n).points
    ensures i < n && ReadEntry(EntryAt(xref, i)).shapeId == id
  {
    var last, m := TableEndsWith(data, xref, n);
    i := n - 1;
    if last.shapeId != id {
      i := IdIsFromEntry(data, xref, n - 1, id);
    }
  }

  lemma {:induction false} LastInTheFile(data: seq<Byte>, x: nat, xref: seq<Byte>, n: nat, i: nat)
    requires x + |xref| <= |data| && data[x..x + |xref|] == xref && |xref| == XREF_ENTRY_SIZE * n
    requires i < n && IsLastOfItsId(data, x, n, i)
    ensures forall j :: i < j < n ==> ReadEntry(EntryAt(xref, j)).shapeId != IdAt(data, x + 44 * i)
  {
    forall j | i < j < n
      ensures ReadEntry(EntryAt(xref, j)).shapeId != IdAt(data, x + 44 * i)
    {
      EntryFromFile(data, x, xref, j);
    }
  }

  lemma {:induction false} PointsOfEntry(data: seq<Byte>, r: XrefEntry)
    requires InRange(data, r)
    ensures PointsAreAt(data, r.offset, r.length, PointsAt(data, r))
  {
    BlockIsAt(data, r.offset, r.length);
  }

  lemma {:induction false} EntryGivesPoints(data: seq<Byte>, x: nat, xref: seq<Byte>, n: nat, i: nat)
    requires x + |xref| <= |data| && data[x..x + |xref|] == xref && |xref| == XREF_ENTRY_SIZE * n
    requires ParseEntries(data, xref, n).Ok? && i < n
    ensures HasEntry(data, x, n, i, ParseEntries(data, xref, n).points)
  {
    var r := ReadEntry(EntryAt(xref, i));
    EntryIsKept(data, xref, n, i);
    EntryFromFile(data, x, xref, i);
    PointsOfEntry(data, r);
    if IsLastOfItsId(data, x, n, i) {
      LastInTheFile(data, x, xref, n, i);
    }
  }

  /**
   What is read from accepted bytes: the last four give the place of the table, each of its 44-byte
   entries an id, an offset and a length, and the map has each id with the points of its last entry.
   */
  lemma {:induction false} ParsedBytes(data: seq<Byte>) returns (x: nat, n: nat)
    requires Parse(data).Ok?
    ensures |data| >= 80 && x == U32At(data, |data| - 4) && x >= 76 && n > 0 && x + 44 * n + 4 == |data|
    ensures forall i :: 0 <= i < n ==> HasEntry(data, x, n, i, Parse(data).points)
    ensures forall id :: id in Parse(data).points ==> exists i :: 0 <= i < n && IdAt(data, x + 44 * i) == id
  {
    x, n := TableOf(data);
    var xref := data[x..|data| - 4];
    forall i | 0 <= i < n
      ensures HasEntry(data, x, n, i, Parse(data).points)
    {
      EntryGivesPoints(data, x, xref, n, i);
    }
    forall id | id in Parse(data).points
      ensures exists i :: 0 <= i < n && IdAt(data, x + 44 * i) == id
    {
      var i := IdIsFromEntry(data, xref, n, id);
      EntryFromFile(data, x, xref, i);
    }
  }

  lemma {:induction false} TableOf(data: seq<Byte>) returns (x: nat, n: nat)
    requires Parse(data).Ok?
    ensures |data| >= 80 && x == U32At(data, |data| - 4) && x >= 76 && n > 0 && x + 44 * n + 4 == |data|
    ensures Parse(data) == ParseEntries(data, data[x..|data| - 4], n)
  {
    ParseByTable(data);
    TablePlaceIs(data);
    x := XrefOffset(data);
    n := (|data| - 4 - x) / 44;
  }

  lemma {:induction false} FirstOutOfRange(data: seq<Byte>, xref: seq<Byte>, n: nat) returns (i: nat)
    requires XREF_ENTRY_SIZE * n <= |xref| && ParseEntries(data, xref, n).Failed?
    ensures i < n && !InRange(data, ReadEntry(EntryAt(xref, i))) && ParseEntries(data, xref, i).Ok?
    ensures ParseEntries(data, xref, n) == Failed(OutOfRange(ReadEntry(EntryAt(xref, i)).shapeId))
  {
    var earlier := ParseEntries(data, xref, n - 1);
    if earlier.Failed? {
      FailureStays(data, xref, n - 1, n);
      i := FirstOutOfRange(data, xref, n - 1);
    } else {
      i := n - 1;
      EntryStep(data, xref, i, ReadEntry(EntryAt(xref, i)), earlier.points);
    }
  }

  /** Entry `i` of the table at `x` has this id and names bytes beyond the file; the entries before it do not. */
  ghost predicate IsFirstOutOfRange(data: seq<Byte>, x: nat, i: nat, id: ShapeId) {
    && x + 44 * (i + 1) <= |data| && IdAt(data, x + 44 * i) == id
    && U32At(data, x + 44 * i + 36) + U32At(data, x + 44 * i + 40) > |data|
    && forall j :: 0 <= j < i ==> U32At(data, x + 44 * j + 36) + U32At(data, x + 44 * j + 40) <= |data|
  }

  lemma {:induction false} FaultAt(data: seq<Byte>, x: nat, xref: seq<Byte>, i: nat)
    requires x + |xref| <= |data| && data[x..x + |xref|] == xref && XREF_ENTRY_SIZE * (i + 1) <= |xref|
    requires !InRange(data, ReadEntry(EntryAt(xref, i))) && ParseEntries(data, xref, i).Ok?
    ensures IsFirstOutOfRange(data, x, i, ReadEntry(EntryAt(xref, i)).shapeId)
  {
    EntryFromFile(data, x, xref, i);
    forall j | 0 <= j < i
      ensures U32At(data, x + 44 * j + 36) + U32At(data, x + 44 * j + 40) <= |data|
    {
      EntryIsKept(data, xref, i, j);
      EntryFromFile(data, x, xref, j);
    }
  }

  lemma {:induction false} TablePlaceIs(data: seq<Byte>)
    requires |data| >= 80
    ensures XrefOffset(data) == U32At(data, |data| - 4)
  {
    ReadsU32(data, |data| - 4);
    assert data[|data| - 4..] == data[|data| - 4..|data| - 4 + 4];
  }

  lemma {:induction false} ParseByTable(data: seq<Byte>)
    ensures |data| < 80 ==> Parse(data) == Failed(TooShort)
    ensures |data| >= 80 ==>
              var x := XrefOffset(data);
              Parse(data) == if !(76 <= x < |data| - 4) then Failed(InvalidXrefOffset)
                             else if (|data| - 4 - x) % 44 != 0 then Failed(UnsupportedVersion)
                             else ParseEntries(data, data[x..|data| - 4], (|data| - 4 - x) / 44)
  {
  }

  /** The error names the first fault: too few bytes, no place for the table, a broken entry, or the first block out of range. */
  lemma {:induction false} RefusalNamesTheFault(data: seq<Byte>) returns (i: nat)
    ensures Parse(data) == Failed(TooShort) <==> |data| < 80
    ensures Parse(data) == Failed(InvalidXrefOffset) <==> |data| >= 80 && !(76 <= U32At(data, |data| - 4) < |data| - 4)
    ensures Parse(data) == Failed(UnsupportedVersion) <==>
            |data| >= 80 && 76 <= U32At(data, |data| - 4) < |data| - 4 && (|data| - 4 - U32At(data, |data| - 4)) % 44 != 0
    ensures Parse(data).Failed? && Parse(data).error.OutOfRange? ==>
              IsFirstOutOfRange(data, U32At(data, |data| - 4), i, Parse(data).error.shapeId)
  {
    i := 0;
    ParseByTable(data);
    if |data| >= 80 {
      TablePlaceIs(data);
      var x := XrefOffset(data);
      if 76 <= x < |data| - 4 && (|data| - 4 - x) % 44 == 0 {
        i := FaultOfTable(data, x);
      }
    }
  }

  lemma {:induction false} FaultOfTable(data: seq<Byte>, x: nat) returns (i: nat)
    requires |data| >= 80 && 76 <= x < |data| - 4 && (|data| - 4 - x) % 44 == 0
    ensures var r := ParseEntries(data, data[x..|data| - 4], (|data| - 4 - x) / 44);
            r.Failed? ==> r.error.OutOfRange? && IsFirstOutOfRange(data, x, i, r.error.shapeId)
  {
    var xref, n := data[x..|data| - 4], (|data| - 4 - x) / 44;
    i := 0;
    if ParseEntries(data, xref, n).Failed? {
      i := FirstOutOfRange(data, xref, n);
      FaultAt(data, x, xref, i);
    }
  }

  // ----- what the builder writes -----

  lemma {:induction false} BlockStarts(blocks: seq<Block>, k: nat)
    requires k < |blocks|
    ensures HeadOf(blocks[..k]) + BlockBytes(blocks[k].points) <= HeadOf(blocks)
    ensures InfosOf(blocks)[k] == BlockInfo(blocks[k].id, End(blocks[..k]), |BlockBytes(blocks[k].points)|)
    decreases |blocks|
  {
    var m := |blocks| - 1;
    assert blocks[..m + 1] == blocks;
    LastOfPrefix(blocks, m);
    if k < m {
      assert blocks[..m][..k] == blocks[..k];
      BlockStarts(blocks[..m], k);
    }
  }

  lemma {:induction false} EntryStarts(infos: seq<BlockInfo>, k: nat)
    requires k < |infos|
    ensures XrefOf(infos[..k]) + EntryBytes(infos[k].shapeId, ToUint32(infos[k].offset), ToUint32(infos[k].length)) <= XrefOf(infos)
    decreases |infos|
  {
    var m := |infos| - 1;
    if k < m {
      assert infos[..m][..k] == infos[..k];
      EntryStarts(infos[..m], k);
    }
  }

  /** Four zero bytes and the points of a block at `at`. */
  ghost predicate BlockLiesAt(data: seq<Byte>, at: nat, ps: seq<TinyPoint>) {
    && at + 4 + 16 * |ps| <= |data|
    && data[at] == data[at + 1] == data[at + 2] == data[at + 3] == 0
    && PointsAreAt(data, at, 4 + 16 * |ps|, ps)
  }

  /** An entry at `e`: the id, cut off or padded with NULs to 36 bytes, then offset and length. */
  ghost predicate EntryLiesAt(data: seq<Byte>, e: nat, id: ShapeId, offset: nat, length: nat) {
    && e + 44 <= |data|
    && (forall i :: e <= i < e + 36 ==> data[i] == if i - e < |id| then id[i - e] else 0)
    && U32At(data, e + 36) == offset && U32At(data, e + 40) == length
  }

  /** Every block starts where the one before it ends, the first behind the header. */
  lemma {:induction false} BlocksAreAdjacent(blocks: seq<Block>, k: nat)
    ensures End([]) == 76
    ensures k < |blocks| ==> End(blocks[..k + 1]) == End(blocks[..k]) + 4 + 16 * |blocks[k].points|
  {
    if k < |blocks| {
      LastOfPrefix(blocks, k);
    }
  }

  /**
   The builder's layout: 76 zero bytes, the blocks one behind the other, for each of them in the
   same order a table entry with its id, start and length, then the place of the table.
   */
  lemma {:induction false} BuiltBytes(blocks: seq<Block>)
    requires End(blocks) < 0x8000_0000
    ensures var data, x := FileOf(blocks), End(blocks);
            && |data| == x + 44 * |blocks| + 4 && U32At(data, |data| - 4) == x
            && (forall i :: 0 <= i < 76 ==> data[i] == 0)
            && (forall k :: 0 <= k < |blocks| ==> BlockLiesAt(data, End(blocks[..k]), blocks[k].points))
            && (forall k :: 0 <= k < |blocks| ==>
                  EntryLiesAt(data, x + 44 * k, blocks[k].id, End(blocks[..k]), 4 + 16 * |blocks[k].points|))
  {
    HeaderIsZero(blocks);
    TableIsNamed(blocks);
    forall k | 0 <= k < |blocks|
      ensures BlockLiesAt(FileOf(blocks), End(blocks[..k]), blocks[k].points)
      ensures EntryLiesAt(FileOf(blocks), End(blocks) + 44 * k, blocks[k].id, End(blocks[..k]), 4 + 16 * |blocks[k].points|)
    {
      BuiltBlock(blocks, k);
      BuiltEntry(blocks, k);
    }
  }

  lemma {:induction false} HeaderIsZero(blocks: seq<Block>)
    ensures Zeros(76) <= HeadOf(blocks) <= FileOf(blocks)
    ensures forall i :: 0 <= i < 76 ==> FileOf(blocks)[i] == 0
  {
    if blocks != [] {
      HeaderIsZero(blocks[..|blocks| - 1]);
    }
    assert forall i :: 0 <= i < 76 ==> FileOf(blocks)[i] == HeadOf(blocks)[i] == Zeros(76)[i];
  }

  lemma {:induction false} TableIsNamed(blocks: seq<Block>)
    requires End(blocks) < 0x8000_0000
    ensures var data := FileOf(blocks); |data| == End(blocks) + 44 * |blocks| + 4 && U32At(data, |data| - 4) == End(blocks)
  {
    var head, xref, tail := FileParts(blocks);
    LastFour(head + xref, tail);
  }

  lemma {:induction false} LastFour(front: seq<Byte>, tail: seq<Byte>)
    requires |tail| == 4
    ensures var data := front + tail; |data| == |front| + 4 && U32At(data, |data| - 4) == GetUint32(tail)
  {
    var data := front + tail;
    assert data[|front|..|front| + 4] == tail;
    ReadsU32(data, |front|);
  }

  lemma {:induction false} BuiltBlock(blocks: seq<Block>, k: nat)
    requires k < |blocks|
    ensures BlockLiesAt(FileOf(blocks), End(blocks[..k]), blocks[k].points)
  {
    var block := BlockBytes(blocks[k].points);
    BlockStarts(blocks, k);
    HeaderIsZero(blocks);
    BlockInData(HeadOf(blocks[..k]), block, FileOf(blocks));
    BlockRoundTrip(blocks[k].points);
    BlockAt(FileOf(blocks), End(blocks[..k]), block, blocks[k].points);
  }

  lemma {:induction false} BlockAt(data: seq<Byte>, at: nat, block: seq<Byte>, ps: seq<TinyPoint>)
    requires at + |block| <= |data| && data[at..at + |block|] == block && |block| == 4 + 16 * |ps|
    requires block[0] == block[1] == block[2] == block[3] == 0 && DecodeBlock(block) == ps
    ensures BlockLiesAt(data, at, ps)
  {
    assert data[at] == block[0] && data[at + 1] == block[1] && data[at + 2] == block[2] && data[at + 3] == block[3];
    BlockIsAt(data, at, |block|);
  }

  lemma {:induction false} SmallEntry(info: BlockInfo)
    requires 0 <= info.offset < 0x8000_0000 && 0 <= info.length < 0x8000_0000
    ensures EntryBytes(info.shapeId, ToUint32(info.offset), ToUint32(info.length)) == EntryBytes(info.shapeId, info.offset, info.length)
  {
    SmallNumbers(info.offset);
    SmallNumbers(info.length);
  }

  lemma {:induction false} EntryInXref(infos: seq<BlockInfo>, k: nat, info: BlockInfo)
    requires k < |infos| && infos[k] == info && 0 <= info.offset < 0x8000_0000 && 0 <= info.length < 0x8000_0000
    ensures 44 * k + 44 <= |XrefOf(infos)|
    ensures XrefOf(infos)[44 * k..44 * k + 44] == EntryBytes(info.shapeId, info.offset, info.length)
  {
    EntryStarts(infos, k);
    SmallEntry(info);
    EntryInTable(XrefOf(infos[..k]), EntryBytes(info.shapeId, info.offset, info.length), XrefOf(infos), k);
  }

  lemma {:induction false} InfoIs(blocks: seq<Block>, k: nat) returns (info: BlockInfo)
    requires k < |blocks|
    ensures InfosOf(blocks)[k] == info == BlockInfo(blocks[k].id, End(blocks[..k]), 4 + 16 * |blocks[k].points|)
    ensures 0 <= info.offset && 0 <= info.length && info.offset + info.length <= End(blocks)
  {
    BlockStarts(blocks, k);
    info := InfosOf(blocks)[k];
  }

  lemma {:induction false} FileParts(blocks: seq<Block>) returns (head: seq<Byte>, xref: seq<Byte>, tail: seq<Byte>)
    ensures FileOf(blocks) == head + xref + tail
    ensures |head| == End(blocks) && xref == XrefOf(InfosOf(blocks)) && |xref| == 44 * |blocks|
    ensures |tail| == 4 && (End(blocks) < 0x8000_0000 ==> GetUint32(tail) == End(blocks))
  {
    head, xref, tail := HeadOf(blocks), XrefOf(InfosOf(blocks)), PutUint32(ToUint32(End(blocks)));
    Uint32RoundTrip(ToUint32(End(blocks)));
    if End(blocks) < 0x8000_0000 {
      SmallNumbers(End(blocks));
    }
  }

  lemma {:induction false} BuiltEntry(blocks: seq<Block>, k: nat)
    requires k < |blocks| && End(blocks) < 0x8000_0000
    ensures EntryLiesAt(FileOf(blocks), End(blocks) + 44 * k, blocks[k].id, End(blocks[..k]), 4 + 16 * |blocks[k].points|)
  {
    var info := InfoIs(blocks, k);
    EntryInXref(InfosOf(blocks), k, info);
    var head, xref, tail := FileParts(blocks);
    EntryOfTable(head, xref, tail, k, info.shapeId, info.offset, info.length);
  }

  lemma {:induction false} EntryOfTable(head: seq<Byte>, xref: seq<Byte>, tail: seq<Byte>, k: nat, id: ShapeId, offset: Uint32, length: Uint32)
    requires 44 * k + 44 <= |xref| && xref[44 * k..44 * k + 44] == EntryBytes(id, offset, length) && |tail| == 4
    ensures EntryLiesAt(head + xref + tail, |head| + 44 * k, id, offset, length)
  {
    var data, x := head + xref + tail, |head|;
    ThreeParts(head, xref, tail);
    assert data[x..x + |xref|] == xref;
    SliceOfSlice(data, x, x + |xref|, 44 * k, 44 * k + 44);
    EntryAtPlace(data, x + 44 * k, id, offset, length);
  }

  lemma {:induction false} EntryAtPlace(data: seq<Byte>, e: nat, id: ShapeId, offset: Uint32, length: Uint32)
    requires e + 44 <= |data| && data[e..e + 44] == EntryBytes(id, offset, length)
    ensures EntryLiesAt(data, e, id, offset, length)
  {
    EntryFields(data, e);
    EntryRoundTrip(id, offset, length);
    forall i | e <= i < e + 36
      ensures data[i] == if i - e < |id| then id[i - e] else 0
    {
      assert data[i] == data[e..e + 44][i - e] == PadId(id)[i - e];
    }
  }
}
