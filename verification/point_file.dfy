/**
 Boox point files: a 76-byte header, one block of points per shape, a cross-reference table of
 44-byte entries, and the table's offset in the last four bytes, all big-endian.
 */
module PointFile {
  import opened Bytes

  const POINT_HEADER_SIZE := 76
  const XREF_ENTRY_SIZE := 44
  const TINY_POINT_SIZE := 16
  const POINT_ATTR_SIZE := 4
  const ID_SIZE := 36

  /** A shape id, as the bytes of its string. */
  type ShapeId = seq<Byte>
  type Uint32 = n: int | 0 <= n < 0x1_0000_0000
  type Int16 = n: int | -0x8000 <= n < 0x8000

  /** Coordinates are kept as float32 bit patterns. */
  datatype TinyPoint = TinyPoint(x: Uint32, y: Uint32, size: Int16, pressure: Int16, time: Uint32)

  datatype Block = Block(id: ShapeId, points: seq<TinyPoint>)

  // ----- numbers -----

  function Capacity(width: nat): nat {
    if width == 0 then 1 else 256 * Capacity(width - 1)
  }

  /** The low bytes of a number, most significant first. */
  function BigEndian(n: nat, width: nat): (b: seq<Byte>)
    ensures |b| == width
  {
    if width == 0 then [] else BigEndian(n / 256, width - 1) + [n % 256]
  }

  function FromBigEndian(b: seq<Byte>): (n: nat)
    ensures n < Capacity(|b|)
  {
    if b == [] then 0
    else
      var low: int := b[|b| - 1];
      FromBigEndian(b[..|b| - 1]) * 256 + low
  }

  lemma {:induction false} BigEndianRoundTrip(n: nat, width: nat)
    requires n < Capacity(width)
    ensures FromBigEndian(BigEndian(n, width)) == n
  {
    if width > 0 {
      BigEndianRoundTrip(n / 256, width - 1);
      assert BigEndian(n, width)[..width - 1] == BigEndian(n / 256, width - 1);
    }
  }

  function PutUint16(n: Int16): (b: seq<Byte>)
    ensures |b| == 2
  {
    BigEndian(if n < 0 then n + 0x1_0000 else n, 2)
  }

  lemma Capacities()
    ensures Capacity(2) == 0x1_0000 && Capacity(4) == 0x1_0000_0000
  {
    assert Capacity(3) == 256 * Capacity(2);
  }

  function GetInt16(b: seq<Byte>): Int16
    requires |b| == 2
  {
    Capacities();
    var u := FromBigEndian(b);
    if u < 0x8000 then u else u - 0x1_0000
  }

  lemma {:induction false} Int16RoundTrip(n: Int16)
    ensures GetInt16(PutUint16(n)) == n
  {
    Capacities();
    BigEndianRoundTrip(if n < 0 then n + 0x1_0000 else n, 2);
  }

  function PutUint32(n: Uint32): (b: seq<Byte>)
    ensures |b| == 4
  {
    BigEndian(n, 4)
  }

  function GetUint32(b: seq<Byte>): Uint32
    requires |b| == 4
  {
    Capacities();
    FromBigEndian(b)
  }

  lemma {:induction false} Uint32RoundTrip(n: Uint32)
    ensures GetUint32(PutUint32(n)) == n
  {
    Capacities();
    BigEndianRoundTrip(n, 4);
  }

  // ----- points -----

  function PointBytes(p: TinyPoint): (b: seq<Byte>)
    ensures |b| == TINY_POINT_SIZE
  {
    PutUint32(p.x) + PutUint32(p.y) + PutUint16(p.size) + PutUint16(p.pressure) + PutUint32(p.time)
  }

  function PointFrom(rec: seq<Byte>): TinyPoint
    requires |rec| == TINY_POINT_SIZE
  {
    TinyPoint(GetUint32(rec[0..4]), GetUint32(rec[4..8]), GetInt16(rec[8..10]), GetInt16(rec[10..12]), GetUint32(rec[12..16]))
  }

  lemma {:induction false} PointRoundTrip(p: TinyPoint)
    ensures PointFrom(PointBytes(p)) == p
  {
    var b := PointBytes(p);
    assert b[0..4] == PutUint32(p.x) && b[4..8] == PutUint32(p.y) && b[12..16] == PutUint32(p.time);
    assert b[8..10] == PutUint16(p.size) && b[10..12] == PutUint16(p.pressure);
    Uint32RoundTrip(p.x);
    Uint32RoundTrip(p.y);
    Uint32RoundTrip(p.time);
    Int16RoundTrip(p.size);
    Int16RoundTrip(p.pressure);
  }

  function PointsBytes(ps: seq<TinyPoint>): (b: seq<Byte>)
    ensures |b| == TINY_POINT_SIZE * |ps|
  {
    if ps == [] then [] else PointsBytes(ps[..|ps| - 1]) + PointBytes(ps[|ps| - 1])
  }

  /** The first `n` points of a block's data. */
  function PointsFrom(b: seq<Byte>, n: nat): (ps: seq<TinyPoint>)
    requires TINY_POINT_SIZE * n <= |b|
    ensures |ps| == n
  {
    if n == 0 then []
    else PointsFrom(b, n - 1) + [PointFrom(b[TINY_POINT_SIZE * (n - 1)..TINY_POINT_SIZE * (n - 1) + TINY_POINT_SIZE])]
  }

  function Zeros(n: nat): (b: seq<Byte>)
    ensures |b| == n
  {
    seq(n, _ => 0)
  }

  function BlockBytes(ps: seq<TinyPoint>): (b: seq<Byte>)
    ensures |b| == POINT_ATTR_SIZE + TINY_POINT_SIZE * |ps|
  {
    Zeros(POINT_ATTR_SIZE) + PointsBytes(ps)
  }

  /** Four attribute bytes, then as many whole points as fit; a block without either has no points. */
  function DecodeBlock(block: seq<Byte>): seq<TinyPoint> {
    if |block| < POINT_ATTR_SIZE then []
    else
      var pointData := block[POINT_ATTR_SIZE..];
      PointsFrom(pointData, |pointData| / TINY_POINT_SIZE)
  }

  lemma {:induction false} PointsFromPrefix(a: seq<Byte>, b: seq<Byte>, n: nat)
    requires TINY_POINT_SIZE * n <= |a|
    ensures PointsFrom(a + b, n) == PointsFrom(a, n)
  {
    if n > 0 {
      PointsFromPrefix(a, b, n - 1);
      var lo := TINY_POINT_SIZE * (n - 1);
      assert (a + b)[lo..lo + TINY_POINT_SIZE] == a[lo..lo + TINY_POINT_SIZE];
    }
  }

  lemma {:induction false} PointsFromSnoc(b: seq<Byte>, rec: seq<Byte>, n: nat)
    requires |b| == TINY_POINT_SIZE * n && |rec| == TINY_POINT_SIZE
    ensures PointsFrom(b + rec, n + 1) == PointsFrom(b, n) + [PointFrom(rec)]
  {
    PointsFromPrefix(b, rec, n);
    assert (b + rec)[TINY_POINT_SIZE * n..TINY_POINT_SIZE * n + TINY_POINT_SIZE] == rec;
  }

  lemma {:induction false} PointsRoundTrip(ps: seq<TinyPoint>)
    ensures PointsFrom(PointsBytes(ps), |ps|) == ps
  {
    if ps != [] {
      var front, last := ps[..|ps| - 1], ps[|ps| - 1];
      assert ps == front + [last];
      PointsRoundTrip(front);
      PointsFromSnoc(PointsBytes(front), PointBytes(last), |front|);
      PointRoundTrip(last);
    }
  }

  lemma {:induction false} BlockRoundTrip(ps: seq<TinyPoint>)
    ensures DecodeBlock(BlockBytes(ps)) == ps
  {
    assert BlockBytes(ps)[POINT_ATTR_SIZE..] == PointsBytes(ps);
    PointsRoundTrip(ps);
  }

  method DecodeTinyPoints(block: seq<Byte>) returns (out: seq<TinyPoint>)
    ensures out == DecodeBlock(block)
  {
    if |block| < POINT_ATTR_SIZE {
      return [];
    }
    var pointData := block[POINT_ATTR_SIZE..];
    var n := |pointData| / TINY_POINT_SIZE;
    if n == 0 {
      return [];
    }
    out := DecodePoints(pointData, n);
  }

  method DecodePoints(pointData: seq<Byte>, n: nat) returns (out: seq<TinyPoint>)
    requires TINY_POINT_SIZE * n <= |pointData|
    ensures out == PointsFrom(pointData, n)
  {
    var points := new TinyPoint[n];
    for i := 0 to n
      invariant points[..i] == PointsFrom(pointData, i)
    {
      var off := TINY_POINT_SIZE * i;
      points[i] := PointFrom(pointData[off..off + TINY_POINT_SIZE]);
      assert points[..i + 1] == points[..i] + [points[i]];
    }
    assert points[..n] == points[..];
    out := points[..];
  }

  // ----- shape ids -----

  /** An id in its 36-byte field: cut off if longer, padded with NUL if shorter. */
  function PadId(id: ShapeId): (b: seq<Byte>)
    ensures |b| == ID_SIZE
  {
    if |id| >= ID_SIZE then id[..ID_SIZE] else id + Zeros(ID_SIZE - |id|)
  }

  function TrimNul(b: seq<Byte>): ShapeId {
    if b != [] && b[|b| - 1] == 0 then TrimNul(b[..|b| - 1]) else b
  }

  predicate FitsField(id: ShapeId) {
    |id| <= ID_SIZE && (id != [] ==> id[|id| - 1] != 0)
  }

  lemma {:induction false} TrimDropsZeros(id: ShapeId, n: nat)
    ensures TrimNul(id + Zeros(n)) == TrimNul(id)
  {
    if n == 0 {
      assert id + Zeros(0) == id;
    } else {
      assert (id + Zeros(n))[..|id| + n - 1] == id + Zeros(n - 1);
      TrimDropsZeros(id, n - 1);
    }
  }

  lemma {:induction false} TrimFits(b: seq<Byte>)
    ensures |TrimNul(b)| <= |b| && (TrimNul(b) != [] ==> TrimNul(b)[|TrimNul(b)| - 1] != 0)
  {
    if b != [] {
      TrimFits(b[..|b| - 1]);
    }
  }

  /** An id survives its field exactly when it is short enough and does not end in NUL. */
  lemma {:induction false} IdRoundTrip(id: ShapeId)
    ensures TrimNul(PadId(id)) == id <==> FitsField(id)
    ensures FitsField(TrimNul(PadId(id)))
  {
    TrimFits(PadId(id));
    if FitsField(id) {
      TrimDropsZeros(id, ID_SIZE - |id|);
      assert |id| == ID_SIZE ==> id[..ID_SIZE] == id;
    }
  }

  // ----- the file -----

  /** The header and the blocks. */
  function HeadOf(blocks: seq<Block>): (b: seq<Byte>)
    ensures |b| >= POINT_HEADER_SIZE
  {
    if blocks == [] then Zeros(POINT_HEADER_SIZE)
    else HeadOf(blocks[..|blocks| - 1]) + BlockBytes(blocks[|blocks| - 1].points)
  }

  /** Where the block after these starts. */
  function End(blocks: seq<Block>): nat {
    |HeadOf(blocks)|
  }

  function EntryBytes(id: ShapeId, offset: Uint32, length: Uint32): (b: seq<Byte>)
    ensures |b| == XREF_ENTRY_SIZE
  {
    PadId(id) + PutUint32(offset) + PutUint32(length)
  }

  /** Go's `int32` conversion, and `uint32` of the result. */
  function Int32(n: int): int {
    (n + 0x8000_0000) % 0x1_0000_0000 - 0x8000_0000
  }

  function ToUint32(n: int): Uint32 {
    n % 0x1_0000_0000
  }

  lemma {:induction false} SmallNumbers(n: nat)
    requires n < 0x8000_0000
    ensures Int32(n) == n == ToUint32(n)
  {
  }

  datatype BlockInfo = BlockInfo(shapeId: ShapeId, offset: int, length: int)

  /** Where each block lies. */
  function InfosOf(blocks: seq<Block>): (infos: seq<BlockInfo>)
    ensures |infos| == |blocks|
  {
    if blocks == [] then []
    else
      var front, last := blocks[..|blocks| - 1], blocks[|blocks| - 1];
      InfosOf(front) + [BlockInfo(last.id, End(front), |BlockBytes(last.points)|)]
  }

  function XrefOf(infos: seq<BlockInfo>): (b: seq<Byte>)
    ensures |b| == XREF_ENTRY_SIZE * |infos|
  {
    if infos == [] then []
    else
      var last := infos[|infos| - 1];
      XrefOf(infos[..|infos| - 1]) + EntryBytes(last.shapeId, ToUint32(last.offset), ToUint32(last.length))
  }

  function FileOf(blocks: seq<Block>): seq<Byte> {
    HeadOf(blocks) + XrefOf(InfosOf(blocks)) + PutUint32(ToUint32(End(blocks)))
  }

  /** The order in which the map's keys happen to be visited. */
  ghost predicate IsOrderOf(order: seq<ShapeId>, m: map<ShapeId, seq<TinyPoint>>) {
    && (forall id :: id in m <==> id in order)
    && (forall i, j :: 0 <= i < j < |order| ==> order[i] != order[j])
  }

  function Visited(m: map<ShapeId, seq<TinyPoint>>, order: seq<ShapeId>): (blocks: seq<Block>)
    requires forall id :: id in order ==> id in m
    ensures |blocks| == |order|
  {
    seq(|order|, i requires 0 <= i < |order| => Block(order[i], m[order[i]]))
  }

  /** Beyond 2 GiB of points the builder's 32-bit offsets turn negative and it fails. */
  method BuildPointFile(pointMap: map<ShapeId, seq<TinyPoint>>, order: seq<ShapeId>) returns (buf: seq<Byte>)
    requires IsOrderOf(order, pointMap) && End(Visited(pointMap, order)) < 0x8000_0000
    ensures buf == FileOf(Visited(pointMap, order))
  {
    ghost var all := Visited(pointMap, order);
    buf := Zeros(POINT_HEADER_SIZE);
    var blocks: seq<BlockInfo> := [];
    for k := 0 to |order|
      invariant buf == HeadOf(all[..k])
      invariant blocks == InfosOf(all[..k])
    {
      EndGrows(all, k + 1);
      LastOfPrefix(all, k);
      var info;
      buf, info := AppendBlock(buf, order[k], pointMap[order[k]]);
      blocks := blocks + [info];
    }
    assert all[..|order|] == all;
    SmallNumbers(|buf|);
    var xrefOffset := Int32(|buf|);
    buf := WriteXref(buf, blocks);
    buf := buf + PutUint32(ToUint32(xrefOffset));
  }

  lemma {:induction false} LastOfPrefix(all: seq<Block>, k: nat)
    requires k < |all|
    ensures HeadOf(all[..k + 1]) == HeadOf(all[..k]) + BlockBytes(all[k].points)
    ensures InfosOf(all[..k + 1]) == InfosOf(all[..k]) + [BlockInfo(all[k].id, End(all[..k]), |BlockBytes(all[k].points)|)]
  {
    assert all[..k + 1][..k] == all[..k] && all[..k + 1][k] == all[k];
  }

  lemma {:induction false} Regroup(a: seq<Byte>, b: seq<Byte>, c: seq<Byte>)
    ensures (a + b) + c == a + (b + c)
  {
  }

  lemma {:induction false} BlockInData(head: seq<Byte>, block: seq<Byte>, data: seq<Byte>)
    requires head + block <= data
    ensures head <= data && |head| + |block| <= |data| && data[|head|..|head| + |block|] == block
  {
  }

  /** One turn of the builder's first loop: the block is written and its place noted. */
  method AppendBlock(start: seq<Byte>, shapeId: ShapeId, points: seq<TinyPoint>) returns (buf: seq<Byte>, info: BlockInfo)
    requires |start| + |BlockBytes(points)| < 0x8000_0000
    ensures buf == start + BlockBytes(points)
    ensures info == BlockInfo(shapeId, |start|, |BlockBytes(points)|)
  {
    var blockOffset := Int32(|start|);
    buf := AppendPoints(start + Zeros(POINT_ATTR_SIZE), points);
    Regroup(start, Zeros(POINT_ATTR_SIZE), PointsBytes(points));
    SmallNumbers(|start|);
    SmallNumbers(|buf|);
    SmallNumbers(|BlockBytes(points)|);
    BlockInData(start, BlockBytes(points), buf);
    var blockLength := Int32(Int32(|buf|) - blockOffset);
    var blockData := buf[blockOffset..blockOffset + blockLength];
    assert blockData == BlockBytes(points);
    info := BlockInfo(shapeId, blockOffset, blockLength);
  }

  lemma {:induction false} EndGrows(all: seq<Block>, k: nat)
    requires k <= |all|
    ensures End(all[..k]) <= End(all)
    decreases |all|
  {
    if k < |all| {
      assert all[..|all| - 1][..k] == all[..k];
      EndGrows(all[..|all| - 1], k);
    } else {
      assert all[..k] == all;
    }
  }

  method AppendPoints(start: seq<Byte>, points: seq<TinyPoint>) returns (buf: seq<Byte>)
    ensures buf == start + PointsBytes(points)
  {
    buf := start;
    for i := 0 to |points|
      invariant buf == start + PointsBytes(points[..i])
    {
      assert points[..i + 1][..i] == points[..i];
      buf := buf + PointBytes(points[i]);
    }
    assert points[..|points|] == points;
  }

  lemma {:induction false} LastEntry(infos: seq<BlockInfo>, info: BlockInfo)
    ensures XrefOf(infos + [info]) == XrefOf(infos) + EntryBytes(info.shapeId, ToUint32(info.offset), ToUint32(info.length))
  {
    assert (infos + [info])[..|infos|] == infos;
  }

  method WriteXref(start: seq<Byte>, blocks: seq<BlockInfo>) returns (buf: seq<Byte>)
    ensures buf == start + XrefOf(blocks)
  {
    buf := start;
    for i := 0 to |blocks|
      invariant buf == start + XrefOf(blocks[..i])
    {
      assert blocks[..i + 1] == blocks[..i] + [blocks[i]];
      LastEntry(blocks[..i], blocks[i]);
      Regroup(start, XrefOf(blocks[..i]), EntryBytes(blocks[i].shapeId, ToUint32(blocks[i].offset), ToUint32(blocks[i].length)));
      buf := buf + EntryBytes(blocks[i].shapeId, ToUint32(blocks[i].offset), ToUint32(blocks[i].length));
    }
    assert blocks[..|blocks|] == blocks;
  }

  // ----- the parser -----

  datatype ParseError = TooShort | InvalidXrefOffset | UnsupportedVersion | OutOfRange(shapeId: ShapeId)
  datatype Parsed = Ok(points: map<ShapeId, seq<TinyPoint>>) | Failed(error: ParseError)

  function XrefOffset(data: seq<Byte>): Uint32
    requires |data| >= 4
  {
    GetUint32(data[|data| - 4..])
  }

  function EntryAt(xref: seq<Byte>, i: nat): (e: seq<Byte>)
    requires XREF_ENTRY_SIZE * (i + 1) <= |xref|
    ensures |e| == XREF_ENTRY_SIZE
  {
    xref[XREF_ENTRY_SIZE * i..XREF_ENTRY_SIZE * i + XREF_ENTRY_SIZE]
  }

  datatype XrefEntry = XrefEntry(shapeId: ShapeId, offset: Uint32, length: Uint32)

  function ReadEntry(e: seq<Byte>): XrefEntry
    requires |e| == XREF_ENTRY_SIZE
  {
    XrefEntry(TrimNul(e[..ID_SIZE]), GetUint32(e[36..40]), GetUint32(e[40..44]))
  }

  predicate InRange(data: seq<Byte>, x: XrefEntry) {
    x.offset + x.length <= |data|
  }

  function PointsAt(data: seq<Byte>, x: XrefEntry): seq<TinyPoint>
    requires InRange(data, x)
  {
    DecodeBlock(data[x.offset..x.offset + x.length])
  }

  /** The first `n` entries; a bad one ends the reading. */
  function ParseEntries(data: seq<Byte>, xref: seq<Byte>, n: nat): Parsed
    requires XREF_ENTRY_SIZE * n <= |xref|
  {
    if n == 0 then Ok(map[])
    else
      match ParseEntries(data, xref, n - 1)
      case Failed(error) => Failed(error)
      case Ok(points) =>
        var x := ReadEntry(EntryAt(xref, n - 1));
        if InRange(data, x) then Ok(points[x.shapeId := PointsAt(data, x)]) else Failed(OutOfRange(x.shapeId))
  }

  function Parse(data: seq<Byte>): Parsed {
    if |data| < POINT_HEADER_SIZE + 4 then Failed(TooShort)
    else
      var xrefOff := XrefOffset(data);
      if xrefOff < POINT_HEADER_SIZE || xrefOff >= |data| - 4 then Failed(InvalidXrefOffset)
      else
        var xref := data[xrefOff..|data| - 4];
        if |xref| % XREF_ENTRY_SIZE != 0 then Failed(UnsupportedVersion)
        else ParseEntries(data, xref, |xref| / XREF_ENTRY_SIZE)
  }

  /** Every slice below is checked to lie within the bytes at hand, whatever those are. */
  method ParsePointFile(data: seq<Byte>) returns (r: Parsed)
    ensures r == Parse(data)
  {
    if |data| < POINT_HEADER_SIZE + 4 {
      return Failed(TooShort);
    }
    var xrefOff := GetUint32(data[|data| - 4..]);
    if xrefOff < POINT_HEADER_SIZE || xrefOff >= |data| - 4 {
      return Failed(InvalidXrefOffset);
    }
    var xrefData := data[xrefOff..|data| - 4];
    if |xrefData| % XREF_ENTRY_SIZE != 0 {
      return Failed(UnsupportedVersion);
    }
    r := ParseTable(data, xrefData, |xrefData| / XREF_ENTRY_SIZE);
  }

  lemma {:induction false} EntryStep(data: seq<Byte>, xref: seq<Byte>, n: nat, x: XrefEntry, earlier: map<ShapeId, seq<TinyPoint>>)
    requires XREF_ENTRY_SIZE * (n + 1) <= |xref| && ReadEntry(EntryAt(xref, n)) == x
    requires ParseEntries(data, xref, n) == Ok(earlier)
    ensures ParseEntries(data, xref, n + 1)
            == if InRange(data, x) then Ok(earlier[x.shapeId := PointsAt(data, x)]) else Failed(OutOfRange(x.shapeId))
  {
  }

  method ReadPoints(data: seq<Byte>, x: XrefEntry) returns (points: seq<TinyPoint>)
    requires InRange(data, x)
    ensures points == PointsAt(data, x)
  {
    points := DecodeTinyPoints(data[x.offset..x.offset + x.length]);
  }

  /** One more entry. */
  method ParseEntry(data: seq<Byte>, xref: seq<Byte>, i: nat, result: map<ShapeId, seq<TinyPoint>>) returns (r: Parsed)
    requires XREF_ENTRY_SIZE * (i + 1) <= |xref|
    requires ParseEntries(data, xref, i) == Ok(result)
    ensures r == ParseEntries(data, xref, i + 1)
  {
    var x := ReadEntry(EntryAt(xref, i));
    EntryStep(data, xref, i, x, result);
    if !InRange(data, x) {
      return Failed(OutOfRange(x.shapeId));
    }
    var points := ReadPoints(data, x);
    r := Ok(result[x.shapeId := points]);
  }

  /** The loop over the entries; it stops at the first bad one. */
  method ParseTable(data: seq<Byte>, xref: seq<Byte>, nEntries: nat) returns (r: Parsed)
    requires XREF_ENTRY_SIZE * nEntries <= |xref|
    ensures r == ParseEntries(data, xref, nEntries)
  {
    r := Ok(map[]);
    for i := 0 to nEntries
      invariant r.Ok? && ParseEntries(data, xref, i) == r
    {
      r := ParseEntry(data, xref, i, r.points);
      if r.Failed? {
        FailureStays(data, xref, i + 1, nEntries);
        return;
      }
    }
  }

  lemma {:induction false} FailureStays(data: seq<Byte>, xref: seq<Byte>, i: nat, n: nat)
    requires i <= n && XREF_ENTRY_SIZE * n <= |xref|
    requires ParseEntries(data, xref, i).Failed?
    ensures ParseEntries(data, xref, n) == ParseEntries(data, xref, i)
  {
    if i < n {
      FailureStays(data, xref, i, n - 1);
    }
  }

  // ----- round trip -----

  /** What the entries of these blocks add up to. */
  function Assembled(blocks: seq<Block>): map<ShapeId, seq<TinyPoint>> {
    if blocks == [] then map[]
    else
      var last := blocks[|blocks| - 1];
      Assembled(blocks[..|blocks| - 1])[TrimNul(PadId(last.id)) := last.points]
  }

  lemma {:induction false} EntryRoundTrip(id: ShapeId, offset: Uint32, length: Uint32)
    ensures ReadEntry(EntryBytes(id, offset, length)) == XrefEntry(TrimNul(PadId(id)), offset, length)
  {
    var e := EntryBytes(id, offset, length);
    assert e[..ID_SIZE] == PadId(id) && e[36..40] == PutUint32(offset) && e[40..44] == PutUint32(length);
    Uint32RoundTrip(offset);
    Uint32RoundTrip(length);
  }

  lemma {:induction false} EntryInTable(front: seq<Byte>, e: seq<Byte>, xref: seq<Byte>, n: nat)
    requires |front| == XREF_ENTRY_SIZE * n && |e| == XREF_ENTRY_SIZE && front + e <= xref
    ensures XREF_ENTRY_SIZE * (n + 1) <= |xref| && EntryAt(xref, n) == e
  {
  }

  lemma {:induction false} PrefixOfPrefix(a: seq<Byte>, b: seq<Byte>, d: seq<Byte>)
    requires a + b <= d
    ensures a <= d
  {
  }

  lemma {:induction false} EntriesParse(data: seq<Byte>, xref: seq<Byte>, blocks: seq<Block>)
    requires HeadOf(blocks) <= data && XrefOf(InfosOf(blocks)) <= xref
    requires End(blocks) < 0x8000_0000
    ensures ParseEntries(data, xref, |blocks|) == Ok(Assembled(blocks))
  {
    if blocks != [] {
      var m := |blocks| - 1;
      var front, last := blocks[..m], blocks[m];
      LastBlockIsThere(data, blocks);
      LastEntryIsThere(xref, blocks);
      EntriesParse(data, xref, front);
      BlockRoundTrip(last.points);
      EntryStep(data, xref, m, XrefEntry(TrimNul(PadId(last.id)), End(front), |BlockBytes(last.points)|), Assembled(front));
    }
  }

  lemma {:induction false} LastBlockIsThere(data: seq<Byte>, blocks: seq<Block>)
    requires blocks != [] && HeadOf(blocks) <= data
    ensures var front, last := blocks[..|blocks| - 1], blocks[|blocks| - 1];
            && HeadOf(front) <= data && End(blocks) == End(front) + |BlockBytes(last.points)| <= |data|
            && data[End(front)..End(front) + |BlockBytes(last.points)|] == BlockBytes(last.points)
  {
    BlockInData(HeadOf(blocks[..|blocks| - 1]), BlockBytes(blocks[|blocks| - 1].points), data);
  }

  lemma {:induction false} LastEntryIsThere(xref: seq<Byte>, blocks: seq<Block>)
    requires blocks != [] && XrefOf(InfosOf(blocks)) <= xref && End(blocks) < 0x8000_0000
    ensures var front, last := blocks[..|blocks| - 1], blocks[|blocks| - 1];
            && XrefOf(InfosOf(front)) <= xref && XREF_ENTRY_SIZE * |blocks| <= |xref|
            && End(front) < 0x8000_0000 && |BlockBytes(last.points)| < 0x8000_0000
            && ReadEntry(EntryAt(xref, |blocks| - 1)) == XrefEntry(TrimNul(PadId(last.id)), End(front), |BlockBytes(last.points)|)
  {
    var front, last := blocks[..|blocks| - 1], blocks[|blocks| - 1];
    LastBlock(blocks);
    EntryIsThere(xref, XrefOf(InfosOf(front)), |front|, last.id, End(front), |BlockBytes(last.points)|);
  }

  lemma {:induction false} LastBlock(blocks: seq<Block>)
    requires blocks != []
    ensures var front, last := blocks[..|blocks| - 1], blocks[|blocks| - 1];
            && HeadOf(blocks) == HeadOf(front) + BlockBytes(last.points)
            && XrefOf(InfosOf(blocks))
               == XrefOf(InfosOf(front)) + EntryBytes(last.id, ToUint32(End(front)), ToUint32(|BlockBytes(last.points)|))
            && End(blocks) == End(front) + |BlockBytes(last.points)|
  {
    var m := |blocks| - 1;
    assert blocks[..m + 1] == blocks;
    LastOfPrefix(blocks, m);
    LastEntry(InfosOf(blocks[..m]), BlockInfo(blocks[m].id, End(blocks[..m]), |BlockBytes(blocks[m].points)|));
  }

  lemma {:induction false} EntryIsThere(xref: seq<Byte>, front: seq<Byte>, n: nat, id: ShapeId, offset: nat, length: nat)
    requires offset < 0x8000_0000 && length < 0x8000_0000 && |front| == XREF_ENTRY_SIZE * n
    requires front + EntryBytes(id, ToUint32(offset), ToUint32(length)) <= xref
    ensures front <= xref && XREF_ENTRY_SIZE * (n + 1) <= |xref|
    ensures ReadEntry(EntryAt(xref, n)) == XrefEntry(TrimNul(PadId(id)), offset, length)
  {
    var e := EntryBytes(id, ToUint32(offset), ToUint32(length));
    EntryInTable(front, e, xref, n);
    PrefixOfPrefix(front, e, xref);
    EntryRoundTrip(id, ToUint32(offset), ToUint32(length));
    SmallNumbers(offset);
    SmallNumbers(length);
  }

  lemma {:induction false} ThreeParts(head: seq<Byte>, xref: seq<Byte>, tail: seq<Byte>)
    requires |tail| == 4
    ensures var data := head + xref + tail;
            data[|data| - 4..] == tail && data[|head|..|data| - 4] == xref && head <= data
  {
  }

  lemma {:induction false} ParseTableOf(data: seq<Byte>, off: nat, xref: seq<Byte>, n: nat)
    requires |data| >= POINT_HEADER_SIZE + 4 && XrefOffset(data) == off
    requires POINT_HEADER_SIZE <= off <= |data| - 4 && data[off..|data| - 4] == xref && |xref| == XREF_ENTRY_SIZE * n
    ensures Parse(data) == if n == 0 then Failed(InvalidXrefOffset) else ParseEntries(data, xref, n)
  {
    assert |xref| / XREF_ENTRY_SIZE == n;
  }

  /** A file with at least one block parses back to what its blocks add up to; a file with none is refused. */
  lemma {:induction false} FileParses(blocks: seq<Block>)
    requires End(blocks) < 0x8000_0000
    ensures Parse(FileOf(blocks)) == if blocks == [] then Failed(InvalidXrefOffset) else Ok(Assembled(blocks))
  {
    var tail := PutUint32(ToUint32(End(blocks)));
    ThreeParts(HeadOf(blocks), XrefOf(InfosOf(blocks)), tail);
    Uint32RoundTrip(ToUint32(End(blocks)));
    SmallNumbers(End(blocks));
    FileWithTail(FileOf(blocks), blocks, tail);
  }

  lemma {:induction false} FileWithTail(data: seq<Byte>, blocks: seq<Block>, tail: seq<Byte>)
    requires End(blocks) < 0x8000_0000
    requires |tail| == 4 && GetUint32(tail) == End(blocks) && data == HeadOf(blocks) + XrefOf(InfosOf(blocks)) + tail
    ensures Parse(data) == if blocks == [] then Failed(InvalidXrefOffset) else Ok(Assembled(blocks))
  {
    ThreeParts(HeadOf(blocks), XrefOf(InfosOf(blocks)), tail);
    ParseTableOf(data, End(blocks), XrefOf(InfosOf(blocks)), |blocks|);
    if blocks != [] {
      EntriesParse(data, XrefOf(InfosOf(blocks)), blocks);
    }
  }

  lemma {:induction false} AssembledIds(blocks: seq<Block>, id: ShapeId)
    ensures id in Assembled(blocks) ==> FitsField(id)
  {
    if blocks != [] {
      AssembledIds(blocks[..|blocks| - 1], id);
      IdRoundTrip(blocks[|blocks| - 1].id);
    }
  }

  /** The block is an entry of the map, under an id that fits its field. */
  ghost predicate IsEntryOf(block: Block, m: map<ShapeId, seq<TinyPoint>>) {
    FitsField(block.id) && block.id in m && m[block.id] == block.points
  }

  lemma {:induction false} AssembledIsPart(blocks: seq<Block>, m: map<ShapeId, seq<TinyPoint>>)
    requires forall i :: 0 <= i < |blocks| ==> IsEntryOf(blocks[i], m)
    ensures forall id :: id in Assembled(blocks) ==> id in m && Assembled(blocks)[id] == m[id]
  {
    if blocks != [] {
      var front, last := blocks[..|blocks| - 1], blocks[|blocks| - 1];
      AssembledIsPart(front, m);
      assert IsEntryOf(last, m);
      IdRoundTrip(last.id);
    }
  }

  lemma {:induction false} AssembledHas(blocks: seq<Block>, i: nat)
    requires i < |blocks| && FitsField(blocks[i].id)
    ensures blocks[i].id in Assembled(blocks)
  {
    if i == |blocks| - 1 {
      IdRoundTrip(blocks[i].id);
    } else {
      AssembledHas(blocks[..|blocks| - 1], i);
    }
  }

  lemma {:induction false} FittingMapIsAssembled(m: map<ShapeId, seq<TinyPoint>>, order: seq<ShapeId>)
    requires IsOrderOf(order, m) && forall id :: id in m ==> FitsField(id)
    ensures Assembled(Visited(m, order)) == m
  {
    var blocks := Visited(m, order);
    forall i | 0 <= i < |blocks|
      ensures IsEntryOf(blocks[i], m)
    {
      assert order[i] in order;
    }
    AssembledIsPart(blocks, m);
    forall id | id in m
      ensures id in Assembled(blocks)
    {
      var i :| 0 <= i < |order| && order[i] == id;
      AssembledHas(blocks, i);
    }
  }

  /**
   Building and parsing gives the map back bit for bit, in whatever order its keys were visited,
   if and only if the map is not empty and every id fits its field.
   */
  lemma {:induction false} RoundTripIff(m: map<ShapeId, seq<TinyPoint>>, order: seq<ShapeId>)
    requires IsOrderOf(order, m) && End(Visited(m, order)) < 0x8000_0000
    ensures Parse(FileOf(Visited(m, order))) == Ok(m) <==> m != map[] && forall id :: id in m ==> FitsField(id)
  {
    var blocks := Visited(m, order);
    FileParses(blocks);
    if forall id :: id in m ==> FitsField(id) {
      FittingMapIsAssembled(m, order);
      assert m != map[] ==> exists id :: id in m;
    } else {
      var id :| id in m && !FitsField(id);
      AssembledIds(blocks, id);
    }
  }

  /** An entry whose block lies in the file. */
  ghost predicate EntryInRange(data: seq<Byte>, xref: seq<Byte>, i: nat)
    requires XREF_ENTRY_SIZE * (i + 1) <= |xref|
  {
    InRange(data, ReadEntry(EntryAt(xref, i)))
  }

  lemma {:induction false} EntriesParseIff(data: seq<Byte>, xref: seq<Byte>, n: nat)
    requires XREF_ENTRY_SIZE * n <= |xref|
    ensures ParseEntries(data, xref, n).Ok? <==> forall i :: 0 <= i < n ==> EntryInRange(data, xref, i)
  {
    if n > 0 {
      EntriesParseIff(data, xref, n - 1);
      if ParseEntries(data, xref, n - 1).Ok? {
        EntryStep(data, xref, n - 1, ReadEntry(EntryAt(xref, n - 1)), ParseEntries(data, xref, n - 1).points);
      }
      assert EntryInRange(data, xref, n - 1) <==> InRange(data, ReadEntry(EntryAt(xref, n - 1)));
    }
  }

  /** Arbitrary bytes are accepted exactly when the table and every block it names lie inside them. */
  lemma {:induction false} AcceptedIff(data: seq<Byte>)
    ensures Parse(data).Ok? <==>
            && |data| >= POINT_HEADER_SIZE + 4
            && POINT_HEADER_SIZE <= XrefOffset(data) < |data| - 4
            && (|data| - 4 - XrefOffset(data)) % XREF_ENTRY_SIZE == 0
            && (var xref := data[XrefOffset(data)..|data| - 4];
                forall i :: 0 <= i < |xref| / XREF_ENTRY_SIZE ==> EntryInRange(data, xref, i))
  {
    if |data| >= POINT_HEADER_SIZE + 4 && POINT_HEADER_SIZE <= XrefOffset(data) < |data| - 4 {
      var xref := data[XrefOffset(data)..|data| - 4];
      EntriesParseIff(data, xref, |xref| / XREF_ENTRY_SIZE);
    }
  }
}
