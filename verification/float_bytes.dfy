/** Vectors as stored: each 32-bit float as its bit pattern, little-endian. */
module FloatBytes {
  import opened Bytes

  /** The bit pattern of a float32. */
  type Bits = n: int | 0 <= n < 0x1_0000_0000

  function Word(f: Bits): (b: seq<Byte>)
    ensures |b| == 4
  {
    [f % 256, f / 256 % 256, f / 256 / 256 % 256, f / 256 / 256 / 256]
  }

  function FromWord(b: seq<Byte>): Bits
    requires |b| == 4
  {
    var p: int, q: int, r: int, s: int := b[0], b[1], b[2], b[3];
    p + 256 * (q + 256 * (r + 256 * s))
  }

  lemma {:induction false} WordRoundTrip(f: Bits)
    ensures FromWord(Word(f)) == f
  {
  }

  lemma {:induction false} WordIsOnto(b: seq<Byte>)
    requires |b| == 4
    ensures Word(FromWord(b)) == b
  {
    var p: int, q: int, r: int, s: int := b[0], b[1], b[2], b[3];
    var f := FromWord(b);
    assert f % 256 == p && f / 256 == q + 256 * (r + 256 * s);
    assert f / 256 / 256 == r + 256 * s;
  }

  function Encode(v: seq<Bits>): (b: seq<Byte>)
    ensures |b| == 4 * |v|
  {
    if v == [] then [] else Encode(v[..|v| - 1]) + Word(v[|v| - 1])
  }

  /** Four bytes for each float, the least significant first. */
  lemma {:induction false} EncodeIsLittleEndian(v: seq<Bits>, i: nat)
    requires i < |v|
    ensures var b := Encode(v);
            v[i] == (b[4 * i] as int) + 0x100 * (b[4 * i + 1] as int) + 0x1_0000 * (b[4 * i + 2] as int) + 0x100_0000 * (b[4 * i + 3] as int)
  {
    if i < |v| - 1 {
      EncodeIsLittleEndian(v[..|v| - 1], i);
    } else {
      WordRoundTrip(v[i]);
    }
  }

  /** Whole words only: up to three bytes at the end are not read. */
  function Decode(b: seq<Byte>): (v: seq<Bits>)
    ensures |v| == |b| / 4
  {
    if |b| < 4 then [] else
    var n := |b| / 4;
    Decode(b[..4 * (n - 1)]) + [FromWord(b[4 * (n - 1)..4 * n])]
  }

  lemma {:induction false} DecodeSnoc(b: seq<Byte>, w: seq<Byte>, n: nat)
    requires |b| == 4 * n && |w| == 4
    ensures Decode(b + w) == Decode(b) + [FromWord(w)]
  {
    assert (b + w)[..|b|] == b && (b + w)[|b|..|b| + 4] == w;
  }

  lemma {:induction false} RoundTrip(v: seq<Bits>)
    ensures Decode(Encode(v)) == v
  {
    if v != [] {
      var front, last := v[..|v| - 1], v[|v| - 1];
      assert v == front + [last];
      RoundTrip(front);
      WordRoundTrip(last);
      DecodeSnoc(Encode(front), Word(last), |front|);
    }
  }

  /** A blob survives loading and saving exactly when it is made of whole words. */
  lemma {:induction false} BlobRoundTripIffWholeWords(b: seq<Byte>)
    ensures Encode(Decode(b)) == b <==> |b| % 4 == 0
  {
    if |b| % 4 == 0 && b != [] {
      var n := |b| / 4;
      var front, last := b[..4 * (n - 1)], b[4 * (n - 1)..4 * n];
      BlobRoundTripIffWholeWords(front);
      WordIsOnto(last);
      assert b == front + last;
      assert (Decode(front) + [FromWord(last)])[..n - 1] == Decode(front);
    }
  }

  method FloatsToBytes(fs: array<Bits>) returns (buf: array<Byte>)
    ensures fresh(buf) && buf[..] == Encode(fs[..])
  {
    buf := new Byte[4 * fs.Length];
    for i := 0 to fs.Length
      invariant buf[..4 * i] == Encode(fs[..i])
    {
      var w := Word(fs[i]);
      buf[4 * i], buf[4 * i + 1], buf[4 * i + 2], buf[4 * i + 3] := w[0], w[1], w[2], w[3];
      assert fs[..i + 1][..i] == fs[..i];
      assert buf[..4 * (i + 1)] == buf[..4 * i] + w;
    }
    assert fs[..fs.Length] == fs[..] && buf[..4 * fs.Length] == buf[..];
  }

  method BytesToFloats(b: seq<Byte>) returns (fs: array<Bits>)
    ensures fresh(fs) && fs[..] == Decode(b)
  {
    var n := |b| / 4;
    fs := new Bits[n];
    for i := 0 to n
      invariant fs[..i] == Decode(b[..4 * i])
    {
      fs[i] := FromWord(b[4 * i..4 * i + 4]);
      assert b[..4 * (i + 1)][..4 * i] == b[..4 * i];
      assert b[..4 * (i + 1)][4 * i..4 * (i + 1)] == b[4 * i..4 * i + 4];
      assert fs[..i + 1] == fs[..i] + [fs[i]];
    }
    assert fs[..n] == fs[..];
    TrailingBytesAreNotRead(b);
  }

  lemma {:induction false} TrailingBytesAreNotRead(b: seq<Byte>)
    ensures Decode(b) == Decode(b[..4 * (|b| / 4)])
  {
    if |b| >= 4 {
      var m := |b| / 4 - 1;
      var front, last := b[..4 * m], b[4 * m..4 * m + 4];
      assert b[..4 * m + 4] == front + last;
      DecodeSnoc(front, last, m);
      assert b[4 * m..4 * (m + 1)] == last;
    }
  }
}
