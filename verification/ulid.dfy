/**
 ULIDs: 128 bits written as 26 Crockford base-32 digits, most significant first. Sorting the
 strings sorts the numbers, which is why the merge rule may compare site ids as strings.
 */
module Ulid {
  import AsciiOrder
  import opened Positional

  const ALPHABET := "0123456789ABCDEFGHJKMNPQRSTVWXYZ"

  predicate IsUlid(s: string) {
    |s| == 26 && forall i :: 0 <= i < |s| ==> s[i] in ALPHABET
  }

  // ----- the encoder: 16 bytes, five bits at a time -----

  method FirstTwoDigits(b: seq<bv8>) returns (d: int, e: int)
    requires |b| == 16
    ensures d == Ints(b)[0] / 32 && e == Ints(b)[0] % 32
  {
    var x := b[0];
    HighBits(x);
    FiveLowBits(x);
    d, e := ((x & 224) >> 5) as int, (x & 31) as int;
  }

  lemma {:induction false} Join(p: bv8, q: bv8)
    ensures p <= 7 && q <= 3 ==> ((p << 2) | q) as int == p as int * 4 + q as int
    ensures p <= 1 && q <= 15 ==> ((p << 4) | q) as int == p as int * 16 + q as int
    ensures p <= 15 && q <= 1 ==> ((p << 1) | q) as int == p as int * 2 + q as int
    ensures p <= 3 && q <= 7 ==> ((p << 3) | q) as int == p as int * 8 + q as int
  {
  }

  lemma {:induction false} LowBits(x: bv8)
    ensures (x & 7) as int == x as int % 8 && (x & 15) as int == x as int % 16
  {
  }

  lemma {:induction false} TwoLowBits(x: bv8)
    ensures (x & 3) as int == x as int % 4
  {
  }

  lemma {:induction false} LowestBit(x: bv8)
    ensures (x & 1) as int == x as int % 2
  {
  }

  lemma {:induction false} HighBits(x: bv8)
    ensures ((x & 192) >> 6) as int == x as int / 64 && ((x & 240) >> 4) as int == x as int / 16
    ensures ((x & 128) >> 7) as int == x as int / 128 && ((x & 224) >> 5) as int == x as int / 32
    ensures ((x & 248) >> 3) as int == x as int / 8
  {
  }

  lemma {:induction false} MiddleBits(x: bv8)
    ensures ((x & 62) >> 1) as int == (x as int / 2) % 32
    ensures ((x & 124) >> 2) as int == (x as int / 4) % 32
  {
    assert (x & 62) >> 1 == (x >> 1) & 31 && (x & 124) >> 2 == (x >> 2) & 31;
    Shifted(x);
    FiveLowBits(x >> 1);
    FiveLowBits(x >> 2);
  }

  lemma {:induction false} Shifted(x: bv8)
    ensures (x >> 1) as int == x as int / 2 && (x >> 2) as int == x as int / 4
  {
  }

  lemma {:induction false} FiveLowBits(x: bv8)
    ensures (x & 31) as int == x as int % 32
  {
  }

  // The eight digits of a group of five bytes, two at a time.

  method Digits01(x: bv8, y: bv8) returns (d: int, e: int)
    ensures d == x as int / 8 && e == x as int % 8 * 4 + y as int / 64
  {
    HighBits(x);
    HighBits(y);
    LowBits(x);
    Join(x & 7, (y & 192) >> 6);
    d, e := ((x & 248) >> 3) as int, (((x & 7) << 2) | ((y & 192) >> 6)) as int;
  }

  method Digits23(y: bv8, z: bv8) returns (d: int, e: int)
    ensures d == y as int / 2 % 32 && e == y as int % 2 * 16 + z as int / 16
  {
    MiddleBits(y);
    LowestBit(y);
    HighBits(z);
    Join(y & 1, (z & 240) >> 4);
    d, e := ((y & 62) >> 1) as int, (((y & 1) << 4) | ((z & 240) >> 4)) as int;
  }

  method Digits45(z: bv8, u: bv8) returns (d: int, e: int)
    ensures d == z as int % 16 * 2 + u as int / 128 && e == u as int / 4 % 32
  {
    LowBits(z);
    HighBits(u);
    MiddleBits(u);
    Join(z & 15, (u & 128) >> 7);
    d, e := (((z & 15) << 1) | ((u & 128) >> 7)) as int, ((u & 124) >> 2) as int;
  }

  method Digits67(u: bv8, v: bv8) returns (d: int, e: int)
    ensures d == u as int % 4 * 8 + v as int / 32 && e == v as int % 32
  {
    TwoLowBits(u);
    HighBits(v);
    FiveLowBits(v);
    Join(u & 3, (v & 224) >> 5);
    d, e := (((u & 3) << 3) | ((v & 224) >> 5)) as int, (v & 31) as int;
  }

  function Group(x: int, y: int, z: int, u: int, v: int): seq<int> {
    [ x / 8, x % 8 * 4 + y / 64, y / 2 % 32, y % 2 * 16 + z / 16,
      z % 16 * 2 + u / 128, u / 4 % 32, u % 4 * 8 + v / 32, v % 32 ]
  }

  function GroupAt(b: seq<int>, i: nat): seq<int>
    requires i + 5 <= |b|
  {
    Group(b[i], b[i + 1], b[i + 2], b[i + 3], b[i + 4])
  }

  method EncodeGroup(x: bv8, y: bv8, z: bv8, u: bv8, v: bv8) returns (d: seq<int>)
    ensures d == Group(x as int, y as int, z as int, u as int, v as int)
  {
    var d0, d1 := Digits01(x, y);
    var d2, d3 := Digits23(y, z);
    var d4, d5 := Digits45(z, u);
    var d6, d7 := Digits67(u, v);
    d := [d0, d1, d2, d3, d4, d5, d6, d7];
  }

  method EncodeGroupAt(b: seq<bv8>, i: nat) returns (d: seq<int>)
    requires i + 5 <= |b|
    ensures d == GroupAt(Ints(b), i)
  {
    d := EncodeGroup(b[i], b[i + 1], b[i + 2], b[i + 3], b[i + 4]);
  }

  /** The 26 base-32 digits of 16 bytes. */
  function Digits32(b: seq<int>): seq<int>
    requires |b| == 16
  {
    [b[0] / 32, b[0] % 32] + GroupAt(b, 1) + GroupAt(b, 6) + GroupAt(b, 11)
  }

  ghost predicate IsRaw(b: seq<int>) {
    |b| == 16 && Digits(256, b)
  }

  function Letters(digits: seq<int>): string
    requires forall i :: 0 <= i < |digits| ==> 0 <= digits[i] < 32
  {
    seq(|digits|, i requires 0 <= i < |digits| => ALPHABET[digits[i]])
  }

  lemma {:induction false} GroupBound(x: int, y: int, z: int, u: int, v: int)
    requires 0 <= x < 256 && 0 <= y < 256 && 0 <= z < 256 && 0 <= u < 256 && 0 <= v < 256
    ensures Digits(32, Group(x, y, z, u, v))
  {
  }

  lemma {:induction false} DigitsAreBase32(b: seq<int>)
    requires IsRaw(b)
    ensures |Digits32(b)| == 26 && Digits(32, Digits32(b))
  {
    GroupBound(b[1], b[2], b[3], b[4], b[5]);
    GroupBound(b[6], b[7], b[8], b[9], b[10]);
    GroupBound(b[11], b[12], b[13], b[14], b[15]);
  }

  /** The string of a ULID. */
  ghost function Encoded(b: seq<int>): string
    requires IsRaw(b)
  {
    DigitsAreBase32(b);
    Letters(Digits32(b))
  }

  function Ints(b: seq<bv8>): seq<int> {
    seq(|b|, i requires 0 <= i < |b| => b[i] as int)
  }

  lemma {:induction false} IntsAreBytes(b: seq<bv8>)
    ensures Digits(256, Ints(b))
  {
  }

  /** The first byte gives two digits, each following group of five bytes gives eight. */
  method EncodeUlid(b: seq<bv8>) returns (s: string)
    requires |b| == 16
    ensures IsRaw(Ints(b)) && s == Encoded(Ints(b))
  {
    IntsAreBytes(b);
    var d, e := FirstTwoDigits(b);
    var g1 := EncodeGroupAt(b, 1);
    var g2 := EncodeGroupAt(b, 6);
    var g3 := EncodeGroupAt(b, 11);
    DigitsAreBase32(Ints(b));
    s := Letters([d, e] + g1 + g2 + g3);
  }

  // ----- the digits have the value of the bytes -----

  lemma {:induction false} Value5(a: int, b: int, c: int, d: int, e: int)
    ensures Value(256, [a, b, c, d, e]) == (((a * 256 + b) * 256 + c) * 256 + d) * 256 + e
  {
    assert [a, b, c, d] + [e] == [a, b, c, d, e] && [a, b, c] + [d] == [a, b, c, d];
    assert [a, b] + [c] == [a, b, c] && [a] + [b] == [a, b];
    ValueAppend(256, [a, b, c, d], e);
    ValueAppend(256, [a, b, c], d);
    ValueAppend(256, [a, b], c);
    ValueAppend(256, [a], b);
    OneDigit(256, a);
  }

  lemma {:induction false} Value8(a: int, b: int, c: int, d: int, e: int, f: int, g: int, h: int)
    ensures Value(32, [a, b, c, d, e, f, g, h])
            == ((((((a * 32 + b) * 32 + c) * 32 + d) * 32 + e) * 32 + f) * 32 + g) * 32 + h
  {
    assert [a, b, c, d, e, f, g] + [h] == [a, b, c, d, e, f, g, h] && [a, b, c, d, e, f] + [g] == [a, b, c, d, e, f, g];
    assert [a, b, c, d, e] + [f] == [a, b, c, d, e, f] && [a, b, c, d] + [e] == [a, b, c, d, e];
    assert [a, b, c] + [d] == [a, b, c, d] && [a, b] + [c] == [a, b, c] && [a] + [b] == [a, b];
    ValueAppend(32, [a, b, c, d, e, f, g], h);
    ValueAppend(32, [a, b, c, d, e, f], g);
    ValueAppend(32, [a, b, c, d, e], f);
    ValueAppend(32, [a, b, c, d], e);
    ValueAppend(32, [a, b, c], d);
    ValueAppend(32, [a, b], c);
    ValueAppend(32, [a], b);
    OneDigit(32, a);
  }

  lemma {:induction false} GroupArithmetic(x: int, y: int, z: int, u: int, v: int)
    requires 0 <= x < 256 && 0 <= y < 256 && 0 <= z < 256 && 0 <= u < 256 && 0 <= v < 256
    ensures (((((((x / 8) * 32 + (x % 8 * 4 + y / 64)) * 32 + y / 2 % 32) * 32 + (y % 2 * 16 + z / 16)) * 32
              + (z % 16 * 2 + u / 128)) * 32 + u / 4 % 32) * 32 + (u % 4 * 8 + v / 32)) * 32 + v % 32
            == (((x * 256 + y) * 256 + z) * 256 + u) * 256 + v
  {
    SplitMiddleByte(y);
    SplitFourthByte(u);
    Regrouped(x / 8, x % 8, y / 64, y / 2 % 32, y % 2, z / 16, z % 16, u / 128, u / 4 % 32, u % 4, v / 32, v % 32);
  }

  lemma {:induction false} SplitMiddleByte(y: int)
    requires 0 <= y < 256
    ensures y == y / 64 * 64 + y / 2 % 32 * 2 + y % 2
  {
  }

  lemma {:induction false} SplitFourthByte(u: int)
    requires 0 <= u < 256
    ensures u == u / 128 * 128 + u / 4 % 32 * 4 + u % 4
  {
  }

  /** The same bits, read as eight digits and as five bytes: an identity without division. */
  lemma {:induction false} Regrouped(x1: int, x0: int, y2: int, y1: int, y0: int, z1: int, z0: int,
                                     u2: int, u1: int, u0: int, v1: int, v0: int)
    ensures (((((((x1 * 32 + (x0 * 4 + y2)) * 32 + y1) * 32 + (y0 * 16 + z1)) * 32
              + (z0 * 2 + u2)) * 32 + u1) * 32 + (u0 * 8 + v1)) * 32 + v0)
            == ((((x1 * 8 + x0) * 256 + (y2 * 64 + y1 * 2 + y0)) * 256 + (z1 * 16 + z0)) * 256 + (u2 * 128 + u1 * 4 + u0)) * 256
               + (v1 * 32 + v0)
  {
  }

  lemma {:induction false} GroupValue(x: int, y: int, z: int, u: int, v: int)
    requires 0 <= x < 256 && 0 <= y < 256 && 0 <= z < 256 && 0 <= u < 256 && 0 <= v < 256
    ensures Value(32, Group(x, y, z, u, v)) == Value(256, [x, y, z, u, v])
  {
    Value5(x, y, z, u, v);
    Value8(x / 8, x % 8 * 4 + y / 64, y / 2 % 32, y % 2 * 16 + z / 16,
           z % 16 * 2 + u / 128, u / 4 % 32, u % 4 * 8 + v / 32, v % 32);
    GroupArithmetic(x, y, z, u, v);
  }

  lemma SamePowers()
    ensures Power(32, 8) == Power(256, 5) == 0x100_0000_0000
  {
    assert Power(256, 2) == 65536 && Power(256, 3) == 0x100_0000 && Power(256, 4) == 0x1_0000_0000;
    assert Power(32, 2) == 1024 && Power(32, 3) == 32768 && Power(32, 4) == 0x10_0000;
    assert Power(32, 5) == 0x200_0000 && Power(32, 6) == 0x4000_0000 && Power(32, 7) == 0x8_0000_0000;
  }

  /** Putting a group behind numerals of equal value keeps the values equal. */
  lemma {:induction false} AppendGroup(digits: seq<int>, bytes: seq<int>, b: seq<int>, i: nat)
    requires Value(32, digits) == Value(256, bytes)
    requires i + 5 <= |b| && Digits(256, b)
    ensures Value(32, digits + GroupAt(b, i)) == Value(256, bytes + b[i..i + 5])
  {
    SamePowers();
    GroupValue(b[i], b[i + 1], b[i + 2], b[i + 3], b[i + 4]);
    assert b[i..i + 5] == [b[i], b[i + 1], b[i + 2], b[i + 3], b[i + 4]];
    ValueConcat(32, digits, GroupAt(b, i));
    ValueConcat(256, bytes, b[i..i + 5]);
  }

  lemma {:induction false} FirstByte(x: int)
    requires 0 <= x < 256
    ensures Value(32, [x / 32, x % 32]) == Value(256, [x])
  {
    OneDigit(256, x);
    OneDigit(32, x / 32);
    assert [x / 32, x % 32] == [x / 32] + [x % 32];
    ValueAppend(32, [x / 32], x % 32);
  }

  /** The 26 digits denote the same number as the 16 bytes. */
  lemma {:induction false} SameNumber(b: seq<int>)
    requires IsRaw(b)
    ensures Value(32, Digits32(b)) == Value(256, b)
  {
    var start := [b[0] / 32, b[0] % 32];
    FirstByte(b[0]);
    AppendGroup(start, [b[0]], b, 1);
    AppendGroup(start + GroupAt(b, 1), [b[0]] + b[1..6], b, 6);
    AppendGroup(start + GroupAt(b, 1) + GroupAt(b, 6), [b[0]] + b[1..6] + b[6..11], b, 11);
    assert [b[0]] + b[1..6] + b[6..11] + b[11..16] == b;
  }

  // ----- the order of the strings -----

  /** The alphabet ascends in ASCII. */
  lemma {:induction false} AlphabetAscends(i: int, j: int)
    requires 0 <= i < 32 && 0 <= j < 32
    ensures ALPHABET[i] < ALPHABET[j] <==> i < j
    ensures ALPHABET[i] in ALPHABET
  {
    assert forall k :: 0 <= k < 31 ==> ALPHABET[k] < ALPHABET[k + 1];
    if i < j {
      AscendsBetween(i, j);
    } else if j < i {
      AscendsBetween(j, i);
    }
  }

  lemma {:induction false} AscendsBetween(i: int, j: int)
    requires 0 <= i < j < 32
    requires forall k :: 0 <= k < 31 ==> ALPHABET[k] < ALPHABET[k + 1]
    ensures ALPHABET[i] < ALPHABET[j]
    decreases j - i
  {
    if i + 1 < j {
      AscendsBetween(i, j - 1);
      assert ALPHABET[j - 1] < ALPHABET[j - 1 + 1];
    } else {
      assert ALPHABET[i] < ALPHABET[i + 1];
    }
  }

  /** Replacing digits by ascending letters does not change a lexicographic comparison. */
  lemma {:induction false} AscendingLettersKeepOrder(a: seq<int>, b: seq<int>, s: string, t: string)
    requires |s| == |a| && |t| == |b|
    requires forall i, j :: 0 <= i < |a| && 0 <= j < |b| ==> (s[i] < t[j] <==> a[i] < b[j]) && (t[j] < s[i] <==> b[j] < a[i])
    ensures AsciiOrder.Less(s, t) <==> Less(a, b)
  {
    if a != [] && b != [] {
      assert s[0] < t[0] <==> a[0] < b[0];
      assert t[0] < s[0] <==> b[0] < a[0];
      AscendingLettersKeepOrder(a[1..], b[1..], s[1..], t[1..]);
    }
  }

  lemma {:induction false} LettersKeepOrder(a: seq<int>, b: seq<int>)
    requires Digits(32, a) && Digits(32, b)
    ensures AsciiOrder.Less(Letters(a), Letters(b)) <==> Less(a, b)
  {
    var s, t := Letters(a), Letters(b);
    forall i, j | 0 <= i < |a| && 0 <= j < |b|
      ensures (s[i] < t[j] <==> a[i] < b[j]) && (t[j] < s[i] <==> b[j] < a[i])
    {
      AlphabetAscends(a[i], b[j]);
      AlphabetAscends(b[j], a[i]);
    }
    AscendingLettersKeepOrder(a, b, s, t);
  }

  lemma {:induction false} LettersInjective(a: seq<int>, b: seq<int>)
    requires Digits(32, a) && Digits(32, b) && Letters(a) == Letters(b)
    ensures a == b
  {
    assert |a| == |Letters(a)| == |Letters(b)| == |b|;
    forall i | 0 <= i < |a|
      ensures a[i] == b[i]
    {
      assert Letters(a)[i] == Letters(b)[i];
      AlphabetAscends(a[i], b[i]);
      AlphabetAscends(b[i], a[i]);
    }
  }

  /**
   The encoder is faithful: its result is a ULID, different byte strings get different ULIDs,
   and ASCII order of the ULIDs is numeric order of the 128-bit numbers.
   */
  lemma {:induction false} EncodingIsFaithful(a: seq<int>, b: seq<int>)
    requires IsRaw(a) && IsRaw(b)
    ensures IsUlid(Encoded(a))
    ensures Encoded(a) == Encoded(b) <==> a == b
    ensures AsciiOrder.Less(Encoded(a), Encoded(b)) <==> Value(256, a) < Value(256, b)
  {
    DigitsAreBase32(a);
    DigitsAreBase32(b);
    SameNumber(a);
    SameNumber(b);
    LettersKeepOrder(Digits32(a), Digits32(b));
    OrderIsNumeric(32, Digits32(a), Digits32(b));
    OrderIsNumeric(256, a, b);
    if Encoded(a) == Encoded(b) {
      LettersInjective(Digits32(a), Digits32(b));
    }
    forall i | 0 <= i < 26
      ensures Encoded(a)[i] in ALPHABET
    {
      AlphabetAscends(Digits32(a)[i], 0);
    }
  }

  // ----- minting -----

  /** Bytes of a new ULID: the low 48 bits of the clock, then ten random bytes. */
  function Minted(ms: nat, random: seq<int>): seq<int> {
    ClockBytes(ms) + random
  }

  function ClockBytes(ms: nat): seq<int> {
    [ ms / 0x100_0000_0000 % 256, ms / 0x1_0000_0000 % 256, ms / 0x100_0000 % 256,
      ms / 0x1_0000 % 256, ms / 0x100 % 256, ms % 256 ]
  }

  lemma {:induction false} RemainderIs(m: nat, d: nat, a: nat, r: nat)
    requires m == d * a + r && r < d
    ensures m % d == r
  {
    var q := m / d;
    assert m == d * q + m % d;
    assert a > q ==> d * a >= d * (q + 1) == d * q + d;
    assert a < q ==> d * q >= d * (a + 1) == d * a + d;
  }

  lemma {:induction false} Regroup(p: nat, a: nat, b: nat, r: nat)
    requires b < 256 && r < p
    ensures p * (256 * a + b) + r == 256 * p * a + (b * p + r)
    ensures b * p + r < 256 * p
  {
    assert b * p <= 255 * p;
  }

  /** One more byte of a number, above its remainder by `p`. */
  lemma {:induction false} PeelByte(m: nat, p: nat)
    requires p > 0
    ensures m % (256 * p) == m / p % 256 * p + m % p
  {
    var q, r := m / p, m % p;
    var a, b := q / 256, q % 256;
    assert m == p * q + r && q == 256 * a + b;
    Regroup(p, a, b, r);
    RemainderIs(m, 256 * p, a, b * p + r);
  }

  lemma {:induction false} PeelBytes(ms: nat)
    ensures ms % 0x1_0000_0000_0000 == ms / 0x100_0000_0000 % 256 * 0x100_0000_0000 + ms % 0x100_0000_0000
    ensures ms % 0x100_0000_0000 == ms / 0x1_0000_0000 % 256 * 0x1_0000_0000 + ms % 0x1_0000_0000
    ensures ms % 0x1_0000_0000 == ms / 0x100_0000 % 256 * 0x100_0000 + ms % 0x100_0000
    ensures ms % 0x100_0000 == ms / 0x1_0000 % 256 * 0x1_0000 + ms % 0x1_0000
    ensures ms % 0x1_0000 == ms / 0x100 % 256 * 0x100 + ms % 0x100
  {
    PeelByte(ms, 0x100_0000_0000);
    PeelByte(ms, 0x1_0000_0000);
    PeelByte(ms, 0x100_0000);
    PeelByte(ms, 0x1_0000);
    PeelByte(ms, 0x100);
  }

  lemma {:induction false} ClockValue(ms: nat)
    ensures Digits(256, ClockBytes(ms)) && Value(256, ClockBytes(ms)) == ms % 0x1_0000_0000_0000
  {
    var t := ClockBytes(ms);
    assert t == [t[0], t[1], t[2], t[3], t[4]] + [t[5]];
    ValueAppend(256, [t[0], t[1], t[2], t[3], t[4]], t[5]);
    Value5(t[0], t[1], t[2], t[3], t[4]);
    PeelBytes(ms);
  }

  lemma {:induction false} MintedIsRaw(ms: nat, random: seq<int>)
    requires |random| == 10 && Digits(256, random)
    ensures IsRaw(Minted(ms, random))
  {
    ClockValue(ms);
  }

  /** The clock is the leading part of the number. */
  lemma {:induction false} MintedValue(ms: nat, random: seq<int>)
    requires |random| == 10 && Digits(256, random)
    ensures Value(256, Minted(ms, random)) == ms % 0x1_0000_0000_0000 * Power(256, 10) + Value(256, random)
  {
    ClockValue(ms);
    ValueConcat(256, ClockBytes(ms), random);
  }

  lemma {:induction false} LaterNumbersAreGreater(ms: nat, random: seq<int>, ms': nat, random': seq<int>)
    requires |random| == 10 && Digits(256, random) && |random'| == 10 && Digits(256, random')
    requires ms % 0x1_0000_0000_0000 < ms' % 0x1_0000_0000_0000
    ensures Value(256, Minted(ms, random)) < Value(256, Minted(ms', random'))
  {
    MintedValue(ms, random);
    MintedValue(ms', random');
    ValueBound(256, random);
    ValueBound(256, random');
    LeadingDigit(ms % 0x1_0000_0000_0000, ms' % 0x1_0000_0000_0000, Power(256, 10), Value(256, random), Value(256, random'));
  }

  lemma {:induction false} SmallClock(ms: nat)
    requires ms < 0x1_0000_0000_0000
    ensures ms % 0x1_0000_0000_0000 == ms
  {
  }

  /** Of two minted ids the one with the later clock is greater, as long as the clock fits 48 bits. */
  lemma {:induction false} LaterIdsAreGreater(ms: nat, random: seq<int>, ms': nat, random': seq<int>)
    requires |random| == 10 && Digits(256, random) && |random'| == 10 && Digits(256, random')
    requires ms < ms' < 0x1_0000_0000_0000
    ensures IsRaw(Minted(ms, random)) && IsRaw(Minted(ms', random'))
    ensures AsciiOrder.Less(Encoded(Minted(ms, random)), Encoded(Minted(ms', random')))
  {
    MintedIsRaw(ms, random);
    MintedIsRaw(ms', random');
    SmallClock(ms);
    SmallClock(ms');
    LaterNumbersAreGreater(ms, random, ms', random');
    GreaterBytesGreaterId(Minted(ms, random), Minted(ms', random'));
  }

  lemma {:induction false} GreaterBytesGreaterId(a: seq<int>, b: seq<int>)
    requires IsRaw(a) && IsRaw(b) && Value(256, a) < Value(256, b)
    ensures AsciiOrder.Less(Encoded(a), Encoded(b))
  {
    EncodingIsFaithful(a, b);
  }
}
