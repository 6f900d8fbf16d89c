/**
 The standard base64 alphabet with padding (RFC 4648, section 4), in which a stroke's
 `points` travel on the wire. Like Go's decoder, decoding skips line breaks and does
 not insist that the unused bits of the last group are zero.
 */
module Base64 {
  import opened Bytes
  import opened Wrappers

  function Digit(n: int): char
    requires 0 <= n < 64
  {
    if n < 26 then (n + 65) as char
    else if n < 52 then (n + 71) as char
    else if n < 62 then (n - 4) as char
    else if n == 62 then '+' else '/'
  }

  /** The value of a base64 character, or -1 for any other character. */
  function DigitValue(c: char): (v: int)
    ensures -1 <= v < 64
  {
    if 'A' <= c <= 'Z' then c as int - 65
    else if 'a' <= c <= 'z' then c as int - 71
    else if '0' <= c <= '9' then c as int + 4
    else if c == '+' then 62
    else if c == '/' then 63
    else -1
  }

  function Encode(b: seq<Byte>): string {
    if |b| == 0 then ""
    else if |b| == 1 then [Digit(b[0] / 4), Digit(b[0] % 4 * 16), '=', '=']
    else if |b| == 2 then [Digit(b[0] / 4), Digit(b[0] % 4 * 16 + b[1] / 16), Digit(b[1] % 16 * 4), '=']
    else [Digit(b[0] / 4), Digit(b[0] % 4 * 16 + b[1] / 16), Digit(b[1] % 16 * 4 + b[2] / 64), Digit(b[2] % 64)]
         + Encode(b[3..])
  }

  function DecodeGroups(s: string): Option<seq<Byte>> {
    if s == "" then Some([])
    else if |s| < 4 then None
    else
      var p, q, r, t := DigitValue(s[0]), DigitValue(s[1]), DigitValue(s[2]), DigitValue(s[3]);
      if p < 0 || q < 0 then None
      else if s[2] == '=' then
        if s[3] == '=' && |s| == 4 then Some([p * 4 + q / 16]) else None
      else if r < 0 then None
      else if s[3] == '=' then
        if |s| == 4 then Some([p * 4 + q / 16, q % 16 * 16 + r / 4]) else None
      else if t < 0 then None
      else
        match DecodeGroups(s[4..])
        case None => None
        case Some(rest) => Some([p * 4 + q / 16, q % 16 * 16 + r / 4, r % 4 * 64 + t] + rest)
  }

  function WithoutLineBreaks(s: string): string {
    if s == "" then ""
    else if s[0] == '\r' || s[0] == '\n' then WithoutLineBreaks(s[1..])
    else [s[0]] + WithoutLineBreaks(s[1..])
  }

  function Decode(s: string): Option<seq<Byte>> {
    DecodeGroups(WithoutLineBreaks(s))
  }

  lemma ShortVectors()
    ensures Encode([]) == "" && Encode([102]) == "Zg==" && Encode([102, 111]) == "Zm8="
  {
  }

  lemma {:induction false} Triple(x: Byte, y: Byte, z: Byte)
    ensures Encode([x, y, z]) == [Digit(x / 4), Digit(x % 4 * 16 + y / 16), Digit(y % 16 * 4 + z / 64), Digit(z % 64)]
  {
    assert [x, y, z][3..] == [];
  }

  lemma FooVector()
    ensures Encode([102, 111, 111]) == "Zm9v"
  {
    Triple(102, 111, 111);
  }

  lemma BarVector()
    ensures Encode([98, 97, 114]) == "YmFy"
  {
    Triple(98, 97, 114);
  }

  lemma LastDigitsVector()
    ensures Encode([251, 255, 254]) == "+//+"
  {
    Triple(251, 255, 254);
  }

  lemma {:induction false} Triples(b: seq<Byte>)
    requires |b| >= 3
    ensures Encode(b) == Encode([b[0], b[1], b[2]]) + Encode(b[3..])
  {
    Triple(b[0], b[1], b[2]);
  }

  /** Test vectors of RFC 4648, section 10, and one with the last two digits of the alphabet. */
  lemma TestVectors()
    ensures Encode([]) == "" && Encode([102]) == "Zg==" && Encode([102, 111]) == "Zm8=" && Encode([102, 111, 111]) == "Zm9v"
    ensures Encode([102, 111, 111, 98, 97, 114]) == "Zm9vYmFy" && Encode([251, 255, 254]) == "+//+"
  {
    ShortVectors();
    FooVector();
    BarVector();
    LastDigitsVector();
    var b := [102, 111, 111, 98, 97, 114];
    Triples(b);
    assert b[3..] == [98, 97, 114];
  }

  /** Groups of four digits, of which the last may have one or two padding characters in place of its last digits. */
  ghost predicate IsPadded(s: string) {
    && |s| % 4 == 0
    && (forall i :: 0 <= i < |s| - 2 ==> DigitValue(s[i]) >= 0)
    && (s != "" ==>
          || (DigitValue(s[|s| - 2]) >= 0 && (DigitValue(s[|s| - 1]) >= 0 || s[|s| - 1] == '='))
          || (s[|s| - 2] == '=' && s[|s| - 1] == '='))
  }

  ghost predicate FourDigits(s: string)
    requires |s| >= 4
  {
    DigitValue(s[0]) >= 0 && DigitValue(s[1]) >= 0 && DigitValue(s[2]) >= 0 && DigitValue(s[3]) >= 0
  }

  lemma {:induction false} PaddedBehind(s: string)
    requires |s| > 4 && IsPadded(s)
    ensures |s| >= 8 && FourDigits(s) && IsPadded(s[4..])
  {
    assert forall i :: 0 <= i < |s| - 4 ==> s[4..][i] == s[i + 4];
  }

  lemma {:induction false} PaddedInFront(s: string)
    requires |s| >= 8 && FourDigits(s) && IsPadded(s[4..])
    ensures IsPadded(s)
  {
    var t := s[4..];
    assert |t| % 4 == 0 && t[|t| - 1] == s[|s| - 1] && t[|t| - 2] == s[|s| - 2];
    forall i | 0 <= i < |s| - 2
      ensures DigitValue(s[i]) >= 0
    {
      if i >= 4 {
        assert t[i - 4] == s[i];
      }
    }
  }

  lemma {:induction false} GroupsDecodeIffPadded(s: string)
    ensures DecodeGroups(s).Some? <==> IsPadded(s)
  {
    if |s| > 4 {
      GroupsDecodeIffPadded(s[4..]);
      if IsPadded(s) {
        PaddedBehind(s);
      } else if |s| >= 8 && FourDigits(s) && IsPadded(s[4..]) {
        PaddedInFront(s);
      }
    } else if |s| == 4 {
      assert s[4..] == "";
    }
  }

  /** Padding is required, line breaks are skipped, and the bits that padding leaves over may be anything. */
  lemma {:induction false} DecodesIffPadded(s: string)
    ensures Decode(s).Some? <==> IsPadded(WithoutLineBreaks(s))
    ensures Decode("Zg==") == Decode("Zh==") == Some([102])
  {
    GroupsDecodeIffPadded(WithoutLineBreaks(s));
    NothingToSkip("Zg==");
    NothingToSkip("Zh==");
  }

  lemma {:induction false} DigitRoundTrip(n: int)
    requires 0 <= n < 64
    ensures DigitValue(Digit(n)) == n && Digit(n) != '=' && Digit(n) != '\r' && Digit(n) != '\n'
  {
  }

  lemma {:induction false} SixBits(x: Byte, y: Byte, z: Byte)
    ensures var p, q, r := x / 4, x % 4 * 16 + y / 16, y % 16 * 4 + z / 64;
            && 0 <= p < 64 && 0 <= q < 64 && 0 <= r < 64
            && p * 4 + q / 16 == x && q % 16 * 16 + r / 4 == y && r % 4 * 64 + z % 64 == z
  {
  }

  lemma {:induction false} GroupsRoundTrip(b: seq<Byte>)
    ensures DecodeGroups(Encode(b)) == Some(b)
  {
    if |b| == 1 {
      PaddedGroup(b[0], 0);
      assert b == [b[0]];
    } else if |b| == 2 {
      PaddedGroup(b[0], b[1]);
      assert b == [b[0], b[1]];
    } else if |b| >= 3 {
      FullGroup(b[0], b[1], b[2], Encode(b[3..]));
      GroupsRoundTrip(b[3..]);
      assert b == [b[0], b[1], b[2]] + b[3..];
    }
  }

  lemma {:induction false} PaddedGroup(x: Byte, y: Byte)
    ensures DecodeGroups([Digit(x / 4), Digit(x % 4 * 16), '=', '=']) == Some([x])
    ensures DecodeGroups([Digit(x / 4), Digit(x % 4 * 16 + y / 16), Digit(y % 16 * 4), '=']) == Some([x, y])
  {
    SixBits(x, y, 0);
    DigitRoundTrip(x / 4);
    DigitRoundTrip(x % 4 * 16);
    DigitRoundTrip(x % 4 * 16 + y / 16);
    DigitRoundTrip(y % 16 * 4);
  }

  /** Four digits, none of them padding, give three bytes. */
  lemma {:induction false} GroupStep(s: string, p: int, q: int, r: int, t: int)
    requires |s| >= 4 && s[2] != '=' && s[3] != '='
    requires 0 <= p == DigitValue(s[0]) && 0 <= q == DigitValue(s[1])
    requires 0 <= r == DigitValue(s[2]) && 0 <= t == DigitValue(s[3])
    ensures DecodeGroups(s) ==
              match DecodeGroups(s[4..])
              case None => None
              case Some(rest) => Some([p * 4 + q / 16, q % 16 * 16 + r / 4, r % 4 * 64 + t] + rest)
  {
  }

  lemma {:induction false} FullGroup(x: Byte, y: Byte, z: Byte, more: string)
    ensures var g := [Digit(x / 4), Digit(x % 4 * 16 + y / 16), Digit(y % 16 * 4 + z / 64), Digit(z % 64)];
            DecodeGroups(g + more) ==
              match DecodeGroups(more)
              case None => None
              case Some(rest) => Some([x, y, z] + rest)
  {
    var p, q, r, t := x / 4, x % 4 * 16 + y / 16, y % 16 * 4 + z / 64, z % 64;
    DigitRoundTrip(p);
    DigitRoundTrip(q);
    DigitRoundTrip(r);
    DigitRoundTrip(t);
    SixBits(x, y, z);
    DigitsDecode(Digit(p), Digit(q), Digit(r), Digit(t), p, q, r, t, more);
  }

  lemma {:induction false} DigitsDecode(a: char, b: char, c: char, d: char, p: int, q: int, r: int, t: int, more: string)
    requires c != '=' && d != '='
    requires 0 <= p == DigitValue(a) && 0 <= q == DigitValue(b) && 0 <= r == DigitValue(c) && 0 <= t == DigitValue(d)
    ensures DecodeGroups([a, b, c, d] + more) ==
              match DecodeGroups(more)
              case None => None
              case Some(rest) => Some([p * 4 + q / 16, q % 16 * 16 + r / 4, r % 4 * 64 + t] + rest)
  {
    var s := [a, b, c, d] + more;
    assert s[4..] == more;
    GroupStep(s, p, q, r, t);
  }

  lemma {:induction false} NothingToSkip(s: string)
    requires forall i :: 0 <= i < |s| ==> s[i] != '\r' && s[i] != '\n'
    ensures WithoutLineBreaks(s) == s
  {
    if s != "" {
      NothingToSkip(s[1..]);
    }
  }

  lemma {:induction false} EncodeHasNoLineBreak(b: seq<Byte>)
    ensures forall i :: 0 <= i < |Encode(b)| ==> Encode(b)[i] != '\r' && Encode(b)[i] != '\n'
  {
    if |b| >= 3 {
      EncodeHasNoLineBreak(b[3..]);
    }
  }

  /** What the server encodes for the wire is what a mirror decodes from it. */
  lemma {:induction false} RoundTrip(b: seq<Byte>)
    ensures Decode(Encode(b)) == Some(b)
  {
    GroupsRoundTrip(b);
    EncodeHasNoLineBreak(b);
    NothingToSkip(Encode(b));
  }
}
