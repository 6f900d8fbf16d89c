/** Positional numerals: the value of a digit sequence, most significant digit first. */
module Positional {

  function Power(base: nat, n: nat): nat {
    if n == 0 then 1 else base * Power(base, n - 1)
  }

  function Value(base: nat, digits: seq<int>): int {
    if digits == [] then 0 else Value(base, digits[..|digits| - 1]) * base + digits[|digits| - 1]
  }

  ghost predicate Digits(base: nat, digits: seq<int>) {
    forall i :: 0 <= i < |digits| ==> 0 <= digits[i] < base
  }

  predicate Less(a: seq<int>, b: seq<int>) {
    if b == [] then false
    else if a == [] then true
    else if a[0] != b[0] then a[0] < b[0]
    else Less(a[1..], b[1..])
  }

  lemma {:induction false} Shift(v: int, p: int, w: int, base: int, d: int)
    ensures (v * p + w) * base + d == v * (base * p) + (w * base + d)
  {
    assert (v * p) * base == v * (base * p);
  }

  lemma {:induction false} AppendBound(v: int, p: int, base: int, d: int)
    requires v < p && d < base && 0 <= base
    requires 0 <= v && 0 <= d
    ensures 0 <= v * base + d < base * p
  {
    assert (v + 1) * base <= p * base;
  }

  lemma {:induction false} LeadingDigit(a: int, b: int, p: int, v: int, w: int)
    requires a < b && v < p && 0 <= w && 0 <= p
    ensures a * p + v < b * p + w
  {
    assert (a + 1) * p <= b * p;
  }

  lemma {:induction false} ValueConcat(base: nat, a: seq<int>, b: seq<int>)
    ensures Value(base, a + b) == Value(base, a) * Power(base, |b|) + Value(base, b)
  {
    if b == [] {
      assert a + b == a;
    } else {
      var front, last := b[..|b| - 1], b[|b| - 1];
      assert (a + b)[..|a + b| - 1] == a + front;
      ValueConcat(base, a, front);
      Shift(Value(base, a), Power(base, |front|), Value(base, front), base, last);
    }
  }

  lemma {:induction false} ValueBound(base: nat, digits: seq<int>)
    requires Digits(base, digits)
    ensures 0 <= Value(base, digits) < Power(base, |digits|)
  {
    if digits != [] {
      var front, last := digits[..|digits| - 1], digits[|digits| - 1];
      ValueBound(base, front);
      AppendBound(Value(base, front), Power(base, |front|), base, last);
    }
  }

  lemma {:induction false} SplitFirst(base: nat, d: seq<int>)
    requires d != []
    ensures Value(base, d) == d[0] * Power(base, |d| - 1) + Value(base, d[1..])
  {
    assert d == [d[0]] + d[1..];
    ValueConcat(base, [d[0]], d[1..]);
    OneDigit(base, d[0]);
  }

  /** Among numerals of one length, lexicographic order is numeric order. */
  lemma {:induction false} OrderIsNumeric(base: nat, a: seq<int>, b: seq<int>)
    requires |a| == |b| && Digits(base, a) && Digits(base, b)
    ensures Less(a, b) <==> Value(base, a) < Value(base, b)
    ensures a == b <==> Value(base, a) == Value(base, b)
  {
    if a != [] {
      var p := Power(base, |a| - 1);
      SplitFirst(base, a);
      SplitFirst(base, b);
      ValueBound(base, a[1..]);
      ValueBound(base, b[1..]);
      if a[0] < b[0] {
        LeadingDigit(a[0], b[0], p, Value(base, a[1..]), Value(base, b[1..]));
      } else if b[0] < a[0] {
        LeadingDigit(b[0], a[0], p, Value(base, b[1..]), Value(base, a[1..]));
      } else {
        OrderIsNumeric(base, a[1..], b[1..]);
        assert a[1..] == b[1..] ==> a == [a[0]] + a[1..] == [b[0]] + b[1..] == b;
      }
    }
  }

  lemma {:induction false} ValueAppend(base: nat, digits: seq<int>, d: int)
    ensures Value(base, digits + [d]) == Value(base, digits) * base + d
  {
    assert (digits + [d])[..|digits|] == digits;
  }

  lemma {:induction false} OneDigit(base: nat, d: int)
    ensures Value(base, [d]) == d
  {
    assert [d][..0] == [];
  }
}
