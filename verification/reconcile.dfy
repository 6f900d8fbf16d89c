/**
 The merge rule: the op with the greatest (wall_ts, op_seq, site_id) key wins its row.
 `IsMergeOf` says what a merge of a set of ops is without mentioning any order of arrival;
 `Merged` is the left-to-right fold, which the server's incremental store follows.
 */
module Reconcile {
  import opened Ops
  import AsciiOrder

  datatype Key = Key(wallTs: int, opSeq: int, siteId: string)

  function KeyOf(op: Op): Key {
    Key(op.wallTs, op.opSeq, op.siteId)
  }

  predicate KeyLess(a: Key, b: Key) {
    if a.wallTs != b.wallTs then a.wallTs < b.wallTs
    else if a.opSeq != b.opSeq then a.opSeq < b.opSeq
    else AsciiOrder.Less(a.siteId, b.siteId)
  }

  predicate Less(a: Op, b: Op) {
    KeyLess(KeyOf(a), KeyOf(b))
  }

  lemma {:induction false} KeyLessIrreflexive(a: Key)
    ensures !KeyLess(a, a)
  {
    AsciiOrder.Irreflexive(a.siteId);
  }

  lemma {:induction false} KeyLessTransitive(a: Key, b: Key, c: Key)
    requires KeyLess(a, b) && KeyLess(b, c)
    ensures KeyLess(a, c)
  {
    if a.wallTs == b.wallTs == c.wallTs && a.opSeq == b.opSeq == c.opSeq {
      AsciiOrder.Transitive(a.siteId, b.siteId, c.siteId);
    }
  }

  lemma {:induction false} KeyLessConnected(a: Key, b: Key)
    ensures KeyLess(a, b) || a == b || KeyLess(b, a)
  {
    AsciiOrder.Connected(a.siteId, b.siteId);
  }

  /** `Less` is a strict total order on keys. */
  lemma {:induction false} LessIsStrictTotalOrder(a: Op, b: Op, c: Op)
    ensures !Less(a, a)
    ensures Less(a, b) ==> !Less(b, a)
    ensures Less(a, b) && Less(b, c) ==> Less(a, c)
    ensures !Less(a, b) && !Less(b, a) <==> KeyOf(a) == KeyOf(b)
  {
    KeyLessIrreflexive(KeyOf(a));
    KeyLessConnected(KeyOf(a), KeyOf(b));
    if Less(a, b) && Less(b, a) {
      KeyLessTransitive(KeyOf(a), KeyOf(b), KeyOf(a));
    }
    if Less(a, b) && Less(b, c) {
      KeyLessTransitive(KeyOf(a), KeyOf(b), KeyOf(c));
    }
  }

  /** The clock decides, then op_seq, then the site id. */
  lemma {:induction false} ClockThenSeqThenSite(a: Op, b: Op)
    ensures a.wallTs < b.wallTs ==> Less(a, b)
    ensures a.wallTs == b.wallTs && a.opSeq < b.opSeq ==> Less(a, b)
    ensures a.wallTs == b.wallTs && a.opSeq == b.opSeq ==>
              (Less(a, b) <==> exists k: nat :: AsciiOrder.SmallerAt(a.siteId, b.siteId, k))
  {
    AsciiOrder.LessIffSmallerAtFirstDifference(a.siteId, b.siteId);
  }

  /** Not being beaten is transitive. */
  lemma {:induction false} AtLeastTransitive(a: Key, b: Key, c: Key)
    requires !KeyLess(a, b) && !KeyLess(b, c)
    ensures !KeyLess(a, c)
  {
    KeyLessConnected(a, b);
    KeyLessConnected(b, c);
    if KeyLess(a, c) {
      if a != b {
        KeyLessTransitive(b, a, c);
      }
    }
  }

  /** One step of the merge loop. */
  function MergeInto(winners: map<RowId, Op>, op: Op): map<RowId, Op> {
    var n := Normalize(op);
    if Row(n) !in winners || Less(winners[Row(n)], n) then winners[Row(n) := n] else winners
  }

  function Merged(ops: seq<Op>): map<RowId, Op> {
    if ops == [] then map[] else MergeInto(Merged(ops[..|ops| - 1]), ops[|ops| - 1])
  }

  method Merge(ops: seq<Op>) returns (winners: map<RowId, Op>)
    ensures winners == Merged(ops)
    ensures IsMergeOf(Elements(ops), winners)
  {
    winners := map[];
    for i := 0 to |ops|
      invariant winners == Merged(ops[..i])
    {
      var n := Normalize(ops[i]);
      if Row(n) !in winners || Less(winners[Row(n)], n) {
        winners := winners[Row(n) := n];
      }
      assert ops[..i + 1][..i] == ops[..i];
    }
    assert ops[..|ops|] == ops;
    MergedIsMerge(ops);
  }

  ghost function Elements(ops: seq<Op>): set<Op> {
    set o | o in ops
  }

  /** `w` holds, for exactly the rows that ops of `s` name, a greatest op of `s` for that row. */
  ghost predicate IsMergeOf(s: set<Op>, w: map<RowId, Op>) {
    && (forall o :: o in s ==> Row(o) in w && !Less(w[Row(o)], o))
    && (forall k :: k in w ==> exists o :: o in s && Row(o) == k && Normalize(o) == w[k])
  }

  /** No two different ops of `s` for one row have the same key. */
  ghost predicate KeysDistinct(s: set<Op>) {
    forall a, b :: a in s && b in s && Row(a) == Row(b) && KeyOf(a) == KeyOf(b) ==> a == b
  }

  lemma {:induction false} MergeIntoStep(s: set<Op>, w: map<RowId, Op>, op: Op)
    requires IsMergeOf(s, w)
    ensures IsMergeOf(s + {op}, MergeInto(w, op))
  {
    var n := Normalize(op);
    var w' := MergeInto(w, op);
    NormalizeKeepsMeaning(op);
    forall o | o in s + {op}
      ensures Row(o) in w' && !Less(w'[Row(o)], o)
    {
      KeyLessIrreflexive(KeyOf(op));
      if o != op && Row(o) == Row(op) && w' != w {
        KeyLessConnected(KeyOf(w[Row(o)]), KeyOf(o));
        if Less(n, o) {
          KeyLessTransitive(KeyOf(w[Row(o)]), KeyOf(n), KeyOf(o));
        }
      }
    }
    forall k | k in w'
      ensures exists o :: o in s + {op} && Row(o) == k && Normalize(o) == w'[k]
    {
      if k in w && w'[k] == w[k] {
        var o :| o in s && Row(o) == k && Normalize(o) == w[k];
      } else {
        assert op in s + {op} && Row(op) == k && Normalize(op) == w'[k];
      }
    }
  }

  lemma {:induction false} MergedIsMerge(ops: seq<Op>)
    ensures IsMergeOf(Elements(ops), Merged(ops))
  {
    if ops != [] {
      var front, last := ops[..|ops| - 1], ops[|ops| - 1];
      MergedIsMerge(front);
      MergeIntoStep(Elements(front), Merged(front), last);
      assert ops == front + [last];
      assert Elements(ops) == Elements(front) + {last};
    }
  }

  lemma {:induction false} NeitherIsLess(a: Op, b: Op)
    requires !Less(Normalize(a), b) && !Less(Normalize(b), a)
    ensures KeyOf(a) == KeyOf(b)
  {
    KeyLessConnected(KeyOf(a), KeyOf(b));
  }

  lemma {:induction false} WinnersAgree(s: set<Op>, v: map<RowId, Op>, w: map<RowId, Op>, k: RowId)
    requires IsMergeOf(s, v) && IsMergeOf(s, w) && KeysDistinct(s)
    requires k in v
    ensures k in w && v[k] == w[k]
  {
    var a := WinnerOf(s, v, k);
    Unbeaten(s, w, a);
    var b := WinnerOf(s, w, k);
    Unbeaten(s, v, b);
    NeitherIsLess(a, b);
  }

  lemma {:induction false} WinnerOf(s: set<Op>, w: map<RowId, Op>, k: RowId) returns (o: Op)
    requires IsMergeOf(s, w) && k in w
    ensures o in s && Row(o) == k && Normalize(o) == w[k]
  {
    o :| o in s && Row(o) == k && Normalize(o) == w[k];
  }

  lemma {:induction false} Unbeaten(s: set<Op>, w: map<RowId, Op>, o: Op)
    requires IsMergeOf(s, w) && o in s
    ensures Row(o) in w && !Less(w[Row(o)], o)
  {
  }

  lemma {:induction false} AllWinnersAgree(s: set<Op>, v: map<RowId, Op>, w: map<RowId, Op>)
    requires IsMergeOf(s, v) && IsMergeOf(s, w) && KeysDistinct(s)
    ensures forall k :: k in v ==> k in w && v[k] == w[k]
  {
    forall k | k in v
      ensures k in w && v[k] == w[k]
    {
      WinnersAgree(s, v, w, k);
    }
  }

  lemma {:induction false} MergeUnique(s: set<Op>, v: map<RowId, Op>, w: map<RowId, Op>)
    requires IsMergeOf(s, v) && IsMergeOf(s, w) && KeysDistinct(s)
    ensures v == w
  {
    AllWinnersAgree(s, v, w);
    AllWinnersAgree(s, w, v);
  }

  /** A merge depends only on the set of ops: not on their order, nor on repetitions. */
  lemma {:induction false} MergeIgnoresOrderAndDuplicates(ops: seq<Op>, others: seq<Op>)
    requires Elements(ops) == Elements(others) && KeysDistinct(Elements(ops))
    ensures Merged(ops) == Merged(others)
  {
    MergedIsMerge(ops);
    MergedIsMerge(others);
    MergeUnique(Elements(ops), Merged(ops), Merged(others));
  }

  /** Merging the winners of a set in place of the set itself still merges the set. */
  lemma {:induction false} WinnersStandIn(s: set<Op>, w: map<RowId, Op>, rest: set<Op>, m: map<RowId, Op>)
    requires IsMergeOf(s, w) && IsMergeOf(w.Values + rest, m)
    ensures IsMergeOf(s + rest, m)
  {
    forall o | o in s
      ensures Row(o) in m && !Less(m[Row(o)], o)
    {
      WinnerStandsInFor(s, w, rest, m, o);
    }
    forall k | k in m
      ensures exists o :: o in s + rest && Row(o) == k && Normalize(o) == m[k]
    {
      var o :| o in w.Values + rest && Row(o) == k && Normalize(o) == m[k];
      if o in rest {
        assert o in s + rest;
      } else {
        var j :| j in w && w[j] == o;
        var p :| p in s && Row(p) == j && Normalize(p) == o;
        NormalizeKeepsMeaning(p);
        assert p in s + rest;
      }
    }
  }

  lemma {:induction false} WinnerStandsInFor(s: set<Op>, w: map<RowId, Op>, rest: set<Op>, m: map<RowId, Op>, o: Op)
    requires IsMergeOf(s, w) && IsMergeOf(w.Values + rest, m)
    requires o in s
    ensures Row(o) in m && !Less(m[Row(o)], o)
  {
    var v := w[Row(o)];
    var p :| p in s && Row(p) == Row(o) && Normalize(p) == v;
    assert v in w.Values + rest && Row(v) == Row(o);
    AtLeastTransitive(KeyOf(m[Row(o)]), KeyOf(v), KeyOf(o));
  }

  /** Merging the winners of a prefix, listed in any order, with the remaining ops is merging everything. */
  lemma {:induction false} MergeResumesFromWinners(prefix: seq<Op>, winners: seq<Op>, rest: seq<Op>)
    requires Elements(winners) == Merged(prefix).Values
    requires KeysDistinct(Elements(prefix + rest))
    ensures Merged(winners + rest) == Merged(prefix + rest)
  {
    MergedIsMerge(prefix);
    MergedIsMerge(winners + rest);
    MergedIsMerge(prefix + rest);
    assert Elements(winners + rest) == Elements(winners) + Elements(rest);
    assert Elements(prefix + rest) == Elements(prefix) + Elements(rest);
    WinnersStandIn(Elements(prefix), Merged(prefix), Elements(rest), Merged(winners + rest));
    MergeUnique(Elements(prefix + rest), Merged(winners + rest), Merged(prefix + rest));
  }
}
