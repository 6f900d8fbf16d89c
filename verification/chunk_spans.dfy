/**
 Where the chunks lie in the trimmed text, and exactly which stretches of it the splitter cuts: a
 run without break characters is cut every 1500 characters from its start, and nowhere else.
 */
module ChunkSpans {
  import opened ChunkText

  datatype Span = Span(lo: nat, hi: nat)

  /** The place of the trimmed form of a piece of `t`. */
  function SpanOf(t: string, at: nat, end: nat): (spans: seq<Span>)
    requires at <= end <= |t|
  {
    var piece := t[at..end];
    if TrimSpace(piece) == "" then []
    else
      TrimLeftIsSuffix(piece, false);
      var lo := end - |TrimLeft(piece, false)|;
      [Span(lo, lo + |TrimSpace(piece)|)]
  }

  /** Where the splitter cuts what begins at `at`. */
  function CutAt(t: string, at: nat): (c: nat)
    requires at <= |t| && |t| - at > CHUNK_MAX_CHARS
    ensures at < c <= at + CHUNK_MAX_CHARS
  {
    at + Cut(t[at..])
  }

  /** Where it goes on after that. */
  function NextAt(t: string, at: nat): (next: nat)
    requires at <= |t| && |t| - at > CHUNK_MAX_CHARS
    ensures CutAt(t, at) <= next <= |t|
  {
    TrimLeftIsSuffix(t[CutAt(t, at)..], true);
    |t| - |TrimLeft(t[CutAt(t, at)..], true)|
  }

  /** The places of the chunks of what begins at `at`. */
  function Spans(t: string, at: nat): seq<Span>
    requires at <= |t|
    decreases |t| - at
  {
    if |t| - at <= CHUNK_MAX_CHARS then SpanOf(t, at, |t|)
    else SpanOf(t, at, CutAt(t, at)) + Spans(t, NextAt(t, at))
  }

  predicate Covers(span: Span, i: nat, j: nat) {
    span.lo <= i && j <= span.hi
  }

  ghost predicate Covered(spans: seq<Span>, i: nat, j: nat) {
    exists span :: span in spans && Covers(span, i, j)
  }

  // ----- the spans are the places of the chunks -----

  /** The pieces of `t` at these places are these chunks. */
  ghost predicate Reads(t: string, spans: seq<Span>, chunks: seq<string>) {
    |spans| == |chunks| && forall k :: 0 <= k < |spans| ==> spans[k].lo <= spans[k].hi <= |t| && chunks[k] == t[spans[k].lo..spans[k].hi]
  }

  ghost predicate Within(spans: seq<Span>, lo: nat, hi: nat) {
    forall span :: span in spans ==> lo <= span.lo <= span.hi <= hi
  }

  lemma {:induction false} SpanOfReads(t: string, at: nat, end: nat)
    requires at <= end <= |t|
    ensures Reads(t, SpanOf(t, at, end), IfAny(TrimSpace(t[at..end])))
    ensures Within(SpanOf(t, at, end), at, end)
  {
    var a, b := TrimSpaceIsMiddle(t[at..end]);
    SliceOfSlice(t, at, end, a, b);
  }

  lemma {:induction false} ReadsTogether(t: string, a: seq<Span>, cs: seq<string>, b: seq<Span>, ds: seq<string>)
    requires Reads(t, a, cs) && Reads(t, b, ds)
    ensures Reads(t, a + b, cs + ds)
  {
  }

  lemma {:induction false} WithinTogether(a: seq<Span>, b: seq<Span>, lo: nat, end: nat, next: nat, hi: nat)
    requires Within(a, lo, end) && Within(b, next, hi) && lo <= next && end <= hi
    ensures Within(a + b, lo, hi)
  {
  }

  /** One turn of the splitter, by position. */
  lemma {:induction false} SplitOnce(t: string, at: nat)
    requires at <= |t| && |t| - at > CHUNK_MAX_CHARS
    ensures Split(t[at..]) == IfAny(TrimSpace(t[at..CutAt(t, at)])) + Split(t[NextAt(t, at)..])
  {
    var rest, c := t[at..], CutAt(t, at);
    assert rest[..c - at] == t[at..c] && rest[c - at..] == t[c..];
    TrimLeftIsSuffix(t[c..], true);
    assert TrimLeft(t[c..], true) == t[NextAt(t, at)..];
    RestShrinks(rest);
  }

  lemma {:induction false} SpansAreWithin(t: string, at: nat)
    requires at <= |t|
    ensures Within(Spans(t, at), at, |t|)
    decreases |t| - at
  {
    if |t| - at <= CHUNK_MAX_CHARS {
      SpanOfReads(t, at, |t|);
    } else {
      SpanOfReads(t, at, CutAt(t, at));
      SpansAreWithin(t, NextAt(t, at));
      WithinTogether(SpanOf(t, at, CutAt(t, at)), Spans(t, NextAt(t, at)), at, CutAt(t, at), NextAt(t, at), |t|);
    }
  }

  lemma {:induction false} SpansReadChunks(t: string, at: nat)
    requires at <= |t|
    ensures Reads(t, Spans(t, at), Split(t[at..]))
    decreases |t| - at
  {
    if |t| - at <= CHUNK_MAX_CHARS {
      SpanOfReads(t, at, |t|);
      assert t[at..|t|] == t[at..];
    } else {
      var c, next := CutAt(t, at), NextAt(t, at);
      SpanOfReads(t, at, c);
      SpansReadChunks(t, next);
      SplitOnce(t, at);
      ReadsTogether(t, SpanOf(t, at, c), IfAny(TrimSpace(t[at..c])), Spans(t, next), Split(t[next..]));
    }
  }

  /** The chunks of a text, one by one, are the parts of its trimmed form at these places. */
  lemma {:induction false} ChunksLieAtSpans(text: string)
    ensures Reads(TrimSpace(text), Spans(TrimSpace(text), 0), Chunks(text))
  {
    var t := TrimSpace(text);
    SpansReadChunks(t, 0);
    assert t[0..] == t;
  }

  // ----- the cuts -----

  /** A stretch of `t` inside a run, with no white space at its ends. */
  ghost predicate IsStretch(t: string, lo: nat, hi: nat, i: nat, j: nat) {
    lo <= i < j <= hi <= |t| && IsRun(t, lo, hi) && !IsSpace(t[i]) && !IsSpace(t[j - 1])
  }

  /** The block of 1500 characters, counted from the start of the run, in which a position lies. */
  function Block(lo: nat, k: nat): nat
    requires lo <= k
  {
    (k - lo) / CHUNK_MAX_CHARS
  }

  /** Where the splitter may stand when the stretch is still ahead: before the run, or a multiple of 1500 into it. */
  ghost predicate Stands(lo: nat, at: nat, m: nat) {
    if m == 0 then at <= lo else at == lo + CHUNK_MAX_CHARS * m
  }

  lemma {:induction false} SameBlock(lo: nat, m: nat, i: nat, j: nat)
    requires lo <= i < j && lo + CHUNK_MAX_CHARS * m <= i && j <= lo + CHUNK_MAX_CHARS * (m + 1)
    ensures Block(lo, i) == Block(lo, j - 1) == m
  {
  }

  lemma {:induction false} DifferentBlocks(lo: nat, m: nat, i: nat, j: nat)
    requires lo <= i < lo + CHUNK_MAX_CHARS * (m + 1) < j
    ensures Block(lo, i) != Block(lo, j - 1)
  {
  }

  /** The trimmed form of a piece covers a stretch exactly when the piece does. */
  lemma {:induction false} PieceCovers(t: string, at: nat, end: nat, i: nat, j: nat)
    requires at <= end <= |t| && i < j <= |t| && !IsSpace(t[i]) && !IsSpace(t[j - 1])
    ensures Covered(SpanOf(t, at, end), i, j) <==> at <= i && j <= end
  {
    SpanOfReads(t, at, end);
    if at <= i && j <= end {
      var piece := t[at..end];
      var a, b := TrimSpaceIsMiddle(piece);
      assert piece[i - at] == t[i] && piece[j - 1 - at] == t[j - 1];
      assert Covers(Span(at + a, at + b), i, j) && Span(at + a, at + b) in SpanOf(t, at, end);
    }
  }

  lemma {:induction false} CoveredByParts(a: seq<Span>, b: seq<Span>, i: nat, j: nat)
    ensures Covered(a + b, i, j) <==> Covered(a, i, j) || Covered(b, i, j)
  {
    if Covered(a, i, j) {
      var span :| span in a && Covers(span, i, j);
      assert span in a + b;
    } else if Covered(b, i, j) {
      var span :| span in b && Covers(span, i, j);
      assert span in a + b;
    }
  }

  lemma {:induction false} FirstPieceOrLater(t: string, at: nat, i: nat, j: nat)
    requires at <= i < j <= |t| && !IsSpace(t[i]) && !IsSpace(t[j - 1]) && |t| - at > CHUNK_MAX_CHARS
    ensures Covered(Spans(t, at), i, j) <==> j <= CutAt(t, at) || Covered(Spans(t, NextAt(t, at)), i, j)
  {
    PieceCovers(t, at, CutAt(t, at), i, j);
    CoveredByParts(SpanOf(t, at, CutAt(t, at)), Spans(t, NextAt(t, at)), i, j);
  }

  lemma {:induction false} LaterSpansStartLater(t: string, next: nat, i: nat, j: nat)
    requires i < next <= |t|
    ensures !Covered(Spans(t, next), i, j)
  {
    SpansAreWithin(t, next);
  }

  lemma {:induction false} NextIsPastBreaks(t: string, at: nat)
    requires at <= |t| && |t| - at > CHUNK_MAX_CHARS
    ensures forall k :: CutAt(t, at) <= k < NextAt(t, at) ==> IsBreak(t[k])
    ensures NextAt(t, at) < |t| ==> !IsBreak(t[NextAt(t, at)])
  {
    var c := CutAt(t, at);
    TrimLeftIsSuffix(t[c..], true);
    assert forall k :: c <= k < |t| ==> t[k] == t[c..][k - c];
  }

  /** A cut inside a run falls a multiple of 1500 characters into the run. */
  lemma {:induction false} CutInRun(t: string, lo: nat, hi: nat, at: nat, m: nat)
    requires lo <= hi <= |t| && IsRun(t, lo, hi) && Stands(lo, at, m)
    requires |t| - at > CHUNK_MAX_CHARS && !IsBreak(t[at])
    requires lo < CutAt(t, at) < hi
    ensures CutAt(t, at) == lo + CHUNK_MAX_CHARS * (m + 1)
  {
    var head := t[at..][..CHUNK_MAX_CHARS + 1];
    var last := LastBreak(head);
    assert forall k :: 0 <= k < |head| ==> head[k] == t[at + k];
    assert !IsBreak(t[CutAt(t, at)]);
    assert last <= 0;
    assert forall k :: 0 < k < |head| ==> !IsBreak(head[k]);
    assert forall k :: at < k <= at + CHUNK_MAX_CHARS ==> head[k - at] == t[k];
  }

  /** Behind a cut that lies before the stretch, the splitter again stands before the run or a multiple of 1500 into it. */
  lemma {:induction false} StandsAgain(t: string, lo: nat, hi: nat, at: nat, m: nat, i: nat) returns (m': nat)
    requires lo <= i < hi <= |t| && IsRun(t, lo, hi) && Stands(lo, at, m)
    requires |t| - at > CHUNK_MAX_CHARS && !IsBreak(t[at]) && CutAt(t, at) <= i
    ensures NextAt(t, at) <= i && Stands(lo, NextAt(t, at), m') && !IsBreak(t[NextAt(t, at)])
  {
    NextIsPastBreaks(t, at);
    assert !IsBreak(t[i]) && !IsBreak(t[lo]);
    m' := 0;
    if lo < NextAt(t, at) {
      CutInRun(t, lo, hi, at, m);
      assert !IsBreak(t[CutAt(t, at)]);
      m' := m + 1;
    }
  }

  /** The stretch starts before the cut: it is whole in the first piece, or the cut falls in it at a block boundary. */
  lemma {:induction false} StretchMeetsCut(t: string, lo: nat, hi: nat, i: nat, j: nat, at: nat, m: nat)
    requires IsStretch(t, lo, hi, i, j) && at <= i && Stands(lo, at, m)
    requires |t| - at > CHUNK_MAX_CHARS && !IsBreak(t[at]) && i < CutAt(t, at)
    ensures j <= CutAt(t, at) <==> Block(lo, i) == Block(lo, j - 1)
    ensures !Covered(Spans(t, NextAt(t, at)), i, j)
  {
    LaterSpansStartLater(t, NextAt(t, at), i, j);
    if j <= CutAt(t, at) {
      SameBlock(lo, m, i, j);
    } else {
      CutInRun(t, lo, hi, at, m);
      DifferentBlocks(lo, m, i, j);
    }
  }

  lemma {:induction false} StretchIsCutAtBlocks(t: string, lo: nat, hi: nat, i: nat, j: nat, at: nat, m: nat)
    requires IsStretch(t, lo, hi, i, j) && at <= i && !IsBreak(t[at]) && Stands(lo, at, m)
    ensures Covered(Spans(t, at), i, j) <==> Block(lo, i) == Block(lo, j - 1)
    decreases |t| - at
  {
    if |t| - at <= CHUNK_MAX_CHARS {
      PieceCovers(t, at, |t|, i, j);
      SameBlock(lo, m, i, j);
    } else {
      FirstPieceOrLater(t, at, i, j);
      if CutAt(t, at) <= i {
        var m' := StandsAgain(t, lo, hi, at, m, i);
        StretchIsCutAtBlocks(t, lo, hi, i, j, NextAt(t, at), m');
      } else {
        StretchMeetsCut(t, lo, hi, i, j, at, m);
      }
    }
  }

  /**
   Exactly which stretches are cut. Take a run of the trimmed text without break characters, of any
   length, and a stretch of it with no white space at its ends: in particular a word set off by
   vertical tabs or form feeds. It lies whole inside one chunk if and only if its first and its last
   character lie in the same block of 1500 characters counted from the start of the run.
   */
  lemma {:induction false} StretchStaysWholeIffInOneBlock(text: string, lo: nat, hi: nat, i: nat, j: nat)
    requires IsStretch(TrimSpace(text), lo, hi, i, j)
    ensures Covered(Spans(TrimSpace(text), 0), i, j) <==> Block(lo, i) == Block(lo, j - 1)
  {
    var t := TrimSpace(text);
    var a, b := TrimSpaceIsMiddle(text);
    assert t[0] == text[a];
    StretchIsCutAtBlocks(t, lo, hi, i, j, 0, 0);
  }

  // ----- the splitter is greedy -----

  /** The white space that ends a piece, and the white space that is trimmed. */
  lemma {:induction false} WhiteSpaceIs(c: char)
    ensures IsBreak(c) <==> c in " \t\n\r"
    ensures IsSpace(c) <==> c in " \t\n\r\U{B}\U{C}"
  {
  }

  /** A piece that starts at `at` is cut at the last break within 1500 characters, or after 1500 if there is none. */
  ghost predicate CutsGreedily(t: string, at: nat, cut: nat) {
    && at < cut <= at + 1500 < |t|
    && (forall k :: cut < k <= at + 1500 ==> t[k] !in " \t\n\r")
    && (t[cut] in " \t\n\r" || (cut == at + 1500 && forall k :: at < k <= at + 1500 ==> t[k] !in " \t\n\r"))
  }

  /** The next piece starts at the first character from the cut on that is not a break. */
  ghost predicate SkipsBreaks(t: string, cut: nat, next: nat) {
    && cut <= next <= |t|
    && (forall k :: cut <= k < next ==> t[k] in " \t\n\r")
    && (next < |t| ==> t[next] !in " \t\n\r")
  }

  /** Where the pieces start and end: greedily cut, up to a last one of at most 1500 characters. */
  ghost predicate IsGreedy(t: string, starts: seq<nat>, cuts: seq<nat>) {
    && |starts| == |cuts| > 0
    && (forall m :: 0 <= m < |starts| - 1 ==> CutsGreedily(t, starts[m], cuts[m]) && SkipsBreaks(t, cuts[m], starts[m + 1]))
    && starts[|starts| - 1] <= cuts[|cuts| - 1] == |t| <= starts[|starts| - 1] + 1500
  }

  /** The pieces between these positions, trimmed; a piece of white space only gives no chunk. */
  ghost function Pieces(t: string, starts: seq<nat>, cuts: seq<nat>): seq<string>
    requires |starts| == |cuts| && forall m :: 0 <= m < |starts| ==> starts[m] <= cuts[m] <= |t|
  {
    if starts == [] then []
    else
      var piece := TrimSpace(t[starts[0]..cuts[0]]);
      (if piece == "" then [] else [piece]) + Pieces(t, starts[1..], cuts[1..])
  }

  lemma {:induction false} CutIsGreedy(t: string, at: nat)
    requires at <= |t| && |t| - at > CHUNK_MAX_CHARS
    ensures CutsGreedily(t, at, CutAt(t, at)) && SkipsBreaks(t, CutAt(t, at), NextAt(t, at))
  {
    var head := t[at..][..CHUNK_MAX_CHARS + 1];
    assert forall k :: at <= k <= at + 1500 ==> t[k] == head[k - at];
    NextIsPastBreaks(t, at);
  }

  lemma {:induction false} GreedyInBounds(t: string, starts: seq<nat>, cuts: seq<nat>)
    requires IsGreedy(t, starts, cuts)
    ensures forall m :: 0 <= m < |starts| ==> starts[m] <= cuts[m] <= |t|
  {
    forall m | 0 <= m < |starts|
      ensures starts[m] <= cuts[m] <= |t|
    {
      assert m < |starts| - 1 ==> CutsGreedily(t, starts[m], cuts[m]);
    }
  }

  lemma {:induction false} OneMoreInFront(t: string, at: nat, cut: nat, starts: seq<nat>, cuts: seq<nat>)
    requires IsGreedy(t, starts, cuts) && CutsGreedily(t, at, cut) && SkipsBreaks(t, cut, starts[0])
    ensures IsGreedy(t, [at] + starts, [cut] + cuts)
  {
    var longer, ends := [at] + starts, [cut] + cuts;
    forall m | 0 <= m < |longer| - 1
      ensures CutsGreedily(t, longer[m], ends[m]) && SkipsBreaks(t, ends[m], longer[m + 1])
    {
      if m > 0 {
        assert CutsGreedily(t, starts[m - 1], cuts[m - 1]) && SkipsBreaks(t, cuts[m - 1], starts[m]);
      }
    }
  }

  lemma {:induction false} SplitIsGreedy(t: string, at: nat) returns (starts: seq<nat>, cuts: seq<nat>)
    requires at <= |t|
    ensures IsGreedy(t, starts, cuts) && starts[0] == at
    ensures (forall m :: 0 <= m < |starts| ==> starts[m] <= cuts[m] <= |t|) && Split(t[at..]) == Pieces(t, starts, cuts)
    decreases |t| - at
  {
    if |t| - at <= CHUNK_MAX_CHARS {
      starts, cuts := [at], [|t|];
      assert t[at..|t|] == t[at..];
      assert Pieces(t, starts[1..], cuts[1..]) == [];
    } else {
      var cut, next := CutAt(t, at), NextAt(t, at);
      CutIsGreedy(t, at);
      SplitOnce(t, at);
      var laterStarts, laterCuts := SplitIsGreedy(t, next);
      starts, cuts := [at] + laterStarts, [cut] + laterCuts;
      OneMoreInFront(t, at, cut, laterStarts, laterCuts);
      GreedyInBounds(t, starts, cuts);
      assert starts[1..] == laterStarts && cuts[1..] == laterCuts;
    }
  }

  /**
   The chunks are the trimmed pieces of the trimmed text, cut greedily from its start. The positions
   are determined by `IsGreedy`: every cut by its start, every start by the cut before it.
   */
  lemma {:induction false} ChunksAreGreedy(text: string) returns (starts: seq<nat>, cuts: seq<nat>)
    ensures var t := TrimSpace(text);
            && IsGreedy(t, starts, cuts) && starts[0] == 0
            && (forall m :: 0 <= m < |starts| ==> starts[m] <= cuts[m] <= |t|)
            && Chunks(text) == Pieces(t, starts, cuts)
  {
    var t := TrimSpace(text);
    starts, cuts := SplitIsGreedy(t, 0);
    assert t[0..] == t;
  }

  /** No other positions are greedy, so the statement above fixes every chunk. */
  lemma {:induction false} GreedyPositionsAreUnique(t: string, starts: seq<nat>, cuts: seq<nat>, starts': seq<nat>, cuts': seq<nat>)
    requires IsGreedy(t, starts, cuts) && IsGreedy(t, starts', cuts') && starts[0] == starts'[0]
    ensures starts == starts' && cuts == cuts'
  {
    if |starts| > 1 {
      assert CutsGreedily(t, starts[0], cuts[0]) && SkipsBreaks(t, cuts[0], starts[1]);
    }
    if |starts'| > 1 {
      assert CutsGreedily(t, starts'[0], cuts'[0]) && SkipsBreaks(t, cuts'[0], starts'[1]);
    }
    if |starts| > 1 && |starts'| > 1 {
      SameCut(t, starts[0], cuts[0], cuts'[0], starts[1], starts'[1]);
      TailIsGreedy(t, starts, cuts);
      TailIsGreedy(t, starts', cuts');
      GreedyPositionsAreUnique(t, starts[1..], cuts[1..], starts'[1..], cuts'[1..]);
      assert starts == [starts[0]] + starts[1..] && starts' == [starts'[0]] + starts'[1..];
      assert cuts == [cuts[0]] + cuts[1..] && cuts' == [cuts'[0]] + cuts'[1..];
    }
  }

  lemma {:induction false} TailIsGreedy(t: string, starts: seq<nat>, cuts: seq<nat>)
    requires IsGreedy(t, starts, cuts) && |starts| > 1
    ensures IsGreedy(t, starts[1..], cuts[1..])
  {
    forall m | 0 <= m < |starts| - 2
      ensures CutsGreedily(t, starts[1..][m], cuts[1..][m]) && SkipsBreaks(t, cuts[1..][m], starts[1..][m + 1])
    {
      assert CutsGreedily(t, starts[m + 1], cuts[m + 1]) && SkipsBreaks(t, cuts[m + 1], starts[m + 2]);
    }
  }

  lemma {:induction false} SameCut(t: string, at: nat, cut: nat, cut': nat, next: nat, next': nat)
    requires CutsGreedily(t, at, cut) && CutsGreedily(t, at, cut') && SkipsBreaks(t, cut, next) && SkipsBreaks(t, cut', next')
    ensures cut == cut' && next == next'
  {
    assert cut == cut';
  }
}
