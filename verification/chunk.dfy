/**
 Splitting page text into embedding-sized chunks, for ASCII text. Trimming takes off all six
 ASCII white-space characters, but only four of them are break points.
 */
module ChunkText {
  const CHUNK_MAX_CHARS := 1500

  predicate IsBreak(c: char) {
    c == ' ' || c == '\t' || c == '\n' || c == '\r'
  }

  predicate IsSpace(c: char) {
    IsBreak(c) || c == '\U{B}' || c == '\U{C}'
  }

  function TrimLeft(s: string, breaksOnly: bool): string {
    if s != "" && (if breaksOnly then IsBreak(s[0]) else IsSpace(s[0])) then TrimLeft(s[1..], breaksOnly) else s
  }

  function TrimRight(s: string): string {
    if s != "" && IsSpace(s[|s| - 1]) then TrimRight(s[..|s| - 1]) else s
  }

  function TrimSpace(s: string): string {
    TrimRight(TrimLeft(s, false))
  }

  /** The position of the last break character, or -1. */
  function LastBreak(s: string): (i: int)
    ensures -1 <= i < |s|
    ensures i >= 0 ==> IsBreak(s[i])
    ensures forall j :: i < j < |s| ==> !IsBreak(s[j])
  {
    if s == "" then -1
    else if IsBreak(s[|s| - 1]) then |s| - 1
    else LastBreak(s[..|s| - 1])
  }

  lemma {:induction false} TrimLeftIsSuffix(s: string, breaksOnly: bool)
    ensures var t := TrimLeft(s, breaksOnly);
            && |t| <= |s| && t == s[|s| - |t|..]
            && (forall i :: 0 <= i < |s| - |t| ==> IsSpace(s[i]) && (breaksOnly ==> IsBreak(s[i])))
            && (t != "" ==> if breaksOnly then !IsBreak(t[0]) else !IsSpace(t[0]))
  {
    if s != "" {
      TrimLeftIsSuffix(s[1..], breaksOnly);
    }
  }

  lemma {:induction false} TrimRightIsPrefix(s: string)
    ensures var t := TrimRight(s);
            && |t| <= |s| && t == s[..|t|]
            && (forall i :: |t| <= i < |s| ==> IsSpace(s[i]))
            && (t != "" ==> !IsSpace(t[|t| - 1]))
  {
    if s != "" {
      TrimRightIsPrefix(s[..|s| - 1]);
    }
  }

  /** Where the trimmed text sits: everything before and after is white space, its two ends are not. */
  lemma {:induction false} TrimSpaceIsMiddle(s: string) returns (a: nat, b: nat)
    ensures a <= b <= |s| && TrimSpace(s) == s[a..b]
    ensures a == |s| - |TrimLeft(s, false)|
    ensures forall i :: 0 <= i < a || b <= i < |s| ==> IsSpace(s[i])
    ensures a < b ==> !IsSpace(s[a]) && !IsSpace(s[b - 1])
  {
    var l := TrimLeft(s, false);
    TrimLeftIsSuffix(s, false);
    TrimRightIsPrefix(l);
    a := |s| - |l|;
    b := a + |TrimSpace(s)|;
    assert forall i :: b <= i < |s| ==> s[i] == l[i - a];
  }

  predicate IsTrimmed(s: string) {
    s != "" && !IsSpace(s[0]) && !IsSpace(s[|s| - 1])
  }

  // ----- the splitter -----

  function Cut(rest: string): (cut: nat)
    requires |rest| > CHUNK_MAX_CHARS
    ensures 0 < cut <= CHUNK_MAX_CHARS
  {
    var i := LastBreak(rest[..CHUNK_MAX_CHARS + 1]);
    if i <= 0 then CHUNK_MAX_CHARS else i
  }

  function IfAny(s: string): seq<string> {
    if s == "" then [] else [s]
  }

  lemma {:induction false} RestShrinks(rest: string)
    requires |rest| > CHUNK_MAX_CHARS
    ensures |TrimLeft(rest[Cut(rest)..], true)| < |rest|
  {
    TrimLeftIsSuffix(rest[Cut(rest)..], true);
  }

  function Split(rest: string): seq<string>
    decreases |rest|
  {
    if |rest| <= CHUNK_MAX_CHARS then IfAny(TrimSpace(rest))
    else
      RestShrinks(rest);
      var cut := Cut(rest);
      IfAny(TrimSpace(rest[..cut])) + Split(TrimLeft(rest[cut..], true))
  }

  function Chunks(text: string): seq<string> {
    Split(TrimSpace(text))
  }

  method ChunkText(text: string) returns (chunks: seq<string>)
    ensures chunks == Chunks(text)
  {
    var t := TrimSpace(text);
    TrimTwice(text);
    if t == "" {
      return [];
    }
    if |t| <= CHUNK_MAX_CHARS {
      return [t];
    }
    chunks := SplitLong(t);
  }

  /** The loop for a text over the budget. */
  method SplitLong(t: string) returns (chunks: seq<string>)
    ensures chunks == Split(t)
  {
    chunks := [];
    var rest := t;
    while |rest| > CHUNK_MAX_CHARS
      invariant chunks + Split(rest) == Split(t)
      decreases |rest|
    {
      var cut := LastBreak(rest[..CHUNK_MAX_CHARS + 1]);
      if cut <= 0 {
        cut := CHUNK_MAX_CHARS;
      }
      RestShrinks(rest);
      var c := TrimSpace(rest[..cut]);
      MoveBoundary(chunks, c, Split(TrimLeft(rest[cut..], true)));
      if c != "" {
        chunks := chunks + [c];
      }
      rest := TrimLeft(rest[cut..], true);
    }
    var c := TrimSpace(rest);
    if c != "" {
      chunks := chunks + [c];
    }
  }

  lemma {:induction false} MoveBoundary(chunks: seq<string>, c: string, later: seq<string>)
    ensures chunks + (IfAny(c) + later) == (if c != "" then chunks + [c] else chunks) + later
  {
  }

  lemma {:induction false} TrimTwice(text: string)
    ensures TrimSpace(TrimSpace(text)) == TrimSpace(text)
  {
    var a, b := TrimSpaceIsMiddle(text);
    var t := TrimSpace(text);
    TrimIsIdentityOnTrimmed(t);
  }

  lemma {:induction false} TrimIsIdentityOnTrimmed(t: string)
    requires t == "" || IsTrimmed(t)
    ensures TrimSpace(t) == t
  {
  }

  // ----- every chunk is a good chunk -----

  predicate IsChunk(c: string) {
    IsTrimmed(c) && |c| <= CHUNK_MAX_CHARS
  }

  lemma {:induction false} PieceGivesChunk(piece: string)
    requires |piece| <= CHUNK_MAX_CHARS
    ensures forall c :: c in IfAny(TrimSpace(piece)) ==> IsChunk(c)
  {
    var a, b := TrimSpaceIsMiddle(piece);
    var t := TrimSpace(piece);
    assert t != "" ==> t[0] == piece[a] && t[|t| - 1] == piece[b - 1];
  }

  lemma {:induction false} SplitGivesChunks(rest: string)
    ensures forall c :: c in Split(rest) ==> IsChunk(c)
    decreases |rest|
  {
    if |rest| <= CHUNK_MAX_CHARS {
      PieceGivesChunk(rest);
    } else {
      var cut := Cut(rest);
      PieceGivesChunk(rest[..cut]);
      RestShrinks(rest);
      SplitGivesChunks(TrimLeft(rest[cut..], true));
      assert Split(rest) == IfAny(TrimSpace(rest[..cut])) + Split(TrimLeft(rest[cut..], true));
    }
  }

  /** Every chunk has a non-blank first and last character and fits the budget. */
  lemma {:induction false} ChunksAreTrimmedAndShort(text: string)
    ensures forall c :: c in Chunks(text) ==> IsTrimmed(c) && TrimSpace(c) == c && |c| <= CHUNK_MAX_CHARS
  {
    SplitGivesChunks(TrimSpace(text));
    forall c | c in Chunks(text)
      ensures TrimSpace(c) == c
    {
      TrimIsIdentityOnTrimmed(c);
    }
  }

  // ----- nothing is dropped -----

  function Squeeze(s: string): string {
    if s == "" then "" else Squeeze(s[..|s| - 1]) + if IsSpace(s[|s| - 1]) then "" else [s[|s| - 1]]
  }

  function Joined(chunks: seq<string>): string {
    if chunks == [] then "" else chunks[0] + Joined(chunks[1..])
  }

  lemma {:induction false} SqueezeConcat(s: string, t: string)
    ensures Squeeze(s + t) == Squeeze(s) + Squeeze(t)
  {
    if t == "" {
      assert s + t == s;
    } else {
      assert (s + t)[..|s + t| - 1] == s + t[..|t| - 1];
      SqueezeConcat(s, t[..|t| - 1]);
    }
  }

  lemma {:induction false} SqueezeSpaces(s: string)
    requires forall i :: 0 <= i < |s| ==> IsSpace(s[i])
    ensures Squeeze(s) == ""
  {
    if s != "" {
      SqueezeSpaces(s[..|s| - 1]);
    }
  }

  lemma {:induction false} SqueezeTrimmed(s: string)
    ensures Squeeze(TrimSpace(s)) == Squeeze(s)
  {
    var a, b := TrimSpaceIsMiddle(s);
    assert s == s[..a] + s[a..b] + s[b..];
    SqueezeConcat(s[..a] + s[a..b], s[b..]);
    SqueezeConcat(s[..a], s[a..b]);
    SqueezeSpaces(s[..a]);
    SqueezeSpaces(s[b..]);
  }

  lemma {:induction false} SqueezeLeftTrimmed(s: string)
    ensures Squeeze(TrimLeft(s, true)) == Squeeze(s)
  {
    TrimLeftIsSuffix(s, true);
    var d := |s| - |TrimLeft(s, true)|;
    assert s == s[..d] + s[d..];
    SqueezeConcat(s[..d], s[d..]);
    SqueezeSpaces(s[..d]);
  }

  lemma {:induction false} JoinedFirst(c: string, cs: seq<string>)
    ensures Joined(IfAny(c) + cs) == c + Joined(cs)
  {
    if c == "" {
      assert IfAny(c) + cs == cs;
    } else {
      assert (IfAny(c) + cs)[1..] == cs;
    }
  }

  lemma {:induction false} SplitKeepsContent(rest: string)
    ensures Squeeze(Joined(Split(rest))) == Squeeze(rest)
    decreases |rest|
  {
    if |rest| <= CHUNK_MAX_CHARS {
      assert IfAny(TrimSpace(rest)) + [] == IfAny(TrimSpace(rest));
      JoinedFirst(TrimSpace(rest), []);
      assert TrimSpace(rest) + "" == TrimSpace(rest);
      SqueezeTrimmed(rest);
    } else {
      var cut := Cut(rest);
      var later := TrimLeft(rest[cut..], true);
      RestShrinks(rest);
      SplitKeepsContent(later);
      PieceKeepsContent(rest, cut, Split(later));
    }
  }

  lemma {:induction false} PieceKeepsContent(rest: string, cut: nat, chunks: seq<string>)
    requires cut <= |rest| && Squeeze(Joined(chunks)) == Squeeze(TrimLeft(rest[cut..], true))
    ensures Squeeze(Joined(IfAny(TrimSpace(rest[..cut])) + chunks)) == Squeeze(rest)
  {
    var c := TrimSpace(rest[..cut]);
    JoinedFirst(c, chunks);
    SqueezeConcat(c, Joined(chunks));
    SqueezeTrimmed(rest[..cut]);
    SqueezeLeftTrimmed(rest[cut..]);
    assert rest == rest[..cut] + rest[cut..];
    SqueezeConcat(rest[..cut], rest[cut..]);
  }

  /** Up to white space, the chunks in order are the text. */
  lemma {:induction false} NoContentIsDropped(text: string)
    ensures Squeeze(Joined(Chunks(text))) == Squeeze(text)
  {
    SplitKeepsContent(TrimSpace(text));
    SqueezeTrimmed(text);
  }

  // ----- words stay whole -----

  predicate OccursAt(w: string, s: string, i: int) {
    0 <= i <= |s| - |w| && s[i..i + |w|] == w
  }

  predicate IsInfix(w: string, s: string) {
    exists i :: 0 <= i <= |s| && OccursAt(w, s, i)
  }

  /** `s[i..j]` is a stretch without break characters that reaches as far as it can both ways. */
  predicate IsRun(s: string, i: nat, j: nat)
    requires i <= j <= |s|
  {
    && i < j
    && (forall k :: i <= k < j ==> !IsBreak(s[k]))
    && (i == 0 || IsBreak(s[i - 1]))
    && (j == |s| || IsBreak(s[j]))
  }

  ghost predicate Somewhere(w: string, chunks: seq<string>) {
    w == "" || exists c :: c in chunks && IsInfix(w, c)
  }

  /** Trimming a text does not cut into the trimmed form of a part of it. */
  lemma {:induction false} PartSurvivesTrim(s: string, i: nat, j: nat)
    requires i <= j <= |s|
    ensures Somewhere(TrimSpace(s[i..j]), IfAny(TrimSpace(s)))
  {
    var w := TrimSpace(s[i..j]);
    var a, b := TrimSpaceIsMiddle(s[i..j]);
    var p, q := TrimSpaceIsMiddle(s);
    if w != "" {
      assert !IsSpace(s[i + a]) && !IsSpace(s[i + b - 1]);
      assert p <= i + a < i + b <= q;
      SameStretch(s, i, j, a, b, p, q);
      assert OccursAt(w, TrimSpace(s), i + a - p);
      assert TrimSpace(s) in IfAny(TrimSpace(s));
    }
  }

  lemma {:induction false} SliceOfSlice(s: string, i: nat, j: nat, a: nat, b: nat)
    requires i <= j <= |s| && a <= b <= j - i
    ensures s[i..j][a..b] == s[i + a..i + b]
  {
    var t, u := s[i..j][a..b], s[i + a..i + b];
    forall k | 0 <= k < b - a
      ensures t[k] == u[k]
    {
      assert s[i..j][a + k] == s[i + a + k];
    }
  }

  lemma {:induction false} SameStretch(s: string, i: nat, j: nat, a: nat, b: nat, p: nat, q: nat)
    requires i <= j <= |s| && a <= b <= j - i && p <= i + a && i + b <= q <= |s|
    ensures s[i..j][a..b] == s[p..q][i + a - p..i + b - p]
  {
    SliceOfSlice(s, i, j, a, b);
    SliceOfSlice(s, p, q, i + a - p, i + b - p);
  }

  lemma {:induction false} SomewhereFirst(w: string, a: seq<string>, b: seq<string>)
    requires Somewhere(w, a)
    ensures Somewhere(w, a + b)
  {
    if w != "" {
      var c :| c in a && IsInfix(w, c);
      assert c in a + b;
    }
  }

  lemma {:induction false} SomewhereLater(w: string, a: seq<string>, b: seq<string>)
    requires Somewhere(w, b)
    ensures Somewhere(w, a + b)
  {
    if w != "" {
      var c :| c in b && IsInfix(w, c);
      assert c in a + b;
    }
  }

  /** No cut falls inside a run that fits a chunk. */
  lemma {:induction false} RunIsNotCut(rest: string, i: nat, j: nat)
    requires |rest| > CHUNK_MAX_CHARS && !IsBreak(rest[0])
    requires i <= j <= |rest| && IsRun(rest, i, j) && j - i <= CHUNK_MAX_CHARS
    ensures j <= Cut(rest) || Cut(rest) <= i
  {
    var head := rest[..CHUNK_MAX_CHARS + 1];
    assert forall k :: 0 <= k < |head| ==> head[k] == rest[k];
    assert 0 < i <= CHUNK_MAX_CHARS ==> IsBreak(head[i - 1]);
    assert head[0] == rest[0];
  }

  /** A run is still one when the break characters before it are trimmed. */
  lemma {:induction false} RunMovesOn(s: string, i: nat, j: nat) returns (d: nat)
    requires i <= j <= |s| && IsRun(s, i, j)
    ensures d <= i && TrimLeft(s, true) == s[d..] && !IsBreak(s[d])
    ensures IsRun(s[d..], i - d, j - d) && s[d..][i - d..j - d] == s[i..j]
  {
    var later := TrimLeft(s, true);
    TrimLeftIsSuffix(s, true);
    d := |s| - |later|;
    assert !IsBreak(s[i]);
    RunInSuffix(s, d, i, j);
    assert later[0] == s[d];
  }

  lemma {:induction false} RunInSuffix(s: string, d: nat, i: nat, j: nat)
    requires d <= i <= j <= |s| && IsRun(s, i, j)
    ensures IsRun(s[d..], i - d, j - d) && s[d..][i - d..j - d] == s[i..j]
  {
    assert s[d..|s|] == s[d..];
    PartOfRun(s, i, j, d, |s|, i, j);
    SliceOfSlice(s, d, |s|, i - d, j - d);
  }

  /** A run behind the cut is a run of what is left over. */
  lemma {:induction false} RunBehindCut(rest: string, cut: nat, i: nat, j: nat) returns (p: nat, q: nat)
    requires cut <= i <= j <= |rest| && IsRun(rest, i, j)
    ensures var later := TrimLeft(rest[cut..], true);
            && later != "" && !IsBreak(later[0])
            && p <= q <= |later| && q - p == j - i && IsRun(later, p, q) && later[p..q] == rest[i..j]
  {
    RunInSuffix(rest, cut, i, j);
    var d := RunMovesOn(rest[cut..], i - cut, j - cut);
    p, q := i - cut - d, j - cut - d;
  }

  lemma {:induction false} SplitKeepsRun(rest: string, i: nat, j: nat)
    requires rest != "" && !IsBreak(rest[0])
    requires i <= j <= |rest| && IsRun(rest, i, j) && j - i <= CHUNK_MAX_CHARS
    ensures Somewhere(TrimSpace(rest[i..j]), Split(rest))
    decreases |rest|
  {
    if |rest| <= CHUNK_MAX_CHARS {
      PartSurvivesTrim(rest, i, j);
    } else {
      var cut := Cut(rest);
      RunIsNotCut(rest, i, j);
      RestShrinks(rest);
      var later := TrimLeft(rest[cut..], true);
      if j <= cut {
        RunBeforeCut(rest, cut, i, j);
        SomewhereFirst(TrimSpace(rest[i..j]), IfAny(TrimSpace(rest[..cut])), Split(later));
      } else {
        var p, q := RunBehindCut(rest, cut, i, j);
        SplitKeepsRun(later, p, q);
        SomewhereLater(TrimSpace(later[p..q]), IfAny(TrimSpace(rest[..cut])), Split(later));
      }
    }
  }

  lemma {:induction false} RunBeforeCut(s: string, cut: nat, i: nat, j: nat)
    requires i <= j <= cut <= |s|
    ensures Somewhere(TrimSpace(s[i..j]), IfAny(TrimSpace(s[..cut])))
  {
    assert s[..cut][i..j] == s[i..j];
    PartSurvivesTrim(s[..cut], i, j);
  }

  lemma {:induction false} PaddingIsTrimmed(x: string, m: string, y: string)
    requires forall k :: 0 <= k < |x| ==> IsSpace(x[k])
    requires forall k :: 0 <= k < |y| ==> IsSpace(y[k])
    ensures TrimSpace(x + m + y) == TrimSpace(m)
  {
    var s := x + m + y;
    var a, b := TrimSpaceIsMiddle(s);
    var p, q := TrimSpaceIsMiddle(m);
    assert forall k :: 0 <= k < |m| ==> s[|x| + k] == m[k];
    if p < q {
      assert !IsSpace(s[|x| + p]) && !IsSpace(s[|x| + q - 1]);
      assert a == |x| + p && b == |x| + q;
    } else {
      assert forall k :: 0 <= k < |s| ==> IsSpace(s[k]);
    }
  }

  lemma {:induction false} RunInTrimmed(text: string, i: nat, j: nat, a: nat, b: nat)
    requires i <= j <= |text| && IsRun(text, i, j) && a < b <= |text|
    ensures var t, p, q := text[a..b], if i < a then a else i, if b < j then b else j;
            p < q ==> IsRun(t, p - a, q - a) && t[p - a..q - a] == text[p..q]
  {
    var p, q := if i < a then a else i, if b < j then b else j;
    if p < q {
      PartOfRun(text, i, j, a, b, p, q);
      SliceOfSlice(text, a, b, p - a, q - a);
    }
  }

  /** Cutting a text down to `[a..b]` leaves of a run the part inside. */
  lemma {:induction false} PartOfRun(text: string, i: nat, j: nat, a: nat, b: nat, p: nat, q: nat)
    requires i <= j <= |text| && IsRun(text, i, j) && a <= p < q <= b <= |text|
    requires p == (if i < a then a else i) && q == (if b < j then b else j)
    ensures IsRun(text[a..b], p - a, q - a)
  {
    var t := text[a..b];
    assert forall k :: p - a <= k < q - a ==> t[k] == text[k + a];
    assert p > a ==> t[p - a - 1] == text[p - 1];
    assert q < b ==> t[q - a] == text[q];
  }

  /**
   Every run of at most 1500 characters between break characters lies whole, up to trimming, in
   one chunk. In particular every such run without white space does.
   */
  lemma {:induction false} RunsStayWhole(text: string, i: nat, j: nat)
    requires i <= j <= |text| && IsRun(text, i, j) && j - i <= CHUNK_MAX_CHARS
    ensures Somewhere(TrimSpace(text[i..j]), Chunks(text))
  {
    var a, b := TrimSpaceIsMiddle(text);
    var p, q := if i < a then a else i, if b < j then b else j;
    if p < q {
      MarginsAreTrimmed(text, i, j, p, q);
      RunInTrimmed(text, i, j, a, b);
      CoreStaysWhole(text, a, b, p, q);
    } else {
      AllSpaceIsTrimmed(text[i..j]);
    }
  }

  /** A run without white space lies whole in one chunk if and only if it fits the budget. */
  lemma {:induction false} WordStaysWholeIffItFits(text: string, i: nat, j: nat)
    requires i <= j <= |text| && IsRun(text, i, j)
    requires forall k :: i <= k < j ==> !IsSpace(text[k])
    ensures Somewhere(text[i..j], Chunks(text)) <==> j - i <= CHUNK_MAX_CHARS
  {
    TrimIsIdentityOnTrimmed(text[i..j]);
    if j - i <= CHUNK_MAX_CHARS {
      RunsStayWhole(text, i, j);
    } else {
      ChunksAreTrimmedAndShort(text);
      forall c | c in Chunks(text)
        ensures !IsInfix(text[i..j], c)
      {
      }
    }
  }

  lemma {:induction false} CoreStaysWhole(text: string, a: nat, b: nat, p: nat, q: nat)
    requires a <= p < q <= b <= |text| && TrimSpace(text) == text[a..b] && !IsSpace(text[a])
    requires IsRun(text[a..b], p - a, q - a) && text[a..b][p - a..q - a] == text[p..q] && q - p <= CHUNK_MAX_CHARS
    ensures Somewhere(TrimSpace(text[p..q]), Chunks(text))
  {
    SplitKeepsRun(text[a..b], p - a, q - a);
  }

  lemma {:induction false} MarginsAreTrimmed(s: string, i: nat, j: nat, p: nat, q: nat)
    requires i <= p <= q <= j <= |s|
    requires forall k :: i <= k < p || q <= k < j ==> IsSpace(s[k])
    ensures TrimSpace(s[i..j]) == TrimSpace(s[p..q])
  {
    assert s[i..j] == s[i..p] + s[p..q] + s[q..j];
    PaddingIsTrimmed(s[i..p], s[p..q], s[q..j]);
  }

  lemma {:induction false} AllSpaceIsTrimmed(s: string)
    requires forall k :: 0 <= k < |s| ==> IsSpace(s[k])
    ensures TrimSpace(s) == ""
  {
    var a, b := TrimSpaceIsMiddle(s);
  }

  // ----- what does not hold -----

  /** A word set off by a vertical tab, which is trimmed but is not a break point. */
  function SplitWord(): string {
    seq(1498, _ => 'a') + "\U{B}bc"
  }

  lemma {:induction false} NoLetterNoWord(w: string, m: nat, s: string)
    requires m < |w| && w[m] !in s
    ensures !IsInfix(w, s)
  {
    forall k | 0 <= k <= |s| - |w|
      ensures !OccursAt(w, s, k)
    {
      assert s[k..k + |w|][m] == s[k + m];
    }
  }

  /** White space in the wider sense does not protect a word: here `bc` is cut in two. */
  lemma VerticalTabDoesNotProtect()
    ensures Chunks(SplitWord()) == [seq(1498, _ => 'a') + "\U{B}b", "c"]
    ensures !Somewhere("bc", Chunks(SplitWord()))
  {
    var text := SplitWord();
    var head := seq(1498, _ => 'a') + "\U{B}b";
    assert text == head + "c" && text[..1500] == head && text[1500..] == "c";
    TrimIsIdentityOnTrimmed(text);
    TrimIsIdentityOnTrimmed(head);
    TrimIsIdentityOnTrimmed("c");
    assert LastBreak(text[..CHUNK_MAX_CHARS + 1]) < 0;
    assert Split("c") == ["c"];
    NoLetterNoWord("bc", 1, head);
  }
}
