/**
 Hybrid search: a keyword list and a vector list are fused by reciprocal rank, and the best
 `limit` pages that pass the filters are returned. Scores and similarities are real numbers.
 */
module Fusion {
  import opened Wrappers

  datatype Doc = Doc(notePath: string, page: int)

  /** A page with a score: one embedded chunk and its similarity, or one fused page. */
  datatype Scored = Scored(doc: Doc, score: real)

  // ----- sorting -----

  ghost predicate Descending(s: seq<Scored>) {
    forall i, j :: 0 <= i < j < |s| ==> s[i].score >= s[j].score
  }

  lemma {:induction false} InsertKeepsOrder(t: seq<Scored>, k: nat, e: Scored)
    requires Descending(t) && k <= |t|
    requires forall j :: 0 <= j < k ==> t[j].score >= e.score
    requires k < |t| ==> e.score >= t[k].score
    ensures Descending(t[..k] + [e] + t[k..])
    ensures multiset(t[..k] + [e] + t[k..]) == multiset(t) + multiset{e}
  {
    assert forall j :: k <= j < |t| ==> e.score >= t[j].score;
    InsertBetween(t[..k], e, t[k..]);
    InsertAddsOne(t, k, e);
  }

  lemma {:induction false} InsertAddsOne(t: seq<Scored>, k: nat, e: Scored)
    requires k <= |t|
    ensures multiset(t[..k] + [e] + t[k..]) == multiset(t) + multiset{e}
  {
    assert t == t[..k] + t[k..];
  }

  lemma {:induction false} InsertBetween(a: seq<Scored>, e: Scored, b: seq<Scored>)
    requires Descending(a) && Descending(b)
    requires forall i :: 0 <= i < |a| ==> a[i].score >= e.score
    requires forall j :: 0 <= j < |b| ==> e.score >= b[j].score
    ensures Descending(a + [e] + b)
  {
    var c := a + [e] + b;
    assert forall i :: 0 <= i < |a| ==> c[i] == a[i];
    assert c[|a|] == e;
    assert forall i :: |a| < i < |c| ==> c[i] == b[i - |a| - 1];
  }

  /** The standard library's sort: some order of the same elements, ties in any order. */
  method SortByScore(s: seq<Scored>) returns (t: seq<Scored>)
    ensures Descending(t) && multiset(t) == multiset(s)
  {
    t := [];
    for i := 0 to |s|
      invariant Descending(t) && multiset(t) == multiset(s[..i])
    {
      var k := PlaceFor(t, s[i]);
      InsertKeepsOrder(t, k, s[i]);
      assert s[..i + 1] == s[..i] + [s[i]];
      t := t[..k] + [s[i]] + t[k..];
    }
    assert s[..|s|] == s;
  }

  method PlaceFor(t: seq<Scored>, e: Scored) returns (k: nat)
    ensures k <= |t| && (forall j :: 0 <= j < k ==> t[j].score >= e.score)
    ensures k < |t| ==> e.score >= t[k].score
  {
    k := 0;
    while k < |t| && t[k].score >= e.score
      invariant k <= |t| && forall j :: 0 <= j < k ==> t[j].score >= e.score
    {
      k := k + 1;
    }
  }

  lemma {:induction false} SameElements<T>(s: seq<T>, t: seq<T>)
    requires multiset(s) == multiset(t)
    ensures |s| == |t| && forall x :: x in s <==> x in t
  {
    assert |s| == |multiset(s)| && |t| == |multiset(t)|;
    forall x
      ensures x in s <==> x in t
    {
      assert x in s <==> x in multiset(s);
      assert x in t <==> x in multiset(t);
    }
  }

  // ----- the vector list -----

  function Digits(n: nat): (s: string)
    ensures s != ""
  {
    var d := ['0', '1', '2', '3', '4', '5', '6', '7', '8', '9'][n % 10];
    if n < 10 then [d] else Digits(n / 10) + [d]
  }

  function Itoa(n: int): string {
    if n < 0 then "-" + Digits(-n) else Digits(n)
  }

  /** The key under which a page is remembered as seen. */
  function PageKey(d: Doc): string {
    d.notePath + "\0" + Itoa(d.page)
  }

  lemma {:induction false} DigitsAreDigits(n: nat)
    ensures forall c :: c in Digits(n) ==> '0' <= c <= '9'
  {
    if n >= 10 {
      DigitsAreDigits(n / 10);
    }
  }

  lemma {:induction false} DigitsInjective(m: nat, n: nat)
    requires Digits(m) == Digits(n)
    ensures m == n
  {
    assert Digits(m)[|Digits(m)| - 1] == Digits(n)[|Digits(n)| - 1];
    if m >= 10 && n >= 10 {
      assert Digits(m)[..|Digits(m)| - 1] == Digits(m / 10) && Digits(n)[..|Digits(n)| - 1] == Digits(n / 10);
      DigitsInjective(m / 10, n / 10);
    }
  }

  lemma {:induction false} ItoaHasNoNul(n: int)
    ensures '\0' !in Itoa(n)
  {
    DigitsAreDigits(if n < 0 then -n else n);
  }

  lemma {:induction false} ItoaSign(n: int)
    ensures n < 0 <==> Itoa(n)[..1] == "-"
  {
    if n >= 0 {
      DigitsAreDigits(n);
      assert Digits(n)[0] in Digits(n);
    }
  }

  lemma {:induction false} ItoaInjective(m: int, n: int)
    requires Itoa(m) == Itoa(n)
    ensures m == n
  {
    ItoaSign(m);
    ItoaSign(n);
    if m < 0 {
      assert Itoa(m)[1..] == Digits(-m) && Itoa(n)[1..] == Digits(-n);
      DigitsInjective(-m, -n);
    } else {
      DigitsInjective(m, n);
    }
  }

  /** Two strings joined around NUL come apart again when the second parts have none. */
  lemma {:induction false} SplitAtNul(a: string, x: string, b: string, y: string)
    requires a + "\0" + x == b + "\0" + y && '\0' !in x && '\0' !in y
    ensures a == b && x == y
  {
    var s := a + "\0" + x;
    assert s[|a|] == '\0' && s[|b|] == '\0';
    assert forall k :: |a| < k < |s| ==> s[k] == x[k - |a| - 1];
    assert forall k :: |b| < k < |s| ==> s[k] == y[k - |b| - 1];
    assert |a| == |b|;
    assert a == s[..|a|] && b == s[..|b|] && x == s[|a| + 1..] && y == s[|b| + 1..];
  }

  /** Different pages never share a key, even if a path contains NUL. */
  lemma {:induction false} PageKeyInjective(d: Doc, e: Doc)
    requires PageKey(d) == PageKey(e)
    ensures d == e
  {
    ItoaHasNoNul(d.page);
    ItoaHasNoNul(e.page);
    SplitAtNul(d.notePath, Itoa(d.page), e.notePath, Itoa(e.page));
    ItoaInjective(d.page, e.page);
  }

  /** The pages in the order of their first chunk. */
  function FirstSeen(s: seq<Scored>): seq<Doc> {
    if s == [] then []
    else
      var seen, d := FirstSeen(s[..|s| - 1]), s[|s| - 1].doc;
      if d in seen then seen else seen + [d]
  }

  function Take<T>(s: seq<T>, n: nat): seq<T> {
    if |s| <= n then s else s[..n]
  }

  lemma {:induction false} TakeIndex<T>(s: seq<T>, n: nat, j: nat)
    requires j < |s|
    ensures j < n ==> j < |Take(s, n)| && Take(s, n)[j] == s[j] && s[j] in Take(s, n)
    ensures j >= n ==> |Take(s, n)| == n
  {
    if j < n {
      assert Take(s, n)[j] == s[j];
    }
  }

  lemma {:induction false} FirstSeenPrefix(s: seq<Scored>, i: nat)
    requires i <= |s|
    ensures FirstSeen(s[..i]) <= FirstSeen(s)
    decreases |s|
  {
    if i == |s| {
      assert s[..i] == s;
    } else {
      assert s[..|s| - 1][..i] == s[..i];
      FirstSeenPrefix(s[..|s| - 1], i);
    }
  }

  datatype RankedDoc = RankedDoc(notePath: string, page: int, rank: int)

  function DocsOf(ranked: seq<RankedDoc>): seq<Doc> {
    seq(|ranked|, i requires 0 <= i < |ranked| => Doc(ranked[i].notePath, ranked[i].page))
  }

  /** Ranks count from 1. */
  ghost predicate IsNumbered(ranked: seq<RankedDoc>) {
    forall i :: 0 <= i < |ranked| ==> ranked[i].rank == i + 1
  }

  lemma {:induction false} DocsSnoc(ranked: seq<RankedDoc>, r: RankedDoc)
    ensures DocsOf(ranked + [r]) == DocsOf(ranked) + [Doc(r.notePath, r.page)]
    ensures IsNumbered(ranked) && r.rank == |ranked| + 1 ==> IsNumbered(ranked + [r])
  {
  }

  /** The keys are those of the listed pages. */
  ghost predicate Remembers(keys: set<string>, docs: seq<Doc>) {
    forall d :: PageKey(d) in keys <==> d in docs
  }

  lemma {:induction false} SeenIff(keys: set<string>, docs: seq<Doc>, d: Doc)
    requires Remembers(keys, docs)
    ensures PageKey(d) in keys <==> d in docs
  {
  }

  lemma {:induction false} RememberOne(keys: set<string>, docs: seq<Doc>, d: Doc)
    requires Remembers(keys, docs)
    ensures Remembers(keys + {PageKey(d)}, docs + [d])
  {
    forall e
      ensures PageKey(e) in keys + {PageKey(d)} <==> e in docs + [d]
    {
      if PageKey(e) == PageKey(d) {
        PageKeyInjective(e, d);
      }
    }
  }

  /** One entry per page, numbered from 1, until there are enough. */
  method RankPages(candidates: seq<Scored>, topN: nat) returns (vecRanked: seq<RankedDoc>)
    requires topN > 0
    ensures DocsOf(vecRanked) == Take(FirstSeen(candidates), topN)
    ensures IsNumbered(vecRanked)
  {
    vecRanked := [];
    var seenPage: set<string> := {};
    for i := 0 to |candidates|
      invariant DocsOf(vecRanked) == FirstSeen(candidates[..i]) && |vecRanked| < topN
      invariant IsNumbered(vecRanked)
      invariant Remembers(seenPage, FirstSeen(candidates[..i]))
    {
      NextSeen(candidates, i);
      var c := candidates[i];
      var key := PageKey(c.doc);
      SeenIff(seenPage, FirstSeen(candidates[..i]), c.doc);
      if key in seenPage {
        continue;
      }
      var r := RankedDoc(c.doc.notePath, c.doc.page, |vecRanked| + 1);
      RememberOne(seenPage, FirstSeen(candidates[..i]), c.doc);
      DocsSnoc(vecRanked, r);
      seenPage, vecRanked := seenPage + {key}, vecRanked + [r];
      if |vecRanked| >= topN {
        FirstSeenPrefix(candidates, i + 1);
        PrefixIsTake(DocsOf(vecRanked), FirstSeen(candidates), topN);
        return;
      }
    }
    assert candidates[..|candidates|] == candidates;
  }

  lemma {:induction false} PrefixIsTake<T>(s: seq<T>, t: seq<T>, n: nat)
    requires s <= t && |s| == n
    ensures s == Take(t, n)
  {
  }

  lemma {:induction false} NextSeen(s: seq<Scored>, i: nat)
    requires i < |s|
    ensures var seen, d := FirstSeen(s[..i]), s[i].doc;
            FirstSeen(s[..i + 1]) == if d in seen then seen else seen + [d]
  {
    assert s[..i + 1][..i] == s[..i];
  }

  /** The best similarity of a page's chunks, or 0 if none is positive. */
  function Best(s: seq<Scored>, d: Doc): (b: real)
    ensures b >= 0.0
  {
    if s == [] then 0.0
    else
      var b, last := Best(s[..|s| - 1], d), s[|s| - 1];
      if last.doc == d && last.score > b then last.score else b
  }

  lemma {:induction false} BestIsGreatest(s: seq<Scored>, d: Doc)
    ensures forall e :: e in s && e.doc == d ==> e.score <= Best(s, d)
    ensures Best(s, d) == 0.0 || Scored(d, Best(s, d)) in s
  {
    if s != [] {
      BestIsGreatest(s[..|s| - 1], d);
      assert s == s[..|s| - 1] + [s[|s| - 1]];
    }
  }

  lemma {:induction false} BestIsOfElements(s: seq<Scored>, t: seq<Scored>, d: Doc)
    requires forall e: Scored :: e.score > 0.0 ==> (e in s <==> e in t)
    ensures Best(s, d) == Best(t, d)
  {
    BestIsGreatest(s, d);
    BestIsGreatest(t, d);
    assert Best(s, d) > 0.0 ==> Scored(d, Best(s, d)) in t;
    assert Best(t, d) > 0.0 ==> Scored(d, Best(t, d)) in s;
  }

  ghost predicate NoRepeats<T(!new)>(s: seq<T>) {
    forall i, j :: 0 <= i < j < |s| ==> s[i] != s[j]
  }

  ghost predicate BestFirst(es: seq<Scored>, docs: seq<Doc>) {
    forall i, j :: 0 <= i < j < |docs| ==> Best(es, docs[i]) >= Best(es, docs[j])
  }

  /** The `topN` pages whose best chunk is most similar, best first, each once; only pages with some similarity. */
  ghost predicate IsVectorRanking(es: seq<Scored>, topN: nat, ranked: seq<Doc>) {
    && |ranked| <= topN
    && NoRepeats(ranked)
    && (forall d :: d in ranked ==> Best(es, d) > 0.0)
    && BestFirst(es, ranked)
    && (forall d, r :: Best(es, d) > 0.0 && d !in ranked && r in ranked ==> Best(es, r) >= Best(es, d))
    && (forall d :: Best(es, d) > 0.0 && d !in ranked ==> |ranked| == topN)
  }

  ghost predicate AllPositive(s: seq<Scored>) {
    forall e :: e in s ==> e.score > 0.0
  }

  lemma {:induction false} FirstSeenInOrder(s: seq<Scored>)
    requires Descending(s) && AllPositive(s)
    ensures NoRepeats(FirstSeen(s))
    ensures forall d :: d in FirstSeen(s) <==> Best(s, d) > 0.0
    ensures BestFirst(s, FirstSeen(s))
  {
    if s != [] {
      var front, last := s[..|s| - 1], s[|s| - 1];
      assert s == front + [last];
      FirstSeenInOrder(front);
      forall d | d in FirstSeen(front)
        ensures Best(s, d) == Best(front, d) >= last.score
      {
        BestIsGreatest(front, d);
      }
      var g := FirstSeen(front);
      assert last.doc !in g ==> Best(front, last.doc) == 0.0 && Best(s, last.doc) == last.score;
      forall i | 0 <= i < |g|
        ensures Best(s, g[i]) == Best(front, g[i]) >= last.score
      {
        assert g[i] in g;
      }
    }
  }

  lemma {:induction false} TopOfFirstSeen(es: seq<Scored>, s: seq<Scored>, topN: nat)
    requires Descending(s) && AllPositive(s)
    requires forall d :: Best(s, d) == Best(es, d)
    ensures IsVectorRanking(es, topN, Take(FirstSeen(s), topN))
  {
    FirstSeenInOrder(s);
    var f, ranked := FirstSeen(s), Take(FirstSeen(s), topN);
    forall d, r | Best(es, d) > 0.0 && d !in ranked && r in ranked
      ensures Best(es, r) >= Best(es, d) && |ranked| == topN
    {
      assert d in f;
      var i :| 0 <= i < |ranked| && ranked[i] == r;
      var j :| 0 <= j < |f| && f[j] == d;
      TakeIndex(f, topN, j);
      assert ranked[i] == f[i] && i < j;
      assert Best(s, f[i]) >= Best(s, f[j]);
    }
    forall d | Best(es, d) > 0.0 && d !in ranked
      ensures |ranked| == topN
    {
      assert d in f;
    }
  }

  /** The vector leg: keep the positive similarities, sort, and rank the pages. */
  method VectorLeg(es: seq<Scored>, topN: nat) returns (vecRanked: seq<RankedDoc>)
    requires topN > 0
    ensures IsVectorRanking(es, topN, DocsOf(vecRanked))
    ensures IsNumbered(vecRanked)
  {
    var candidates: seq<Scored> := [];
    for i := 0 to |es|
      invariant AllPositive(candidates)
      invariant forall e: Scored :: e.score > 0.0 ==> (e in candidates <==> e in es[..i])
    {
      assert es[..i + 1] == es[..i] + [es[i]];
      if es[i].score > 0.0 {
        candidates := candidates + [es[i]];
      }
    }
    assert es[..|es|] == es;
    var sorted := SortByScore(candidates);
    SameElements(sorted, candidates);
    forall d
      ensures Best(sorted, d) == Best(es, d)
    {
      BestIsOfElements(sorted, es, d);
    }
    TopOfFirstSeen(es, sorted, topN);
    vecRanked := RankPages(sorted, topN);
  }

  // ----- fusion -----

  /** The contribution of position `i`, counted from 0, of either list. */
  function Weight(i: nat): real {
    1.0 / (61 + i) as real
  }

  lemma {:induction false} WeightDecreases(i: nat, j: nat)
    requires i < j
    ensures Weight(i) > Weight(j) > 0.0
  {
    var a, b := (61 + i) as real, (61 + j) as real;
    var x, y := Weight(i), Weight(j);
    assert x * a == 1.0 && y * b == 1.0;
    Reciprocals(a, b, x, y);
  }

  lemma {:induction false} Reciprocals(a: real, b: real, x: real, y: real)
    requires 0.0 < a < b && x * a == 1.0 && y * b == 1.0
    ensures x > y > 0.0
  {
    assert y <= 0.0 ==> y * b <= 0.0;
    assert y * a < y * b;
    assert x <= y ==> x * a <= y * a;
  }

  /** Earlier positions weigh more, and every position weighs something. */
  ghost predicate IsDecreasing(w: nat -> real) {
    forall i, j :: 0 <= i < j ==> w(i) > w(j) > 0.0
  }

  lemma WeightIsDecreasing()
    ensures IsDecreasing(Weight)
  {
    forall i: nat, j: nat | i < j
      ensures Weight(i) > Weight(j) > 0.0
    {
      WeightDecreases(i, j);
    }
  }

  /** What one list contributes to a page: the weights of all positions it has there. */
  function ListScore(docs: seq<Doc>, w: nat -> real, d: Doc): (r: real)
    decreases docs
  {
    if docs == [] then 0.0
    else ListScore(docs[..|docs| - 1], w, d) + if docs[|docs| - 1] == d then w(|docs| - 1) else 0.0
  }

  function Score(fts: seq<Doc>, vec: seq<Doc>, d: Doc): real {
    ListScore(fts, Weight, d) + ListScore(vec, Weight, d)
  }

  /** A page that a list has once contributes the weight of its position. */
  lemma {:induction false} ListScoreAt(docs: seq<Doc>, w: nat -> real, i: nat)
    requires NoRepeats(docs) && i < |docs|
    ensures ListScore(docs, w, docs[i]) == w(i)
    decreases docs
  {
    var m := |docs| - 1;
    if i < m {
      ListScoreAt(docs[..m], w, i);
    } else {
      ListScoreOutside(docs[..m], w, docs[m]);
    }
  }

  lemma {:induction false} ListScoreOutside(docs: seq<Doc>, w: nat -> real, d: Doc)
    requires d !in docs
    ensures ListScore(docs, w, d) == 0.0
    decreases docs
  {
    if docs != [] {
      ListScoreOutside(docs[..|docs| - 1], w, d);
    }
  }

  /** The position of a page in a list, which is behind the end if it is not there. */
  function Place(docs: seq<Doc>, d: Doc): (i: nat)
    ensures i <= |docs|
    ensures i < |docs| ==> docs[i] == d
    ensures i == |docs| ==> d !in docs
  {
    if docs == [] then 0
    else
      var m := |docs| - 1;
      var i := Place(docs[..m], d);
      if i < m then i else if docs[m] == d then m else m + 1
  }

  /** `p` stands before `q` in the list or at the same place, or neither is in it. */
  predicate NoWorse(docs: seq<Doc>, p: Doc, q: Doc) {
    Place(docs, p) <= Place(docs, q)
  }

  /** `p` is in the list, and `q` is later or not in it. */
  predicate Better(docs: seq<Doc>, p: Doc, q: Doc) {
    Place(docs, p) < Place(docs, q)
  }

  lemma {:induction false} ListScoreIs(docs: seq<Doc>, w: nat -> real, d: Doc)
    requires NoRepeats(docs)
    ensures ListScore(docs, w, d) == if Place(docs, d) < |docs| then w(Place(docs, d)) else 0.0
  {
    if Place(docs, d) < |docs| {
      ListScoreAt(docs, w, Place(docs, d));
    } else {
      ListScoreOutside(docs, w, d);
    }
  }

  /** One list scores pages in its order, for any weights that decrease. */
  lemma {:induction false} ListScoreFollowsOrder(docs: seq<Doc>, w: nat -> real, p: Doc, q: Doc)
    requires NoRepeats(docs) && IsDecreasing(w)
    ensures NoWorse(docs, p, q) ==> ListScore(docs, w, p) >= ListScore(docs, w, q)
    ensures Better(docs, p, q) ==> ListScore(docs, w, p) > ListScore(docs, w, q)
  {
    ListScoreIs(docs, w, p);
    ListScoreIs(docs, w, q);
    WeightsFollowOrder(w, Place(docs, p), Place(docs, q));
  }

  lemma {:induction false} WeightsFollowOrder(w: nat -> real, i: nat, j: nat)
    requires IsDecreasing(w)
    ensures w(i) > 0.0 && (i < j ==> w(i) > w(j))
  {
    assert w(i) > w(i + 1) > 0.0;
  }

  /** A page no worse than another in both lists and strictly better in one scores strictly higher. */
  lemma {:induction false} DominanceIsRewarded(fts: seq<Doc>, vec: seq<Doc>, p: Doc, q: Doc)
    requires NoRepeats(fts) && NoRepeats(vec)
    requires NoWorse(fts, p, q) && NoWorse(vec, p, q)
    requires Better(fts, p, q) || Better(vec, p, q)
    ensures Score(fts, vec, p) > Score(fts, vec, q)
  {
    WeightIsDecreasing();
    ListScoreFollowsOrder(fts, Weight, p, q);
    ListScoreFollowsOrder(vec, Weight, p, q);
  }

  /** Reciprocal rank fusion with the constant 60: position `i` of a list, from 0, is rank `i + 1`. */
  lemma {:induction false} ScoreIsReciprocalRank(fts: seq<Doc>, vec: seq<Doc>, i: nat, j: nat, d: Doc)
    requires NoRepeats(fts) && NoRepeats(vec)
    requires if d in fts then i < |fts| && fts[i] == d else true
    requires if d in vec then j < |vec| && vec[j] == d else true
    ensures Score(fts, vec, d)
            == (if d in fts then 1.0 / (60 + (i + 1)) as real else 0.0) + if d in vec then 1.0 / (60 + (j + 1)) as real else 0.0
  {
    if d in fts {
      ListScoreAt(fts, Weight, i);
    } else {
      ListScoreOutside(fts, Weight, d);
    }
    if d in vec {
      ListScoreAt(vec, Weight, j);
    } else {
      ListScoreOutside(vec, Weight, d);
    }
  }

  function ScoreIn(scores: map<Doc, real>, d: Doc): real {
    if d in scores then scores[d] else 0.0
  }

  /** Adding up both lists in a map. */
  method Fuse(fts: seq<Doc>, vecRanked: seq<RankedDoc>) returns (rrfScores: map<Doc, real>)
    requires IsNumbered(vecRanked)
    ensures forall d :: d in rrfScores <==> d in fts || d in DocsOf(vecRanked)
    ensures forall d :: d in rrfScores ==> rrfScores[d] == Score(fts, DocsOf(vecRanked), d)
  {
    rrfScores := map[];
    for rank := 0 to |fts|
      invariant forall d :: d in rrfScores <==> d in fts[..rank]
      invariant forall d :: ScoreIn(rrfScores, d) == ListScore(fts[..rank], Weight, d)
    {
      var key := fts[rank];
      assert fts[..rank + 1][..rank] == fts[..rank] && fts[..rank + 1] == fts[..rank] + [key];
      rrfScores := rrfScores[key := ScoreIn(rrfScores, key) + 1.0 / (60 + rank + 1) as real];
    }
    assert fts[..|fts|] == fts;
    ghost var vec := DocsOf(vecRanked);
    for i := 0 to |vecRanked|
      invariant forall d :: d in rrfScores <==> d in fts || d in vec[..i]
      invariant forall d :: ScoreIn(rrfScores, d) == ListScore(fts, Weight, d) + ListScore(vec[..i], Weight, d)
    {
      var r := vecRanked[i];
      var key := Doc(r.notePath, r.page);
      assert vec[..i + 1][..i] == vec[..i] && vec[..i + 1] == vec[..i] + [key];
      rrfScores := rrfScores[key := ScoreIn(rrfScores, key) + 1.0 / (60 + r.rank) as real];
    }
    assert vec[..|vecRanked|] == vec;
  }

  // ----- filters and the result page -----

  /** Times in nanoseconds since Go's zero time, which stands for "no bound" and "no date". */
  type Time = int

  datatype Request = Request(folder: string, device: string, sources: seq<string>, dateFrom: Time, dateTo: Time, limit: int)

  datatype Metadata = Metadata(bodyText: string, titleText: string, folder: string, device: string, sourceType: string, noteDate: Time)

  datatype Result = Result(doc: Doc, meta: Metadata, score: real)

  predicate Passes(req: Request, m: Metadata) {
    && (req.sources == [] || m.sourceType in req.sources)
    && (req.folder == "" || m.folder == req.folder)
    && (req.device == "" || m.device == req.device)
    && (req.dateFrom == 0 || m.noteDate >= req.dateFrom)
    && (req.dateTo == 0 || m.noteDate <= req.dateTo)
  }

  function EffectiveLimit(req: Request): nat {
    if req.limit <= 0 then 20 else req.limit
  }

  function Overfetch(req: Request): nat {
    if req.sources != [] || req.device != "" || req.dateFrom != 0 || req.dateTo != 0 then 4 else 2
  }

  /** The page's metadata can be read and passes the filters. */
  predicate Eligible(req: Request, enrich: Doc -> Option<Metadata>, d: Doc) {
    enrich(d).Some? && Passes(req, enrich(d).value)
  }

  /** The eligible pages of a list, in its order. */
  function EligibleOf(req: Request, enrich: Doc -> Option<Metadata>, merged: seq<Scored>): seq<Result> {
    if merged == [] then []
    else
      var last := merged[|merged| - 1];
      EligibleOf(req, enrich, merged[..|merged| - 1])
      + if Eligible(req, enrich, last.doc) then [Result(last.doc, enrich(last.doc).value, last.score)] else []
  }

  lemma {:induction false} EligiblePrefix(req: Request, enrich: Doc -> Option<Metadata>, merged: seq<Scored>, i: nat)
    requires i <= |merged|
    ensures EligibleOf(req, enrich, merged[..i]) <= EligibleOf(req, enrich, merged)
    decreases |merged|
  {
    if i == |merged| {
      assert merged[..i] == merged;
    } else {
      assert merged[..|merged| - 1][..i] == merged[..i];
      EligiblePrefix(req, enrich, merged[..|merged| - 1], i);
    }
  }

  /** Walk the fused list until there are `limit` results. */
  method CollectResults(req: Request, enrich: Doc -> Option<Metadata>, merged: seq<Scored>, limit: nat) returns (results: seq<Result>)
    ensures results == Take(EligibleOf(req, enrich, merged), limit)
  {
    results := [];
    for i := 0 to |merged|
      invariant results == EligibleOf(req, enrich, merged[..i]) && |results| <= limit
    {
      if |results| >= limit {
        EligiblePrefix(req, enrich, merged, i);
        return;
      }
      assert merged[..i + 1][..i] == merged[..i];
      var entry := merged[i];
      match enrich(entry.doc) {
        case None => continue;
        case Some(m) =>
          if req.sources != [] && m.sourceType !in req.sources { continue; }
          if req.folder != "" && m.folder != req.folder { continue; }
          if req.device != "" && m.device != req.device { continue; }
          if req.dateFrom != 0 && m.noteDate < req.dateFrom { continue; }
          if req.dateTo != 0 && m.noteDate > req.dateTo { continue; }
          results := results + [Result(entry.doc, m, entry.score)];
      }
    }
    assert merged[..|merged|] == merged;
  }

  ghost predicate Listed(results: seq<Result>, d: Doc) {
    exists i :: 0 <= i < |results| && results[i].doc == d
  }

  ghost predicate IsCandidate(fts: seq<Doc>, vec: seq<Doc>, d: Doc) {
    d in fts || d in vec
  }

  /** The best `limit` eligible pages of the two lists, each once, best first. */
  ghost predicate IsTopOf(req: Request, enrich: Doc -> Option<Metadata>, fts: seq<Doc>, vec: seq<Doc>, results: seq<Result>) {
    && |results| <= EffectiveLimit(req)
    && (forall r :: r in results ==>
          IsCandidate(fts, vec, r.doc) && Eligible(req, enrich, r.doc)
          && r.meta == enrich(r.doc).value && r.score == Score(fts, vec, r.doc))
    && (forall i, j :: 0 <= i < j < |results| ==> results[i].doc != results[j].doc && results[i].score >= results[j].score)
    && (forall d :: IsCandidate(fts, vec, d) && Eligible(req, enrich, d) && !Listed(results, d) ==>
          |results| == EffectiveLimit(req) && forall r :: r in results ==> r.score >= Score(fts, vec, d))
  }

  /** A list of fused pages: every candidate once, with its score. */
  ghost predicate IsFused(fts: seq<Doc>, vec: seq<Doc>, merged: seq<Scored>) {
    && (forall e :: e in merged <==> IsCandidate(fts, vec, e.doc) && e.score == Score(fts, vec, e.doc))
    && DistinctDocs(merged)
  }

  /** What the walk over a sorted list of distinct pages can return: sorted, distinct, eligible, and missing none. */
  ghost predicate IsEligibleList(req: Request, enrich: Doc -> Option<Metadata>, merged: seq<Scored>, rs: seq<Result>) {
    && (forall r :: r in rs ==>
          Scored(r.doc, r.score) in merged && Eligible(req, enrich, r.doc) && r.meta == enrich(r.doc).value)
    && (forall i, j :: 0 <= i < j < |rs| ==> rs[i].doc != rs[j].doc && rs[i].score >= rs[j].score)
    && (forall e :: e in merged && Eligible(req, enrich, e.doc) ==> Listed(rs, e.doc))
  }

  ghost predicate DistinctDocs(merged: seq<Scored>) {
    forall i, j :: 0 <= i < j < |merged| ==> merged[i].doc != merged[j].doc
  }

  lemma {:induction false} EligibleOfIs(req: Request, enrich: Doc -> Option<Metadata>, merged: seq<Scored>)
    requires Descending(merged) && DistinctDocs(merged)
    ensures IsEligibleList(req, enrich, merged, EligibleOf(req, enrich, merged))
  {
    if merged != [] {
      var front, last := merged[..|merged| - 1], merged[|merged| - 1];
      assert merged == front + [last];
      EligibleOfIs(req, enrich, front);
      var rs := EligibleOf(req, enrich, front);
      forall r | r in rs
        ensures r.doc != last.doc && r.score >= last.score
      {
        var k :| 0 <= k < |front| && front[k] == Scored(r.doc, r.score);
      }
      OneMoreEligible(req, enrich, front, last, rs);
    }
  }

  lemma {:induction false} OneMoreEligible(req: Request, enrich: Doc -> Option<Metadata>, front: seq<Scored>, last: Scored, rs: seq<Result>)
    requires IsEligibleList(req, enrich, front, rs)
    requires forall r :: r in rs ==> r.doc != last.doc && r.score >= last.score
    ensures var more := rs + if Eligible(req, enrich, last.doc) then [Result(last.doc, enrich(last.doc).value, last.score)] else [];
            IsEligibleList(req, enrich, front + [last], more)
  {
    var more := rs + if Eligible(req, enrich, last.doc) then [Result(last.doc, enrich(last.doc).value, last.score)] else [];
    assert forall i :: 0 <= i < |rs| ==> more[i] == rs[i] && rs[i] in rs;
    forall e | e in front + [last] && Eligible(req, enrich, e.doc)
      ensures Listed(more, e.doc)
    {
      if e in front {
        assert Listed(rs, e.doc);
        var i :| 0 <= i < |rs| && rs[i].doc == e.doc;
        assert more[i].doc == e.doc;
      } else {
        assert more[|rs|].doc == e.doc;
      }
    }
  }

  lemma {:induction false} EligibleListGivesTop(req: Request, enrich: Doc -> Option<Metadata>, fts: seq<Doc>, vec: seq<Doc>,
                             merged: seq<Scored>, rs: seq<Result>)
    requires IsFused(fts, vec, merged) && IsEligibleList(req, enrich, merged, rs)
    ensures IsTopOf(req, enrich, fts, vec, Take(rs, EffectiveLimit(req)))
  {
    var limit := EffectiveLimit(req);
    var results := Take(rs, limit);
    forall r | r in results
      ensures r in rs
    {
    }
    forall d | IsCandidate(fts, vec, d) && Eligible(req, enrich, d) && !Listed(results, d)
      ensures |results| == limit && forall r :: r in results ==> r.score >= Score(fts, vec, d)
    {
      assert Scored(d, Score(fts, vec, d)) in merged;
      var j :| 0 <= j < |rs| && rs[j].doc == d;
      assert rs[j] in rs;
      NotListedIsBehind(rs, limit, j);
    }
  }

  lemma {:induction false} NotListedIsBehind(rs: seq<Result>, limit: nat, j: nat)
    requires j < |rs| && !Listed(Take(rs, limit), rs[j].doc)
    requires forall i, k :: 0 <= i < k < |rs| ==> rs[i].score >= rs[k].score
    ensures |Take(rs, limit)| == limit && forall r :: r in Take(rs, limit) ==> r.score >= rs[j].score
  {
    TakeIndex(rs, limit, j);
  }

  /** The map's entries, in whatever order it is walked, sorted by score. */
  method SortFused(rrfScores: map<Doc, real>, ghost fts: seq<Doc>, ghost vec: seq<Doc>) returns (merged: seq<Scored>)
    requires forall d :: d in rrfScores <==> IsCandidate(fts, vec, d)
    requires forall d :: d in rrfScores ==> rrfScores[d] == Score(fts, vec, d)
    ensures IsFused(fts, vec, merged) && Descending(merged)
  {
    var entries: seq<Scored> := [];
    var rest := rrfScores.Keys;
    while rest != {}
      invariant rest <= rrfScores.Keys
      invariant forall e :: e in entries <==> e.doc in rrfScores && e.doc !in rest && e.score == rrfScores[e.doc]
      invariant DistinctDocs(entries)
    {
      var key :| key in rest;
      assert forall e :: e in entries ==> e.doc != key;
      entries := entries + [Scored(key, rrfScores[key])];
      rest := rest - {key};
    }
    merged := SortByScore(entries);
    SameElements(merged, entries);
    PermutationKeepsDistinct(entries, merged);
  }

  lemma {:induction false} PermutationKeepsDistinct(s: seq<Scored>, t: seq<Scored>)
    requires multiset(s) == multiset(t) && DistinctDocs(s)
    ensures DistinctDocs(t)
  {
    SameElements(s, t);
    forall i, j | 0 <= i < j < |t|
      ensures t[i].doc != t[j].doc
    {
      assert t[i] in s && t[j] in s;
      TwiceInMultiset(t, i, j);
      OnceInDistinct(s, t[i]);
    }
  }

  lemma {:induction false} TwiceInMultiset(t: seq<Scored>, i: nat, j: nat)
    requires i < j < |t|
    ensures t[i] == t[j] ==> multiset(t)[t[i]] >= 2
  {
    assert t == t[..i] + [t[i]] + t[i + 1..j] + [t[j]] + t[j + 1..];
  }

  lemma {:induction false} OnceInDistinct(s: seq<Scored>, e: Scored)
    requires DistinctDocs(s)
    ensures multiset(s)[e] <= 1
  {
    if s != [] {
      var front, last := s[..|s| - 1], s[|s| - 1];
      assert s == front + [last];
      OnceInDistinct(front, e);
      assert e == last ==> e !in front;
    }
  }

  /**
   The whole search. `fts` is the keyword list, or nothing if that query failed; `similarities`
   has one entry for each stored chunk, and is empty when the query could not be embedded.
   */
  method Search(req: Request, fts: Option<seq<Doc>>, similarities: seq<Scored>, enrich: Doc -> Option<Metadata>)
    returns (out: Option<seq<Result>>, ghost vec: seq<Doc>)
    ensures out == None <==> fts == None
    ensures IsVectorRanking(similarities,
                            (if req.limit <= 0 then 20 else req.limit)
                            * (if req.sources != [] || req.device != "" || req.dateFrom != 0 || req.dateTo != 0 then 4 else 2), vec)
    ensures fts.Some? ==> IsTopOf(req, enrich, fts.value, vec, out.value)
  {
    var limit := EffectiveLimit(req);
    var vecRanked := VectorLeg(similarities, limit * Overfetch(req));
    vec := DocsOf(vecRanked);
    if fts == None {
      return None, vec;
    }
    var rrfScores := Fuse(fts.value, vecRanked);
    var merged := SortFused(rrfScores, fts.value, vec);
    EligibleOfIs(req, enrich, merged);
    EligibleListGivesTop(req, enrich, fts.value, vec, merged, EligibleOf(req, enrich, merged));
    var results := CollectResults(req, enrich, merged, limit);
    out := Some(results);
  }

  /** What the caller asked of a page: its source, folder and device, and its date within the bounds, both included. */
  ghost predicate Wanted(req: Request, m: Metadata) {
    && (|req.sources| > 0 ==> m.sourceType in req.sources)
    && (req.folder != "" ==> m.folder == req.folder)
    && (req.device != "" ==> m.device == req.device)
    && (req.dateFrom != 0 ==> req.dateFrom <= m.noteDate)
    && (req.dateTo != 0 ==> m.noteDate <= req.dateTo)
  }

  /** An answer has wanted pages only, at most the limit (20 if none is asked for), and is short only when it has them all. */
  lemma {:induction false} AnswerIsWhatIsWanted(req: Request, enrich: Doc -> Option<Metadata>, fts: seq<Doc>, vec: seq<Doc>, results: seq<Result>, d: Doc)
    requires IsTopOf(req, enrich, fts, vec, results)
    ensures |results| <= if req.limit <= 0 then 20 else req.limit
    ensures forall r :: r in results ==> enrich(r.doc) == Some(r.meta) && Wanted(req, r.meta)
    ensures var short := |results| < if req.limit <= 0 then 20 else req.limit;
            var found := (d in fts || d in vec) && enrich(d).Some? && Wanted(req, enrich(d).value);
            short && found ==> exists r :: r in results && r.doc == d
  {
    var short := |results| < if req.limit <= 0 then 20 else req.limit;
    if short && (d in fts || d in vec) && enrich(d).Some? && Wanted(req, enrich(d).value) {
      assert Listed(results, d);
      var i :| 0 <= i < |results| && results[i].doc == d;
      assert results[i] in results;
    }
  }

  /** In every answer: a page that dominates a returned page is returned too, and before it. */
  lemma {:induction false} DominatingPageComesFirst(req: Request, enrich: Doc -> Option<Metadata>, fts: seq<Doc>, vec: seq<Doc>, results: seq<Result>,
                                 p: Doc, q: Doc, j: nat) returns (i: nat)
    requires IsTopOf(req, enrich, fts, vec, results) && NoRepeats(fts) && NoRepeats(vec)
    requires NoWorse(fts, p, q) && NoWorse(vec, p, q) && (Better(fts, p, q) || Better(vec, p, q))
    requires Eligible(req, enrich, p) && j < |results| && results[j].doc == q
    ensures i < j && results[i].doc == p
  {
    DominanceIsRewarded(fts, vec, p, q);
    assert results[j] in results && results[j].score == Score(fts, vec, q);
    assert IsCandidate(fts, vec, p);
    assert Listed(results, p);
    i :| 0 <= i < |results| && results[i].doc == p;
    assert results[i] in results;
  }
}
