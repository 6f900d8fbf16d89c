/**
 Breadcrumbs: the ancestor chain of one folder. It climbs where the tree builder descends, and
 stops after 65 folders, at a missing ancestor, or when an id comes round again.
 */
module FolderPaths {
  import opened Wrappers
  import opened Forest
  import opened ForestContents

  const MAX_CHAIN := 64

  /** The query for one live folder row by its primary key. */
  function Find(folders: seq<FolderRow>, id: string): Option<FolderRow> {
    if folders == [] then None
    else if folders[0].id == id then Some(folders[0])
    else Find(folders[1..], id)
  }

  /** From a folder upwards, with the ids already met. */
  function Climb(folders: seq<FolderRow>, id: string, seen: set<string>, n: nat): seq<FolderRow>
    decreases MAX_CHAIN + 1 - n
  {
    if id == "" || id in seen || n > MAX_CHAIN then []
    else
      match Find(folders, id)
      case None => []
      case Some(f) => [f] + Climb(folders, f.parentFolderId, seen + {id}, n + 1)
  }

  function Reversed(s: seq<FolderRow>): seq<FolderRow> {
    seq(|s|, i requires 0 <= i < |s| => s[|s| - 1 - i])
  }

  method FolderPath(folders: seq<FolderRow>, folderId: string) returns (chain: seq<FolderRow>)
    ensures chain == Reversed(Climb(folders, folderId, {}, 0))
  {
    chain := ClimbFrom(folders, folderId);
    chain := Reverse(chain);
  }

  /** The climbing loop. */
  method ClimbFrom(folders: seq<FolderRow>, folderId: string) returns (chain: seq<FolderRow>)
    ensures chain == Climb(folders, folderId, {}, 0)
  {
    chain := [];
    var seen: set<string> := {};
    var id := folderId;
    ghost var climbed := Climb(folders, folderId, {}, 0);
    ghost var rest := climbed;
    while id != "" && id !in seen
      invariant |chain| <= MAX_CHAIN + 1
      invariant rest == Climb(folders, id, seen, |chain|) && chain + rest == climbed
      decreases MAX_CHAIN + 1 - |chain|
    {
      if |chain| > MAX_CHAIN {
        break;
      }
      var row := Find(folders, id);
      if row == None {
        break;
      }
      ClimbStep(folders, id, seen, |chain|);
      rest := Climb(folders, row.value.parentFolderId, seen + {id}, |chain| + 1);
      MoveBoundary(chain, row.value, rest);
      seen := seen + {id};
      chain := chain + [row.value];
      id := row.value.parentFolderId;
    }
    assert rest == [];
  }

  lemma {:induction false} ClimbStep(folders: seq<FolderRow>, id: string, seen: set<string>, n: nat)
    requires id != "" && id !in seen && n <= MAX_CHAIN && Find(folders, id).Some?
    ensures var f := Find(folders, id).value;
            Climb(folders, id, seen, n) == [f] + Climb(folders, f.parentFolderId, seen + {id}, n + 1)
  {
  }

  lemma {:induction false} MoveBoundary(s: seq<FolderRow>, f: FolderRow, t: seq<FolderRow>)
    ensures s + ([f] + t) == (s + [f]) + t
  {
  }

  /** With the first and last `n` elements swapped over. */
  function PartlyReversed(s: seq<FolderRow>, n: nat): seq<FolderRow> {
    seq(|s|, k requires 0 <= k < |s| => if n <= k < |s| - n then s[k] else s[|s| - 1 - k])
  }

  /** Swapping from both ends. */
  method Reverse(s: seq<FolderRow>) returns (chain: seq<FolderRow>)
    ensures chain == Reversed(s)
  {
    chain := s;
    var i, j := 0, |s| - 1;
    while i < j
      invariant 0 <= i <= j + 1 && j == |s| - 1 - i
      invariant chain == PartlyReversed(s, i)
    {
      var a, b := chain[i], chain[j];
      chain := chain[i := b];
      chain := chain[j := a];
      i, j := i + 1, j - 1;
    }
    assert PartlyReversed(s, i) == Reversed(s);
  }

  lemma {:induction false} FindIsTheRow(folders: seq<FolderRow>, f: FolderRow)
    requires IdsDistinct(folders) && f in folders
    ensures Find(folders, f.id) == Some(f)
  {
    if folders[0].id == f.id {
      SameIdSameFolder(folders, folders[0], f);
    } else {
      assert folders == [folders[0]] + folders[1..];
      FindIsTheRow(folders[1..], f);
    }
  }

  lemma {:induction false} FindFinds(folders: seq<FolderRow>, id: string)
    ensures Find(folders, id).Some? ==> Find(folders, id).value in folders && Find(folders, id).value.id == id
    ensures Find(folders, id).Some? <==> IsLive(folders, id)
  {
    if folders != [] {
      FindFinds(folders[1..], id);
      assert folders == [folders[0]] + folders[1..];
    }
  }

  // ----- any parent map -----

  /** Rows of the table, each hanging on the next, no id twice. */
  ghost predicate IsAscent(folders: seq<FolderRow>, id: string, seen: set<string>, s: seq<FolderRow>)
    decreases |s|
  {
    s != [] ==>
      && s[0] in folders && s[0].id == id && id != "" && id !in seen
      && IsAscent(folders, s[0].parentFolderId, seen + {id}, s[1..])
  }

  /** The id the climb stops at. */
  function Stop(id: string, s: seq<FolderRow>): string {
    if s == [] then id else s[|s| - 1].parentFolderId
  }

  /** A breadcrumb is a chain of live folders, and it is cut short only at the limit, at a dead end or where a cycle closes. */
  lemma {:induction false} ClimbIsAscent(folders: seq<FolderRow>, id: string, seen: set<string>, n: nat)
    requires n <= MAX_CHAIN + 1
    ensures var s := Climb(folders, id, seen, n);
            && |s| <= MAX_CHAIN + 1 - n
            && IsAscent(folders, id, seen, s)
            && (|s| < MAX_CHAIN + 1 - n ==>
                  var stop := Stop(id, s);
                  stop == "" || !IsLive(folders, stop) || stop in seen || exists f :: f in s && f.id == stop)
    decreases MAX_CHAIN + 1 - n
  {
    FindFinds(folders, id);
    if id != "" && id !in seen && n <= MAX_CHAIN && Find(folders, id).Some? {
      var f := Find(folders, id).value;
      ClimbIsAscent(folders, f.parentFolderId, seen + {id}, n + 1);
      var s := Climb(folders, f.parentFolderId, seen + {id}, n + 1);
      assert ([f] + s)[1..] == s;
      assert f in [f] + s;
      assert forall x :: x in s ==> x in [f] + s;
    }
  }

  // ----- agreement with the tree -----

  /** The last `k` folders of a root path. */
  function Lowest(q: seq<FolderRow>, k: nat): seq<FolderRow> {
    if |q| <= k then q else q[|q| - k..]
  }

  lemma {:induction false} ClimbRetracesRootPath(folders: seq<FolderRow>, q: seq<FolderRow>, seen: set<string>, n: nat)
    requires IdsDistinct(folders) && RootPath(folders, q) && n <= MAX_CHAIN + 1
    requires q[|q| - 1].id != "" && Unmet(q, seen)
    ensures Climb(folders, q[|q| - 1].id, seen, n) == Reversed(Lowest(q, MAX_CHAIN + 1 - n))
    decreases |q|
  {
    if n <= MAX_CHAIN {
      var up, f := q[..|q| - 1], q[|q| - 1];
      var rest := Climb(folders, f.parentFolderId, seen + {f.id}, n + 1);
      ClimbOnce(folders, q, seen, n);
      if up != [] {
        ParentIsAbove(folders, q);
        UpIsUnmet(folders, q, seen);
        ClimbRetracesRootPath(folders, up, seen + {f.id}, n + 1);
      }
      RetraceStep(q, up, f, rest, MAX_CHAIN - n);
    }
  }

  lemma {:induction false} RetraceStep(q: seq<FolderRow>, up: seq<FolderRow>, f: FolderRow, rest: seq<FolderRow>, k: nat)
    requires q == up + [f]
    requires rest == Reversed(Lowest(up, k))
    ensures [f] + rest == Reversed(Lowest(q, k + 1))
  {
    OneStepUp(up, f, k);
  }

  lemma {:induction false} ParentIsAbove(folders: seq<FolderRow>, q: seq<FolderRow>)
    requires RootPath(folders, q) && |q| > 1
    ensures RootPath(folders, q[..|q| - 1])
    ensures q[|q| - 2].id == q[|q| - 1].parentFolderId != ""
  {
    FrontIsRootPath(folders, q);
  }

  ghost predicate Unmet(q: seq<FolderRow>, seen: set<string>) {
    forall i :: 0 <= i < |q| ==> q[i].id !in seen
  }

  lemma {:induction false} UpIsUnmet(folders: seq<FolderRow>, q: seq<FolderRow>, seen: set<string>)
    requires IdsDistinct(folders) && RootPath(folders, q) && Unmet(q, seen)
    ensures Unmet(q[..|q| - 1], seen + {q[|q| - 1].id})
  {
    forall i | 0 <= i < |q| - 1
      ensures q[i].id != q[|q| - 1].id
    {
      RootPathDoesNotRepeat(folders, q, i, |q| - 1);
    }
  }

  lemma {:induction false} ClimbOnce(folders: seq<FolderRow>, q: seq<FolderRow>, seen: set<string>, n: nat)
    requires IdsDistinct(folders) && RootPath(folders, q) && n <= MAX_CHAIN
    requires q[|q| - 1].id != "" && Unmet(q, seen)
    ensures var f := q[|q| - 1];
            var rest := Climb(folders, f.parentFolderId, seen + {f.id}, n + 1);
            && Climb(folders, f.id, seen, n) == [f] + rest
            && (|q| == 1 ==> rest == [])
  {
    var f := q[|q| - 1];
    assert f in q;
    FindIsTheRow(folders, f);
    FindFinds(folders, f.parentFolderId);
  }

  lemma {:induction false} OneStepUp(up: seq<FolderRow>, f: FolderRow, k: nat)
    ensures Reversed(Lowest(up + [f], k + 1)) == [f] + Reversed(Lowest(up, k))
  {
  }

  /** The breadcrumb of the last folder of a root path is its lowest 65 folders. */
  lemma {:induction false} BreadcrumbIsRootPath(folders: seq<FolderRow>, q: seq<FolderRow>)
    requires IdsDistinct(folders) && RootPath(folders, q) && q[|q| - 1].id != ""
    ensures Reversed(Climb(folders, q[|q| - 1].id, {}, 0)) == Lowest(q, MAX_CHAIN + 1)
  {
    ClimbRetracesRootPath(folders, q, {}, 0);
    ReversedTwice(Lowest(q, MAX_CHAIN + 1));
  }

  lemma {:induction false} ReversedTwice(s: seq<FolderRow>)
    ensures Reversed(Reversed(s)) == s
  {
  }

  lemma {:induction false} PlaceOf(folders: seq<FolderRow>, notebooks: seq<Notebook>, ids: seq<string>) returns (q: seq<FolderRow>)
    requires IdsDistinct(folders) && ids in Spines(ForestOf(folders, notebooks), [])
    ensures RootPath(folders, q) && Ids(q) == ids
  {
    ForestShowsEachRootPathOnce(folders, notebooks, ids);
    q :| RootPath(folders, q) && Ids(q) == ids;
  }

  /** For a node of the tree at depth at most 65, the ids from the root are the ids of its breadcrumb. */
  lemma {:induction false} TreeAgreesWithBreadcrumb(folders: seq<FolderRow>, notebooks: seq<Notebook>, ids: seq<string>)
    requires IdsDistinct(folders) && ids in Spines(ForestOf(folders, notebooks), [])
    ensures ids != []
    ensures ids[|ids| - 1] != "" ==>
              (Ids(Reversed(Climb(folders, ids[|ids| - 1], {}, 0))) == ids <==> |ids| <= 65)
  {
    var q := PlaceOf(folders, notebooks, ids);
    if ids[|ids| - 1] != "" {
      BreadcrumbIsRootPath(folders, q);
      LowestIsWhole(q, MAX_CHAIN + 1);
    }
  }

  lemma {:induction false} LowestIsWhole(q: seq<FolderRow>, k: nat)
    ensures Ids(Lowest(q, k)) == Ids(q) <==> |q| <= k
  {
    assert |Ids(Lowest(q, k))| == if |q| <= k then |q| else k;
  }

  // ----- cycles -----

  /** A live folder's parent, if it has one. */
  function Parent(folders: seq<FolderRow>, f: FolderRow): Option<FolderRow> {
    if IsRoot(folders, f) then None else Find(folders, f.parentFolderId)
  }

  /** A folder and its ancestors, at most `n` of them, nearest first. */
  function Lineage(folders: seq<FolderRow>, f: FolderRow, n: nat): (s: seq<FolderRow>)
    ensures 1 <= |s| <= n + 1 && s[0] == f
    decreases n
  {
    if n == 0 then [f]
    else
      match Parent(folders, f)
      case None => [f]
      case Some(p) => [f] + Lineage(folders, p, n - 1)
  }

  /** The ancestor chain comes round to an id it has had before. */
  ghost predicate RepeatsAnId(s: seq<FolderRow>) {
    exists i, j :: 0 <= i < j < |s| && s[i].id == s[j].id
  }

  ghost predicate HasRootPath(folders: seq<FolderRow>, f: FolderRow) {
    exists q: seq<FolderRow> :: RootPath(folders, q) && q[|q| - 1] == f
  }

  lemma {:induction false} ParentIsLive(folders: seq<FolderRow>, f: FolderRow)
    ensures Parent(folders, f).Some? <==> !IsRoot(folders, f)
    ensures Parent(folders, f).Some? ==> Parent(folders, f).value in folders && Parent(folders, f).value.id == f.parentFolderId
  {
    FindFinds(folders, f.parentFolderId);
  }

  lemma {:induction false} LineageIsLive(folders: seq<FolderRow>, f: FolderRow, n: nat)
    requires f in folders
    ensures forall g :: g in Lineage(folders, f, n) ==> g in folders
    decreases n
  {
    ParentIsLive(folders, f);
    if n > 0 && Parent(folders, f).Some? {
      LineageIsLive(folders, Parent(folders, f).value, n - 1);
    }
  }

  /** The lineage of the last folder of a root path goes up that path. */
  lemma {:induction false} LineageGoesUp(folders: seq<FolderRow>, q: seq<FolderRow>, n: nat)
    requires IdsDistinct(folders) && RootPath(folders, q)
    ensures Lineage(folders, q[|q| - 1], n) == Reversed(Lowest(q, n + 1))
    decreases n
  {
    var up, f := q[..|q| - 1], q[|q| - 1];
    assert q == up + [f];
    ParentIsLive(folders, f);
    OneStepUp(up, f, n);
    if up == [] {
      assert Reversed(Lowest(up, n)) == [];
    } else if n > 0 {
      FrontIsRootPath(folders, q);
      assert HangsOn(folders, q, |q| - 1) && up[|up| - 1] in q;
      SameIdSameFolder(folders, Parent(folders, f).value, up[|up| - 1]);
      LineageGoesUp(folders, up, n - 1);
    } else {
      assert Reversed(Lowest(up, 0)) == [];
    }
  }

  /** A lineage that ends before its limit ends at a root. */
  lemma {:induction false} ShortLineageHasRootPath(folders: seq<FolderRow>, f: FolderRow, n: nat)
    requires f in folders && |Lineage(folders, f, n)| <= n
    ensures HasRootPath(folders, f)
    decreases n
  {
    ParentIsLive(folders, f);
    if Parent(folders, f).None? {
      assert RootPath(folders, [f]);
    } else {
      var p := Parent(folders, f).value;
      ShortLineageHasRootPath(folders, p, n - 1);
      var q: seq<FolderRow> :| RootPath(folders, q) && q[|q| - 1] == p;
      ExtendRootPath(folders, q, f);
      assert (q + [f])[|q|] == f;
    }
  }

  lemma {:induction false} RootPathLineageDoesNotRepeat(folders: seq<FolderRow>, q: seq<FolderRow>, n: nat)
    requires IdsDistinct(folders) && RootPath(folders, q)
    ensures !RepeatsAnId(Lineage(folders, q[|q| - 1], n))
  {
    LineageGoesUp(folders, q, n);
    LowestReversedAt(q, n + 1);
    RootPathReadBackwards(folders, q, Lineage(folders, q[|q| - 1], n));
  }

  lemma {:induction false} RootPathReadBackwards(folders: seq<FolderRow>, q: seq<FolderRow>, s: seq<FolderRow>)
    requires IdsDistinct(folders) && RootPath(folders, q)
    requires |s| <= |q| && forall i :: 0 <= i < |s| ==> s[i] == q[|q| - 1 - i]
    ensures !RepeatsAnId(s)
  {
    forall i, j | 0 <= i < j < |s|
      ensures s[i].id != s[j].id
    {
      RootPathDoesNotRepeat(folders, q, |q| - 1 - j, |q| - 1 - i);
    }
  }

  lemma {:induction false} LowestReversedAt(q: seq<FolderRow>, k: nat)
    ensures |Reversed(Lowest(q, k))| <= |q|
    ensures forall i :: 0 <= i < |Reversed(Lowest(q, k))| ==> Reversed(Lowest(q, k))[i] == q[|q| - 1 - i]
  {
  }

  /**
   A live folder has a root path, and so a place in the forest, if and only if its ancestors do not
   come round in a cycle: among as many ancestors as there are folders no id repeats.
   */
  lemma {:induction false} RootPathIffNoCycle(folders: seq<FolderRow>, f: FolderRow)
    requires IdsDistinct(folders) && f in folders
    ensures HasRootPath(folders, f) <==> !RepeatsAnId(Lineage(folders, f, |folders|))
  {
    var s := Lineage(folders, f, |folders|);
    if HasRootPath(folders, f) {
      var q: seq<FolderRow> :| RootPath(folders, q) && q[|q| - 1] == f;
      RootPathLineageDoesNotRepeat(folders, q, |folders|);
    } else if !RepeatsAnId(s) {
      LineageIsLive(folders, f, |folders|);
      assert forall i, j :: 0 <= i < j < |s| ==> s[i] != s[j];
      DistinctFitsInside(s, folders);
      ShortLineageHasRootPath(folders, f, |folders|);
    }
  }

  /** Some place of the forest is this folder. */
  ghost predicate ShowsFolder(forest: seq<TreeNode>, id: string) {
    exists ids :: ids in Spines(forest, []) && EndsIn(ids, id)
  }

  predicate EndsIn(ids: seq<string>, id: string) {
    ids != [] && ids[|ids| - 1] == id
  }

  lemma {:induction false} RootPathIsShown(folders: seq<FolderRow>, notebooks: seq<Notebook>, q: seq<FolderRow>)
    requires IdsDistinct(folders) && RootPath(folders, q)
    ensures ShowsFolder(ForestOf(folders, notebooks), q[|q| - 1].id)
  {
    ForestShowsEachRootPathOnce(folders, notebooks, Ids(q));
    assert EndsIn(Ids(q), q[|q| - 1].id);
  }

  lemma {:induction false} ShownFolderHasRootPath(folders: seq<FolderRow>, notebooks: seq<Notebook>, f: FolderRow)
    requires IdsDistinct(folders) && f in folders && ShowsFolder(ForestOf(folders, notebooks), f.id)
    ensures HasRootPath(folders, f)
  {
    var ids :| ids in Spines(ForestOf(folders, notebooks), []) && EndsIn(ids, f.id);
    var q := PlaceOf(folders, notebooks, ids);
    assert q[|q| - 1] in q && ids[|ids| - 1] == q[|q| - 1].id;
    SameIdSameFolder(folders, q[|q| - 1], f);
  }

  /** A folder is shown if and only if its ancestors do not come round in a cycle. */
  lemma {:induction false} FolderIsShownIffNoCycle(folders: seq<FolderRow>, notebooks: seq<Notebook>, f: FolderRow)
    requires IdsDistinct(folders) && f in folders
    ensures ShowsFolder(ForestOf(folders, notebooks), f.id) <==> !RepeatsAnId(Lineage(folders, f, |folders|))
  {
    RootPathIffNoCycle(folders, f);
    if HasRootPath(folders, f) {
      var q: seq<FolderRow> :| RootPath(folders, q) && q[|q| - 1] == f;
      RootPathIsShown(folders, notebooks, q);
    } else if ShowsFolder(ForestOf(folders, notebooks), f.id) {
      ShownFolderHasRootPath(folders, notebooks, f);
    }
  }

  /** A notebook filed in a live folder is shown somewhere if and only if that folder does not hang on a cycle. */
  lemma {:induction false} NotebookIsShownIffNoCycle(folders: seq<FolderRow>, notebooks: seq<Notebook>, n: Notebook, f: FolderRow)
    requires IdsDistinct(folders) && f in folders
    requires n in notebooks && n.folderId == f.id != ""
    ensures (exists x :: x in Shelves(ForestOf(folders, notebooks), []) && x.notebook == n)
            <==> !RepeatsAnId(Lineage(folders, f, |folders|))
  {
    RootPathIffNoCycle(folders, f);
    if HasRootPath(folders, f) {
      var q: seq<FolderRow> :| RootPath(folders, q) && q[|q| - 1] == f;
      assert NamesHome(folders, Ids(q), f.id);
      EachNotebookIsShownAtItsFolder(folders, notebooks, Placement(Ids(q), n));
      assert Placement(Ids(q), n) in Shelves(ForestOf(folders, notebooks), []);
    } else {
      forall x | x in Shelves(ForestOf(folders, notebooks), [])
        ensures x.notebook != n
      {
        EachNotebookIsShownAtItsFolder(folders, notebooks, x);
        if x.notebook == n {
          var q: seq<FolderRow> :| RootPath(folders, q) && Ids(q) == x.ids && q[|q| - 1].id == f.id;
          assert q[|q| - 1] in q;
          SameIdSameFolder(folders, q[|q| - 1], f);
        }
      }
    }
  }
}
