/**
 The folder forest. Parent pointers merge by last-writer-wins, so two moves that are each fine
 can leave a cycle; the tree builder must end on any parent map and show every folder whose
 ancestors reach the top exactly once.
 */
module Forest {

  datatype FolderRow = FolderRow(id: string, name: string, parentFolderId: string)

  datatype Notebook = Notebook(id: string, name: string, folderId: string, pageCount: int)

  datatype TreeNode = TreeNode(folderId: string, name: string, notebooks: seq<Notebook>, children: seq<TreeNode>)

  // ----- the parent map -----

  predicate IsLive(folders: seq<FolderRow>, id: string) {
    exists f :: f in folders && f.id == id
  }

  predicate IsRoot(folders: seq<FolderRow>, f: FolderRow) {
    f.parentFolderId == "" || !IsLive(folders, f.parentFolderId)
  }

  function Roots(folders: seq<FolderRow>, from: seq<FolderRow>): seq<FolderRow> {
    if from == [] then []
    else
      var f := from[|from| - 1];
      Roots(folders, from[..|from| - 1]) + if IsRoot(folders, f) then [f] else []
  }

  /** The folders of `from` that hang below `id`. */
  function Children(folders: seq<FolderRow>, from: seq<FolderRow>, id: string): seq<FolderRow> {
    if from == [] then []
    else
      var f := from[|from| - 1];
      Children(folders, from[..|from| - 1], id) + if !IsRoot(folders, f) && f.parentFolderId == id then [f] else []
  }

  predicate IsUnfiled(folders: seq<FolderRow>, n: Notebook) {
    n.folderId == "" || !IsLive(folders, n.folderId)
  }

  function Unfiled(folders: seq<FolderRow>, notebooks: seq<Notebook>): seq<Notebook> {
    if notebooks == [] then []
    else
      var n := notebooks[|notebooks| - 1];
      Unfiled(folders, notebooks[..|notebooks| - 1]) + if IsUnfiled(folders, n) then [n] else []
  }

  function FiledUnder(folders: seq<FolderRow>, notebooks: seq<Notebook>, id: string): seq<Notebook> {
    if notebooks == [] then []
    else
      var n := notebooks[|notebooks| - 1];
      FiledUnder(folders, notebooks[..|notebooks| - 1], id) + if !IsUnfiled(folders, n) && n.folderId == id then [n] else []
  }

  /** Folder ids are the primary key of their table. */
  ghost predicate IdsDistinct(folders: seq<FolderRow>) {
    forall i, j :: 0 <= i < j < |folders| ==> folders[i].id != folders[j].id
  }

  /** A chain of folders from a root downwards. */
  ghost predicate RootPath(folders: seq<FolderRow>, path: seq<FolderRow>) {
    && path != []
    && (forall f :: f in path ==> f in folders)
    && IsRoot(folders, path[0])
    && (forall i :: 0 < i < |path| ==> HangsOn(folders, path, i))
  }

  /** Folder `i` of a path is a child of the one before it. */
  ghost predicate HangsOn(folders: seq<FolderRow>, path: seq<FolderRow>, i: int)
    requires 0 < i < |path|
  {
    !IsRoot(folders, path[i]) && path[i].parentFolderId == path[i - 1].id
  }

  lemma {:induction false} SameIdSameFolder(folders: seq<FolderRow>, f: FolderRow, g: FolderRow)
    requires IdsDistinct(folders) && f in folders && g in folders && f.id == g.id
    ensures f == g
  {
    var i :| 0 <= i < |folders| && folders[i] == f;
    var j :| 0 <= j < |folders| && folders[j] == g;
    assert i == j;
  }

  /** A root path meets no folder twice. */
  lemma {:induction false} RootPathDoesNotRepeat(folders: seq<FolderRow>, path: seq<FolderRow>, i: nat, j: nat)
    requires IdsDistinct(folders) && RootPath(folders, path) && i < j < |path|
    ensures path[i].id != path[j].id
  {
    if path[i].id == path[j].id {
      SameIdSameFolder(folders, path[i], path[j]);
      assert HangsOn(folders, path, j);
      if i > 0 {
        assert HangsOn(folders, path, i);
        RootPathDoesNotRepeat(folders, path, i - 1, j - 1);
      }
    }
  }

  lemma {:induction false} FrontIsRootPath(folders: seq<FolderRow>, path: seq<FolderRow>)
    requires RootPath(folders, path) && |path| > 1
    ensures RootPath(folders, path[..|path| - 1])
    ensures path == path[..|path| - 1] + [path[|path| - 1]]
    ensures HangsOn(folders, path, |path| - 1)
  {
    var front := path[..|path| - 1];
    forall i | 0 < i < |front|
      ensures HangsOn(folders, front, i)
    {
      assert HangsOn(folders, path, i);
    }
  }

  /** A folder has at most one root path. */
  lemma {:induction false} RootPathUnique(folders: seq<FolderRow>, p: seq<FolderRow>, q: seq<FolderRow>)
    requires IdsDistinct(folders) && RootPath(folders, p) && RootPath(folders, q)
    requires p[|p| - 1].id == q[|q| - 1].id
    ensures p == q
  {
    var m, n := |p| - 1, |q| - 1;
    SameIdSameFolder(folders, p[m], q[n]);
    assert m > 0 ==> HangsOn(folders, p, m);
    assert n > 0 ==> HangsOn(folders, q, n);
    if m > 0 {
      FrontIsRootPath(folders, p);
      FrontIsRootPath(folders, q);
      RootPathUnique(folders, p[..m], q[..n]);
      assert p == p[..m] + [p[m]] && q == q[..n] + [q[n]];
    }
  }

  lemma {:induction false} DistinctFitsInside(path: seq<FolderRow>, folders: seq<FolderRow>)
    requires forall f :: f in path ==> f in folders
    requires forall i, j :: 0 <= i < j < |path| ==> path[i] != path[j]
    ensures |path| <= |folders|
  {
    if path != [] {
      var last := path[|path| - 1];
      assert last in path;
      var k :| 0 <= k < |folders| && folders[k] == last;
      var rest := folders[..k] + folders[k + 1..];
      forall f | f in path[..|path| - 1]
        ensures f in rest
      {
        assert f in path && f != last;
        var i :| 0 <= i < |folders| && folders[i] == f;
        assert rest[if i < k then i else i - 1] == f;
      }
      DistinctFitsInside(path[..|path| - 1], rest);
    }
  }

  lemma {:induction false} RootPathIsShort(folders: seq<FolderRow>, path: seq<FolderRow>)
    requires IdsDistinct(folders) && RootPath(folders, path)
    ensures |path| <= |folders|
  {
    forall i, j | 0 <= i < j < |path|
      ensures path[i] != path[j]
    {
      RootPathDoesNotRepeat(folders, path, i, j);
    }
    DistinctFitsInside(path, folders);
  }

  lemma {:induction false} ChildrenAre(folders: seq<FolderRow>, from: seq<FolderRow>, id: string)
    ensures forall c :: c in Children(folders, from, id) <==> c in from && !IsRoot(folders, c) && c.parentFolderId == id
  {
    if from != [] {
      ChildrenAre(folders, from[..|from| - 1], id);
      assert from == from[..|from| - 1] + [from[|from| - 1]];
    }
  }

  lemma {:induction false} RootsAre(folders: seq<FolderRow>, from: seq<FolderRow>)
    ensures forall c :: c in Roots(folders, from) <==> c in from && IsRoot(folders, c)
  {
    if from != [] {
      RootsAre(folders, from[..|from| - 1]);
      assert from == from[..|from| - 1] + [from[|from| - 1]];
    }
  }

  /** Going down to a child keeps a root path, and the path stays within the number of folders. */
  lemma {:induction false} Descend(folders: seq<FolderRow>, path: seq<FolderRow>, c: FolderRow)
    requires IdsDistinct(folders) && RootPath(folders, path)
    requires c in Children(folders, folders, path[|path| - 1].id)
    ensures RootPath(folders, path + [c]) && |path| < |folders|
  {
    ChildrenAre(folders, folders, path[|path| - 1].id);
    ExtendRootPath(folders, path, c);
    RootPathIsShort(folders, path + [c]);
  }

  lemma {:induction false} ExtendRootPath(folders: seq<FolderRow>, path: seq<FolderRow>, c: FolderRow)
    requires RootPath(folders, path)
    requires c in folders && !IsRoot(folders, c) && c.parentFolderId == path[|path| - 1].id
    ensures RootPath(folders, path + [c])
  {
    var longer := path + [c];
    forall i | 0 < i < |longer|
      ensures HangsOn(folders, longer, i)
    {
      assert i < |path| ==> HangsOn(folders, path, i);
    }
  }

  // ----- the tree -----

  /** The subtree at the end of a root path. */
  ghost function Tree(folders: seq<FolderRow>, notebooks: seq<Notebook>, path: seq<FolderRow>): TreeNode
    requires IdsDistinct(folders) && RootPath(folders, path)
    decreases |folders| - |path|, 1, 0
  {
    RootPathIsShort(folders, path);
    var f := path[|path| - 1];
    TreeNode(f.id, f.name, FiledUnder(folders, notebooks, f.id),
             Subtrees(folders, notebooks, path, Children(folders, folders, f.id)))
  }

  ghost function Subtrees(folders: seq<FolderRow>, notebooks: seq<Notebook>, path: seq<FolderRow>, cs: seq<FolderRow>): seq<TreeNode>
    requires IdsDistinct(folders) && RootPath(folders, path)
    requires forall c :: c in cs ==> c in Children(folders, folders, path[|path| - 1].id)
    decreases |folders| - |path|, 0, |cs|
  {
    if cs == [] then []
    else
      var front, c := cs[..|cs| - 1], cs[|cs| - 1];
      assert c in cs && forall x :: x in front ==> x in cs;
      RootPathIsShort(folders, path);
      Descend(folders, path, c);
      Subtrees(folders, notebooks, path, front) + [Tree(folders, notebooks, path + [c])]
  }

  ghost function RootTrees(folders: seq<FolderRow>, notebooks: seq<Notebook>, rs: seq<FolderRow>): seq<TreeNode>
    requires IdsDistinct(folders)
    requires forall r :: r in rs ==> r in folders && IsRoot(folders, r)
  {
    if rs == [] then []
    else RootTrees(folders, notebooks, rs[..|rs| - 1]) + [Tree(folders, notebooks, [rs[|rs| - 1]])]
  }

  ghost function ForestOf(folders: seq<FolderRow>, notebooks: seq<Notebook>): seq<TreeNode>
    requires IdsDistinct(folders)
  {
    RootsAre(folders, folders);
    RootTrees(folders, notebooks, Roots(folders, folders))
  }

  function Lookup<T>(m: map<string, seq<T>>, id: string): seq<T> {
    if id in m then m[id] else []
  }

  method LiveIds(folders: seq<FolderRow>) returns (live: set<string>)
    ensures forall id :: id in live <==> IsLive(folders, id)
  {
    live := {};
    for i := 0 to |folders|
      invariant forall id :: id in live <==> IsLive(folders[..i], id)
    {
      live := live + {folders[i].id};
      assert folders[..i + 1] == folders[..i] + [folders[i]];
      assert forall f :: f in folders[..i + 1] <==> f in folders[..i] || f == folders[i];
    }
    assert folders[..|folders|] == folders;
  }

  lemma {:induction false} NextNotebook(folders: seq<FolderRow>, notebooks: seq<Notebook>, i: nat)
    requires i < |notebooks|
    ensures var n := notebooks[i];
            && Unfiled(folders, notebooks[..i + 1]) == Unfiled(folders, notebooks[..i]) + (if IsUnfiled(folders, n) then [n] else [])
            && forall id :: FiledUnder(folders, notebooks[..i + 1], id)
                            == FiledUnder(folders, notebooks[..i], id) + if !IsUnfiled(folders, n) && n.folderId == id then [n] else []
  {
    assert notebooks[..i + 1][..i] == notebooks[..i];
  }

  lemma {:induction false} NextFolder(folders: seq<FolderRow>, i: nat)
    requires i < |folders|
    ensures var f := folders[i];
            && Roots(folders, folders[..i + 1]) == Roots(folders, folders[..i]) + (if IsRoot(folders, f) then [f] else [])
            && forall id :: Children(folders, folders[..i + 1], id)
                            == Children(folders, folders[..i], id) + if !IsRoot(folders, f) && f.parentFolderId == id then [f] else []
  {
    assert folders[..i + 1][..i] == folders[..i];
  }

  method IndexNotebooks(folders: seq<FolderRow>, live: set<string>, notebooks: seq<Notebook>)
    returns (nbByFolder: map<string, seq<Notebook>>, unfiled: seq<Notebook>)
    requires forall id :: id in live <==> IsLive(folders, id)
    ensures unfiled == Unfiled(folders, notebooks)
    ensures forall id :: Lookup(nbByFolder, id) == FiledUnder(folders, notebooks, id)
  {
    nbByFolder, unfiled := map[], [];
    for i := 0 to |notebooks|
      invariant unfiled == Unfiled(folders, notebooks[..i])
      invariant forall id :: Lookup(nbByFolder, id) == FiledUnder(folders, notebooks[..i], id)
    {
      var n := notebooks[i];
      NextNotebook(folders, notebooks, i);
      if n.folderId == "" || n.folderId !in live {
        unfiled := unfiled + [n];
      } else {
        nbByFolder := nbByFolder[n.folderId := Lookup(nbByFolder, n.folderId) + [n]];
      }
    }
    assert notebooks[..|notebooks|] == notebooks;
  }

  method IndexFolders(folders: seq<FolderRow>, live: set<string>)
    returns (childFolders: map<string, seq<FolderRow>>, rootFolders: seq<FolderRow>)
    requires forall id :: id in live <==> IsLive(folders, id)
    ensures rootFolders == Roots(folders, folders)
    ensures forall id :: Lookup(childFolders, id) == Children(folders, folders, id)
  {
    childFolders, rootFolders := map[], [];
    for i := 0 to |folders|
      invariant rootFolders == Roots(folders, folders[..i])
      invariant forall id :: Lookup(childFolders, id) == Children(folders, folders[..i], id)
    {
      var f := folders[i];
      NextFolder(folders, i);
      if f.parentFolderId == "" || f.parentFolderId !in live {
        rootFolders := rootFolders + [f];
      } else {
        childFolders := childFolders[f.parentFolderId := Lookup(childFolders, f.parentFolderId) + [f]];
      }
    }
    assert folders[..|folders|] == folders;
  }

  method BuildForestNoteTree(folders: seq<FolderRow>, notebooks: seq<Notebook>)
    returns (roots: seq<TreeNode>, unfiled: seq<Notebook>)
    requires IdsDistinct(folders)
    ensures roots == ForestOf(folders, notebooks)
    ensures unfiled == Unfiled(folders, notebooks)
  {
    var live := LiveIds(folders);
    var nbByFolder, childFolders, rootFolders;
    nbByFolder, unfiled := IndexNotebooks(folders, live, notebooks);
    childFolders, rootFolders := IndexFolders(folders, live);
    RootsAre(folders, folders);
    roots := BuildAll(rootFolders, nbByFolder, childFolders, folders, notebooks);
  }

  lemma {:induction false} NextRootTree(folders: seq<FolderRow>, notebooks: seq<Notebook>, rs: seq<FolderRow>, i: nat)
    requires IdsDistinct(folders) && i < |rs|
    requires forall r :: r in rs ==> r in folders && IsRoot(folders, r)
    ensures RootPath(folders, [rs[i]])
    ensures RootTrees(folders, notebooks, rs[..i + 1]) == RootTrees(folders, notebooks, rs[..i]) + [Tree(folders, notebooks, [rs[i]])]
  {
    assert rs[i] in rs && rs[..i + 1][..i] == rs[..i];
  }

  lemma {:induction false} NextSubtree(folders: seq<FolderRow>, notebooks: seq<Notebook>, path: seq<FolderRow>, cs: seq<FolderRow>, i: nat)
    requires IdsDistinct(folders) && RootPath(folders, path) && i < |cs|
    requires cs == Children(folders, folders, path[|path| - 1].id)
    ensures RootPath(folders, path + [cs[i]]) && |path| < |folders|
    ensures Subtrees(folders, notebooks, path, cs[..i + 1])
            == Subtrees(folders, notebooks, path, cs[..i]) + [Tree(folders, notebooks, path + [cs[i]])]
  {
    assert cs[i] in cs && cs[..i + 1][..i] == cs[..i];
    Descend(folders, path, cs[i]);
  }

  method BuildAll(rootFolders: seq<FolderRow>, nbByFolder: map<string, seq<Notebook>>, childFolders: map<string, seq<FolderRow>>,
                  ghost folders: seq<FolderRow>, ghost notebooks: seq<Notebook>)
    returns (roots: seq<TreeNode>)
    requires IdsDistinct(folders)
    requires forall r :: r in rootFolders ==> r in folders && IsRoot(folders, r)
    requires forall id :: Lookup(nbByFolder, id) == FiledUnder(folders, notebooks, id)
    requires forall id :: Lookup(childFolders, id) == Children(folders, folders, id)
    ensures roots == RootTrees(folders, notebooks, rootFolders)
  {
    roots := [];
    for i := 0 to |rootFolders|
      invariant roots == RootTrees(folders, notebooks, rootFolders[..i])
    {
      NextRootTree(folders, notebooks, rootFolders, i);
      var node := Build(rootFolders[i], nbByFolder, childFolders, folders, notebooks, [rootFolders[i]]);
      roots := roots + [node];
    }
    assert rootFolders[..|rootFolders|] == rootFolders;
  }

  /** The recursion over children. `path` leads from a root to `f` and witnesses termination. */
  method Build(f: FolderRow, nbByFolder: map<string, seq<Notebook>>, childFolders: map<string, seq<FolderRow>>,
               ghost folders: seq<FolderRow>, ghost notebooks: seq<Notebook>, ghost path: seq<FolderRow>)
    returns (node: TreeNode)
    requires IdsDistinct(folders) && RootPath(folders, path) && path[|path| - 1] == f
    requires forall id :: Lookup(nbByFolder, id) == FiledUnder(folders, notebooks, id)
    requires forall id :: Lookup(childFolders, id) == Children(folders, folders, id)
    ensures node == Tree(folders, notebooks, path)
    decreases |folders| - |path|
  {
    var cs, children := Lookup(childFolders, f.id), [];
    for i := 0 to |cs|
      invariant children == Subtrees(folders, notebooks, path, cs[..i])
    {
      NextSubtree(folders, notebooks, path, cs, i);
      var child := Build(cs[i], nbByFolder, childFolders, folders, notebooks, path + [cs[i]]);
      children := children + [child];
    }
    assert cs[..|cs|] == cs;
    node := TreeNode(f.id, f.name, Lookup(nbByFolder, f.id), children);
  }
}
