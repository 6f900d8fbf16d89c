/** What each node of the folder forest shows: its folder's own name, notebooks and subfolders, in the order of the lists. */
module ForestNodes {
  import opened Forest

  /** `idx` lists, in ascending order, exactly the positions of `s` whose elements are kept. */
  ghost predicate Selects<T>(s: seq<T>, keep: T -> bool, idx: seq<nat>) {
    && (forall j, k :: 0 <= j < k < |idx| ==> idx[j] < idx[k])
    && (forall k :: 0 <= k < |idx| ==> idx[k] < |s| && keep(s[idx[k]]))
    && (forall i :: 0 <= i < |s| && keep(s[i]) ==> i in idx)
  }

  /** The elements at these positions. */
  ghost function At<T>(s: seq<T>, idx: seq<nat>): seq<T>
    requires forall k :: 0 <= k < |idx| ==> idx[k] < |s|
  {
    seq(|idx|, k requires 0 <= k < |idx| => s[idx[k]])
  }

  /** `t` is what remains of `s` when only the elements to keep are left, in their order. */
  ghost predicate IsFilter<T(!new)>(s: seq<T>, keep: T -> bool, t: seq<T>) {
    exists idx: seq<nat> :: Selects(s, keep, idx) && At(s, idx) == t
  }

  lemma {:induction false} FilterNothing<T(!new)>(keep: T -> bool)
    ensures IsFilter([], keep, [])
  {
    assert Selects([], keep, []) && At<T>([], []) == [];
  }

  lemma {:induction false} FilterOneMore<T(!new)>(s: seq<T>, keep: T -> bool, t: seq<T>, x: T)
    requires IsFilter(s, keep, t)
    ensures IsFilter(s + [x], keep, t + if keep(x) then [x] else [])
  {
    var idx: seq<nat> :| Selects(s, keep, idx) && At(s, idx) == t;
    var longer := if keep(x) then idx + [|s|] else idx;
    SelectOneMore(s, keep, idx, x);
    assert At(s + [x], longer) == t + if keep(x) then [x] else [];
  }

  lemma {:induction false} SelectOneMore<T>(s: seq<T>, keep: T -> bool, idx: seq<nat>, x: T)
    requires Selects(s, keep, idx)
    ensures Selects(s + [x], keep, if keep(x) then idx + [|s|] else idx)
  {
    var longer := if keep(x) then idx + [|s|] else idx;
    forall i | 0 <= i < |s + [x]| && keep((s + [x])[i])
      ensures i in longer
    {
      if i < |s| {
        var k :| 0 <= k < |idx| && idx[k] == i;
        assert longer[k] == i;
      } else {
        assert longer[|idx|] == i;
      }
    }
  }

  /** No folder of the list has this id. */
  ghost predicate NoFolder(folders: seq<FolderRow>, id: string) {
    forall f :: f in folders ==> f.id != id
  }

  /** The folders shown at the top: those without a parent, or whose parent is not there. */
  ghost function AtTop(folders: seq<FolderRow>): FolderRow -> bool {
    (f: FolderRow) => f.parentFolderId == "" || NoFolder(folders, f.parentFolderId)
  }

  /** The folders and notebooks shown in the folder with this id. */
  ghost function FoldersIn(folders: seq<FolderRow>, id: string): FolderRow -> bool {
    (f: FolderRow) => f.parentFolderId != "" && f.parentFolderId == id && !NoFolder(folders, id)
  }

  ghost function NotebooksIn(folders: seq<FolderRow>, id: string): Notebook -> bool {
    (n: Notebook) => n.folderId != "" && n.folderId == id && !NoFolder(folders, id)
  }

  /** The notebooks shown apart: those without a folder, or whose folder is not there. */
  ghost function Unplaced(folders: seq<FolderRow>): Notebook -> bool {
    (n: Notebook) => n.folderId == "" || NoFolder(folders, n.folderId)
  }

  lemma {:induction false} RootsAreFiltered(folders: seq<FolderRow>, from: seq<FolderRow>)
    ensures IsFilter(from, AtTop(folders), Roots(folders, from))
  {
    if from == [] {
      FilterNothing(AtTop(folders));
    } else {
      var front, f := from[..|from| - 1], from[|from| - 1];
      RootsAreFiltered(folders, front);
      FilterOneMore(front, AtTop(folders), Roots(folders, front), f);
      assert from == front + [f] && (AtTop(folders)(f) <==> IsRoot(folders, f));
    }
  }

  lemma {:induction false} ChildrenAreFiltered(folders: seq<FolderRow>, from: seq<FolderRow>, id: string)
    ensures IsFilter(from, FoldersIn(folders, id), Children(folders, from, id))
  {
    if from == [] {
      FilterNothing(FoldersIn(folders, id));
    } else {
      var front, f := from[..|from| - 1], from[|from| - 1];
      ChildrenAreFiltered(folders, front, id);
      FilterOneMore(front, FoldersIn(folders, id), Children(folders, front, id), f);
      assert from == front + [f] && (FoldersIn(folders, id)(f) <==> !IsRoot(folders, f) && f.parentFolderId == id);
    }
  }

  lemma {:induction false} FiledAreFiltered(folders: seq<FolderRow>, notebooks: seq<Notebook>, id: string)
    ensures IsFilter(notebooks, NotebooksIn(folders, id), FiledUnder(folders, notebooks, id))
  {
    if notebooks == [] {
      FilterNothing(NotebooksIn(folders, id));
    } else {
      var front, n := notebooks[..|notebooks| - 1], notebooks[|notebooks| - 1];
      FiledAreFiltered(folders, front, id);
      FilterOneMore(front, NotebooksIn(folders, id), FiledUnder(folders, front, id), n);
      assert notebooks == front + [n] && (NotebooksIn(folders, id)(n) <==> !IsUnfiled(folders, n) && n.folderId == id);
    }
  }

  /** The unfiled list has exactly the notebooks without a live folder, in order. */
  lemma {:induction false} UnfiledAreFiltered(folders: seq<FolderRow>, notebooks: seq<Notebook>)
    ensures IsFilter(notebooks, Unplaced(folders), Unfiled(folders, notebooks))
  {
    if notebooks == [] {
      FilterNothing(Unplaced(folders));
    } else {
      var front, n := notebooks[..|notebooks| - 1], notebooks[|notebooks| - 1];
      UnfiledAreFiltered(folders, front);
      FilterOneMore(front, Unplaced(folders), Unfiled(folders, front), n);
      assert notebooks == front + [n] && (Unplaced(folders)(n) <==> IsUnfiled(folders, n));
    }
  }

  /** The nodes show these folders, one each, in this order. */
  ghost predicate ShowFolders(nodes: seq<TreeNode>, fs: seq<FolderRow>) {
    |nodes| == |fs| && forall i :: 0 <= i < |nodes| ==> nodes[i].folderId == fs[i].id && nodes[i].name == fs[i].name
  }

  /** A subtree all of whose nodes show the notebooks and subfolders of their folder, in the order of the lists. */
  ghost predicate IsTrue(folders: seq<FolderRow>, notebooks: seq<Notebook>, node: TreeNode)
    decreases node
  {
    && IsFilter(notebooks, NotebooksIn(folders, node.folderId), node.notebooks)
    && (exists fs :: IsFilter(folders, FoldersIn(folders, node.folderId), fs) && ShowFolders(node.children, fs))
    && forall child :: child in node.children ==> IsTrue(folders, notebooks, child)
  }

  lemma {:induction false} TreeIsTrue(folders: seq<FolderRow>, notebooks: seq<Notebook>, path: seq<FolderRow>)
    requires IdsDistinct(folders) && RootPath(folders, path)
    ensures IsTrue(folders, notebooks, Tree(folders, notebooks, path))
    decreases |folders| - |path|, 1, 0
  {
    RootPathIsShort(folders, path);
    var f := path[|path| - 1];
    var cs := Children(folders, folders, f.id);
    SubtreesAreTrue(folders, notebooks, path, cs);
    FiledAreFiltered(folders, notebooks, f.id);
    ChildrenAreFiltered(folders, folders, f.id);
    assert ShowFolders(Tree(folders, notebooks, path).children, cs);
  }

  lemma {:induction false} SubtreesAreTrue(folders: seq<FolderRow>, notebooks: seq<Notebook>, path: seq<FolderRow>, cs: seq<FolderRow>)
    requires IdsDistinct(folders) && RootPath(folders, path)
    requires forall c :: c in cs ==> c in Children(folders, folders, path[|path| - 1].id)
    ensures ShowFolders(Subtrees(folders, notebooks, path, cs), cs)
    ensures forall node :: node in Subtrees(folders, notebooks, path, cs) ==> IsTrue(folders, notebooks, node)
    decreases |folders| - |path|, 0, |cs|
  {
    if cs != [] {
      var front, c := cs[..|cs| - 1], cs[|cs| - 1];
      assert cs == front + [c] && c in cs && forall x :: x in front ==> x in cs;
      RootPathIsShort(folders, path);
      Descend(folders, path, c);
      SubtreesAreTrue(folders, notebooks, path, front);
      TreeIsTrue(folders, notebooks, path + [c]);
    }
  }

  lemma {:induction false} RootTreesAreTrue(folders: seq<FolderRow>, notebooks: seq<Notebook>, rs: seq<FolderRow>)
    requires IdsDistinct(folders) && forall r :: r in rs ==> r in folders && IsRoot(folders, r)
    ensures ShowFolders(RootTrees(folders, notebooks, rs), rs)
    ensures forall node :: node in RootTrees(folders, notebooks, rs) ==> IsTrue(folders, notebooks, node)
  {
    if rs != [] {
      var front, r := rs[..|rs| - 1], rs[|rs| - 1];
      assert rs == front + [r];
      RootTreesAreTrue(folders, notebooks, front);
      TreeIsTrue(folders, notebooks, [r]);
    }
  }

  /**
   The whole forest, level by level: at the top the folders without a live parent, in every node the
   notebooks and subfolders that name it, with their names, in the order of the lists; apart from it,
   in order, the notebooks without a live folder.
   */
  lemma {:induction false} ForestIsTrue(folders: seq<FolderRow>, notebooks: seq<Notebook>)
    requires IdsDistinct(folders)
    ensures exists fs :: IsFilter(folders, AtTop(folders), fs) && ShowFolders(ForestOf(folders, notebooks), fs)
    ensures forall node :: node in ForestOf(folders, notebooks) ==> IsTrue(folders, notebooks, node)
    ensures IsFilter(notebooks, Unplaced(folders), Unfiled(folders, notebooks))
  {
    RootsAre(folders, folders);
    RootsAreFiltered(folders, folders);
    RootTreesAreTrue(folders, notebooks, Roots(folders, folders));
    UnfiledAreFiltered(folders, notebooks);
  }
}
