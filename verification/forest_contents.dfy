/** What the folder forest shows: every folder that hangs on a root, once; every notebook that does, once; no more. */
module ForestContents {
  import opened Forest

  function Ids(path: seq<FolderRow>): seq<string> {
    seq(|path|, i requires 0 <= i < |path| => path[i].id)
  }

  /** The root-to-node id lists of all nodes of a subtree, in preorder. */
  function Spine(node: TreeNode, prefix: seq<string>): seq<seq<string>>
    decreases node, 1
  {
    [prefix + [node.folderId]] + Spines(node.children, prefix + [node.folderId])
  }

  function Spines(nodes: seq<TreeNode>, prefix: seq<string>): seq<seq<string>>
    decreases nodes, 0
  {
    if nodes == [] then []
    else Spines(nodes[..|nodes| - 1], prefix) + Spine(nodes[|nodes| - 1], prefix)
  }

  /** A notebook shown at the node with these ids from the root. */
  datatype Placement = Placement(ids: seq<string>, notebook: Notebook)

  function PlacedAt(ids: seq<string>, notebooks: seq<Notebook>): seq<Placement> {
    seq(|notebooks|, i requires 0 <= i < |notebooks| => Placement(ids, notebooks[i]))
  }

  /** The notebooks shown in a subtree, each with its place. */
  function Shelf(node: TreeNode, prefix: seq<string>): seq<Placement>
    decreases node, 1
  {
    PlacedAt(prefix + [node.folderId], node.notebooks) + Shelves(node.children, prefix + [node.folderId])
  }

  function Shelves(nodes: seq<TreeNode>, prefix: seq<string>): seq<Placement>
    decreases nodes, 0
  {
    if nodes == [] then [] else Shelves(nodes[..|nodes| - 1], prefix) + Shelf(nodes[|nodes| - 1], prefix)
  }

  lemma {:induction false} ChildListedOnce(folders: seq<FolderRow>, from: seq<FolderRow>, c: FolderRow)
    requires IdsDistinct(from)
    ensures multiset(from)[c] == if c in from then 1 else 0
    ensures multiset(Children(folders, from, c.parentFolderId))[c] == if c in from && !IsRoot(folders, c) then 1 else 0
    ensures multiset(Roots(folders, from))[c] == if c in from && IsRoot(folders, c) then 1 else 0
  {
    if from != [] {
      var front, last := from[..|from| - 1], from[|from| - 1];
      assert from == front + [last];
      ChildListedOnce(folders, front, c);
      assert last !in front;
    }
  }

  lemma {:induction false} IdsFront(path: seq<FolderRow>, c: FolderRow)
    ensures Ids(path + [c]) == Ids(path) + [c.id]
  {
  }

  lemma {:induction false} CountConcat<T>(a: seq<T>, b: seq<T>, x: T)
    ensures multiset(a + b)[x] == multiset(a)[x] + multiset(b)[x]
  {
  }

  lemma {:induction false} PrefixStep<T>(path: seq<T>, c: T, q: seq<T>)
    ensures path + [c] <= q <==> |path| < |q| && path <= q && q[|path|] == c
  {
    if |path| < |q| {
      assert q[..|path| + 1] == q[..|path|] + [q[|path|]];
    }
  }

  lemma {:induction false} SpinesSnoc(nodes: seq<TreeNode>, node: TreeNode, prefix: seq<string>)
    ensures Spines(nodes + [node], prefix) == Spines(nodes, prefix) + Spine(node, prefix)
    ensures Shelves(nodes + [node], prefix) == Shelves(nodes, prefix) + Shelf(node, prefix)
  {
    assert (nodes + [node])[..|nodes|] == nodes;
  }

  /** The places of a subtree are its own and those of its children. */
  lemma {:induction false} SpineParts(folders: seq<FolderRow>, notebooks: seq<Notebook>, path: seq<FolderRow>, ids: seq<string>)
    requires IdsDistinct(folders) && RootPath(folders, path)
    ensures var below := Spines(Subtrees(folders, notebooks, path, Children(folders, folders, path[|path| - 1].id)), Ids(path));
            multiset(Spine(Tree(folders, notebooks, path), Ids(path[..|path| - 1])))[ids]
            == multiset(below)[ids] + if ids == Ids(path) then 1 else 0
  {
    var f := path[|path| - 1];
    assert path == path[..|path| - 1] + [f];
    IdsFront(path[..|path| - 1], f);
    CountConcat([Ids(path)], Spines(Subtrees(folders, notebooks, path, Children(folders, folders, f.id)), Ids(path)), ids);
  }

  lemma {:induction false} SameIdsSamePath(folders: seq<FolderRow>, path: seq<FolderRow>, q: seq<FolderRow>)
    requires IdsDistinct(folders) && RootPath(folders, path) && RootPath(folders, q) && Ids(path) == Ids(q)
    ensures path == q
  {
    assert |path| == |Ids(path)| == |Ids(q)| == |q|;
    assert Ids(path)[|path| - 1] == Ids(q)[|q| - 1];
    RootPathUnique(folders, path, q);
  }

  lemma {:induction false} NextIsListed(folders: seq<FolderRow>, path: seq<FolderRow>, q: seq<FolderRow>)
    requires IdsDistinct(folders) && RootPath(folders, path) && RootPath(folders, q) && |path| < |q| && path <= q
    ensures multiset(Children(folders, folders, path[|path| - 1].id))[q[|path|]] == 1
  {
    var c := q[|path|];
    assert c in q && HangsOn(folders, q, |path|) && q[|path| - 1] == path[|path| - 1];
    ChildListedOnce(folders, folders, c);
  }

  /** In the subtree below `path`, the node of root path `q` shows up once if `path` leads to it, and not otherwise. */
  lemma {:induction false} NodeOnce(folders: seq<FolderRow>, notebooks: seq<Notebook>, path: seq<FolderRow>, q: seq<FolderRow>)
    requires IdsDistinct(folders) && RootPath(folders, path) && RootPath(folders, q)
    ensures multiset(Spine(Tree(folders, notebooks, path), Ids(path[..|path| - 1])))[Ids(q)] == if path <= q then 1 else 0
    decreases |folders| - |path|, 1, 0
  {
    RootPathIsShort(folders, path);
    SpineParts(folders, notebooks, path, Ids(q));
    NodeOnceBelow(folders, notebooks, path, Children(folders, folders, path[|path| - 1].id), q);
    if |path| < |q| && path <= q {
      NextIsListed(folders, path, q);
    } else if path != q && Ids(path) == Ids(q) {
      SameIdsSamePath(folders, path, q);
    }
  }

  lemma {:induction false} NodeOnceBelow(folders: seq<FolderRow>, notebooks: seq<Notebook>, path: seq<FolderRow>,
                                         cs: seq<FolderRow>, q: seq<FolderRow>)
    requires IdsDistinct(folders) && RootPath(folders, path) && RootPath(folders, q)
    requires forall c :: c in cs ==> c in Children(folders, folders, path[|path| - 1].id)
    ensures multiset(Spines(Subtrees(folders, notebooks, path, cs), Ids(path)))[Ids(q)]
            == if |path| < |q| && path <= q then multiset(cs)[q[|path|]] else 0
    decreases |folders| - |path|, 0, |cs|
  {
    if cs != [] {
      var front, c := cs[..|cs| - 1], cs[|cs| - 1];
      assert cs == front + [c] && c in cs && forall x :: x in front ==> x in cs;
      RootPathIsShort(folders, path);
      Descend(folders, path, c);
      var rest, node := Subtrees(folders, notebooks, path, front), Tree(folders, notebooks, path + [c]);
      assert Subtrees(folders, notebooks, path, cs) == rest + [node];
      assert (path + [c])[..|path|] == path;
      NodeOnceBelow(folders, notebooks, path, front, q);
      NodeOnce(folders, notebooks, path + [c], q);
      OneMoreChild(rest, node, path, front, c, q);
    }
  }

  /** The counting behind the induction step of `NodeOnceBelow`. */
  lemma {:induction false} OneMoreChild(rest: seq<TreeNode>, node: TreeNode, path: seq<FolderRow>, front: seq<FolderRow>, c: FolderRow, q: seq<FolderRow>)
    requires multiset(Spines(rest, Ids(path)))[Ids(q)] == if |path| < |q| && path <= q then multiset(front)[q[|path|]] else 0
    requires multiset(Spine(node, Ids(path)))[Ids(q)] == if path + [c] <= q then 1 else 0
    ensures multiset(Spines(rest + [node], Ids(path)))[Ids(q)]
            == if |path| < |q| && path <= q then multiset(front + [c])[q[|path|]] else 0
  {
    var key, prefix := Ids(q), Ids(path);
    SpinesSnoc(rest, node, prefix);
    CountConcat(Spines(rest, prefix), Spine(node, prefix), key);
    PrefixStep(path, c, q);
    if |path| < |q| {
      CountConcat(front, [c], q[|path|]);
    }
  }

  /** Some chain of folders from a root downwards has exactly these ids. */
  ghost predicate NamesRootPath(folders: seq<FolderRow>, ids: seq<string>) {
    exists q: seq<FolderRow> :: RootPath(folders, q) && Ids(q) == ids
  }

  lemma {:induction false} RootsShownOnce(folders: seq<FolderRow>, notebooks: seq<Notebook>, rs: seq<FolderRow>, q: seq<FolderRow>)
    requires IdsDistinct(folders) && RootPath(folders, q)
    requires forall r :: r in rs ==> r in folders && IsRoot(folders, r)
    ensures multiset(Spines(RootTrees(folders, notebooks, rs), []))[Ids(q)] == multiset(rs)[q[0]]
  {
    if rs != [] {
      var front, r := rs[..|rs| - 1], rs[|rs| - 1];
      assert rs == front + [r];
      RootsShownOnce(folders, notebooks, front, q);
      NodeOnce(folders, notebooks, [r], q);
      var rest, node := RootTrees(folders, notebooks, front), Tree(folders, notebooks, [r]);
      assert Ids([r][..0]) == [];
      SpinesSnoc(rest, node, []);
      CountConcat(Spines(rest, []), Spine(node, []), Ids(q));
      CountConcat(front, [r], q[0]);
      assert [r] <= q <==> q[0] == r;
    }
  }

  /** The ids on the way to a node of the tree are those of a chain of folders from a root. */
  lemma {:induction false} NodesAreReal(folders: seq<FolderRow>, notebooks: seq<Notebook>, path: seq<FolderRow>, ids: seq<string>)
    requires IdsDistinct(folders) && RootPath(folders, path)
    requires ids in Spine(Tree(folders, notebooks, path), Ids(path[..|path| - 1]))
    ensures NamesRootPath(folders, ids)
    decreases |folders| - |path|, 1, 0
  {
    RootPathIsShort(folders, path);
    var f := path[|path| - 1];
    assert path == path[..|path| - 1] + [f];
    IdsFront(path[..|path| - 1], f);
    if ids != Ids(path) {
      NodesBelowAreReal(folders, notebooks, path, Children(folders, folders, f.id), ids);
    }
  }

  lemma {:induction false} NodesBelowAreReal(folders: seq<FolderRow>, notebooks: seq<Notebook>, path: seq<FolderRow>,
                                             cs: seq<FolderRow>, ids: seq<string>)
    requires IdsDistinct(folders) && RootPath(folders, path)
    requires forall c :: c in cs ==> c in Children(folders, folders, path[|path| - 1].id)
    requires ids in Spines(Subtrees(folders, notebooks, path, cs), Ids(path))
    ensures NamesRootPath(folders, ids)
    decreases |folders| - |path|, 0, |cs|
  {
    if cs != [] {
      var front, c := cs[..|cs| - 1], cs[|cs| - 1];
      assert cs == front + [c] && c in cs && forall x :: x in front ==> x in cs;
      RootPathIsShort(folders, path);
      Descend(folders, path, c);
      var rest, node := Subtrees(folders, notebooks, path, front), Tree(folders, notebooks, path + [c]);
      SpinesSnoc(rest, node, Ids(path));
      assert (path + [c])[..|path|] == path;
      if ids in Spines(rest, Ids(path)) {
        NodesBelowAreReal(folders, notebooks, path, front, ids);
      } else {
        NodesAreReal(folders, notebooks, path + [c], ids);
      }
    }
  }

  lemma {:induction false} RootTreesAreReal(folders: seq<FolderRow>, notebooks: seq<Notebook>, rs: seq<FolderRow>, ids: seq<string>)
    requires IdsDistinct(folders)
    requires forall r :: r in rs ==> r in folders && IsRoot(folders, r)
    requires ids in Spines(RootTrees(folders, notebooks, rs), [])
    ensures NamesRootPath(folders, ids)
  {
    if rs != [] {
      var front, r := rs[..|rs| - 1], rs[|rs| - 1];
      assert rs == front + [r];
      SpinesSnoc(RootTrees(folders, notebooks, front), Tree(folders, notebooks, [r]), []);
      if ids in Spines(RootTrees(folders, notebooks, front), []) {
        RootTreesAreReal(folders, notebooks, front, ids);
      } else {
        assert Ids([r][..0]) == [];
        NodesAreReal(folders, notebooks, [r], ids);
      }
    }
  }

  /**
   On every parent map, cycles and self-parents included: the places of the forest are the root
   paths, each exactly once, and nothing else is shown.
   */
  lemma {:induction false} ForestShowsEachRootPathOnce(folders: seq<FolderRow>, notebooks: seq<Notebook>, ids: seq<string>)
    requires IdsDistinct(folders)
    ensures multiset(Spines(ForestOf(folders, notebooks), []))[ids] == if NamesRootPath(folders, ids) then 1 else 0
  {
    RootsAre(folders, folders);
    if NamesRootPath(folders, ids) {
      var q :| RootPath(folders, q) && Ids(q) == ids;
      RootsShownOnce(folders, notebooks, Roots(folders, folders), q);
      ChildListedOnce(folders, folders, q[0]);
      assert q[0] in q;
    } else if ids in Spines(ForestOf(folders, notebooks), []) {
      RootTreesAreReal(folders, notebooks, Roots(folders, folders), ids);
    }
  }

  // ----- the notebooks -----

  /** These are the ids of the chain from a root down to the folder with this id. */
  ghost predicate NamesHome(folders: seq<FolderRow>, ids: seq<string>, id: string) {
    exists q: seq<FolderRow> :: RootPath(folders, q) && Ids(q) == ids && q[|q| - 1].id == id
  }

  /** `q` is the root path that a placement names, or empty if it does not name one to the notebook's folder. */
  ghost predicate IsHome(folders: seq<FolderRow>, x: Placement, q: seq<FolderRow>) {
    && (q != [] ==> RootPath(folders, q) && Ids(q) == x.ids && q[|q| - 1].id == x.notebook.folderId)
    && (q == [] ==> !NamesHome(folders, x.ids, x.notebook.folderId))
  }

  /** How often `n` is in the list, if it belongs to a live folder. */
  ghost function Filed(folders: seq<FolderRow>, notebooks: seq<Notebook>, n: Notebook): nat {
    if IsUnfiled(folders, n) then 0 else multiset(notebooks)[n]
  }

  lemma {:induction false} FiledCount(folders: seq<FolderRow>, notebooks: seq<Notebook>, id: string, n: Notebook)
    ensures multiset(FiledUnder(folders, notebooks, id))[n]
            == if !IsUnfiled(folders, n) && n.folderId == id then multiset(notebooks)[n] else 0
    ensures multiset(Unfiled(folders, notebooks))[n] == if IsUnfiled(folders, n) then multiset(notebooks)[n] else 0
  {
    if notebooks != [] {
      var front, last := notebooks[..|notebooks| - 1], notebooks[|notebooks| - 1];
      assert notebooks == front + [last];
      FiledCount(folders, front, id, n);
      CountConcat(front, [last], n);
    }
  }

  lemma {:induction false} PlacedCount(ids: seq<string>, notebooks: seq<Notebook>, x: Placement)
    ensures multiset(PlacedAt(ids, notebooks))[x] == if x.ids == ids then multiset(notebooks)[x.notebook] else 0
  {
    if notebooks != [] {
      var front, last := notebooks[..|notebooks| - 1], notebooks[|notebooks| - 1];
      assert notebooks == front + [last] && PlacedAt(ids, notebooks) == PlacedAt(ids, front) + [Placement(ids, last)];
      PlacedCount(ids, front, x);
      CountConcat(front, [last], x.notebook);
      CountConcat(PlacedAt(ids, front), [Placement(ids, last)], x);
    }
  }

  /** A placement names the root path `path`, and its notebook the last folder of it, iff `path` is its home. */
  lemma {:induction false} PlaceIsHome(folders: seq<FolderRow>, path: seq<FolderRow>, x: Placement, q: seq<FolderRow>)
    requires IdsDistinct(folders) && RootPath(folders, path) && IsHome(folders, x, q)
    ensures x.ids == Ids(path) && x.notebook.folderId == path[|path| - 1].id <==> path == q
  {
    if x.ids == Ids(path) && x.notebook.folderId == path[|path| - 1].id {
      assert NamesHome(folders, x.ids, x.notebook.folderId);
      RootPathUnique(folders, path, q);
    }
  }

  /** What the node at the end of `path` itself shows. */
  lemma {:induction false} OwnShelfCount(folders: seq<FolderRow>, notebooks: seq<Notebook>, ids: seq<string>, id: string, x: Placement)
    ensures multiset(PlacedAt(ids, FiledUnder(folders, notebooks, id)))[x]
            == if x.ids == ids && x.notebook.folderId == id then Filed(folders, notebooks, x.notebook) else 0
  {
    PlacedCount(ids, FiledUnder(folders, notebooks, id), x);
    FiledCount(folders, notebooks, id, x.notebook);
  }

  /** A subtree shows what its own node shows and what its children show. */
  lemma {:induction false} ShelfParts(folders: seq<FolderRow>, notebooks: seq<Notebook>, path: seq<FolderRow>, x: Placement)
    requires IdsDistinct(folders) && RootPath(folders, path)
    ensures var id := path[|path| - 1].id;
            multiset(Shelf(Tree(folders, notebooks, path), Ids(path[..|path| - 1])))[x]
            == multiset(PlacedAt(Ids(path), FiledUnder(folders, notebooks, id)))[x]
               + multiset(Shelves(Subtrees(folders, notebooks, path, Children(folders, folders, id)), Ids(path)))[x]
  {
    var f := path[|path| - 1];
    assert path == path[..|path| - 1] + [f];
    IdsFront(path[..|path| - 1], f);
    CountConcat(PlacedAt(Ids(path), FiledUnder(folders, notebooks, f.id)),
                Shelves(Subtrees(folders, notebooks, path, Children(folders, folders, f.id)), Ids(path)), x);
  }

  /** The subtree below `path` shows a notebook at a place as often as the input has it if `path` leads there, else never. */
  lemma {:induction false} ShelfCount(folders: seq<FolderRow>, notebooks: seq<Notebook>, path: seq<FolderRow>, x: Placement, q: seq<FolderRow>)
    requires IdsDistinct(folders) && RootPath(folders, path)
    requires IsHome(folders, x, q)
    ensures multiset(Shelf(Tree(folders, notebooks, path), Ids(path[..|path| - 1])))[x]
            == if path <= q then Filed(folders, notebooks, x.notebook) else 0
    decreases |folders| - |path|, 1, 0
  {
    RootPathIsShort(folders, path);
    var f := path[|path| - 1];
    var cs := Children(folders, folders, f.id);
    ShelfParts(folders, notebooks, path, x);
    ChildrenDoNotRepeat(folders, folders, f.id);
    ShelvesCount(folders, notebooks, path, cs, x, q);
    OwnShelfCount(folders, notebooks, Ids(path), f.id, x);
    PlaceIsHome(folders, path, x, q);
    if path <= q && path != q {
      NextIsChild(folders, path, q);
    }
  }

  ghost predicate NoRepeats(fs: seq<FolderRow>) {
    fs == [] || (fs[|fs| - 1] !in fs[..|fs| - 1] && NoRepeats(fs[..|fs| - 1]))
  }

  lemma {:induction false} ChildrenDoNotRepeat(folders: seq<FolderRow>, from: seq<FolderRow>, id: string)
    requires IdsDistinct(from)
    ensures NoRepeats(Children(folders, from, id))
  {
    if from != [] {
      var front, last := from[..|from| - 1], from[|from| - 1];
      ChildrenDoNotRepeat(folders, front, id);
      ChildrenAre(folders, front, id);
      assert last !in front;
      AddingKeepsNoRepeats(Children(folders, front, id), last);
    }
  }

  lemma {:induction false} RootsDoNotRepeat(folders: seq<FolderRow>, from: seq<FolderRow>)
    requires IdsDistinct(from)
    ensures NoRepeats(Roots(folders, from))
  {
    if from != [] {
      var front, last := from[..|from| - 1], from[|from| - 1];
      RootsDoNotRepeat(folders, front);
      RootsAre(folders, front);
      assert last !in front;
      AddingKeepsNoRepeats(Roots(folders, front), last);
    }
  }

  lemma {:induction false} AddingKeepsNoRepeats(fs: seq<FolderRow>, f: FolderRow)
    requires NoRepeats(fs)
    ensures f !in fs ==> NoRepeats(fs + [f])
    ensures NoRepeats(fs + [])
  {
    assert (fs + [f])[..|fs|] == fs && fs + [] == fs;
  }

  lemma {:induction false} NextIsChild(folders: seq<FolderRow>, path: seq<FolderRow>, q: seq<FolderRow>)
    requires path != [] && RootPath(folders, q) && path <= q && |path| < |q|
    ensures q[|path|] in Children(folders, folders, path[|path| - 1].id)
  {
    assert q[|path|] in q && path[|path| - 1] == q[|path| - 1] && HangsOn(folders, q, |path|);
    ChildrenAre(folders, folders, path[|path| - 1].id);
  }

  lemma {:induction false} FrontStaysBelow(folders: seq<FolderRow>, id: string, cs: seq<FolderRow>)
    requires cs != [] && forall c :: c in cs ==> c in Children(folders, folders, id)
    ensures forall c :: c in cs[..|cs| - 1] ==> c in Children(folders, folders, id)
    ensures cs[|cs| - 1] in Children(folders, folders, id)
  {
    var front := cs[..|cs| - 1];
    assert cs == front + [cs[|cs| - 1]] && forall x :: x in front ==> x in cs;
    assert cs[|cs| - 1] in cs;
  }

  lemma {:induction false} ShelvesCount(folders: seq<FolderRow>, notebooks: seq<Notebook>, path: seq<FolderRow>,
                                        cs: seq<FolderRow>, x: Placement, q: seq<FolderRow>)
    requires IdsDistinct(folders) && RootPath(folders, path)
    requires forall c :: c in cs ==> c in Children(folders, folders, path[|path| - 1].id)
    requires NoRepeats(cs)
    requires IsHome(folders, x, q)
    ensures multiset(Shelves(Subtrees(folders, notebooks, path, cs), Ids(path)))[x]
            == if |path| < |q| && path <= q && q[|path|] in cs then Filed(folders, notebooks, x.notebook) else 0
    decreases |folders| - |path|, 0, |cs|
  {
    if cs != [] {
      var front, c := cs[..|cs| - 1], cs[|cs| - 1];
      assert cs == front + [c];
      FrontStaysBelow(folders, path[|path| - 1].id, cs);
      RootPathIsShort(folders, path);
      Descend(folders, path, c);
      var rest, node := Subtrees(folders, notebooks, path, front), Tree(folders, notebooks, path + [c]);
      assert Subtrees(folders, notebooks, path, cs) == rest + [node];
      assert (path + [c])[..|path|] == path;
      ShelvesCount(folders, notebooks, path, front, x, q);
      ShelfCount(folders, notebooks, path + [c], x, q);
      OneMoreShelf(rest, node, path, front, c, x, q, Filed(folders, notebooks, x.notebook));
    }
  }

  lemma {:induction false} OneMoreShelf(rest: seq<TreeNode>, node: TreeNode, path: seq<FolderRow>, front: seq<FolderRow>, c: FolderRow,
                                        x: Placement, q: seq<FolderRow>, m: nat)
    requires multiset(Shelves(rest, Ids(path)))[x] == if |path| < |q| && path <= q && q[|path|] in front then m else 0
    requires multiset(Shelf(node, Ids(path)))[x] == if path + [c] <= q then m else 0
    requires c !in front
    ensures multiset(Shelves(rest + [node], Ids(path)))[x] == if |path| < |q| && path <= q && q[|path|] in front + [c] then m else 0
  {
    SpinesSnoc(rest, node, Ids(path));
    CountConcat(Shelves(rest, Ids(path)), Shelf(node, Ids(path)), x);
    PrefixStep(path, c, q);
  }

  lemma {:induction false} FrontStaysRoots(folders: seq<FolderRow>, rs: seq<FolderRow>)
    requires rs != [] && forall r :: r in rs ==> r in folders && IsRoot(folders, r)
    ensures forall r :: r in rs[..|rs| - 1] ==> r in folders && IsRoot(folders, r)
    ensures RootPath(folders, [rs[|rs| - 1]])
  {
    var front := rs[..|rs| - 1];
    assert rs == front + [rs[|rs| - 1]] && forall x :: x in front ==> x in rs;
    assert rs[|rs| - 1] in rs;
  }

  lemma {:induction false} RootShelvesCount(folders: seq<FolderRow>, notebooks: seq<Notebook>, rs: seq<FolderRow>, x: Placement, q: seq<FolderRow>)
    requires IdsDistinct(folders)
    requires forall r :: r in rs ==> r in folders && IsRoot(folders, r)
    requires NoRepeats(rs)
    requires IsHome(folders, x, q)
    ensures multiset(Shelves(RootTrees(folders, notebooks, rs), []))[x]
            == if q != [] && q[0] in rs then Filed(folders, notebooks, x.notebook) else 0
  {
    if rs != [] {
      var front, r := rs[..|rs| - 1], rs[|rs| - 1];
      assert rs == front + [r];
      FrontStaysRoots(folders, rs);
      RootShelvesCount(folders, notebooks, front, x, q);
      RootShelfCount(folders, notebooks, r, x, q);
      OneMoreRoot(RootTrees(folders, notebooks, front), Tree(folders, notebooks, [r]), front, r, x, q, Filed(folders, notebooks, x.notebook));
    }
  }

  lemma {:induction false} RootShelfCount(folders: seq<FolderRow>, notebooks: seq<Notebook>, r: FolderRow, x: Placement, q: seq<FolderRow>)
    requires IdsDistinct(folders) && RootPath(folders, [r]) && IsHome(folders, x, q)
    ensures multiset(Shelf(Tree(folders, notebooks, [r]), []))[x]
            == if q != [] && q[0] == r then Filed(folders, notebooks, x.notebook) else 0
  {
    ShelfCount(folders, notebooks, [r], x, q);
    assert Ids([r][..0]) == [];
    assert [r] <= q <==> q != [] && q[0] == r;
  }

  lemma {:induction false} OneMoreRoot(rest: seq<TreeNode>, node: TreeNode, front: seq<FolderRow>, r: FolderRow, x: Placement,
                                       q: seq<FolderRow>, m: nat)
    requires multiset(Shelves(rest, []))[x] == if q != [] && q[0] in front then m else 0
    requires multiset(Shelf(node, []))[x] == if q != [] && q[0] == r then m else 0
    requires r !in front
    ensures multiset(Shelves(rest + [node], []))[x] == if q != [] && q[0] in front + [r] then m else 0
  {
    SpinesSnoc(rest, node, []);
    CountConcat(Shelves(rest, []), Shelf(node, []), x);
  }

  /**
   A notebook is shown at a place as often as it is in the list if it belongs to a live folder and
   the place is that folder, seen from its root; otherwise never. There is at most one such place,
   and none if the folder hangs on a cycle. Every other notebook is unfiled.
   */
  lemma {:induction false} EachNotebookIsShownAtItsFolder(folders: seq<FolderRow>, notebooks: seq<Notebook>, x: Placement)
    requires IdsDistinct(folders)
    ensures multiset(Shelves(ForestOf(folders, notebooks), []))[x]
            == if !IsUnfiled(folders, x.notebook) && NamesHome(folders, x.ids, x.notebook.folderId)
               then multiset(notebooks)[x.notebook] else 0
    ensures multiset(Unfiled(folders, notebooks))[x.notebook]
            == if IsUnfiled(folders, x.notebook) then multiset(notebooks)[x.notebook] else 0
    ensures forall ids :: NamesHome(folders, x.ids, x.notebook.folderId) && NamesHome(folders, ids, x.notebook.folderId) ==> ids == x.ids
  {
    FiledCount(folders, notebooks, "", x.notebook);
    RootsAre(folders, folders);
    RootsDoNotRepeat(folders, folders);
    var q := HomeOf(folders, x);
    RootShelvesCount(folders, notebooks, Roots(folders, folders), x, q);
    assert q != [] ==> q[0] in q;
    forall ids | NamesHome(folders, x.ids, x.notebook.folderId) && NamesHome(folders, ids, x.notebook.folderId)
      ensures ids == x.ids
    {
      var p: seq<FolderRow> :| RootPath(folders, p) && Ids(p) == ids && p[|p| - 1].id == x.notebook.folderId;
      RootPathUnique(folders, p, q);
    }
  }

  lemma {:induction false} HomeOf(folders: seq<FolderRow>, x: Placement) returns (q: seq<FolderRow>)
    ensures IsHome(folders, x, q)
    ensures q != [] <==> NamesHome(folders, x.ids, x.notebook.folderId)
  {
    if NamesHome(folders, x.ids, x.notebook.folderId) {
      q :| RootPath(folders, q) && Ids(q) == x.ids && q[|q| - 1].id == x.notebook.folderId;
    } else {
      q := [];
    }
  }
}
