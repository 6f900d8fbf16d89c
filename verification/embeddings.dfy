/**
 What the embedding table and the cache in front of it hold, as values: one function for each
 operation on each side, and the reason the two never drift apart.
 */
module Embeddings {
  import opened Bytes
  import opened FloatBytes
  import opened Wrappers

  datatype Key = Key(notePath: string, page: int, chunk: int)

  /** A row of the table, whose unique key is the path, page and chunk. */
  datatype Row = Row(embedding: seq<Byte>, model: string, createdAt: int)

  /** A cached vector. */
  datatype Entry = Entry(key: Key, vector: seq<Bits>)

  datatype Scope = OfPage(path: string, page: int) | OfNote(path: string)

  predicate Covers(scope: Scope, k: Key) {
    k.notePath == scope.path && (scope.OfPage? ==> k.page == scope.page)
  }

  /** An operation; the caller of `Save` hands in a vector, as a value or by reference. */
  datatype Call<V> =
    | Save(key: Key, vector: V, model: string, now: int)
    | Delete(scope: Scope)
    | Rename(oldPath: string, newPath: string)
    | Copy(srcPath: string, dstPath: string)

  // ----- the table -----

  /** Repointing a note onto a path that already holds one of its page chunks breaks the unique key. */
  predicate RenameConflicts(t: map<Key, Row>, oldPath: string, newPath: string) {
    oldPath != newPath && exists k :: k in t && k.notePath == oldPath && k.(notePath := newPath) in t
  }

  function Moved(t: map<Key, Row>, oldPath: string, newPath: string): map<Key, Row> {
    map k | k in t && k.notePath == oldPath :: k.(notePath := newPath) := t[k]
  }

  function Without(t: map<Key, Row>, scope: Scope): map<Key, Row> {
    map k | k in t && !Covers(scope, k) :: t[k]
  }

  function TableAfter(t: map<Key, Row>, c: Call<seq<Bits>>): map<Key, Row> {
    match c
    case Save(k, v, model, now) => t[k := Row(Encode(v), model, now)]
    case Delete(scope) => Without(t, scope)
    case Rename(oldPath, newPath) =>
      if RenameConflicts(t, oldPath, newPath) then t
      else Without(t, OfNote(oldPath)) + Moved(t, oldPath, newPath)
    case Copy(srcPath, dstPath) =>
      var cleared := Without(t, OfNote(dstPath));
      cleared + Moved(cleared, srcPath, dstPath)
  }

  // ----- the cache -----

  /** The vector cached under a key. */
  function Lookup(c: seq<Entry>, k: Key): Option<seq<Bits>> {
    if c == [] then None
    else if c[|c| - 1].key == k then Some(c[|c| - 1].vector)
    else Lookup(c[..|c| - 1], k)
  }

  predicate NoDuplicates(c: seq<Entry>) {
    c == [] || (Lookup(c[..|c| - 1], c[|c| - 1].key) == None && NoDuplicates(c[..|c| - 1]))
  }

  /** Overwrite the first entry with this key, or append one. */
  function Put(c: seq<Entry>, k: Key, v: seq<Bits>): seq<Entry> {
    if c == [] then [Entry(k, v)]
    else
      var front, last := c[..|c| - 1], c[|c| - 1];
      if Lookup(front, k) == None && last.key == k then front + [Entry(k, v)] else
      if Lookup(front, k) == None then c + [Entry(k, v)] else
      Put(front, k, v) + [last]
  }

  function Dropped(c: seq<Entry>, scope: Scope): seq<Entry> {
    if c == [] then []
    else
      var last := c[|c| - 1];
      Dropped(c[..|c| - 1], scope) + if Covers(scope, last.key) then [] else [last]
  }

  function Renamed(c: seq<Entry>, oldPath: string, newPath: string): seq<Entry> {
    if c == [] then []
    else
      var last := c[|c| - 1];
      Renamed(c[..|c| - 1], oldPath, newPath)
      + [if last.key.notePath == oldPath then last.(key := last.key.(notePath := newPath)) else last]
  }

  /** What `Copy` appends: the entries of one note, under another path. */
  function Duplicates(c: seq<Entry>, srcPath: string, dstPath: string): seq<Entry> {
    if c == [] then []
    else
      var last := c[|c| - 1];
      Duplicates(c[..|c| - 1], srcPath, dstPath)
      + if last.key.notePath == srcPath then [last.(key := last.key.(notePath := dstPath))] else []
  }

  /** The cache is only touched once the statement on the table has gone through. */
  function CacheAfter(c: seq<Entry>, t: map<Key, Row>, call: Call<seq<Bits>>): seq<Entry> {
    match call
    case Save(k, v, _, _) => Put(c, k, v)
    case Delete(scope) => Dropped(c, scope)
    case Rename(oldPath, newPath) => if RenameConflicts(t, oldPath, newPath) then c else Renamed(c, oldPath, newPath)
    case Copy(srcPath, dstPath) =>
      var cleared := Dropped(c, OfNote(dstPath));
      cleared + Duplicates(cleared, srcPath, dstPath)
  }

  // ----- agreement -----

  function Stored(t: map<Key, Row>, k: Key): Option<seq<Bits>> {
    if k in t then Some(Decode(t[k].embedding)) else None
  }

  /** The cache has each key at most once, and the vector it has for a key is the one the table has. */
  ghost predicate Agrees(c: seq<Entry>, t: map<Key, Row>) {
    NoDuplicates(c) && forall k :: Lookup(c, k) == Stored(t, k)
  }

  lemma {:induction false} LookupOfConcat(a: seq<Entry>, b: seq<Entry>, k: Key)
    ensures Lookup(a + b, k) == if Lookup(b, k) == None then Lookup(a, k) else Lookup(b, k)
  {
    if b == [] {
      assert a + b == a;
    } else {
      assert (a + b)[..|a + b| - 1] == a + b[..|b| - 1];
      LookupOfConcat(a, b[..|b| - 1], k);
    }
  }

  lemma {:induction false} NoDuplicatesInConcat(a: seq<Entry>, b: seq<Entry>)
    requires NoDuplicates(a) && NoDuplicates(b)
    requires forall k :: Lookup(a, k) == None || Lookup(b, k) == None
    ensures NoDuplicates(a + b)
  {
    if b == [] {
      assert a + b == a;
    } else {
      var front, last := b[..|b| - 1], b[|b| - 1];
      assert (a + b)[..|a + b| - 1] == a + front;
      forall k
        ensures Lookup(a, k) == None || Lookup(front, k) == None
      {
        assert Lookup(a, k) == None || Lookup(b, k) == None;
      }
      NoDuplicatesInConcat(a, front);
      LookupOfConcat(a, front, last.key);
    }
  }

  lemma {:induction false} OneMore(d: seq<Entry>, e: Entry)
    ensures d + [] == d
    ensures forall x :: Lookup(d + [e], x) == if e.key == x then Some(e.vector) else Lookup(d, x)
    ensures NoDuplicates(d + [e]) <==> NoDuplicates(d) && Lookup(d, e.key) == None
  {
    assert (d + [e])[..|d|] == d;
  }

  lemma {:induction false} PutEffect(c: seq<Entry>, k: Key, v: seq<Bits>)
    requires NoDuplicates(c)
    ensures NoDuplicates(Put(c, k, v))
    ensures forall x :: Lookup(Put(c, k, v), x) == if x == k then Some(v) else Lookup(c, x)
  {
    if c != [] {
      var front, last := c[..|c| - 1], c[|c| - 1];
      PutEffect(front, k, v);
      OneMore(front, Entry(k, v));
      OneMore(c, Entry(k, v));
      OneMore(Put(front, k, v), last);
    }
  }

  lemma {:induction false} DroppedEffect(c: seq<Entry>, scope: Scope)
    requires NoDuplicates(c)
    ensures NoDuplicates(Dropped(c, scope))
    ensures forall x :: Lookup(Dropped(c, scope), x) == if Covers(scope, x) then None else Lookup(c, x)
  {
    if c != [] {
      var front, last := c[..|c| - 1], c[|c| - 1];
      DroppedEffect(front, scope);
      OneMore(Dropped(front, scope), last);
    }
  }

  /** Entries moved to another path, seen from that path. */
  function Back(k: Key, oldPath: string): Key { k.(notePath := oldPath) }

  lemma {:induction false} DuplicatesEffect(c: seq<Entry>, srcPath: string, dstPath: string)
    requires NoDuplicates(c)
    ensures NoDuplicates(Duplicates(c, srcPath, dstPath))
    ensures forall x :: Lookup(Duplicates(c, srcPath, dstPath), x)
                        == if x.notePath == dstPath then Lookup(c, Back(x, srcPath)) else None
  {
    if c != [] {
      var front, last := c[..|c| - 1], c[|c| - 1];
      DuplicatesEffect(front, srcPath, dstPath);
      var d, e := Duplicates(front, srcPath, dstPath), last.(key := last.key.(notePath := dstPath));
      OneMore(d, e);
      if last.key.notePath == srcPath {
        assert Back(e.key, srcPath) == last.key;
      }
    }
  }

  /** No entry of the old path has its new key taken. */
  ghost predicate Clear(c: seq<Entry>, oldPath: string, newPath: string) {
    forall k: Key :: k.notePath == oldPath && Lookup(c, k) != None ==> Lookup(c, Back(k, newPath)) == None
  }

  lemma {:induction false} RenamedEffect(c: seq<Entry>, oldPath: string, newPath: string)
    requires NoDuplicates(c) && oldPath != newPath && Clear(c, oldPath, newPath)
    ensures NoDuplicates(Renamed(c, oldPath, newPath))
    ensures forall x :: Lookup(Renamed(c, oldPath, newPath), x)
                        == if x.notePath == oldPath then None
                           else if x.notePath == newPath && Lookup(c, Back(x, oldPath)) != None then Lookup(c, Back(x, oldPath))
                           else Lookup(c, x)
  {
    if c != [] {
      var front, last := c[..|c| - 1], c[|c| - 1];
      forall k: Key | k.notePath == oldPath && Lookup(front, k) != None
        ensures Lookup(front, Back(k, newPath)) == None
      {
        assert k != last.key;
        assert Lookup(c, Back(k, newPath)) == None;
      }
      RenamedEffect(front, oldPath, newPath);
      var r := Renamed(front, oldPath, newPath);
      var e := if last.key.notePath == oldPath then last.(key := last.key.(notePath := newPath)) else last;
      OneMore(r, e);
    }
  }

  lemma {:induction false} SaveAgrees(c: seq<Entry>, t: map<Key, Row>, k: Key, v: seq<Bits>, model: string, now: int)
    requires Agrees(c, t)
    ensures Agrees(Put(c, k, v), t[k := Row(Encode(v), model, now)])
  {
    PutEffect(c, k, v);
    RoundTrip(v);
  }

  lemma {:induction false} DeleteAgrees(c: seq<Entry>, t: map<Key, Row>, scope: Scope)
    requires Agrees(c, t)
    ensures Agrees(Dropped(c, scope), Without(t, scope))
  {
    DroppedEffect(c, scope);
  }

  lemma {:induction false} MovedHolds(t: map<Key, Row>, oldPath: string, newPath: string, x: Key)
    ensures x in Moved(t, oldPath, newPath) <==> x.notePath == newPath && Back(x, oldPath) in t
    ensures x in Moved(t, oldPath, newPath) ==> Moved(t, oldPath, newPath)[x] == t[Back(x, oldPath)]
  {
    if x.notePath == newPath && Back(x, oldPath) in t {
      assert Back(x, oldPath).(notePath := newPath) == x;
    }
  }

  lemma {:induction false} RenameAgrees(c: seq<Entry>, t: map<Key, Row>, oldPath: string, newPath: string)
    requires Agrees(c, t) && !RenameConflicts(t, oldPath, newPath)
    ensures Agrees(Renamed(c, oldPath, newPath), Without(t, OfNote(oldPath)) + Moved(t, oldPath, newPath))
  {
    var t' := Without(t, OfNote(oldPath)) + Moved(t, oldPath, newPath);
    forall x
      ensures Stored(t', x) == if x.notePath == newPath && Back(x, oldPath) in t then Stored(t, Back(x, oldPath))
                               else if x.notePath == oldPath then None else Stored(t, x)
    {
      MovedHolds(t, oldPath, newPath, x);
    }
    if oldPath == newPath {
      RenamedToItself(c, oldPath);
      forall x: Key
        ensures Lookup(c, x) == Stored(t', x)
      {
        assert x.notePath == oldPath ==> Back(x, oldPath) == x;
      }
    } else {
      forall k: Key | k.notePath == oldPath && Lookup(c, k) != None
        ensures Lookup(c, Back(k, newPath)) == None
      {
        assert k in t;
      }
      RenamedEffect(c, oldPath, newPath);
    }
  }

  lemma {:induction false} RenamedToItself(c: seq<Entry>, path: string)
    ensures Renamed(c, path, path) == c
  {
    if c != [] {
      var front, last := c[..|c| - 1], c[|c| - 1];
      RenamedToItself(front, path);
      assert last.key.notePath == path ==> last.(key := last.key.(notePath := path)) == last;
      assert c == front + [last];
    }
  }

  lemma {:induction false} CopyAgrees(c: seq<Entry>, t: map<Key, Row>, srcPath: string, dstPath: string)
    requires Agrees(c, t) && forall k: Key :: k.notePath == dstPath ==> k !in t
    ensures Agrees(c + Duplicates(c, srcPath, dstPath), t + Moved(t, srcPath, dstPath))
  {
    var d := Duplicates(c, srcPath, dstPath);
    DuplicatesEffect(c, srcPath, dstPath);
    forall x
      ensures Lookup(c, x) == None || Lookup(d, x) == None
      ensures Lookup(c + d, x) == Stored(t + Moved(t, srcPath, dstPath), x)
    {
      LookupOfConcat(c, d, x);
      MovedHolds(t, srcPath, dstPath, x);
    }
    NoDuplicatesInConcat(c, d);
  }

  lemma {:induction false} StepKeepsAgreement(c: seq<Entry>, t: map<Key, Row>, call: Call<seq<Bits>>)
    requires Agrees(c, t)
    ensures Agrees(CacheAfter(c, t, call), TableAfter(t, call))
  {
    match call
    case Save(k, v, model, now) => SaveAgrees(c, t, k, v, model, now);
    case Delete(scope) => DeleteAgrees(c, t, scope);
    case Rename(oldPath, newPath) =>
      if !RenameConflicts(t, oldPath, newPath) {
        RenameAgrees(c, t, oldPath, newPath);
      }
    case Copy(srcPath, dstPath) =>
      DeleteAgrees(c, t, OfNote(dstPath));
      CopyAgrees(Dropped(c, OfNote(dstPath)), Without(t, OfNote(dstPath)), srcPath, dstPath);
  }

  function TableRun(t: map<Key, Row>, calls: seq<Call<seq<Bits>>>): map<Key, Row> {
    if calls == [] then t else TableAfter(TableRun(t, calls[..|calls| - 1]), calls[|calls| - 1])
  }

  function CacheRun(c: seq<Entry>, t: map<Key, Row>, calls: seq<Call<seq<Bits>>>): seq<Entry> {
    if calls == [] then c
    else
      var earlier := calls[..|calls| - 1];
      CacheAfter(CacheRun(c, t, earlier), TableRun(t, earlier), calls[|calls| - 1])
  }

  /** Agreement survives every sequential run of the operations. */
  lemma {:induction false} RunKeepsAgreement(c: seq<Entry>, t: map<Key, Row>, calls: seq<Call<seq<Bits>>>)
    requires Agrees(c, t)
    ensures Agrees(CacheRun(c, t, calls), TableRun(t, calls))
  {
    if calls != [] {
      var earlier := calls[..|calls| - 1];
      RunKeepsAgreement(c, t, earlier);
      StepKeepsAgreement(CacheRun(c, t, earlier), TableRun(t, earlier), calls[|calls| - 1]);
    }
  }

  // ----- each operation, key by key -----

  /** `t'` has exactly the rows of `t` that are not marked gone, as they were. */
  ghost predicate RowsLeft(t: map<Key, Row>, t': map<Key, Row>, gone: Key -> bool) {
    && (forall k :: k in t' <==> k in t && !gone(k))
    && (forall k :: k in t' ==> t'[k] == t[k])
  }

  ghost predicate EntriesLeft(c: seq<Entry>, c': seq<Entry>, gone: Key -> bool) {
    forall k :: Lookup(c', k) == if gone(k) then None else Lookup(c, k)
  }

  /** `DeletePage` takes away the vectors of that page of the note and no others. */
  lemma {:induction false} DeletePageRemovesThePage(c: seq<Entry>, t: map<Key, Row>, path: string, page: int)
    requires NoDuplicates(c)
    ensures RowsLeft(t, TableAfter(t, Delete(OfPage(path, page))), (k: Key) => k.notePath == path && k.page == page)
    ensures EntriesLeft(c, CacheAfter(c, t, Delete(OfPage(path, page))), (k: Key) => k.notePath == path && k.page == page)
  {
    DroppedEffect(c, OfPage(path, page));
  }

  /** `Delete` takes away the vectors of the note and no others. */
  lemma {:induction false} DeleteRemovesTheNote(c: seq<Entry>, t: map<Key, Row>, path: string)
    requires NoDuplicates(c)
    ensures RowsLeft(t, TableAfter(t, Delete(OfNote(path))), (k: Key) => k.notePath == path)
    ensures EntriesLeft(c, CacheAfter(c, t, Delete(OfNote(path))), (k: Key) => k.notePath == path)
  {
    DroppedEffect(c, OfNote(path));
  }

  /** `Save` writes one key and nothing else: the row has the blob, model and time, the cache the vector. */
  lemma {:induction false} SaveWritesOneKey(c: seq<Entry>, t: map<Key, Row>, k: Key, v: seq<Bits>, model: string, now: int, x: Key)
    requires NoDuplicates(c)
    ensures var t', c' := TableAfter(t, Save(k, v, model, now)), CacheAfter(c, t, Save(k, v, model, now));
            && (x in t' <==> x in t || x == k)
            && (x in t' ==> t'[x] == if x == k then Row(Encode(v), model, now) else t[x])
            && Lookup(c', x) == if x == k then Some(v) else Lookup(c, x)
  {
    PutEffect(c, k, v);
  }

  /** Where a key of the new path came from; other keys are their own origin. */
  ghost function Origin(x: Key, oldPath: string, newPath: string): Key {
    if x.notePath == newPath then Key(oldPath, x.page, x.chunk) else x
  }

  /** A rename is refused iff some page chunk of the note has a namesake under the other path. */
  lemma {:induction false} RenameIsRefusedIffTaken(t: map<Key, Row>, oldPath: string, newPath: string)
    ensures RenameConflicts(t, oldPath, newPath)
            <==> oldPath != newPath && exists page, chunk :: Key(oldPath, page, chunk) in t && Key(newPath, page, chunk) in t
  {
    if k :| oldPath != newPath && k in t && k.notePath == oldPath && k.(notePath := newPath) in t {
      assert k == Key(oldPath, k.page, k.chunk) && k.(notePath := newPath) == Key(newPath, k.page, k.chunk);
    }
    if page, chunk :| oldPath != newPath && Key(oldPath, page, chunk) in t && Key(newPath, page, chunk) in t {
      assert Key(oldPath, page, chunk).(notePath := newPath) == Key(newPath, page, chunk);
    }
  }

  /** A refused rename changes nothing; any other leaves the old path empty and the new one with the rows of both. */
  lemma {:induction false} RenameMovesTheNote(c: seq<Entry>, t: map<Key, Row>, oldPath: string, newPath: string, x: Key)
    requires Agrees(c, t) && oldPath != newPath
    ensures var t', c' := TableAfter(t, Rename(oldPath, newPath)), CacheAfter(c, t, Rename(oldPath, newPath));
            if RenameConflicts(t, oldPath, newPath) then t' == t && c' == c
            else
              var from := if Origin(x, oldPath, newPath) in t then Origin(x, oldPath, newPath) else x;
              && (x in t' <==> x.notePath != oldPath && from in t)
              && (x in t' ==> t'[x] == t[from])
              && Lookup(c', x) == if x.notePath == oldPath then None else Lookup(c, from)
  {
    if !RenameConflicts(t, oldPath, newPath) {
      var from := if Origin(x, oldPath, newPath) in t then Origin(x, oldPath, newPath) else x;
      MovedHolds(t, oldPath, newPath, x);
      assert Back(x, oldPath) == Key(oldPath, x.page, x.chunk);
      StepKeepsAgreement(c, t, Rename(oldPath, newPath));
      assert Lookup(c, from) == Stored(t, from);
    }
  }

  /** A copy gives the destination exactly the source's rows, model and time included; every other row stays. */
  lemma {:induction false} CopyCopiesRows(t: map<Key, Row>, srcPath: string, dstPath: string, x: Key)
    requires srcPath != dstPath
    ensures var t' := TableAfter(t, Copy(srcPath, dstPath));
            && (x in t' <==> Origin(x, srcPath, dstPath) in t)
            && (x in t' ==> t'[x] == t[Origin(x, srcPath, dstPath)])
  {
    MovedHolds(Without(t, OfNote(dstPath)), srcPath, dstPath, x);
    assert Back(x, srcPath) == Key(srcPath, x.page, x.chunk);
  }

  /** Copying a note onto itself empties it, in the table and in the cache. */
  lemma {:induction false} SelfCopyEmpties(c: seq<Entry>, t: map<Key, Row>, path: string, k: Key)
    requires Agrees(c, t)
    ensures Stored(TableAfter(t, Copy(path, path)), k) == if k.notePath == path then None else Stored(t, k)
    ensures Lookup(CacheAfter(c, t, Copy(path, path)), k) == if k.notePath == path then None else Lookup(c, k)
  {
    var cleared := Without(t, OfNote(path));
    MovedHolds(cleared, path, path, k);
    StepKeepsAgreement(c, t, Copy(path, path));
  }

  /** Copying onto another path gives that path exactly the source's vectors and changes no other. */
  lemma {:induction false} CopyDuplicates(c: seq<Entry>, t: map<Key, Row>, srcPath: string, dstPath: string, k: Key)
    requires Agrees(c, t) && srcPath != dstPath
    ensures Lookup(CacheAfter(c, t, Copy(srcPath, dstPath)), k) == Lookup(c, if k.notePath == dstPath then Back(k, srcPath) else k)
  {
    var cleared := Without(t, OfNote(dstPath));
    MovedHolds(cleared, srcPath, dstPath, k);
    StepKeepsAgreement(c, t, Copy(srcPath, dstPath));
    assert Lookup(c, k) == Stored(t, k) && Lookup(c, Back(k, srcPath)) == Stored(t, Back(k, srcPath));
  }
}
