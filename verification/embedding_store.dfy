/**
 The embedding store as it works in memory: a cache in a growable buffer, filtered in place,
 whose vectors are references that copies of a note share.
 */
module EmbeddingStore {
  import opened Embeddings
  import opened FloatBytes
  import opened Wrappers

  datatype Record = Record(key: Key, embedding: array<Bits>)

  /** What a list of records holds when its vectors are read. */
  ghost function Contents(rs: seq<Record>): (c: seq<Entry>)
    reads set r | r in rs :: r.embedding
    ensures |c| == |rs|
  {
    if rs == [] then []
    else
      var front, last := rs[..|rs| - 1], rs[|rs| - 1];
      assert last in rs && forall r :: r in front ==> r in rs;
      Contents(front) + [Entry(last.key, last.embedding[..])]
  }

  function Survivors(rs: seq<Record>, scope: Scope): seq<Record> {
    if rs == [] then []
    else
      var last := rs[|rs| - 1];
      Survivors(rs[..|rs| - 1], scope) + if Covers(scope, last.key) then [] else [last]
  }

  lemma {:induction false} SurvivorsAre(rs: seq<Record>, scope: Scope)
    ensures forall r :: r in Survivors(rs, scope) <==> r in rs && !Covers(scope, r.key)
  {
    if rs != [] {
      SurvivorsAre(rs[..|rs| - 1], scope);
      assert rs == rs[..|rs| - 1] + [rs[|rs| - 1]];
    }
  }

  /** Overwrite the first record with this key, or append one. */
  function PutRecord(rs: seq<Record>, r: Record): seq<Record> {
    if rs == [] then [r]
    else if rs[0].key == r.key then [r] + rs[1..]
    else [rs[0]] + PutRecord(rs[1..], r)
  }

  function Repointed(r: Record, oldPath: string, newPath: string): Record {
    if r.key.notePath == oldPath then r.(key := r.key.(notePath := newPath)) else r
  }

  function AllRepointed(rs: seq<Record>, oldPath: string, newPath: string): seq<Record> {
    seq(|rs|, i requires 0 <= i < |rs| => Repointed(rs[i], oldPath, newPath))
  }

  function Copies(rs: seq<Record>, srcPath: string, dstPath: string): seq<Record> {
    if rs == [] then []
    else
      var last := rs[|rs| - 1];
      Copies(rs[..|rs| - 1], srcPath, dstPath)
      + if last.key.notePath == srcPath then [last.(key := last.key.(notePath := dstPath))] else []
  }

  lemma {:induction false} ContentsSnoc(rs: seq<Record>, r: Record)
    ensures Contents(rs + [r]) == Contents(rs) + [Entry(r.key, r.embedding[..])]
  {
    assert (rs + [r])[..|rs|] == rs;
  }

  lemma {:induction false} ContentsConcat(a: seq<Record>, b: seq<Record>)
    ensures Contents(a + b) == Contents(a) + Contents(b)
  {
    if b == [] {
      assert a + b == a;
    } else {
      var front, last := b[..|b| - 1], b[|b| - 1];
      assert a + b == (a + front) + [last];
      ContentsConcat(a, front);
      ContentsSnoc(a + front, last);
    }
  }

  lemma {:induction false} SurvivorsHold(rs: seq<Record>, scope: Scope)
    ensures Contents(Survivors(rs, scope)) == Dropped(Contents(rs), scope)
  {
    if rs != [] {
      var front, last := rs[..|rs| - 1], rs[|rs| - 1];
      SurvivorsHold(front, scope);
      ContentsSnoc(Survivors(front, scope), last);
      assert Survivors(front, scope) + [] == Survivors(front, scope);
      assert Contents(rs)[..|front|] == Contents(front);
    }
  }

  lemma {:induction false} CopiesHold(rs: seq<Record>, srcPath: string, dstPath: string)
    ensures Contents(Copies(rs, srcPath, dstPath)) == Duplicates(Contents(rs), srcPath, dstPath)
  {
    if rs != [] {
      var front, last := rs[..|rs| - 1], rs[|rs| - 1];
      CopiesHold(front, srcPath, dstPath);
      var cs := Copies(front, srcPath, dstPath);
      ContentsSnoc(cs, last.(key := last.key.(notePath := dstPath)));
      assert cs + [] == cs;
      assert Contents(rs)[..|front|] == Contents(front);
    }
  }

  lemma {:induction false} RepointedHold(rs: seq<Record>, oldPath: string, newPath: string)
    ensures Contents(AllRepointed(rs, oldPath, newPath)) == Renamed(Contents(rs), oldPath, newPath)
  {
    if rs != [] {
      var m := |rs| - 1;
      var done := AllRepointed(rs, oldPath, newPath);
      RepointedHold(rs[..m], oldPath, newPath);
      assert done[..m] == AllRepointed(rs[..m], oldPath, newPath) && done == done[..m] + [done[m]];
      ContentsSnoc(done[..m], done[m]);
      assert Contents(rs)[..m] == Contents(rs[..m]);
    }
  }

  lemma {:induction false} NotYetFound(rs: seq<Record>, k: Key)
    ensures Lookup(Contents(rs), k) == None <==> forall i :: 0 <= i < |rs| ==> rs[i].key != k
  {
    if rs != [] {
      var front, last := rs[..|rs| - 1], rs[|rs| - 1];
      NotYetFound(front, k);
      assert Contents(rs)[..|front|] == Contents(front);
      assert rs == front + [last];
    }
  }

  lemma {:induction false} PutOverwrites(rs: seq<Record>, i: nat, r: Record)
    requires i < |rs| && rs[i].key == r.key && forall j :: 0 <= j < i ==> rs[j].key != r.key
    ensures Contents(rs[i := r]) == Put(Contents(rs), r.key, r.embedding[..])
  {
    var m := |rs| - 1;
    var front, last := rs[..m], rs[m];
    assert Contents(rs)[..m] == Contents(front);
    NotYetFound(front, r.key);
    if i == m {
      assert rs[i := r] == front + [r];
      ContentsSnoc(front, r);
    } else {
      assert front[i].key == r.key;
      PutOverwrites(front, i, r);
      assert rs[i := r] == front[i := r] + [last];
      ContentsSnoc(front[i := r], last);
    }
  }

  lemma {:induction false} PutAppends(rs: seq<Record>, r: Record)
    requires forall j :: 0 <= j < |rs| ==> rs[j].key != r.key
    ensures Contents(rs + [r]) == Put(Contents(rs), r.key, r.embedding[..])
  {
    ContentsSnoc(rs, r);
    NotYetFound(rs, r.key);
  }

  lemma {:induction false} PutRecordAt(rs: seq<Record>, i: nat, r: Record)
    requires i <= |rs| && forall j :: 0 <= j < i ==> rs[j].key != r.key
    ensures i == |rs| ==> PutRecord(rs, r) == rs + [r]
    ensures i < |rs| && rs[i].key == r.key ==> PutRecord(rs, r) == rs[i := r]
  {
    if i > 0 {
      PutRecordAt(rs[1..], i - 1, r);
      assert rs == [rs[0]] + rs[1..];
    }
  }

  lemma {:induction false} FirstOrNone(rs: seq<Record>, k: Key) returns (i: nat)
    ensures i <= |rs| && (forall j :: 0 <= j < i ==> rs[j].key != k) && (i < |rs| ==> rs[i].key == k)
  {
    i := 0;
    while i < |rs| && rs[i].key != k
      invariant i <= |rs| && forall j :: 0 <= j < i ==> rs[j].key != k
    {
      i := i + 1;
    }
  }

  lemma {:induction false} PutRecordHolds(rs: seq<Record>, r: Record)
    ensures Contents(PutRecord(rs, r)) == Put(Contents(rs), r.key, r.embedding[..])
  {
    var i := FirstOrNone(rs, r.key);
    PutRecordAt(rs, i, r);
    if i < |rs| {
      PutOverwrites(rs, i, r);
    } else {
      PutAppends(rs, r);
    }
  }

  ghost predicate Reads(rs: seq<Record>, c: seq<Entry>)
    reads set r | r in rs :: r.embedding
  {
    |rs| == |c| && forall i :: 0 <= i < |rs| ==> c[i] == Entry(rs[i].key, rs[i].embedding[..])
  }

  lemma {:induction false} ReadsOneMore(rs: seq<Record>, c: seq<Entry>, r: Record)
    requires Reads(rs, c)
    ensures Reads(rs + [r], c + [Entry(r.key, r.embedding[..])])
  {
  }

  lemma {:induction false} ContentsAreReads(rs: seq<Record>)
    ensures Reads(rs, Contents(rs))
  {
    if rs != [] {
      ContentsAreReads(rs[..|rs| - 1]);
    }
  }

  lemma {:induction false} ReadsAreContents(rs: seq<Record>, c: seq<Entry>)
    requires Reads(rs, c)
    ensures Contents(rs) == c
  {
    ContentsAreReads(rs);
  }

  /** Nobody wrote to the vectors, so the records hold what they held. */
  twostate lemma {:induction false} VectorsKept(rs: seq<Record>)
    requires forall i :: 0 <= i < |rs| ==> unchanged(rs[i].embedding)
    ensures Contents(rs) == old(Contents(rs))
  {
    if rs != [] {
      VectorsKept(rs[..|rs| - 1]);
    }
  }

  /** What each operation leaves in the cache, by reference. */
  ghost function RecordsAfter(rs: seq<Record>, t: map<Key, Row>, call: Call<array<Bits>>): seq<Record> {
    match call
    case Save(key, v, _, _) => PutRecord(rs, Record(key, v))
    case Delete(scope) => Survivors(rs, scope)
    case Rename(oldPath, newPath) => if RenameConflicts(t, oldPath, newPath) then rs else AllRepointed(rs, oldPath, newPath)
    case Copy(srcPath, dstPath) =>
      var kept := Survivors(rs, OfNote(dstPath));
      kept + Copies(kept, srcPath, dstPath)
  }

  /** The operation a call stands for, with its vector read. */
  ghost function Meaning(call: Call<array<Bits>>): Call<seq<Bits>>
    reads if call.Save? then {call.vector} else {}
  {
    match call
    case Save(key, v, model, now) => Embeddings.Save(key, v[..], model, now)
    case Delete(scope) => Embeddings.Delete(scope)
    case Rename(oldPath, newPath) => Embeddings.Rename(oldPath, newPath)
    case Copy(srcPath, dstPath) => Embeddings.Copy(srcPath, dstPath)
  }

  lemma {:induction false} RecordsHold(rs: seq<Record>, t: map<Key, Row>, call: Call<array<Bits>>)
    ensures Contents(RecordsAfter(rs, t, call)) == CacheAfter(Contents(rs), t, Meaning(call))
  {
    match call
    case Save(key, v, _, _) => PutRecordHolds(rs, Record(key, v));
    case Delete(scope) => SurvivorsHold(rs, scope);
    case Rename(oldPath, newPath) => RepointedHold(rs, oldPath, newPath);
    case Copy(srcPath, dstPath) =>
      var kept := Survivors(rs, OfNote(dstPath));
      SurvivorsHold(rs, OfNote(dstPath));
      CopiesHold(kept, srcPath, dstPath);
      ContentsConcat(kept, Copies(kept, srcPath, dstPath));
  }

  class Store {
    var table: map<Key, Row>
    var cache: array<Record>  // the backing array of the slice
    var len: nat              // the length of the slice

    ghost predicate Valid()
      reads this
    {
      len <= cache.Length
    }

    ghost function Records(): seq<Record>
      requires Valid()
      reads this, cache
    {
      cache[..len]
    }

    /** A store opened on whatever the table holds; its cache is empty until `LoadAll`. */
    constructor (rows: map<Key, Row>)
      ensures Valid() && fresh(cache) && table == rows && Records() == []
    {
      table := rows;
      cache := new Record[0];
      len := 0;
    }

    /** Append to the slice: in place while the backing array has room, else into a larger copy. */
    method Append(r: Record)
      requires Valid()
      modifies this, cache
      ensures Valid() && table == old(table) && (cache == old(cache) || fresh(cache))
      ensures Records() == old(Records()) + [r]
    {
      if len == cache.Length {
        var bigger := new Record[2 * len + 1](_ => r);
        for i := 0 to len
          invariant bigger[..i] == cache[..i]
          modifies bigger
        {
          bigger[i] := cache[i];
        }
        cache := bigger;
      }
      cache[len] := r;
      len := len + 1;
    }

    method Save(key: Key, embedding: array<Bits>, model: string, now: int)
      requires Valid()
      modifies this, cache
      ensures Valid() && (cache == old(cache) || fresh(cache))
      ensures table == TableAfter(old(table), Embeddings.Save(key, embedding[..], model, now))
      ensures Records() == PutRecord(old(Records()), Record(key, embedding))
    {
      var blob := FloatsToBytes(embedding);
      table := table[key := Row(blob[..], model, now)];
      PutInCache(Record(key, embedding));
    }

    /** Overwrite the record with this key, or append one. The vector itself is not copied. */
    method PutInCache(r: Record)
      requires Valid()
      modifies this, cache
      ensures Valid() && table == old(table) && (cache == old(cache) || fresh(cache))
      ensures Records() == PutRecord(old(Records()), r)
    {
      var buf, n := cache, len;
      ghost var before := buf[..n];
      for i := 0 to n
        invariant forall j :: 0 <= j < i ==> before[j].key != r.key
        invariant buf[..n] == before
        modifies buf
      {
        if buf[i].key == r.key {
          buf[i] := buf[i].(embedding := r.embedding);
          assert buf[..n] == before[i := r];
          PutRecordAt(before, i, r);
          return;
        }
      }
      Append(r);
      PutRecordAt(before, n, r);
    }

    /** Filtering the slice onto itself: the write position never passes the read position. */
    method DropFromCache(scope: Scope)
      requires Valid()
      modifies this`len, cache
      ensures Valid() && Records() == Survivors(old(Records()), scope)
    {
      var buf, n, kept := cache, len, 0;
      ghost var before := buf[..n];
      for i := 0 to n
        invariant kept <= i
        invariant buf[..kept] == Survivors(before[..i], scope)
        invariant forall j :: i <= j < n ==> buf[j] == before[j]
        modifies buf
      {
        assert before[..i + 1][..i] == before[..i];
        var r := buf[i];
        if !Covers(scope, r.key) {
          buf[kept] := r;
          kept := kept + 1;
        }
      }
      assert before[..n] == before;
      len := kept;
    }

    /** `DeletePage` and `Delete`. */
    method DeleteScope(scope: Scope)
      requires Valid()
      modifies this, cache
      ensures Valid() && cache == old(cache)
      ensures table == TableAfter(old(table), Delete(scope))
      ensures Records() == Survivors(old(Records()), scope)
      ensures forall k :: k in table <==> k in old(table) && (k.notePath != scope.path || (scope.OfPage? && k.page != scope.page))
      ensures forall k :: k in table ==> table[k] == old(table)[k]
      ensures forall r :: r in Records() <==>
                          r in old(Records()) && (r.key.notePath != scope.path || (scope.OfPage? && r.key.page != scope.page))
    {
      ghost var before := Records();
      table := Without(table, scope);
      DropFromCache(scope);
      SurvivorsAre(before, scope);
    }

    method Rename(oldPath: string, newPath: string) returns (ok: bool)
      requires Valid()
      modifies this, cache
      ensures Valid() && cache == old(cache)
      ensures ok <==> !RenameConflicts(old(table), oldPath, newPath)
      ensures table == TableAfter(old(table), Embeddings.Rename(oldPath, newPath))
      ensures Records() == if ok then AllRepointed(old(Records()), oldPath, newPath) else old(Records())
    {
      if RenameConflicts(table, oldPath, newPath) {
        return false;
      }
      table := Without(table, OfNote(oldPath)) + Moved(table, oldPath, newPath);
      var buf, n := cache, len;
      ghost var before := buf[..n];
      for i := 0 to n
        invariant forall j :: 0 <= j < i ==> buf[j] == Repointed(before[j], oldPath, newPath)
        invariant forall j :: i <= j < n ==> buf[j] == before[j]
        modifies buf
      {
        if buf[i].key.notePath == oldPath {
          buf[i] := buf[i].(key := buf[i].key.(notePath := newPath));
        }
      }
      return true;
    }

    /** The records a copy adds: the source's, under the destination's path, with the same vectors. */
    method CopiesOf(srcPath: string, dstPath: string) returns (dup: seq<Record>)
      requires Valid()
      ensures dup == Copies(Records(), srcPath, dstPath)
    {
      dup := [];
      for i := 0 to len
        invariant dup == Copies(cache[..i], srcPath, dstPath)
      {
        assert cache[..i + 1][..i] == cache[..i];
        if cache[i].key.notePath == srcPath {
          dup := dup + [Record(cache[i].key.(notePath := dstPath), cache[i].embedding)];
        }
      }
    }

    method Copy(srcPath: string, dstPath: string)
      requires Valid()
      modifies this, cache
      ensures Valid() && (cache == old(cache) || fresh(cache))
      ensures table == TableAfter(old(table), Embeddings.Copy(srcPath, dstPath))
      ensures var kept := Survivors(old(Records()), OfNote(dstPath));
              Records() == kept + Copies(kept, srcPath, dstPath)
    {
      var cleared := Without(table, OfNote(dstPath));
      table := cleared + Moved(cleared, srcPath, dstPath);
      DropFromCache(OfNote(dstPath));
      var dup := CopiesOf(srcPath, dstPath);
      AppendAll(dup);
    }

    method AppendAll(rs: seq<Record>)
      requires Valid()
      modifies this, cache
      ensures Valid() && table == old(table) && (cache == old(cache) || fresh(cache))
      ensures Records() == old(Records()) + rs
    {
      for i := 0 to |rs|
        invariant Valid() && table == old(table) && (cache == old(cache) || fresh(cache))
        invariant Records() == old(Records()) + rs[..i]
      {
        Append(rs[i]);
      }
    }

    /** The rows of the table as records, in whatever order they come. */
    method ReadRows() returns (records: seq<Record>, ghost entries: seq<Entry>)
      ensures |records| == |table| && Reads(records, entries)
      ensures Agrees(entries, table)
    {
      records, entries := [], [];
      var rest := table.Keys;
      while rest != {}
        invariant rest <= table.Keys && |records| + |rest| == |table|
        invariant Reads(records, entries)
        invariant NoDuplicates(entries)
        invariant forall k :: Lookup(entries, k) == if k in rest then None else Stored(table, k)
      {
        var key :| key in rest;
        var vector := BytesToFloats(table[key].embedding);
        OneMore(entries, Entry(key, vector[..]));
        ReadsOneMore(records, entries, Record(key, vector));
        records, entries := records + [Record(key, vector)], entries + [Entry(key, vector[..])];
        rest := rest - {key};
      }
    }

    /** A fresh backing array that holds just these records. */
    method Install(records: seq<Record>)
      requires Valid()
      modifies this
      ensures Valid() && table == old(table) && fresh(cache)
      ensures Records() == records
    {
      cache := new Record[|records|](i requires 0 <= i < |records| => records[i]);
      len := |records|;
    }

    /** On startup: read the whole table. */
    method LoadAll() returns (n: nat)
      requires Valid()
      modifies this
      ensures Valid() && table == old(table) && fresh(cache)
      ensures n == |table| == len && Agrees(Contents(Records()), table)
    {
      var records, entries := ReadRows();
      n := |records|;
      Install(records);
      ReadsAreContents(records, entries);
    }

    /** The cached records with their vectors copied. */
    method CopyAll() returns (copies: seq<Record>)
      requires Valid()
      ensures Reads(copies, old(Contents(Records())))
      ensures forall j :: 0 <= j < |copies| ==> fresh(copies[j].embedding)
    {
      ghost var entries := Contents(Records());
      ContentsAreReads(Records());
      copies := [];
      for i := 0 to len
        invariant Reads(copies, entries[..i])
        invariant forall j :: 0 <= j < |copies| ==> fresh(copies[j].embedding)
      {
        assert Records()[i] == cache[i];
        var vector := CopyVector(cache[i].embedding);
        ReadsOneMore(copies, entries[..i], Record(cache[i].key, vector));
        assert entries[..i + 1] == entries[..i] + [entries[i]];
        copies := copies + [Record(cache[i].key, vector)];
      }
    }

    /** A snapshot that shares no vector with the cache, so nobody who holds it can disturb the store. */
    method AllEmbeddings() returns (out: array<Record>)
      requires Valid()
      ensures fresh(out) && Contents(out[..]) == Contents(Records())
      ensures forall i :: 0 <= i < out.Length ==> fresh(out[i].embedding)
    {
      ghost var entries := Contents(Records());
      var copies := CopyAll();
      out := new Record[|copies|](i requires 0 <= i < |copies| => copies[i]);
      assert out[..] == copies;
      ReadsAreContents(copies, entries);
      VectorsKept(Records());
    }

    /** Every operation does to the table and to what the cache holds what its value-level form says. */
    method Perform(call: Call<array<Bits>>)
      requires Valid()
      modifies this, cache
      ensures Valid() && (cache == old(cache) || fresh(cache))
      ensures table == TableAfter(old(table), Meaning(call))
      ensures Contents(Records()) == CacheAfter(old(Contents(Records())), old(table), Meaning(call))
    {
      ghost var rs := Records();
      match call {
        case Save(key, v, model, now) => Save(key, v, model, now);
        case Delete(scope) => DeleteScope(scope);
        case Rename(oldPath, newPath) => var ok := Rename(oldPath, newPath);
        case Copy(srcPath, dstPath) => Copy(srcPath, dstPath);
      }
      VectorsKept(rs);
      RecordsHold(rs, old(table), call);
    }

    method PerformNext(call: Call<array<Bits>>)
      requires Valid() && Agrees(Contents(Records()), table)
      modifies this, cache
      ensures Valid() && (cache == old(cache) || fresh(cache))
      ensures Agrees(Contents(Records()), table)
    {
      ghost var c, t, meaning := Contents(Records()), table, Meaning(call);
      Perform(call);
      StepKeepsAgreement(c, t, meaning);
    }

    /** Once the cache agrees with the table, it does after every sequential run of the operations. */
    method PerformAll(calls: seq<Call<array<Bits>>>)
      requires Valid() && Agrees(Contents(Records()), table)
      modifies this, cache
      ensures Valid() && Agrees(Contents(Records()), table)
    {
      for i := 0 to |calls|
        invariant Valid() && (cache == old(cache) || fresh(cache))
        invariant Agrees(Contents(Records()), table)
      {
        PerformNext(calls[i]);
      }
    }

    method CopyVector(v: array<Bits>) returns (w: array<Bits>)
      ensures fresh(w) && w[..] == v[..]
    {
      w := new Bits[v.Length];
      for i := 0 to v.Length
        invariant w[..i] == v[..i]
      {
        w[i] := v[i];
      }
    }
  }
}
