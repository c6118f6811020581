/**
 The document store: the two tables as the fields of one object, and the
 operations the HTTP handlers run on it. The operations that complete a
 request (`PutDocuments`, `PutOne`, `PostDocuments`, `Delete`) keep the rowid
 bijection between `documents` and `documents_fts` (`Valid`), and say what a
 reader sees afterwards (`Contents`) in terms of what it saw before. The steps
 inside the upsert transaction need not keep it: `InsertOrIgnore` leaves new
 ids without FTS rows, and a failed `PutChunk` or `PutChunks` promises nothing
 about the state the transaction then discards.
 */
module Store {
  import opened Wrappers
  import opened Tables
  import opened Chunking
  import SearchQuery

  /** `const chunkSize = 200` of the bulk upsert. */
  const ChunkSize: nat := 200

  /** `LIMIT 100` of the search statement. */
  const SearchLimit: nat := 100

  const UnexpectedMessage: string := "Unexpected error"
  const DuplicateIdMessage: string := "Documents should have unique id."

  /** The cardinality guard passes in every chunk: no chunk repeats an id. */
  ghost predicate ChunksDistinct(docs: seq<Document>)
  {
    forall j :: 0 <= j < |Chunks(docs, ChunkSize)| ==> DistinctIds(Chunks(docs, ChunkSize)[j])
  }

  /** The guard passed in each of the first `k` chunks. */
  ghost predicate FirstChunksDistinct(docs: seq<Document>, k: nat)
  {
    forall j :: 0 <= j < k && j < |Chunks(docs, ChunkSize)| ==> DistinctIds(Chunks(docs, ChunkSize)[j])
  }

  lemma FirstChunksStep(docs: seq<Document>, k: nat)
    requires FirstChunksDistinct(docs, k)
    requires k < |Chunks(docs, ChunkSize)| && DistinctIds(Chunks(docs, ChunkSize)[k])
    ensures FirstChunksDistinct(docs, k + 1)
  {
  }

  /** A chunk that fails the guard makes the batch fail it. */
  lemma ChunkNotDistinct(docs: seq<Document>, k: nat)
    requires k < |Chunks(docs, ChunkSize)| && !DistinctIds(Chunks(docs, ChunkSize)[k])
    ensures !ChunksDistinct(docs)
  {
  }

  predicate NoDuplicates<T(==)>(s: seq<T>)
  {
    forall i, j :: 0 <= i < j < |s| ==> s[i] != s[j]
  }

  /** No two FTS rows hold the same document (true of a consistent store, whose rows carry distinct ids). */
  ghost predicate RowsDistinct(x: Index)
  {
    forall r, r' :: r in x && r' in x && x[r] == x[r'] ==> r == r'
  }

  /**
   The rowid SQLite gives a new row of a table without AUTOINCREMENT: one more
   than the largest rowid in use, or 1 in an empty table. It is fresh with
   respect to the rowids in use, but a deleted largest rowid is handed out
   again.
   */
  method NextRowId(p: Primary) returns (r: int)
    requires RowIdsPositive(p)
    ensures r > 0
    ensures forall id :: id in p ==> p[id] < r
    ensures p == map[] ==> r == 1
    ensures p != map[] ==> r - 1 in p.Values
  {
    var rest := p.Keys;
    r := 1;
    while rest != {}
      invariant rest <= p.Keys
      invariant r > 0
      invariant forall id :: id in p && id !in rest ==> p[id] < r
      invariant p.Keys - rest != {} ==> r - 1 in p.Values
      invariant p.Keys - rest == {} ==> r == 1
      decreases rest
    {
      var id :| id in rest;
      if p[id] >= r {
        r := p[id] + 1;
      }
      rest := rest - {id};
    }
    if p != map[] {
      ghost var id :| id in p;
    }
  }

  /** The prefix of a batch up to `j` is the prefix up to `i` followed by the slice between them. */
  lemma PrefixExtend<T>(s: seq<T>, i: int, j: int)
    requires 0 <= i <= j <= |s|
    ensures s[..j] == s[..i] + s[i..j]
  {
  }

  /** A batch of distinct ids passes the guard in every chunk. */
  lemma DistinctBatchChunks(docs: seq<Document>)
    requires DistinctIds(docs)
    ensures ChunksDistinct(docs)
  {
    forall j | 0 <= j < |Chunks(docs, ChunkSize)| ensures DistinctIds(Chunks(docs, ChunkSize)[j]) {
      ChunkCount(docs, ChunkSize, j);
      ChunkAt(docs, ChunkSize, j);
      DistinctIdsSlice(docs, j * ChunkSize, Min(j * ChunkSize + ChunkSize, |docs|));
    }
  }

  /**
   The FTS query `SELECT ... WHERE content MATCH ? LIMIT 100`: the rows whose
   content column the engine's MATCH accepts (`matches` stands for FTS5 with
   the store's tokenizer), at most `SearchLimit` of them, none twice, and all
   of them when fewer than the limit match.
   */
  method MatchRows(x: Index, expr: string, matches: (string, string) -> bool) returns (rows: seq<Document>)
    requires RowsDistinct(x)
    ensures |rows| <= SearchLimit
    ensures forall i :: 0 <= i < |rows| ==> rows[i] in x.Values && matches(expr, rows[i].content)
    ensures NoDuplicates(rows)
    ensures |rows| < SearchLimit ==> forall r :: r in x && matches(expr, x[r].content) ==> x[r] in rows
  {
    var rest := x.Keys;
    rows := [];
    ghost var picked: seq<int> := [];
    while rest != {} && |rows| < SearchLimit
      invariant Scanned(x, expr, matches, rest, rows, picked)
      decreases rest
    {
      var rowid := Pick(rest);
      ScanStep(x, expr, matches, rest, rows, picked, rowid);
      if matches(expr, x[rowid].content) {
        rows, picked := rows + [x[rowid]], picked + [rowid];
      }
      rest := rest - {rowid};
    }
    forall i | 0 <= i < |rows| ensures rows[i] in x.Values {
      assert x[picked[i]] == rows[i];
    }
  }

  /** Some element of a non-empty set: the order in which the engine scans the FTS table is not modelled. */
  method Pick<T>(s: set<T>) returns (e: T)
    requires s != {}
    ensures e in s
  {
    e :| e in s;
  }

  /** A key under which a map holds a given value. */
  lemma KeyOf<K, V>(m: map<K, V>, v: V) returns (k: K)
    requires v in m.Values
    ensures k in m && m[k] == v
  {
    k :| k in m && m[k] == v;
  }

  /**
   The state of the scan of `MatchRows`: `rows` holds the matching rows at the
   rowids already visited (those outside `rest`), each once; `picked` gives
   the rowid of each; no more than `SearchLimit` are taken.
   */
  ghost predicate Scanned(x: Index, expr: string, matches: (string, string) -> bool, rest: set<int>, rows: seq<Document>, picked: seq<int>)
  {
    && RowsDistinct(x)
    && rest <= x.Keys
    && |rows| <= SearchLimit && |picked| == |rows|
    && (forall i :: 0 <= i < |rows| ==> picked[i] in x && picked[i] !in rest && x[picked[i]] == rows[i])
    && (forall i :: 0 <= i < |rows| ==> matches(expr, rows[i].content))
    && NoDuplicates(rows)
    && (forall r :: r in x && r !in rest && matches(expr, x[r].content) ==> x[r] in rows)
  }

  lemma ScanStep(x: Index, expr: string, matches: (string, string) -> bool, rest: set<int>, rows: seq<Document>, picked: seq<int>, rowid: int)
    requires Scanned(x, expr, matches, rest, rows, picked)
    requires rowid in rest && |rows| < SearchLimit
    ensures matches(expr, x[rowid].content) ==> Scanned(x, expr, matches, rest - {rowid}, rows + [x[rowid]], picked + [rowid])
    ensures !matches(expr, x[rowid].content) ==> Scanned(x, expr, matches, rest - {rowid}, rows, picked)
  {
    forall i | 0 <= i < |rows| ensures rows[i] != x[rowid] {
      assert x[picked[i]] == rows[i] && picked[i] != rowid;
    }
    var rows' := rows + [x[rowid]];
    if matches(expr, x[rowid].content) {
      forall i, j | 0 <= i < j < |rows'| ensures rows'[i] != rows'[j] {
        assert rows'[i] == rows[i];
        if j < |rows| { assert rows'[j] == rows[j]; } else { assert rows'[j] == x[rowid]; }
      }
    }
  }

  class DocumentStore {
    var documents: Primary  // `documents (id TEXT PRIMARY KEY)`: id -> rowid
    var fts: Index          // `documents_fts (id UNINDEXED, title, content)`: rowid -> row

    /** The two tables are in rowid bijection. */
    ghost predicate Valid()
      reads this
    {
      Consistent(documents, fts)
    }

    /** Every document a reader can get by id. */
    function Contents(): map<string, Document>
      reads this
    {
      View(documents, fts)
    }

    /** A fresh database: both `CREATE ... IF NOT EXISTS` statements create empty tables. */
    constructor ()
      ensures Valid() && documents == map[] && fts == map[]
    {
      documents := map[];
      fts := map[];
    }

    /** The GET handler: the FTS row at the rowid of `id`, or nothing (404). */
    function Get(id: string): (r: Option<Document>)
      reads this
      requires Valid()
      ensures r.Some? <==> id in documents
      ensures r.Some? ==> r.value.id == id && r.value == Contents()[id]
    {
      LookupConsistent(documents, fts, id);
      Lookup(documents, fts, id)
    }

    /**
     `INSERT OR IGNORE INTO documents (id) VALUES ...`: ids already present
     keep their rowids; every other id gets a new row at a rowid no row used
     before (`Grown`). Re-running it on stored ids changes nothing.
     */
    method InsertOrIgnore(ids: seq<string>)
      requires Injective(documents) && RowIdsPositive(documents)
      modifies this`documents
      ensures Grown(old(documents), documents, Elems(ids))
      ensures (forall i :: 0 <= i < |ids| ==> ids[i] in old(documents)) ==> documents == old(documents)
    {
      var p := documents;
      ghost var p0 := documents;
      var j := 0;
      while j < |ids|
        invariant 0 <= j <= |ids|
        invariant documents == p0
        invariant Grown(p0, p, Elems(ids[..j]))
      {
        var id := ids[j];
        ElemsPrefix(ids, j);
        if id !in p {
          var r := NextRowId(p);
          GrowFresh(p0, p, Elems(ids[..j]), id, r);
          p := p[id := r];
        }
        j := j + 1;
      }
      assert ids[..j] == ids;
      assert Grown(p0, p, Elems(ids));
      if forall i :: 0 <= i < |ids| ==> ids[i] in p0 {
        GrownByStored(p0, p, Elems(ids));
      }
      documents := p;
    }

    /**
     One pass of the chunk loop: resolve or create the rowids, re-select them,
     check that there is one per document, delete the FTS rows at those rowids
     and insert the chunk's rows. The guard fails exactly when the chunk repeats
     an id; `documents` is then left with the inserted ids, which the enclosing
     transaction rolls back.
     */
    method PutChunk(chunk: seq<Document>) returns (ok: bool)
      requires Valid()
      modifies this
      ensures ok <==> DistinctIds(chunk)
      ensures ok ==> Upserted(old(documents), old(fts), documents, fts, chunk)
      ensures !ok ==> fts == old(fts)
    {
      ghost var p0, x0 := documents, fts;
      ConsistentInjective(documents, fts);
      var ids := Ids(chunk);
      InsertOrIgnore(ids);
      ElemsIds(chunk);
      var idToRowId := Resolve(documents, ids);
      GuardIff(documents, chunk);
      if |chunk| != |idToRowId| {
        return false;
      }
      fts := Purge(fts, idToRowId.Values);
      fts := fts + NewRows(chunk, idToRowId);
      ChunkUpsert(p0, x0, documents, chunk);
      ok := true;
    }

    /**
     The function that `putDocumentsTxn` runs inside its transaction: the chunk
     loop, which stops at the first chunk whose guard fails. When every chunk
     passes, the store has been written with the whole batch. After a failure
     the tables hold whatever the earlier chunks and the failing chunk's
     `INSERT OR IGNORE` left, which the transaction discards.
     */
    method PutChunks(docs: seq<Document>) returns (ok: bool)
      requires Valid()
      modifies this
      ensures ok <==> ChunksDistinct(docs)
      ensures ok ==> Upserted(old(documents), old(fts), documents, fts, docs)
    {
      ghost var p0, x0 := documents, fts;
      ghost var cs := Chunks(docs, ChunkSize);
      var i := 0;
      ghost var k: nat := 0;
      ghost var done: seq<Document> := [];
      ChunkCount(docs, ChunkSize, 0);
      UpsertedNothing(documents, fts);
      while i < |docs|
        invariant i == k * ChunkSize && k <= |cs|
        invariant i < |docs| <==> k < |cs|
        invariant FirstChunksDistinct(docs, k)
        invariant done == docs[..Min(i, |docs|)]
        invariant Upserted(p0, x0, documents, fts, done)
      {
        var chunk := docs[i..Min(i + ChunkSize, |docs|)];
        ChunkAt(docs, ChunkSize, k);
        assert chunk == cs[k];
        ghost var p, x := documents, fts;
        ok := PutChunk(chunk);
        if !ok {
          ChunkNotDistinct(docs, k);
          return;
        }
        FirstChunksStep(docs, k);
        UpsertedAppend(p0, x0, p, x, documents, fts, done, chunk);
        PrefixExtend(docs, i, Min(i + ChunkSize, |docs|));
        done := done + chunk;
        i := i + ChunkSize;
        k := k + 1;
        ChunkCount(docs, ChunkSize, k);
      }
      assert done == docs;
      ok := true;
    }

    /**
     `putDocumentsTxn`: the chunk loop inside one `db.transaction`. On success
     every document of the batch is stored, a later document of an id
     replacing an earlier one; ids already stored keep their rowids and new ids
     get rowids no stored row had. If the guard fails in any chunk, the
     transaction rolls every chunk back and the error propagates.
     */
    method PutDocuments(docs: seq<Document>) returns (s: Status)
      requires Valid()
      modifies this
      ensures Valid()
      ensures s.Success? <==> ChunksDistinct(docs)
      ensures s.Failure? ==> s.message == UnexpectedMessage && documents == old(documents) && fts == old(fts)
      ensures s.Success? ==> Upserted(old(documents), old(fts), documents, fts, docs)
    {
      var savedDocuments, savedFts := documents, fts;
      var ok := PutChunks(docs);
      if !ok {
        documents, fts := savedDocuments, savedFts;
        return Failure(UnexpectedMessage);
      }
      s := Success;
    }

    /** The PUT handler: upsert one document, which always succeeds and is then what its id reads as. */
    method PutOne(id: string, title: string, content: string) returns (s: Status)
      requires Valid()
      modifies this
      ensures s == Success && Valid()
      ensures Get(id) == Some(Document(id, title, content))
      ensures Contents() == old(Contents())[id := Document(id, title, content)]
      ensures Extends(old(documents), documents) && documents.Keys == old(documents).Keys + {id}
    {
      var d := Document(id, title, content);
      DistinctBatchChunks([d]);
      ghost var v0 := Contents();
      s := PutDocuments([d]);
      OverlaySingle(v0, d);
      assert IdSet([d]) == {id};
      LookupConsistent(documents, fts, id);
    }

    /**
     The POST handler: an empty batch succeeds without touching the store; a
     batch that repeats an id is rejected before either table is touched;
     any other batch is upserted, which cannot fail the guard.
     */
    method PostDocuments(docs: seq<Document>) returns (s: Status)
      requires Valid()
      modifies this
      ensures Valid()
      ensures s.Success? <==> DistinctIds(docs)
      ensures s.Failure? ==> s.message == DuplicateIdMessage && documents == old(documents) && fts == old(fts)
      ensures docs == [] ==> documents == old(documents) && fts == old(fts)
      ensures s.Success? ==> Contents() == Overlay(old(Contents()), docs)
      ensures s.Success? ==> forall i :: 0 <= i < |docs| ==> Get(docs[i].id) == Some(docs[i])
      ensures s.Success? ==> forall id :: id !in IdSet(docs) ==> Get(id) == old(Get(id))
      ensures s.Success? ==> Extends(old(documents), documents)
    {
      if |docs| == 0 {
        return Success;
      }
      DistinctIdsCard(docs);
      if |IdSet(docs)| != |docs| {
        return Failure(DuplicateIdMessage);
      }
      DistinctBatchChunks(docs);
      ghost var v0 := Contents();
      s := PutDocuments(docs);
      forall i | 0 <= i < |docs| ensures Get(docs[i].id) == Some(docs[i]) {
        OverlayDistinct(v0, docs, i);
        LookupConsistent(documents, fts, docs[i].id);
      }
      forall id | id !in IdSet(docs) ensures Get(id) == old(Get(id)) {
        OverlayLatest(v0, docs, id);
        LookupConsistent(old(documents), old(fts), id);
        LookupConsistent(documents, fts, id);
      }
    }

    /**
     The DELETE handler: find the rowid of `id`; without one the answer is not
     found (404) and nothing changes; otherwise one transaction deletes the
     `documents` row and the FTS row at that rowid, and only that document is
     gone.
     */
    method Delete(id: string) returns (found: bool)
      requires Valid()
      modifies this
      ensures Valid()
      ensures found <==> id in old(documents)
      ensures !found ==> documents == old(documents) && fts == old(fts)
      ensures found ==> documents == old(documents) - {id} && fts == old(fts) - {old(documents)[id]}
      ensures Get(id) == None
      ensures Contents() == old(Contents()) - {id}
    {
      var rowId := if id in documents then Some(documents[id]) else None;
      if rowId.None? {
        LookupConsistent(documents, fts, id);
        assert Contents() == old(Contents()) - {id};
        return false;
      }
      DeleteRow(documents, fts, id);
      documents := RemoveRowId(documents, rowId.value);
      fts := fts - {rowId.value};
      LookupConsistent(documents, fts, id);
      found := true;
    }

    /**
     The `/search` handler: an absent or empty `q` is rejected with the
     source's message; otherwise the MATCH expression built from `q` (with
     FTS5's own quoting, see `SearchQuery.BuildFts5Match`; on a `q` without
     quotes, backslashes or control characters it is the expression `JSON.stringify`
     builds, see `SearchQuery.BuildersAgree`) selects at
     most `SearchLimit` stored documents whose content matches it, none twice,
     and every match when fewer than the limit match.
     */
    method Search(q: Option<string>, matches: (string, string) -> bool) returns (r: Result<seq<Document>>)
      requires Valid()
      ensures r.Err? <==> q == None || q == Some([])
      ensures r.Err? ==> r.message == SearchQuery.EmptyQueryMessage
      ensures r.Ok? ==>
        var expr := SearchQuery.BuildFts5Match(q).value;
        && |r.value| <= SearchLimit
        && NoDuplicates(r.value)
        && (forall i :: 0 <= i < |r.value| ==>
              r.value[i].id in Contents() && Contents()[r.value[i].id] == r.value[i] && matches(expr, r.value[i].content))
        && (|r.value| < SearchLimit ==>
              forall id :: id in Contents() && matches(expr, Contents()[id].content) ==> Contents()[id] in r.value)
    {
      var m := SearchQuery.BuildFts5Match(q);
      if m.Err? {
        return Err(m.message);
      }
      assert RowsDistinct(fts);
      var rows := MatchRows(fts, m.value, matches);
      forall i | 0 <= i < |rows| ensures rows[i].id in Contents() && Contents()[rows[i].id] == rows[i] {
        var rid := KeyOf(fts, rows[i]);
      }
      r := Ok(rows);
    }
  }
}
