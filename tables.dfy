/**
 The two tables of the document store, as values.

 - `documents` (`id TEXT PRIMARY KEY` with SQLite's implicit integer rowid) is a
   map from id to rowid.
 - `documents_fts` (an FTS5 table with columns id, title, content) is a map
   from rowid to the row it holds.

 The statements the upsert, the delete and the lookups run on them are
 functions here; the class in module Store applies them in the order the
 source does.
 */
module Tables {
  import opened Wrappers

  datatype Document = Document(id: string, title: string, content: string)

  type Primary = map<string, int>  // documents: id -> rowid
  type Index = map<int, Document>  // documents_fts: rowid -> (id, title, content)

  /**
   The two tables are in rowid bijection: every id of `documents` has an FTS
   row at its rowid carrying that id, and every FTS row sits at the rowid of
   the `documents` row of its id. Rowids are positive, as SQLite allocates them.
   */
  ghost predicate Consistent(p: Primary, x: Index)
  {
    && (forall id :: id in p ==> p[id] > 0 && p[id] in x && x[p[id]].id == id)
    && (forall r :: r in x ==> x[r].id in p && p[x[r].id] == r)
  }

  ghost predicate Injective(p: Primary)
  {
    forall a, b :: a in p && b in p && p[a] == p[b] ==> a == b
  }

  ghost predicate RowIdsPositive(p: Primary)
  {
    forall id :: id in p ==> p[id] > 0
  }

  /** Every id of `p0` is still in `p1`, with the same rowid. */
  ghost predicate Extends(p0: Primary, p1: Primary)
  {
    forall id :: id in p0 ==> id in p1 && p1[id] == p0[id]
  }

  /**
   `SELECT id, title, content FROM documents_fts WHERE rowid =
   (SELECT rowid FROM documents WHERE id = ?)`: no row when the id is unknown
   (the subquery yields NULL) or when no FTS row sits at its rowid.
   */
  function Lookup(p: Primary, x: Index, id: string): Option<Document>
  {
    if id in p && p[id] in x then Some(x[p[id]]) else None
  }

  /** What a reader sees through `Lookup`, as one map from id to document. */
  function View(p: Primary, x: Index): map<string, Document>
  {
    map id | id in p && p[id] in x :: x[p[id]]
  }

  function Ids(docs: seq<Document>): (ids: seq<string>)
    ensures |ids| == |docs| && forall i :: 0 <= i < |docs| ==> ids[i] == docs[i].id
  {
    seq(|docs|, i requires 0 <= i < |docs| => docs[i].id)
  }

  /** `new Set(documents.map((d) => d.id))`. */
  function IdSet(docs: seq<Document>): set<string>
  {
    set i | 0 <= i < |docs| :: docs[i].id
  }

  predicate DistinctIds(docs: seq<Document>)
  {
    forall i, j :: 0 <= i < j < |docs| ==> docs[i].id != docs[j].id
  }

  /**
   The documents one would read after writing `docs` in order over `v`: a
   later write of an id replaces an earlier one.
   */
  function Overlay(v: map<string, Document>, docs: seq<Document>): map<string, Document>
    decreases |docs|
  {
    if docs == [] then v else Overlay(v[docs[0].id := docs[0]], docs[1..])
  }

  /** The ids of a list, as a set. */
  function Elems(ids: seq<string>): set<string>
  {
    set i | 0 <= i < |ids| :: ids[i]
  }

  /** `SELECT id, rowid FROM documents WHERE id IN (...)`, collected into a `Map`. */
  function Resolve(p: Primary, ids: seq<string>): (m: map<string, int>)
    ensures m.Keys == p.Keys * Elems(ids)
    ensures forall id :: id in m ==> m[id] == p[id]
  {
    map id | id in ids && id in p :: p[id]
  }

  /** `DELETE FROM documents_fts WHERE rowid IN (...)`. */
  function Purge(x: Index, rowids: set<int>): (y: Index)
    ensures y.Keys == x.Keys - rowids
    ensures forall r :: r in y ==> y[r] == x[r]
  {
    map r | r in x && r !in rowids :: x[r]
  }

  /**
   The rows of `INSERT INTO documents_fts (rowid, id, title, content)` for a
   chunk: a document whose id resolves to a truthy rowid is stored at that
   rowid; one without (`rowid ? [...] : []`) contributes nothing.
   */
  function NewRows(chunk: seq<Document>, resolved: map<string, int>): (rows: Index)
    ensures rows.Keys == set i | 0 <= i < |chunk| && chunk[i].id in resolved && resolved[chunk[i].id] != 0 :: resolved[chunk[i].id]
    ensures DistinctIds(chunk) && Injective(resolved) ==>
      forall i :: 0 <= i < |chunk| && chunk[i].id in resolved && resolved[chunk[i].id] != 0 ==> rows[resolved[chunk[i].id]] == chunk[i]
    decreases |chunk|
  {
    if chunk == [] then map[]
    else
      var d := chunk[0];
      var rest := NewRows(chunk[1..], resolved);
      assert forall i :: 1 <= i < |chunk| ==> chunk[i] == chunk[1..][i - 1];
      if d.id in resolved && resolved[d.id] != 0 then rest[resolved[d.id] := d] else rest
  }

  /** `DELETE FROM documents WHERE rowid = ?`. */
  function RemoveRowId(p: Primary, r: int): (q: Primary)
    ensures q.Keys == set id | id in p && p[id] != r
    ensures forall id :: id in q ==> q[id] == p[id]
  {
    map id | id in p && p[id] != r :: p[id]
  }

  /**
   `p1` is `p0` after `INSERT OR IGNORE` of the ids `added`: the ids of `p0`
   keep their rowids, every id of `added` has a row, every new row has a rowid
   that no row of `p0` had, and rowids stay distinct and positive.
   */
  ghost predicate Grown(p0: Primary, p1: Primary, added: set<string>)
  {
    && p1.Keys == p0.Keys + added
    && Extends(p0, p1)
    && Injective(p1) && RowIdsPositive(p1)
    && (forall id :: id in p1 && id !in p0 ==> p1[id] !in p0.Values)
  }

  /**
   `(p1, x1)` is the store `(p0, x0)` after writing `docs`: the tables are in
   bijection, the rows of `p0` kept their rowids and the ids of `docs` were
   added with fresh ones, and the store reads as the old one overwritten by
   `docs`, a later document of an id replacing an earlier one.
   */
  ghost predicate Upserted(p0: Primary, x0: Index, p1: Primary, x1: Index, docs: seq<Document>)
  {
    && Consistent(p1, x1)
    && Grown(p0, p1, IdSet(docs))
    && View(p1, x1) == Overlay(View(p0, x0), docs)
  }

  // ----- lemmas -----

  /** Writing nothing leaves a consistent store as it is. */
  lemma UpsertedNothing(p: Primary, x: Index)
    requires Consistent(p, x)
    ensures Upserted(p, x, p, x, [])
  {
    ConsistentInjective(p, x);
    assert IdSet([]) == {};
  }

  /** Two growths one after the other are one growth by both sets of ids. */
  lemma GrownTrans(p0: Primary, p1: Primary, p2: Primary, a: set<string>, b: set<string>)
    requires Grown(p0, p1, a) && Grown(p1, p2, b)
    ensures Grown(p0, p2, a + b)
  {
    forall id | id in p2 && id !in p0 ensures p2[id] !in p0.Values {
      if id in p1 {
        assert p2[id] == p1[id];
      } else {
        assert p2[id] !in p1.Values;
        forall k | k in p0 ensures p0[k] != p2[id] {
          assert p1[k] == p0[k];
        }
      }
    }
  }

  /** Writing `a` and then `b` is writing `a + b`. */
  lemma UpsertedAppend(p0: Primary, x0: Index, p1: Primary, x1: Index, p2: Primary, x2: Index, a: seq<Document>, b: seq<Document>)
    requires Upserted(p0, x0, p1, x1, a) && Upserted(p1, x1, p2, x2, b)
    ensures Upserted(p0, x0, p2, x2, a + b)
  {
    GrownTrans(p0, p1, p2, IdSet(a), IdSet(b));
    IdSetAppend(a, b);
    OverlayAppend(View(p0, x0), a, b);
  }

  /** `Ids` lists exactly the ids of the documents. */
  lemma ElemsIds(docs: seq<Document>)
    ensures Elems(Ids(docs)) == IdSet(docs)
  {
    var ids := Ids(docs);
    forall id | id in IdSet(docs) ensures id in Elems(ids) {
      var i :| 0 <= i < |docs| && docs[i].id == id;
      assert ids[i] == id;
    }
  }

  /** The guard of a chunk: after every id has a row, the re-selected map is as large as the chunk exactly when no id repeats. */
  lemma GuardIff(p1: Primary, chunk: seq<Document>)
    requires IdSet(chunk) <= p1.Keys
    ensures |Resolve(p1, Ids(chunk))| == |chunk| <==> DistinctIds(chunk)
  {
    ResolveChunk(p1, chunk);
    DistinctIdsCard(chunk);
  }

  /** Inserting a new id at a rowid above every rowid in use keeps `Grown`. */
  lemma GrowFresh(p0: Primary, p: Primary, added: set<string>, id: string, r: int)
    requires Grown(p0, p, added)
    requires id !in p && r > 0 && forall k :: k in p ==> p[k] < r
    ensures Grown(p0, p[id := r], added + {id})
  {
    var p1 := p[id := r];
    forall a, b | a in p1 && b in p1 && p1[a] == p1[b] ensures a == b {
      if a != id && b != id {
        assert p[a] == p[b];
      }
    }
    forall k0 | k0 in p0 ensures p0[k0] != r {
      assert p[k0] == p0[k0];
    }
    assert r !in p0.Values;
  }

  /** Growing by ids that are all stored already leaves the table as it was. */
  lemma GrownByStored(p0: Primary, p1: Primary, added: set<string>)
    requires Grown(p0, p1, added) && added <= p0.Keys
    ensures p1 == p0
  {
    assert p1.Keys == p0.Keys;
  }

  /** `Elems` of a list grown by one element. */
  lemma ElemsPrefix(ids: seq<string>, j: int)
    requires 0 <= j < |ids|
    ensures Elems(ids[..j + 1]) == Elems(ids[..j]) + {ids[j]}
  {
    var a, b := ids[..j + 1], ids[..j];
    forall x | x in Elems(a) ensures x in Elems(b) + {ids[j]} {
      var i :| 0 <= i < |a| && a[i] == x;
      if i < j { assert b[i] == x; }
    }
    forall x | x in Elems(b) ensures x in Elems(a) {
      var i :| 0 <= i < |b| && b[i] == x;
      assert a[i] == x;
    }
    assert a[j] == ids[j];
  }

  /** A consistent state shows every stored id through `Lookup`, carrying that id. */
  lemma LookupConsistent(p: Primary, x: Index, id: string)
    requires Consistent(p, x)
    ensures Lookup(p, x, id).Some? <==> id in p
    ensures Lookup(p, x, id).Some? ==> Lookup(p, x, id).value.id == id && Lookup(p, x, id).value == View(p, x)[id]
    ensures View(p, x).Keys == p.Keys
  {
  }

  lemma ConsistentInjective(p: Primary, x: Index)
    requires Consistent(p, x)
    ensures Injective(p) && RowIdsPositive(p)
  {
    forall a, b | a in p && b in p && p[a] == p[b] ensures a == b {
      assert x[p[a]].id == a && x[p[b]].id == b;
    }
  }

  lemma {:induction false} IdSetCons(docs: seq<Document>)
    requires docs != []
    ensures IdSet(docs) == {docs[0].id} + IdSet(docs[1..])
  {
    var t := docs[1..];
    forall id | id in IdSet(docs) ensures id in {docs[0].id} + IdSet(t) {
      var i :| 0 <= i < |docs| && docs[i].id == id;
      if i > 0 { assert t[i - 1].id == id; }
    }
    forall id | id in IdSet(t) ensures id in IdSet(docs) {
      var i :| 0 <= i < |t| && t[i].id == id;
      assert docs[i + 1].id == id;
    }
  }

  /** The duplicate check of the batch endpoint: ids are distinct exactly when the set of ids is as large as the batch. */
  lemma {:induction false} DistinctIdsCard(docs: seq<Document>)
    ensures |IdSet(docs)| <= |docs|
    ensures DistinctIds(docs) <==> |IdSet(docs)| == |docs|
    decreases |docs|
  {
    if docs == [] {
      assert IdSet(docs) == {};
    } else {
      var t := docs[1..];
      DistinctIdsCard(t);
      IdSetCons(docs);
      if docs[0].id in IdSet(t) {
        assert IdSet(docs) == IdSet(t);
        var i :| 0 <= i < |t| && t[i].id == docs[0].id;
        assert docs[0].id == docs[i + 1].id;
      } else {
        assert |IdSet(docs)| == |IdSet(t)| + 1;
        if DistinctIds(t) {
          forall i, j | 0 <= i < j < |docs| ensures docs[i].id != docs[j].id {
            if i == 0 {
              assert docs[j].id == t[j - 1].id;
            } else {
              assert docs[i].id == t[i - 1].id && docs[j].id == t[j - 1].id;
            }
          }
        } else {
          var i, j :| 0 <= i < j < |t| && t[i].id == t[j].id;
          assert docs[i + 1].id == docs[j + 1].id;
        }
      }
    }
  }

  lemma IdSetAppend(a: seq<Document>, b: seq<Document>)
    ensures IdSet(a + b) == IdSet(a) + IdSet(b)
  {
    var c := a + b;
    forall id | id in IdSet(c) ensures id in IdSet(a) + IdSet(b) {
      var i :| 0 <= i < |c| && c[i].id == id;
      if i >= |a| { assert b[i - |a|] == c[i]; }
    }
    forall id | id in IdSet(a) + IdSet(b) ensures id in IdSet(c) {
      if id in IdSet(a) {
        var i :| 0 <= i < |a| && a[i].id == id;
        assert c[i] == a[i];
      } else {
        var i :| 0 <= i < |b| && b[i].id == id;
        assert c[|a| + i] == b[i];
      }
    }
  }

  /** A slice of a batch with distinct ids has distinct ids. */
  lemma DistinctIdsSlice(docs: seq<Document>, lo: int, hi: int)
    requires 0 <= lo <= hi <= |docs|
    requires DistinctIds(docs)
    ensures DistinctIds(docs[lo..hi])
  {
    var s := docs[lo..hi];
    forall i, j | 0 <= i < j < |s| ensures s[i].id != s[j].id {
      assert s[i] == docs[lo + i] && s[j] == docs[lo + j];
    }
  }

  /** Writing two batches one after the other is writing their concatenation. */
  lemma {:induction false} OverlayAppend(v: map<string, Document>, a: seq<Document>, b: seq<Document>)
    ensures Overlay(v, a + b) == Overlay(Overlay(v, a), b)
    decreases |a|
  {
    if a != [] {
      assert (a + b)[0] == a[0] && (a + b)[1..] == a[1..] + b;
      OverlayAppend(v[a[0].id := a[0]], a[1..], b);
    } else {
      assert a + b == b;
    }
  }

  /**
   Latest write wins: after writing `docs`, an id of the batch reads as the last
   document of the batch carrying it, and any other id reads as before.
   */
  lemma {:induction false} OverlayLatest(v: map<string, Document>, docs: seq<Document>, id: string)
    ensures id in Overlay(v, docs) <==> id in v || id in IdSet(docs)
    ensures id !in IdSet(docs) && id in v ==> Overlay(v, docs)[id] == v[id]
    ensures id in IdSet(docs) ==>
      exists j :: (&& 0 <= j < |docs| && docs[j].id == id && Overlay(v, docs)[id] == docs[j]
                   && forall k :: j < k < |docs| ==> docs[k].id != id)
    decreases |docs|
  {
    if docs != [] {
      var d := docs[0];
      var t := docs[1..];
      var v' := v[d.id := d];
      OverlayLatest(v', t, id);
      IdSetCons(docs);
      if id in IdSet(t) {
        var j :| 0 <= j < |t| && t[j].id == id && Overlay(v', t)[id] == t[j] && forall k :: j < k < |t| ==> t[k].id != id;
        assert docs[j + 1] == t[j];
        forall k | j + 1 < k < |docs| ensures docs[k].id != id {
          assert docs[k] == t[k - 1];
        }
      } else if id == d.id {
        forall k | 0 < k < |docs| ensures docs[k].id != id {
          assert docs[k] == t[k - 1];
        }
      }
    }
  }

  /** Writing one document is setting its id. */
  lemma OverlaySingle(v: map<string, Document>, d: Document)
    ensures Overlay(v, [d]) == v[d.id := d]
  {
    assert [d][1..] == [];
  }

  /** For a batch of distinct ids, every document of the batch is what its id reads as. */
  lemma OverlayDistinct(v: map<string, Document>, docs: seq<Document>, i: int)
    requires DistinctIds(docs)
    requires 0 <= i < |docs|
    ensures docs[i].id in Overlay(v, docs) && Overlay(v, docs)[docs[i].id] == docs[i]
  {
    var id := docs[i].id;
    assert id in IdSet(docs);
    OverlayLatest(v, docs, id);
    var j :| 0 <= j < |docs| && docs[j].id == id && Overlay(v, docs)[id] == docs[j]
      && forall k :: j < k < |docs| ==> docs[k].id != id;
    assert i == j;
  }

  /** The FTS table after one chunk: the rows at the resolved rowids deleted, then the chunk's rows inserted. */
  function Reindex(x: Index, chunk: seq<Document>, resolved: map<string, int>): Index
  {
    Purge(x, resolved.Values) + NewRows(chunk, resolved)
  }

  /**
   One chunk of the upsert, after `INSERT OR IGNORE` has given every id of the
   chunk a row (old ids keeping their rowids, new ones fresh rowids): with the
   chunk's ids distinct, the re-selected map has one rowid per id; deleting the
   FTS rows at those rowids and inserting the chunk's rows keeps the two tables
   in bijection, and the store then reads as the old one overwritten by the
   chunk.
   */
  lemma ChunkUpsert(p0: Primary, x0: Index, p1: Primary, chunk: seq<Document>)
    requires Consistent(p0, x0)
    requires Grown(p0, p1, IdSet(chunk))
    requires DistinctIds(chunk)
    ensures |Resolve(p1, Ids(chunk))| == |chunk|
    ensures Upserted(p0, x0, p1, Reindex(x0, chunk, Resolve(p1, Ids(chunk))), chunk)
  {
    var resolved := Resolve(p1, Ids(chunk));
    ResolveChunk(p1, chunk);
    DistinctIdsCard(chunk);
    ChunkConsistent(p0, x0, p1, chunk, resolved);
    ChunkView(p0, x0, p1, chunk, resolved);
  }

  lemma ResolveChunk(p1: Primary, chunk: seq<Document>)
    requires IdSet(chunk) <= p1.Keys
    ensures Resolve(p1, Ids(chunk)).Keys == IdSet(chunk)
  {
    var ids := Ids(chunk);
    assert Elems(ids) == IdSet(chunk);
  }

  lemma ChunkConsistent(p0: Primary, x0: Index, p1: Primary, chunk: seq<Document>, resolved: map<string, int>)
    requires Consistent(p0, x0)
    requires Extends(p0, p1) && Injective(p1) && RowIdsPositive(p1)
    requires p1.Keys == p0.Keys + IdSet(chunk)
    requires DistinctIds(chunk)
    requires resolved.Keys == IdSet(chunk) && forall id :: id in resolved ==> resolved[id] == p1[id]
    ensures Consistent(p1, Reindex(x0, chunk, resolved))
  {
    var rows := NewRows(chunk, resolved);
    var x1 := Reindex(x0, chunk, resolved);
    assert Injective(resolved);
    forall id | id in p1 ensures p1[id] > 0 && p1[id] in x1 && x1[p1[id]].id == id {
      if id in IdSet(chunk) {
        var i :| 0 <= i < |chunk| && chunk[i].id == id;
        assert rows[resolved[chunk[i].id]] == chunk[i];
      } else {
        assert p1[id] !in resolved.Values;
        assert p1[id] !in rows;
      }
    }
    forall r | r in x1 ensures x1[r].id in p1 && p1[x1[r].id] == r {
      if r in rows {
        var i :| 0 <= i < |chunk| && chunk[i].id in resolved && resolved[chunk[i].id] != 0 && resolved[chunk[i].id] == r;
        assert rows[r] == chunk[i];
      } else {
        assert r in x0;
      }
    }
  }

  lemma ChunkView(p0: Primary, x0: Index, p1: Primary, chunk: seq<Document>, resolved: map<string, int>)
    requires Consistent(p0, x0)
    requires Extends(p0, p1) && Injective(p1)
    requires p1.Keys == p0.Keys + IdSet(chunk)
    requires DistinctIds(chunk)
    requires resolved.Keys == IdSet(chunk) && forall id :: id in resolved ==> resolved[id] == p1[id]
    requires Consistent(p1, Reindex(x0, chunk, resolved))
    ensures View(p1, Reindex(x0, chunk, resolved)) == Overlay(View(p0, x0), chunk)
  {
    var w := View(p1, Reindex(x0, chunk, resolved));
    var v := Overlay(View(p0, x0), chunk);
    forall id ensures (id in w <==> id in v) && (id in w ==> w[id] == v[id]) {
      ChunkViewAt(p0, x0, p1, chunk, resolved, id);
    }
    MapsEqual(w, v);
  }

  lemma MapsEqual<K, V>(a: map<K, V>, b: map<K, V>)
    requires forall k :: (k in a <==> k in b) && (k in a ==> a[k] == b[k])
    ensures a == b
  {
  }

  lemma ChunkViewAt(p0: Primary, x0: Index, p1: Primary, chunk: seq<Document>, resolved: map<string, int>, id: string)
    requires Consistent(p0, x0)
    requires Extends(p0, p1) && Injective(p1)
    requires p1.Keys == p0.Keys + IdSet(chunk)
    requires DistinctIds(chunk)
    requires resolved.Keys == IdSet(chunk) && forall k :: k in resolved ==> resolved[k] == p1[k]
    requires Consistent(p1, Reindex(x0, chunk, resolved))
    ensures id in View(p1, Reindex(x0, chunk, resolved)) <==> id in Overlay(View(p0, x0), chunk)
    ensures id in View(p1, Reindex(x0, chunk, resolved)) ==>
      View(p1, Reindex(x0, chunk, resolved))[id] == Overlay(View(p0, x0), chunk)[id]
  {
    var v0 := View(p0, x0);
    var x1 := Reindex(x0, chunk, resolved);
    OverlayLatest(v0, chunk, id);
    if id in IdSet(chunk) {
      var i :| 0 <= i < |chunk| && chunk[i].id == id;
      OverlayDistinct(v0, chunk, i);
      assert Injective(resolved);
      assert NewRows(chunk, resolved)[resolved[chunk[i].id]] == chunk[i];
      assert x1[p1[id]] == chunk[i];
    } else if id in p1 {
      assert id in p0 && p1[id] == p0[id];
      assert p1[id] !in resolved.Values;
      assert p1[id] !in NewRows(chunk, resolved);
      assert x1[p1[id]] == x0[p0[id]];
    }
  }

  /**
   The delete transaction: removing the `documents` row at the rowid of `id`
   and the FTS row at that rowid removes exactly `id`, keeps the bijection and
   leaves every other document as it was.
   */
  lemma DeleteRow(p: Primary, x: Index, id: string)
    requires Consistent(p, x)
    requires id in p
    ensures RemoveRowId(p, p[id]) == p - {id}
    ensures Consistent(p - {id}, x - {p[id]})
    ensures View(p - {id}, x - {p[id]}) == View(p, x) - {id}
  {
    ConsistentInjective(p, x);
    assert RemoveRowId(p, p[id]).Keys == (p - {id}).Keys;
  }
}
