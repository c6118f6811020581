# Document store of litefs-fts-demo, in Dafny

This project models the document store behind the HTTP handlers of
`app.ts`. The store keeps two SQLite tables:

- `documents (id TEXT PRIMARY KEY)`, with SQLite's implicit integer rowid,
  modelled as a map from id to rowid;
- `documents_fts`, an FTS5 table with columns `id UNINDEXED, title, content`,
  modelled as a map from rowid to the row it holds.

The model has five modules:

- `Wrappers`: the `Option`, `Result` and `Status` types.
- `Chunking`: how the batch is cut into slices of 200.
- `Tables`: the two tables as values, and the SQL statements run on them as
  functions. It also holds the lemmas that show one upsert chunk and one
  delete keep the tables in rowid bijection.
- `SearchQuery`: how `/search` checks `q` and builds the MATCH expression.
  It has `split(/\s+/)`, `JSON.stringify`, `join(" ")`, and a reading of the
  result by FTS5's string syntax.
- `Store`: class `DocumentStore`, with the two tables as `map` fields. Its
  methods are the operations the handlers run:
  - `PutChunks` is the chunk loop of `putDocumentsTxn`, and `PutChunk` one
    pass of it.
  - `PutDocuments` is `putDocumentsTxn` itself: the chunk loop inside one
    transaction, which rolls back on failure.
  - `PutOne` is the PUT handler and `PostDocuments` the POST handler.
  - `Delete`, `Get` and `Search` are the other handlers.

`Valid()` states the rowid bijection between the two tables. The operations
that complete a request keep it: `PutDocuments`, `PutOne`, `PostDocuments`
and `Delete`. The steps inside the upsert transaction need not keep it:
`InsertOrIgnore` leaves new ids without FTS rows, and a failed `PutChunk` or
`PutChunks` promises nothing about the state the transaction then discards.
`Contents()` is the map from id to document that a reader sees through
`Get`. `PutDocuments`, `PutOne`, `PostDocuments` and `Delete` state their new
`Contents()` in terms of the old one. For the upsert this is the predicate
`Tables.Upserted`: the tables stay in bijection, stored rowids are kept, new
rowids are fresh, and the store reads as the old one overwritten by the
batch, a later document of an id replacing an earlier one.

The model follows these facts of `app.ts`:

- The whole chunk loop runs inside one `db.transaction` (app.ts:45). So a
  guard failure in any chunk rolls back every chunk of the call, not only
  the failing one.
- The guard compares the size of the re-selected id→rowid map with the
  chunk length (app.ts:64). It does not compare with the number of distinct
  ids. So it fails exactly when the chunk repeats an id.
- New rowids are SQLite's "largest rowid in use plus one" (no
  AUTOINCREMENT). A deleted largest rowid can be handed out again. The
  contracts rely only on "positive and fresh with respect to the rowids in
  use".
- `/search` rejects only an absent or empty `q` (`!query`). It does not trim,
  so a whitespace-only `q` is accepted. The MATCH is on the `content` column
  only (app.ts:136).

## Model

| member | source | states |
|---|---|---|
| `Chunking.FlattenChunks` | app.ts:47-48 | The slices taken by the loop, put back together, are the batch: every document is visited once, in order |
| `Chunking.ChunkSizes` | app.ts:46-48 | No slice is empty or longer than 200, and every slice but the last has exactly 200 documents |
| `Chunking.ChunkCount` | app.ts:47 | The loop runs slice number j exactly when its counter j*200 is still below the batch length |
| `Chunking.ChunkAt` | app.ts:47-48 | Slice number j is `documents.slice(j*200, j*200+200)`, with the end clamped to the length |
| `Tables.ElemsIds` | app.ts:53 | The ids bound to the statements are exactly the ids of the chunk's documents |
| `Tables.ResolveChunk` | app.ts:54-63 | Once every id of the chunk has a row, the re-selected map has exactly the chunk's ids as keys |
| `Tables.NewRows` | app.ts:73-82 | The insert writes one row at the rowid of each document that has a non-zero rowid. For distinct ids and injective rowids, the row at a document's rowid is that document |
| `Tables.LookupConsistent` | app.ts:125-127 | In a consistent store, the joined lookup finds a row exactly for stored ids, and that row carries the id |
| `Tables.ConsistentInjective` | app.ts:40-43 | In the bijection, distinct ids have distinct rowids and every rowid is positive |
| `Tables.DistinctIdsCard` | app.ts:102-104 | The set of ids is never larger than the batch. It is exactly as large when no id repeats |
| `Tables.OverlayAppend` | app.ts:45-83 | Writing one batch and then another is the same as writing their concatenation |
| `Tables.OverlayLatest` | app.ts:73-82 | After a batch, an id of the batch reads as the last document carrying it. Any other id reads as before, and no other id appears |
| `Tables.OverlayDistinct` | app.ts:73-82 | In a batch without repeated ids, each document is what its id reads as afterwards |
| `Tables.GrowFresh` | app.ts:49-53 | Adding a new id at a rowid above every rowid in use keeps old rowids, keeps rowids distinct and positive, and the new rowid was not in use |
| `Tables.GrownTrans` | app.ts:47-53 | Two rounds of resolve-or-create are one round with both sets of ids: old rows keep their rowids and every new rowid is fresh for the starting table |
| `Tables.GuardIff` | app.ts:54-66 | Once every id of the chunk has a row, the re-selected map is as large as the chunk exactly when the chunk repeats no id |
| `Tables.UpsertedAppend` | app.ts:47-83 | Writing one chunk after the batch so far is writing their concatenation: bijection, stable rowids and latest-write-wins carry over |
| `Tables.ChunkUpsert` | app.ts:49-82 | After resolve-or-create, a chunk with distinct ids resolves to one rowid per document. Delete-then-insert then keeps the bijection, and the store reads as the old one overwritten by the chunk |
| `Tables.ChunkConsistent` | app.ts:67-82 | Purging the FTS rows at the re-selected rowids (which removes every old FTS row of the chunk's ids and no other) and inserting one row per chunk document at its rowid keeps the bijection between the two tables |
| `Tables.ChunkView` | app.ts:67-82 | After the chunk, every id reads as the old store overwritten by the chunk |
| `Tables.DeleteRow` | app.ts:111-116 | In a consistent store, `DELETE FROM documents WHERE rowid = ?` at an id's rowid removes exactly that id. Deleting that row and the FTS row at the rowid removes exactly that document. The bijection holds afterwards and every other document is unchanged |
| `Store.NextRowId` | app.ts:49-53 | A new row gets a rowid that is positive and larger than every rowid in use: 1 in an empty table, otherwise the largest plus one |
| `Store.DistinctBatchChunks` | app.ts:64-66 | For a batch without repeated ids, the guard passes in every chunk |
| `Store.MatchRows` | app.ts:135-137 | The search returns at most 100 stored rows, none twice, each with content the MATCH accepts. When fewer than 100 are returned, every matching row is among them |
| `Store.DocumentStore.constructor` | app.ts:40-43 | A new database has both tables empty and consistent |
| `Store.DocumentStore.Get` | app.ts:125-133 | A document is found exactly when its id is stored. It carries that id and is the stored document |
| `Store.DocumentStore.InsertOrIgnore` | app.ts:49-53 | Resolve-or-create: stored ids keep their rowids. Each new id gets a rowid no old row used, and rowids stay distinct. Re-running on stored ids changes nothing |
| `Store.DocumentStore.PutChunk` | app.ts:48-82 | One chunk succeeds exactly when its ids are distinct. On success the bijection holds and the store reads as overwritten by the chunk. On failure the FTS table is untouched |
| `Store.DocumentStore.PutChunks` | app.ts:46-83 | The chunk loop succeeds exactly when every chunk passes the guard. It then leaves the tables in bijection, with the latest write of each id winning, stored rowids kept and new rowids fresh |
| `Store.DocumentStore.PutDocuments` | app.ts:45-84 | Success exactly when every chunk passes the guard, with the store written as by `PutChunks`. On a guard failure both tables are as before the call and the error is "Unexpected error" |
| `Store.DocumentStore.PutOne` | app.ts:85-94 | A PUT always succeeds. Afterwards the id reads as exactly the given title and content, and every other id is unchanged |
| `Store.DocumentStore.PostDocuments` | app.ts:95-108 | An empty batch changes nothing. A repeated id is rejected with "Documents should have unique id." and both tables unchanged. Otherwise every document reads back and every other id is unchanged |
| `Store.DocumentStore.Delete` | app.ts:110-123 | Not found exactly when the id is absent, and then nothing changes. Otherwise both rows are removed, the id no longer reads, and every other document is unchanged |
| `Store.DocumentStore.Search` | app.ts:135-157 | An absent or empty `q` is rejected with the source's message. Otherwise at most 100 stored documents are returned, none twice, each matching. All matches are returned when fewer than 100 |
| `SearchQuery.Split` | app.ts:152 | `split(/\s+/)` always gives at least one piece, even for the empty string |
| `SearchQuery.SplitNoSpace` | app.ts:152 | No piece of the split contains whitespace |
| `SearchQuery.SplitKeepsText` | app.ts:152 | Splitting keeps every non-whitespace character, in order, and only those |
| `SearchQuery.SplitJoin` | app.ts:151-154 | Non-empty whitespace-free pieces joined by single spaces split back into the same pieces |
| `SearchQuery.EscapeNoSpace` | app.ts:153 | `JSON.stringify` adds no whitespace to a piece that has none |
| `SearchQuery.UnescapeEscape` | app.ts:153 | The escaped body of a JSON string literal decodes back to the original text |
| `SearchQuery.UnquoteQuote` | app.ts:153 | A JSON-quoted piece reads back as the piece |
| `SearchQuery.QuoteInjective` | app.ts:153 | Distinct pieces give distinct quoted terms |
| `SearchQuery.QuotedTermsSeparate` | app.ts:151-154 | The joined expression splits back into exactly the quoted terms |
| `SearchQuery.BuildMatch` | app.ts:139-155 | Absent or empty `q` gives the error "query parameter `q` should contains 1 ore more characters." Any other `q` gives one quoted term per split piece, and each term denotes exactly its piece |
| `SearchQuery.BuildFts5Match` | app.ts:150-154 | With FTS5's own quoting, the same rejection holds, and FTS5 reads the expression as exactly the split pieces of `q`, one phrase each |
| `SearchQuery.Fts5ReadsQuoted` | app.ts:151-154 | FTS5 reads pieces quoted its own way and joined by single spaces as exactly those pieces |
| `SearchQuery.PlainEscape` | app.ts:153 | On a whitespace-free piece with no quote, backslash or control character, `JSON.stringify` and FTS5 quoting both copy the text unchanged |
| `SearchQuery.SplitPlain` | app.ts:152 | Every piece of a query with no quote, backslash or non-whitespace control character has none either |
| `SearchQuery.BuildersAgree` | app.ts:150-154 | For a non-empty `q` with no quote, no backslash and no control character other than whitespace, the expression as written equals the FTS5-quoted one, and FTS5 reads it as exactly the split pieces of `q` |
| `SearchQuery.JsonQuotingBreaksFts5` | app.ts:153 | For `q` = `"` the expression as written is `"\""`, which FTS5 cannot read. The FTS5-quoted expression reads as `"` |

## Left out

- HTTP routing, status codes, bearer-token authentication, request schema validation and static file serving are left out. They surround the store but do not change it. The handlers' outcomes appear as `Status`, `Result` and the `found` flag.
- The SQLite setup is left out: the custom library path, the pragmas, and WAL and durability settings. These are engine configuration, and concurrency is not modelled.
- The native tokenizer extension and FTS5's MATCH evaluation are left out. They are a foreign library and engine internals. `Search` takes them as a parameter `matches(expression, content)`.
- Store.DocumentStore.Search: does not state the `ORDER BY bm25(...)` order of the results, nor which 100 rows are returned when more match, because the ranking is the engine's floating-point scoring.
- Store.MatchRows: visits the FTS table in an unspecified order, because the engine's scan order is not modelled.
- Storage errors (I/O, corruption, a full disk) are left out: the model has no engine failures besides the guard.
- `documents` is one multi-row `INSERT OR IGNORE` in the source. The model inserts the ids one at a time, which gives the same final table.
- Store.NextRowId: does not model SQLite's switch to random rowids once the largest rowid reaches 2^63 - 1, because integers here are unbounded.
- Prepared-statement handles and their lifetime, and `index.ts` (environment variables and the port default), are process configuration.
- `JSON.stringify` of lone surrogates is left out: Dafny characters are Unicode scalar values, so a lone surrogate cannot occur.
- `Search` uses the corrected quoting from the finding below, not `JSON.stringify`. The two give the same expression on every non-empty `q` with no quote, no backslash and no control character other than whitespace (`SearchQuery.BuildersAgree`). On other queries the source sends a different expression, which is not modelled: a quote makes it a syntax error, and a backslash or a control character is searched for as its escape sequence.

## Findings

| source | as written | input that shows it | evidently intended | confidence | as-written member | corrected member |
|---|---|---|---|---|---|---|
| app.ts:153 | Each piece of `q` is quoted with `JSON.stringify`, which writes `"` as `\"`. In an FTS5 string, `"` is written by doubling it, and a backslash is an ordinary character. | `q` = `"`: the MATCH expression is `"\""`. FTS5 reads a string holding `\` followed by one escaped quote (`""`), and that string never closes, which is a syntax error | Every whitespace-separated piece of `q` is matched as one exact phrase | not executed; medium | `SearchQuery.BuildMatch`, `SearchQuery.JsonQuotingBreaksFts5` | `SearchQuery.BuildFts5Match` |
