# SLPDB persistence layer (`Db`)

This project models the `Db` class of SLPDB, the layer through which the SLP token
indexer stores its state in MongoDB. It covers seven collections:

- `statuses`: sync checkpoints, one per context;
- `tokens`: one record per token id;
- `graphs`: one record per token and transaction id;
- `addresses` and `utxos`: per-token balances and unspent outputs;
- `unconfirmed` and `confirmed`: raw transactions, keyed by `tx.h`.

It also models the indexes that `confirmedIndex` builds from the configuration.

A `Db` is a class whose fields are the seven collections, held as sequences in
stored order. Its methods rewrite those fields in place, the way the source's
awaited MongoDB calls do.

The MongoDB primitives live in module `Collection` as functions on sequences. A
query filter is a predicate over records. The primitives are:

- `find` (`Where`);
- `findOne` (`FindOne`);
- `deleteMany` (`DeleteMany`);
- `replaceOne` with upsert (`ReplaceOne`);
- delete-then-insert (`ReplaceAll`).

Module `Batches` models the chunk loop shared by `confirmedReplace` and
`confirmedInsert`:

- it cuts the items into slices of 1000;
- it sends each slice to an unordered `insertMany`;
- under a unique `tx.h` index, that insert skips documents with a known hash and
  reports 11000;
- the loop swallows error 11000 and raises any other error.

The methods of `Store.Db` are proved against these functions.

Module `IndexPlan` derives the `createIndex` calls from the `index` configuration.
Module `Graphs` models the update loop of `graphItemsUpsert`.

Backend failures are parameters. Only the operations whose source decides what
to do with an error take them:

- the chunk loop takes `faults`, the failure of `insertMany` call number k: an
  error code, and the part of the call's documents that was written before it;
- `confirmedIndex` takes the error code of `createIndex` call number k, and the
  error code of the `indexInformation` reads at its end.

Behaviours of the source worth knowing, kept as written:

- Upserting a graph record identical to the stored one reports neither a
  modification nor an insertion, so `graphItemsUpsert` throws. Running it twice on
  the same items therefore fails at the first item (`Graphs.UpsertTwiceFails`).
- The graph delete filters on a misspelled path. See "## Findings".
- With a truthy watermark, `graphFetch` also returns records whose
  `graphTxn.pruneHeight` is null, not only newer ones and the token's root record.
- Inserting the same confirmed transactions twice leaves the collection unchanged
  when a unique `tx.h` index exists (`Batches.InsertBatchesIdempotent`). Without
  one, a second insert of fresh copies of the items appends them again
  (`Batches.InsertBatchesAppendsAll`).
- With a unique `tx.h` index, replacing a block refuses an item whose hash is
  still stored under another block, and the run still ends normally
  (`Batches.ReplaceBlockMovedTxn`).

## Model

| member | source | states |
|---|---|---|
| Collection.Where | db.ts:160 | `find(filter).toArray()`: at most as many records as stored, and a record is returned iff it is stored and the filter selects it |
| Collection.DeleteMany | db.ts:40 | `deleteMany(filter)` keeps exactly the stored records the filter does not select |
| Collection.FindOne | db.ts:46 | `findOne` returns a stored record that the filter selects, and returns nothing iff no stored record matches |
| Collection.FirstIndex | db.ts:46 | the position `findOne` takes: the first match, with no match before it |
| Collection.ReplaceOne | db.ts:51 | `replaceOne(filter, doc, {upsert: true})` inserts iff nothing matches. Otherwise it matches exactly one record. It reports neither a modification nor an insertion iff the first match already equals `doc`, and then changes nothing. `doc` is stored afterwards, and unselected records stay |
| Collection.DeletedCount | db.ts:236 | the count `deleteMany` reports plus what remains is the old size |
| Collection.DeleteManyTwice | db.ts:100-104 | two successive deletes equal one delete with the union of the filters |
| Collection.DeleteManyNothing | db.ts:101 | a delete whose filter selects nothing leaves the collection unchanged |
| Collection.DeleteThenInsert | db.ts:40-41 | after delete-then-insert, the filter selects exactly its part of the inserted records, and the other records are the old unselected ones followed by the new |
| Collection.ReplaceAll | db.ts:40-41 | delete-then-insert: what the filter selects is replaced by the inserted records, and the rest is kept in order |
| Collection.ReplaceAllFetch | db.ts:38-42 | replacing key k by records all of key k: a find for k returns exactly them, a find for any other key is unchanged, and the records of other keys are kept |
| Collection.FindOneIsFirstOfWhere | db.ts:46 | `findOne` is the head of `find` |
| Collection.ReplaceOneThenFind | db.ts:51 | after an upsert under a filter that selects `doc`, `findOne` returns `doc`, and the records the filter does not select are unchanged |
| Collection.ReplaceOneOutside | db.ts:89 | an upsert leaves the records outside any wider filter unchanged |
| Collection.ReplaceOneKeepsOtherFind | db.ts:51 | an upsert does not change what `findOne` returns for a disjoint filter |
| Collection.WhereKeepsKeysDistinct | db.ts:61 | a delete keeps at most one record per key |
| Collection.ReplaceOneKeepsKeysDistinct | db.ts:51 | an upsert by key keeps at most one record per key |
| Collection.DeleteThenInsertKeepsKeysDistinct | db.ts:40-41 | delete-then-insert of one record keeps at most one record per key |
| Collection.AtMostOnePerKey | db.ts:61 | with distinct keys, a find by key returns at most one record |
| Records.GraphFetchFilterSelects | db.ts:114-122 | `GraphFetchFilter`, the filter `graphFetch` builds: with a truthy watermark h, the filter selects exactly the token's records that are pruned after h, never pruned, or the root record (txid = token id). Without one, it selects all of the token's records, and never another token's |
| Records.GraphFetchNarrows | db.ts:114-122 | a later watermark never selects a record that an earlier or absent one leaves out |
| Records.DuplicateHashIffNotDistinct | db.ts:347-348 | two transactions share a `tx.h` iff the hashes are not distinct, which is what a unique index build refuses |
| Batches.Slice | db.ts:287 | `items.slice(index, index + 1000)`: clipped at the end, empty past the end, element by element the items from `index` |
| Batches.ChunksFromShape | db.ts:285-302 | the loop cuts ceil((n - index)/1000) chunks. Chunk k is the window at index + 1000k, and each chunk is non-empty and at most 1000 long |
| Batches.FlattenChunksFrom | db.ts:285-302 | the chunks concatenate back to the items |
| Batches.FlattenChunksPrefix | db.ts:285-302 | the first m chunks are the first 1000m items, fewer at the end |
| Batches.ChunkCount | db.ts:285-302 | `Chunks`: n items go out in ceil(n/1000) inserts, none for an empty list, and together the inserts carry exactly the items |
| Batches.ChunksWithin | db.ts:287 | every chunk holds only items |
| Batches.ChunksOf2500 | db.ts:308-325 | 2500 items go out as 1000, 1000 and 500 |
| Batches.Admitted | db.ts:290 | under a unique index, an unordered insert lets through only documents of the call whose hash is not stored, at most one per hash, and at least one for every hash not stored. A call whose hashes are all stored writes nothing, and a call that admits every document writes them all in order |
| Batches.InsertUnordered | db.ts:290 | without a unique index, all documents are appended. With one, the stored hashes become old plus new, hashes stay distinct, an error is reported only as 11000, and an all-known batch changes nothing |
| Batches.AdmittedKeepsDistinct | db.ts:290 | appending admitted documents keeps hashes distinct |
| Batches.InsertManyUnordered | db.ts:290 | one unordered `insertMany` under a possible backend failure. Without one it is the insert above. With one, in either index mode, it reports the failure's code and appends, in order, exactly the part of what it would admit that the failure left written (all documents without a unique index, the admitted ones with it), and nothing outside the failure's written set. Either way it only appends documents of the call, with a unique index none whose hash is stored, and keeps hashes distinct |
| Batches.RunBatches | db.ts:285-302 | the chunk loop from chunk k issues at most the remaining calls and only ever appends |
| Batches.RunBatchesDone | db.ts:286-302 | `Swallowed`: the loop ends normally iff no call fails with a non-duplicate error, and then it issued one call per chunk |
| Batches.RunBatchesStopsOnlyAtFatal | db.ts:289-297 | `Swallowed`: error 11000 is swallowed and the next chunk is tried. A run that throws throws the error of its last call, which is the first non-duplicate failure, and no later chunk is attempted |
| Batches.RunBatchesPlain | db.ts:285-302 | without a unique index, when the calls before chunk m succeed and call m fails with a non-duplicate error: the chunks before m stay inserted in order, then the part of chunk m that the failed call wrote, and nothing else. m - k + 1 calls were issued |
| Batches.RunBatchesAppendsFrom | db.ts:285-302 | in either index mode and whatever the backend does, a run only appends records of its chunks, and with a unique index none whose hash was stored before the run |
| Batches.UniqueRunStoresAll | db.ts:308-325 | with a unique index and no failure, every hash ends up stored and nothing else is added |
| Batches.UniqueRunNoOp | db.ts:308-325 | with a unique index, a run of already-stored hashes changes nothing |
| Batches.UniqueRunKeepsDistinct | db.ts:308-325 | with a unique index, no hash is ever stored twice, whatever the backend does |
| Batches.InsertBatches | db.ts:305-326 | the whole loop, in either index mode and whatever the backend does: at most ceil(n/1000) calls, only appends items, and with a unique index none whose hash was stored before |
| Batches.InsertBatchesIdempotent | db.ts:305-326 | with a unique `tx.h` index, inserting the same items again leaves the collection unchanged and raises nothing |
| Batches.InsertBatchesAppendsAll | db.ts:305-326 | without a unique index and without failures, all items are appended in order through ceil(n/1000) calls |
| Batches.InsertBatchesFailsAt | db.ts:312-320 | without a unique index, when call m is the first to fail and fails with a non-duplicate error: the first 1000m items stay inserted, followed by the part of chunk m that the failed call wrote. m + 1 calls were issued, and that error is raised |
| Batches.PreDelete | db.ts:270-283 | a truthy block height removes exactly the records of that block. Otherwise exactly the records whose `tx.h` is an item's hash are removed |
| Batches.ReplaceBatches | db.ts:263-303 | `SomeItemLacksBlk`: if any item lacks `blk`, nothing is written and the error is raised. Otherwise the pre-delete happens, then the chunk loop |
| Batches.ReplaceSelects | db.ts:270-302 | without a unique index and without failures, deleting what a filter selects and then inserting items it all selects leaves exactly those items under the filter, in order, and the rest unchanged |
| Batches.ReplaceKeepsOthers | db.ts:270-302 | the same in either index mode and whatever the backend does: the filter then selects only items, and the rest is unchanged |
| Batches.UniqueReplace | db.ts:270-302 | the same with a unique `tx.h` index and without failures: the run ends normally, the filter selects only items, their hashes are exactly the items' hashes not stored among the kept records, and the rest is unchanged |
| Batches.ReplaceBlockSelects | db.ts:270-302 | block replacement without a unique index and without failures: afterwards the block holds exactly the items, in order, and other records are unchanged |
| Batches.ReplaceBlockKeepsOthers | db.ts:270-302 | block replacement in either index mode and whatever the backend does: the block holds only items, and other records are unchanged |
| Batches.ReplaceBlockUnique | db.ts:270-302 | block replacement with a unique index and without failures: the block holds only items, carrying exactly the items' hashes not stored outside the block, and other records are unchanged |
| Batches.ReplaceBlockMovedTxn | db.ts:270-302 | a transaction a reorganisation moved from block 5 to block 7: with a unique index, replacing block 7 refuses it, so block 7 stays empty, the old record stays, and the run ends normally |
| Batches.ReplaceBlockTwice | db.ts:263-303 | replacing a block twice, in either index mode and whatever the backend does, leaves only records of the second set in it. Without a unique index and without failures, it leaves exactly the second set, in order |
| Batches.ReplaceByHashSelects | db.ts:279-302 | replacement by hash without a unique index and without failures: the records with an item's hash are exactly the items, in order, and others are unchanged |
| Batches.ReplaceByHashIs | db.ts:270-283 | with a falsy block height and every item in a block, replacement deletes the records sharing a hash with an item, a filter every item passes, and then runs the chunk loop |
| Batches.ReplaceByHashUnique | db.ts:279-302 | replacement by hash with a unique index and without failures (`ReplacedByHash`, made of `HashKept` and `HashCovered`): the run ends normally, the records with an item's hash are all items and carry exactly the items' hashes, they are every item when the items' hashes are distinct, and others are unchanged |
| Batches.HashReplaceKeeps | db.ts:279-302 | the run after the delete by hash adds only items under the hash filter and keeps every other record (`HashKept`) |
| Batches.HashReplaceCovers | db.ts:279-302 | the run after the delete by hash stores every item hash, and every item when the hashes are distinct (`HashCovered`) |
| Graphs.UpsertFrom | db.ts:88-97 | the update loop, each upsert keyed by `SameGraphKey`, stops, if at all, at an item position within range |
| Graphs.UpsertFromKeepsDistinct | db.ts:88-97 | the loop keeps one record per (token, txid) |
| Graphs.UpsertFromKeepsOtherFind | db.ts:88-97 | upserts of other keys leave a find by key unchanged |
| Graphs.UpsertFromStoresAll | db.ts:88-97 | after a full run over distinct keys, every item is the record found for its key |
| Graphs.UpsertFromKeepsOthers | db.ts:88-97 | after a full run, records with keys not among the items are unchanged and in order |
| Graphs.UpsertTwiceFails | db.ts:89-96 | running the loop again on the same items throws at item 0 and changes nothing |
| Graphs.MisspelledPathDeletesNothing | db.ts:101 | deleting by `grpahTxn.txid` removes no graph record |
| Graphs.TxidPathDeletesListed | db.ts:101 | deleting by `graphTxn.txid` removes exactly the records whose txid is listed |
| Graphs.MisspelledPathCounterexample | db.ts:101 | one listed record that the misspelled path keeps and the intended path removes |
| IndexPlan.TextFields | db.ts:363-366 | the fields of the text-index object: each listed field once, none other, no more than listed |
| IndexPlan.KeyCalls | db.ts:342-353 | call i is on the given collection and is an ascending index over key i. It is unique exactly when that key is `tx.h`. Every configured key has its call |
| IndexPlan.KeyCallsFromKeys | db.ts:342-353 | every key call comes from the collection's key list: an ascending index on a listed key, unique exactly when the key is `tx.h` |
| IndexPlan.PlanOfPrefix | db.ts:336-376 | the calls of the earlier collections come first, in order |
| IndexPlan.PlanAt | db.ts:336-376 | the calls of collection j sit in the plan right after those of collections 0..j-1 |
| IndexPlan.PlanCallsFromConfig | db.ts:334-376 | `PlanOf`, `CollectionPlan`: every planned call comes from one collection's configuration: an ascending index on a listed key, unique iff `tx.h`, or its `fulltext` text index over exactly the listed fields |
| IndexPlan.PlanCoversKeys | db.ts:340-353 | every configured key gets its ascending index, unique iff `tx.h` |
| IndexPlan.PlanCoversFulltext | db.ts:361-370 | a non-empty `fulltext` list gets a text index named `fulltext` over exactly those fields |
| Store.CreateIndexError | db.ts:346-351 | a backend fault wins. Without one, a call fails only with a duplicate-key error, and only when it builds the unique `tx.h` index over the confirmed or unconfirmed transactions and those hold two with the same hash. A successful unique `tx.h` build implies distinct hashes |
| Store.FirstFailure | db.ts:354-357 | the position of the first call that fails lies within the plan, and the call there fails |
| Store.FirstFailureIs | db.ts:354-357 | every call before the first failure succeeds |
| Store.NoFailureWithDistinctHashes | db.ts:334-377 | with no backend fault, and distinct hashes among the confirmed and among the unconfirmed transactions, no planned call fails, and every call from position k on succeeds. By `Store.Db.ConfirmedIndex`'s ensures, every planned index is then built, and the method ends normally unless the `indexInformation` reads fail |
| Store.StatusUpdateThenFetch | db.ts:38-47 | after `statusUpdate(s)`, `statusFetch` returns s for its context and the old answer for any other |
| Store.TokenUpsertThenFetch | db.ts:49-67 | after the token upsert, `tokenFetch` returns the token for its id and the old answer for any other id |
| Store.DeleteKeepsDistinctHashes | db.ts:102-103 | a delete keeps hashes distinct |
| Store.Db.constructor | db.ts:16-20 | a layer over empty collections, not connected |
| Store.Db.CheckClientStatus | db.ts:22-32 | connects on first use. The result is true iff this call connected, and afterwards the layer is connected |
| Store.Db.StatusUpdate | db.ts:38-42 | exactly one status has the new status's context, and it is that status. Statuses of other contexts are unchanged and one-per-context is kept |
| Store.Db.StatusFetch | db.ts:44-47 | the first status with the context, and none iff there is none |
| Store.Db.TokenInsertReplace | db.ts:49-52 | the upsert of the token by id, keeping one token per id |
| Store.Db.TokenDelete | db.ts:59-62 | removes exactly the token's records and reports how many, which is at most one |
| Store.Db.TokenFetch | db.ts:64-67 | the token with the id, and none iff there is none |
| Store.Db.TokenFetchAll | db.ts:69-72 | exactly the tokens whose `block_created` is set, in stored order |
| Store.Db.TokenReset | db.ts:74-81 | no tokens remain |
| Store.Db.SingleMintUtxo | db.ts:200-203 | a stored token whose mint baton is at the outpoint |
| Store.Db.UpsertGraphItems | db.ts:88-97 | the loop in place equals `Graphs.UpsertFrom`, including where it stops, and keeps one record per key |
| Store.Db.DeleteTxns | db.ts:100-104 | removes, for all listed txids, the graph records matching at the given path and the confirmed and unconfirmed transactions with those hashes |
| Store.Db.DeleteTxn | db.ts:101-103 | one round of that loop |
| Store.Db.UpsertGraph | db.ts:83-105 | if an upsert fails, the method throws with that item and changes only the graphs. Otherwise it upserts the token and runs the delete loop |
| Store.Db.GraphItemsUpsert | db.ts:83-105 | as written: the graphs end as the update loop left them. The token upsert and the hash deletes happen iff the loop did not throw |
| Store.Db.GraphItemsUpsertIntended | db.ts:83-105 | with the path corrected: no graph record with a listed txid remains |
| Store.Db.GraphDelete | db.ts:107-110 | removes exactly the token's graph records and reports how many |
| Store.Db.GraphFetch | db.ts:112-124 | the graph records the watermark filter selects, all of the requested token, in stored order |
| Store.Db.GraphTxnFetch | db.ts:126-129 | a stored graph record with the txid |
| Store.Db.GraphReset | db.ts:131-138 | no graph records remain |
| Store.Db.AddressInsertReplace | db.ts:141-147 | the token's old balances are replaced by the new ones, and others are unchanged. For balances of that token, the token then holds exactly them. The insert is issued only for a non-empty list |
| Store.Db.AddressDelete | db.ts:153-156 | removes exactly the token's balances and reports how many |
| Store.Db.AddressFetch | db.ts:158-161 | exactly the token's balances, in stored order |
| Store.Db.AddressReset | db.ts:163-170 | no balances remain |
| Store.Db.UtxoInsertReplace | db.ts:173-179 | the token's old outputs are replaced by the new ones, and others are unchanged. The insert is issued only for a non-empty list |
| Store.Db.UtxoDelete | db.ts:185-188 | removes exactly the token's outputs and reports how many |
| Store.Db.UtxoFetch | db.ts:190-193 | exactly the token's outputs, in stored order |
| Store.Db.SingleUtxo | db.ts:195-198 | a stored output with the locator |
| Store.Db.UtxoReset | db.ts:205-212 | no outputs remain |
| Store.Db.UnconfirmedInsert | db.ts:214-217 | appends the transaction. Under a unique index, a known hash is refused with 11000 and nothing changes |
| Store.Db.UnconfirmedReset | db.ts:219-226 | no unconfirmed transactions remain |
| Store.Db.UnconfirmedFetch | db.ts:228-232 | a stored unconfirmed transaction with the hash |
| Store.Db.UnconfirmedDelete | db.ts:234-238 | removes exactly the records with the hash and reports how many, at most one under a unique index |
| Store.Db.UnconfirmedProcessedSlp | db.ts:240-243 | exactly the unconfirmed transactions whose `slp` is truthy, in stored order |
| Store.Db.ConfirmedFetch | db.ts:245-248 | a stored confirmed transaction with the hash |
| Store.Db.ConfirmedDelete | db.ts:250-253 | removes exactly the records with the hash and reports how many, at most one under a unique index |
| Store.Db.ConfirmedReset | db.ts:255-261 | no confirmed transactions remain |
| Store.Db.InsertChunk | db.ts:290 | one unordered insert of a chunk under its backend failure, as `Batches.InsertManyUnordered`, logged |
| Store.Db.ChunkStep | db.ts:287-301 | one pass of the loop: the run so far stays on track to end as `Batches.RunBatches` does |
| Store.Db.InsertInChunks | db.ts:285-302 | the loop in place equals `Batches.InsertBatches`: the collection, the outcome, and the chunks sent, in order |
| Store.Db.ConfirmedReplace | db.ts:263-303 | equals `Batches.ReplaceBatches`. If an item lacks `blk`, nothing is written and the error is raised |
| Store.Db.DeleteEachHash | db.ts:280-282 | the per-item delete loop removes exactly the records whose hash is an item's hash |
| Store.Db.ConfirmedInsert | db.ts:305-326 | equals `Batches.InsertBatches` over the items |
| Store.Db.CreateIndex | db.ts:348-351 | records the index unless `Store.CreateIndexError` reports an error |
| Store.Db.CreatePlanned | db.ts:343-357 | call n of the plan: it fails only at the first failure, and otherwise the built set grows by that call |
| Store.Db.IndexKeys | db.ts:340-359 | the loop over one collection's keys: builds exactly the plan's calls up to the first failure, and raises that failure's error, or builds all of the collection's key indexes |
| Store.Db.IndexCollection | db.ts:338-375 | one collection's key indexes, then its text index. It stops at the first failure of the plan |
| Store.Db.IndexEntry | db.ts:336-376 | one configured collection's calls, starting where the earlier collections' calls end. It stops at the plan's first failure |
| Store.Db.IndexEntries | db.ts:334-377 | the indexes built are exactly the plan's calls before the first failure, and the error is that failure's, if any |
| Store.Db.ConfirmedIndex | db.ts:328-391 | the same over the configured `index` section, and no section builds nothing. The first failing call's error is raised. When every call succeeds, a failure of the `indexInformation` reads is raised, and otherwise the method ends normally |

## Left out

- The connection itself (URL, database name, `MongoClient`, `exit`/`close`) is not modelled. Being connected is a boolean field.
- Logging and timers are left out. They only print.
- IndexPlan.TextFields: the field order of the text-index object is first occurrence. This assumes field names are not integer-like, since JavaScript lists integer-like keys first in ascending order. Index field paths such as `tx.h` or `out.e.a` are never integer-like.
- Store.Db.ConfirmedIndex: the `indexInformation` reads are modelled only by whether they fail, as the one parameter `infoFault`. Their result is only printed, and which of the two reads failed is not distinguished.
- Store.Db.constructor: the layer starts over empty collections, while the source attaches to a database that may already hold data. The invariant `Valid()` is assumed of such data. It says one record per key where the source writes by key, and distinct hashes under a unique index.
- The `_id` field is not modelled. The driver writes it into the objects it inserts, so re-inserting the very same objects collides on `_id` and is refused with 11000. The model's re-inserts are of fresh copies.
- Order is partly the model's choice. A `find` returns records in stored order here, and a failed unordered insert writes its part in item order. When one unordered call holds several documents with the same new hash, the first is the one admitted. MongoDB promises none of these, so the model's sequence equalities hold in the source only up to order.
- `GraphMap.toDbos` is not part of this model. Its three outputs are inputs to `graphItemsUpsert`.
- `async`/`await` and concurrency are not modelled. Every call is awaited in sequence, so the methods are sequential, and there is no atomicity because the source opens no sessions.
- Backend failures of finds, deletes, `replaceOne`, `insertOne` and the address/utxo `insertMany` are not modelled. Those operations propagate the error unchanged, and the `.catch` blocks of the resets rethrow it. Faults are modelled only for the chunk-loop inserts, `createIndex` and the `indexInformation` reads, where the source decides what to do with an error.
- Index effects are partly left out. A unique `tx.h` index constrains writes only on `confirmed` and `unconfirmed`. Indexes on other collections are recorded but change no write. A `createIndex` conflict other than duplicate hashes appears only as a fault.
- Record schemas are abstract. Each record keeps the fields the queries read plus an opaque `body`.
- The values of `insertOne`/`insertMany` results are left out. `statusUpdate` returns nothing here, and the address/utxo replaces return only the inserted count.
- Store.Db.AddressUpsert: empty in the source, so it is modelled with no contract.
- Store.Db.UtxoUpsert: empty in the source, so it is modelled with no contract.
- Numbers are mathematical integers: `NaN`, fractions and the 2^53 limit are not modelled. Truthiness of `blockIndex` and `lastPrunedHeight` is "present and non-zero".
- The order of `Object.keys` over the configuration is taken as given. The `index` section is a sequence of entries in that order.

## Findings

| source | as written | input that shows it | evidently intended | confidence | as-written member | corrected member |
|---|---|---|---|---|---|---|
| db.ts:101 | the graph delete filters on the path `grpahTxn.txid`, which no graph record has, so no graph record is ever removed | a graph record with token `t` and txid `x` is left by the update loop, and `itemsToDelete` is `["x"]`: the record stays | filter on `graphTxn.txid`, removing every graph record with a listed txid, as the confirmed and unconfirmed deletes beside it do by `tx.h` | high; not executed | Store.Db.GraphItemsUpsert, Graphs.MisspelledPathCounterexample | Store.Db.GraphItemsUpsertIntended |
