# Bounded request log, in Dafny

A model of the persistent request log behind a webhook catcher. Every
captured request takes the next 64-bit id from a counter and is stored under
it unless the insert fails; ids stay fresh as long as the counter was
recovered correctly at open. After each
insert the log evicts its oldest record if it holds more than `max_reqs`, so
a log within capacity stays within it, and it serves the newest records
first. Eviction removes at most one record per insert, so a log that is once
over capacity (a failed prune, or a restart with a smaller `max_reqs`) stays
over it. The model covers:

- the `Storage` store (`src/storage.rs`): opening with counter recovery,
  `insert` with its two write transactions, and `latest`;
- the parts of the HTTP handlers (`src/handlers.rs`) that use the store: id
  allocation and record construction in `post_webhook`, the 50-item
  `get_latest`, and `get_one`'s search over the 1000 newest records;
- the record types (`src/models.rs`).

Layout:

- `models.dfy` (module `Models`): `StoredRequest` and `LatestResponse`, plus
  the `u64`, `i64` and `u8` integer types. The Rust field `method` is called
  `httpMethod`, because `method` is a Dafny keyword.
- `table.dfy` (module `Table`): the redb table `reqs`. It is a strictly
  ascending sequence of `(key, payload)` rows, and `ToMap` reads it as a map.
  `Put` and `Delete` are the table's `insert` and `remove`. A payload is
  `Encoded(record)` or `Corrupt`, which stands in for bytes that serde_json
  cannot decode.
- `storage.dfy` (module `Storage`): class `Storage`, which holds the table,
  the id counter and the capacity. It also holds the functions that specify
  the class: `Prune`, `AfterInsert`, `Newest`, `Decoded` and `LatestOf`.
- `handlers.dfy` (module `Handlers`): `PostWebhook` as a method on a
  `Storage`; `GetLatest` and `GetOne` as functions over it.
- `scenarios.dfy` (module `Scenarios`): the unit tests of `src/storage.rs` as
  client methods whose outcomes are proved. It also proves a capacity-3
  end-to-end run, and shows that a failed post leaves a permanent gap in the
  ids.

Storage failures are parameters of the operations that can hit them:
`InsertFault` for `insert`, `readFault` for `latest`, and `lastRowFault` for
the recovery scan in `open_db`. The clock reading is a parameter too.

`latest` applies `take(limit)` before `filter_map` (src/storage.rs:95-100).
A row that does not decode is therefore dropped from the result, but it
still uses up one of the `limit` slots. `LatestOf` states this, and
`CorruptRowUsesSlot` exhibits it.

## Model

| member | source | states |
|---|---|---|
| Table.PutSpec | src/storage.rs:66 | inserting key k keeps the rows strictly ascending; the map becomes the old map with k set to the new payload, so every other key keeps its value; the size grows by one exactly when k was new; every row is the new one or an old one |
| Table.DeleteSpec | src/storage.rs:82 | removing key k keeps the rows ascending; the map loses exactly k; the size drops by one exactly when k was present; every remaining row was there before |
| Table.PutAbove | src/storage.rs:66 | a key above every stored key goes into a new last row, and the earlier rows stay as they were |
| Table.FirstKeyIsLeast | src/storage.rs:76-79 | the first row of an ascending scan holds the smallest key |
| Storage.LastKey | src/storage.rs:50-56 | the key recovered from the last row of an ascending scan is 0 for an empty table; otherwise it is a stored key, and no stored key is larger |
| Storage.Storage.Open | src/storage.rs:18-56 | opening keeps the existing table unchanged (or starts an empty one). The counter is the largest key, 0 when the table is empty, and 0 when the last row cannot be read. With the last row readable, no stored key lies above the counter |
| Storage.OpenStore | src/storage.rs:50-56 | corrected open: it fails with an I/O error exactly when the last row cannot be read. Otherwise the counter is the largest key and no stored key lies above it |
| Storage.Prune | src/storage.rs:70-86 | at or under capacity the table is untouched. Over capacity exactly the first row goes, its key is the smallest stored key, and the map loses that key and nothing else |
| Storage.InsertThenPruneKeys | src/storage.rs:61-88 | one insert and its prune keep the rows ascending and add no key but the record's own. At most one key disappears, and it lies below every key that stays (oldest first) |
| Storage.InsertThenPruneSize | src/storage.rs:73-84 | after one insert and its prune the size is at most the larger of the old size and the capacity, so a table within capacity stays within it |
| Storage.OverCapacityPersists | src/storage.rs:70-86 | a prune that fails on a full table leaves capacity + 1 rows, and from capacity + 1 rows a successful insert of a fresh id leaves capacity + 1 rows again: eviction never catches up |
| Storage.FreshKeyIsNewest | src/storage.rs:66-84 | a key above every stored key becomes the last row, and a prune with capacity at least 1 keeps it |
| Storage.AfterInsertSpec | src/storage.rs:61-88 | whatever the storage layer reports, the table stays well formed. An abort in the first transaction leaves it unchanged. No key but the record's appears, and at most one key, one below all survivors, disappears |
| Storage.AfterInsertFresh | src/storage.rs:61-88 | a record whose id is one above a counter no stored key exceeds becomes the newest row (unless the first transaction aborted or the capacity is 0); afterwards no key exceeds the record's id |
| Storage.Storage.Insert | src/storage.rs:61-88 | the table after `insert` is `AfterInsert` of the old table. The outcome is `Ok` exactly when neither transaction failed; an unreadable oldest row skips the eviction and still reports `Ok`. Encode failures report an encode error and other failures an I/O error |
| Storage.Newest | src/storage.rs:94-96 | the reverse scan with `take(n)` visits min(n, size) rows, and row i is the i-th row from the end |
| Storage.Decoded | src/storage.rs:97-101 | `filter_map` keeps a record exactly when some row decodes to it, and never yields more records than rows. It yields as many records as rows exactly when every row decodes |
| Storage.DecodedAppend | src/storage.rs:97-101 | `filter_map` keeps row order: decoding two runs of rows one after the other gives the first run's records followed by the second's |
| Storage.DecodedAllEncoded | src/storage.rs:97-101 | when every row decodes, record i is the payload of row i |
| Storage.DecodedDescending | src/storage.rs:97-101 | rows with strictly decreasing keys that carry their own ids give records with strictly decreasing ids |
| Storage.NewestWindow | src/storage.rs:94-96 | the rows `Newest` picks carry their own ids, have strictly decreasing keys, and decode exactly to the records of the last min(limit, size) rows |
| Storage.LatestOf | src/storage.rs:90-103 | `latest(limit)` returns at most limit records, with ids strictly descending. A record is returned exactly when one of the newest min(limit, size) rows decodes to it. The result is full length exactly when all those rows decode, and then record i comes from the i-th newest row |
| Storage.LatestPrefix | src/storage.rs:93-101 | `latest(a)` is a prefix of `latest(b)` whenever a <= b: a larger limit only appends older records |
| Storage.LatestAllEncoded | src/storage.rs:93-101 | when every row in the window decodes, record i is the payload of the i-th newest row |
| Storage.CorruptRowUsesSlot | src/storage.rs:95-100 | a corrupt newest row takes the only slot of `latest(1)`, so the result is empty although an older row decodes |
| Storage.Storage.Latest | src/storage.rs:90-103 | `latest` changes nothing. It fails exactly when the read transaction does, and otherwise returns `LatestOf` of the table |
| Storage.Storage.FetchAdd | src/handlers.rs:51 | `fetch_add(1)` returns the old counter and advances it by one, wrapping at u64::MAX |
| Handlers.TruncateToI64 | src/handlers.rs:54-57 | the milliseconds cast `as i64` are exact up to i64::MAX and always agree with the true value modulo 2^64 |
| Handlers.FindById | src/handlers.rs:37-39 | `find` gives nothing exactly when no record has the id. Otherwise it gives the first record with that id |
| Handlers.GetLatest | src/handlers.rs:22-30 | on success the response has at most 50 items, `count` equals the number of items, and the items are `latest(50)`; a storage error, and only that, gives 500 |
| Handlers.LookupInWindow | src/handlers.rs:36-41 | a record found by id among `latest(1000)` is the payload of a row under that key among the 1000 newest rows; when nothing is found, every such row has a different key or does not decode |
| Handlers.GetOne | src/handlers.rs:32-42 | a read error gives 500, and otherwise the record or 404. A returned record has the asked id and is stored under it among the 1000 newest rows. 404 means no decodable row with that key is among them, so a pruned id is not found |
| Handlers.PostWebhook | src/handlers.rs:44-75 | the counter advances by exactly one whatever happens, and the record takes the new counter value as its id. The record carries the method, path, headers and body unchanged and the truncated clock reading. The table is `AfterInsert` of the old table. The reply is 200 "ok" exactly when the insert reported success, and 500 otherwise; a clock before the epoch gives 500 and leaves the table alone. If no key exceeded the old counter, none exceeds the new one; and, unless the clock reading failed, the first transaction aborted or the capacity is 0, the new record is the newest row |
| Scenarios.InsertNextConsecutive | src/storage.rs:61-88 | inserting the next id into a gap-free log that is within capacity appends its row, drops the oldest row when full, and leaves a gap-free log of min(size + 1, capacity) rows |
| Scenarios.LatestOfConsecutive | src/storage.rs:90-103 | on a gap-free log `latest(limit)` gives the newest min(limit, size) ids, counting down from the largest |
| Scenarios.LookupConsecutive | src/handlers.rs:32-42 | on a gap-free log of at most 1000 rows, `get_one` returns the record of every stored id and 404 for every other id |
| Scenarios.FillTestLog | src/storage.rs:153-156 | inserting test requests 1..=n into a fresh store leaves the newest min(n, capacity) of them, with no gaps |
| Scenarios.StorageCreation | src/storage.rs:129-133 | a fresh store starts its counter at 0 |
| Scenarios.InsertAndRetrieve | src/storage.rs:135-147 | after one insert `latest(10)` holds one record, id 1, method POST, path /webhook/1 |
| Scenarios.MultipleInserts | src/storage.rs:149-163 | after five inserts `latest(10)` gives ids 5, 4, 3, 2, 1 |
| Scenarios.PruningWhenExceedingMaxReqs | src/storage.rs:165-182 | with capacity 3, five inserts leave exactly ids 5, 4, 3 |
| Scenarios.EmptyStorage | src/storage.rs:184-189 | `latest(10)` on a fresh store is empty |
| Scenarios.LimitFunctionality | src/storage.rs:191-205 | after ten inserts `latest(5)` gives ids 10, 9, 8, 7, 6 |
| Scenarios.PostWebhooks | src/handlers.rs:44-75 | n successful posts to a fresh store leave the counter at n and the newest min(n, capacity) ids, with no gaps |
| Scenarios.CapacityThreeLatest | src/handlers.rs:22-30 | five posts with capacity 3: `/latest` lists ids 5, 4, 3 |
| Scenarios.CapacityThreeLookups | src/handlers.rs:32-42 | five posts with capacity 3: ids 1 and 2 are not found, id 5 is |
| Scenarios.CapacityThreeRestart | src/storage.rs:50-56 | reopening after five posts resumes the counter at 5 |
| Scenarios.FailedPostLeavesGap | src/handlers.rs:51-73 | a post whose insert fails gets 500 and still uses up id 1; the next post is stored under id 2 |
| Scenarios.ReopenAfterLastRowErrorReusesId | src/storage.rs:53-55 | when the last row cannot be read at open, the next post reuses id 1 and replaces the record already stored under it |
| Scenarios.ReopenReportsLastRowError | src/storage.rs:53-55 | with the corrected open, reopening either fails or the next post gets id 2 and the earlier record is kept |

## Left out

- Open failures of the recovery read are not modelled: `begin_read`, `open_table` and `range` at src/storage.rs:51-53 can fail and make `Storage::new` return an error, but `Storage.Storage.Open` cannot fail and `Storage.OpenStore` fails only on the last-row read error.
- Storage.LatestOf: a row whose read fails during one `latest` call is skipped by `row.ok()` (src/storage.rs:98); the model has only a permanent `Corrupt` payload, so a one-off read error on a single call cannot be expressed (it has the same effect on that call's result as a `Corrupt` row).
- Storage.Storage.Open: requires (as does `Storage.OpenStore`) the on-disk table to be well formed, including that every decodable row holds the record of its own key. The source never checks this; it holds for tables written only through `insert`, and the descending ids of `LatestOf` and the "stored under it" of `GetOne` rely on it.
- I/O steps of `open_db`: creating the directory, opening or creating the database file, and the table-creating transaction are not modelled, and neither are their failures. Only the recovery scan's own read error is a parameter.
- redb internals are not modelled: durability, crash recovery, snapshot isolation and write serialisation. Each transaction is one atomic update of the table, and a failing step aborts its own transaction.
- The serde_json format is not modelled. A payload is either a record or `Corrupt`, and an encode failure is a fault parameter.
- Concurrency is not modelled. Callers run one after another, so the interleavings that the `Arc` and `AtomicU64` sharing allows are absent, including ids committed out of allocation order.
- The clock (`SystemTime::now`) and the `HeaderMap` to pairs conversion are inputs, including the `unwrap_or("")` fallback for non-text header values.
- The `Method` and `Uri` to-string conversions are inputs too.
- `health`, `src/server.rs`, `src/main.rs`, `public/script.js` and the `Json`/axum response plumbing are not part of this model. The error mapping in `src/utils.rs` appears only as status 500.
- Handlers.PostWebhook: requires the counter to be below u64::MAX. The `+ 1` after a wrapped `fetch_add` is therefore not modelled; `FetchAdd` itself does model the wrap.
- Storage.Storage.Insert: the model has at most one fault per call. A step that could fail in several places is reduced to the first failing transaction.
- `max_reqs` is a `usize` and is modelled as `u64`, since the comparison `len as usize > max_reqs` is the same on 64-bit targets.

## Findings

| source | as written | input that shows it | evidently intended | confidence | as-written member | corrected member |
|---|---|---|---|---|---|---|
| src/storage.rs:53-55 | `if let Some(Ok(..))` drops an error read on the last row, and the counter silently stays 0 | a table holding id 1 whose last row cannot be read at open; the next post gets id 1 and overwrites that record | report the read error, so that a recovered counter is never below a stored key and ids are never reused | medium, not executed | Scenarios.ReopenAfterLastRowErrorReusesId | Storage.OpenStore |
