/**
 * The HTTP handlers of src/handlers.rs that use the request log: id
 * allocation and record construction in `post_webhook`, `get_latest` and
 * `get_one`. Routing, header conversion and the clock are outside the model;
 * their results arrive as parameters.
 */
module Handlers {
  import opened Models
  import opened Table
  import opened Storage

  const OK: nat := 200
  const NOT_FOUND: nat := 404
  const INTERNAL_SERVER_ERROR: nat := 500

  /** The most records `get_latest` returns. */
  const LATEST_LIMIT: u64 := 50

  /** How many of the newest records `get_one` searches. */
  const LOOKUP_LIMIT: u64 := 1000

  /** A handler's outcome: its success value, or the status of an error response. */
  datatype Reply<T> = Success(value: T) | Failure(status: nat)

  /**
   * `as i64` applied to the milliseconds since the epoch: keeps the low 64
   * bits as a two's-complement value, so it is exact up to `i64::MAX`.
   */
  function TruncateToI64(ms: nat): (r: i64)
    ensures ms <= 0x7FFF_FFFF_FFFF_FFFF ==> r as int == ms
    ensures (ms - r as int) % 0x1_0000_0000_0000_0000 == 0
  {
    var low := ms % 0x1_0000_0000_0000_0000;
    if low <= 0x7FFF_FFFF_FFFF_FFFF then low as i64
    else (low - 0x1_0000_0000_0000_0000) as i64
  }

  /** `items.into_iter().find(|r| r.id == id)`: the first record with that id. */
  function FindById(items: seq<StoredRequest>, id: u64): (found: Option<StoredRequest>)
    ensures found.None? <==> forall i :: 0 <= i < |items| ==> items[i].id != id
    ensures found.Some? ==>
      exists i :: (0 <= i < |items| && items[i] == found.value &&
                   found.value.id == id && forall j :: 0 <= j < i ==> items[j].id != id)
  {
    if items == [] then None
    else if items[0].id == id then Some(items[0])
    else
      var found := FindById(items[1..], id);
      assert found.Some? ==>
        exists i :: (0 <= i < |items| && items[i] == found.value &&
                     found.value.id == id && forall j :: 0 <= j < i ==> items[j].id != id) by {
        if found.Some? {
          var i :| 0 <= i < |items[1..]| && items[1..][i] == found.value &&
            found.value.id == id && forall j :: 0 <= j < i ==> items[1..][j].id != id;
          assert items[i + 1] == found.value;
          assert forall j :: 1 <= j < i + 1 ==> items[j] == items[1..][j - 1];
        }
      }
      found
  }

  /**
   * `get_latest`: at most 50 records, newest first, with `count` equal to the
   * number of records; a storage error becomes a 500 response.
   */
  function GetLatest(storage: Storage, readFault: bool): (res: Reply<LatestResponse>)
    reads storage
    requires storage.Valid()
    ensures res.Failure? <==> readFault
    ensures res.Failure? ==> res.status == INTERNAL_SERVER_ERROR
    ensures res.Success? ==> res.value.count as int == |res.value.items| <= LATEST_LIMIT as int
    ensures res.Success? ==> res.value.items == LatestOf(storage.table, LATEST_LIMIT as nat)
  {
    match storage.Latest(LATEST_LIMIT, readFault)
    case Err(_) => Failure(INTERNAL_SERVER_ERROR)
    case Ok(items) => Success(LatestResponse(|items| as u64, items))
  }

  /** Looking an id up among the records `latest` returned finds the row stored under it. */
  lemma {:induction false} LookupInWindow(t: seq<Entry>, id: u64)
    requires WellFormed(t)
    ensures FindById(LatestOf(t, LOOKUP_LIMIT as nat), id).Some? ==>
      exists i :: WindowStart(t, LOOKUP_LIMIT as nat) <= i < |t| && t[i].key == id &&
        t[i].payload == Encoded(FindById(LatestOf(t, LOOKUP_LIMIT as nat), id).value)
    ensures FindById(LatestOf(t, LOOKUP_LIMIT as nat), id).None? ==>
      forall i :: WindowStart(t, LOOKUP_LIMIT as nat) <= i < |t| ==> t[i].key != id || t[i].payload.Corrupt?
  {
    var items := LatestOf(t, LOOKUP_LIMIT as nat);
    var found := FindById(items, id);
    if found.None? {
      forall i | WindowStart(t, LOOKUP_LIMIT as nat) <= i < |t| && t[i].payload.Encoded?
        ensures t[i].key != id
      {
        assert t[i].payload.req in items;
      }
    } else {
      assert found.value in items;
    }
  }

  /**
   * `get_one(id)`: the record stored under `id` when that row is among the
   * 1000 newest rows and decodes; otherwise 404, so a pruned id is not
   * found. A storage error becomes a 500 response.
   */
  function GetOne(storage: Storage, id: u64, readFault: bool): (res: Reply<StoredRequest>)
    reads storage
    requires storage.Valid()
    ensures readFault ==> res == Failure(INTERNAL_SERVER_ERROR)
    ensures !readFault ==> res.Success? || res == Failure(NOT_FOUND)
    ensures res.Success? ==>
      res.value.id == id &&
      exists i :: (WindowStart(storage.table, LOOKUP_LIMIT as nat) <= i < |storage.table| &&
                   storage.table[i] == Entry(id, Encoded(res.value)))
    ensures res == Failure(NOT_FOUND) ==>
      forall i :: WindowStart(storage.table, LOOKUP_LIMIT as nat) <= i < |storage.table| ==>
        storage.table[i].key != id || storage.table[i].payload.Corrupt?
  {
    LookupInWindow(storage.table, id);
    match storage.Latest(LOOKUP_LIMIT, readFault)
    case Err(_) => Failure(INTERNAL_SERVER_ERROR)
    case Ok(items) =>
      match FindById(items, id)
      case Some(r) => Success(r)
      case None => Failure(NOT_FOUND)
  }

  /**
   * `post_webhook`: takes the next id from the counter (`fetch_add(1) + 1`),
   * builds the record from the request and stores it. The id is used up
   * before anything can fail and is never handed back, so a failed request
   * leaves a gap. `elapsedMs` is the clock's reading, `None` when it is
   * before the epoch; `fault` is what the storage layer reports.
   */
  method PostWebhook(storage: Storage, httpMethod: string, uri: string,
                     headers: seq<(string, string)>, body: seq<u8>,
                     elapsedMs: Option<nat>, fault: InsertFault)
    returns (res: Reply<(nat, string)>)
    requires storage.Valid()
    requires storage.nextId < U64_MAX
    modifies storage
    ensures storage.Valid()
    ensures storage.nextId == old(storage.nextId) + 1
    ensures res.Success? ==> res.value == (OK, "ok")
    ensures res.Failure? ==> res.status == INTERNAL_SERVER_ERROR
    ensures elapsedMs.None? ==> res.Failure? && storage.table == old(storage.table)
    ensures elapsedMs.Some? ==>
      var record := StoredRequest(storage.nextId, TruncateToI64(elapsedMs.value),
                                  httpMethod, uri, headers, body);
      && (res.Success? <==> fault.NoFault? || fault.OldestRowUnreadable?)
      && storage.table == AfterInsert(old(storage.table), record, storage.maxReqs, fault)
      && ((KeysAtMost(old(storage.table), old(storage.nextId)) && storage.maxReqs > 0 &&
           !fault.EncodeFails? && !fault.WriteFails?) ==>
            storage.table[|storage.table| - 1] == Entry(storage.nextId, Encoded(record)))
    ensures KeysAtMost(old(storage.table), old(storage.nextId)) ==> KeysAtMost(storage.table, storage.nextId)
  {
    var previous := storage.FetchAdd();
    var id := previous + 1;
    ghost var before := storage.table;
    ghost var wasAhead := KeysAtMost(before, previous);
    if elapsedMs.None? {
      return Failure(INTERNAL_SERVER_ERROR);
    }
    var record := StoredRequest(id, TruncateToI64(elapsedMs.value), httpMethod, uri, headers, body);
    if wasAhead {
      AfterInsertFresh(before, previous, record, storage.maxReqs, fault);
    }
    var stored := storage.Insert(record, fault);
    if stored.Err? {
      return Failure(INTERNAL_SERVER_ERROR);
    }
    return Success((OK, "ok"));
  }
}
