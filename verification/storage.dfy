/**
 * The bounded request log of src/storage.rs: a table of encoded records keyed
 * by id, a counter from which the handlers allocate ids, and a fixed capacity
 * enforced by evicting the oldest row after each insert.
 */
module Storage {
  import opened Models
  import opened Table

  datatype StorageError = IoError | EncodeError

  /** `anyhow::Result`: a value or the storage error that ended the operation. */
  datatype Result<T> = Ok(value: T) | Err(error: StorageError)

  /**
   * Where, if anywhere, the storage layer reports a failure during one
   * `insert`. A failing step aborts its own write transaction.
   */
  datatype InsertFault =
    | NoFault
    | EncodeFails          // encoding the record fails inside the first transaction
    | WriteFails           // any other step of the first transaction fails
    | PruneFails           // any step of the second (prune) transaction fails
    | OldestRowUnreadable  // the prune scan reads the first row as an error

  function Min(a: nat, b: nat): nat
  {
    if a <= b then a else b
  }

  /** A row that decodes holds the record that was stored under its own key. */
  ghost predicate SelfKeyed(t: seq<Entry>)
  {
    forall i :: 0 <= i < |t| && t[i].payload.Encoded? ==> t[i].payload.req.id == t[i].key
  }

  /** What a table written only through `insert` looks like. */
  ghost predicate WellFormed(t: seq<Entry>)
  {
    Ascending(t) && SelfKeyed(t)
  }

  /** No key of the table lies above `n`. */
  ghost predicate KeysAtMost(t: seq<Entry>, n: u64)
  {
    forall x :: x in ToMap(t) ==> x <= n
  }

  /** The ids of a result list, strictly decreasing from newest to oldest. */
  ghost predicate IdsDescending(items: seq<StoredRequest>)
  {
    forall i, j :: 0 <= i < j < |items| ==> items[i].id > items[j].id
  }

  /**
   * Counter recovery at open: the key of the last row of an ascending scan,
   * or 0 when the table is empty. It is the largest key in the table.
   */
  function LastKey(t: seq<Entry>): (k: u64)
    requires Ascending(t)
    ensures t == [] ==> k == 0
    ensures t != [] ==> k in ToMap(t)
    ensures forall x :: x in ToMap(t) ==> x <= k
  {
    ToMapKeys(t);
    if t == [] then 0 else t[|t| - 1].key
  }

  /**
   * The second write transaction of `insert`: when the table holds more than
   * `maxReqs` rows, exactly one row goes, the one with the smallest key;
   * otherwise the table is left as it is.
   */
  function Prune(t: seq<Entry>, maxReqs: u64): (r: seq<Entry>)
    ensures |t| <= maxReqs as int ==> r == t
    ensures |t| > maxReqs as int ==> r == t[1..] && |r| == |t| - 1
    ensures Ascending(t) ==> Ascending(r)
    ensures Ascending(t) && |t| > maxReqs as int ==>
      ToMap(r) == ToMap(t) - {t[0].key} && forall x :: x in ToMap(t) ==> t[0].key <= x
  {
    if |t| > maxReqs as int then
      DeleteOldest(t);
      Delete(t, t[0].key)
    else
      t
  }

  /** Removing the key of the first row of an ascending table removes the least key. */
  lemma {:induction false} DeleteOldest(t: seq<Entry>)
    requires t != []
    ensures Ascending(t) ==> Ascending(Delete(t, t[0].key))
    ensures Ascending(t) ==> ToMap(Delete(t, t[0].key)) == ToMap(t) - {t[0].key}
    ensures Ascending(t) ==> forall x :: x in ToMap(t) ==> t[0].key <= x
  {
    if Ascending(t) {
      FirstKeyIsLeast(t);
      DeleteSpec(t, t[0].key);
    }
  }

  function Max(a: nat, b: nat): nat
  {
    if a <= b then b else a
  }

  /**
   * What one insert followed by its prune does to the keys: no key other than
   * the inserted one appears, and at most one key disappears, which lies
   * below every key that stays.
   */
  lemma {:induction false} InsertThenPruneKeys(t: seq<Entry>, k: u64, v: Payload, maxReqs: u64)
    requires Ascending(t)
    ensures Ascending(Prune(Put(t, k, v), maxReqs))
    ensures forall x :: x in ToMap(Prune(Put(t, k, v), maxReqs)) ==> x in ToMap(t) || x == k
    ensures |ToMap(t).Keys - ToMap(Prune(Put(t, k, v), maxReqs)).Keys| <= 1
    ensures forall x, y ::
      (x in ToMap(t) && x !in ToMap(Prune(Put(t, k, v), maxReqs)) &&
       y in ToMap(Prune(Put(t, k, v), maxReqs))) ==> x < y
  {
    var p := Put(t, k, v);
    var r := Prune(p, maxReqs);
    PutSpec(t, k, v);
    var gone := ToMap(t).Keys - ToMap(r).Keys;
    if |p| > maxReqs as int {
      var m := p[0].key;
      assert ToMap(r) == ToMap(t)[k := v] - {m};
      assert gone <= {m};
      SubsetSize(gone, {m});
    } else {
      assert r == p;
      assert gone == {};
    }
  }

  /**
   * What one insert followed by its prune does to the size: it never rises
   * above both the old size and the capacity, so a table within capacity
   * stays within it.
   */
  lemma {:induction false} InsertThenPruneSize(t: seq<Entry>, k: u64, v: Payload, maxReqs: u64)
    requires Ascending(t)
    ensures |Prune(Put(t, k, v), maxReqs)| <= Max(|t|, maxReqs as int)
    ensures |t| <= maxReqs as int ==> |Prune(Put(t, k, v), maxReqs)| <= maxReqs as int
  {
    PutSize(t, k, v);
  }

  /**
   * Capacity is not restored once exceeded. A prune that fails on a full
   * table leaves one row too many. From a table one row over capacity, every
   * successful insert of a fresh key adds one row and removes one, so the
   * table stays one row over.
   */
  lemma {:induction false} OverCapacityPersists(t: seq<Entry>, req: StoredRequest, maxReqs: u64)
    requires Ascending(t)
    requires forall i :: 0 <= i < |t| ==> t[i].key < req.id
    ensures |t| == maxReqs as int ==> |AfterInsert(t, req, maxReqs, PruneFails)| == maxReqs as int + 1
    ensures |t| == maxReqs as int + 1 ==> |AfterInsert(t, req, maxReqs, NoFault)| == maxReqs as int + 1
  {
    PutAbove(t, req.id, Encoded(req));
  }

  /**
   * A key above every stored key goes into a new last row, and a prune with
   * room for at least one row leaves that row in place.
   */
  lemma {:induction false} FreshKeyIsNewest(t: seq<Entry>, k: u64, v: Payload, maxReqs: u64)
    requires Ascending(t)
    requires forall x :: x in ToMap(t) ==> x < k
    ensures Put(t, k, v) == t + [Entry(k, v)]
    ensures maxReqs > 0 ==>
      |Prune(Put(t, k, v), maxReqs)| > 0 &&
      Prune(Put(t, k, v), maxReqs)[|Prune(Put(t, k, v), maxReqs)| - 1] == Entry(k, v)
  {
    ToMapKeys(t);
    PutAbove(t, k, v);
  }

  /**
   * The table after `insert(req)` given what the storage layer reports:
   * unchanged when the first transaction aborts, with the new row but
   * without pruning when the second one aborts or cannot read the oldest
   * row, and pruned otherwise.
   */
  function AfterInsert(t: seq<Entry>, req: StoredRequest, maxReqs: u64, fault: InsertFault): seq<Entry>
  {
    match fault
    case EncodeFails => t
    case WriteFails => t
    case PruneFails => Put(t, req.id, Encoded(req))
    case OldestRowUnreadable => Put(t, req.id, Encoded(req))
    case NoFault => Prune(Put(t, req.id, Encoded(req)), maxReqs)
  }

  /**
   * Whatever the storage layer reports, an insert keeps the table well formed,
   * adds no key but the record's own, and removes at most one key, one below
   * every key that stays.
   */
  lemma {:induction false} AfterInsertSpec(t: seq<Entry>, req: StoredRequest, maxReqs: u64, fault: InsertFault)
    requires WellFormed(t)
    ensures WellFormed(AfterInsert(t, req, maxReqs, fault))
    ensures fault.EncodeFails? || fault.WriteFails? ==> AfterInsert(t, req, maxReqs, fault) == t
    ensures forall x :: x in ToMap(AfterInsert(t, req, maxReqs, fault)) ==> x in ToMap(t) || x == req.id
    ensures |ToMap(t).Keys - ToMap(AfterInsert(t, req, maxReqs, fault)).Keys| <= 1
    ensures forall x, y ::
      (x in ToMap(t) && x !in ToMap(AfterInsert(t, req, maxReqs, fault)) &&
       y in ToMap(AfterInsert(t, req, maxReqs, fault))) ==> x < y
  {
    var p := Put(t, req.id, Encoded(req));
    PutSpec(t, req.id, Encoded(req));
    InsertThenPruneKeys(t, req.id, Encoded(req), maxReqs);
    assert SelfKeyed(p);
    if fault.NoFault? {
      assert forall i :: 0 <= i < |Prune(p, maxReqs)| ==> Prune(p, maxReqs)[i] in p;
    } else if !fault.EncodeFails? && !fault.WriteFails? {
      assert ToMap(t).Keys - ToMap(p).Keys == {};
    }
  }

  /**
   * A record that takes the id after a counter no stored key exceeds becomes
   * the newest row, unless the first transaction aborted or the capacity is
   * 0, and afterwards no stored key exceeds the record's id.
   */
  lemma {:induction false} AfterInsertFresh(t: seq<Entry>, n: u64, req: StoredRequest, maxReqs: u64, fault: InsertFault)
    requires WellFormed(t) && KeysAtMost(t, n) && req.id as int == n as int + 1
    ensures KeysAtMost(AfterInsert(t, req, maxReqs, fault), req.id)
    ensures maxReqs > 0 && !fault.EncodeFails? && !fault.WriteFails? ==>
      |AfterInsert(t, req, maxReqs, fault)| > 0 &&
      AfterInsert(t, req, maxReqs, fault)[|AfterInsert(t, req, maxReqs, fault)| - 1] == Entry(req.id, Encoded(req))
  {
    AfterInsertSpec(t, req, maxReqs, fault);
    FreshKeyIsNewest(t, req.id, Encoded(req), maxReqs);
  }

  lemma {:induction false} SubsetSize<T>(a: set<T>, b: set<T>)
    requires a <= b
    ensures |a| <= |b|
  {
    assert b == a + (b - a);
  }

  /**
   * The rows `range(0..).rev().take(n)` visits: the `n` rows with the highest
   * keys (all of them when there are fewer), highest key first.
   */
  function Newest(t: seq<Entry>, n: nat): (rows: seq<Entry>)
    ensures |rows| == Min(n, |t|)
    ensures forall i :: 0 <= i < |rows| ==> rows[i] == t[|t| - 1 - i]
  {
    if n == 0 || t == [] then [] else [t[|t| - 1]] + Newest(t[..|t| - 1], n - 1)
  }

  /**
   * The `filter_map` step: the records of the rows that decode, in row order;
   * a row that does not decode is dropped.
   */
  function Decoded(rows: seq<Entry>): (rs: seq<StoredRequest>)
    ensures |rs| <= |rows|
    ensures |rs| == |rows| <==> forall i :: 0 <= i < |rows| ==> rows[i].payload.Encoded?
    ensures forall x :: x in rs <==> exists i :: 0 <= i < |rows| && rows[i].payload == Encoded(x)
  {
    if rows == [] then []
    else
      var rest := Decoded(rows[1..]);
      assert forall x :: (exists i :: 0 <= i < |rows[1..]| && rows[1..][i].payload == Encoded(x))
                         <==> (exists i :: 1 <= i < |rows| && rows[i].payload == Encoded(x)) by {
        forall x | exists i :: 1 <= i < |rows| && rows[i].payload == Encoded(x)
          ensures exists i :: 0 <= i < |rows[1..]| && rows[1..][i].payload == Encoded(x)
        {
          var i :| 1 <= i < |rows| && rows[i].payload == Encoded(x);
          assert rows[1..][i - 1] == rows[i];
        }
      }
      if rows[0].payload.Encoded? then [rows[0].payload.req] + rest else rest
  }

  /**
   * `filter_map` keeps row order: decoding two runs of rows one after the
   * other gives the records of the first run followed by those of the second.
   */
  lemma {:induction false} DecodedAppend(a: seq<Entry>, b: seq<Entry>)
    ensures Decoded(a + b) == Decoded(a) + Decoded(b)
  {
    if a != [] {
      assert (a + b)[1..] == a[1..] + b;
      DecodedAppend(a[1..], b);
    } else {
      assert a + b == b;
    }
  }

  /** When every row decodes, the records come out one per row, in row order. */
  lemma {:induction false} DecodedAllEncoded(rows: seq<Entry>)
    requires forall i :: 0 <= i < |rows| ==> rows[i].payload.Encoded?
    ensures |Decoded(rows)| == |rows|
    ensures forall i :: 0 <= i < |rows| ==> Decoded(rows)[i] == rows[i].payload.req
  {
    if rows != [] {
      DecodedAllEncoded(rows[1..]);
    }
  }

  /**
   * Dropping rows keeps the order: rows with strictly decreasing keys give
   * records with strictly decreasing ids.
   */
  lemma {:induction false} DecodedDescending(rows: seq<Entry>)
    requires SelfKeyed(rows)
    requires forall i, j :: 0 <= i < j < |rows| ==> rows[i].key > rows[j].key
    ensures IdsDescending(Decoded(rows))
  {
    if rows != [] {
      var rest := rows[1..];
      assert SelfKeyed(rest) by {
        forall i | 0 <= i < |rest| && rest[i].payload.Encoded? ensures rest[i].payload.req.id == rest[i].key {
          assert rest[i] == rows[i + 1];
        }
      }
      forall i, j | 0 <= i < j < |rest| ensures rest[i].key > rest[j].key {
        assert rest[i] == rows[i + 1] && rest[j] == rows[j + 1];
      }
      DecodedDescending(rest);
      var tail := Decoded(rest);
      if rows[0].payload.Encoded? {
        var rs := [rows[0].payload.req] + tail;
        forall i, j | 0 <= i < j < |rs| ensures rs[i].id > rs[j].id {
          assert rs[j] == tail[j - 1];
          if i == 0 {
            assert tail[j - 1] in tail;
            var k :| 0 <= k < |rest| && rest[k].payload == Encoded(tail[j - 1]);
            assert rest[k] == rows[k + 1];
          } else {
            assert rs[i] == tail[i - 1];
          }
        }
        assert Decoded(rows) == rs;
      }
    }
  }

  /** The rows `Newest` picks are the last `Min(limit, |t|)` rows of the table. */
  lemma {:induction false} NewestWindow(t: seq<Entry>, limit: nat)
    requires WellFormed(t)
    ensures SelfKeyed(Newest(t, limit))
    ensures forall i, j :: 0 <= i < j < |Newest(t, limit)| ==> Newest(t, limit)[i].key > Newest(t, limit)[j].key
    ensures forall x ::
      ((exists i :: 0 <= i < |Newest(t, limit)| && Newest(t, limit)[i].payload == Encoded(x))
       <==> (exists i :: WindowStart(t, limit) <= i < |t| && t[i].payload == Encoded(x)))
    ensures (forall i :: 0 <= i < |Newest(t, limit)| ==> Newest(t, limit)[i].payload.Encoded?)
      <==> (forall i :: WindowStart(t, limit) <= i < |t| ==> t[i].payload.Encoded?)
  {
    var rows := Newest(t, limit);
    var lo := WindowStart(t, limit);
    forall x | exists i :: lo <= i < |t| && t[i].payload == Encoded(x)
      ensures exists i :: 0 <= i < |rows| && rows[i].payload == Encoded(x)
    {
      var i :| lo <= i < |t| && t[i].payload == Encoded(x);
      assert rows[|t| - 1 - i] == t[i];
    }
    if forall i :: 0 <= i < |rows| ==> rows[i].payload.Encoded? {
      forall i | lo <= i < |t| ensures t[i].payload.Encoded? {
        assert rows[|t| - 1 - i] == t[i];
      }
    }
  }

  /** Index of the oldest row `latest(limit)` looks at. */
  function WindowStart(t: seq<Entry>, limit: nat): nat
  {
    |t| - Min(limit, |t|)
  }

  /**
   * `latest(limit)` over a table: the records of the `limit` newest rows,
   * newest first. A row that does not decode is left out but still uses one
   * of the `limit` slots, because the rows are taken before they are decoded.
   */
  function LatestOf(t: seq<Entry>, limit: nat): (items: seq<StoredRequest>)
    requires WellFormed(t)
    ensures |items| <= limit && |items| <= |t|
    ensures IdsDescending(items)
    ensures forall x :: x in items <==>
      exists i :: WindowStart(t, limit) <= i < |t| && t[i].payload == Encoded(x)
    ensures |items| == Min(limit, |t|) <==>
      forall i :: WindowStart(t, limit) <= i < |t| ==> t[i].payload.Encoded?
    ensures (forall i :: WindowStart(t, limit) <= i < |t| ==> t[i].payload.Encoded?) ==>
      forall i :: 0 <= i < |items| ==> items[i] == t[|t| - 1 - i].payload.req
  {
    var rows := Newest(t, limit);
    NewestWindow(t, limit);
    DecodedDescending(rows);
    LatestAllEncoded(t, limit);
    Decoded(rows)
  }

  /** `latest` grows by extension: a smaller limit gives a prefix of the larger limit's result. */
  lemma {:induction false} LatestPrefix(t: seq<Entry>, a: nat, b: nat)
    requires WellFormed(t) && a <= b
    ensures LatestOf(t, a) <= LatestOf(t, b)
  {
    var rows := Newest(t, b);
    assert rows == Newest(t, a) + rows[Min(a, |t|)..];
    DecodedAppend(Newest(t, a), rows[Min(a, |t|)..]);
  }

  /** When every row of the window decodes, record `i` comes from row `|t| - 1 - i`. */
  lemma {:induction false} LatestAllEncoded(t: seq<Entry>, limit: nat)
    ensures (forall i :: WindowStart(t, limit) <= i < |t| ==> t[i].payload.Encoded?) ==>
      forall i :: 0 <= i < Min(limit, |t|) ==> Decoded(Newest(t, limit))[i] == t[|t| - 1 - i].payload.req
  {
    var rows := Newest(t, limit);
    if forall i :: WindowStart(t, limit) <= i < |t| ==> t[i].payload.Encoded? {
      forall i | 0 <= i < |rows| ensures rows[i].payload.Encoded? {
        assert rows[i] == t[|t| - 1 - i];
      }
      DecodedAllEncoded(rows);
    }
  }

  /** A corrupt row among the newest still uses up a slot of `limit`. */
  lemma {:induction false} CorruptRowUsesSlot(r: StoredRequest)
    requires r.id == 1
    ensures LatestOf([Entry(1, Encoded(r)), Entry(2, Corrupt)], 1) == []
  {
  }

  /**
   * An open request log. `table` is the `reqs` table, `nextId` the shared
   * counter holding the last id handed out, `maxReqs` the capacity.
   */
  class Storage {
    var table: seq<Entry>
    var nextId: u64
    const maxReqs: u64

    ghost predicate Valid()
      reads this
    {
      WellFormed(table)
    }

    /** No stored key lies above the counter, so the next allocated id is fresh. */
    ghost predicate CounterAhead()
      reads this
    {
      KeysAtMost(table, nextId)
    }

    /**
     * `Storage::new`: `disk` is the table already on disk, if any. Opening
     * creates the table when it is absent and never adds or removes rows; the
     * counter is recovered from the largest key. When the scan reads the last
     * row as an error (`lastRowFault`) the counter silently stays at 0.
     */
    constructor Open(disk: Option<seq<Entry>>, maxReqs: u64, lastRowFault: bool)
      requires disk.Some? ==> WellFormed(disk.value)
      ensures Valid()
      ensures table == (if disk.Some? then disk.value else [])
      ensures nextId == (if lastRowFault then 0 else LastKey(table))
      ensures this.maxReqs == maxReqs
      ensures !lastRowFault ==> CounterAhead()
    {
      var rows := if disk.Some? then disk.value else [];
      var lastId: u64 := 0;
      if rows != [] && !lastRowFault {
        lastId := rows[|rows| - 1].key;
      }
      table := rows;
      nextId := lastId;
      this.maxReqs := maxReqs;
    }

    /**
     * `insert`: the first write transaction stores `req` under `req.id` and
     * commits; a second one then evicts the oldest row if the table is over
     * capacity. A failure aborts only the transaction it happens in, so a
     * prune failure leaves the new row in place and still reports an error.
     */
    method Insert(req: StoredRequest, fault: InsertFault) returns (res: Result<()>)
      requires Valid()
      modifies this`table
      ensures Valid()
      ensures res.Ok? <==> fault.NoFault? || fault.OldestRowUnreadable?
      ensures res.Err? ==> res.error == (if fault.EncodeFails? then EncodeError else IoError)
      ensures table == AfterInsert(old(table), req, maxReqs, fault)
    {
      // First write transaction: encode, insert, commit.
      if fault.EncodeFails? {
        return Err(EncodeError);
      }
      if fault.WriteFails? {
        return Err(IoError);
      }
      AfterInsertSpec(table, req, maxReqs, fault);
      table := Put(table, req.id, Encoded(req));

      // Second write transaction: remove the first row of an ascending scan.
      if fault.PruneFails? {
        return Err(IoError);
      }
      var len := |table|;
      if len > maxReqs as int && !fault.OldestRowUnreadable? {
        var oldest := table[0].key;
        table := Delete(table, oldest);
      }
      return Ok(());
    }

    /**
     * `latest(limit)` in one read transaction: the table and the counter are
     * only read. `readFault` is an error reported by the read transaction.
     */
    function Latest(limit: u64, readFault: bool): (res: Result<seq<StoredRequest>>)
      reads this
      requires Valid()
      ensures res.Err? <==> readFault
      ensures res.Ok? ==> res.value == LatestOf(table, limit as nat)
    {
      if readFault then Err(IoError) else Ok(LatestOf(table, limit as nat))
    }

    /** `fetch_add(1)` on the counter: returns the old value; wraps at `u64::MAX`. */
    method FetchAdd() returns (previous: u64)
      modifies this`nextId
      ensures previous == old(nextId)
      ensures nextId == if previous == U64_MAX then 0 else previous + 1
    {
      previous := nextId;
      nextId := if nextId == U64_MAX then 0 else nextId + 1;
    }
  }

  /**
   * `Storage::new` with the scan error on the last row reported instead of
   * ignored: the store opens only when the counter could be recovered, and
   * then no stored key lies above it, so no id is ever handed out twice.
   */
  method OpenStore(disk: Option<seq<Entry>>, maxReqs: u64, lastRowFault: bool) returns (res: Result<Storage>)
    requires disk.Some? ==> WellFormed(disk.value)
    ensures res.Err? <==> lastRowFault
    ensures res.Err? ==> res.error == IoError
    ensures res.Ok? ==> fresh(res.value) && res.value.Valid() && res.value.maxReqs == maxReqs
    ensures res.Ok? ==> res.value.table == (if disk.Some? then disk.value else [])
    ensures res.Ok? ==> res.value.nextId == LastKey(res.value.table) && res.value.CounterAhead()
  {
    if lastRowFault {
      return Err(IoError);
    }
    var s := new Storage.Open(disk, maxReqs, false);
    return Ok(s);
  }
}
