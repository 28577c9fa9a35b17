/**
 * The unit-test scenarios of src/storage.rs, and the end-to-end scenario of a
 * log with capacity 3, written as client code whose outcome is verified.
 */
module Scenarios {
  import opened Models
  import opened Table
  import opened Storage
  import opened Handlers

  function DigitChar(d: nat): (c: char)
    requires d < 10
    ensures '0' <= c <= '9'
  {
    "0123456789"[d]
  }

  /** The decimal digits of `n`, as `format!("{}", n)` writes them. */
  function Decimal(n: nat): (s: string)
    ensures |s| > 0
    ensures forall i :: 0 <= i < |s| ==> '0' <= s[i] <= '9'
  {
    if n < 10 then [DigitChar(n)] else Decimal(n / 10) + [DigitChar(n % 10)]
  }

  /** The bytes of an ASCII string, as `into_bytes` gives them. */
  function AsciiBytes(s: string): (b: seq<u8>)
    requires forall i :: 0 <= i < |s| ==> s[i] as int < 128
    ensures |b| == |s|
  {
    seq(|s|, i requires 0 <= i < |s| => s[i] as int as u8)
  }

  /** `create_test_request(id)`. */
  function TestRequest(id: u64): StoredRequest
    requires id <= 1000
  {
    var json := "{\"test\": " + Decimal(id as nat) + "}";
    StoredRequest(id, (1234567890 + id as int) as i64, "POST",
                  "/webhook/" + Decimal(id as nat),
                  [("content-type", "application/json")],
                  AsciiBytes(json))
  }

  /** Rows whose keys run from `lo` upwards without gaps, every row decodable. */
  ghost predicate ConsecutiveFrom(t: seq<Entry>, lo: nat)
  {
    forall j :: 0 <= j < |t| ==> t[j].key as int == lo + j && t[j].payload.Encoded?
  }

  /** Every row holds the test request of its own key. */
  ghost predicate TestRowsOnly(t: seq<Entry>)
  {
    forall j :: 0 <= j < |t| ==> t[j].key <= 1000 && t[j].payload == Encoded(TestRequest(t[j].key))
  }

  /**
   * Inserting the next id into a gap-free log with room for it or full to
   * capacity appends its row and, when full, drops the oldest one.
   */
  lemma {:induction false} InsertNextConsecutive(t: seq<Entry>, lo: nat, req: StoredRequest, maxReqs: u64)
    requires WellFormed(t) && ConsecutiveFrom(t, lo) && req.id as int == lo + |t|
    requires |t| <= maxReqs as int
    ensures AfterInsert(t, req, maxReqs, NoFault) == Prune(t + [Entry(req.id, Encoded(req))], maxReqs)
    ensures var r := AfterInsert(t, req, maxReqs, NoFault);
      |r| == Min(|t| + 1, maxReqs as int) && ConsecutiveFrom(r, req.id as int + 1 - |r|)
  {
    PutAbove(t, req.id, Encoded(req));
    var p := t + [Entry(req.id, Encoded(req))];
    assert ConsecutiveFrom(p, lo) by {
      forall j | 0 <= j < |p| ensures p[j].key as int == lo + j && p[j].payload.Encoded? {
        if j < |t| { assert p[j] == t[j]; }
      }
    }
    var r := Prune(p, maxReqs);
    if |p| > maxReqs as int {
      assert r == p[1..];
      forall j | 0 <= j < |r| ensures r[j].key as int == lo + 1 + j && r[j].payload.Encoded? {
        assert r[j] == p[j + 1];
      }
    }
  }

  /** Appending a test row to test rows, and then dropping the first row, leaves test rows. */
  lemma {:induction false} TestRowsAppend(t: seq<Entry>, req: StoredRequest, maxReqs: u64)
    requires TestRowsOnly(t) && req.id <= 1000 && req == TestRequest(req.id)
    ensures TestRowsOnly(Prune(t + [Entry(req.id, Encoded(req))], maxReqs))
  {
    var p := t + [Entry(req.id, Encoded(req))];
    assert TestRowsOnly(p) by {
      forall j | 0 <= j < |p| ensures p[j].key <= 1000 && p[j].payload == Encoded(TestRequest(p[j].key)) {
        if j < |t| { assert p[j] == t[j]; }
      }
    }
    if |p| > maxReqs as int {
      var r := p[1..];
      forall j | 0 <= j < |r| ensures r[j].key <= 1000 && r[j].payload == Encoded(TestRequest(r[j].key)) {
        assert r[j] == p[j + 1];
      }
    }
  }

  /** Opens an empty log and inserts test requests 1..=n, as the tests' loops do. */
  method FillTestLog(n: nat, maxReqs: u64) returns (s: Storage)
    requires n < 1000
    ensures fresh(s) && s.Valid()
    ensures |s.table| == Min(n, maxReqs as int)
    ensures ConsecutiveFrom(s.table, n + 1 - |s.table|) && TestRowsOnly(s.table)
  {
    s := new Storage.Open(None, maxReqs, false);
    var i := 1;
    while i <= n
      invariant 1 <= i <= n + 1
      invariant s.Valid() && s.maxReqs == maxReqs
      invariant |s.table| == Min(i - 1, maxReqs as int)
      invariant ConsecutiveFrom(s.table, i - |s.table|) && TestRowsOnly(s.table)
    {
      var req := TestRequest(i as u64);
      InsertNextConsecutive(s.table, i - |s.table|, req, maxReqs);
      TestRowsAppend(s.table, req, maxReqs);
      var r := s.Insert(req, NoFault);
      i := i + 1;
    }
  }

  /** The ids of a result list, in order. */
  function Ids(items: seq<StoredRequest>): (ids: seq<u64>)
    ensures |ids| == |items|
    ensures forall i :: 0 <= i < |items| ==> ids[i] == items[i].id
  {
    seq(|items|, i requires 0 <= i < |items| => items[i].id)
  }

  /** `n` ids counting down from `top`. */
  function Countdown(top: u64, n: nat): (ids: seq<u64>)
    requires n <= top as int + 1
    ensures |ids| == n
    ensures forall i :: 0 <= i < n ==> ids[i] as int == top as int - i
  {
    if n == 0 then [] else [top] + (if top == 0 then [] else Countdown(top - 1, n - 1))
  }

  /** On gap-free rows, `latest(limit)` lists the newest `limit` ids counting down. */
  lemma {:induction false} LatestOfConsecutive(t: seq<Entry>, lo: nat, limit: nat)
    requires WellFormed(t) && ConsecutiveFrom(t, lo) && t != []
    ensures lo + |t| - 1 <= U64_MAX as int
    ensures Ids(LatestOf(t, limit)) == Countdown((lo + |t| - 1) as u64, Min(limit, |t|))
  {
    var items := LatestOf(t, limit);
    assert t[|t| - 1].key as int == lo + |t| - 1;
    var expected := Countdown((lo + |t| - 1) as u64, Min(limit, |t|));
    forall i | 0 <= i < |items| ensures Ids(items)[i] == expected[i] {
      assert t[|t| - 1 - i].key as int == lo + |t| - 1 - i;
    }
  }

  /** `test_storage_creation`: a fresh log starts its counter at 0. */
  method StorageCreation() returns (counter: u64)
    ensures counter == 0
  {
    var s := new Storage.Open(None, 100, false);
    counter := s.nextId;
  }

  /** `test_insert_and_retrieve`. */
  method InsertAndRetrieve() returns (items: seq<StoredRequest>)
    ensures |items| == 1
    ensures items[0].id == 1 && items[0].httpMethod == "POST" && items[0].path == "/webhook/1"
  {
    var s := FillTestLog(1, 100);
    var r := s.Latest(10, false);
    items := r.value;
    assert s.table[0].key == 1;
  }

  /** `test_multiple_inserts`: five rows, newest first. */
  method MultipleInserts() returns (ids: seq<u64>)
    ensures ids == [5, 4, 3, 2, 1]
  {
    var s := FillTestLog(5, 100);
    LatestOfConsecutive(s.table, 1, 10);
    var r := s.Latest(10, false);
    ids := Ids(r.value);
  }

  /** `test_pruning_when_exceeding_max_reqs`: capacity 3 keeps exactly ids 5, 4, 3. */
  method PruningWhenExceedingMaxReqs() returns (ids: seq<u64>)
    ensures ids == [5, 4, 3]
  {
    var s := FillTestLog(5, 3);
    LatestOfConsecutive(s.table, 3, 10);
    var r := s.Latest(10, false);
    ids := Ids(r.value);
  }

  /** `test_empty_storage`. */
  method EmptyStorage() returns (items: seq<StoredRequest>)
    ensures items == []
  {
    var s := new Storage.Open(None, 100, false);
    var r := s.Latest(10, false);
    items := r.value;
  }

  /** `test_limit_functionality`: ten rows, limit 5. */
  method LimitFunctionality() returns (ids: seq<u64>)
    ensures ids == [10, 9, 8, 7, 6]
  {
    var s := FillTestLog(10, 100);
    LatestOfConsecutive(s.table, 1, 5);
    var r := s.Latest(5, false);
    ids := Ids(r.value);
  }

  /** Opens an empty log and posts `n` webhooks, each with every step succeeding. */
  method PostWebhooks(n: nat, maxReqs: u64) returns (s: Storage)
    requires n < 1000
    ensures fresh(s) && s.Valid() && s.maxReqs == maxReqs && s.nextId as int == n
    ensures |s.table| == Min(n, maxReqs as int)
    ensures ConsecutiveFrom(s.table, n + 1 - |s.table|)
  {
    s := new Storage.Open(None, maxReqs, false);
    var i := 1;
    while i <= n
      invariant 1 <= i <= n + 1
      invariant s.Valid() && s.maxReqs == maxReqs && s.nextId as int == i - 1
      invariant |s.table| == Min(i - 1, maxReqs as int)
      invariant ConsecutiveFrom(s.table, i - |s.table|)
    {
      var ms := 1_700_000_000_000 + i;
      var record := StoredRequest(i as u64, TruncateToI64(ms), "POST", "/webhook", [], []);
      ghost var before := s.table;
      InsertNextConsecutive(before, i - |before|, record, maxReqs);
      var posted := PostWebhook(s, "POST", "/webhook", [], [], Some(ms), NoFault);
      assert s.table == AfterInsert(before, record, maxReqs, NoFault);
      i := i + 1;
    }
  }

  /** On a gap-free log of at most 1000 rows, `get_one` finds exactly the stored ids. */
  lemma {:induction false} LookupConsecutive(s: Storage, lo: nat, id: u64)
    requires s.Valid() && ConsecutiveFrom(s.table, lo) && |s.table| <= LOOKUP_LIMIT as int
    ensures lo <= id as int < lo + |s.table| ==>
      GetOne(s, id, false) == Success(s.table[id as int - lo].payload.req)
    ensures !(lo <= id as int < lo + |s.table|) ==> GetOne(s, id, false) == Failure(NOT_FOUND)
  {
    var res := GetOne(s, id, false);
    assert WindowStart(s.table, LOOKUP_LIMIT as nat) == 0;
    if lo <= id as int < lo + |s.table| {
      var k := id as int - lo;
      assert s.table[k].key == id && s.table[k].payload.Encoded?;
    }
  }

  /** Five webhooks posted to a log of capacity 3: `/latest` lists ids 5, 4, 3. */
  method CapacityThreeLatest() returns (latest: seq<u64>)
    ensures latest == [5, 4, 3]
  {
    var s := PostWebhooks(5, 3);
    LatestOfConsecutive(s.table, 3, LATEST_LIMIT as nat);
    var page := GetLatest(s, false);
    latest := Ids(page.value.items);
  }

  /** Five webhooks posted to a log of capacity 3: ids 1 and 2 were pruned, id 5 is found. */
  method CapacityThreeLookups() returns (lookup1: Reply<StoredRequest>, lookup2: Reply<StoredRequest>,
                                         lookup5: Reply<StoredRequest>)
    ensures lookup1 == Failure(NOT_FOUND) && lookup2 == Failure(NOT_FOUND)
    ensures lookup5.Success? && lookup5.value.id == 5
  {
    var s := PostWebhooks(5, 3);
    LookupConsecutive(s, 3, 1);
    LookupConsecutive(s, 3, 2);
    LookupConsecutive(s, 3, 5);
    lookup1 := GetOne(s, 1, false);
    lookup2 := GetOne(s, 2, false);
    lookup5 := GetOne(s, 5, false);
  }

  /** After five webhooks and a restart, the counter resumes at 5, so the next id is 6. */
  method CapacityThreeRestart() returns (reopenedCounter: u64)
    ensures reopenedCounter == 5
  {
    var s := PostWebhooks(5, 3);
    assert s.table[2].key == 5;
    var reopened := new Storage.Open(Some(s.table), 3, false);
    reopenedCounter := reopened.nextId;
  }

  /**
   * Reopening a log whose last row cannot be read: the scan error is
   * ignored, the counter restarts at 0, and the next webhook is stored under
   * id 1, replacing the record already kept under that id.
   */
  method ReopenAfterLastRowErrorReusesId(r: StoredRequest) returns (before: seq<Entry>, after: seq<Entry>)
    requires r.id == 1
    ensures Entry(1, Encoded(r)) in before
    ensures r.body != [9] ==> Entry(1, Encoded(r)) !in after
    ensures |after| == |before|
  {
    before := [Entry(1, Encoded(r))];
    var s := new Storage.Open(Some(before), 100, true);
    var posted := PostWebhook(s, "POST", "/later", [], [9], Some(5), NoFault);
    after := s.table;
    assert after == [Entry(1, Encoded(StoredRequest(1, 5, "POST", "/later", [], [9])))];
  }

  /**
   * With the scan error reported, reopening the same log either fails or
   * resumes the counter above every stored key, so the next webhook adds a
   * row and keeps the earlier record.
   */
  method ReopenReportsLastRowError(r: StoredRequest, lastRowFault: bool) returns (reopened: bool, after: seq<Entry>)
    requires r.id == 1
    ensures reopened <==> !lastRowFault
    ensures reopened ==> after == [Entry(1, Encoded(r)), Entry(2, Encoded(StoredRequest(2, 5, "POST", "/later", [], [9])))]
  {
    var before := [Entry(1, Encoded(r))];
    var res := OpenStore(Some(before), 100, lastRowFault);
    reopened := res.Ok?;
    after := [];
    if res.Ok? {
      var s := res.value;
      assert s.nextId == 1;
      var posted := PostWebhook(s, "POST", "/later", [], [9], Some(5), NoFault);
      after := s.table;
      PutAbove(before, 2, Encoded(StoredRequest(2, 5, "POST", "/later", [], [9])));
    }
  }

  /**
   * A post whose insert fails still uses up its id: the next post gets id 2,
   * and id 1 is never stored.
   */
  method FailedPostLeavesGap() returns (ids: seq<u64>, first: Reply<(nat, string)>)
    ensures first.Failure? && first.status == INTERNAL_SERVER_ERROR
    ensures ids == [2]
  {
    var s := new Storage.Open(None, 10, false);
    first := PostWebhook(s, "POST", "/a", [], [], Some(1), WriteFails);
    var second := PostWebhook(s, "POST", "/b", [], [], Some(2), NoFault);
    assert s.table == [Entry(2, Encoded(StoredRequest(2, 2, "POST", "/b", [], [])))];
    var r := s.Latest(10, false);
    ids := Ids(r.value);
  }
}
