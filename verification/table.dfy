/**
 * The `reqs` table of the embedded database: an ordered map from `u64` keys to
 * encoded records. It is represented by its rows in ascending key order, the
 * order in which `range(0..)` yields them; `ToMap` gives the map it stands for.
 */
module Table {
  import opened Models

  /**
   * The bytes stored for one record. The JSON codec is not modelled: a row
   * either decodes to the record that was encoded into it or does not decode.
   */
  datatype Payload = Encoded(req: StoredRequest) | Corrupt

  datatype Entry = Entry(key: u64, payload: Payload)

  /** Keys are unique and the rows are kept in ascending key order. */
  ghost predicate Ascending(t: seq<Entry>)
  {
    forall i, j :: 0 <= i < j < |t| ==> t[i].key < t[j].key
  }

  /** The key/value map the rows stand for. */
  ghost function ToMap(t: seq<Entry>): map<u64, Payload>
  {
    if t == [] then map[] else ToMap(t[1..])[t[0].key := t[0].payload]
  }

  /** The keys of the map are exactly the keys of the rows. */
  lemma {:induction false} ToMapKeys(t: seq<Entry>)
    ensures forall i :: 0 <= i < |t| ==> t[i].key in ToMap(t)
    ensures forall x :: x in ToMap(t) ==> exists i :: 0 <= i < |t| && t[i].key == x
  {
    if t != [] {
      ToMapKeys(t[1..]);
      forall x | x in ToMap(t) ensures exists i :: 0 <= i < |t| && t[i].key == x {
        if x != t[0].key {
          var i :| 0 <= i < |t[1..]| && t[1..][i].key == x;
          assert t[i + 1].key == x;
        }
      }
    }
  }

  /** The first row holds the smallest key, and the rest of the rows do not hold it. */
  lemma {:induction false} FirstKeyIsLeast(t: seq<Entry>)
    requires Ascending(t) && t != []
    ensures forall x :: x in ToMap(t) ==> t[0].key <= x
    ensures t[0].key !in ToMap(t[1..])
  {
    ToMapKeys(t);
    ToMapKeys(t[1..]);
  }

  /** The table's `insert(key, value)`; `PutSpec` states what it does. */
  function Put(t: seq<Entry>, k: u64, v: Payload): seq<Entry>
  {
    if t == [] then [Entry(k, v)]
    else if k < t[0].key then [Entry(k, v)] + t
    else if k == t[0].key then [Entry(k, v)] + t[1..]
    else [t[0]] + Put(t[1..], k, v)
  }

  /** Every row after `insert(key, value)` is the new row or an old one. */
  lemma {:induction false} PutRows(t: seq<Entry>, k: u64, v: Payload)
    ensures forall i :: 0 <= i < |Put(t, k, v)| ==> Put(t, k, v)[i] == Entry(k, v) || Put(t, k, v)[i] in t
  {
    if t != [] && k > t[0].key {
      PutRows(t[1..], k, v);
      var rest := Put(t[1..], k, v);
      forall i | 0 <= i < |rest| ensures rest[i] == Entry(k, v) || rest[i] in t {
        if rest[i] != Entry(k, v) {
          var j :| 0 <= j < |t[1..]| && t[1..][j] == rest[i];
          assert t[j + 1] == rest[i];
        }
      }
    }
  }

  /** A row below every row of an ascending table can go in front of it. */
  lemma {:induction false} ConsAscending(e: Entry, t: seq<Entry>)
    requires Ascending(t)
    requires forall i :: 0 <= i < |t| ==> e.key < t[i].key
    ensures Ascending([e] + t)
  {
    var r := [e] + t;
    forall i, j | 0 <= i < j < |r| ensures r[i].key < r[j].key {
      assert r[j] == t[j - 1];
      if i > 0 {
        assert r[i] == t[i - 1];
      }
    }
  }

  lemma {:induction false} PutAscending(t: seq<Entry>, k: u64, v: Payload)
    requires Ascending(t)
    ensures Ascending(Put(t, k, v))
  {
    if t == [] {
    } else if k < t[0].key {
      ConsAscending(Entry(k, v), t);
    } else if k == t[0].key {
      ConsAscending(Entry(k, v), t[1..]);
    } else {
      var rest := Put(t[1..], k, v);
      PutAscending(t[1..], k, v);
      PutRows(t[1..], k, v);
      forall i | 0 <= i < |rest| ensures t[0].key < rest[i].key {
        if rest[i] != Entry(k, v) {
          var j :| 0 <= j < |t[1..]| && t[1..][j] == rest[i];
          assert t[j + 1] == rest[i];
        }
      }
      ConsAscending(t[0], rest);
    }
  }

  lemma {:induction false} PutMap(t: seq<Entry>, k: u64, v: Payload)
    ensures ToMap(Put(t, k, v)) == ToMap(t)[k := v]
  {
    if t != [] {
      if k < t[0].key {
        assert Put(t, k, v)[1..] == t;
      } else if k == t[0].key {
        assert Put(t, k, v)[1..] == t[1..];
      } else {
        PutMap(t[1..], k, v);
        assert Put(t, k, v)[1..] == Put(t[1..], k, v);
      }
    }
  }

  lemma {:induction false} PutSize(t: seq<Entry>, k: u64, v: Payload)
    requires Ascending(t)
    ensures |Put(t, k, v)| == if k in ToMap(t) then |t| else |t| + 1
  {
    if t != [] {
      FirstKeyIsLeast(t);
      if k > t[0].key {
        PutSize(t[1..], k, v);
      }
    }
  }

  /**
   * After `insert(key, value)` the key maps to the value (a row already
   * holding the key is overwritten), every other key is unchanged, the rows
   * stay in ascending order and the table grows by one row exactly when the
   * key is new.
   */
  lemma {:induction false} PutSpec(t: seq<Entry>, k: u64, v: Payload)
    requires Ascending(t)
    ensures Ascending(Put(t, k, v))
    ensures ToMap(Put(t, k, v)) == ToMap(t)[k := v]
    ensures |Put(t, k, v)| == if k in ToMap(t) then |t| else |t| + 1
    ensures forall i :: 0 <= i < |Put(t, k, v)| ==> Put(t, k, v)[i] == Entry(k, v) || Put(t, k, v)[i] in t
  {
    PutAscending(t, k, v);
    PutMap(t, k, v);
    PutSize(t, k, v);
    PutRows(t, k, v);
  }

  /** The table's `remove(key)`; `DeleteSpec` states what it does. */
  function Delete(t: seq<Entry>, k: u64): seq<Entry>
  {
    if t == [] then []
    else if k == t[0].key then t[1..]
    else [t[0]] + Delete(t[1..], k)
  }

  /** Every row after `remove(key)` is an old one. */
  lemma {:induction false} DeleteRows(t: seq<Entry>, k: u64)
    ensures forall i :: 0 <= i < |Delete(t, k)| ==> Delete(t, k)[i] in t
  {
    if t != [] && k != t[0].key {
      DeleteRows(t[1..], k);
      var rest := Delete(t[1..], k);
      forall i | 0 <= i < |rest| ensures rest[i] in t {
        var j :| 0 <= j < |t[1..]| && t[1..][j] == rest[i];
        assert t[j + 1] == rest[i];
      }
    }
  }

  lemma {:induction false} DeleteAscending(t: seq<Entry>, k: u64)
    requires Ascending(t)
    ensures Ascending(Delete(t, k))
  {
    if t != [] && k != t[0].key {
      var rest := Delete(t[1..], k);
      DeleteAscending(t[1..], k);
      DeleteRows(t[1..], k);
      forall i | 0 <= i < |rest| ensures t[0].key < rest[i].key {
        var j :| 0 <= j < |t[1..]| && t[1..][j] == rest[i];
        assert t[j + 1] == rest[i];
      }
      ConsAscending(t[0], rest);
    }
  }

  lemma {:induction false} DeleteMap(t: seq<Entry>, k: u64)
    requires Ascending(t)
    ensures ToMap(Delete(t, k)) == ToMap(t) - {k}
  {
    if t != [] {
      if k == t[0].key {
        FirstKeyIsLeast(t);
      } else {
        DeleteMap(t[1..], k);
        assert Delete(t, k)[1..] == Delete(t[1..], k);
      }
    }
  }

  lemma {:induction false} DeleteSize(t: seq<Entry>, k: u64)
    requires Ascending(t)
    ensures |Delete(t, k)| == if k in ToMap(t) then |t| - 1 else |t|
  {
    if t != [] {
      FirstKeyIsLeast(t);
      if k != t[0].key {
        DeleteSize(t[1..], k);
      }
    }
  }

  /**
   * After `remove(key)` the key maps to nothing, every other key is
   * unchanged, the rows stay in ascending order and the table shrinks by one
   * row exactly when the key was present.
   */
  lemma {:induction false} DeleteSpec(t: seq<Entry>, k: u64)
    requires Ascending(t)
    ensures Ascending(Delete(t, k))
    ensures ToMap(Delete(t, k)) == ToMap(t) - {k}
    ensures |Delete(t, k)| == if k in ToMap(t) then |t| - 1 else |t|
    ensures forall i :: 0 <= i < |Delete(t, k)| ==> Delete(t, k)[i] in t
  {
    DeleteAscending(t, k);
    DeleteMap(t, k);
    DeleteSize(t, k);
    DeleteRows(t, k);
  }

  /** Putting a key above every stored key appends one row at the end. */
  lemma {:induction false} PutAbove(t: seq<Entry>, k: u64, v: Payload)
    requires Ascending(t)
    requires forall i :: 0 <= i < |t| ==> t[i].key < k
    ensures Put(t, k, v) == t + [Entry(k, v)]
  {
    if t != [] {
      PutAbove(t[1..], k, v);
      FirstKeyIsLeast(t);
      assert t == [t[0]] + t[1..];
    }
  }
}
