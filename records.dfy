/** Values shared by both versions of the device registry class and by the
    probe cycle: the registry entry, the availability-log row, the first-match
    lookup and the by-id log listing. */
module Records {

  datatype Option<+T> = None | Some(value: T)

  /** One entry of the registry document, `{"id": .., "name": .., "ip": ..}`. */
  datatype Device = Device(id: int, name: string, ip: string)

  /** The value `datetime.now()` returned; the model only copies it into rows. */
  datatype Timestamp = Timestamp(instant: int)

  /** One row of the availability log: `[device_id, timestamp, status]`. */
  datatype Row = Row(deviceId: int, time: Timestamp, status: int)

  /** The registry document on disk: unreadable (missing, or any other read
      error), present but not decodable as JSON (an empty file), or a JSON
      list of devices. */
  datatype DeviceFile = Unreadable | NotJson | Json(devices: seq<Device>)

  /** What a registry operation reported (the message it printed), or that
      the process ended (`exit(1)` after a file error, or an uncaught
      exception). */
  datatype Status = Done | NameOrIpNotProvided | IdAlreadyExists | DeviceNotFound | Exited

  /** No two entries of the registry share an id. */
  ghost predicate UniqueIds(ds: seq<Device>) {
    forall i, j :: 0 <= i < j < |ds| ==> ds[i].id != ds[j].id
  }

  /** The index of the first entry whose id is `id`, or -1 when no entry has it. */
  function IndexOf(ds: seq<Device>, id: int): (r: int)
    ensures -1 <= r < |ds|
    ensures r == -1 <==> forall i :: 0 <= i < |ds| ==> ds[i].id != id
    ensures 0 <= r ==> ds[r].id == id && forall i :: 0 <= i < r ==> ds[i].id != id
  {
    if ds == [] then -1
    else if ds[0].id == id then 0
    else
      var r := IndexOf(ds[1..], id);
      assert forall i :: 0 < i < |ds| ==> ds[i] == ds[1..][i - 1];
      if r == -1 then -1 else r + 1
  }

  /** Looking up an id after an append: an earlier match wins, otherwise the
      new last entry is found when it carries the id. */
  lemma IndexOfSnoc(ds: seq<Device>, d: Device, id: int)
    ensures IndexOf(ds + [d], id) ==
      if IndexOf(ds, id) != -1 then IndexOf(ds, id) else if d.id == id then |ds| else -1
  {
    var s := ds + [d];
    assert forall k :: 0 <= k < |ds| ==> s[k] == ds[k];
    assert s[|ds|] == d;
  }

  /** Removing the entry at index `i` (Python's `list.pop(i)` for `i >= 0`). */
  function RemoveAt(ds: seq<Device>, i: int): (r: seq<Device>)
    requires 0 <= i < |ds|
    ensures |r| == |ds| - 1
    ensures forall k :: 0 <= k < i ==> r[k] == ds[k]
    ensures forall k :: i <= k < |r| ==> r[k] == ds[k + 1]
  {
    ds[..i] + ds[i + 1..]
  }

  /** `RemoveAt` drops exactly entry `i` and keeps ids unique. */
  lemma RemoveAtSpec(ds: seq<Device>, i: int)
    requires 0 <= i < |ds|
    ensures multiset(RemoveAt(ds, i)) + multiset{ds[i]} == multiset(ds)
    ensures UniqueIds(ds) ==> UniqueIds(RemoveAt(ds, i)) && IndexOf(RemoveAt(ds, i), ds[i].id) == -1
  {
    var r := RemoveAt(ds, i);
    calc {
      multiset(ds);
      { assert ds == ds[..i] + [ds[i]] + ds[i + 1..]; }
      multiset(ds[..i]) + multiset{ds[i]} + multiset(ds[i + 1..]);
    }
    if UniqueIds(ds) {
      forall a, b | 0 <= a < b < |r| ensures r[a].id != r[b].id {
        var a' := if a < i then a else a + 1;
        var b' := if b < i then b else b + 1;
        assert r[a] == ds[a'] && r[b] == ds[b'];
      }
      forall k | 0 <= k < |r| ensures r[k].id != ds[i].id {
        var k' := if k < i then k else k + 1;
        assert r[k] == ds[k'];
      }
    }
  }

  /** The rows of `rows` that belong to device `id`, in log order. */
  function MatchingRows(rows: seq<Row>, id: int): (r: seq<Row>)
    ensures |r| <= |rows|
    ensures forall k :: 0 <= k < |r| ==> r[k].deviceId == id
  {
    if rows == [] then []
    else
      var last := rows[|rows| - 1];
      MatchingRows(rows[..|rows| - 1], id) + (if last.deviceId == id then [last] else [])
  }

  /** A row is listed exactly when it is in the log and carries the id. */
  lemma {:induction false} MatchingRowsMembership(rows: seq<Row>, id: int, x: Row)
    ensures x in MatchingRows(rows, id) <==> x in rows && x.deviceId == id
  {
    if rows != [] {
      var init := rows[..|rows| - 1];
      MatchingRowsMembership(init, id, x);
      assert rows == init + [rows[|rows| - 1]];
    }
  }

  /** Filtering distributes over appending: rows added later are listed
      after, and never change, the rows listed before. */
  lemma {:induction false} MatchingRowsAppend(a: seq<Row>, b: seq<Row>, id: int)
    ensures MatchingRows(a + b, id) == MatchingRows(a, id) + MatchingRows(b, id)
  {
    if b == [] {
      assert a + b == a;
    } else {
      var init := b[..|b| - 1];
      MatchingRowsAppend(a, init, id);
      assert (a + b)[..|a + b| - 1] == a + init;
    }
  }

  /** What the by-id listing of the log shows: row 0 unconditionally, then
      every later row of device `id`; `None` when the log is empty, where
      indexing row 0 raises `IndexError`. */
  function ListingById(log: seq<Row>, id: int): (r: Option<seq<Row>>)
    ensures r.None? <==> log == []
    ensures r.Some? ==> 1 <= |r.value| <= |log| && r.value[0] == log[0]
    ensures r.Some? ==> forall k :: 1 <= k < |r.value| ==> r.value[k].deviceId == id
  {
    if log == [] then None else Some([log[0]] + MatchingRows(log[1..], id))
  }

  /** Appending a batch to a non-empty log extends every device's listing by
      that device's rows of the batch, and leaves what it listed before
      as a prefix. */
  lemma ListingAfterAppend(log: seq<Row>, batch: seq<Row>, id: int)
    requires log != []
    ensures ListingById(log + batch, id).Some?
    ensures ListingById(log + batch, id).value == ListingById(log, id).value + MatchingRows(batch, id)
  {
    assert (log + batch)[1..] == log[1..] + batch;
    MatchingRowsAppend(log[1..], batch, id);
  }
}
