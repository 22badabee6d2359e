/** The device registry class the command-line tool uses
    (device_data_management.py). The registry document and the availability
    log are fields of the object; every operation re-reads the document,
    changes a local copy and rewrites the whole document, and the probe cycle
    appends one batch of rows to the log. */
module Registry {
  import opened Records
  import opened Probe

  /** What reading the document yields: the process exits on an unreadable
      file, and a document that does not decode counts as an empty registry. */
  function Load(f: DeviceFile): (r: Option<seq<Device>>)
    ensures r.None? <==> f.Unreadable?
    ensures f.NotJson? ==> r == Some([])
    ensures f.Json? ==> r == Some(f.devices)
  {
    match f
    case Unreadable => None
    case NotJson => Some([])
    case Json(ds) => Some(ds)
  }

  /** The entry an update leaves: a non-empty argument replaces its field, an
      empty one keeps it. */
  function Patched(d: Device, name: string, ip: string): (r: Device)
    ensures r.id == d.id
    ensures name != "" ==> r.name == name
    ensures name == "" ==> r.name == d.name
    ensures ip != "" ==> r.ip == ip
    ensures ip == "" ==> r.ip == d.ip
  {
    Device(d.id, if name == "" then d.name else name, if ip == "" then d.ip else ip)
  }

  /** Adding a device whose id is not yet present keeps ids unique, and the
      new entry is the one found for its id. */
  lemma AddPreservesUniqueIds(ds: seq<Device>, d: Device)
    requires UniqueIds(ds) && IndexOf(ds, d.id) == -1
    ensures UniqueIds(ds + [d])
    ensures IndexOf(ds + [d], d.id) == |ds|
  {
    IndexOfSnoc(ds, d, d.id);
    var s := ds + [d];
    forall a, b | 0 <= a < b < |s| ensures s[a].id != s[b].id {
      if b == |ds| {
        assert s[a] == ds[a];
      } else {
        assert s[a] == ds[a] && s[b] == ds[b];
      }
    }
  }

  /** Deleting the id just added restores the registry as it was. */
  lemma AddThenDeleteRestores(ds: seq<Device>, d: Device)
    requires IndexOf(ds, d.id) == -1
    ensures IndexOf(ds + [d], d.id) == |ds|
    ensures RemoveAt(ds + [d], IndexOf(ds + [d], d.id)) == ds
  {
    IndexOfSnoc(ds, d, d.id);
    assert (ds + [d])[..|ds|] == ds;
  }

  /** An update changes one entry's name and address only: ids, and so the
      entry every id is found at, stay as they were. */
  lemma UpdateKeepsIds(ds: seq<Device>, i: int, name: string, ip: string, id: int)
    requires 0 <= i < |ds|
    ensures IndexOf(ds[i := Patched(ds[i], name, ip)], id) == IndexOf(ds, id)
    ensures UniqueIds(ds) ==> UniqueIds(ds[i := Patched(ds[i], name, ip)])
  {
    var s := ds[i := Patched(ds[i], name, ip)];
    assert forall k :: 0 <= k < |ds| ==> s[k].id == ds[k].id;
  }

  /** Partial update: empty arguments keep their fields, so an update with
      two empty strings leaves the entry as it was, and applying the same
      update twice is the same as applying it once. */
  lemma PatchedKeepsOnEmpty(d: Device, name: string, ip: string)
    ensures Patched(d, "", "") == d
    ensures Patched(Patched(d, name, ip), name, ip) == Patched(d, name, ip)
    ensures name != "" && ip != "" ==> Patched(d, name, ip) == Device(d.id, name, ip)
  {
  }

  class DeviceDataManagement {
    /** The registry document (`device_data_filename`). */
    var deviceFile: DeviceFile
    /** The availability log (`device_availability_data_filename`); `None`
        while the file does not exist. */
    var logFile: Option<seq<Row>>
    /** How many times the registry document has been rewritten. */
    ghost var saves: nat
    /** How many times rows have been appended to the log. */
    ghost var appends: nat

    constructor (deviceFile: DeviceFile, logFile: Option<seq<Row>>)
      ensures this.deviceFile == deviceFile && this.logFile == logFile
      ensures saves == 0 && appends == 0
    {
      this.deviceFile := deviceFile;
      this.logFile := logFile;
      saves := 0;
      appends := 0;
    }

    /** The rows currently in the log; a missing file holds none. */
    function LogRows(): seq<Row>
      reads this
    {
      if logFile.Some? then logFile.value else []
    }

    /** Reads the registry document: `None` when the process exits on an
        unreadable file, the empty registry for a document that does not
        decode, and the stored list otherwise. */
    method LoadDeviceDataFile() returns (r: Option<seq<Device>>)
      ensures r == Load(deviceFile)
    {
      match deviceFile
      case Unreadable => r := None;
      case NotJson => r := Some([]);
      case Json(ds) => r := Some(ds);
    }

    /** Linear scan for the first entry with id `id`: its index, or -1. */
    method GetDeviceIndex(id: int) returns (r: Option<int>)
      ensures r.None? <==> Load(deviceFile).None?
      ensures r.Some? ==> var ds := Load(deviceFile).value;
        && -1 <= r.value < |ds|
        && (r.value == -1 <==> forall k :: 0 <= k < |ds| ==> ds[k].id != id)
        && (0 <= r.value ==> ds[r.value].id == id && forall k :: 0 <= k < r.value ==> ds[k].id != id)
        && r.value == IndexOf(ds, id)
    {
      var loaded := LoadDeviceDataFile();
      if loaded.None? {
        return None;
      }
      var ds := loaded.value;
      var i := 0;
      while i < |ds|
        invariant 0 <= i <= |ds|
        invariant forall k :: 0 <= k < i ==> ds[k].id != id
      {
        if ds[i].id == id {
          return Some(i);
        }
        i := i + 1;
      }
      return Some(-1);
    }

    /** Rewrites the whole registry document with `data`. */
    method SaveDeviceDataFile(data: seq<Device>)
      modifies this
      ensures deviceFile == Json(data) && saves == old(saves) + 1
      ensures logFile == old(logFile) && appends == old(appends)
    {
      deviceFile := Json(data);
      saves := saves + 1;
    }

    /** Adds `{id, name, ip}` at the end of the registry. An empty name or
        address is refused before the document is read; an id already
        present is refused; neither refusal writes the document. */
    method AddDevice(id: int, name: string, ip: string) returns (status: Status)
      modifies this
      ensures logFile == old(logFile) && appends == old(appends)
      ensures name == "" || ip == "" ==> status == NameOrIpNotProvided
      ensures name != "" && ip != "" && Load(old(deviceFile)).None? ==> status == Exited
      ensures name != "" && ip != "" && Load(old(deviceFile)).Some? ==>
        status == (if IndexOf(Load(old(deviceFile)).value, id) == -1 then Done else IdAlreadyExists)
      ensures status != Done ==> deviceFile == old(deviceFile) && saves == old(saves)
      ensures status == Done ==>
        && deviceFile == Json(Load(old(deviceFile)).value + [Device(id, name, ip)])
        && saves == old(saves) + 1
        && (UniqueIds(Load(old(deviceFile)).value) ==> UniqueIds(deviceFile.devices))
    {
      if name == "" || ip == "" {
        return NameOrIpNotProvided;
      }
      var loaded := LoadDeviceDataFile();
      if loaded.None? {
        return Exited;
      }
      var index := GetDeviceIndex(id);
      if index.value != -1 {
        return IdAlreadyExists;
      }
      var ds := loaded.value + [Device(id, name, ip)];
      if UniqueIds(loaded.value) {
        AddPreservesUniqueIds(loaded.value, Device(id, name, ip));
      }
      SaveDeviceDataFile(ds);
      status := Done;
    }

    /** Shows the entry with id `id`, or reports that there is none. */
    method PrintDeviceDataById(id: int) returns (status: Status, shown: Option<Device>)
      ensures Load(deviceFile).None? ==> status == Exited && shown.None?
      ensures Load(deviceFile).Some? ==>
        var ds := Load(deviceFile).value;
        && (status == DeviceNotFound <==> forall k :: 0 <= k < |ds| ==> ds[k].id != id)
        && (status == DeviceNotFound ==> shown.None?)
        && (status != DeviceNotFound ==> status == Done && shown == Some(ds[IndexOf(ds, id)]) && shown.value.id == id)
    {
      var loaded := LoadDeviceDataFile();
      if loaded.None? {
        return Exited, None;
      }
      var index := GetDeviceIndex(id);
      if index.value == -1 {
        return DeviceNotFound, None;
      }
      return Done, Some(loaded.value[index.value]);
    }

    /** Updates the entry with id `id`: a non-empty name or address replaces
        that field, an empty one keeps it. A missing id writes nothing; a
        found one is written back even when both arguments are empty. */
    method UpdateDeviceDataById(id: int, name: string, ip: string) returns (status: Status)
      modifies this
      ensures status == Done || status == DeviceNotFound || status == Exited
      ensures logFile == old(logFile) && appends == old(appends)
      ensures Load(old(deviceFile)).None? <==> status == Exited
      ensures Load(old(deviceFile)).Some? ==>
        (status == DeviceNotFound <==> IndexOf(Load(old(deviceFile)).value, id) == -1)
      ensures status != Done ==> deviceFile == old(deviceFile) && saves == old(saves)
      ensures status == Done ==>
        var ds := Load(old(deviceFile)).value;
        var i := IndexOf(ds, id);
        && 0 <= i < |ds|
        && deviceFile == Json(ds[i := Patched(ds[i], name, ip)])
        && saves == old(saves) + 1
        && deviceFile.devices[i].id == id
        && deviceFile.devices[i].name == (if name == "" then ds[i].name else name)
        && deviceFile.devices[i].ip == (if ip == "" then ds[i].ip else ip)
    {
      var loaded := LoadDeviceDataFile();
      if loaded.None? {
        return Exited;
      }
      var ds := loaded.value;
      var index := GetDeviceIndex(id);
      var i := index.value;
      if i == -1 {
        return DeviceNotFound;
      }
      if name != "" {
        ds := ds[i := ds[i].(name := name)];
      }
      if ip != "" {
        ds := ds[i := ds[i].(ip := ip)];
      }
      SaveDeviceDataFile(ds);
      status := Done;
    }

    /** Removes the entry with id `id`, keeping the others in order. A
        missing id writes nothing. */
    method DeleteDeviceById(id: int) returns (status: Status)
      modifies this
      ensures status == Done || status == DeviceNotFound || status == Exited
      ensures logFile == old(logFile) && appends == old(appends)
      ensures Load(old(deviceFile)).None? <==> status == Exited
      ensures Load(old(deviceFile)).Some? ==>
        (status == DeviceNotFound <==> IndexOf(Load(old(deviceFile)).value, id) == -1)
      ensures status != Done ==> deviceFile == old(deviceFile) && saves == old(saves)
      ensures status == Done ==>
        var ds := Load(old(deviceFile)).value;
        var i := IndexOf(ds, id);
        && 0 <= i < |ds|
        && deviceFile == Json(RemoveAt(ds, i))
        && saves == old(saves) + 1
        && |deviceFile.devices| == |ds| - 1
        && multiset(deviceFile.devices) + multiset{ds[i]} == multiset(ds)
        && (UniqueIds(ds) ==> UniqueIds(deviceFile.devices) && IndexOf(deviceFile.devices, id) == -1)
    {
      var loaded := LoadDeviceDataFile();
      if loaded.None? {
        return Exited;
      }
      var ds := loaded.value;
      var index := GetDeviceIndex(id);
      var i := index.value;
      if i == -1 {
        return DeviceNotFound;
      }
      RemoveAtSpec(ds, i);
      ds := ds[..i] + ds[i + 1..];
      SaveDeviceDataFile(ds);
      status := Done;
    }

    /** Reads the availability log; `None` when the process exits because
        the file does not exist. */
    method LoadDeviceAvailabilityDataFile() returns (r: Option<seq<Row>>)
      ensures r == logFile
    {
      r := logFile;
    }

    /** The rows shown for device `id`: row 0 of the log whatever it holds,
        then every later row whose first column is `id`, in log order.
        `None` when the log is missing or empty (the read of row 0 fails). */
    method PrintDeviceAvailabilityDataById(id: int) returns (r: Option<seq<Row>>)
      ensures logFile.None? ==> r.None?
      ensures logFile.Some? ==> r == ListingById(logFile.value, id)
      ensures r.Some? ==> |r.value| >= 1 && r.value[0] == LogRows()[0]
      ensures r.Some? ==> forall x :: x in r.value[1..] <==> x in LogRows()[1..] && x.deviceId == id
    {
      var loaded := LoadDeviceAvailabilityDataFile();
      if loaded.None? || loaded.value == [] {
        return None;
      }
      var log := loaded.value;
      var shown := [log[0]];
      var i := 1;
      while i < |log|
        invariant 1 <= i <= |log|
        invariant shown == [log[0]] + MatchingRows(log[1..i], id)
      {
        assert log[1..i + 1][..i - 1] == log[1..i];
        if log[i].deviceId == id {
          shown := shown + [log[i]];
        }
        i := i + 1;
      }
      assert log[1..i] == log[1..];
      r := Some(shown);
      forall x ensures x in shown[1..] <==> x in log[1..] && x.deviceId == id {
        assert shown[1..] == MatchingRows(log[1..], id);
        MatchingRowsMembership(log[1..], id, x);
      }
    }

    /** Appends `data` to the availability log, creating the file if it does
        not exist; earlier rows are never rewritten. */
    method SaveDeviceAvailabilityDataFile(data: seq<Row>)
      modifies this
      ensures logFile == Some(old(LogRows()) + data) && appends == old(appends) + 1
      ensures deviceFile == old(deviceFile) && saves == old(saves)
    {
      logFile := Some(LogRows() + data);
      appends := appends + 1;
    }

    /** One probe of address `ip`: an exception becomes `0`, any returned
        value is passed on unchanged. */
    method PingDevice(probe: string -> ProbeOutcome, ip: string) returns (status: PyValue)
      ensures status == Absorb(probe(ip))
    {
      match probe(ip)
      case Raised => status := PyInt(0);
      case Returned(v) => status := v;
    }

    /** One probe cycle: reads the registry, probes every device in order and
        appends the whole batch of rows to the log in a single call. */
    method PingAllDevices(probe: string -> ProbeOutcome, clock: nat -> Timestamp) returns (status: Status)
      modifies this
      ensures status == Done || status == Exited
      ensures deviceFile == old(deviceFile) && saves == old(saves)
      ensures Load(old(deviceFile)).None? <==> status == Exited
      ensures status == Exited ==> logFile == old(logFile) && appends == old(appends)
      ensures status == Done ==>
        var ds := Load(old(deviceFile)).value;
        && logFile == Some(old(LogRows()) + ProbeBatch(ds, probe, clock))
        && appends == old(appends) + 1
        && |LogRows()| == |old(LogRows())| + |ds|
        && old(LogRows()) <= LogRows()
    {
      var loaded := LoadDeviceDataFile();
      if loaded.None? {
        return Exited;
      }
      var ds := loaded.value;
      var batch := [];
      var i := 0;
      while i < |ds|
        invariant 0 <= i <= |ds|
        invariant batch == ProbeBatch(ds[..i], probe, clock)
        invariant unchanged(this)
      {
        assert ds[..i + 1][..i] == ds[..i];
        var reply := PingDevice(probe, ds[i].ip);
        var bit := if Truthy(reply) then 1 else 0;
        batch := batch + [Row(ds[i].id, clock(i), bit)];
        i := i + 1;
      }
      assert ds[..i] == ds;
      ProbeBatchRows(ds, probe, clock);
      SaveDeviceAvailabilityDataFile(batch);
      status := Done;
    }
  }
}
