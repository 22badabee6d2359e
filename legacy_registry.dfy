/** The older version of the device registry class (DeviceDataManagement.py),
    which the scheduled probe script uses. It differs from the current class:
    ids are assigned as `len(devices) + 1`, adding checks nothing, the update
    takes optional arguments and writes the new address into the name field,
    deleting a missing id pops the last entry, and a document that does not
    decode ends the process. */
module LegacyRegistry {
  import opened Records

  /** What reading the document yields: this version has no handler for a
      document that does not decode, so that case ends the process too. */
  function Load(f: DeviceFile): (r: Option<seq<Device>>)
    ensures r.None? <==> !f.Json?
    ensures f.Json? ==> r == Some(f.devices)
  {
    if f.Json? then Some(f.devices) else None
  }

  /** The registry after an add: the new entry's id is one more than the
      current number of entries. */
  function AutoIdAppend(ds: seq<Device>, name: string, ip: string): (r: seq<Device>)
    ensures |r| == |ds| + 1 && ds <= r
    ensures r[|ds|].id == |ds| + 1 && r[|ds|].name == name && r[|ds|].ip == ip
  {
    ds + [Device(|ds| + 1, name, ip)]
  }

  /** The entry an update leaves: a given name is written to `name`, and then
      a given address is written to `name` as well. */
  function LegacyPatched(d: Device, name: Option<string>, ip: Option<string>): (r: Device)
    ensures r.id == d.id && r.ip == d.ip
    ensures r.name == (if ip.Some? then ip.value else if name.Some? then name.value else d.name)
  {
    var afterName := if name.Some? then d.(name := name.value) else d;
    if ip.Some? then afterName.(name := ip.value) else afterName
  }

  /** Python's `list.pop(i)` for an index in `[-1, len)`: -1 is the last entry. */
  function Pop(ds: seq<Device>, i: int): (r: seq<Device>)
    requires ds != [] && -1 <= i < |ds|
    ensures |r| == |ds| - 1
    ensures i == -1 ==> r == ds[..|ds| - 1]
    ensures 0 <= i ==> r == ds[..i] + ds[i + 1..]
  {
    RemoveAt(ds, if i == -1 then |ds| - 1 else i)
  }

  /** The update never touches `ip`: a given address ends up in `name`,
      overriding a given name, and with neither argument the entry is kept. */
  lemma UpdateWritesIpIntoName(d: Device, name: Option<string>, ip: Option<string>)
    ensures LegacyPatched(d, name, ip).id == d.id
    ensures LegacyPatched(d, name, ip).ip == d.ip
    ensures ip.Some? ==> LegacyPatched(d, name, ip).name == ip.value
    ensures ip.None? && name.Some? ==> LegacyPatched(d, name, ip).name == name.value
    ensures ip.None? && name.None? ==> LegacyPatched(d, name, ip) == d
  {
  }

  /** Deleting an id that is not present removes the last entry, a device
      that does not carry that id. */
  lemma DeleteMissingDropsLast(ds: seq<Device>, id: int)
    requires ds != [] && IndexOf(ds, id) == -1
    ensures Pop(ds, IndexOf(ds, id)) == ds[..|ds| - 1]
    ensures multiset(Pop(ds, IndexOf(ds, id))) + multiset{ds[|ds| - 1]} == multiset(ds)
    ensures ds[|ds| - 1].id != id
  {
    RemoveAtSpec(ds, |ds| - 1);
  }

  /** Ids that are exactly 1, 2, .., n in order, as adds alone produce. */
  ghost predicate Dense(ds: seq<Device>) {
    forall k :: 0 <= k < |ds| ==> ds[k].id == k + 1
  }

  /** Without deletes, automatic ids stay dense, hence unique. */
  lemma AutoIdDenseUnique(ds: seq<Device>, name: string, ip: string)
    requires Dense(ds)
    ensures Dense(AutoIdAppend(ds, name, ip)) && UniqueIds(AutoIdAppend(ds, name, ip))
  {
  }

  /** Deleting any entry but the last of a densely numbered registry and then
      adding a device gives the new device the id the last entry already
      has, so ids are no longer unique. */
  lemma AutoIdCollidesAfterDelete(ds: seq<Device>, i: int, name: string, ip: string)
    requires Dense(ds) && 0 <= i < |ds| - 1
    ensures !UniqueIds(AutoIdAppend(RemoveAt(ds, i), name, ip))
  {
    var r := RemoveAt(ds, i);
    var s := AutoIdAppend(r, name, ip);
    assert r[|r| - 1] == ds[|ds| - 1];
    assert s[|r| - 1].id == |ds| && s[|r|].id == |ds|;
  }

  /** Concretely: add two devices, delete the first, add a third: two
      entries now carry id 2. */
  lemma AutoIdCollisionExample()
    ensures var ds := AutoIdAppend(AutoIdAppend([], "Router", "192.168.1.1"), "Phone", "192.168.1.2");
      var after := AutoIdAppend(Pop(ds, IndexOf(ds, 1)), "Laptop", "192.168.1.3");
      after[0].id == 2 && after[1].id == 2
  {
  }

  class DeviceDataManagement {
    /** The registry document (`device_data_filename`). */
    var deviceFile: DeviceFile
    /** The availability log; `None` while the file does not exist. */
    var logFile: Option<seq<Row>>
    /** How many times the registry document has been rewritten. */
    ghost var saves: nat
    /** How many times rows have been appended to the log. */
    ghost var appends: nat

    constructor (deviceFile: DeviceFile, logFile: Option<seq<Row>>)
      ensures this.deviceFile == deviceFile && this.logFile == logFile
      ensures saves == 0 && appends == 0
    {
      this.deviceFile := deviceFile;
      this.logFile := logFile;
      saves := 0;
      appends := 0;
    }

    /** The rows currently in the log; a missing file holds none. */
    function LogRows(): seq<Row>
      reads this
    {
      if logFile.Some? then logFile.value else []
    }

    /** Reads the registry document; `None` when the process exits, which
        here includes a document that does not decode. */
    method LoadDeviceDataFile() returns (r: Option<seq<Device>>)
      ensures r == Load(deviceFile)
    {
      if deviceFile.Json? {
        r := Some(deviceFile.devices);
      } else {
        r := None;
      }
    }

    /** Linear scan for the first entry with id `id`: its index, or -1. */
    method GetDeviceIndex(id: int) returns (r: Option<int>)
      ensures r.None? <==> Load(deviceFile).None?
      ensures r.Some? ==> var ds := Load(deviceFile).value;
        && -1 <= r.value < |ds|
        && (r.value == -1 <==> forall k :: 0 <= k < |ds| ==> ds[k].id != id)
        && (0 <= r.value ==> ds[r.value].id == id && forall k :: 0 <= k < r.value ==> ds[k].id != id)
        && r.value == IndexOf(ds, id)
    {
      var loaded := LoadDeviceDataFile();
      if loaded.None? {
        return None;
      }
      var ds := loaded.value;
      var i := 0;
      while i < |ds|
        invariant 0 <= i <= |ds|
        invariant forall k :: 0 <= k < i ==> ds[k].id != id
      {
        if ds[i].id == id {
          return Some(i);
        }
        i := i + 1;
      }
      return Some(-1);
    }

    /** Rewrites the whole registry document with `data`. */
    method SaveDeviceDataFile(data: seq<Device>)
      modifies this
      ensures deviceFile == Json(data) && saves == old(saves) + 1
      ensures logFile == old(logFile) && appends == old(appends)
    {
      deviceFile := Json(data);
      saves := saves + 1;
    }

    /** Appends `{id: len + 1, name, ip}`, with no check on the name, the
        address or the uniqueness of the id. */
    method AddDevice(name: string, ip: string) returns (status: Status)
      modifies this
      ensures logFile == old(logFile) && appends == old(appends)
      ensures Load(old(deviceFile)).None? <==> status == Exited
      ensures status == Exited ==> deviceFile == old(deviceFile) && saves == old(saves)
      ensures status != Exited ==>
        var ds := Load(old(deviceFile)).value;
        && status == Done
        && deviceFile == Json(AutoIdAppend(ds, name, ip))
        && ds <= deviceFile.devices
        && deviceFile.devices[|ds|] == Device(|ds| + 1, name, ip)
        && saves == old(saves) + 1
    {
      var loaded := LoadDeviceDataFile();
      if loaded.None? {
        return Exited;
      }
      var ds := loaded.value;
      ds := ds + [Device(|ds| + 1, name, ip)];
      SaveDeviceDataFile(ds);
      status := Done;
    }

    /** Updates the entry with id `id` from optional arguments. With neither
        argument it warns (`nothingToUpdate`) and carries on. A missing id
        writes nothing; a found one is written back, with a given address
        stored in the name field and the address field left as it was. */
    method UpdateDeviceDataById(id: int, name: Option<string>, ip: Option<string>)
      returns (nothingToUpdate: bool, status: Status)
      modifies this
      ensures status == Done || status == DeviceNotFound || status == Exited
      ensures nothingToUpdate <==> name.None? && ip.None?
      ensures logFile == old(logFile) && appends == old(appends)
      ensures Load(old(deviceFile)).None? <==> status == Exited
      ensures Load(old(deviceFile)).Some? ==>
        (status == DeviceNotFound <==> IndexOf(Load(old(deviceFile)).value, id) == -1)
      ensures status != Done ==> deviceFile == old(deviceFile) && saves == old(saves)
      ensures status == Done ==>
        var ds := Load(old(deviceFile)).value;
        var i := IndexOf(ds, id);
        && 0 <= i < |ds|
        && deviceFile == Json(ds[i := LegacyPatched(ds[i], name, ip)])
        && saves == old(saves) + 1
        && deviceFile.devices[i].ip == ds[i].ip
        && (ip.Some? ==> deviceFile.devices[i].name == ip.value)
    {
      nothingToUpdate := name.None? && ip.None?;
      var loaded := LoadDeviceDataFile();
      if loaded.None? {
        return nothingToUpdate, Exited;
      }
      var ds := loaded.value;
      var index := GetDeviceIndex(id);
      var i := index.value;
      if i == -1 {
        return nothingToUpdate, DeviceNotFound;
      }
      if name.Some? {
        ds := ds[i := ds[i].(name := name.value)];
      }
      if ip.Some? {
        ds := ds[i := ds[i].(name := ip.value)];
      }
      SaveDeviceDataFile(ds);
      status := Done;
    }

    /** Pops the index the lookup returned and writes the list back. A found
        id removes its entry; a missing one reports "not found" but pops
        index -1, removing the last entry, and still writes; on an empty
        registry that pop raises and the process ends without writing. */
    method DeleteDeviceById(id: int) returns (status: Status)
      modifies this
      ensures logFile == old(logFile) && appends == old(appends)
      ensures status == Exited <==> Load(old(deviceFile)).None? || Load(old(deviceFile)).value == []
      ensures status == Exited ==> deviceFile == old(deviceFile) && saves == old(saves)
      ensures status != Exited ==>
        var ds := Load(old(deviceFile)).value;
        var i := IndexOf(ds, id);
        && (status == DeviceNotFound <==> i == -1)
        && (status == DeviceNotFound || status == Done)
        && deviceFile == Json(Pop(ds, i))
        && |deviceFile.devices| == |ds| - 1
        && (i == -1 ==> deviceFile.devices == ds[..|ds| - 1])
        && saves == old(saves) + 1
    {
      var loaded := LoadDeviceDataFile();
      if loaded.None? {
        return Exited;
      }
      var ds := loaded.value;
      var index := GetDeviceIndex(id);
      var i := index.value;
      status := if i == -1 then DeviceNotFound else Done;
      if ds == [] {
        return Exited;
      }
      var j := if i == -1 then |ds| - 1 else i;
      ds := ds[..j] + ds[j + 1..];
      SaveDeviceDataFile(ds);
    }

    /** Reads the availability log; `None` when the file does not exist. */
    method LoadDeviceAvailabilityDataFile() returns (r: Option<seq<Row>>)
      ensures r == logFile
    {
      r := logFile;
    }

    /** The rows shown for device `id`: row 0 of the log whatever it holds,
        then every later row whose first column is `id`, in log order.
        `None` when the log is missing or empty (the read of row 0 fails). */
    method PrintDeviceAvailabilityDataById(id: int) returns (r: Option<seq<Row>>)
      ensures logFile.None? ==> r.None?
      ensures logFile.Some? ==> r == ListingById(logFile.value, id)
      ensures r.Some? ==> |r.value| >= 1 && r.value[0] == LogRows()[0]
      ensures r.Some? ==> forall x :: x in r.value[1..] <==> x in LogRows()[1..] && x.deviceId == id
    {
      var loaded := LoadDeviceAvailabilityDataFile();
      if loaded.None? || loaded.value == [] {
        return None;
      }
      var log := loaded.value;
      var shown := [log[0]];
      var i := 1;
      while i < |log|
        invariant 1 <= i <= |log|
        invariant shown == [log[0]] + MatchingRows(log[1..i], id)
      {
        assert log[1..i + 1][..i - 1] == log[1..i];
        if log[i].deviceId == id {
          shown := shown + [log[i]];
        }
        i := i + 1;
      }
      assert log[1..i] == log[1..];
      r := Some(shown);
      forall x ensures x in shown[1..] <==> x in log[1..] && x.deviceId == id {
        assert shown[1..] == MatchingRows(log[1..], id);
        MatchingRowsMembership(log[1..], id, x);
      }
    }

    /** Appends `data` to the availability log, creating the file if it does
        not exist; earlier rows are never rewritten. */
    method SaveDeviceAvailabilityDataFile(data: seq<Row>)
      modifies this
      ensures logFile == Some(old(LogRows()) + data) && appends == old(appends) + 1
      ensures deviceFile == old(deviceFile) && saves == old(saves)
    {
      logFile := Some(LogRows() + data);
      appends := appends + 1;
    }
  }
}
