# Uptime monitor core in Dafny

This project models the core of a small uptime monitor. It has three parts.

- **Device registry.** An ordered list of `{id, name, ip}` entries kept in a JSON document. It supports first-match lookup by id, add, partial update and delete.
- **Availability log.** An append-only CSV of `[device_id, timestamp, status]` rows. It has a by-id listing.
- **Probe cycle.** It probes every registered device and appends one row per device to the log in a single batch.

The repository holds two versions of the registry class. Each is modelled as written, in its own module:

- `Registry` (`registry.dfy`) models `device_data_management.py`, the class the command-line tool uses.
- `LegacyRegistry` (`legacy_registry.dfy`) models `DeviceDataManagement.py`, the older class. The scheduled script `PingStatusTracking.py` still uses it, and that script is modelled in `PingStatusTracking` (`ping_status_tracking.dfy`).

Two shared modules sit beside them:

- `Records` (`records.dfy`) holds the entry and row types, the lookup `IndexOf`, the removal `RemoveAt` and the log listing `ListingById`.
- `Probe` (`probe.dfy`) holds the probe outcome, its reduction to a status bit, and the batch `ProbeBatch` that one cycle builds.

Each registry class is a Dafny `class` with these fields:

- `deviceFile` is the registry document. It is `Unreadable`, `NotJson` (for example an empty file) or `Json(devices)`.
- `logFile` is the availability log. It is `None` while the file does not exist.
- Two ghost counters, `saves` and `appends`, count rewrites of the document and appends to the log. They let the contracts say that a refused operation writes nothing and that a cycle appends exactly once.

Every operation re-reads the document, works on a local copy, and either rewrites the whole document or leaves it alone. The source's `exit(1)` after a file error, and an uncaught `IndexError`, are modelled as the result `Exited` with no state change. The message each operation prints is modelled as a `Status` result: `Done`, `NameOrIpNotProvided`, `IdAlreadyExists`, `DeviceNotFound` or `Exited`.

The network probe is a parameter `probe: string -> ProbeOutcome`. An outcome either raised, or returned a Python value: a float delay, `None`, `False` or an int. Python truthiness decides the status bit. The clock is a parameter `clock: nat -> Timestamp` that gives the time stamped on the k-th row of a cycle.

Two points where the code's docstrings say less, or other, than the code does. The model follows the code:

- The load docstring names `FileNotFoundError`, and a missing document does end the process. In the current class a document that does not decode reads as an empty registry. In the older class that case ends the process too.
- The `__ping_device` docstring promises "1 for success, 0 for failure". The function actually returns the library's raw value, or `0` after an exception. The reduction to 1 or 0 happens at the call site.

`Scenarios` (`scenarios.dfy`) holds client methods. They check what a caller can conclude from the contracts alone: add then a duplicate add, a one-field update, an update with two empty strings, a one-device probe cycle, delete of a missing id and of a present one, and the older class's update and delete.

## Model

| member | source | states |
|---|---|---|
| `Records.IndexOf` | device_data_management.py:144-148 | the result is in [-1, len); it is -1 exactly when no entry has the id; otherwise the entry there has the id and no earlier entry does |
| `Records.IndexOfSnoc` | device_data_management.py:145-147 | after appending an entry, lookup finds an earlier match if there is one, else the new entry if it carries the id, else nothing |
| `Records.RemoveAt` | device_data_management.py:230 | `pop(i)` for `i >= 0`: the list is one shorter, entries before i are kept, and entries after i shift down by one, keeping their order |
| `Records.RemoveAtSpec` | device_data_management.py:230-231 | the removed entry plus the rest is the old multiset; with unique ids the removed id is gone and ids stay unique |
| `Records.MatchingRows` | device_data_management.py:299-302 | the scan keeps no more rows than it reads, and every row it keeps carries the id |
| `Records.ListingById` | device_data_management.py:297-298 | the listing fails exactly on an empty log; otherwise it starts with row 0 whatever that row holds, is no longer than the log, and every later row carries the id |
| `Records.MatchingRowsMembership` | device_data_management.py:299-302 | a row is listed exactly when it is in the scanned rows and its first column equals the id |
| `Records.MatchingRowsAppend` | device_data_management.py:316-318 | filtering distributes over appending: rows added later are listed after, and never alter, those listed before |
| `Records.ListingAfterAppend` | device_data_management.py:297-302 | after appending a batch to a non-empty log, a device's listing is its old listing followed by its rows of the batch |
| `Probe.Absorb` | device_data_management.py:335-340 | a probe exception becomes a value that is not truthy; a returned value passes through unchanged |
| `Probe.StatusBit` | device_data_management.py:351 | the status is 0 or 1, and it is 1 exactly when the probe value is truthy |
| `Probe.ProbeBatch` | device_data_management.py:349-352 | the accumulated batch has one row per device, and every status in it is 0 or 1 |
| `Probe.ProbeIsolation` | device_data_management.py:335-351 | the status is 0 or 1; it is 1 exactly when the probe returned a truthy value; a probe exception becomes the value 0 and status 0 |
| `Probe.ProbeBatchRows` | device_data_management.py:350-352 | the batch has as many rows as there are devices, and row k is built from device k and timestamp k |
| `Probe.ProbeBatchComplete` | device_data_management.py:348-353 | one row per device in registry order, each with that device's id, its timestamp and a 0/1 status that is 1 exactly when its probe returned a truthy value |
| `Probe.ProbeBatchRowsForDevice` | device_data_management.py:349-352 | with unique ids, a cycle's batch holds exactly one row for a registered device, and none for an unregistered id |
| `Registry.Load` | device_data_management.py:122-134 | an unreadable document ends the process; a `JSONDecodeError` gives the empty registry; otherwise the stored list is returned |
| `Registry.Patched` | device_data_management.py:210-213 | the id is kept; a non-empty name or address replaces its field; an empty one keeps it |
| `Registry.AddPreservesUniqueIds` | device_data_management.py:163-169 | appending an entry whose id is absent keeps ids unique, and lookup then finds it at the end |
| `Registry.AddThenDeleteRestores` | device_data_management.py:225-232 | deleting the id that was just added gives back the registry as it was before the add |
| `Registry.UpdateKeepsIds` | device_data_management.py:210-213 | an update changes no id: every id is found where it was before, and unique ids stay unique |
| `Registry.PatchedKeepsOnEmpty` | device_data_management.py:210-213 | empty arguments keep their fields, so `("", "")` keeps the entry; applying the same update twice equals applying it once; two non-empty arguments replace both fields |
| `Registry.DeviceDataManagement.constructor` | device_data_management.py:87-88 | the object starts on the given document and log, with no writes counted |
| `Registry.DeviceDataManagement.LoadDeviceDataFile` | device_data_management.py:122-134 | reading the document gives what `Registry.Load` states for the document's current state |
| `Registry.DeviceDataManagement.GetDeviceIndex` | device_data_management.py:144-148 | the linear scan returns the first index with the id, or -1 when none has it; it ends the process on an unreadable document |
| `Registry.DeviceDataManagement.SaveDeviceDataFile` | device_data_management.py:245-248 | the whole document is replaced by the given list; one write is counted; the log is untouched |
| `Registry.DeviceDataManagement.AddDevice` | device_data_management.py:160-170 | an empty name or address is refused before any read; an existing id is refused; neither refusal writes; otherwise `{id, name, ip}` is appended at the end with exactly one write, and unique ids stay unique |
| `Registry.DeviceDataManagement.PrintDeviceDataById` | device_data_management.py:190-192 | reports "not found" exactly when no entry has the id; otherwise shows the first entry with that id |
| `Registry.DeviceDataManagement.UpdateDeviceDataById` | device_data_management.py:205-215 | a missing id writes nothing; a found id replaces the name and the address where the argument is non-empty and keeps them where it is `""`; the id and all other entries are unchanged; the document is rewritten even for `("", "")` |
| `Registry.DeviceDataManagement.DeleteDeviceById` | device_data_management.py:225-232 | a missing id writes nothing; a found id removes exactly that entry, keeps the rest in order, shortens the list by one and writes once; with unique ids the id is then absent |
| `Registry.DeviceDataManagement.LoadDeviceAvailabilityDataFile` | device_data_management.py:266-277 | reading the log returns its rows, or ends the process when the file does not exist |
| `Registry.DeviceDataManagement.PrintDeviceAvailabilityDataById` | device_data_management.py:297-302 | the listing is row 0 unconditionally, then exactly the later rows whose first column is the id, in log order; a missing or empty log ends the process |
| `Registry.DeviceDataManagement.SaveDeviceAvailabilityDataFile` | device_data_management.py:315-318 | the log becomes the old rows followed by the given rows, and the file is created if absent; earlier rows are never rewritten; the registry is untouched |
| `Registry.DeviceDataManagement.PingDevice` | device_data_management.py:335-340 | the result is the probe outcome reduced by `Probe.Absorb`: a raise gives `0`, otherwise the probe's value unchanged |
| `Registry.DeviceDataManagement.PingAllDevices` | device_data_management.py:348-353 | a cycle leaves the registry alone, appends the batch of one row per device to the log in one call, and grows the log by the device count with the old log as a prefix; an unreadable document ends it with no append |
| `LegacyRegistry.Load` | DeviceDataManagement.py:106-115 | only a decodable document is read; every other case, including one that does not decode, ends the process |
| `LegacyRegistry.AutoIdAppend` | DeviceDataManagement.py:140-147 | the list grows by one with the old list as a prefix; the new last entry has id `len + 1` and the given name and address |
| `LegacyRegistry.LegacyPatched` | DeviceDataManagement.py:189-192 | the id and `ip` are kept; `name` becomes the given address if there is one, else the given name if there is one, else stays |
| `LegacyRegistry.Pop` | DeviceDataManagement.py:206 | `pop(i)`: the list is one shorter; index -1 removes the last entry; an index `i >= 0` removes entry i |
| `LegacyRegistry.UpdateWritesIpIntoName` | DeviceDataManagement.py:189-192 | the update never changes `ip`; a given address ends up in `name`, overriding a given name; with neither argument the entry is unchanged |
| `LegacyRegistry.DeleteMissingDropsLast` | DeviceDataManagement.py:204-207 | popping the index -1 that a failed lookup returns removes the last entry, a device that does not carry the requested id |
| `LegacyRegistry.AutoIdDenseUnique` | DeviceDataManagement.py:140-147 | while ids are exactly 1..n in order, an automatic-id add keeps them so, hence unique |
| `LegacyRegistry.AutoIdCollidesAfterDelete` | DeviceDataManagement.py:140-147 | deleting any entry but the last of a 1..n registry and then adding gives the new entry an id that is already present |
| `LegacyRegistry.AutoIdCollisionExample` | DeviceDataManagement.py:140-147 | add, add, delete id 1, add: the two remaining entries both carry id 2 |
| `LegacyRegistry.DeviceDataManagement.constructor` | DeviceDataManagement.py:73-74 | the object starts on the given document and log, with no writes counted |
| `LegacyRegistry.DeviceDataManagement.LoadDeviceDataFile` | DeviceDataManagement.py:106-115 | reading the document gives what `LegacyRegistry.Load` states for the document's current state |
| `LegacyRegistry.DeviceDataManagement.GetDeviceIndex` | DeviceDataManagement.py:125-129 | the linear scan returns the first index with the id, or -1 when none has it |
| `LegacyRegistry.DeviceDataManagement.SaveDeviceDataFile` | DeviceDataManagement.py:220-223 | the whole document is replaced by the given list; one write is counted |
| `LegacyRegistry.DeviceDataManagement.AddDevice` | DeviceDataManagement.py:140-147 | with no checks, `{id: len + 1, name, ip}` is appended at the end and written once; the old list is a prefix of the new one |
| `LegacyRegistry.DeviceDataManagement.UpdateDeviceDataById` | DeviceDataManagement.py:182-193 | it warns exactly when both arguments are absent and carries on; a missing id writes nothing; a found id is written back with the given address in `name` and `ip` unchanged |
| `LegacyRegistry.DeviceDataManagement.DeleteDeviceById` | DeviceDataManagement.py:203-207 | a found id removes that entry; a missing id reports "not found" yet removes the last entry and writes; an empty registry ends the process without writing |
| `LegacyRegistry.DeviceDataManagement.LoadDeviceAvailabilityDataFile` | DeviceDataManagement.py:241-252 | reading the log returns its rows, or ends the process when the file does not exist |
| `LegacyRegistry.DeviceDataManagement.PrintDeviceAvailabilityDataById` | DeviceDataManagement.py:272-277 | the listing is row 0 unconditionally, then exactly the later rows whose first column is the id, in log order; a missing or empty log ends the process |
| `LegacyRegistry.DeviceDataManagement.SaveDeviceAvailabilityDataFile` | DeviceDataManagement.py:290-293 | the log becomes the old rows followed by the given rows; earlier rows are never rewritten |
| `PingStatusTracking.PingDevice` | PingStatusTracking.py:17-22 | a probe exception yields `0`; otherwise the probe's raw value is returned unchanged |
| `PingStatusTracking.PingAllDevices` | PingStatusTracking.py:33-38 | one row per device in registry order, handed to a single append: the log grows by exactly that batch and the old rows stay a prefix; the registry is untouched |

## Left out

- File formats: JSON decoding and pretty-printing, and CSV quoting and parsing. The document and the log are sequences held in fields. Every log row is assumed to have an integer first column, so the `ValueError` that `int(row[0])` raises on a text row is not modelled. In particular, row 0 is always a data row in the model. It cannot be the text header `["Device ID", "Timestamp", "Status"]` that a commented-out call in PingStatusTracking.py (line 58) writes to seed the log, and that the unconditional row-0 print is there to show.
- Write failures in `save_device_data_file` and `save_device_availability_data_file`, which end the process. The model's writes always succeed. Log read failures other than a missing file are not modelled either: `logFile` is either absent or readable, so the `except Exception` exit of `load_device_availability_data_file` (device_data_management.py:274-277, DeviceDataManagement.py:249-252) has no counterpart.
- A partial batch write. The append is modelled as one step.
- The ping library itself. It is replaced by the `probe` parameter. As a pure function of the address, the model gives two devices with the same address the same outcome within one cycle.
- `datetime.now()`. It is replaced by the `clock` parameter, and timestamps are opaque values.
- The five-minute scheduler and sleep loops in `ping_monitor.py` and `PingStatusTracking.py`, which only repeat the cycle.
- The command-line dispatch in `ping_monitor.py`, and `main` in `PingStatusTracking.py`.
- Printed text, message constants, `__str__` and `__repr__`.
- `print_all_device_data` and `print_all_device_availability_data`. Both only show what `LoadDeviceDataFile` and `LoadDeviceAvailabilityDataFile` return.
- The older class's `print_device_data_by_id`, which is the same lookup as the current one.

## Findings

The current class in `device_data_management.py` corrects each of these defects of the older class, so the corrected member is the current one.

| source | as written | input that shows it | evidently intended | confidence | as-written member | corrected member |
|---|---|---|---|---|---|---|
| DeviceDataManagement.py:191-192 | a given `device_ip` is assigned to the `name` field | `update_device_data_by_id(1, device_ip="10.0.0.2")` on `{1, "Router", "192.168.1.1"}` gives `{1, "10.0.0.2", "192.168.1.1"}` | the address goes to `ip` | high, not executed | `LegacyRegistry.UpdateWritesIpIntoName` | `Registry.DeviceDataManagement.UpdateDeviceDataById` |
| DeviceDataManagement.py:204-207 | a missing id still reaches `pop(-1)` and a save | `delete_device_by_id(99)` on `[{1,..}, {2,..}]` removes device 2 | a missing id leaves the registry unchanged | high, not executed | `LegacyRegistry.DeleteMissingDropsLast` | `Registry.DeviceDataManagement.DeleteDeviceById` |
| DeviceDataManagement.py:140-147 | the new id is `len(devices) + 1` | add, add, delete id 1, add: two entries carry id 2 | ids stay unique | high, not executed | `LegacyRegistry.AutoIdCollidesAfterDelete` | `Registry.AddPreservesUniqueIds` |
