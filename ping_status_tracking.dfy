/** The scheduled probe script (PingStatusTracking.py): a probe reduced so
    that it never raises, and one cycle that probes every device of the
    older registry class and appends the rows through it in one call. */
module PingStatusTracking {
  import opened Records
  import opened Probe
  import LegacyRegistry

  /** One probe of address `ip`: an exception becomes `0`, any returned
      value is passed on unchanged. */
  function PingDevice(probe: string -> ProbeOutcome, ip: string): (status: PyValue)
    ensures probe(ip).Raised? ==> status == PyInt(0)
    ensures probe(ip).Returned? ==> status == probe(ip).value
  {
    Absorb(probe(ip))
  }

  /** One probe cycle over `m`: reads its registry, builds one row per
      device in registry order and hands the whole batch to a single append,
      so the log grows by exactly that batch. */
  method PingAllDevices(m: LegacyRegistry.DeviceDataManagement, probe: string -> ProbeOutcome,
                        clock: nat -> Timestamp) returns (status: Status)
    modifies m
    ensures status == Done || status == Exited
    ensures m.deviceFile == old(m.deviceFile) && m.saves == old(m.saves)
    ensures LegacyRegistry.Load(old(m.deviceFile)).None? <==> status == Exited
    ensures status == Exited ==> m.logFile == old(m.logFile) && m.appends == old(m.appends)
    ensures status == Done ==>
      var ds := LegacyRegistry.Load(old(m.deviceFile)).value;
      && m.logFile == Some(old(m.LogRows()) + ProbeBatch(ds, probe, clock))
      && m.appends == old(m.appends) + 1
      && |m.LogRows()| == |old(m.LogRows())| + |ds|
      && old(m.LogRows()) <= m.LogRows()
  {
    var loaded := m.LoadDeviceDataFile();
    if loaded.None? {
      return Exited;
    }
    var ds := loaded.value;
    var batch := [];
    var i := 0;
    while i < |ds|
      invariant 0 <= i <= |ds|
      invariant batch == ProbeBatch(ds[..i], probe, clock)
    {
      assert ds[..i + 1][..i] == ds[..i];
      var bit := if Truthy(PingDevice(probe, ds[i].ip)) then 1 else 0;
      batch := batch + [Row(ds[i].id, clock(i), bit)];
      i := i + 1;
    }
    assert ds[..i] == ds;
    ProbeBatchRows(ds, probe, clock);
    m.SaveDeviceAvailabilityDataFile(batch);
    status := Done;
  }
}
