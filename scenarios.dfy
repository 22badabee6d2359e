/** Client scenarios: what a caller of the registry classes can conclude
    from their contracts alone. */
module Scenarios {
  import opened Records
  import opened Probe
  import Registry
  import LegacyRegistry
  import PingStatusTracking

  /** Adding to an empty registry succeeds; adding the same id again is
      refused and writes nothing. */
  method AddScenario()
  {
    var m := new Registry.DeviceDataManagement(Json([]), None);
    var s := m.AddDevice(1, "Router", "192.168.1.1");
    assert s == Done && m.deviceFile == Json([Device(1, "Router", "192.168.1.1")]);
    s := m.AddDevice(1, "Router2", "10.0.0.1");
    assert s == IdAlreadyExists && m.deviceFile == Json([Device(1, "Router", "192.168.1.1")]) && m.saves == 1;
  }

  /** An update with an empty name changes only the address; one with two
      empty strings still writes the unchanged entry back. */
  method UpdateScenario()
  {
    var m := new Registry.DeviceDataManagement(Json([Device(1, "Router", "192.168.1.1")]), None);
    var s := m.UpdateDeviceDataById(1, "", "10.0.0.2");
    assert s == Done && m.deviceFile == Json([Device(1, "Router", "10.0.0.2")]);
    s := m.UpdateDeviceDataById(1, "", "");
    assert s == Done && m.deviceFile == Json([Device(1, "Router", "10.0.0.2")]) && m.saves == 2;
  }

  /** Deleting a missing id writes nothing; deleting a present one removes it. */
  method DeleteScenario()
  {
    var m := new Registry.DeviceDataManagement(Json([Device(1, "Router", "192.168.1.1")]), None);
    var s := m.DeleteDeviceById(99);
    assert s == DeviceNotFound && m.saves == 0;
    s := m.DeleteDeviceById(1);
    assert s == Done && m.deviceFile == Json([]);
  }

  /** One cycle over two devices appends exactly two rows, in registry order. */
  method CycleScenario(probe: string -> ProbeOutcome, clock: nat -> Timestamp)
  {
    var m := new Registry.DeviceDataManagement(Json([Device(1, "a", "x"), Device(2, "b", "y")]), None);
    var s := m.PingAllDevices(probe, clock);
    ProbeBatchRows([Device(1, "a", "x"), Device(2, "b", "y")], probe, clock);
    assert s == Done && |m.LogRows()| == 2 && m.appends == 1;
    assert m.LogRows()[0].deviceId == 1 && m.LogRows()[1].deviceId == 2;
  }

  /** The older class: the address lands in the name field, and deleting a
      missing id removes the last device. */
  method LegacyScenario(probe: string -> ProbeOutcome, clock: nat -> Timestamp)
  {
    var m := new LegacyRegistry.DeviceDataManagement(Json([Device(1, "a", "b"), Device(2, "c", "d")]), None);
    var warned, s := m.UpdateDeviceDataById(1, None, Some("e"));
    assert !warned && s == Done && m.deviceFile == Json([Device(1, "e", "b"), Device(2, "c", "d")]);
    s := m.DeleteDeviceById(99);
    assert s == DeviceNotFound && m.deviceFile == Json([Device(1, "e", "b")]);
    s := PingStatusTracking.PingAllDevices(m, probe, clock);
    assert s == Done && |m.LogRows()| == 1;
  }
}
