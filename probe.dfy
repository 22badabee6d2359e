/** The reachability probe as both registry versions use it: one call to the
    network library, whose exception is absorbed into the value 0, reduced
    to a status bit; and the batch of log rows one probe cycle builds. */
module Probe {
  import opened Records

  /** The Python values a probe can leave behind: the ping library returns a
      float delay, `None` on a timeout or `False` on an unknown host, and the
      exception handler substitutes the int `0`. */
  datatype PyValue = PyNone | PyBool(b: bool) | PyInt(i: int) | PyFloat(x: real)

  /** Python truthiness of those values. */
  predicate Truthy(v: PyValue) {
    match v
    case PyNone => false
    case PyBool(b) => b
    case PyInt(i) => i != 0
    case PyFloat(x) => x != 0.0
  }

  /** One call of the network probe: it raised, or it returned a value. */
  datatype ProbeOutcome = Raised | Returned(value: PyValue)

  /** The `try`/`except` around the probe: an exception becomes `0`, any
      returned value is passed on unchanged. */
  function Absorb(o: ProbeOutcome): (v: PyValue)
    ensures o.Raised? ==> !Truthy(v)
    ensures o.Returned? ==> v == o.value
  {
    match o
    case Raised => PyInt(0)
    case Returned(v) => v
  }

  /** `1 if status else 0`. */
  function StatusBit(v: PyValue): (bit: int)
    ensures 0 <= bit <= 1
    ensures bit == 1 <==> Truthy(v)
  {
    if Truthy(v) then 1 else 0
  }

  /** A probe never propagates a failure: the status is a bit, it is 1
      exactly when the probe returned a truthy value, and an exception
      yields 0. */
  lemma ProbeIsolation(o: ProbeOutcome)
    ensures 0 <= StatusBit(Absorb(o)) <= 1
    ensures StatusBit(Absorb(o)) == 1 <==> o.Returned? && Truthy(o.value)
    ensures o.Raised? ==> Absorb(o) == PyInt(0) && StatusBit(Absorb(o)) == 0
  {
  }

  /** The row recorded for device `d` probed as the `k`-th of a cycle;
      `clock(k)` is the time taken right after that probe. */
  function RowFor(d: Device, k: nat, probe: string -> ProbeOutcome, clock: nat -> Timestamp): Row {
    Row(d.id, clock(k), StatusBit(Absorb(probe(d.ip))))
  }

  /** The batch one probe cycle builds for the registry `ds`, one row
      appended per device in registry order. */
  function ProbeBatch(ds: seq<Device>, probe: string -> ProbeOutcome, clock: nat -> Timestamp): (batch: seq<Row>)
    ensures |batch| == |ds|
    ensures forall k :: 0 <= k < |batch| ==> 0 <= batch[k].status <= 1
  {
    if ds == [] then []
    else ProbeBatch(ds[..|ds| - 1], probe, clock) + [RowFor(ds[|ds| - 1], |ds| - 1, probe, clock)]
  }

  /** The batch has one row per device, the `k`-th row being device `k`'s. */
  lemma {:induction false} ProbeBatchRows(ds: seq<Device>, probe: string -> ProbeOutcome, clock: nat -> Timestamp)
    ensures |ProbeBatch(ds, probe, clock)| == |ds|
    ensures forall k :: 0 <= k < |ds| ==> ProbeBatch(ds, probe, clock)[k] == RowFor(ds[k], k, probe, clock)
  {
    if ds != [] {
      var init := ds[..|ds| - 1];
      ProbeBatchRows(init, probe, clock);
      assert forall k :: 0 <= k < |init| ==> init[k] == ds[k];
    }
  }

  /** Cycle completeness: exactly one row per device, in registry order, each
      carrying that device's id and a status bit that is 1 exactly when
      probing its address returned a truthy value. */
  lemma ProbeBatchComplete(ds: seq<Device>, probe: string -> ProbeOutcome, clock: nat -> Timestamp)
    ensures |ProbeBatch(ds, probe, clock)| == |ds|
    ensures forall k :: 0 <= k < |ds| ==>
      var row := ProbeBatch(ds, probe, clock)[k];
      && row.deviceId == ds[k].id
      && row.time == clock(k)
      && 0 <= row.status <= 1
      && (row.status == 1 <==> probe(ds[k].ip).Returned? && Truthy(probe(ds[k].ip).value))
  {
    ProbeBatchRows(ds, probe, clock);
  }

  /** When ids are unique, the batch holds exactly one row for each
      registered device and none for any other id, so listing a device
      after a cycle shows one new row for it. */
  lemma {:induction false} ProbeBatchRowsForDevice(ds: seq<Device>, probe: string -> ProbeOutcome, clock: nat -> Timestamp, id: int)
    requires UniqueIds(ds)
    ensures MatchingRows(ProbeBatch(ds, probe, clock), id) ==
      if IndexOf(ds, id) == -1 then [] else [RowFor(ds[IndexOf(ds, id)], IndexOf(ds, id), probe, clock)]
  {
    if ds != [] {
      var n := |ds| - 1;
      var init := ds[..n];
      assert ds == init + [ds[n]];
      assert UniqueIds(init) by {
        forall a, b | 0 <= a < b < n ensures init[a].id != init[b].id {
          assert init[a] == ds[a] && init[b] == ds[b];
        }
      }
      ProbeBatchRowsForDevice(init, probe, clock, id);
      var last := RowFor(ds[n], n, probe, clock);
      var batch := ProbeBatch(ds, probe, clock);
      assert batch[..|batch| - 1] == ProbeBatch(init, probe, clock) && batch[|batch| - 1] == last;
      assert MatchingRows(batch, id) ==
        MatchingRows(ProbeBatch(init, probe, clock), id) + (if ds[n].id == id then [last] else []);
      IndexOfSnoc(init, ds[n], id);
      if ds[n].id == id {
        assert IndexOf(init, id) == -1 by {
          forall k | 0 <= k < n ensures init[k].id != id {
            assert init[k] == ds[k];
          }
        }
      }
    }
  }
}
