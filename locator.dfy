/** Finding the one meter to talk to among the devices hid_enumerate lists. */
module Locator {
  import opened Hid

  /** A listed device is a candidate when no serial filter is given, or when its serial
      compares equal to the filter. */
  predicate Counted(d: DeviceInfo, serial: Option<string>)
  {
    serial.None? || serial.value == d.serial
  }

  /** The number of candidates among devs. */
  function CountMatches(devs: seq<DeviceInfo>, serial: Option<string>): (n: nat)
    ensures n <= |devs|
  {
    if devs == [] then 0
    else CountMatches(devs[..|devs| - 1], serial) + (if Counted(devs[|devs| - 1], serial) then 1 else 0)
  }

  /** The vendor and product identifiers of the last candidate in devs, or (0, 0) when
      there is none. */
  function Target(devs: seq<DeviceInfo>, serial: Option<string>): (t: (u16, u16))
  {
    if devs == [] then (0, 0)
    else if Counted(devs[|devs| - 1], serial) then (devs[|devs| - 1].vendorId, devs[|devs| - 1].productId)
    else Target(devs[..|devs| - 1], serial)
  }

  /** The hidapi calls splread_find_device makes for an enumeration devs: the enumeration,
      an open attempt when there is exactly one candidate, and the release of a non-empty
      list. */
  function FindCalls(vid: u16, pid: u16, serial: Option<string>, devs: seq<DeviceInfo>): seq<HidCall>
  {
    [Enumerate(vid, pid)] +
    if devs == [] then []
    else (if CountMatches(devs, serial) == 1
          then [Open(Target(devs, serial).0, Target(devs, serial).1, serial)]
          else []) + [FreeEnumeration]
  }

  /** Walks the enumeration devs (the empty list is hid_enumerate's NULL), counting the
      candidates and remembering the last one, then opens it when it is the only one;
      openOk is whether hid_open succeeds. */
  method FindDevice(vid: u16, pid: u16, serial: Option<string>, devs: seq<DeviceInfo>, openOk: bool)
    returns (ret: Status, dev: Option<Handle>, calls: seq<HidCall>)
    ensures devs == [] ==> ret == ErrNotFound
    ensures devs != [] && CountMatches(devs, serial) > 1 ==> ret == ErrInval
    ensures devs != [] && CountMatches(devs, serial) == 0 ==> ret == ErrEmpty
    ensures devs != [] && CountMatches(devs, serial) == 1 ==> ret == (if openOk then Ok else ErrNotFound)
    ensures dev.Some? <==> ret == Ok
    ensures ret == Ok ==> dev == Some(Handle(Target(devs, serial).0, Target(devs, serial).1, serial))
    ensures calls == FindCalls(vid, pid, serial, devs)
  {
    dev := None;
    calls := [Enumerate(vid, pid)];
    var openedDev: Option<Handle> := None;
    if devs == [] {
      ret := ErrNotFound;
    } else {
      var nrDevs := 0;
      var tgtVid: u16, tgtPid: u16 := 0, 0;
      var i := 0;
      while i < |devs|
        invariant i <= |devs|
        invariant nrDevs == CountMatches(devs[..i], serial)
        invariant (tgtVid, tgtPid) == Target(devs[..i], serial)
      {
        assert devs[..i + 1][..i] == devs[..i];
        if Counted(devs[i], serial) {
          tgtVid, tgtPid := devs[i].vendorId, devs[i].productId;
          nrDevs := nrDevs + 1;
        }
        i := i + 1;
      }
      assert devs[..i] == devs;
      if nrDevs > 1 {
        ret := ErrInval;
      } else if nrDevs == 0 {
        ret := ErrEmpty;
      } else {
        calls := calls + [Open(tgtVid, tgtPid, serial)];
        if openOk {
          openedDev := Some(Handle(tgtVid, tgtPid, serial));
          dev := openedDev;
          ret := Ok;
        } else {
          ret := ErrNotFound;
        }
      }
      calls := calls + [FreeEnumeration];
    }
    if ret != Ok && openedDev.Some? {
      calls := calls + [Close];
      openedDev := None;
    }
  }

  /** The lookup starts with the enumeration, releases a non-empty list as its last call
      on every path, never closes anything, and opens only the single candidate. */
  lemma FindCallsShape(vid: u16, pid: u16, serial: Option<string>, devs: seq<DeviceInfo>)
    ensures var calls := FindCalls(vid, pid, serial, devs);
            calls[0] == Enumerate(vid, pid) &&
            (FreeEnumeration in calls <==> devs != []) &&
            (devs != [] ==> calls[|calls| - 1] == FreeEnumeration) &&
            Close !in calls &&
            forall e :: e in calls && e.Open? ==>
              CountMatches(devs, serial) == 1 && e == Open(Target(devs, serial).0, Target(devs, serial).1, serial)
  {
  }

  /** Without a serial filter every listed device is a candidate. */
  lemma {:induction false} CountWithoutFilter(devs: seq<DeviceInfo>)
    ensures CountMatches(devs, None) == |devs|
  {
    if devs != [] {
      CountWithoutFilter(devs[..|devs| - 1]);
    }
  }

  /** When some candidate exists, the target is that of a candidate after which no other
      candidate follows. */
  lemma {:induction false} TargetIsLastCandidate(devs: seq<DeviceInfo>, serial: Option<string>)
    requires CountMatches(devs, serial) > 0
    ensures exists k :: 0 <= k < |devs| && Counted(devs[k], serial) &&
              Target(devs, serial) == (devs[k].vendorId, devs[k].productId) &&
              forall j :: k < j < |devs| ==> !Counted(devs[j], serial)
  {
    var last := |devs| - 1;
    if Counted(devs[last], serial) {
      assert Counted(devs[last], serial) && Target(devs, serial) == (devs[last].vendorId, devs[last].productId);
    } else {
      var init := devs[..last];
      TargetIsLastCandidate(init, serial);
      var k :| 0 <= k < |init| && Counted(init[k], serial) &&
               Target(init, serial) == (init[k].vendorId, init[k].productId) &&
               forall j :: k < j < |init| ==> !Counted(init[j], serial);
      assert devs[k] == init[k];
      forall j | k < j < |devs| ensures !Counted(devs[j], serial) {
        if j < last {
          assert devs[j] == init[j];
        }
      }
    }
  }

  /** When the listed serials are pairwise different, filtering by one of them leaves
      exactly that device as the candidate. */
  lemma {:induction false} UniqueSerialSelects(devs: seq<DeviceInfo>, k: nat)
    requires k < |devs|
    requires forall a, b :: 0 <= a < b < |devs| ==> devs[a].serial != devs[b].serial
    ensures CountMatches(devs, Some(devs[k].serial)) == 1
    ensures Target(devs, Some(devs[k].serial)) == (devs[k].vendorId, devs[k].productId)
  {
    var last := |devs| - 1;
    var init := devs[..last];
    var s := Some(devs[k].serial);
    if k == last {
      NoMatchCount(init, devs[k].serial);
    } else {
      assert init[k] == devs[k];
      UniqueSerialSelects(init, k);
      assert !Counted(devs[last], s);
    }
  }

  /** A serial no listed device carries selects no candidate. */
  lemma {:induction false} NoMatchCount(devs: seq<DeviceInfo>, serial: string)
    requires forall j :: 0 <= j < |devs| ==> devs[j].serial != serial
    ensures CountMatches(devs, Some(serial)) == 0
  {
    if devs != [] {
      NoMatchCount(devs[..|devs| - 1], serial);
    }
  }

  /** Two meters and no filter: the lookup refuses to choose; filtering by the serial of
      one of them, when the serials differ, selects that one. */
  lemma TwoMetersNeedFilter(d1: DeviceInfo, d2: DeviceInfo)
    requires d1.serial != d2.serial
    ensures CountMatches([d1, d2], None) == 2
    ensures CountMatches([d1, d2], Some(d2.serial)) == 1
    ensures Target([d1, d2], Some(d2.serial)) == (d2.vendorId, d2.productId)
  {
    CountWithoutFilter([d1, d2]);
    UniqueSerialSelects([d1, d2], 1);
  }
}
