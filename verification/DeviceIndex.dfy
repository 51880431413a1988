/**
  * The simulator engine's device table and its index by protocol: two maps that
  * adding and removing devices must keep in step.
  *
  * Whether a device initializes and whether it stops are arguments of the calls,
  * and a device's protocol never changes.
  */
module DeviceIndex {

  type Id = string

  datatype Protocol = ModbusTcp | ModbusRtu | OpcUa | BacnetIp | KnxIp

  datatype DeviceInfo = DeviceInfo(id: Id, protocol: Protocol)

  datatype Reply = Done | CapacityExceeded | AlreadyExists | InitFailed | NotFound | StopFailed

  datatype Tables = Tables(devices: map<Id, Protocol>, index: map<Protocol, seq<Id>>)

  datatype Call =
    | Add(id: Id, protocol: Protocol, initializes: bool)
    | Remove(id: Id, stops: bool)

  const EMPTY := Tables(map[], map[])

  // ---------------------------------------------------------------------------
  // What the calls do
  // ---------------------------------------------------------------------------

  function Indexed(t: Tables, p: Protocol): seq<Id> {
    if p in t.index then t.index[p] else []
  }

  /** The list without `id`. */
  function Without(ids: seq<Id>, id: Id): seq<Id> {
    if ids == [] then []
    else
      var front, x := Without(ids[..|ids| - 1], id), ids[|ids| - 1];
      if x == id then front else front + [x]
  }

  function ReplyTo(t: Tables, max: nat, c: Call): Reply {
    match c
    case Add(id, _, initializes) =>
      if |t.devices| >= max then CapacityExceeded
      else if id in t.devices then AlreadyExists
      else if !initializes then InitFailed
      else Done
    case Remove(id, stops) =>
      if id !in t.devices then NotFound else if !stops then StopFailed else Done
  }

  /** A removal whose stop fails has already taken the device out, and returns before the index is cleaned. */
  function Apply(t: Tables, max: nat, c: Call): Tables {
    match c
    case Add(id, p, _) =>
      if ReplyTo(t, max, c) != Done then t
      else Tables(t.devices[id := p], t.index[p := Indexed(t, p) + [id]])
    case Remove(id, stops) =>
      if id !in t.devices then t
      else
        var p := t.devices[id];
        Tables(t.devices - {id},
               if stops && p in t.index then t.index[p := Without(t.index[p], id)] else t.index)
  }

  /** The indexed devices that still exist, with the information the device table has of them. */
  function Listing(devices: map<Id, Protocol>, ids: seq<Id>): seq<DeviceInfo> {
    if ids == [] then []
    else
      var front, id := Listing(devices, ids[..|ids| - 1]), ids[|ids| - 1];
      if id in devices then front + [DeviceInfo(id, devices[id])] else front
  }

  class SimulatorEngine {
    const maxDevices: nat
    var devices: map<Id, Protocol>
    var devicesByProtocol: map<Protocol, seq<Id>>

    function State(): Tables
      reads this
    {
      Tables(devices, devicesByProtocol)
    }

    constructor (maxDevices: nat)
      ensures State() == EMPTY && this.maxDevices == maxDevices
    {
      this.maxDevices := maxDevices;
      devices, devicesByProtocol := map[], map[];
    }

    method AddDevice(id: Id, protocol: Protocol, initializes: bool) returns (reply: Reply)
      modifies this
      ensures var c := Add(id, protocol, initializes);
              reply == ReplyTo(old(State()), maxDevices, c) && State() == Apply(old(State()), maxDevices, c)
    {
      if |devices| >= maxDevices {
        return CapacityExceeded;
      }
      if id in devices {
        return AlreadyExists;
      }
      if !initializes {
        return InitFailed;
      }
      devices := devices[id := protocol];
      if protocol !in devicesByProtocol {
        devicesByProtocol := devicesByProtocol[protocol := []];
      }
      devicesByProtocol := devicesByProtocol[protocol := devicesByProtocol[protocol] + [id]];
      return Done;
    }

    method RemoveDevice(id: Id, stops: bool) returns (reply: Reply)
      modifies this
      ensures var c := Remove(id, stops);
              reply == ReplyTo(old(State()), maxDevices, c) && State() == Apply(old(State()), maxDevices, c)
    {
      if id !in devices {
        return NotFound;
      }
      var protocol := devices[id];
      devices := devices - {id};
      if !stops {
        return StopFailed;
      }
      if protocol in devicesByProtocol {
        var kept := Retain(devicesByProtocol[protocol], id);
        devicesByProtocol := devicesByProtocol[protocol := kept];
      }
      return Done;
    }

    method ListDevicesByProtocol(protocol: Protocol) returns (infos: seq<DeviceInfo>)
      ensures infos == Listing(devices, Indexed(State(), protocol))
    {
      infos := [];
      if protocol in devicesByProtocol {
        var ids := devicesByProtocol[protocol];
        for i := 0 to |ids|
          invariant infos == Listing(devices, ids[..i])
        {
          assert ids[..i + 1][..i] == ids[..i];
          if ids[i] in devices {
            infos := infos + [DeviceInfo(ids[i], devices[ids[i]])];
          }
        }
        assert ids[..|ids|] == ids;
      }
    }
  }

  method Retain(ids: seq<Id>, id: Id) returns (kept: seq<Id>)
    ensures kept == Without(ids, id)
  {
    kept := [];
    for i := 0 to |ids|
      invariant kept == Without(ids[..i], id)
    {
      assert ids[..i + 1][..i] == ids[..i];
      if ids[i] != id {
        kept := kept + [ids[i]];
      }
    }
    assert ids[..|ids|] == ids;
  }

  // ---------------------------------------------------------------------------
  // Counting entries
  // ---------------------------------------------------------------------------

  function Count<T(==)>(s: seq<T>, x: T): nat {
    if s == [] then 0 else Count(s[..|s| - 1], x) + if s[|s| - 1] == x then 1 else 0
  }

  lemma CountSnoc<T>(s: seq<T>, y: T, x: T)
    ensures Count(s + [y], x) == Count(s, x) + if y == x then 1 else 0
  {
    assert (s + [y])[..|s|] == s;
  }

  lemma {:induction false} CountWithout(ids: seq<Id>, id: Id, x: Id)
    ensures Count(Without(ids, id), x) == if x == id then 0 else Count(ids, x)
  {
    if ids != [] {
      var front, y := ids[..|ids| - 1], ids[|ids| - 1];
      CountWithout(front, id, x);
      CountSnoc(Without(front, id), y, x);
    }
  }

  /** A listing shows a live device as often as its id is indexed, always with its own protocol. */
  lemma {:induction false} CountListing(devices: map<Id, Protocol>, ids: seq<Id>, info: DeviceInfo)
    ensures Count(Listing(devices, ids), info) ==
            if info.id in devices && devices[info.id] == info.protocol then Count(ids, info.id) else 0
  {
    if ids != [] {
      var front, id := ids[..|ids| - 1], ids[|ids| - 1];
      CountListing(devices, front, info);
      if id in devices {
        CountSnoc(Listing(devices, front), DeviceInfo(id, devices[id]), info);
      }
    }
  }

  lemma Regroup<T>(a: seq<T>, b: seq<T>, y: T)
    ensures a + (b + [y]) == (a + b) + [y]
  {
  }

  lemma WithoutSnoc(ids: seq<Id>, x: Id, id: Id)
    ensures Without(ids + [x], id) == if x == id then Without(ids, id) else Without(ids, id) + [x]
  {
    assert (ids + [x])[..|ids|] == ids;
  }

  lemma ListingSnoc(devices: map<Id, Protocol>, ids: seq<Id>, x: Id)
    ensures Listing(devices, ids + [x]) ==
            if x in devices then Listing(devices, ids) + [DeviceInfo(x, devices[x])] else Listing(devices, ids)
  {
    assert (ids + [x])[..|ids|] == ids;
  }

  /** Removing an id takes out its entries and keeps the others in their order. */
  lemma {:induction false} WithoutConcat(a: seq<Id>, b: seq<Id>, id: Id)
    ensures Without(a + b, id) == Without(a, id) + Without(b, id)
  {
    if b == [] {
      assert a + b == a;
    } else {
      var front, y := b[..|b| - 1], b[|b| - 1];
      WithoutConcat(a, front, id);
      assert b == front + [y];
      Regroup(a, front, y);
      WithoutSnoc(a + front, y, id);
      WithoutSnoc(front, y, id);
      Regroup(Without(a, id), Without(front, id), y);
    }
  }

  /** A listing follows the order of the index. */
  lemma {:induction false} ListingConcat(devices: map<Id, Protocol>, a: seq<Id>, b: seq<Id>)
    ensures Listing(devices, a + b) == Listing(devices, a) + Listing(devices, b)
  {
    if b == [] {
      assert a + b == a;
    } else {
      var front, y := b[..|b| - 1], b[|b| - 1];
      ListingConcat(devices, a, front);
      assert b == front + [y];
      Regroup(a, front, y);
      ListingSnoc(devices, a + front, y);
      ListingSnoc(devices, front, y);
      if y in devices {
        Regroup(Listing(devices, a), Listing(devices, front), DeviceInfo(y, devices[y]));
      }
    }
  }

  // ---------------------------------------------------------------------------
  // Whole runs
  // ---------------------------------------------------------------------------

  function After(max: nat, calls: seq<Call>): Tables {
    if calls == [] then EMPTY else Apply(After(max, calls[..|calls| - 1]), max, calls[|calls| - 1])
  }

  /** What a call makes of the entries that failed stops have left behind for `id` under `p`. */
  function StaleStep(t: Tables, c: Call, stale: nat, id: Id, p: Protocol): nat {
    if c.Remove? && c.id == id && id in t.devices && t.devices[id] == p then
      if c.stops then 0 else stale + 1
    else stale
  }

  /** Removals of `id` under `p` whose stop failed, since the last one whose stop succeeded. */
  function Stale(max: nat, calls: seq<Call>, id: Id, p: Protocol): nat {
    if calls == [] then 0
    else
      var front := calls[..|calls| - 1];
      StaleStep(After(max, front), calls[|calls| - 1], Stale(max, front, id, p), id, p)
  }

  function Live(t: Tables, id: Id, p: Protocol): nat {
    if id in t.devices && t.devices[id] == p then 1 else 0
  }

  lemma ApplyCounts(t: Tables, max: nat, c: Call, stale: nat, id: Id, p: Protocol)
    requires Count(Indexed(t, p), id) == Live(t, id, p) + stale
    ensures var r := Apply(t, max, c);
            Count(Indexed(r, p), id) == Live(r, id, p) + StaleStep(t, c, stale, id, p)
  {
    if c.Add? {
      AddCounts(t, max, c, id, p);
    } else {
      RemoveCounts(t, max, c, id, p);
    }
  }

  lemma AddCounts(t: Tables, max: nat, c: Call, id: Id, p: Protocol)
    requires c.Add?
    ensures var r := Apply(t, max, c);
            Count(Indexed(r, p), id) - Count(Indexed(t, p), id) == Live(r, id, p) - Live(t, id, p)
  {
    CountSnoc(Indexed(t, c.protocol), c.id, id);
  }

  lemma RemoveCounts(t: Tables, max: nat, c: Call, id: Id, p: Protocol)
    requires c.Remove?
    ensures var r := Apply(t, max, c);
            && Live(r, id, p) == (if id == c.id then 0 else Live(t, id, p))
            && Count(Indexed(r, p), id) ==
               if c.stops && id == c.id && Live(t, id, p) == 1 then 0 else Count(Indexed(t, p), id)
  {
    if c.id in t.devices && t.devices[c.id] in t.index {
      CountWithout(t.index[t.devices[c.id]], c.id, id);
    }
  }

  /** After every run, an id is indexed under a protocol once if it lives there, plus once per stale entry. */
  lemma {:induction false} IndexCounts(max: nat, calls: seq<Call>, id: Id, p: Protocol)
    ensures var t := After(max, calls);
            Count(Indexed(t, p), id) == Live(t, id, p) + Stale(max, calls, id, p)
  {
    if calls != [] {
      var front := calls[..|calls| - 1];
      IndexCounts(max, front, id, p);
      ApplyCounts(After(max, front), max, calls[|calls| - 1], Stale(max, front, id, p), id, p);
    }
  }

  /** At step `i` the device was added under `p`, and it has not been removed since. */
  predicate AddedAt(max: nat, calls: seq<Call>, i: nat, id: Id, p: Protocol)
    requires i < |calls|
  {
    && calls[i] == Add(id, p, true)
    && ReplyTo(After(max, calls[..i]), max, calls[i]) == Done
    && forall j :: i < j < |calls| ==> !IsRemoval(calls[j], id)
  }

  predicate IsRemoval(c: Call, id: Id) {
    c.Remove? && c.id == id
  }

  predicate AddedBy(max: nat, calls: seq<Call>, id: Id, p: Protocol) {
    exists i :: 0 <= i < |calls| && AddedAt(max, calls, i, id, p)
  }

  lemma AddedEarlier(max: nat, calls: seq<Call>, c: Call, i: nat, id: Id, p: Protocol)
    requires i < |calls|
    ensures AddedAt(max, calls + [c], i, id, p) <==> AddedAt(max, calls, i, id, p) && !IsRemoval(c, id)
  {
    var longer, n := calls + [c], |calls|;
    assert longer[..i] == calls[..i] && longer[i] == calls[i] && longer[n] == c;
    assert forall j :: i < j < n ==> longer[j] == calls[j];
  }

  lemma AddedStep(max: nat, calls: seq<Call>, c: Call, id: Id, p: Protocol)
    ensures AddedBy(max, calls + [c], id, p) <==>
      || (AddedBy(max, calls, id, p) && !IsRemoval(c, id))
      || (c == Add(id, p, true) && ReplyTo(After(max, calls), max, c) == Done)
  {
    var longer, n := calls + [c], |calls|;
    assert longer[..n] == calls && longer[n] == c;
    forall i | 0 <= i < n
      ensures AddedAt(max, longer, i, id, p) <==> AddedAt(max, calls, i, id, p) && !IsRemoval(c, id)
    {
      AddedEarlier(max, calls, c, i, id, p);
    }
    if c == Add(id, p, true) && ReplyTo(After(max, calls), max, c) == Done {
      assert AddedAt(max, longer, n, id, p);
    }
    if AddedBy(max, calls, id, p) && !IsRemoval(c, id) {
      var i :| 0 <= i < n && AddedAt(max, calls, i, id, p);
      assert AddedAt(max, longer, i, id, p);
    }
  }

  /** After every run a device is there under a protocol if and only if it was added so and not removed since. */
  lemma {:induction false} DevicesByHistory(max: nat, calls: seq<Call>, id: Id, p: Protocol)
    ensures Live(After(max, calls), id, p) == 1 <==> AddedBy(max, calls, id, p)
  {
    if calls != [] {
      var front, c := calls[..|calls| - 1], calls[|calls| - 1];
      assert calls == front + [c];
      DevicesByHistory(max, front, id, p);
      AddedStep(max, front, c, id, p);
    }
  }

  ghost predicate Present(max: nat, calls: seq<Call>, id: Id) {
    exists p :: AddedBy(max, calls, id, p)
  }

  lemma {:induction false} PresentIff(max: nat, calls: seq<Call>, id: Id)
    ensures id in After(max, calls).devices <==> Present(max, calls, id)
  {
    var t := After(max, calls);
    forall p ensures Live(t, id, p) == 1 <==> AddedBy(max, calls, id, p) {
      DevicesByHistory(max, calls, id, p);
    }
    assert id in t.devices ==> Live(t, id, t.devices[id]) == 1;
  }

  /** What a call answers after any run: capacity first, then the id, then whether the device starts or stops. */
  lemma {:induction false} RepliesByHistory(max: nat, calls: seq<Call>, c: Call)
    ensures var full, present, r := |After(max, calls).devices| == max, Present(max, calls, c.id), ReplyTo(After(max, calls), max, c);
      if c.Add? then
        && (r == CapacityExceeded <==> full)
        && (r == AlreadyExists <==> !full && present)
        && (r == InitFailed <==> !full && !present && !c.initializes)
        && (r == Done <==> !full && !present && c.initializes)
      else
        && (r == NotFound <==> !present)
        && (r == StopFailed <==> present && !c.stops)
        && (r == Done <==> present && c.stops)
  {
    WithinCapacity(max, calls);
    PresentIff(max, calls, c.id);
  }

  /** The device count never exceeds the configured maximum. */
  lemma {:induction false} WithinCapacity(max: nat, calls: seq<Call>)
    ensures |After(max, calls).devices| <= max
  {
    if calls != [] {
      var t, c := After(max, calls[..|calls| - 1]), calls[|calls| - 1];
      WithinCapacity(max, calls[..|calls| - 1]);
      if c.Add? && ReplyTo(t, max, c) == Done {
        assert t.devices[c.id := c.protocol].Keys == t.devices.Keys + {c.id};
      } else if c.Remove? && c.id in t.devices {
        assert (t.devices - {c.id}).Keys == t.devices.Keys - {c.id};
      }
    }
  }

  /** Every protocol's listing shows exactly the devices of that protocol, each once. */
  ghost predicate ListingsExact(t: Tables) {
    forall p, info: DeviceInfo ::
      Count(Listing(t.devices, Indexed(t, p)), info) ==
      if info.id in t.devices && t.devices[info.id] == info.protocol && info.protocol == p then 1 else 0
  }

  /** No device that exists now has an entry left behind by a failed stop. */
  ghost predicate NoLiveStale(max: nat, calls: seq<Call>) {
    forall id, p :: id in After(max, calls).devices ==> Stale(max, calls, id, p) == 0
  }

  /** After every run the listings are exact if and only if no live device has a stale entry. */
  lemma ListingsExactIff(max: nat, calls: seq<Call>)
    ensures ListingsExact(After(max, calls)) <==> NoLiveStale(max, calls)
  {
    var t := After(max, calls);
    forall p, info: DeviceInfo
      ensures Count(Listing(t.devices, Indexed(t, p)), info) ==
        if info.id in t.devices && t.devices[info.id] == info.protocol
        then Live(t, info.id, p) + Stale(max, calls, info.id, p) else 0
    {
      CountListing(t.devices, Indexed(t, p), info);
      IndexCounts(max, calls, info.id, p);
    }
    if ListingsExact(t) {
      forall id, p | id in t.devices ensures Stale(max, calls, id, p) == 0 {
        var info := DeviceInfo(id, t.devices[id]);
        assert Count(Listing(t.devices, Indexed(t, p)), info) == Live(t, id, p);
      }
    }
  }

  /** A run in which every device stops when it is removed. */
  predicate StopsSucceed(calls: seq<Call>) {
    forall c :: c in calls && c.Remove? ==> c.stops
  }

  lemma {:induction false} NothingStale(max: nat, calls: seq<Call>, id: Id, p: Protocol)
    requires StopsSucceed(calls)
    ensures Stale(max, calls, id, p) == 0
  {
    if calls != [] {
      assert calls[|calls| - 1] in calls;
      NothingStale(max, calls[..|calls| - 1], id, p);
    }
  }

  /** On runs where no removal's stop fails, the index agrees with the device table. */
  lemma IndexAgrees(max: nat, calls: seq<Call>)
    requires StopsSucceed(calls)
    ensures ListingsExact(After(max, calls))
  {
    forall id, p ensures Stale(max, calls, id, p) == 0 {
      NothingStale(max, calls, id, p);
    }
    ListingsExactIff(max, calls);
  }

  /**
    * At whatever point of a run a device's stop fails, adding the same id again
    * succeeds, under any protocol, and leaves a wrong listing.
    */
  lemma FailedStopShows(max: nat, calls: seq<Call>, id: Id, q: Protocol)
    requires id in After(max, calls).devices
    ensures var stopped := calls + [Remove(id, false)];
            && ReplyTo(After(max, stopped), max, Add(id, q, true)) == Done
            && !ListingsExact(After(max, stopped + [Add(id, q, true)]))
  {
    var t, c, d := After(max, calls), Remove(id, false), Add(id, q, true);
    var p := t.devices[id];
    WithinCapacity(max, calls);
    AfterSnoc(max, calls, c, id, p);
    AfterSnoc(max, calls + [c], d, id, p);
    assert (t.devices - {id}).Keys == t.devices.Keys - {id};
    ListingsExactIff(max, calls + [c] + [d]);
  }

  lemma AfterSnoc(max: nat, calls: seq<Call>, c: Call, id: Id, p: Protocol)
    ensures After(max, calls + [c]) == Apply(After(max, calls), max, c)
    ensures Stale(max, calls + [c], id, p) == StaleStep(After(max, calls), c, Stale(max, calls, id, p), id, p)
  {
    assert (calls + [c])[..|calls|] == calls;
  }
}
