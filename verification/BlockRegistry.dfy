/** The block device registry (block/blockdev.c).  Each lock-held section is one
    method of the class and one function on registry values; BlockRemoval
    interleaves them. */
module BlockRegistry {
  const MAX_DEVICES := 16

  datatype State = Probing | Online | Recovering | Offline | Removing

  /** The fields of a device that the registry protocol reads and writes. */
  datatype Dev = Dev(refs: nat, removing: bool, state: State, protected: bool)

  /** Device numbers stand for device pointers; 0 is the null pointer. */
  datatype Registry = Registry(slots: seq<nat>, count: nat, devs: map<nat, Dev>)

  ghost predicate Distinct(slots: seq<nat>) {
    forall i, j {:trigger slots[i], slots[j]} ::
      0 <= i < |slots| && 0 <= j < |slots| && slots[i] != 0 && slots[i] == slots[j] ==> i == j
  }

  /** Sixteen slots, of which those from `count` on are empty and the last of the
      others is not; every registered device is a known one, in one slot only. */
  ghost predicate WellFormed(r: Registry) {
    && |r.slots| == MAX_DEVICES && r.count <= MAX_DEVICES && 0 !in r.devs
    && (forall i :: r.count <= i < MAX_DEVICES ==> r.slots[i] == 0)
    && (r.count > 0 ==> r.slots[r.count - 1] != 0)
    && Distinct(r.slots)
    && forall i :: 0 <= i < MAX_DEVICES && r.slots[i] != 0 ==> r.slots[i] in r.devs
  }

  ghost predicate Registered(r: Registry, d: nat) { d != 0 && d in r.slots }

  /** The first index of `x`, or the length. */
  ghost function First(slots: seq<nat>, x: nat): (i: nat)
    ensures i <= |slots| && (i < |slots| ==> slots[i] == x)
    ensures forall j :: 0 <= j < i ==> slots[j] != x
  {
    if slots == [] || slots[0] == x then 0 else 1 + First(slots[1..], x)
  }

  lemma FirstIs(slots: seq<nat>, x: nat, i: nat)
    requires i <= |slots| && (i < |slots| ==> slots[i] == x) && forall j :: 0 <= j < i ==> slots[j] != x
    ensures First(slots, x) == i
  {}

  ghost function Trim(slots: seq<nat>, n: nat): (m: nat)
    requires n <= |slots|
    ensures m <= n && (m > 0 ==> slots[m - 1] != 0) && forall i :: m <= i < n ==> slots[i] == 0
  {
    if n > 0 && slots[n - 1] == 0 then Trim(slots, n - 1) else n
  }

  function Update(r: Registry, d: nat, dev: Dev): Registry { r.(devs := r.devs[d := dev]) }

  function Hold(dev: Dev): Dev { dev.(refs := dev.refs + 1) }

  function Drop(dev: Dev): Dev { if dev.refs != 0 then dev.(refs := dev.refs - 1) else dev }

  predicate Usable(dev: Dev) { !dev.removing && (dev.state.Online? || dev.protected) }

  // ----- what each lock-held section does -----

  ghost function Begin(r: Registry, d: nat): Registry
    requires d in r.devs
  {
    if Registered(r, d) && Usable(r.devs[d]) then Update(r, d, Hold(r.devs[d])) else r
  }

  ghost function At(r: Registry, index: nat): nat {
    if index < r.count && index < |r.slots| then r.slots[index] else 0
  }

  /** The device in a slot can be given out: by index only while it is on line, to
      report on it as long as it is not being removed. */
  ghost predicate Available(r: Registry, index: nat, forInfo: bool) {
    var d := At(r, index);
    d in r.devs && !r.devs[d].removing && (forInfo || r.devs[d].state.Online?)
  }

  ghost function Acquire(r: Registry, index: nat, forInfo: bool): Registry {
    if Available(r, index, forInfo) then Update(r, At(r, index), Hold(r.devs[At(r, index)])) else r
  }

  function Release(r: Registry, d: nat): Registry
    requires d in r.devs
  {
    Update(r, d, Drop(r.devs[d]))
  }

  predicate Resettable(dev: Dev, hasReset: bool) { !dev.removing && dev.state.Online? && hasReset }

  ghost function ResetBegin(r: Registry, d: nat, hasReset: bool): Registry
    requires d in r.devs
  {
    if Registered(r, d) && Resettable(r.devs[d], hasReset)
    then Update(r, d, Hold(r.devs[d]).(state := Recovering)) else r
  }

  function ResetEnd(r: Registry, d: nat, ok: bool): Registry
    requires d in r.devs
  {
    var dev := r.devs[d];
    if dev.removing then r
    else Update(r, d, dev.(state := if ok || dev.protected then Online else Offline))
  }

  /** A protected device is put back on line. */
  function Revive(dev: Dev): Dev {
    dev.(removing := false, state := if dev.state.Offline? || dev.state.Removing? then Online else dev.state)
  }

  function SetState(r: Registry, d: nat, state: State): Registry
    requires d in r.devs
  {
    var dev := r.devs[d];
    if dev.protected && (state.Offline? || state.Removing?) then Update(r, d, Revive(dev))
    else Update(r, d, dev.(state := state, removing := dev.removing || state.Removing?))
  }

  function SetProtected(r: Registry, d: nat, on: bool): Registry
    requires d in r.devs
  {
    var dev := r.devs[d].(protected := on);
    Update(r, d, if on && (dev.state.Offline? || dev.state.Removing?) then Revive(dev) else dev)
  }

  const FRESH := Dev(0, false, Probing, false)

  ghost predicate HasRoom(r: Registry) { First(r.slots, 0) < |r.slots| }

  ghost function Publish(r: Registry, d: nat): Registry
    requires d in r.devs
  {
    var i := First(r.slots, 0);
    if Registered(r, d) || i == |r.slots| then r
    else
      var dev := r.devs[d].(removing := false, state := Online);
      Registry(r.slots[i := d], if i < r.count then r.count else i + 1, r.devs[d := dev])
  }

  ghost function MarkRemoving(r: Registry, d: nat): Registry
    requires d in r.devs
  {
    var dev := r.devs[d];
    if !Registered(r, d) then r
    else if dev.protected then Update(r, d, Revive(dev))
    else Update(r, d, dev.(removing := true, state := Removing))
  }

  ghost function Remove(r: Registry, d: nat): Registry
    requires d in r.devs && WellFormed(r)
  {
    if !Registered(r, d) then r
    else var slots := r.slots[First(r.slots, d) := 0];
         Registry(slots, Trim(slots, r.count), r.devs[d := r.devs[d].(refs := 0)])
  }

  /** Only the fields of device `d` may differ. */
  ghost predicate OnlyDevice(r: Registry, r': Registry, d: nat) {
    && r'.slots == r.slots && r'.count == r.count && r'.devs.Keys == r.devs.Keys
    && forall x :: x in r.devs && x != d ==> r'.devs[x] == r.devs[x]
  }

  predicate Down(dev: Dev) { dev.state.Offline? || dev.state.Removing? }

  /** A reset that succeeds and the end of the reference it held leave no trace; one
      that fails leaves an unprotected device off line and nothing else. */
  lemma ResetRoundTrip(r: Registry, d: nat, hasReset: bool, ok: bool)
    requires d in r.devs && Registered(r, d) && Resettable(r.devs[d], hasReset)
    ensures var r' := Release(ResetEnd(ResetBegin(r, d, hasReset), d, ok), d);
            if ok || r.devs[d].protected then r' == r else r' == Update(r, d, r.devs[d].(state := Offline))
  {
    var dev := if ok || r.devs[d].protected then r.devs[d] else r.devs[d].(state := Offline);
    assert Release(ResetEnd(ResetBegin(r, d, hasReset), d, ok), d).devs == r.devs[d := dev];
    assert r.devs[d := r.devs[d]] == r.devs;
  }

  /** No device is ever in two slots. */
  lemma PublishKeeps(r: Registry, d: nat)
    requires WellFormed(r) && d in r.devs
    ensures WellFormed(Publish(r, d))
    ensures forall x :: Registered(Publish(r, d), x) <==> Registered(r, x) || (x == d && HasRoom(r))
  {
    var i, r' := First(r.slots, 0), Publish(r, d);
    if !Registered(r, d) && i < |r.slots| {
      assert r'.slots[i] == d && forall j :: 0 <= j < |r.slots| && j != i ==> r'.slots[j] == r.slots[j];
      forall x | Registered(r, x) ensures Registered(r', x) {
        var j :| 0 <= j < |r.slots| && r.slots[j] == x;
        assert r'.slots[j] == x;
      }
    }
  }

  lemma RemoveKeeps(r: Registry, d: nat)
    requires WellFormed(r) && d in r.devs
    ensures WellFormed(Remove(r, d))
    ensures forall x :: Registered(Remove(r, d), x) <==> Registered(r, x) && x != d
  {
    var i, r' := First(r.slots, d), Remove(r, d);
    if Registered(r, d) {
      assert forall j :: 0 <= j < |r.slots| && j != i ==> r'.slots[j] == r.slots[j];
      forall x | Registered(r, x) && x != d ensures Registered(r', x) {
        var j :| 0 <= j < |r.slots| && r.slots[j] == x;
        assert r'.slots[j] == x;
      }
      assert d !in r'.slots by {
        forall j | 0 <= j < |r.slots| ensures r'.slots[j] != d {
          if j != i {
            assert r.slots[j] != d;
          }
        }
      }
    }
  }

  // ----- the sections as the code runs them -----

  class BlockLayer {
    const devices: array<nat>
    var count: nat
    var devs: map<nat, Dev>

    ghost function Value(): Registry
      reads this, devices
    {
      Registry(devices[..], count, devs)
    }

    ghost predicate Valid()
      reads this, devices
    {
      devices.Length == MAX_DEVICES && WellFormed(Value())
    }

    constructor (known: map<nat, Dev>)
      requires 0 !in known
      ensures Valid() && fresh(devices) && Value() == Registry(seq(MAX_DEVICES, _ => 0), 0, known)
    {
      devices := new nat[MAX_DEVICES](_ => 0);
      count := 0;
      devs := known;
      new;
      assert devices[..] == seq(MAX_DEVICES, _ => 0);
    }

    /** The slot of a device; MAX_DEVICES if it is not registered. */
    method IndexOf(d: nat) returns (index: nat)
      requires Valid() && d != 0
      ensures index == First(devices[..], d)
      ensures index < MAX_DEVICES <==> Registered(Value(), d)
      ensures index < MAX_DEVICES ==> index < count
    {
      index := 0;
      while index < count && devices[index] != d
        invariant index <= count && forall j :: 0 <= j < index ==> devices[..][j] != d
      {
        index := index + 1;
      }
      if index == count {
        index := MAX_DEVICES;
      }
      FirstIs(devices[..], d, index);
    }

    /** The first empty slot; MAX_DEVICES if there is none. */
    method FindRoom() returns (index: nat)
      requires Valid()
      ensures index == First(devices[..], 0)
    {
      index := 0;
      while index < count && devices[index] != 0
        invariant index <= count && forall j :: 0 <= j < index ==> devices[..][j] != 0
      {
        index := index + 1;
      }
      FirstIs(devices[..], 0, index);
    }

    /** 1 when a reference was taken, 0 for an unpublished device, -1 when it is
        not usable. */
    method IoBegin(d: nat) returns (acquired: int)
      requires Valid() && d in devs
      modifies this`devs
      ensures Valid() && Value() == Begin(old(Value()), d)
      ensures acquired == if !Registered(old(Value()), d) then 0 else if Usable(old(devs)[d]) then 1 else -1
    {
      var i := IndexOf(d);
      if i == MAX_DEVICES {
        return 0;
      }
      if !Usable(devs[d]) {
        return -1;
      }
      devs := devs[d := Hold(devs[d])];
      return 1;
    }

    method AcquireAt(index: nat, forInfo: bool) returns (d: nat)
      requires Valid()
      modifies this`devs
      ensures Valid() && Value() == Acquire(old(Value()), index, forInfo)
      ensures d == if Available(old(Value()), index, forInfo) then At(old(Value()), index) else 0
    {
      if index >= count || devices[index] == 0 {
        return 0;
      }
      d := devices[index];
      if devs[d].removing || !(forInfo || devs[d].state.Online?) {
        return 0;
      }
      devs := devs[d := Hold(devs[d])];
    }

    method IoEnd(d: nat)
      requires Valid() && d in devs
      modifies this`devs
      ensures Valid() && Value() == Release(old(Value()), d)
    {
      if devs[d].refs != 0 {
        devs := devs[d := Drop(devs[d])];
      } else {
        assert devs[d := devs[d]] == devs;
      }
    }

    /** Publishes a device in the first empty slot, unless it already has one. */
    method PublishDevice(d: nat) returns (ok: bool)
      requires Valid() && d in devs
      modifies this, devices
      ensures Valid() && Value() == Publish(old(Value()), d)
      ensures ok <==> Registered(Value(), d)
    {
      var i := IndexOf(d);
      if i < MAX_DEVICES {
        return true;
      }
      i := FindRoom();
      if i == MAX_DEVICES {
        return false;
      }
      PublishKeeps(Value(), d);
      assert count < MAX_DEVICES ==> devices[..][count] == 0;
      assert i <= count;
      if i == count {
        count := count + 1;
      }
      devs := devs[d := devs[d].(removing := false, state := Online)];
      devices[i] := d;
      assert devices[..] == old(devices[..])[i := d];
      assert Value() == Publish(old(Value()), d);
      assert Value().slots[i] == d && d in Value().slots;
      return true;
    }

    /** The last section of unregistering: takes the device out of its slot and
        drops trailing empty slots. */
    method RemoveDevice(d: nat) returns (ok: bool)
      requires Valid() && d in devs
      modifies this, devices
      ensures Valid() && Value() == Remove(old(Value()), d)
      ensures ok <==> Registered(old(Value()), d)
    {
      var i := IndexOf(d);
      if i == MAX_DEVICES {
        return false;
      }
      RemoveKeeps(Value(), d);
      devices[i] := 0;
      devs := devs[d := devs[d].(refs := 0)];
      ghost var slots := devices[..];
      assert slots == old(devices[..])[i := 0];
      while count > 0 && devices[count - 1] == 0
        invariant count <= MAX_DEVICES && devices[..] == slots && Trim(slots, count) == Trim(slots, old(count))
        invariant forall j :: count <= j < MAX_DEVICES ==> slots[j] == 0
        invariant devs == old(devs)[d := old(devs)[d].(refs := 0)]
      {
        count := count - 1;
      }
      return true;
    }

    method BeginReset(d: nat, hasReset: bool) returns (held: bool)
      requires Valid() && d in devs
      modifies this`devs
      ensures Valid() && Value() == ResetBegin(old(Value()), d, hasReset)
      ensures held <==> Registered(old(Value()), d) && Resettable(old(devs)[d], hasReset)
    {
      var i := IndexOf(d);
      held := i < MAX_DEVICES && Resettable(devs[d], hasReset);
      if held {
        devs := devs[d := Hold(devs[d]).(state := Recovering)];
      }
    }

    /** Ends a reset: the device goes on line or off line, unless it is being removed,
        and keeps everything else. */
    method EndReset(d: nat, ok: bool)
      requires Valid() && d in devs
      modifies this`devs
      ensures Valid() && Value() == ResetEnd(old(Value()), d, ok)
      ensures OnlyDevice(old(Value()), Value(), d) && devs[d] == old(devs)[d].(state := devs[d].state)
      ensures devs[d].removing ==> Value() == old(Value())
      ensures !devs[d].removing ==> (devs[d].state.Online? || devs[d].state.Offline?)
      ensures !devs[d].removing ==> (Usable(devs[d]) <==> ok || devs[d].protected)
    {
      if !devs[d].removing {
        devs := devs[d := devs[d].(state := if ok || devs[d].protected then Online else Offline)];
      }
    }

    method ChangeState(d: nat, state: State) returns (ok: bool)
      requires Valid() && d in devs
      modifies this`devs
      ensures Valid() && Value() == SetState(old(Value()), d, state)
      ensures ok <==> !(old(devs)[d].protected && (state.Offline? || state.Removing?))
    {
      if devs[d].protected && (state.Offline? || state.Removing?) {
        devs := devs[d := Revive(devs[d])];
        return false;
      }
      devs := devs[d := devs[d].(state := state)];
      if state.Removing? {
        devs := devs[d := devs[d].(removing := true)];
      }
      return true;
    }

    /** Makes a device the protected root device or an ordinary one; a protected one
        that was down is usable again. */
    method Protect(d: nat, on: bool)
      requires Valid() && d in devs
      modifies this`devs
      ensures Valid() && Value() == SetProtected(old(Value()), d, on)
      ensures OnlyDevice(old(Value()), Value(), d) && devs[d].protected == on && devs[d].refs == old(devs)[d].refs
      ensures on ==> !Down(devs[d]) && (Down(old(devs)[d]) ==> Usable(devs[d]))
      ensures !on || !Down(old(devs)[d]) ==> devs[d] == old(devs)[d].(protected := on)
    {
      devs := devs[d := devs[d].(protected := on)];
      if on && (devs[d].state.Offline? || devs[d].state.Removing?) {
        devs := devs[d := Revive(devs[d])];
      }
    }

    /** The first section of unregistering. */
    method StartRemoval(d: nat) returns (ok: bool)
      requires Valid() && d in devs
      modifies this`devs
      ensures Valid() && Value() == MarkRemoving(old(Value()), d)
      ensures ok <==> Registered(old(Value()), d) && !old(devs)[d].protected
    {
      var i := IndexOf(d);
      if i == MAX_DEVICES {
        return false;
      }
      if devs[d].protected {
        devs := devs[d := Revive(devs[d])];
        return false;
      }
      devs := devs[d := devs[d].(removing := true, state := Removing)];
      return true;
    }
  }
}
