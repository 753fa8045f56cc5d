/** The removal protocol of the block layer (block/blockdev.c) under every
    interleaving of its lock-held sections. */
module BlockRemoval {
  import opened BlockRegistry

  /** What a thread is in the middle of: it holds a reference, runs a driver's
      reset while holding one, prepares a device for publication, has marked a
      device for removal, or has also seen that no reference is left. */
  datatype Thread =
    | Idle
    | Holding(dev: nat)
    | Resetting(dev: nat)
    | Registering(dev: nat, reset: bool)
    | Marked(dev: nat)
    | Checked(dev: nat)

  datatype System = System(reg: Registry, threads: seq<Thread>)

  /** One lock-held section, or the field initialisation between the two sections
      of registration. */
  datatype Action =
    | IoBegin(dev: nat)
    | AcquireAt(index: nat, forInfo: bool)
    | Release
    | BeginReset(dev: nat, hasReset: bool)
    | EndReset(ok: bool)
    | ChangeState(dev: nat, state: State)
    | Protect(dev: nat, on: bool)
    | Register(dev: nat)
    | Initialise
    | Publish
    | Unregister(dev: nat)
    | CheckIdle
    | RemoveDevice

  ghost predicate Holds(th: Thread, d: nat) { (th.Holding? || th.Resetting?) && th.dev == d }

  ghost predicate Removes(th: Thread, d: nat) { (th.Marked? || th.Checked?) && th.dev == d }

  /** In a call to register or unregister `d`. */
  ghost predicate Moves(th: Thread, d: nat) { Removes(th, d) || (th.Registering? && th.dev == d) }

  /** The number of references threads hold to `d`. */
  ghost function Holders(threads: seq<Thread>, d: nat): nat {
    if threads == [] then 0 else (if Holds(threads[0], d) then 1 else 0) + Holders(threads[1..], d)
  }

  lemma {:induction false} HoldersUpdate(threads: seq<Thread>, t: nat, th: Thread, d: nat)
    requires t < |threads|
    ensures Holders(threads[t := th], d) ==
      Holders(threads, d) - (if Holds(threads[t], d) then 1 else 0) + (if Holds(th, d) then 1 else 0)
  {
    if t == 0 {
      assert threads[t := th][1..] == threads[1..];
    } else {
      assert threads[t := th][1..] == threads[1..][t - 1 := th];
      HoldersUpdate(threads[1..], t - 1, th, d);
    }
  }

  lemma {:induction false} HolderCounts(threads: seq<Thread>, t: nat, d: nat)
    requires t < |threads| && Holds(threads[t], d)
    ensures Holders(threads, d) > 0
  {
    if t > 0 {
      HolderCounts(threads[1..], t - 1, d);
    }
  }

  ghost predicate Known(s: System, d: nat) { d in s.reg.devs }

  /** The section thread `t` runs and what it does next. */
  ghost function Step(s: System, t: nat, a: Action): System
    requires t < |s.threads| && Enabled(s, t, a)
  {
    var th := s.threads[t];
    match a
    case IoBegin(d) =>
      var got := Registered(s.reg, d) && Usable(s.reg.devs[d]);
      System(Begin(s.reg, d), s.threads[t := if got then Holding(d) else Idle])
    case AcquireAt(i, info) =>
      System(Acquire(s.reg, i, info), s.threads[t := if Available(s.reg, i, info) then Holding(At(s.reg, i)) else Idle])
    case Release =>
      System(BlockRegistry.Release(s.reg, th.dev), s.threads[t := Idle])
    case BeginReset(d, h) =>
      var got := Registered(s.reg, d) && Resettable(s.reg.devs[d], h);
      System(ResetBegin(s.reg, d, h), s.threads[t := if got then Resetting(d) else Idle])
    case EndReset(ok) =>
      System(ResetEnd(s.reg, th.dev, ok), s.threads[t := Holding(th.dev)])
    case ChangeState(d, st) =>
      s.(reg := SetState(s.reg, d, st))
    case Protect(d, on) =>
      s.(reg := SetProtected(s.reg, d, on))
    case Register(d) =>
      s.(threads := s.threads[t := if Registered(s.reg, d) || !HasRoom(s.reg) then Idle else Registering(d, false)])
    case Initialise =>
      System(Update(s.reg, th.dev, FRESH), s.threads[t := Registering(th.dev, true)])
    case Publish =>
      System(BlockRegistry.Publish(s.reg, th.dev), s.threads[t := Idle])
    case Unregister(d) =>
      var going := Registered(s.reg, d) && !s.reg.devs[d].protected;
      System(MarkRemoving(s.reg, d), s.threads[t := if going then Marked(d) else Idle])
    case CheckIdle =>
      s.(threads := s.threads[t := if s.reg.devs[th.dev].refs == 0 then Checked(th.dev) else Idle])
    case RemoveDevice =>
      System(Remove(s.reg, th.dev), s.threads[t := Idle])
  }

  /** Thread `t` is at a point where it can run the section. */
  ghost predicate Enabled(s: System, t: nat, a: Action)
    requires t < |s.threads|
  {
    var th := s.threads[t];
    && (!th.Idle? ==> Known(s, th.dev))
    && match a
       case IoBegin(d) => th.Idle? && Known(s, d)
       case AcquireAt(_, _) => th.Idle?
       case Release => th.Holding?
       case BeginReset(d, _) => th.Idle? && Known(s, d)
       case EndReset(_) => th.Resetting?
       case ChangeState(d, _) => Known(s, d)
       case Protect(d, _) => Known(s, d)
       case Register(d) => th.Idle? && Known(s, d)
       case Initialise => th.Registering? && !th.reset
       case Publish => th.Registering? && th.reset
       case Unregister(d) => th.Idle? && Known(s, d)
       case CheckIdle => th.Marked?
       case RemoveDevice => th.Checked? && WellFormed(s.reg)
  }

  /** What callers must respect: a device is not registered while another thread
      registers or unregisters it, nor made the protected root device while it is
      being unregistered.  Unregistering needs no rule, however often it overlaps. */
  ghost predicate Allowed(s: System, a: Action) {
    match a
    case Register(d) => forall u :: 0 <= u < |s.threads| ==> !Moves(s.threads[u], d)
    case Protect(d, on) => on ==> forall u :: 0 <= u < |s.threads| ==> !Removes(s.threads[u], d)
    case _ => true
  }

  // ----- the invariant -----

  /** A registered device counts exactly its holders; any other has none. */
  ghost predicate Counted(s: System, d: nat) {
    Known(s, d) && Holders(s.threads, d) == if Registered(s.reg, d) then s.reg.devs[d].refs else 0
  }

  ghost predicate ThreadOk(s: System, th: Thread) {
    && (!th.Idle? ==> Known(s, th.dev))
    && (th.Registering? ==> !Registered(s.reg, th.dev))
    && (th.Marked? || th.Checked? ==> s.reg.devs[th.dev].removing && !s.reg.devs[th.dev].protected)
    && (th.Checked? || (th.Registering? && th.reset) ==> s.reg.devs[th.dev].refs == 0)
  }

  /** A registration overlaps neither another nor an unregistration of its device. */
  ghost predicate Apart(x: Thread, y: Thread) {
    x.Registering? ==> !Moves(y, x.dev)
  }

  ghost predicate Inv(s: System) {
    && WellFormed(s.reg)
    && (forall d {:trigger Known(s, d)} :: Known(s, d) ==> Counted(s, d))
    && (forall u {:trigger ThreadOk(s, s.threads[u])} :: 0 <= u < |s.threads| ==> ThreadOk(s, s.threads[u]))
    && (forall u, v {:trigger Apart(s.threads[u], s.threads[v])} ::
       0 <= u < |s.threads| && 0 <= v < |s.threads| && u != v ==>
          Apart(s.threads[u], s.threads[v]))
  }

  /** What no step may do: take a device out of the registry while a thread holds
      it, give a device that is being removed another reference, or forget a
      device. */
  ghost predicate Safe(s: System, s': System) {
    forall d {:trigger Known(s, d)} :: Known(s, d) ==> SafeFor(s, s', d)
  }

  ghost predicate SafeFor(s: System, s': System, d: nat)
    requires Known(s, d)
  {
    && Known(s', d)
    && (Registered(s.reg, d) && !Registered(s'.reg, d) ==> Holders(s.threads, d) == 0 && Holders(s'.threads, d) == 0)
    && (s.reg.devs[d].removing ==> s'.reg.devs[d].refs <= s.reg.devs[d].refs)
  }

  // ----- steps that touch one device and one thread -----

  /** The registry keeps its slots and only device `d` changes. */
  ghost predicate OneDevice(r: Registry, r': Registry, d: nat, dev: Dev) {
    d in r.devs && r' == Update(r, d, dev)
  }

  /** A step that leaves the slots alone. */
  lemma DeviceStep(s: System, s': System, t: nat, d: nat, dev: Dev, th: Thread)
    requires Inv(s) && t < |s.threads| && OneDevice(s.reg, s'.reg, d, dev) && s'.threads == s.threads[t := th]
    requires forall x: nat :: x != d ==> Holds(s.threads[t], x) == Holds(th, x)
    requires Registered(s.reg, d) ==>
      dev.refs == s.reg.devs[d].refs + (if Holds(th, d) then 1 else 0) - (if Holds(s.threads[t], d) then 1 else 0)
    requires !Registered(s.reg, d) ==> Holds(th, d) == Holds(s.threads[t], d)
    requires s.reg.devs[d].removing ==> dev.refs <= s.reg.devs[d].refs
    requires ThreadOk(s', th)
    requires forall u :: 0 <= u < |s.threads| && u != t ==> Apart(th, s.threads[u]) && Apart(s.threads[u], th)
    requires forall u :: 0 <= u < |s.threads| && u != t && Removes(s.threads[u], d) ==> dev.removing && !dev.protected
    requires forall u :: 0 <= u < |s.threads| && u != t && Moves(s.threads[u], d) ==> dev.refs <= s.reg.devs[d].refs
    ensures Inv(s') && Safe(s, s')
  {
    assert forall x :: Known(s', x) <==> Known(s, x);
    forall x | Known(s, x) ensures Counted(s', x) && SafeFor(s, s', x) {
      assert Counted(s, x);
      HoldersUpdate(s.threads, t, th, x);
    }
    forall u | 0 <= u < |s.threads| ensures ThreadOk(s', s'.threads[u]) {
      assert ThreadOk(s, s.threads[u]);
    }
    forall u, v | 0 <= u < |s.threads| && 0 <= v < |s.threads| && u != v ensures Apart(s'.threads[u], s'.threads[v]) {
      assert Apart(s.threads[u], s.threads[v]);
    }
  }

  lemma NoStep(s: System)
    requires Inv(s)
    ensures Safe(s, s)
  {
    forall d | Known(s, d) ensures SafeFor(s, s, d) {}
  }

  /** Taking a reference to a registered device that is not being removed. */
  lemma TakeStep(s: System, t: nat, d: nat, dev: Dev, th: Thread)
    requires Inv(s) && t < |s.threads| && s.threads[t].Idle? && Registered(s.reg, d) && Known(s, d)
    requires !s.reg.devs[d].removing && dev.refs == s.reg.devs[d].refs + 1
    requires th == Holding(d) || th == Resetting(d)
    ensures Inv(System(Update(s.reg, d, dev), s.threads[t := th]))
    ensures Safe(s, System(Update(s.reg, d, dev), s.threads[t := th]))
  {
    forall u | 0 <= u < |s.threads| ensures !Moves(s.threads[u], d) { assert ThreadOk(s, s.threads[u]); }
    assert forall u :: 0 <= u < |s.threads| ==> Apart(s.threads[u], th);
    DeviceStep(s, System(Update(s.reg, d, dev), s.threads[t := th]), t, d, dev, th);
  }

  /** Steps of a thread that already holds a reference to `d`. */
  lemma HolderStep(s: System, t: nat, a: Action)
    requires Inv(s) && t < |s.threads| && Enabled(s, t, a) && (a.Release? || a.EndReset?)
    ensures Inv(Step(s, t, a)) && Safe(s, Step(s, t, a))
  {
    var th := s.threads[t];
    var d := th.dev;
    assert ThreadOk(s, th) && Counted(s, d);
    HolderCounts(s.threads, t, d);
    assert Registered(s.reg, d) && s.reg.devs[d].refs > 0;
    var s' := Step(s, t, a);
    var dev := s'.reg.devs[d];
    assert s'.reg == Update(s.reg, d, dev);
    forall u | 0 <= u < |s.threads| && u != t && Removes(s.threads[u], d)
      ensures dev.removing && !dev.protected
    {
      assert ThreadOk(s, s.threads[u]);
    }
    DeviceStep(s, s', t, d, dev, s'.threads[t]);
  }

  /** Changing a device's state or protection. */
  lemma SettingStep(s: System, t: nat, a: Action)
    requires Inv(s) && t < |s.threads| && Enabled(s, t, a) && Allowed(s, a) && (a.ChangeState? || a.Protect?)
    ensures Inv(Step(s, t, a)) && Safe(s, Step(s, t, a))
  {
    var s', d, th := Step(s, t, a), a.dev, s.threads[t];
    var dev := s'.reg.devs[d];
    assert s'.reg == Update(s.reg, d, dev) && s'.threads == s.threads[t := th];
    forall u | 0 <= u < |s.threads|
      ensures Removes(s.threads[u], d) ==> dev.removing && !dev.protected
      ensures u != t ==> Apart(th, s.threads[u]) && Apart(s.threads[u], th)
    {
      assert ThreadOk(s, s.threads[u]) && (u != t ==>
        Apart(s.threads[t], s.threads[u]) && Apart(s.threads[u], s.threads[t]));
    }
    assert ThreadOk(s, th);
    DeviceStep(s, s', t, d, dev, th);
  }

  /** The sections of registration that leave the slots alone, and the marking
      section of unregistration. */
  lemma MoverStep(s: System, t: nat, a: Action)
    requires Inv(s) && t < |s.threads| && Enabled(s, t, a) && Allowed(s, a)
    requires a.Register? || a.Initialise? || a.Unregister? || a.CheckIdle?
    ensures Inv(Step(s, t, a)) && Safe(s, Step(s, t, a))
  {
    var s', th := Step(s, t, a), s.threads[t];
    var d := if a.Register? || a.Unregister? then a.dev else th.dev;
    var dev := s'.reg.devs[d];
    assert ThreadOk(s, th);
    assert s'.reg == Update(s.reg, d, dev);
    forall u | 0 <= u < |s.threads| && u != t
      ensures Removes(s.threads[u], d) ==> dev.removing && !dev.protected
      ensures Apart(s'.threads[t], s.threads[u]) && Apart(s.threads[u], s'.threads[t])
    {
      assert ThreadOk(s, s.threads[u]) && Apart(s.threads[t], s.threads[u]) && Apart(s.threads[u], s.threads[t]);
    }
    DeviceStep(s, s', t, d, dev, s'.threads[t]);
  }

  /** Publishing: the device, which nobody holds, enters one slot. */
  lemma PublishStep(s: System, t: nat)
    requires Inv(s) && t < |s.threads| && Enabled(s, t, Publish)
    ensures Inv(Step(s, t, Publish)) && Safe(s, Step(s, t, Publish))
  {
    var s', d := Step(s, t, Publish), s.threads[t].dev;
    assert ThreadOk(s, s.threads[t]);
    PublishKeeps(s.reg, d);
    SlotStep(s, s', t, d);
  }

  /** Removal: the device, which nobody holds, leaves its slot. */
  lemma RemoveStep(s: System, t: nat)
    requires Inv(s) && t < |s.threads| && Enabled(s, t, RemoveDevice)
    ensures Inv(Step(s, t, RemoveDevice)) && Safe(s, Step(s, t, RemoveDevice))
  {
    var s', d := Step(s, t, RemoveDevice), s.threads[t].dev;
    assert ThreadOk(s, s.threads[t]);
    RemoveKeeps(s.reg, d);
    SlotStep(s, s', t, d);
  }

  /** A step by which a thread registers or removes a device nobody holds. */
  lemma SlotStep(s: System, s': System, t: nat, d: nat)
    requires Inv(s) && t < |s.threads| && Known(s, d) && Moves(s.threads[t], d) && s.reg.devs[d].refs == 0
    requires s'.threads == s.threads[t := Idle] && WellFormed(s'.reg)
    requires forall x :: x != d ==> Registered(s'.reg, x) == Registered(s.reg, x)
    requires s'.reg.devs.Keys == s.reg.devs.Keys && s'.reg.devs[d].refs == 0
    requires forall x :: x in s.reg.devs && x != d ==> s'.reg.devs[x] == s.reg.devs[x]
    requires s'.reg.devs[d].(refs := 0) == s.reg.devs[d].(refs := 0) || s.threads[t].Registering?
    ensures Inv(s') && Safe(s, s')
  {
    assert forall x :: Known(s', x) <==> Known(s, x);
    forall x | Known(s, x) ensures Counted(s', x) && SafeFor(s, s', x) {
      assert Counted(s, x);
      HoldersUpdate(s.threads, t, Idle, x);
    }
    forall u | 0 <= u < |s.threads| ensures ThreadOk(s', s'.threads[u]) {
      assert ThreadOk(s, s.threads[u]);
      assert u != t ==> Apart(s.threads[t], s.threads[u]) && Apart(s.threads[u], s.threads[t]);
    }
    forall u, v | 0 <= u < |s.threads| && 0 <= v < |s.threads| && u != v ensures Apart(s'.threads[u], s'.threads[v]) {
      assert Apart(s.threads[u], s.threads[v]);
    }
  }

  /** Every lock-held section callers may run keeps the invariant and is safe. */
  lemma StepSafe(s: System, t: nat, a: Action)
    requires Inv(s) && t < |s.threads| && Enabled(s, t, a) && Allowed(s, a)
    ensures Inv(Step(s, t, a)) && Safe(s, Step(s, t, a))
  {
    match a
    case IoBegin(d) =>
      if Registered(s.reg, d) && Usable(s.reg.devs[d]) {
        TakeStep(s, t, d, Hold(s.reg.devs[d]), Holding(d));
      } else {
        IdleStep(s, t, a);
      }
    case AcquireAt(i, info) =>
      if Available(s.reg, i, info) {
        TakeStep(s, t, At(s.reg, i), Hold(s.reg.devs[At(s.reg, i)]), Holding(At(s.reg, i)));
      } else {
        IdleStep(s, t, a);
      }
    case BeginReset(d, h) =>
      if Registered(s.reg, d) && Resettable(s.reg.devs[d], h) {
        TakeStep(s, t, d, Hold(s.reg.devs[d]).(state := Recovering), Resetting(d));
      } else {
        IdleStep(s, t, a);
      }
    case Release => HolderStep(s, t, a);
    case EndReset(_) => HolderStep(s, t, a);
    case ChangeState(_, _) => SettingStep(s, t, a);
    case Protect(_, _) => SettingStep(s, t, a);
    case Register(_) => MoverStep(s, t, a);
    case Initialise => MoverStep(s, t, a);
    case Publish => PublishStep(s, t);
    case Unregister(_) => MoverStep(s, t, a);
    case CheckIdle => MoverStep(s, t, a);
    case RemoveDevice => RemoveStep(s, t);
  }

  lemma IdleStep(s: System, t: nat, a: Action)
    requires Inv(s) && t < |s.threads| && Enabled(s, t, a) && Step(s, t, a) == System(s.reg, s.threads[t := Idle])
    requires s.threads[t].Idle?
    ensures Inv(Step(s, t, a)) && Safe(s, Step(s, t, a))
  {
    assert s.threads[t := Idle] == s.threads;
    NoStep(s);
  }

  // ----- runs -----

  datatype Event = Event(thread: nat, action: Action)

  /** `run` follows the events from its first state, any thread at any time, with
      callers respecting the rules. */
  ghost predicate IsRun(run: seq<System>, events: seq<Event>) {
    && |run| == |events| + 1
    && forall i {:trigger events[i]} :: 0 <= i < |events| ==>
         && events[i].thread < |run[i].threads|
         && Enabled(run[i], events[i].thread, events[i].action) && Allowed(run[i], events[i].action)
         && run[i + 1] == Step(run[i], events[i].thread, events[i].action)
  }

  ghost predicate SafeAt(run: seq<System>, i: nat)
    requires i + 1 < |run|
  {
    Safe(run[i], run[i + 1])
  }

  /** No devices registered, no thread busy. */
  ghost predicate Start(s: System) {
    && s.reg.slots == seq(MAX_DEVICES, _ => 0) && s.reg.count == 0 && 0 !in s.reg.devs
    && forall u :: 0 <= u < |s.threads| ==> s.threads[u].Idle?
  }

  lemma {:induction false} NoHolders(threads: seq<Thread>, d: nat)
    requires forall u :: 0 <= u < |threads| ==> threads[u].Idle?
    ensures Holders(threads, d) == 0
  {
    if threads != [] {
      NoHolders(threads[1..], d);
    }
  }

  lemma StartInv(s: System)
    requires Start(s)
    ensures Inv(s)
  {
    assert forall i :: 0 <= i < MAX_DEVICES ==> s.reg.slots[i] == 0;
    forall d | Known(s, d) ensures Counted(s, d) { NoHolders(s.threads, d); }
  }

  /** In every run: a device leaves the registry only when nobody holds it, gains
      no reference while it is being removed, and is never in two slots (the last
      is part of the invariant). */
  lemma {:induction false} RunSafe(run: seq<System>, events: seq<Event>)
    requires IsRun(run, events) && Start(run[0])
    ensures forall i {:trigger Inv(run[i])} :: 0 <= i < |run| ==> Inv(run[i])
    ensures forall i {:trigger SafeAt(run, i)} :: 0 <= i < |events| ==> SafeAt(run, i)
  {
    StartInv(run[0]);
    for n := 0 to |events|
      invariant forall i {:trigger Inv(run[i])} :: 0 <= i <= n ==> Inv(run[i])
      invariant forall i {:trigger SafeAt(run, i)} :: 0 <= i < n ==> SafeAt(run, i)
    {
      assert Inv(run[n]);
      var e := events[n];
      StepSafe(run[n], e.thread, e.action);
      assert run[n + 1] == Step(run[n], e.thread, e.action);
      assert Inv(run[n + 1]) && SafeAt(run, n);
    }
  }

  /** A device that is protected is neither off line nor in removal. */
  ghost predicate Up(s: System, d: nat) { Known(s, d) && (s.reg.devs[d].protected ==> !Down(s.reg.devs[d])) }

  ghost predicate AllUp(s: System) { forall d {:trigger Known(s, d)} :: Known(s, d) ==> Up(s, d) }

  /** No section takes the protected root device down, whatever callers do. */
  lemma StepUp(s: System, t: nat, a: Action)
    requires t < |s.threads| && Enabled(s, t, a) && AllUp(s)
    ensures AllUp(Step(s, t, a))
  {
    var s' := Step(s, t, a);
    forall d | Known(s', d) ensures Up(s', d) {
      assert Known(s, d) && Up(s, d);
    }
  }

  /** In every run the protected root device stays up. */
  lemma {:induction false} RunUp(run: seq<System>, events: seq<Event>)
    requires IsRun(run, events) && AllUp(run[0])
    ensures forall i {:trigger AllUp(run[i])} :: 0 <= i < |run| ==> AllUp(run[i])
  {
    for n := 0 to |events|
      invariant forall i {:trigger AllUp(run[i])} :: 0 <= i <= n ==> AllUp(run[i])
    {
      assert AllUp(run[n]);
      StepUp(run[n], events[n].thread, events[n].action);
      assert run[n + 1] == Step(run[n], events[n].thread, events[n].action);
    }
  }

  // ----- why the rules are needed -----

  /** Running the sections one after the other, within the callers' rules. */
  ghost predicate Obeys(s: System, events: seq<Event>, s': System)
    decreases |events|
  {
    if events == [] then s' == s
    else
      && events[0].thread < |s.threads| && Enabled(s, events[0].thread, events[0].action)
      && Allowed(s, events[0].action)
      && Obeys(Step(s, events[0].thread, events[0].action), events[1..], s')
  }

  /** One section run against the rules by thread `u`, in an otherwise obedient run
      from `s`, lets thread `t` take out a device that is held. */
  ghost predicate Breaks(s: System, t: nat, u: nat, a: Action) {
    exists before, mid, rest, end :: BreaksBy(s, t, u, a, before, mid, rest, end)
  }

  ghost predicate BreaksBy(s: System, t: nat, u: nat, a: Action, before: seq<Event>, mid: System, rest: seq<Event>,
                           end: System) {
    && Obeys(s, before, mid) && u < |mid.threads| && Enabled(mid, u, a) && Obeys(Step(mid, u, a), rest, end)
    && t < |end.threads| && Enabled(end, t, RemoveDevice) && !Safe(end, Step(end, t, RemoveDevice))
  }

  lemma ObeysOne(s: System, u: nat, a: Action, events: seq<Event>, s': System)
    requires u < |s.threads| && Enabled(s, u, a) && Allowed(s, a) && Obeys(Step(s, u, a), events, s')
    ensures Obeys(s, [Event(u, a)] + events, s')
  {
    assert ([Event(u, a)] + events)[1..] == events;
  }

  lemma {:induction false} ObeysTwice(s: System, a: seq<Event>, mid: System, b: seq<Event>, s': System)
    requires Obeys(s, a, mid) && Obeys(mid, b, s')
    ensures Obeys(s, a + b, s')
    decreases |a|
  {
    if a == [] {
      assert a + b == b;
    } else {
      assert (a + b)[1..] == a[1..] + b;
      ObeysTwice(Step(s, a[0].thread, a[0].action), a[1..], mid, b, s');
    }
  }

  lemma RemovalUnsafe(s: System, t: nat, d: nat)
    requires t < |s.threads| && WellFormed(s.reg) && s.threads[t] == Checked(d) && Registered(s.reg, d) && Known(s, d)
    requires Holders(s.threads, d) > 0
    ensures Enabled(s, t, RemoveDevice) && !Safe(s, Step(s, t, RemoveDevice))
  {
    RemoveKeeps(s.reg, d);
    assert Known(s, d) && !SafeFor(s, Step(s, t, RemoveDevice), d);
  }

  /** A device prepared by `u` is published; the thread is idle again. */
  lemma Publishes(s: System, u: nat, d: nat) returns (events: seq<Event>, s': System)
    requires WellFormed(s.reg) && u < |s.threads| && s.threads[u] == Registering(d, false) && Known(s, d)
    requires !Registered(s.reg, d) && HasRoom(s.reg)
    ensures Obeys(s, events, s') && WellFormed(s'.reg) && Known(s', d) && Registered(s'.reg, d)
    ensures s'.threads == s.threads[u := Idle]
    ensures s'.reg.devs[d] == Dev(0, false, Online, false)
  {
    var s1 := Step(s, u, Initialise);
    PublishKeeps(s1.reg, d);
    s' := Step(s1, u, Publish);
    assert s'.threads == s.threads[u := Idle];
    ObeysOne(s1, u, Publish, [], s');
    ObeysOne(s, u, Initialise, [Event(u, Publish)], s');
    events := [Event(u, Initialise)] + [Event(u, Publish)];
  }

  /** A thread unregisters a device as far as seeing that nobody holds it. */
  lemma Checks(s: System, t: nat, d: nat) returns (events: seq<Event>, s': System)
    requires WellFormed(s.reg) && t < |s.threads| && s.threads[t].Idle? && Known(s, d) && Registered(s.reg, d)
    requires !s.reg.devs[d].protected && s.reg.devs[d].refs == 0
    ensures Obeys(s, events, s') && WellFormed(s'.reg) && Known(s', d) && s'.threads == s.threads[t := Checked(d)]
    ensures s'.reg.slots == s.reg.slots && s'.reg.devs[d] == Dev(0, true, Removing, false)
  {
    var s1 := Step(s, t, Unregister(d));
    s' := Step(s1, t, CheckIdle);
    assert s'.threads == s.threads[t := Checked(d)];
    ObeysOne(s1, t, CheckIdle, [], s');
    ObeysOne(s, t, Unregister(d), [Event(t, CheckIdle)], s');
    events := [Event(t, Unregister(d))] + [Event(t, CheckIdle)];
  }

  lemma StartRoom(s: System)
    requires Start(s)
    ensures WellFormed(s.reg) && HasRoom(s.reg) && forall d :: !Registered(s.reg, d)
  {
    assert s.reg.slots[0] == 0;
    FirstIs(s.reg.slots, 0, 0);
  }

  /** From the start, thread `t` gets to the point of removing a device it has
      registered, all others idle. */
  lemma ReachesChecked(s: System, t: nat, d: nat) returns (events: seq<Event>, s': System)
    requires Start(s) && t < |s.threads| && Known(s, d)
    ensures Obeys(s, events, s') && WellFormed(s'.reg) && Known(s', d) && Registered(s'.reg, d)
    ensures s'.threads == s.threads[t := Checked(d)] && s'.reg.devs[d] == Dev(0, true, Removing, false)
  {
    StartRoom(s);
    var s1 := Step(s, t, Register(d));
    assert s1.threads == s.threads[t := Registering(d, false)];
    var middle, s2 := Publishes(s1, t, d);
    assert s2.threads == s.threads;
    var last, s3 := Checks(s2, t, d);
    ObeysTwice(s1, middle, s2, last, s3);
    ObeysOne(s, t, Register(d), middle + last, s3);
    events, s' := [Event(t, Register(d))] + (middle + last), s3;
  }

  /** Switching protection on for a device about to be removed: another thread can
      then take a reference, and removal proceeds although it holds one. */
  lemma ProtectionRuleNeeded(s: System, t: nat, u: nat, d: nat)
    requires Start(s) && t < |s.threads| && u < |s.threads| && t != u && Known(s, d)
    ensures Breaks(s, t, u, Protect(d, true))
  {
    var before, mid := ReachesChecked(s, t, d);
    var end := ProtectThenHold(mid, u, d);
    HolderCounts(end.threads, u, d);
    RemovalUnsafe(end, t, d);
    assert BreaksBy(s, t, u, Protect(d, true), before, mid, [Event(u, IoBegin(d))] + [], end);
  }

  lemma ProtectThenHold(s: System, u: nat, d: nat) returns (s': System)
    requires WellFormed(s.reg) && u < |s.threads| && s.threads[u].Idle? && Known(s, d) && Registered(s.reg, d)
    requires s.reg.devs[d].state.Removing?
    ensures Enabled(s, u, Protect(d, true)) && Obeys(Step(s, u, Protect(d, true)), [Event(u, IoBegin(d))] + [], s')
    ensures WellFormed(s'.reg) && Known(s', d) && Registered(s'.reg, d) && s'.threads == s.threads[u := Holding(d)]
  {
    var on := Step(s, u, Protect(d, true));
    s' := Step(on, u, IoBegin(d));
    ObeysOne(on, u, IoBegin(d), [], s');
  }

  /** Registering a device while an unregistration is about to remove it: that
      removes the new registration, held or not. */
  lemma RegisterRuleNeeded(s: System, t: nat, u: nat, d: nat)
    requires Start(s) && t < |s.threads| && u < |s.threads| && t != u && Known(s, d)
    ensures Breaks(s, t, u, Register(d))
  {
    var before, checked := ReachesChecked(s, t, d);
    var out, mid := Unregisters(checked, u, d);
    ObeysTwice(s, before, checked, out, mid);
    var again := Step(mid, u, Register(d));
    var back, held := PublishesAndHolds(again, u, d);
    HolderCounts(held.threads, u, d);
    RemovalUnsafe(held, t, d);
    assert BreaksBy(s, t, u, Register(d), before + out, mid, back, held);
  }

  /** A second unregistration, overlapping the first, takes the device out. */
  lemma Unregisters(s: System, u: nat, d: nat) returns (events: seq<Event>, s': System)
    requires WellFormed(s.reg) && u < |s.threads| && s.threads[u].Idle? && Known(s, d) && Registered(s.reg, d)
    requires !s.reg.devs[d].protected && s.reg.devs[d].refs == 0
    ensures Obeys(s, events, s') && WellFormed(s'.reg) && Known(s', d) && !Registered(s'.reg, d) && HasRoom(s'.reg)
    ensures s'.threads == s.threads
  {
    var first, s1 := Checks(s, u, d);
    RemoveKeeps(s1.reg, d);
    s' := Step(s1, u, RemoveDevice);
    assert s'.reg.slots[First(s1.reg.slots, d)] == 0;
    assert s'.threads == s.threads;
    ObeysOne(s1, u, RemoveDevice, [], s');
    ObeysTwice(s, first, s1, [Event(u, RemoveDevice)] + [], s');
    events := first + ([Event(u, RemoveDevice)] + []);
  }

  lemma PublishesAndHolds(s: System, u: nat, d: nat) returns (events: seq<Event>, s': System)
    requires WellFormed(s.reg) && u < |s.threads| && s.threads[u] == Registering(d, false) && Known(s, d)
    requires !Registered(s.reg, d) && HasRoom(s.reg)
    ensures Obeys(s, events, s') && WellFormed(s'.reg) && Known(s', d) && Registered(s'.reg, d)
    ensures s'.threads == s.threads[u := Holding(d)]
  {
    var first, s1 := Publishes(s, u, d);
    s' := Step(s1, u, IoBegin(d));
    assert s'.threads == s.threads[u := Holding(d)];
    ObeysOne(s1, u, IoBegin(d), [], s');
    ObeysTwice(s, first, s1, [Event(u, IoBegin(d))] + [], s');
    events := first + ([Event(u, IoBegin(d))] + []);
  }

  /** Registering a device while another thread registers it: its preparation resets
      the references of the published device, which then looks free. */
  lemma SecondRegisterRuleNeeded(s: System, t: nat, u: nat, d: nat)
    requires Start(s) && t < |s.threads| && u < |s.threads| && t != u && Known(s, d)
    ensures Breaks(s, t, t, Register(d))
  {
    StartRoom(s);
    var mid := Step(s, u, Register(d));
    ObeysOne(s, u, Register(d), [], mid);
    var rest, end := PublishesTwice(Step(mid, t, Register(d)), t, u, d);
    HolderCounts(end.threads, u, d);
    RemovalUnsafe(end, t, d);
    assert BreaksBy(s, t, t, Register(d), [Event(u, Register(d))] + [], mid, rest, end);
  }

  lemma PublishesTwice(s: System, t: nat, u: nat, d: nat) returns (events: seq<Event>, s': System)
    requires WellFormed(s.reg) && t < |s.threads| && u < |s.threads| && t != u && Known(s, d)
    requires !Registered(s.reg, d) && HasRoom(s.reg)
    requires s.threads[t] == Registering(d, false) && s.threads[u] == Registering(d, false)
    ensures Obeys(s, events, s') && WellFormed(s'.reg) && Known(s', d) && Registered(s'.reg, d)
    ensures |s'.threads| == |s.threads| && s'.threads[t] == Checked(d) && s'.threads[u] == Holding(d)
  {
    var front, held := PublishesAndHolds(s, u, d);
    var back, end := ForgetsHolder(held, t, u, d);
    ObeysTwice(s, front, held, back, end);
    events, s' := front + back, end;
  }

  lemma ForgetsHolder(s: System, t: nat, u: nat, d: nat) returns (events: seq<Event>, s': System)
    requires WellFormed(s.reg) && t < |s.threads| && u < |s.threads| && t != u && Known(s, d) && Registered(s.reg, d)
    requires s.threads[t] == Registering(d, false) && s.threads[u] == Holding(d)
    ensures Obeys(s, events, s') && WellFormed(s'.reg) && Known(s', d) && Registered(s'.reg, d)
    ensures |s'.threads| == |s.threads| && s'.threads[t] == Checked(d) && s'.threads[u] == Holding(d)
  {
    var s1 := Step(s, t, Initialise);
    var s2 := Step(s1, t, Publish);
    ObeysOne(s1, t, Publish, [], s2);
    ObeysOne(s, t, Initialise, [Event(t, Publish)] + [], s2);
    var last, s3 := Checks(s2, t, d);
    events, s' := [Event(t, Initialise)] + ([Event(t, Publish)] + []) + last, s3;
    ObeysTwice(s, [Event(t, Initialise)] + ([Event(t, Publish)] + []), s2, last, s3);
  }
}
