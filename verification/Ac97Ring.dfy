/** The AC97 descriptor ring (drivers/dummy/ac97_drv.c): the driver fills descriptors
    ahead of the hardware, which consumes them one by one and stops at the last valid
    one.  The hardware may move between any two steps of the driver. */
module Ac97Ring {
  const ENTRIES := 32
  const PREBUFFER := 24
  const MARGIN := 4
  const BATCH := 4
  const XRUN := 2

  type Slot = s: nat | s < 32

  function Next(s: Slot): Slot {
    if s == 31 then 0 else s + 1
  }

  function Prev(s: Slot): (r: Slot)
    ensures Next(r) == s
  {
    if s == 0 then 31 else s - 1
  }

  /** How many steps forward from one slot to another. */
  function Distance(from: Slot, to: Slot): (d: Slot) {
    if to >= from then to - from else to + 32 - from
  }

  /** The driver computes these with a mask of five bits. */
  lemma RingArithmetic(from: Slot, to: Slot)
    ensures Next(from) == (from + 1) % 32 && Prev(from) == (from + 31) % 32
    ensures Distance(from, to) == (to + 32 - from) % 32
  {}

  function Less(n: nat, k: nat): nat { if k >= n then 0 else n - k }

  lemma NextDistance(from: Slot, to: Slot)
    ensures Distance(from, Next(to)) == Next(Distance(from, to))
    ensures from != to ==> Distance(Next(from), to) == Distance(from, to) - 1
    ensures Distance(from, to) == 0 <==> from == to
  {}

  /** Going part of the way leaves the rest. */
  lemma DistanceSplit(a: Slot, b: Slot, c: Slot)
    requires Distance(a, b) <= Distance(a, c)
    ensures Distance(b, c) == Distance(a, c) - Distance(a, b)
  {}

  // ----- policy -----

  datatype Policy = Policy(prebuffer: nat, margin: nat, batch: nat, xrun: nat)

  /** Every field in range, so that filling stays clear of the hardware. */
  predicate Usable(p: Policy) {
    1 <= p.prebuffer < 32 && 1 <= p.margin < 32 && 1 <= p.batch < 32 && 1 <= p.xrun < 32
  }

  /** The first fill and the recovery padding respect the margin too. */
  predicate Roomy(p: Policy) { p.prebuffer + p.margin <= 32 && p.xrun + p.margin <= 32 }

  method ApplyPolicy(wanted: Policy) returns (p: Policy)
    ensures Usable(p)
    ensures wanted == Policy(PREBUFFER, MARGIN, BATCH, XRUN) ==> p == wanted && Roomy(p)
    ensures p.prebuffer + p.margin < 32 || p.prebuffer >= 28
  {
    p := wanted;
    if p.prebuffer == 0 || p.prebuffer >= ENTRIES {
      p := p.(prebuffer := PREBUFFER);
    }
    if p.margin == 0 || p.margin >= ENTRIES {
      p := p.(margin := MARGIN);
    }
    if p.prebuffer + p.margin >= ENTRIES {
      p := p.(margin := MARGIN);
    }
    if p.batch == 0 || p.batch >= ENTRIES {
      p := p.(batch := BATCH);
    }
    if p.xrun == 0 || p.xrun >= ENTRIES {
      p := p.(xrun := XRUN);
    }
  }

  // ----- driver and hardware -----

  class Stream {
    const policy: Policy

    // registers
    var civ: Slot
    var lvi: Slot
    var started: bool
    var halted: bool

    // driver
    var active: bool
    var playCiv: Slot
    var writeLvi: Slot
    var filled: nat

    /** No descriptor was ever written inside the hardware's window. */
    ghost var clean: bool

    constructor (p: Policy)
      requires Usable(p)
      ensures Valid() && !started && clean && policy == p
    {
      policy := p;
      civ, lvi, started, halted := 0, 0, false, false;
      active, playCiv, writeLvi, filled, clean := false, 0, 0, 0, true;
    }

    /** The slots the hardware may read: from its current one to the last valid
        one, while the channel is started. */
    ghost predicate Owned(d: Slot)
      reads this
    {
      started && Distance(civ, d) <= Distance(civ, lvi)
    }

    /** While streaming: the driver knows the last valid slot, the hardware is
        between the slot last seen and that one, and every slot from there on is
        counted as filled. */
    ghost predicate Tracking()
      reads this
    {
      && started && writeLvi == lvi && Distance(playCiv, civ) <= Distance(playCiv, lvi)
      && Distance(playCiv, lvi) + 1 <= filled <= 32 && (Roomy(policy) ==> filled <= 32 - policy.margin)
    }

    ghost predicate Valid()
      reads this
    {
      Usable(policy) && (active ==> Tracking())
    }

    /** The hardware moves on by any number of slots, and halts at the last valid
        one at some point after reaching it. */
    method Hardware()
      requires Valid()
      modifies this`civ, this`halted
      ensures Valid() && (started ==> Distance(old(civ), civ) <= Distance(old(civ), lvi))
      ensures !started ==> civ == old(civ) && halted == old(halted)
      ensures old(clean) == clean
    {
      if !started {
        return;
      }
      var steps: nat := *;
      ghost var start := civ;
      while steps > 0 && civ != lvi
        invariant Distance(start, civ) <= Distance(start, lvi) && Valid()
      {
        Consume(start);
        civ, halted, steps := Next(civ), false, steps - 1;
      }
      if civ == lvi {
        halted := *;
      }
    }

    lemma Consume(start: Slot)
      requires Valid() && civ != lvi && Distance(start, civ) <= Distance(start, lvi)
      ensures Distance(start, Next(civ)) <= Distance(start, lvi)
      ensures active ==> Distance(playCiv, Next(civ)) <= Distance(playCiv, lvi)
    {
      Ahead(start, civ, lvi);
      if active {
        Ahead(playCiv, civ, lvi);
      }
    }

    /** Writes a descriptor. */
    method SetDescriptor(d: Slot)
      modifies this`clean
      ensures clean == (old(clean) && !Owned(d))
    {
      clean := clean && !Owned(d);
    }

    /** The hardware was at this slot since the driver last took note, and has not gone
        past the last valid one. */
    ghost predicate Passed(seen: Slot)
      reads this
    {
      Distance(playCiv, seen) <= Distance(playCiv, civ)
    }

    /** Takes note of how far the hardware had got when its slot was read; it may have
        moved on since. */
    method UpdateCiv(seen: Slot)
      requires Valid() && active && Passed(seen)
      modifies this`playCiv, this`filled
      ensures Valid() && playCiv == seen && filled == Less(old(filled), Distance(old(playCiv), seen))
    {
      var delta := Distance(playCiv, seen);
      if delta == 0 {
        NextDistance(playCiv, seen);
        return;
      }
      DistanceSplit(playCiv, civ, lvi);
      DistanceSplit(playCiv, seen, civ);
      DistanceSplit(playCiv, seen, lvi);
      filled := Less(filled, delta);
      playCiv := seen;
    }

    /** Reads the hardware's slot; it moves on before the driver does anything with it. */
    method ReadCiv() returns (seen: Slot)
      requires Valid() && active
      modifies this`civ, this`halted
      ensures Valid() && Passed(seen)
    {
      seen := civ;
      Hardware();
      StillPassed(playCiv, seen, civ, lvi);
    }

    /** Hands a filled descriptor to the hardware. */
    method NoteLvi(d: Slot)
      requires Valid() && active && d == Next(writeLvi) && filled < 32 - policy.margin
      modifies this`writeLvi, this`filled, this`lvi
      ensures Valid() && lvi == writeLvi == d && filled == old(filled) + 1
    {
      NextDistance(playCiv, lvi);
      writeLvi := d;
      if filled < ENTRIES {
        filled := filled + 1;
      }
      lvi := d;
    }

    /** Fills the next descriptor and hands it over; the hardware may move before
        and after it is written. */
    method FillNext(d: Slot)
      requires Valid() && active && clean && d == Next(writeLvi) && filled < 32 - policy.margin
      modifies this
      ensures Valid() && active && clean && writeLvi == d && filled == old(filled) + 1
    {
      Hardware();
      NotOwned();
      SetDescriptor(d);
      Hardware();
      NoteLvi(d);
    }

    /** A slot is free of the hardware when it follows the last valid one and the
        ring is not full. */
    lemma NotOwned()
      requires Valid() && active && filled < 32 - policy.margin
      ensures !Owned(Next(writeLvi))
    {
      DistanceSplit(playCiv, civ, lvi);
      NextDistance(civ, lvi);
    }

    /** Restarts after the hardware ran dry: the channel is stopped, a few silent
        descriptors are written from its current slot on, and it is started again. */
    method SurviveUnderrun(starts: bool) returns (ok: bool)
      requires Valid() && active && clean
      modifies this
      ensures Valid() && clean && ok == active == starts
    {
      var at := civ;
      active := false;
      started := false;
      playCiv, writeLvi, filled := at, Prev(at), 0;
      var d := at;
      for i := 0 to policy.xrun
        invariant Valid() && !started && !active && clean && civ == at && playCiv == at && filled == i
        invariant Distance(at, d) == (if i == 32 then 0 else i) && (i > 0 ==> Distance(at, writeLvi) == i - 1)
      {
        SetDescriptor(d);
        writeLvi := d;
        filled := filled + 1;
        NextDistance(at, d);
        d := Next(d);
      }
      lvi := writeLvi;
      halted, started := false, true;
      NextDistance(at, at);
      Hardware();
      if !starts {
        return false;
      }
      playCiv := civ;
      DistanceSplit(at, civ, lvi);
      NextDistance(civ, civ);
      active := true;
      ok := true;
    }

    /** Fills the ring from slot 0 before the channel is started; `count` descriptors
        are enough for what is to be played. */
    method Prefill(count: nat) returns (last: Slot)
      requires Valid() && !started && clean && count > 0
      modifies this`clean
      ensures Valid() && clean && last + 1 == if count < policy.prebuffer then count else policy.prebuffer
    {
      for i := 0 to policy.prebuffer
        invariant Valid() && clean && i < count
      {
        SetDescriptor(i);
        if i + 1 == count {
          return i;
        }
      }
      return policy.prebuffer - 1;
    }

    /** Resets the channel, which puts the hardware at slot 0, and starts it. */
    method Start(last: Slot, starts: bool) returns (ok: bool)
      requires Valid() && !started && !active && clean && last + 1 <= policy.prebuffer
      modifies this
      ensures Valid() && clean && ok == active == starts
    {
      civ, lvi := 0, last;
      halted, started := false, true;
      NextDistance(0, 0);
      Hardware();
      if !starts {
        started := false;
        return false;
      }
      playCiv, writeLvi, filled := civ, last, last + 1;
      DistanceSplit(0, civ, last);
      NextDistance(civ, civ);
      active := true;
      ok := true;
    }

    /** Follows the hardware, or restarts it if it halted. */
    method Alive(restarts: bool) returns (ok: bool)
      requires Valid() && clean
      modifies this
      ensures Valid() && clean && ok == active && (ok ==> old(active))
    {
      if !active {
        return false;
      }
      Hardware();
      if !halted {
        Hardware();
        var seen := ReadCiv();
        UpdateCiv(seen);
        return true;
      }
      ok := SurviveUnderrun(restarts);
    }

    /** Waits until more than the margin is free, for at most `polls` looks at the
        hardware.  At each look the stream may turn out to be cancelled, or a restart
        may fail. */
    method WaitWritable(polls: nat) returns (ok: bool, d: Slot)
      requires Valid() && active && clean
      modifies this
      ensures Valid() && clean && (ok ==> active)
      ensures ok ==> d == Next(writeLvi) && filled < 32 - policy.margin
    {
      d := 0;
      for i := 0 to polls
        invariant Valid() && active && clean
      {
        Hardware();
        var stopped := halted;
        Hardware();
        var seen := ReadCiv();
        var cancelled: bool := *;
        if cancelled {
          active := false;
          return false, 0;
        }
        if stopped {
          var restarts: bool := *;
          ok := SurviveUnderrun(restarts);
          if !ok {
            return false, 0;
          }
          continue;
        }
        UpdateCiv(seen);
        if ENTRIES - filled > policy.margin {
          return true, Next(writeLvi);
        }
        lvi := writeLvi;
      }
      return false, 0;
    }

    /** Fills one batch of descriptors, at most `left`. */
    method Refill(first: Slot, left: nat) returns (done: nat)
      requires Valid() && active && clean && first == Next(writeLvi)
      modifies this
      ensures Valid() && active && clean && done <= left && done <= policy.batch
      ensures old(filled) < 32 - policy.margin && left > 0 ==> done > 0
    {
      var d := first;
      done := 0;
      while done < policy.batch && ENTRIES - filled > policy.margin && done < left
        invariant Valid() && active && clean && d == Next(writeLvi) && done <= left && done <= policy.batch
        invariant done == 0 ==> filled == old(filled)
      {
        FillNext(d);
        d := Next(d);
        done := done + 1;
      }
    }
  }

  /** Plays `total` descriptors' worth of samples: whatever the hardware does, however
      often it runs dry, whichever start or restart fails and whenever the stream is
      cancelled, the ring is never written where the hardware may be reading. */
  method Play(p: Policy, total: nat) returns (ok: bool, played: nat, stream: Stream)
    requires Usable(p) && total > 0
    ensures fresh(stream) && stream.Valid() && stream.clean
    ensures stream.active && Roomy(p) ==> Distance(stream.civ, stream.lvi) + 1 <= stream.filled <= 32 - p.margin
    ensures played <= total && (ok ==> played == total && stream.active)
  {
    stream := new Stream(p);
    played := 0;
    var last := stream.Prefill(total);
    var cancelled: bool := *;
    if cancelled {
      return false, 0, stream;
    }
    var starts: bool := *;
    ok := stream.Start(last, starts);
    if ok {
      played := last + 1;
    }
    while ok && played < total
      invariant stream.Valid() && stream.clean && fresh(stream) && stream.policy == p && (ok ==> stream.active)
      invariant played <= total
      decreases if ok then total - played + 1 else 0
    {
      cancelled := *;
      if cancelled {
        ok := false;
        break;
      }
      var restarts: bool := *;
      ok := stream.Alive(restarts);
      if !ok {
        break;
      }
      var polls: nat := *;
      var d;
      ok, d := stream.WaitWritable(polls);
      if !ok {
        break;
      }
      var done := stream.Refill(d, total - played);
      played := played + done;
    }
    if stream.active {
      DistanceSplit(stream.playCiv, stream.civ, stream.lvi);
    }
  }

  /** A slot passed stays passed while the hardware goes on towards the last valid one. */
  lemma StillPassed(from: Slot, seen: Slot, at: Slot, last: Slot)
    requires Distance(from, seen) <= Distance(from, last) && Distance(seen, at) <= Distance(seen, last)
    ensures Distance(from, seen) <= Distance(from, at)
  {}

  lemma Ahead(a: Slot, b: Slot, c: Slot)
    requires Distance(a, b) <= Distance(a, c) && b != c
    ensures Distance(a, Next(b)) == Distance(a, b) + 1 <= Distance(a, c)
  {
    DistanceSplit(a, b, c);
    NextDistance(b, c);
    NextDistance(a, b);
  }
}
