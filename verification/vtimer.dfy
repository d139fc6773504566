/**
 The per-vCPU virtual timer (vmm/vdev/vtimer.c): the hypervisor keeps a
 copy of the guest's CNTV_CTL/CNTV_CVAL/CNTV_TVAL registers, reconciles it
 with the guest's saved registers at every context switch, and on the host
 timer tick raises PPI 27 in the virtual GIC when an enabled timer's
 compare value has been reached.
 */
module VTimer {
  import opened CTypes
  import opened IntBits
  import opened Util
  import opened Vgic
  import BitUtils

  /** CNTV_CTL bit 0 (ENABLE), bit 1 (IMASK) and bit 2 (ISTATUS). */
  const EnableBit := 0
  const ImaskBit := 1
  const IstatusBit := 2
  /** PPI 27, the virtual timer interrupt. */
  const TimerPpi := 27
  /** A pending interrupt the guest has not acknowledged after this many ticks (100 ms at 62.5 MHz) is dropped. */
  const StaleTicks := 6_250_000
  /** A stored TVAL within this many ticks of the expected one is taken as unchanged. */
  const TvalSlack := 1000

  /** vtimer_core_state_t: the hypervisor's copy of one vCPU's timer. */
  datatype CoreState = CoreState(id: u32, tval: i32, cval: u64, ctl: u32, enabled: bool, pending: bool, fireCount: u64, lastFire: u64)

  /** The guest's cntv_ctl_el0 / cntv_cval_el0 / cntv_tval_el0 as saved in its system-register area. */
  datatype Regs = Regs(ctl: u64, cval: u64, tval: u64)

  /** One vCPU's timer: the hypervisor's copy and the guest's saved registers. */
  datatype Timer = Timer(vt: CoreState, regs: Regs)

  predicate Enabled(ctl: nat) { Bit(ctl, EnableBit) }
  predicate Masked(ctl: nat) { Bit(ctl, ImaskBit) }
  predicate Status(ctl: nat) { Bit(ctl, IstatusBit) }

  /** Two control words that agree on every bit except ISTATUS. */
  ghost predicate SameButStatus(a: nat, b: nat) {
    forall j: nat | j != IstatusBit :: Bit(a, j) == Bit(b, j)
  }

  /** vtimer_core_init: everything zero, timer off, nothing pending. */
  function Init(id: u32): (r: CoreState)
    ensures r.id == id && !r.pending && !Enabled(r.ctl) && r.fireCount == 0
  {
    ZeroBit(EnableBit);
    CoreState(id, 0, 0, 0, false, false, 0, 0)
  }

  // ---------------------------------------------------------------------
  // Register reads
  // ---------------------------------------------------------------------

  /** vtimer_read_cntv_ctl: the low 32 bits of the saved control register. */
  function ReadCtl(regs: Regs): (r: u32)
    ensures forall i: nat :: Bit(r, i) <==> i < 32 && Bit(regs.ctl, i)
    ensures regs.ctl < Word32 ==> r == regs.ctl
  {
    BitUtils.Pow2Word();
    forall i: nat
      ensures Bit(regs.ctl % Word32, i) <==> i < 32 && Bit(regs.ctl, i)
    {
      ModBit(regs.ctl, 32, i);
    }
    regs.ctl % Word32
  }

  /**
   vtimer_read_cntv_tval: `(int32)((int64)cval - (int64)now)`; the
   signed 64-bit subtraction is taken to wrap.
   */
  function ReadTval(cval: u64, now: u64): (r: i32)
    ensures r == AsI32(cval - now)
    ensures (r - (cval - now)) % Word32 == 0
    ensures -0x8000_0000 <= cval - now < 0x8000_0000 ==> r == cval - now
  {
    var d := AsI64(AsI64(cval) - AsI64(now));
    Low32OfLow64(d, cval - now);
    AsI32(d)
  }

  /** Two values equal modulo 2^64 convert to the same `int32_t`. */
  lemma Low32OfLow64(a: int, b: int)
    requires (a - b) % Word64 == 0
    ensures AsI32(a) == AsI32(b)
    ensures (AsI32(a) - b) % Word32 == 0
  {
    var k := (a - b) / Word64;
    DivOf(a - b, Word64, k, 0);
    assert a - b == (k * 0x1_0000_0000) * Word32;
    SameMod(a, b, k * 0x1_0000_0000);
  }

  /** Reducing modulo 2^64 changes a value by a multiple of 2^64. */
  lemma WrapDiff(x: int)
    ensures (x % Word64 - x) % Word64 == 0
  {
    DivOf(x % Word64 - x, Word64, -(x / Word64), 0);
  }

  lemma SameMod(a: int, b: int, k: int)
    requires a - b == k * Word32
    ensures a % Word32 == b % Word32
    ensures AsI32(a) == AsI32(b)
  {
    var q := b / Word32;
    DivOf(a, Word32, q + k, b % Word32);
  }

  // ---------------------------------------------------------------------
  // Register writes
  // ---------------------------------------------------------------------

  /** The ISTATUS clearing CVAL and TVAL writes share: the bit goes, and with it the pending interrupt. */
  function ClearStatus(t: Timer): (r: Timer)
    ensures !Status(r.vt.ctl) && SameButStatus(r.vt.ctl, t.vt.ctl)
    ensures Status(t.vt.ctl) ==> !r.vt.pending && r.regs.ctl == r.vt.ctl
    ensures !Status(t.vt.ctl) ==> r == t
    ensures r.vt == t.vt.(ctl := r.vt.ctl, pending := r.vt.pending)
    ensures r.regs == t.regs.(ctl := r.regs.ctl)
  {
    if Status(t.vt.ctl) then
      var c := AndNot(t.vt.ctl, BitUtils.Pow2(IstatusBit));
      AndNotBelow(t.vt.ctl, BitUtils.Pow2(IstatusBit));
      ClearedBits(t.vt.ctl, IstatusBit);
      Timer(t.vt.(ctl := c, pending := false), t.regs.(ctl := c))
    else t
  }

  /** `x & ~(1 << b)` keeps every bit of x but b, which it clears. */
  lemma ClearedBits(x: nat, b: nat)
    ensures !Bit(AndNot(x, BitUtils.Pow2(b)), b)
    ensures forall j: nat | j != b :: Bit(AndNot(x, BitUtils.Pow2(b)), j) == Bit(x, j)
  {
    forall j: nat
      ensures Bit(AndNot(x, BitUtils.Pow2(b)), j) == (Bit(x, j) && j != b)
    {
      AndNotBit(x, BitUtils.Pow2(b), j);
      PowBit(b, j);
    }
  }

  /** `x | (1 << b)` keeps every bit of x and sets b. */
  lemma SetBits(x: nat, b: nat)
    ensures Bit(Or(x, BitUtils.Pow2(b)), b)
    ensures forall j: nat | j != b :: Bit(Or(x, BitUtils.Pow2(b)), j) == Bit(x, j)
  {
    forall j: nat
      ensures Bit(Or(x, BitUtils.Pow2(b)), j) == (Bit(x, j) || j == b)
    {
      OrBit(x, BitUtils.Pow2(b), j);
      PowBit(b, j);
    }
  }

  /**
   vtimer_write_cntv_ctl: the new control word is stored in both copies,
   `enabled` follows its ENABLE bit, and a guest clearing ISTATUS that was
   set acknowledges the pending interrupt.
   */
  function WriteCtl(t: Timer, ctl: u32): (r: Timer)
    ensures r.vt.ctl == ctl && r.regs.ctl == ctl && ReadCtl(r.regs) == ctl
    ensures r.vt.enabled <==> Enabled(ctl)
    ensures r.vt.pending <==> t.vt.pending && !(Status(t.vt.ctl) && !Status(ctl))
    ensures r.vt == t.vt.(ctl := ctl, enabled := r.vt.enabled, pending := r.vt.pending)
    ensures r.regs == t.regs.(ctl := ctl)
  {
    ModSmall(ctl, Word32);
    var acked := Status(t.vt.ctl) && !Status(ctl);
    Timer(t.vt.(ctl := ctl, pending := t.vt.pending && !acked, enabled := Enabled(ctl)), t.regs.(ctl := ctl))
  }

  /** vtimer_write_cntv_cval: the compare value in both copies, then the ISTATUS clearing. */
  function WriteCval(t: Timer, cval: u64): (r: Timer)
    ensures r.vt.cval == cval && r.regs.cval == cval
    ensures !Status(r.vt.ctl) && SameButStatus(r.vt.ctl, t.vt.ctl)
    ensures r.vt.pending <==> t.vt.pending && !Status(t.vt.ctl)
    ensures r.vt.enabled == t.vt.enabled && r.vt.tval == t.vt.tval && r.regs.tval == t.regs.tval
  {
    ClearStatus(Timer(t.vt.(cval := cval), t.regs.(cval := cval)))
  }

  /**
   vtimer_write_cntv_tval: the compare value becomes the VM's current
   tick plus the sign-extended TVAL, modulo 2^64; the TVAL register keeps
   the value's 32-bit pattern.
   */
  function WriteTval(t: Timer, tval: i32, now: u64): (r: Timer)
    ensures r.vt.cval == (now + tval) % Word64 && r.regs.cval == r.vt.cval
    ensures r.vt.tval == tval && r.regs.tval == tval % Word32
    ensures !Status(r.vt.ctl) && SameButStatus(r.vt.ctl, t.vt.ctl)
    ensures r.vt.pending <==> t.vt.pending && !Status(t.vt.ctl)
    ensures r.vt.enabled == t.vt.enabled
  {
    var c := (now + AsI64(tval)) % Word64;
    ClearStatus(Timer(t.vt.(tval := tval, cval := c), t.regs.(tval := tval % Word32, cval := c)))
  }

  /** A TVAL written and read back at the same instant gives the value written. */
  lemma TvalRoundTrip(t: Timer, tval: i32, now: u64)
    ensures ReadTval(WriteTval(t, tval, now).vt.cval, now) == tval
  {
    TvalBack(now, tval);
  }

  /** The compare value `now + tval` (mod 2^64) lies `tval` ticks from `now` in 32-bit terms. */
  lemma TvalBack(now: u64, tval: i32)
    ensures AsI32((now + tval) % Word64 - now) == tval
  {
    var x := now + tval;
    WrapDiff(x);
    assert (x % Word64 - now) - tval == x % Word64 - x;
    Low32OfLow64(x % Word64 - now, tval);
  }

  /** A CVAL written is read back, and TVAL then counts down to it. */
  lemma CvalRoundTrip(t: Timer, cval: u64, now: u64)
    requires -0x8000_0000 <= cval - now < 0x8000_0000
    ensures WriteCval(t, cval).regs.cval == cval
    ensures ReadTval(WriteCval(t, cval).vt.cval, now) == cval - now
  {}

  // ---------------------------------------------------------------------
  // Firing
  // ---------------------------------------------------------------------

  /** vtimer_should_fire: records ENABLE in `enabled` and reports whether the timer is due. */
  function ShouldFire(vt: CoreState, now: u64): (r: (CoreState, bool))
    ensures r.1 <==> Enabled(vt.ctl) && now >= vt.cval
    ensures r.0 == vt.(enabled := Enabled(vt.ctl))
  {
    if !Enabled(vt.ctl) then (vt.(enabled := false), false)
    else (vt.(enabled := true), now >= vt.cval)
  }

  /** A timer that has only been initialised never fires. */
  lemma InitNeverFires(id: u32, now: u64)
    ensures !ShouldFire(Init(id), now).1
  {}

  /**
   vtimer_inject_to_vcpu: mark the interrupt pending, set ISTATUS in both
   copies, count the firing, remember its time, and unless IMASK is set
   inject PPI 27 into the vCPU's virtual GIC state.
   */
  function Inject(t: Timer, c: Vgic.Core, d: Dist, nowTick: u64, running: bool): (r: (Timer, Vgic.Core))
    requires CoreWf(c) && DistWf(d)
    ensures CoreWf(r.1)
    ensures r.0.vt.pending && Status(r.0.vt.ctl) && r.0.regs.ctl == r.0.vt.ctl
    ensures forall j: nat | j != IstatusBit :: Bit(r.0.vt.ctl, j) == Bit(t.vt.ctl, j)
    ensures r.0.vt.fireCount == (t.vt.fireCount + 1) % Word64 && r.0.vt.lastFire == nowTick
    ensures r.0.vt.cval == t.vt.cval
    ensures Masked(t.vt.ctl) ==> r.1 == c
    ensures !Masked(t.vt.ctl) && Bit(c.isenabler, TimerPpi) ==> Delivered(r.1, TimerPpi) && Kept(c, r.1)
    ensures !Masked(t.vt.ctl) && !Bit(c.isenabler, TimerPpi) && !IsPending(c, TimerPpi) ==> r.1 == c
  {
    var ctl := Or(t.vt.ctl, BitUtils.Pow2(IstatusBit));
    Gic.Powers();
    OrBelow(t.vt.ctl, BitUtils.Pow2(IstatusBit), 32);
    SetBits(t.vt.ctl, IstatusBit);
    var vt := t.vt.(pending := true, ctl := ctl, fireCount := (t.vt.fireCount + 1) % Word64, lastFire := nowTick);
    var c1 := if !Masked(ctl) then InjectPpi(c, d, TimerPpi, running) else c;
    (Timer(vt, t.regs.(ctl := ctl)), c1)
  }

  /**
   One vCPU's share of v_timer_tick: a timer on this CPU whose ENABLE bit
   is set and whose compare value the VM's tick has reached is injected,
   unless its interrupt is still pending.
   */
  function TickOne(t: Timer, c: Vgic.Core, d: Dist, nowTick: u64, onThisCpu: bool, running: bool): (r: (Timer, Vgic.Core))
    requires CoreWf(c) && DistWf(d)
    ensures CoreWf(r.1)
    ensures onThisCpu && ShouldFire(t.vt, nowTick).1 ==> r.0.vt.pending
    ensures t.vt.pending || !onThisCpu || !ShouldFire(t.vt, nowTick).1 ==> r == (t, c)
    ensures !t.vt.pending && onThisCpu && ShouldFire(t.vt, nowTick).1 ==> r.0.vt.fireCount == (t.vt.fireCount + 1) % Word64
  {
    var due := Enabled(t.vt.ctl) && nowTick >= t.vt.cval;
    if onThisCpu && due && !t.vt.pending then Inject(t, c, d, nowTick, running) else (t, c)
  }

  /** A second tick at the same time changes nothing: a timer fires once per expiry until acknowledged. */
  lemma TickIdempotent(t: Timer, c: Vgic.Core, d: Dist, nowTick: u64, onThisCpu: bool, running: bool)
    requires CoreWf(c) && DistWf(d)
    ensures var r := TickOne(t, c, d, nowTick, onThisCpu, running);
      TickOne(r.0, r.1, d, nowTick, onThisCpu, running) == r
  {
    var r := TickOne(t, c, d, nowTick, onThisCpu, running);
    if onThisCpu && ShouldFire(t.vt, nowTick).1 && !t.vt.pending {
      assert r.0.vt.pending;
    }
  }

  /** Acknowledging through CTL (clearing ISTATUS) rearms the timer: with CVAL moved later, it fires again once reached. */
  lemma AckRearms(t: Timer, c: Vgic.Core, d: Dist, nowTick: u64, cval: u64, later: u64, running: bool)
    requires CoreWf(c) && DistWf(d) && t.vt.pending && Status(t.vt.ctl) && Enabled(t.vt.ctl)
    requires later >= cval
    ensures var t1 := WriteCval(t, cval);
      !t1.vt.pending && TickOne(t1, c, d, later, true, running).0.vt.pending
      && TickOne(t1, c, d, later, true, running).0.vt.fireCount == (t.vt.fireCount + 1) % Word64
  {
    var t1 := WriteCval(t, cval);
    assert Bit(t1.vt.ctl, EnableBit) == Bit(t.vt.ctl, EnableBit);
  }

  // ---------------------------------------------------------------------
  // Context switch (vtimer_core_save / vtimer_core_restore)
  // ---------------------------------------------------------------------

  /** vtimer_core_restore: the hypervisor's copy goes back into the guest's registers. */
  function Restore(t: Timer): (r: Timer)
    ensures r.vt == t.vt
    ensures ReadCtl(r.regs) == t.vt.ctl && r.regs.cval == t.vt.cval && AsI32(r.regs.tval) == t.vt.tval
  {
    ModSmall(t.vt.ctl, Word32);
    SameMod(t.vt.tval % Word32, t.vt.tval, t.vt.tval % Word32 / Word32 - t.vt.tval / Word32);
    Timer(t.vt, Regs(t.vt.ctl, t.vt.cval, t.vt.tval % Word32))
  }

  /**
   CNTV_CTL reads back what was written to it, and after a restore the
   guest reads the hypervisor's control word.
   */
  lemma CtlRoundTrip(t: Timer, ctl: u32)
    ensures ReadCtl(WriteCtl(t, ctl).regs) == ctl
    ensures ReadCtl(Restore(t).regs) == t.vt.ctl
    ensures Enabled(ReadCtl(WriteCtl(t, ctl).regs)) <==> WriteCtl(t, ctl).vt.enabled
  {
  }

  /**
   The TVAL change test of vtimer_core_save as written: the stored 32-bit
   TVAL against the full 64-bit distance from the virtual time to CVAL,
   with 1000 ticks of slack.
   */
  predicate TvalMovedAsWritten(cval: u64, vnow: u64, stored: i32) {
    var expected := AsI64(AsI64(cval) - AsI64(vnow));
    var diff := AsI64(stored - expected);
    diff > TvalSlack || diff < -TvalSlack
  }

  /**
   The TVAL change test in the register's own 32-bit arithmetic: a
   compare value further than 2^31 ticks away is not a TVAL write.
   */
  predicate TvalMoved(cval: u64, vnow: u64, stored: i32) {
    var diff := AsI32(stored - ReadTval(cval, vnow));
    diff > TvalSlack || diff < -TvalSlack
  }

  /** The virtual time a save computes: physical count minus CNTVOFF, modulo 2^64. */
  function VirtualNow(phys: u64, cntvoff: u64): (r: u64)
    ensures (r - (phys - cntvoff)) % Word64 == 0
  {
    var r := (phys - cntvoff) % Word64;
    var q := (phys - cntvoff) / Word64;
    DivOf(phys - cntvoff, Word64, q, r);
    assert r - (phys - cntvoff) == -q * Word64;
    r
  }

  /** The reconciliation of a save: guest writes to CTL, CVAL and (if `tvalMoved`) TVAL are replayed through the write handlers. */
  function Replay(t: Timer, nowTick: u64, tvalMoved: bool): (r: Timer)
  {
    var ctl := t.regs.ctl % Word32;
    var cval := t.regs.cval;
    var t1 := if ctl != t.vt.ctl then WriteCtl(t, ctl) else t;
    var t2 := if cval != t.vt.cval then WriteCval(t1, cval) else t1;
    if tvalMoved && cval == t.vt.cval then WriteTval(t2, AsI32(t.regs.tval), nowTick) else t2
  }

  /**
   vtimer_core_save with the TVAL test's outcome as a parameter: replay
   the guest's register changes, take the virtual time as the VM's new
   tick, drop an interrupt left unacknowledged for more than 6,250,000
   ticks (clearing ISTATUS), and store the TVAL the guest would now read.
   Returns the timer and the VM's new tick.
   */
  function SaveWith(t: Timer, nowTick: u64, vnow: u64, tvalMoved: bool): (r: (Timer, u64))
    ensures r.1 == vnow
    ensures r.0.vt.tval == ReadTval(r.0.vt.cval, vnow)
    ensures SameButStatus(r.0.vt.ctl, t.regs.ctl % Word32)
    ensures t.regs.cval != t.vt.cval ==> r.0.vt.cval == t.regs.cval
    ensures t.regs.cval == t.vt.cval && !tvalMoved ==> r.0.vt.cval == t.vt.cval
    ensures t.regs.cval == t.vt.cval && tvalMoved ==> r.0.vt.cval == (nowTick + AsI32(t.regs.tval)) % Word64
    ensures r.0.vt.id == t.vt.id && r.0.vt.fireCount == t.vt.fireCount && r.0.vt.lastFire == t.vt.lastFire
  {
    var t3 := Replay(t, nowTick, tvalMoved);
    var stale := t3.vt.pending && t3.vt.lastFire > 0 && (vnow - t3.vt.lastFire) % Word64 > StaleTicks;
    var t4 := if stale then ClearPendingStatus(t3) else t3;
    (t4.(vt := t4.vt.(tval := ReadTval(t4.vt.cval, vnow))), vnow)
  }

  /** The forced acknowledgement of a stale interrupt: pending and ISTATUS both cleared. */
  function ClearPendingStatus(t: Timer): (r: Timer)
    ensures !r.vt.pending && !Status(r.vt.ctl) && SameButStatus(r.vt.ctl, t.vt.ctl)
    ensures r.regs.ctl == r.vt.ctl
    ensures r.vt == t.vt.(ctl := r.vt.ctl, pending := false)
  {
    var c := AndNot(t.vt.ctl, BitUtils.Pow2(IstatusBit));
    AndNotBelow(t.vt.ctl, BitUtils.Pow2(IstatusBit));
    ClearedBits(t.vt.ctl, IstatusBit);
    Timer(t.vt.(ctl := c, pending := false), t.regs.(ctl := c))
  }

  /** vtimer_core_save as written. */
  function SaveAsWritten(t: Timer, nowTick: u64, phys: u64, cntvoff: u64): (r: (Timer, u64))
    ensures var vnow := VirtualNow(phys, cntvoff);
      r == SaveWith(t, nowTick, vnow, TvalMovedAsWritten(t.vt.cval, vnow, AsI32(t.regs.tval)))
  {
    var vnow := VirtualNow(phys, cntvoff);
    SaveWith(t, nowTick, vnow, TvalMovedAsWritten(t.vt.cval, vnow, AsI32(t.regs.tval)))
  }

  /** vtimer_core_save with the TVAL test in 32-bit arithmetic. */
  function Save(t: Timer, nowTick: u64, phys: u64, cntvoff: u64): (r: (Timer, u64))
    ensures r.1 == VirtualNow(phys, cntvoff)
    ensures r.0.vt.tval == ReadTval(r.0.vt.cval, r.1)
    ensures ReadCtl(t.regs) == t.vt.ctl && t.regs.cval == t.vt.cval && AsI32(t.regs.tval) == ReadTval(t.vt.cval, r.1)
      ==> r.0.vt.cval == t.vt.cval && SameButStatus(r.0.vt.ctl, t.vt.ctl)
  {
    var vnow := VirtualNow(phys, cntvoff);
    assert AsI32(t.regs.tval) == ReadTval(t.vt.cval, vnow) ==> !TvalMoved(t.vt.cval, vnow, AsI32(t.regs.tval)) by {
      assert AsI32(0) == 0;
    }
    SaveWith(t, nowTick, vnow, TvalMoved(t.vt.cval, vnow, AsI32(t.regs.tval)))
  }

  /** Restoring a saved timer and saving it again at the same instant gives back the same timer state. */
  lemma SaveRestoreSave(t: Timer, nowTick: u64, phys: u64, cntvoff: u64)
    ensures var s := Save(t, nowTick, phys, cntvoff);
      Save(Restore(s.0), s.1, phys, cntvoff).0.vt == s.0.vt
  {
    var vnow := VirtualNow(phys, cntvoff);
    var s := Save(t, nowTick, phys, cntvoff);
    var u := Restore(s.0);
    RestoredIsQuiet(s.0, s.1);
    assert Save(u, s.1, phys, cntvoff) == SaveWith(u, s.1, vnow, false);
    SavedNotStale(t, nowTick, phys, cntvoff);
    assert s.1 == vnow && u.vt.tval == ReadTval(u.vt.cval, vnow);
    SaveQuiet(u, s.1, vnow);
  }

  /** A saved timer holds no interrupt stale at the instant it was saved. */
  predicate StaleAt(vt: CoreState, vnow: u64) {
    vt.pending && vt.lastFire > 0 && (vnow - vt.lastFire) % Word64 > StaleTicks
  }

  lemma SavedNotStale(t: Timer, nowTick: u64, phys: u64, cntvoff: u64)
    ensures !StaleAt(Save(t, nowTick, phys, cntvoff).0.vt, VirtualNow(phys, cntvoff))
  {
  }

  /** Saving a timer that has nothing to replay and nothing stale keeps its state. */
  lemma SaveQuiet(u: Timer, tick: u64, vnow: u64)
    requires Replay(u, tick, false) == u && !StaleAt(u.vt, vnow) && u.vt.tval == ReadTval(u.vt.cval, vnow)
    ensures SaveWith(u, tick, vnow, false).0.vt == u.vt
  {
  }

  /** The registers a restore writes show no guest change to a save at the time the TVAL was computed for. */
  lemma RestoredIsQuiet(s: Timer, vnow: u64)
    requires s.vt.tval == ReadTval(s.vt.cval, vnow)
    ensures var u := Restore(s);
      !TvalMoved(u.vt.cval, vnow, AsI32(u.regs.tval)) && Replay(u, vnow, false) == u
  {
    assert AsI32(0) == 0;
  }

  /**
   A guest whose compare value lies 2^32 ticks ahead and which changes
   nothing has its CVAL rewritten to the current tick by the save as
   written, so an enabled timer fires at once.
   */
  lemma FarCvalRewritten()
    ensures var t := Timer(CoreState(0, 0, 0x1_0000_0000, 1, true, false, 0, 0), Regs(1, 0x1_0000_0000, 0));
      SaveAsWritten(t, 0, 0, 0).0.vt.cval == 0
      && ShouldFire(SaveAsWritten(t, 0, 0, 0).0.vt, 0).1
      && Save(t, 0, 0, 0).0.vt.cval == 0x1_0000_0000
      && !ShouldFire(Save(t, 0, 0, 0).0.vt, 0).1
  {
    var t := Timer(CoreState(0, 0, 0x1_0000_0000, 1, true, false, 0, 0), Regs(1, 0x1_0000_0000, 0));
    assert VirtualNow(0, 0) == 0;
    assert AsI32(0) == 0;
    assert TvalMovedAsWritten(0x1_0000_0000, 0, 0);
    assert Bit(1, 0);
    var s := SaveAsWritten(t, 0, 0, 0);
    assert SameButStatus(s.0.vt.ctl, 1);
    assert Bit(s.0.vt.ctl, EnableBit);
  }
}
