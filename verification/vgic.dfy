/**
 The virtual GIC's per-vCPU interrupt state and the injection path
 (include/vmm/vgic.h, vmm/vdev/vgic.c). Each vCPU keeps a software
 pending bitmap of 512 interrupt ids in sixteen 32-bit words, four saved
 list registers and the saved empty-list-register status ELSR0 (bit k set:
 list register k is free). An injected interrupt is marked pending; when
 the target vCPU is the one running, the pending interrupts are moved into
 free list registers at once.
 */
module Vgic {
  import opened CTypes
  import opened IntBits
  import opened Util
  import BitUtils
  import Gic

  /** GICH_LR_NUM. */
  const LrCount := 4
  /** SPI_ID_MAX: the bitmaps are sized for interrupt ids below 512. */
  const SpiIdMax := 512
  /** GIC_FIRST_SPI. */
  const FirstSpi := 32
  /** SPI_ID_MAX / 32 words of pending bits. */
  const MaskWords := 16

  /** vgic_core_state_t, the parts the model uses. */
  datatype Core = Core(vcpu: i32, elsr: u32, lrs: seq<u32>, pending: seq<u32>, isenabler: u32, priority: seq<u8>)

  predicate CoreWf(c: Core) {
    |c.lrs| == LrCount && |c.pending| == MaskWords && |c.priority| == FirstSpi
  }

  /** vgic_t: the distributor registers shared by the VM's vCPUs. */
  datatype Dist = Dist(ctlr: u32, scenabler: seq<u32>, priority: seq<u8>, targets: seq<u8>, icfgr: seq<u32>)

  predicate DistWf(d: Dist) {
    |d.scenabler| == MaskWords && |d.priority| == SpiIdMax && |d.targets| == SpiIdMax && |d.icfgr| == SpiIdMax / 16
  }

  // ---------------------------------------------------------------------
  // The pending bitmap (vgic.h)
  // ---------------------------------------------------------------------

  /**
   vgic_is_irq_pending: `(mask[id / 32] & (1 << id % 32)) != 0`, which is
   bit id % 32 of the word (IntBits.TestBit).
   */
  predicate IsPending(c: Core, id: nat)
    requires CoreWf(c) && id < SpiIdMax
  {
    Bit(c.pending[id / 32], id % 32)
  }

  lemma WordOf(id: nat, j: nat)
    requires id != j
    ensures id / 32 != j / 32 || id % 32 != j % 32
  {}

  /** vgic_set_irq_pending: or in bit id % 32 of word id / 32; nothing else changes. */
  function SetPending(c: Core, id: nat): (r: Core)
    requires CoreWf(c) && id < SpiIdMax
    ensures CoreWf(r) && IsPending(r, id)
    ensures forall j | 0 <= j < SpiIdMax && j != id :: IsPending(r, j) == IsPending(c, j)
    ensures r == c.(pending := r.pending)
  {
    var w, b := id / 32, id % 32;
    Pow2Below32(b);
    Gic.Powers();
    OrBelow(c.pending[w], BitUtils.Pow2(b), 32);
    var r := c.(pending := c.pending[w := Or(c.pending[w], BitUtils.Pow2(b))]);
    OrBit(c.pending[w], BitUtils.Pow2(b), b);
    PowBit(b, b);
    assert forall j | 0 <= j < SpiIdMax && j != id :: IsPending(r, j) == IsPending(c, j) by {
      forall j | 0 <= j < SpiIdMax && j != id
        ensures IsPending(r, j) == IsPending(c, j)
      {
        WordOf(id, j);
        OrBit(c.pending[w], BitUtils.Pow2(b), j % 32);
        PowBit(b, j % 32);
      }
    }
    r
  }

  /** vgic_clear_irq_pending: and out bit id % 32 of word id / 32; nothing else changes. */
  function ClearPending(c: Core, id: nat): (r: Core)
    requires CoreWf(c) && id < SpiIdMax
    ensures CoreWf(r) && !IsPending(r, id)
    ensures forall j | 0 <= j < SpiIdMax && j != id :: IsPending(r, j) == IsPending(c, j)
    ensures r == c.(pending := r.pending)
  {
    var w, b := id / 32, id % 32;
    AndNotBelow(c.pending[w], BitUtils.Pow2(b));
    var r := c.(pending := c.pending[w := AndNot(c.pending[w], BitUtils.Pow2(b))]);
    AndNotBit(c.pending[w], BitUtils.Pow2(b), b);
    PowBit(b, b);
    assert forall j | 0 <= j < SpiIdMax && j != id :: IsPending(r, j) == IsPending(c, j) by {
      forall j | 0 <= j < SpiIdMax && j != id
        ensures IsPending(r, j) == IsPending(c, j)
      {
        WordOf(id, j);
        AndNotBit(c.pending[w], BitUtils.Pow2(b), j % 32);
        PowBit(b, j % 32);
      }
    }
    r
  }

  // ---------------------------------------------------------------------
  // Saved list registers
  // ---------------------------------------------------------------------

  /** `lr & 0x3ff`: the virtual id field. */
  function LrVid(v: u32): (r: nat)
    ensures r == v % 0x400
  {
    LowMask(v, 10);
    Gic.Powers();
    And(v, 0x3ff)
  }

  /** `(lr >> 28) & 0x3`: the state field; 1 means pending. */
  function LrState(v: u32): (r: nat)
    ensures r == (v / 0x1000_0000) % 4
  {
    LowMask(v / 0x1000_0000, 2);
    And(v / 0x1000_0000, 3)
  }

  /** `(lr >> GICH_LR_PID_SHIFT) & 0x3ff`: the field the duplicate check of the injection loop reads. */
  function LrPid(v: u32): (r: nat)
    ensures r == (v / 0x400) % 0x400
  {
    LowMask(v / 0x400, 10);
    Gic.Powers();
    And(v / 0x400, 0x3ff)
  }

  /** A saved list register that shows interrupt j (< 32) as pending, as the pending-status read counts it. */
  predicate ShowsPending(v: u32, j: nat) {
    v != 0 && j < 32 && LrVid(v) == j && LrState(v) == 1
  }

  /** One step of vgic_get_sgi_ppi_pending_status: or in the bit of list register k when it shows a pending SGI/PPI. */
  function StatusStep(acc: u32, v: u32): (r: u32)
    ensures forall j: nat | j < 32 :: Bit(r, j) <==> Bit(acc, j) || ShowsPending(v, j)
  {
    if v != 0 && LrVid(v) < 32 && LrState(v) == 1 then
      var b := LrVid(v);
      Pow2Below32(b);
      Gic.Powers();
      OrBelow(acc, BitUtils.Pow2(b), 32);
      assert forall j: nat | j < 32 :: Bit(Or(acc, BitUtils.Pow2(b)), j) <==> Bit(acc, j) || ShowsPending(v, j) by {
        forall j: nat | j < 32
          ensures Bit(Or(acc, BitUtils.Pow2(b)), j) <==> Bit(acc, j) || ShowsPending(v, j)
        {
          OrBit(acc, BitUtils.Pow2(b), j);
          PowBit(b, j);
        }
      }
      Or(acc, BitUtils.Pow2(b))
    else acc
  }

  function StatusFrom(acc: u32, lrs: seq<u32>, k: nat): (r: u32)
    requires k <= |lrs|
    decreases |lrs| - k
  {
    if k == |lrs| then acc else StatusFrom(StatusStep(acc, lrs[k]), lrs, k + 1)
  }

  predicate ShownFrom(lrs: seq<u32>, k: nat, j: nat) {
    exists m | k <= m < |lrs| :: ShowsPending(lrs[m], j)
  }

  lemma {:induction false} StatusFromBits(acc: u32, lrs: seq<u32>, k: nat, j: nat)
    requires k <= |lrs| && j < 32
    decreases |lrs| - k
    ensures Bit(StatusFrom(acc, lrs, k), j) <==> Bit(acc, j) || ShownFrom(lrs, k, j)
  {
    if k < |lrs| {
      var acc' := StatusStep(acc, lrs[k]);
      StatusFromBits(acc', lrs, k + 1, j);
      if ShowsPending(lrs[k], j) {
        assert ShownFrom(lrs, k, j);
      }
      if ShownFrom(lrs, k, j) && !ShowsPending(lrs[k], j) {
        var m :| k <= m < |lrs| && ShowsPending(lrs[m], j);
        assert ShownFrom(lrs, k + 1, j);
      }
      if ShownFrom(lrs, k + 1, j) {
        var m :| k + 1 <= m < |lrs| && ShowsPending(lrs[m], j);
        assert ShownFrom(lrs, k, j);
      }
    }
  }

  /**
   vgic_get_sgi_ppi_pending_status: the software pending bits of ids 0..31
   or'ed with the ids shown pending by non-empty list registers.
   */
  function PendingStatus(c: Core): (r: u32)
    requires CoreWf(c)
  {
    StatusFrom(c.pending[0], c.lrs, 0)
  }

  /** Bit j of the pending status is set exactly when j is pending in software or shown pending by a list register. */
  lemma PendingStatusBits(c: Core, j: nat)
    requires CoreWf(c) && j < 32
    ensures Bit(PendingStatus(c), j) <==> IsPending(c, j) || exists m | 0 <= m < LrCount :: ShowsPending(c.lrs[m], j)
  {
    StatusFromBits(c.pending[0], c.lrs, 0, j);
  }

  /** An empty list register (value 0) never contributes, whatever its fields would read as. */
  lemma EmptyLrIgnored(j: nat)
    ensures !ShowsPending(0, j)
  {}

  // ---------------------------------------------------------------------
  // Moving pending interrupts into list registers (vgic_try_inject_pending)
  // ---------------------------------------------------------------------

  /** List register k is in use (its ELSR bit clear) and holds interrupt j. */
  predicate HeldIn(c: Core, k: nat, j: nat)
    requires CoreWf(c) && k < LrCount
  {
    !Bit(c.elsr, k) && LrVid(c.lrs[k]) == j
  }

  /** Interrupt j is not lost: still pending in software, or held by an in-use list register. */
  predicate Delivered(c: Core, j: nat)
    requires CoreWf(c) && j < SpiIdMax
  {
    IsPending(c, j) || exists k | 0 <= k < LrCount :: HeldIn(c, k, j)
  }

  /** Every interrupt delivered in `c0` is still delivered in `c`. */
  predicate Kept(c0: Core, c: Core)
    requires CoreWf(c0) && CoreWf(c)
  {
    forall j | 0 <= j < SpiIdMax :: Delivered(c0, j) ==> Delivered(c, j)
  }

  /** The word written for interrupt i: an SGI as a software SGI from this vCPU, anything else as a hardware interrupt with the same physical id. */
  function LrFor(c: Core, i: nat): (v: u32)
    requires i < SpiIdMax
    ensures LrVid(v) == i
  {
    ModSmall(i, 0x200);
    var v := if i < 16 then Gic.MakeSgi(i, c.vcpu, 0, false) else Gic.MakeHw(i, i, 0, false);
    v
  }

  /**
   List register m is the one the search picks, scanning from `from`: its
   ELSR bit (in the ELSR value the search looks at) is set, and every earlier
   one is busy and does not already carry i in its duplicate-check field.
   */
  predicate Claimable(elsr: u32, lrs: seq<u32>, i: nat, from: nat, m: nat)
    requires |lrs| == LrCount
  {
    from <= m < LrCount && Bit(elsr, m)
    && forall m' | from <= m' < m :: !Bit(elsr, m') && LrPid(lrs[m']) != i
  }

  /**
   The inner search of vgic_try_inject_pending: the first list register
   whose ELSR bit is set, unless a busy one before it already carries i;
   no list register when there is none or a duplicate is found first.
   */
  function FreeLr(elsr: u32, lrs: seq<u32>, i: nat, from: nat): (r: Option<nat>)
    requires |lrs| == LrCount && from <= LrCount
    decreases LrCount - from
    ensures forall m | 0 <= m < LrCount :: r == Some(m) <==> Claimable(elsr, lrs, i, from, m)
    ensures r.Some? ==> r.value < LrCount
  {
    if from == LrCount then None
    else if Bit(elsr, from) then Some(from)
    else if LrPid(lrs[from]) == i then None
    else FreeLr(elsr, lrs, i, from + 1)
  }

  /**
   Writing interrupt i into list register k: the word goes in, k's ELSR
   bit is cleared (`&= ~(1 << k)`), and i stops being pending.
   */
  function Place(c: Core, k: nat, i: nat): (r: Core)
    requires CoreWf(c) && k < LrCount && i < SpiIdMax
    ensures CoreWf(r) && HeldIn(r, k, i) && !IsPending(r, i)
    ensures forall m | 0 <= m < LrCount && m != k :: r.lrs[m] == c.lrs[m] && (Bit(r.elsr, m) <==> Bit(c.elsr, m))
    ensures forall j | 0 <= j < SpiIdMax && j != i :: IsPending(r, j) == IsPending(c, j)
    ensures r.vcpu == c.vcpu && r.isenabler == c.isenabler && r.priority == c.priority
  {
    var e := AndNot(c.elsr, BitUtils.Pow2(k));
    AndNotBelow(c.elsr, BitUtils.Pow2(k));
    AndNotBit(c.elsr, BitUtils.Pow2(k), k);
    PowBit(k, k);
    assert forall m | 0 <= m < LrCount && m != k :: Bit(e, m) <==> Bit(c.elsr, m) by {
      forall m | 0 <= m < LrCount && m != k
        ensures Bit(e, m) <==> Bit(c.elsr, m)
      {
        AndNotBit(c.elsr, BitUtils.Pow2(k), m);
        PowBit(k, m);
      }
    }
    ClearPending(c.(lrs := c.lrs[k := LrFor(c, i)], elsr := e), i)
  }

  /** SPI i is enabled in the distributor: bit i % 32 of `gicd_scenabler[i / 32 - 1]`. */
  predicate SpiEnabled(d: Dist, i: nat)
    requires DistWf(d) && FirstSpi <= i < SpiIdMax
  {
    Bit(d.scenabler[i / 32 - 1], i % 32)
  }

  /** The loop moves interrupt i: it is pending and, for an SPI, enabled. */
  predicate Eligible(c: Core, d: Dist, i: nat)
    requires CoreWf(c) && DistWf(d) && i < SpiIdMax
  {
    IsPending(c, i) && (i < FirstSpi || SpiEnabled(d, i))
  }

  /** The ELSR value the search consults: a copy taken before the loops, or the live one. */
  function View(c: Core, snapshot: Option<u32>): u32 {
    if snapshot.Some? then snapshot.value else c.elsr
  }

  /**
   One of the two loops of vgic_try_inject_pending over ids i..hi-1: each
   eligible interrupt goes into the list register the search picks; when
   the search finds none the loop stops.
   */
  function Sweep(c: Core, d: Dist, i: nat, hi: nat, snapshot: Option<u32>): (r: Core)
    requires CoreWf(c) && DistWf(d) && i <= hi <= SpiIdMax
    decreases hi - i
    ensures CoreWf(r) && r.vcpu == c.vcpu && r.isenabler == c.isenabler && r.priority == c.priority
  {
    if i == hi then c
    else if !Eligible(c, d, i) then Sweep(c, d, i + 1, hi, snapshot)
    else match FreeLr(View(c, snapshot), c.lrs, i, 0)
      case None => c
      case Some(k) => Sweep(Place(c, k, i), d, i + 1, hi, snapshot)
  }

  /**
   vgic_try_inject_pending as written: `elsr` is copied from saved_elsr0
   once, before both loops, and never refreshed, so every search sees the
   list registers that were free on entry. The SGI/PPI loop's `break`
   leaves only that loop; the SPI loop still runs.
   */
  function TryInjectAsWritten(c: Core, d: Dist): (r: Core)
    requires CoreWf(c) && DistWf(d)
    ensures CoreWf(r) && r.vcpu == c.vcpu
  {
    var snapshot := Some(c.elsr);
    Sweep(Sweep(c, d, 0, FirstSpi, snapshot), d, FirstSpi, SpiIdMax, snapshot)
  }

  /** vgic_try_inject_pending with each search reading the live saved_elsr0. */
  function TryInject(c: Core, d: Dist): (r: Core)
    requires CoreWf(c) && DistWf(d)
    ensures CoreWf(r) && r.vcpu == c.vcpu && r.isenabler == c.isenabler && r.priority == c.priority
    ensures Kept(c, r)
  {
    SweepKeeps(c, d, 0, FirstSpi);
    var c1 := Sweep(c, d, 0, FirstSpi, None);
    SweepKeeps(c1, d, FirstSpi, SpiIdMax);
    Sweep(c1, d, FirstSpi, SpiIdMax, None)
  }

  /** Placing i into a list register that is free in the live ELSR keeps everything delivered, and delivers i. */
  lemma PlaceKeeps(c: Core, k: nat, i: nat)
    requires CoreWf(c) && k < LrCount && i < SpiIdMax && Bit(c.elsr, k)
    ensures Kept(c, Place(c, k, i)) && Delivered(Place(c, k, i), i)
  {
    var r := Place(c, k, i);
    forall j | 0 <= j < SpiIdMax && Delivered(c, j)
      ensures Delivered(r, j)
    {
      if j == i {
        assert HeldIn(r, k, i);
      } else if !IsPending(c, j) {
        var m :| 0 <= m < LrCount && HeldIn(c, m, j);
        assert m != k;
        assert HeldIn(r, m, j);
      }
    }
    assert HeldIn(r, k, i);
  }

  lemma {:induction false} SweepKeeps(c: Core, d: Dist, i: nat, hi: nat)
    requires CoreWf(c) && DistWf(d) && i <= hi <= SpiIdMax
    decreases hi - i
    ensures Kept(c, Sweep(c, d, i, hi, None))
  {
    if i < hi && Eligible(c, d, i) {
      var f := FreeLr(c.elsr, c.lrs, i, 0);
      if f.Some? {
        var k := f.value;
        assert Claimable(c.elsr, c.lrs, i, 0, k);
        PlaceKeeps(c, k, i);
        SweepKeeps(Place(c, k, i), d, i + 1, hi);
      }
    } else if i < hi {
      SweepKeeps(c, d, i + 1, hi);
    }
  }

  /** With nothing pending from i on, a loop changes nothing. */
  lemma {:induction false} SweepIdle(c: Core, d: Dist, i: nat, hi: nat, snapshot: Option<u32>)
    requires CoreWf(c) && DistWf(d) && i <= hi <= SpiIdMax
    requires forall j | i <= j < hi :: !IsPending(c, j)
    decreases hi - i
    ensures Sweep(c, d, i, hi, snapshot) == c
  {
    if i < hi {
      SweepIdle(c, d, i + 1, hi, snapshot);
    }
  }

  /** Neither loop ever clears the pending bit of a disabled SPI: it stays pending. */
  lemma {:induction false} SweepKeepsDisabled(c: Core, d: Dist, i: nat, hi: nat, snapshot: Option<u32>, j: nat)
    requires CoreWf(c) && DistWf(d) && i <= hi <= SpiIdMax
    requires FirstSpi <= j < SpiIdMax && IsPending(c, j) && !SpiEnabled(d, j)
    decreases hi - i
    ensures IsPending(Sweep(c, d, i, hi, snapshot), j)
  {
    if i < hi && Eligible(c, d, i) {
      var f := FreeLr(View(c, snapshot), c.lrs, i, 0);
      if f.Some? {
        SweepKeepsDisabled(Place(c, f.value, i), d, i + 1, hi, snapshot, j);
      }
    } else if i < hi {
      SweepKeepsDisabled(c, d, i + 1, hi, snapshot, j);
    }
  }

  /** A disabled SPI stays pending across vgic_try_inject_pending, in either reading. */
  lemma DisabledSpiStaysPending(c: Core, d: Dist, j: nat)
    requires CoreWf(c) && DistWf(d) && FirstSpi <= j < SpiIdMax && IsPending(c, j) && !SpiEnabled(d, j)
    ensures IsPending(TryInject(c, d), j) && IsPending(TryInjectAsWritten(c, d), j)
  {
    SweepKeepsDisabled(c, d, 0, FirstSpi, None, j);
    SweepKeepsDisabled(Sweep(c, d, 0, FirstSpi, None), d, FirstSpi, SpiIdMax, None, j);
    var s := Some(c.elsr);
    SweepKeepsDisabled(c, d, 0, FirstSpi, s, j);
    SweepKeepsDisabled(Sweep(c, d, 0, FirstSpi, s), d, FirstSpi, SpiIdMax, s, j);
  }

  /** Four free list registers, SGIs 0 and 1 pending. */
  function TwoSgis(): (c: Core)
    ensures CoreWf(c) && c.elsr == 0xF
  {
    Core(0, 0xF, [0, 0, 0, 0], [3] + seq(15, _ => 0), 0, seq(32, _ => 0))
  }

  lemma TwoSgisPending()
    ensures IsPending(TwoSgis(), 0) && IsPending(TwoSgis(), 1)
    ensures forall j | 2 <= j < SpiIdMax :: !IsPending(TwoSgis(), j)
  {
    var c := TwoSgis();
    assert Bit(3, 1) == Bit(1, 0);
    forall j | 2 <= j < SpiIdMax
      ensures !IsPending(c, j)
    {
      if j < 32 {
        assert Bit(3, j) == Bit(1, j - 1) == Bit(0, j - 2);
        ZeroBit(j - 2);
      } else {
        ZeroBit(j % 32);
      }
    }
  }

  lemma LowFourFree(k: nat)
    requires k < LrCount
    ensures Bit(0xF, k)
  {
    assert Bit(0xF, 3) == Bit(7, 2) == Bit(3, 1) == Bit(1, 0);
  }

  /** Both SGIs go to list register 0 when every search sees ELSR 0xF. */
  function BothInLr0(): (c: Core)
    ensures CoreWf(c)
  {
    Place(Place(TwoSgis(), 0, 0), 0, 1)
  }

  lemma StaleFirst(d: Dist)
    requires DistWf(d)
    ensures Sweep(TwoSgis(), d, 0, FirstSpi, Some(0xF)) == Sweep(Place(TwoSgis(), 0, 0), d, 1, FirstSpi, Some(0xF))
  {
    var c := TwoSgis();
    TwoSgisPending();
    LowFourFree(0);
    assert Claimable(0xF, c.lrs, 0, 0, 0);
  }

  lemma StaleSecond(d: Dist)
    requires DistWf(d)
    ensures Sweep(Place(TwoSgis(), 0, 0), d, 1, FirstSpi, Some(0xF)) == Sweep(BothInLr0(), d, 2, FirstSpi, Some(0xF))
  {
    var c1 := Place(TwoSgis(), 0, 0);
    TwoSgisPending();
    LowFourFree(0);
    assert IsPending(c1, 1);
    assert Claimable(0xF, c1.lrs, 1, 0, 0);
  }

  lemma StaleSweep(d: Dist)
    requires DistWf(d)
    ensures Sweep(TwoSgis(), d, 0, FirstSpi, Some(0xF)) == BothInLr0()
    ensures forall j | 2 <= j < SpiIdMax :: !IsPending(BothInLr0(), j)
  {
    TwoSgisPending();
    StaleFirst(d);
    StaleSecond(d);
    assert forall j | 2 <= j < SpiIdMax :: !IsPending(BothInLr0(), j);
    SweepIdle(BothInLr0(), d, 2, FirstSpi, Some(0xF));
  }

  lemma SgiZeroGone()
    ensures !Delivered(BothInLr0(), 0)
  {
    var c := TwoSgis();
    var c2 := BothInLr0();
    assert !IsPending(c2, 0);
    forall k | 0 <= k < LrCount
      ensures !HeldIn(c2, k, 0)
    {
      if k != 0 {
        LowFourFree(k);
      }
    }
  }

  /**
   The stale ELSR copy loses an interrupt: with SGIs 0 and 1 pending and
   every list register free, both are written into list register 0, so
   SGI 0 is neither pending nor in any list register afterwards.
   */
  lemma StaleElsrLosesSgi(d: Dist)
    requires DistWf(d)
    ensures IsPending(TwoSgis(), 0) && !Delivered(TryInjectAsWritten(TwoSgis(), d), 0)
  {
    TwoSgisPending();
    StaleSweep(d);
    SweepIdle(BothInLr0(), d, FirstSpi, SpiIdMax, Some(0xF));
    SgiZeroGone();
  }

  // ---------------------------------------------------------------------
  // Injection entry points (vgic.c)
  // ---------------------------------------------------------------------

  /** Mark pending, then, for the running vCPU, move pending interrupts into list registers. */
  function Pend(c: Core, d: Dist, id: nat, running: bool): (r: Core)
    requires CoreWf(c) && DistWf(d) && id < SpiIdMax
    ensures CoreWf(r) && Delivered(r, id) && Kept(c, r) && r.isenabler == c.isenabler && r.vcpu == c.vcpu
    ensures !running ==> r.lrs == c.lrs && r.elsr == c.elsr
  {
    var p := SetPending(c, id);
    assert Kept(c, p) by {
      forall j | 0 <= j < SpiIdMax && Delivered(c, j)
        ensures Delivered(p, j)
      {
        if j != id && !IsPending(c, j) {
          var m :| 0 <= m < LrCount && HeldIn(c, m, j);
          assert HeldIn(p, m, j);
        }
      }
    }
    if running then TryInject(p, d) else p
  }

  /**
   vgic_inject_sgi: ids outside 0..15 are refused; an SGI already pending
   is not injected again; a disabled SGI is still injected.
   */
  function InjectSgi(c: Core, d: Dist, id: int, running: bool): (r: Core)
    requires CoreWf(c) && DistWf(d)
    ensures CoreWf(r)
    ensures !(0 <= id <= 15) ==> r == c
    ensures 0 <= id <= 15 ==> Delivered(r, id) && Kept(c, r)
    ensures 0 <= id <= 15 && IsPending(c, id) ==> r == c
    ensures !running ==> r.lrs == c.lrs && r.elsr == c.elsr
  {
    if id < 0 || id > 15 then c
    else if IsPending(c, id) then c
    else Pend(c, d, id, running)
  }

  /**
   vgic_inject_ppi: ids outside 16..31 are refused; an already pending PPI
   is not injected again; a PPI whose bit in sgi_ppi_isenabler is clear is
   dropped.
   */
  function InjectPpi(c: Core, d: Dist, id: int, running: bool): (r: Core)
    requires CoreWf(c) && DistWf(d)
    ensures CoreWf(r)
    ensures !(16 <= id <= 31) ==> r == c
    ensures 16 <= id <= 31 && !IsPending(c, id) && !Bit(c.isenabler, id) ==> r == c
    ensures 16 <= id <= 31 && Bit(c.isenabler, id) ==> Delivered(r, id) && Kept(c, r)
    ensures 16 <= id <= 31 && IsPending(c, id) ==> r == c
  {
    if id < 16 || id > 31 then c
    else if IsPending(c, id) then c
    else if And(c.isenabler, BitUtils.Pow2(id)) == 0 then
      TestBit(c.isenabler, id);
      c
    else
      TestBit(c.isenabler, id);
      Pend(c, d, id, running)
  }

  /**
   vgic_inject_spi as written: the range check admits ids up to 1019, but
   the enable word `gicd_scenabler[id / 32 - 1]` and the pending word
   `irq_pending_mask[id / 32]` exist only for ids below 512. An access past
   either array is undefined behaviour, modelled as no result.
   */
  function InjectSpiAsWritten(c: Core, d: Dist, id: int, running: bool): (r: Option<Core>)
    requires CoreWf(c) && DistWf(d)
    ensures !(32 <= id <= 1019) ==> r == Some(c)
    ensures r.Some? ==> CoreWf(r.value)
    ensures 32 <= id < SpiIdMax ==> r.Some? && Delivered(r.value, id)
  {
    if id < 32 || id > 1019 then Some(c)
    else if id / 32 - 1 >= MaskWords || id / 32 >= MaskWords then None
    else if IsPending(c, id) then Some(c)
    else Some(Pend(c, d, id, running))
  }

  /** The range check lets SPI 600 through, and its bitmap word, 18, is past the 16 that exist. */
  lemma SpiPastBitmapAccepted(c: Core, d: Dist, running: bool)
    requires CoreWf(c) && DistWf(d)
    ensures 32 <= 600 <= 1019 && 600 / 32 >= MaskWords
    ensures InjectSpiAsWritten(c, d, 600, running) == None
  {}

  /**
   vgic_inject_spi with the range the bitmaps support, 32..511: an SPI
   already pending is not injected again; a disabled SPI is only logged
   and is still marked pending.
   */
  function InjectSpi(c: Core, d: Dist, id: int, running: bool): (r: Core)
    requires CoreWf(c) && DistWf(d)
    ensures CoreWf(r)
    ensures !(FirstSpi <= id < SpiIdMax) ==> r == c
    ensures FirstSpi <= id < SpiIdMax ==> Delivered(r, id) && Kept(c, r)
    ensures FirstSpi <= id < SpiIdMax && IsPending(c, id) ==> r == c
  {
    if id < FirstSpi || id >= SpiIdMax then c
    else if IsPending(c, id) then c
    else Pend(c, d, id, running)
  }
}
