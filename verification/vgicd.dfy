/**
 The emulated GICv2 distributor (vmm/vdev/vgicd.c): a guest access to the
 distributor page traps to the hypervisor, which decodes the offset, moves
 the value between the guest register and the virtual distributor and
 per-vCPU state of module Vgic, and for GICD_SGIR injects software
 interrupts into the VM's vCPUs.
 */
module Vgicd {
  import opened CTypes
  import opened IntBits
  import opened Util
  import opened Vgic
  import opened VgicdRegs
  import BitUtils

  /** GICD_CTLR, GICD_TYPER, ... as offsets from the distributor base (include/gic.h). */
  const CtlrOff := 0x000
  const TyperOff := 0x004
  const IidrOff := 0x008
  const IsEnablerOff := 0x100
  const IcEnablerOff := 0x180
  const IsPenderOff := 0x200
  const IcPenderOff := 0x280
  const IsActiverOff := 0x300
  const IPriorityOff := 0x400
  const ITargetsOff := 0x800
  const ICfgOff := 0xC00
  const SgirOff := 0xF00
  const CPendSgiOff := 0xF10
  const SPendSgiOff := 0xF20
  /** The trapped window is GICD_BASE_ADDR .. GICD_BASE_ADDR + 0x10000. */
  const WindowSize := 0x1_0000

  // ---------------------------------------------------------------------
  // Offset decoding
  // ---------------------------------------------------------------------

  /** The handler an offset selects. Indices are those the handlers compute from the offset. */
  datatype Reg =
    | Ctlr | Typer | Iidr
    | IsEnabler0 | IsEnablerSpi(idx: nat) | IcEnabler0 | IcEnablerSpi(idx: nat)
    | IsPender0 | IcPender0
    | PriSgiPpi(offset: nat) | PriSpi(offset: nat)
    | CfgSgiPpi(word: nat) | CfgSpi(word: nat)
    | TargetSgiPpi | TargetSpi(word: nat)
    | Sgir
    | Unimplemented
    | Unmapped

  /** The register ranges every handler relies on to stay inside its array. */
  predicate InRange(r: Reg) {
    match r
    case IsEnablerSpi(idx) => 1 <= idx < 32
    case IcEnablerSpi(idx) => 1 <= idx < 32
    case PriSgiPpi(o) => o < FirstSpi
    case PriSpi(o) => FirstSpi <= o < SpiIdMax
    case CfgSgiPpi(w) => w < FirstSpi / 16
    case CfgSpi(w) => FirstSpi / 16 <= w < SpiIdMax / 16
    case TargetSpi(w) => FirstSpi / 4 <= w < SpiIdMax / 4
    case _ => true
  }

  /** handle_gicd_write_operations: the chain of offset tests for a write. */
  function DecodeWrite(off: nat): (r: Reg)
    ensures InRange(r)
    ensures r != Typer && r != Iidr && !r.CfgSgiPpi? && r != TargetSgiPpi
  {
    if off == CtlrOff then Ctlr
    else if off == IsEnablerOff then IsEnabler0
    else if IsEnablerOff + 4 <= off < IcEnablerOff then IsEnablerSpi((off - IsEnablerOff) / 4)
    else if off == IcEnablerOff then IcEnabler0
    else if IcEnablerOff + 4 <= off < IsPenderOff then IcEnablerSpi((off - IcEnablerOff) / 4)
    else if off == IsPenderOff then IsPender0
    else if off == IcPenderOff then IcPender0
    else if IsPenderOff + 4 <= off < IcPenderOff then Unimplemented
    else if IcPenderOff + 4 <= off < IsActiverOff then Unimplemented
    else if IPriorityOff <= off < IPriorityOff + FirstSpi then PriSgiPpi(off - IPriorityOff)
    else if IPriorityOff + FirstSpi <= off < IPriorityOff + SpiIdMax then PriSpi(off - IPriorityOff)
    else if ICfgOff + FirstSpi / 4 <= off < ICfgOff + SpiIdMax / 4 then CfgSpi((off - ICfgOff) / 4)
    else if ITargetsOff + FirstSpi <= off < ITargetsOff + SpiIdMax then TargetSpi((off - ITargetsOff) / 4)
    else if off == SgirOff then Sgir
    else if SPendSgiOff <= off < SPendSgiOff + 16 then Unimplemented
    else if CPendSgiOff <= off < CPendSgiOff + 16 then Unimplemented
    else Unmapped
  }

  /** handle_gicd_read_operations: the chain of offset tests for a read. */
  function DecodeRead(off: nat): (r: Reg)
    ensures InRange(r)
    ensures r != Sgir
  {
    if off == CtlrOff then Ctlr
    else if off == TyperOff then Typer
    else if off == IidrOff then Iidr
    else if off == IsEnablerOff then IsEnabler0
    else if IsEnablerOff + 4 <= off < IcEnablerOff then IsEnablerSpi((off - IsEnablerOff) / 4)
    else if off == IcEnablerOff then IcEnabler0
    else if IcEnablerOff + 4 <= off < IsPenderOff then IcEnablerSpi((off - IcEnablerOff) / 4)
    else if off == IsPenderOff then IsPender0
    else if off == IcPenderOff then IcPender0
    else if IsPenderOff + 4 <= off < IcPenderOff then Unimplemented
    else if IcPenderOff + 4 <= off < IPriorityOff then Unimplemented
    else if IPriorityOff <= off < IPriorityOff + FirstSpi then PriSgiPpi(off - IPriorityOff)
    else if IPriorityOff + FirstSpi <= off < IPriorityOff + SpiIdMax then PriSpi(off - IPriorityOff)
    else if ICfgOff <= off < ICfgOff + FirstSpi / 4 then CfgSgiPpi((off - ICfgOff) / 4)
    else if ICfgOff + FirstSpi / 4 <= off < ICfgOff + SpiIdMax / 4 then CfgSpi((off - ICfgOff) / 4)
    else if ITargetsOff <= off < ITargetsOff + FirstSpi then TargetSgiPpi
    else if ITargetsOff + FirstSpi <= off < ITargetsOff + SpiIdMax then TargetSpi((off - ITargetsOff) / 4)
    else Unmapped
  }

  /** A register both directions implement is found at the same offsets, with the same index, by either decoder. */
  lemma DecodersAgree(off: nat)
    requires DecodeWrite(off) !in {Sgir, Unimplemented, Unmapped}
    ensures DecodeRead(off) == DecodeWrite(off)
  {}

  // ---------------------------------------------------------------------
  // Guest register transfer (vgicd_read, parse_reg_access)
  // ---------------------------------------------------------------------

  /** trap_frame_t: x0..x30, followed in memory by the saved stack pointer. */
  datatype Frame = Frame(r: seq<u64>, usp: u64)

  predicate FrameWf(f: Frame) {
    |f.r| == 31
  }

  /**
   parse_reg_access as written: `el2_ctx->r[reg]` truncated to 32 bits.
   The register field has five bits, so 31, which a store names for WZR,
   reaches one past the 31-entry array: the usp field that follows it.
   */
  function SourceValueAsWritten(f: Frame, rt: nat): (v: u32)
    requires FrameWf(f) && rt < 32
    ensures rt < 31 ==> v == f.r[rt] % Word32
  {
    (if rt < 31 then f.r[rt] else f.usp) % Word32
  }

  /** The value a trapped store carries: register 31 is the zero register. */
  function SourceValue(f: Frame, rt: nat): (v: u32)
    requires FrameWf(f) && rt < 32
    ensures rt == 31 ==> v == 0
    ensures rt < 31 ==> v == SourceValueAsWritten(f, rt)
  {
    if rt == 31 then 0 else f.r[rt] % Word32
  }

  /** A store of WZR to GICD_CTLR hands the handler the saved stack pointer instead of zero. */
  lemma ZeroRegisterReadsStackPointer()
    ensures SourceValueAsWritten(Frame(seq(31, _ => 0), 0x8_0000), 31) == 0x8_0000
    ensures SourceValue(Frame(seq(31, _ => 0), 0x8_0000), 31) == 0
  {}

  /**
   vgicd_read as written: unless the target is x30, the 32-bit result is
   stored through a `uint32_t *` onto the low half of the 64-bit register
   slot, so the upper half keeps its old contents; register 31 again lands
   on usp.
   */
  function LoadIntoAsWritten(f: Frame, rt: nat, dat: u32): (g: Frame)
    requires FrameWf(f) && rt < 32
    ensures FrameWf(g)
  {
    if rt == 30 then f
    else if rt == 31 then f.(usp := (f.usp / Word32) * Word32 + dat)
    else f.(r := f.r[rt := (f.r[rt] / Word32) * Word32 + dat])
  }

  /**
   A 32-bit load as the architecture defines it: the value zero-extended
   into the register; nothing for the zero register. The x30 exclusion of
   the source is kept.
   */
  function LoadInto(f: Frame, rt: nat, dat: u32): (g: Frame)
    requires FrameWf(f) && rt < 32
    ensures FrameWf(g) && g.usp == f.usp
    ensures forall k | 0 <= k < 31 && k != rt :: g.r[k] == f.r[k]
    ensures rt < 30 ==> g.r[rt] == dat
    ensures rt >= 30 ==> g == f
  {
    if rt >= 30 then f else f.(r := f.r[rt := dat])
  }

  /** A register loaded with a 32-bit value and then stored back gives that value. */
  lemma LoadThenStore(f: Frame, rt: nat, dat: u32)
    requires FrameWf(f) && rt < 30
    ensures SourceValue(LoadInto(f, rt, dat), rt) == dat
  {}

  /** Reading GICD_CTLR (value 1) into x0 that held 0xFFFFFFFF00000000 leaves the high half set. */
  lemma LoadKeepsUpperHalf()
    ensures LoadIntoAsWritten(Frame([0xFFFF_FFFF_0000_0000] + seq(30, _ => 0), 0), 0, 1).r[0] == 0xFFFF_FFFF_0000_0001
    ensures LoadInto(Frame([0xFFFF_FFFF_0000_0000] + seq(30, _ => 0), 0), 0, 1).r[0] == 1
  {}

  /** A read into the zero register overwrites the saved stack pointer. */
  lemma LoadIntoZeroRegisterClobbersUsp()
    ensures LoadIntoAsWritten(Frame(seq(31, _ => 0), 0x8_0000), 31, 0).usp == 0
    ensures LoadInto(Frame(seq(31, _ => 0), 0x8_0000), 31, 0).usp == 0x8_0000
  {
    DivOf(0x8_0000, Word32, 0, 0x8_0000);
  }

  /** vgicd_write: the 32-bit register cell receives the low half of the source register, except from x30. */
  function RawWrite(cell: u32, f: Frame, rt: nat): (c: u32)
    requires FrameWf(f) && rt < 32
    ensures rt == 30 ==> c == cell
    ensures rt < 30 ==> c == SourceValue(f, rt)
  {
    if rt == 30 then cell else SourceValueAsWritten(f, rt)
  }

  /** `1 << (size & 3)`: the access length in bytes. */
  function AccessLen(size: nat): (n: nat)
    ensures n == 1 || n == 2 || n == 4 || n == 8
  {
    VgicdRegs.Powers();
    LowMask(size, 2);
    var s := And(size, 3);
    assert BitUtils.Pow2(1) == 2 && BitUtils.Pow2(3) == 8;
    BitUtils.Pow2(s)
  }

  // ---------------------------------------------------------------------
  // SGI/PPI enables (GICD_ISENABLER0 / GICD_ICENABLER0)
  // ---------------------------------------------------------------------

  /** GICD_ISENABLER0 write, write-one-to-set: `sgi_ppi_isenabler |= value`. */
  function EnableSgiPpi(c: Core, v: u32): (r: Core)
    ensures forall j: nat :: Bit(r.isenabler, j) <==> Bit(c.isenabler, j) || Bit(v, j)
    ensures r == c.(isenabler := r.isenabler)
  {
    Gic.Powers();
    OrBelow(c.isenabler, v, 32);
    assert forall j: nat :: Bit(Or(c.isenabler, v), j) <==> Bit(c.isenabler, j) || Bit(v, j) by {
      forall j: nat
        ensures Bit(Or(c.isenabler, v), j) <==> Bit(c.isenabler, j) || Bit(v, j)
      {
        OrBit(c.isenabler, v, j);
      }
    }
    c.(isenabler := Or(c.isenabler, v))
  }

  /** GICD_ICENABLER0 write, write-one-to-clear: `sgi_ppi_isenabler &= ~value`. */
  function DisableSgiPpi(c: Core, v: u32): (r: Core)
    ensures forall j: nat :: Bit(r.isenabler, j) <==> Bit(c.isenabler, j) && !Bit(v, j)
    ensures r == c.(isenabler := r.isenabler)
  {
    AndNotBelow(c.isenabler, v);
    assert forall j: nat :: Bit(AndNot(c.isenabler, v), j) <==> Bit(c.isenabler, j) && !Bit(v, j) by {
      forall j: nat
        ensures Bit(AndNot(c.isenabler, v), j) <==> Bit(c.isenabler, j) && !Bit(v, j)
      {
        AndNotBit(c.isenabler, v, j);
      }
    }
    c.(isenabler := AndNot(c.isenabler, v))
  }

  /** Enabling a PPI through GICD_ISENABLER0 lets a later injection of it through. */
  lemma EnabledPpiIsDelivered(c: Core, d: Dist, v: u32, id: int, running: bool)
    requires CoreWf(c) && DistWf(d) && 16 <= id <= 31 && Bit(v, id)
    ensures CoreWf(EnableSgiPpi(c, v))
    ensures Delivered(InjectPpi(EnableSgiPpi(c, v), d, id, running), id)
  {}

  /** Disabling a PPI that is not pending makes a later injection of it a no-op. */
  lemma DisabledPpiIsDropped(c: Core, d: Dist, v: u32, id: int, running: bool)
    requires CoreWf(c) && DistWf(d) && 16 <= id <= 31 && Bit(v, id) && !IsPending(c, id)
    ensures CoreWf(DisableSgiPpi(c, v))
    ensures InjectPpi(DisableSgiPpi(c, v), d, id, running) == DisableSgiPpi(c, v)
  {}

  // ---------------------------------------------------------------------
  // SPI enables (GICD_ISENABLERn / GICD_ICENABLERn, n >= 1)
  // ---------------------------------------------------------------------

  /**
   GICD_ISENABLERn write as written: `gicd_scenabler[n - 1] |= value`. The
   decoder admits n up to 31 but there are 16 words: n of 17 and above
   writes past the array (no result).
   */
  function SetSpiEnableAsWritten(d: Dist, idx: nat, v: u32): (r: Option<Dist>)
    requires DistWf(d) && 1 <= idx < 32
    ensures idx <= MaskWords ==> r == Some(SetSpiEnable(d, idx, v))
  {
    if idx - 1 >= MaskWords then None else Some(SetSpiEnable(d, idx, v))
  }

  /** GICD_ISENABLERn write for the 16 words that exist; a write to a register past them is ignored. */
  function SetSpiEnable(d: Dist, idx: nat, v: u32): (r: Dist)
    requires DistWf(d) && 1 <= idx < 32
    ensures DistWf(r) && r == d.(scenabler := r.scenabler)
    ensures idx <= MaskWords ==> r.scenabler[idx - 1] == Or(d.scenabler[idx - 1], v)
    ensures forall k | 0 <= k < MaskWords && k != idx - 1 :: r.scenabler[k] == d.scenabler[k]
    ensures idx > MaskWords ==> r == d
  {
    if idx > MaskWords then d
    else
      Gic.Powers();
      OrBelow(d.scenabler[idx - 1], v, 32);
      d.(scenabler := d.scenabler[idx - 1 := Or(d.scenabler[idx - 1], v)])
  }

  /** GICD_ICENABLERn write: `gicd_scenabler[n - 1] &= ~value`, ignored past the 16 words. */
  function ClearSpiEnable(d: Dist, idx: nat, v: u32): (r: Dist)
    requires DistWf(d) && 1 <= idx < 32
    ensures DistWf(r) && r == d.(scenabler := r.scenabler)
    ensures idx <= MaskWords ==> r.scenabler[idx - 1] == AndNot(d.scenabler[idx - 1], v)
    ensures forall k | 0 <= k < MaskWords && k != idx - 1 :: r.scenabler[k] == d.scenabler[k]
    ensures idx > MaskWords ==> r == d
  {
    if idx > MaskWords then d
    else
      AndNotBelow(d.scenabler[idx - 1], v);
      d.(scenabler := d.scenabler[idx - 1 := AndNot(d.scenabler[idx - 1], v)])
  }

  /**
   GICD_ISENABLERn / GICD_ICENABLERn read as written: `gicd_scenabler[n]`,
   one word past the one the writes use; n of 16 and above reads past the
   array (no result).
   */
  function SpiEnableReadAsWritten(d: Dist, idx: nat): (r: Option<u32>)
    requires DistWf(d) && 1 <= idx < 32
    ensures idx < MaskWords ==> r == Some(d.scenabler[idx])
    ensures idx >= MaskWords ==> r.None?
  {
    if idx >= MaskWords then None else Some(d.scenabler[idx])
  }

  /** The SPI enable read from the word the writes update; registers past the 16 words read as zero. */
  function SpiEnableRead(d: Dist, idx: nat): (r: u32)
    requires DistWf(d) && 1 <= idx < 32
    ensures idx <= MaskWords ==> r == d.scenabler[idx - 1]
    ensures idx < MaskWords ==> forall b: nat | b < 32 :: Bit(r, b) <==> SpiEnabled(d, 32 * idx + b)
    ensures idx > MaskWords ==> r == 0
  {
    if idx > MaskWords then 0
    else if idx == MaskWords then d.scenabler[idx - 1]
    else
      assert forall b: nat {:trigger Bit(d.scenabler[idx - 1], b)} | b < 32 :: Bit(d.scenabler[idx - 1], b) <==> SpiEnabled(d, 32 * idx + b) by {
        forall b: nat {:trigger Bit(d.scenabler[idx - 1], b)} | b < 32
          ensures Bit(d.scenabler[idx - 1], b) <==> SpiEnabled(d, 32 * idx + b)
        {
          SpiBitIndex(idx, b);
        }
      }
      d.scenabler[idx - 1]
  }

  /** SPI 32n + b sits at bit b of enable word n - 1. */
  lemma SpiBitIndex(idx: nat, b: nat)
    requires 1 <= idx && b < 32
    ensures FirstSpi <= 32 * idx + b
    ensures (32 * idx + b) / 32 - 1 == idx - 1 && (32 * idx + b) % 32 == b
  {
    DivOf(32 * idx + b, 32, idx, b);
  }

  /** Setting bits through GICD_ISENABLERn and reading the register back shows them set, and nothing else changed. */
  lemma SpiEnableRoundTrip(d: Dist, idx: nat, v: u32)
    requires DistWf(d) && 1 <= idx <= MaskWords
    ensures SpiEnableRead(SetSpiEnable(d, idx, v), idx) == Or(SpiEnableRead(d, idx), v)
    ensures SpiEnableRead(ClearSpiEnable(d, idx, v), idx) == AndNot(SpiEnableRead(d, idx), v)
  {}

  /** After GICD_ISENABLERn with bit b set, SPI 32n + b counts as enabled for injection. */
  lemma SetSpiEnableEnables(d: Dist, idx: nat, v: u32, b: nat)
    requires DistWf(d) && 1 <= idx < MaskWords && b < 32 && Bit(v, b)
    ensures SpiEnabled(SetSpiEnable(d, idx, v), 32 * idx + b)
  {
    var r := SetSpiEnable(d, idx, v);
    OrBit(d.scenabler[idx - 1], v, b);
    SpiBitIndex(idx, b);
  }

  /** Setting SPI 32 (bit 0 of GICD_ISENABLER1) and reading GICD_ISENABLER1 back returns 0. */
  lemma EnableReadsWrongWord(d: Dist)
    requires DistWf(d) && d.scenabler == seq(MaskWords, _ => 0)
    ensures SpiEnableReadAsWritten(SetSpiEnable(d, 1, 1), 1) == Some(0)
    ensures SpiEnableRead(SetSpiEnable(d, 1, 1), 1) == 1
  {
    assert Or(0, 1) == 1;
  }

  /** Writes to GICD_ISENABLER17 and above, which the decoder accepts, fall past the enable words. */
  lemma HighEnableWritePastArray(d: Dist, v: u32)
    requires DistWf(d)
    ensures DecodeWrite(IsEnablerOff + 4 * 17) == IsEnablerSpi(17)
    ensures SetSpiEnableAsWritten(d, 17, v) == None
  {}

  /** x is base + b for a set bit b of v at or above `from`, and not the id 33 a disable skips. */
  predicate HwListed(base: nat, v: u32, from: nat, disabling: bool, x: nat) {
    exists b: nat :: from <= b < 32 && Bit(v, b) && x == base + b && !(disabling && x == 33)
  }

  lemma HwListedStep(base: nat, v: u32, from: nat, disabling: bool, x: nat)
    requires from < 32
    ensures HwListed(base, v, from, disabling, x) <==>
      (Bit(v, from) && x == base + from && !(disabling && x == 33)) || HwListed(base, v, from + 1, disabling, x)
  {
    if HwListed(base, v, from, disabling, x) {
      var b: nat :| from <= b < 32 && Bit(v, b) && x == base + b && !(disabling && x == 33);
      if b > from {
        assert from + 1 <= b < 32;
      }
    }
    if Bit(v, from) && x == base + from && !(disabling && x == 33) {
      assert from <= from < 32 && Bit(v, from) && x == base + from;
    }
  }

  /**
   The hardware interrupts gic_enable_int is called for after an enable
   register write: base + b for each set bit b, in order, skipping 33 when
   disabling.
   */
  function HwIds(base: nat, v: u32, from: nat, disabling: bool): (ids: seq<nat>)
    requires from <= 32
    decreases 32 - from
    ensures forall x :: x in ids <==> HwListed(base, v, from, disabling, x)
  {
    if from == 32 then []
    else
      TestBit(v, from);
      var rest := HwIds(base, v, from + 1, disabling);
      var here := And(v, BitUtils.Pow2(from)) != 0 && !(disabling && base + from == 33);
      assert forall x :: x in rest <==> HwListed(base, v, from + 1, disabling, x);
      assert forall x :: HwListed(base, v, from, disabling, x) <==> (here && x == base + from) || x in rest by {
        forall x
          ensures HwListed(base, v, from, disabling, x) <==> (here && x == base + from) || x in rest
        {
          HwListedStep(base, v, from, disabling, x);
        }
      }
      if here then [base + from] + rest else rest
  }

  /** Disabling through GICD_ICENABLER1 never disables hardware interrupt 33, the one the hypervisor relies on. */
  lemma DisableSkips33(v: u32)
    ensures 33 !in HwIds(32, v, 0, true)
    ensures Bit(v, 1) ==> 33 in HwIds(32, v, 0, false)
  {
    if Bit(v, 1) {
      assert 0 <= 1 < 32 && Bit(v, 1) && 33 == 32 + 1;
      assert HwListed(32, v, 0, false, 33);
    }
  }

  // ---------------------------------------------------------------------
  // SGI/PPI pending (GICD_ISPENDER0 / GICD_ICPENDER0)
  // ---------------------------------------------------------------------

  /** The ISPENDER0 loop from `bit` on: every set bit of v becomes pending. */
  function SetPendingFrom(c: Core, v: u32, bit: nat): (r: Core)
    requires CoreWf(c) && bit <= 32
    decreases 32 - bit
    ensures CoreWf(r) && r == c.(pending := r.pending)
    ensures forall j | 0 <= j < SpiIdMax :: IsPending(r, j) <==> IsPending(c, j) || (bit <= j < 32 && Bit(v, j))
  {
    if bit == 32 then c
    else
      TestBit(v, bit);
      var c1 := if And(v, BitUtils.Pow2(bit)) != 0 then SetPending(c, bit) else c;
      SetPendingFrom(c1, v, bit + 1)
  }

  /** GICD_ISPENDER0 write, write-one-to-set. */
  function SetPendingSgiPpi(c: Core, v: u32): (r: Core)
    requires CoreWf(c)
    ensures CoreWf(r) && r == c.(pending := r.pending)
    ensures forall j | 0 <= j < SpiIdMax :: IsPending(r, j) <==> IsPending(c, j) || (j < 32 && Bit(v, j))
  {
    SetPendingFrom(c, v, 0)
  }

  /** After GICD_ISPENDER0, a read of the pending status shows every bit written. */
  lemma SetPendingShows(c: Core, v: u32, j: nat)
    requires CoreWf(c) && j < 32 && Bit(v, j)
    ensures Bit(PendingStatus(SetPendingSgiPpi(c, v)), j)
  {
    PendingStatusBits(SetPendingSgiPpi(c, v), j);
  }

  /** List register m shows interrupt `bit` pending: its virtual id is `bit` and bit 28 (pending) is set. */
  predicate PendingIn(v: u32, bit: nat) {
    LrVid(v) == bit && Bit(v, 28)
  }

  /** The first list register from `from` on that holds `bit` with its pending bit set. */
  function FirstPendingLr(lrs: seq<u32>, bit: nat, from: nat): (r: Option<nat>)
    requires |lrs| == LrCount && from <= LrCount
    decreases LrCount - from
    ensures r.Some? ==> from <= r.value < LrCount && PendingIn(lrs[r.value], bit)
    ensures r.Some? ==> forall m | from <= m < r.value :: !PendingIn(lrs[m], bit)
    ensures r.None? ==> forall m | from <= m < LrCount :: !PendingIn(lrs[m], bit)
  {
    if from == LrCount then None
    else if PendingIn(lrs[from], bit) then Some(from)
    else FirstPendingLr(lrs, bit, from + 1)
  }

  /** Clearing the pending bit of a list register word, and what that leaves. */
  predicate Released(before: u32, after: u32) {
    Bit(before, 28) && after == AndNot(before, BitUtils.Pow2(28))
  }

  /** `saved_lr[m] &= ~(1 << 28); saved_elsr0 |= 1 << m`. */
  function ReleaseLr(c: Core, m: nat): (r: Core)
    requires CoreWf(c) && m < LrCount && Bit(c.lrs[m], 28)
    ensures CoreWf(r) && r.pending == c.pending && r.vcpu == c.vcpu && r.isenabler == c.isenabler && r.priority == c.priority
    ensures Released(c.lrs[m], r.lrs[m]) && !Bit(r.lrs[m], 28) && LrVid(r.lrs[m]) == LrVid(c.lrs[m]) && Bit(r.elsr, m)
    ensures forall k | 0 <= k < LrCount && k != m :: r.lrs[k] == c.lrs[k] && (Bit(r.elsr, k) <==> Bit(c.elsr, k))
  {
    var w := AndNot(c.lrs[m], BitUtils.Pow2(28));
    AndNotBelow(c.lrs[m], BitUtils.Pow2(28));
    AndNotBit(c.lrs[m], BitUtils.Pow2(28), 28);
    PowBit(28, 28);
    Gic.Powers();
    DivOf(0x1000_0000, 0x400, 0x4_0000, 0);
    AndNotLow(c.lrs[m], BitUtils.Pow2(28), 10);
    Pow2Below32(m);
    OrBelow(c.elsr, BitUtils.Pow2(m), 32);
    var e := Or(c.elsr, BitUtils.Pow2(m));
    OrBit(c.elsr, BitUtils.Pow2(m), m);
    PowBit(m, m);
    assert forall k | 0 <= k < LrCount && k != m :: Bit(e, k) <==> Bit(c.elsr, k) by {
      forall k | 0 <= k < LrCount && k != m
        ensures Bit(e, k) <==> Bit(c.elsr, k)
      {
        OrBit(c.elsr, BitUtils.Pow2(m), k);
        PowBit(m, k);
      }
    }
    c.(lrs := c.lrs[m := w], elsr := e)
  }

  /** One set bit of an ICPENDER0 write: clear it, then release the first list register showing it pending. */
  function ClearPendingOne(c: Core, bit: nat): (r: Core)
    requires CoreWf(c) && bit < 32
    ensures CoreWf(r) && r.vcpu == c.vcpu && r.isenabler == c.isenabler && r.priority == c.priority
    ensures forall j | 0 <= j < SpiIdMax :: IsPending(r, j) <==> IsPending(c, j) && j != bit
    ensures FirstPendingLr(c.lrs, bit, 0).None? ==> r.lrs == c.lrs && r.elsr == c.elsr
    ensures FirstPendingLr(c.lrs, bit, 0).Some? ==>
      var m := FirstPendingLr(c.lrs, bit, 0).value;
      Released(c.lrs[m], r.lrs[m]) && !PendingIn(r.lrs[m], bit) && Bit(r.elsr, m)
      && forall k | 0 <= k < LrCount && k != m :: r.lrs[k] == c.lrs[k] && (Bit(r.elsr, k) <==> Bit(c.elsr, k))
  {
    var c1 := ClearPending(c, bit);
    match FirstPendingLr(c1.lrs, bit, 0)
    case None => c1
    case Some(m) => ReleaseLr(c1, m)
  }

  /**
   What an ICPENDER0 write may do to list register m: leave it (and its
   ELSR bit) alone, or release it when it showed a cleared interrupt, with
   its ELSR bit set.
   */
  predicate LrAfterClear(c: Core, r: Core, v: u32, bit: nat, m: nat)
    requires CoreWf(c) && CoreWf(r) && m < LrCount
  {
    (r.lrs[m] == c.lrs[m] && (Bit(r.elsr, m) <==> Bit(c.elsr, m)))
    || (Released(c.lrs[m], r.lrs[m]) && Bit(r.elsr, m) && bit <= LrVid(c.lrs[m]) < 32 && Bit(v, LrVid(c.lrs[m])))
  }

  /** The ICPENDER0 loop from `bit` on. */
  function ClearPendingFrom(c: Core, v: u32, bit: nat): (r: Core)
    requires CoreWf(c) && bit <= 32
    decreases 32 - bit
    ensures CoreWf(r) && r.vcpu == c.vcpu && r.isenabler == c.isenabler && r.priority == c.priority
    ensures forall j | 0 <= j < SpiIdMax :: IsPending(r, j) <==> IsPending(c, j) && !(bit <= j < 32 && Bit(v, j))
  {
    if bit == 32 then c
    else
      TestBit(v, bit);
      var c1 := if And(v, BitUtils.Pow2(bit)) != 0 then ClearPendingOne(c, bit) else c;
      ClearPendingFrom(c1, v, bit + 1)
  }

  /** What one cleared interrupt does to list register m: nothing, or the release of a register that showed it pending. */
  lemma OneLr(c: Core, bit: nat, m: nat)
    requires CoreWf(c) && bit < 32 && m < LrCount
    ensures var r := ClearPendingOne(c, bit);
      (r.lrs[m] == c.lrs[m] && (Bit(r.elsr, m) <==> Bit(c.elsr, m)))
      || (Released(c.lrs[m], r.lrs[m]) && Bit(r.elsr, m) && LrVid(c.lrs[m]) == bit && !Bit(r.lrs[m], 28))
  {
    var r := ClearPendingOne(c, bit);
    var f := FirstPendingLr(c.lrs, bit, 0);
    if f.Some? && f.value == m {
      ReleasedClears(c.lrs[m], r.lrs[m]);
    }
  }

  /** One iteration of the loop keeps the list-register account. */
  lemma ChainLr(c: Core, c1: Core, r: Core, v: u32, bit: nat, m: nat)
    requires CoreWf(c) && CoreWf(c1) && CoreWf(r) && bit < 32 && m < LrCount
    requires LrAfterClear(c1, r, v, bit + 1, m)
    requires (c1.lrs[m] == c.lrs[m] && (Bit(c1.elsr, m) <==> Bit(c.elsr, m)))
      || (Released(c.lrs[m], c1.lrs[m]) && Bit(c1.elsr, m) && LrVid(c.lrs[m]) == bit && Bit(v, bit) && !Bit(c1.lrs[m], 28))
    ensures LrAfterClear(c, r, v, bit, m)
  {}

  /** Each list register is either untouched or released for one of the interrupts the write clears. */
  lemma {:induction false} ClearPendingFromLrs(c: Core, v: u32, bit: nat, m: nat)
    requires CoreWf(c) && bit <= 32 && m < LrCount
    decreases 32 - bit
    ensures LrAfterClear(c, ClearPendingFrom(c, v, bit), v, bit, m)
  {
    if bit < 32 {
      TestBit(v, bit);
      var c1 := if And(v, BitUtils.Pow2(bit)) != 0 then ClearPendingOne(c, bit) else c;
      ClearPendingFromLrs(c1, v, bit + 1, m);
      if And(v, BitUtils.Pow2(bit)) != 0 {
        OneLr(c, bit, m);
      }
      ChainLr(c, c1, ClearPendingFrom(c1, v, bit + 1), v, bit, m);
    }
  }

  lemma ReleasedClears(before: u32, after: u32)
    requires Released(before, after)
    ensures !Bit(after, 28)
  {
    AndNotBit(before, BitUtils.Pow2(28), 28);
    PowBit(28, 28);
  }

  /** GICD_ICPENDER0 write, write-one-to-clear. */
  function ClearPendingSgiPpi(c: Core, v: u32): (r: Core)
    requires CoreWf(c)
    ensures CoreWf(r) && r.vcpu == c.vcpu && r.isenabler == c.isenabler && r.priority == c.priority
    ensures forall j | 0 <= j < SpiIdMax :: IsPending(r, j) <==> IsPending(c, j) && !(j < 32 && Bit(v, j))
    ensures forall m | 0 <= m < LrCount :: LrAfterClear(c, r, v, 0, m)
  {
    var r := ClearPendingFrom(c, v, 0);
    forall m | 0 <= m < LrCount
      ensures LrAfterClear(c, r, v, 0, m)
    {
      ClearPendingFromLrs(c, v, 0, m);
    }
    r
  }

  /** Setting and then clearing the same SGI/PPI bits leaves them not pending in software. */
  lemma SetThenClearPending(c: Core, v: u32, j: nat)
    requires CoreWf(c) && j < 32 && Bit(v, j)
    ensures !IsPending(ClearPendingSgiPpi(SetPendingSgiPpi(c, v), v), j)
  {}

  // ---------------------------------------------------------------------
  // Priorities, configuration and targets
  // ---------------------------------------------------------------------

  /**
   The IPRIORITYR write loop from byte i on: byte i of the value goes to
   interrupt offset + i when that id is below the limit (32 for the
   per-vCPU array, 512 for the distributor's).
   */
  function PriBytes(pri: seq<u8>, offset: nat, v: u32, len: nat, limit: nat, i: nat): (r: seq<u8>)
    requires i <= len <= 4 && limit <= |pri|
    decreases len - i
    ensures |r| == |pri|
    ensures forall j | 0 <= j < |pri| :: r[j] == if offset + i <= j < offset + len && j < limit then ByteOf(v, j - offset) else pri[j]
  {
    if i == len then pri
    else
      var p1 := if offset + i < limit then pri[offset + i := ByteOf(v, i)] else pri;
      PriBytes(p1, offset, v, len, limit, i + 1)
  }

  /**
   handle_gicd_ipriorityr_*_write: `len` priority bytes from interrupt id
   `offset`. An eight-byte access shifts the 32-bit value by 32 and more,
   which C leaves undefined (no result).
   */
  function PriWrite(pri: seq<u8>, offset: nat, v: u32, len: nat, limit: nat): (r: Option<seq<u8>>)
    requires len == 1 || len == 2 || len == 4 || len == 8
    requires limit <= |pri|
    ensures len == 8 <==> r.None?
    ensures r.Some? ==> |r.value| == |pri|
    ensures r.Some? ==> forall j | 0 <= j < |pri| :: r.value[j] == if offset <= j < offset + len && j < limit then ByteOf(v, j - offset) else pri[j]
  {
    if len == 8 then None else Some(PriBytes(pri, offset, v, len, limit, 0))
  }

  /** An aligned four-byte priority write is read back whole by the word read of the same register. */
  lemma PriWriteReadBack(pri: seq<u8>, w: nat, v: u32)
    requires 4 * w + 4 <= |pri|
    ensures PriWrite(pri, 4 * w, v, 4, |pri|) == Some(StoreWord(pri, w, v))
    ensures LoadWord(PriWrite(pri, 4 * w, v, 4, |pri|).value, w) == v
  {
    var r := PriWrite(pri, 4 * w, v, 4, |pri|).value;
    assert r == StoreWord(pri, w, v);
    LoadStore(pri, w, v);
  }

  // ---------------------------------------------------------------------
  // Read and write dispatch
  // ---------------------------------------------------------------------

  /** What the trapping vCPU and the VM contribute to reads: its id, the VM's vCPU count, and the hardware GICD_TYPER and GICD_IIDR. */
  datatype Env = Env(vcpuId: nat, vcpuCnt: u32, hwTyper: u32, hwIidr: u32)

  /** The value a read returns, or nothing for an unimplemented or unmapped register (the guest register is left alone). */
  function ReadReg(c: Core, d: Dist, env: Env, off: nat): (r: Option<u32>)
    requires CoreWf(c) && DistWf(d)
    ensures DecodeRead(off) == IsEnabler0 ==> r == Some(c.isenabler)
    ensures DecodeRead(off) == IsPender0 ==> r == Some(PendingStatus(c))
    ensures DecodeRead(off) == Typer ==> r == Some(TyperRead(env.hwTyper, env.vcpuCnt))
    ensures DecodeRead(off) in {Unimplemented, Unmapped} <==> r.None?
  {
    match DecodeRead(off)
    case Ctlr => Some(d.ctlr)
    case Typer => Some(TyperRead(env.hwTyper, env.vcpuCnt))
    case Iidr => Some(env.hwIidr)
    case IsEnabler0 => Some(c.isenabler)
    case IcEnabler0 => Some(c.isenabler)
    case IsEnablerSpi(idx) => Some(SpiEnableRead(d, idx))
    case IcEnablerSpi(idx) => Some(SpiEnableRead(d, idx))
    case IsPender0 => Some(PendingStatus(c))
    case IcPender0 => Some(PendingStatus(c))
    case PriSgiPpi(o) => Some(LoadWord(c.priority, o / 4))
    case PriSpi(o) => Some(LoadWord(d.priority, o / 4))
    case CfgSgiPpi(w) => Some(CfgSgiPpiRead(w))
    case CfgSpi(w) => Some(d.icfgr[w])
    case TargetSgiPpi => Some(TargetSgiPpiRead(env.vcpuId))
    case TargetSpi(w) => Some(LoadWord(d.targets, w))
    case Sgir => None
    case Unimplemented => None
    case Unmapped => None
  }

  /** The effect of a write on the trapping vCPU and the distributor. */
  datatype Outcome =
    | Wrote(core: Core, dist: Dist)
    | SendSgi(id: nat, filter: nat, targets: nat)
    | Undefined

  /** A write: the value has already been taken from the guest register; `len` is the access length. */
  function WriteReg(c: Core, d: Dist, off: nat, v: u32, len: nat): (r: Outcome)
    requires CoreWf(c) && DistWf(d)
    requires len == 1 || len == 2 || len == 4 || len == 8
    ensures r.Wrote? ==> CoreWf(r.core) && DistWf(r.dist)
    ensures r.Undefined? <==> len == 8 && (DecodeWrite(off).PriSgiPpi? || DecodeWrite(off).PriSpi?)
    ensures DecodeWrite(off) == Sgir <==> r.SendSgi?
    ensures DecodeWrite(off) in {Unimplemented, Unmapped} ==> r == Wrote(c, d)
    ensures r.SendSgi? ==> r.id < 16 && r.filter < 4 && r.targets < 0x100
  {
    match DecodeWrite(off)
    case Ctlr => Wrote(c, d.(ctlr := v))
    case IsEnabler0 => Wrote(EnableSgiPpi(c, v), d)
    case IcEnabler0 => Wrote(DisableSgiPpi(c, v), d)
    case IsEnablerSpi(idx) => Wrote(c, SetSpiEnable(d, idx, v))
    case IcEnablerSpi(idx) => Wrote(c, ClearSpiEnable(d, idx, v))
    case IsPender0 => Wrote(SetPendingSgiPpi(c, v), d)
    case IcPender0 => Wrote(ClearPendingSgiPpi(c, v), d)
    case PriSgiPpi(o) =>
      (match PriWrite(c.priority, o, v, len, FirstSpi)
       case None => Undefined
       case Some(p) => Wrote(c.(priority := p), d))
    case PriSpi(o) =>
      (match PriWrite(d.priority, o, v, len, SpiIdMax)
       case None => Undefined
       case Some(p) => Wrote(c, d.(priority := p)))
    case CfgSpi(w) => Wrote(c, d.(icfgr := d.icfgr[w := v]))
    case TargetSpi(w) => Wrote(c, d.(targets := StoreWord(d.targets, w, v)))
    case Sgir => SendSgi(SgirId(v), SgirFilter(v), SgirTargets(v))
    case Typer => Wrote(c, d)
    case Iidr => Wrote(c, d)
    case CfgSgiPpi(_) => Wrote(c, d)
    case TargetSgiPpi => Wrote(c, d)
    case Unimplemented => Wrote(c, d)
    case Unmapped => Wrote(c, d)
  }

  /** Registers that hold what the guest writes: a word written is the word read back. */
  lemma WriteThenRead(c: Core, d: Dist, env: Env, off: nat, v: u32)
    requires CoreWf(c) && DistWf(d)
    requires off == CtlrOff || (ICfgOff + FirstSpi / 4 <= off < ICfgOff + SpiIdMax / 4)
      || (ITargetsOff + FirstSpi <= off < ITargetsOff + SpiIdMax && off % 4 == 0)
      || (IPriorityOff <= off < IPriorityOff + SpiIdMax && off % 4 == 0)
    ensures WriteReg(c, d, off, v, 4).Wrote?
    ensures ReadReg(WriteReg(c, d, off, v, 4).core, WriteReg(c, d, off, v, 4).dist, env, off) == Some(v)
  {
    var k := DecodeWrite(off);
    DecodersAgree(off);
    if k.TargetSpi? {
      TargetWriteThenRead(c, d, env, off, v);
    } else if k.PriSgiPpi? || k.PriSpi? {
      PriorityWriteThenRead(c, d, env, off, v);
    }
  }

  lemma TargetWriteThenRead(c: Core, d: Dist, env: Env, off: nat, v: u32)
    requires CoreWf(c) && DistWf(d) && DecodeWrite(off).TargetSpi? && DecodeRead(off) == DecodeWrite(off)
    ensures WriteReg(c, d, off, v, 4) == Wrote(c, d.(targets := StoreWord(d.targets, DecodeWrite(off).word, v)))
    ensures ReadReg(WriteReg(c, d, off, v, 4).core, WriteReg(c, d, off, v, 4).dist, env, off) == Some(v)
  {
    LoadStore(d.targets, DecodeWrite(off).word, v);
  }

  lemma PriorityWriteThenRead(c: Core, d: Dist, env: Env, off: nat, v: u32)
    requires CoreWf(c) && DistWf(d) && off % 4 == 0
    requires (DecodeWrite(off).PriSgiPpi? || DecodeWrite(off).PriSpi?) && DecodeRead(off) == DecodeWrite(off)
    ensures WriteReg(c, d, off, v, 4).Wrote?
    ensures ReadReg(WriteReg(c, d, off, v, 4).core, WriteReg(c, d, off, v, 4).dist, env, off) == Some(v)
  {
    var o := DecodeWrite(off).offset;
    assert 4 * (o / 4) == o;
    if DecodeWrite(off).PriSgiPpi? {
      PriWriteReadBack(c.priority, o / 4, v);
    } else {
      PriWriteReadBack(d.priority, o / 4, v);
    }
  }

  /**
   handle_gicd_sgir_write: walk the VM's vCPUs (their ids and saved
   per-vCPU state, in list order) and inject SGI `id` into each one the
   filter selects; `running[k]` tells whether vCPU k is the one on this
   CPU.
   */
  function SendSgiTo(cores: seq<Core>, ids: seq<nat>, running: seq<bool>, curr: nat, d: Dist, id: nat, filter: nat, targets: nat): (r: seq<Core>)
    requires |ids| == |cores| == |running| && DistWf(d) && id < 16
    requires forall k | 0 <= k < |cores| :: CoreWf(cores[k])
    ensures |r| == |cores|
    ensures forall k | 0 <= k < |cores| :: CoreWf(r[k])
    ensures forall k | 0 <= k < |cores| :: SgiTargeted(filter, targets, ids[k], curr) ==> Delivered(r[k], id) && Kept(cores[k], r[k])
    ensures forall k | 0 <= k < |cores| :: !SgiTargeted(filter, targets, ids[k], curr) ==> r[k] == cores[k]
  {
    seq(|cores|, k requires 0 <= k < |cores| =>
      if SgiTargeted(filter, targets, ids[k], curr) then InjectSgi(cores[k], d, id, running[k]) else cores[k])
  }

  /** Filter 2 delivers the SGI to the writer alone. */
  lemma SelfSgiOnlyToWriter(cores: seq<Core>, ids: seq<nat>, running: seq<bool>, curr: nat, d: Dist, id: nat, targets: nat, k: nat)
    requires |ids| == |cores| == |running| && DistWf(d) && id < 16
    requires forall k | 0 <= k < |cores| :: CoreWf(cores[k])
    requires k < |cores|
    ensures ids[k] == curr ==> Delivered(SendSgiTo(cores, ids, running, curr, d, id, 2, targets)[k], id)
    ensures ids[k] != curr ==> SendSgiTo(cores, ids, running, curr, d, id, 2, targets)[k] == cores[k]
  {}

  /** With filter 0, a vCPU with id 8 or more is never a target. */
  lemma ListedSgiSkipsHighVcpus(cores: seq<Core>, ids: seq<nat>, running: seq<bool>, curr: nat, d: Dist, id: nat, targets: nat, k: nat)
    requires |ids| == |cores| == |running| && DistWf(d) && id < 16 && targets < 0x100
    requires forall k | 0 <= k < |cores| :: CoreWf(cores[k])
    requires k < |cores| && ids[k] >= 8
    ensures SendSgiTo(cores, ids, running, curr, d, id, 0, targets)[k] == cores[k]
  {
    ListedBelow8(targets, ids[k]);
  }

  // ---------------------------------------------------------------------
  // The trap (intc_handler)
  // ---------------------------------------------------------------------

  /** The distributor state after a trapped access, and the guest registers. */
  datatype Trap = Trap(out: Outcome, frame: Frame)

  /**
   A trapped access at offset `off` from the distributor base by register
   `rt` with access-size field `size`: writes carry the register's value to
   the write decoder, reads load the decoded register's value into it.
   Accesses past the 64 KiB window are not the distributor's.
   */
  function Handle(c: Core, d: Dist, env: Env, f: Frame, off: nat, write: bool, rt: nat, size: nat): (r: Trap)
    requires CoreWf(c) && DistWf(d) && FrameWf(f) && rt < 32
    ensures FrameWf(r.frame)
    ensures write ==> r.frame == f
    ensures !write || off >= WindowSize ==> r.out == Wrote(c, d)
    ensures r.out.Wrote? ==> CoreWf(r.out.core) && DistWf(r.out.dist)
  {
    if off >= WindowSize then Trap(Wrote(c, d), f)
    else if write then Trap(WriteReg(c, d, off, SourceValue(f, rt), AccessLen(size)), f)
    else
      match ReadReg(c, d, env, off)
      case None => Trap(Wrote(c, d), f)
      case Some(v) => Trap(Wrote(c, d), LoadInto(f, rt, v))
  }

  /** A word-sized store from one register and a load of the same register into another moves the low 32 bits across. */
  lemma GuestStoreThenLoad(c: Core, d: Dist, env: Env, f: Frame, off: nat, rs: nat, rd: nat)
    requires CoreWf(c) && DistWf(d) && FrameWf(f) && rs < 30 && rd < 30
    requires off == CtlrOff || (ICfgOff + FirstSpi / 4 <= off < ICfgOff + SpiIdMax / 4)
      || (ITargetsOff + FirstSpi <= off < ITargetsOff + SpiIdMax && off % 4 == 0)
      || (IPriorityOff <= off < IPriorityOff + SpiIdMax && off % 4 == 0)
    ensures Handle(c, d, env, f, off, true, rs, 2).out.Wrote?
    ensures var w := Handle(c, d, env, f, off, true, rs, 2).out;
      Handle(w.core, w.dist, env, f, off, false, rd, 2).frame.r[rd] == f.r[rs] % Word32
  {
    assert AccessLen(2) == 4 by {
      VgicdRegs.Powers();
      LowMask(2, 2);
      DivOf(2, 4, 0, 2);
    }
    WriteThenRead(c, d, env, off, SourceValue(f, rs));
  }
}
