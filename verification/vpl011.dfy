/**
 The per-VM emulated PL011 UART (vmm/vdev/vpl011.c): a register file the
 guest reaches through stage-2 faults, a 16-byte receive FIFO the
 hypervisor feeds, and a transmit path that hands each byte on at once, so
 the transmit FIFO never holds anything between two accesses.
 */
module Vpl011 {
  import opened CTypes
  import BitUtils
  import opened IntBits

  /** Depth of each FIFO. */
  const Depth := 16

  const Dr: u32 := 0x000
  const Rsr: u32 := 0x004
  const Fr: u32 := 0x018
  const Ilpr: u32 := 0x020
  const Ibrd: u32 := 0x024
  const Fbrd: u32 := 0x028
  const LcrH: u32 := 0x02C
  const Cr: u32 := 0x030
  const Ifls: u32 := 0x034
  const Imsc: u32 := 0x038
  const RisReg: u32 := 0x03C
  const MisReg: u32 := 0x040
  const Icr: u32 := 0x044

  /** The identification registers at 0xFE0..0xFFC and the values they read as. */
  function IdValue(offset: u32): (v: Option<u32>)
  {
    if offset == 0xFE0 then Some(0x11) else if offset == 0xFE4 then Some(0x10)
    else if offset == 0xFE8 then Some(0x14) else if offset == 0xFEC then Some(0x00)
    else if offset == 0xFF0 then Some(0x0D) else if offset == 0xFF4 then Some(0xF0)
    else if offset == 0xFF8 then Some(0x05) else if offset == 0xFFC then Some(0xB1)
    else None
  }

  datatype Option<T> = None | Some(value: T)

  /**
   FR: transmit empty (bit 7), receive full (bit 6), transmit full (bit 5),
   receive empty (bit 4). No path ever writes any other bit of it.
   */
  datatype Flags = Flags(txfe: bool, rxff: bool, txff: bool, rxfe: bool)

  function FrValue(f: Flags): (v: u32)
    ensures v < 0x100
  {
    (if f.txfe then 0x80 else 0) + (if f.rxff then 0x40 else 0)
    + (if f.txff then 0x20 else 0) + (if f.rxfe then 0x10 else 0)
  }

  /** The flags the FIFO fill levels call for. */
  function FlagsFor(txCount: nat, rxCount: nat): Flags {
    Flags(txCount == 0, rxCount >= Depth, txCount >= Depth, rxCount == 0)
  }

  /**
   The UART state. RIS only ever holds its receive (bit 4) and transmit
   (bit 5) bits, kept here as two booleans; the receive FIFO is its
   contents in arrival order; the data register field, never read back, is
   left out.
   */
  datatype Uart = Uart(rsr: u32, fr: Flags, ilpr: u32, ibrd: u32, fbrd: u32, lcrH: u32, cr: u32,
                       ifls: u32, imsc: u32, rxRaised: bool, txRaised: bool, mis: u32,
                       base: u32, irq: u32, initialized: bool, rx: seq<u8>, txCount: nat)

  /** The RIS register value. */
  function Ris(u: Uart): nat {
    Bits45(u.rxRaised, u.txRaised)
  }

  /**
   The state every operation keeps: the FIFOs within their depth, FR in
   step with their fill levels, and MIS equal to RIS masked by IMSC.
   */
  predicate Wf(u: Uart) {
    |u.rx| <= Depth && u.txCount <= Depth && u.fr == FlagsFor(u.txCount, |u.rx|)
    && u.mis == And(Ris(u), u.imsc)
  }

  /** RIS as the FIFOs and CR's enables (RXE bit 9, TXE bit 8) call for it. */
  predicate RisCurrent(u: Uart) {
    u.rxRaised == (|u.rx| > 0 && Bit(u.cr, 9)) && u.txRaised == (u.txCount < Depth && Bit(u.cr, 8))
  }

  /**
   vpl011_state_init: both FIFOs empty, transmit and receive enabled, all
   interrupts masked, at the default base 0x09000000 with SPI 33.
   */
  function Reset(): (u: Uart)
    ensures Wf(u) && u.initialized && u.rx == [] && u.txCount == 0
    ensures FrValue(u.fr) == 0x90 && Bit(u.cr, 8) && Bit(u.cr, 9) && u.imsc == 0 && Ris(u) == 0
    ensures u.base == 0x0900_0000 && u.irq == 33
  {
    Uart(0, Flags(true, false, false, true), 0, 0, 0, 0, 0x300, 0x12, 0, false, false, 0,
         0x0900_0000, 33, true, [], 0)
  }

  /** MIS is nonzero exactly when a raised interrupt is also unmasked. */
  lemma MaskedNonzero(rx: bool, tx: bool, imsc: nat)
    ensures And(Bits45(rx, tx), imsc) != 0 <==> (rx && Bit(imsc, 4)) || (tx && Bit(imsc, 5))
  {
    var m := And(Bits45(rx, tx), imsc);
    NonzeroHasBit(m);
    AndBit(Bits45(rx, tx), imsc, 4);
    AndBit(Bits45(rx, tx), imsc, 5);
    Bits45Bit(rx, tx, 4);
    Bits45Bit(rx, tx, 5);
    if m != 0 {
      var i: nat :| Bit(m, i);
      AndBit(Bits45(rx, tx), imsc, i);
      Bits45Bit(rx, tx, i);
    }
  }

  /**
   vpl011_update_interrupts: RIS recomputed from scratch, MIS = RIS & IMSC,
   and SPI 33 injected into the owning VM exactly when MIS is nonzero (the
   boolean result).
   */
  function Update(u: Uart): (r: (Uart, bool))
    ensures !u.initialized ==> r == (u, false)
    ensures u.initialized ==> RisCurrent(r.0) && r.0.mis == And(Ris(r.0), r.0.imsc)
    ensures r.0 == u.(rxRaised := r.0.rxRaised, txRaised := r.0.txRaised, mis := r.0.mis)
    ensures r.1 <==> u.initialized && ((r.0.rxRaised && Bit(u.imsc, 4)) || (r.0.txRaised && Bit(u.imsc, 5)))
  {
    if !u.initialized then (u, false)
    else
      var rx := |u.rx| > 0 && Bit(u.cr, 9);
      var tx := u.txCount < Depth && Bit(u.cr, 8);
      AndBelow(Bits45(rx, tx), u.imsc);
      MaskedNonzero(rx, tx, u.imsc);
      var mis := And(Bits45(rx, tx), u.imsc);
      (u.(rxRaised := rx, txRaised := tx, mis := mis), mis != 0)
  }

  /** The outcome of a register read: the new state, the value, whether SPI 33 was raised. */
  datatype Access = Access(u: Uart, value: u32, raise: bool)

  /** A DR read: the oldest received byte leaves the FIFO; an empty FIFO reads 0. */
  function ReadDr(u: Uart): (r: Access)
    requires u.initialized
    ensures |u.rx| == 0 ==> r == Access(u, 0, false)
    ensures |u.rx| > 0 ==> r.value == u.rx[0] && r.u.rx == u.rx[1..] && RisCurrent(r.u)
    ensures Wf(u) ==> Wf(r.u)
    ensures r.u.initialized && r.u.txCount == u.txCount && r.u.imsc == u.imsc && r.u.cr == u.cr
  {
    if |u.rx| == 0 then Access(u, 0, false)
    else
      var rx := u.rx[1..];
      var fr := u.fr.(rxfe := u.fr.rxfe || |rx| == 0, rxff := false);
      var t := Update(u.(rx := rx, fr := fr));
      Access(t.0, u.rx[0], t.1)
  }

  /** An FR read: the four flags recomputed from the fill levels. */
  function ReadFr(u: Uart): (r: Access)
    ensures !r.raise && r.u.rx == u.rx && r.u.txCount == u.txCount
    ensures Bit(r.value, 4) <==> |u.rx| == 0
    ensures Bit(r.value, 5) <==> u.txCount >= Depth
    ensures Bit(r.value, 6) <==> |u.rx| >= Depth
    ensures Bit(r.value, 7) <==> u.txCount == 0
    ensures Wf(u) ==> r.u == u
  {
    var fr := FlagsFor(u.txCount, |u.rx|);
    FrBit(fr, 4);
    FrBit(fr, 5);
    FrBit(fr, 6);
    FrBit(fr, 7);
    Access(u.(fr := fr), FrValue(fr), false)
  }

  /** The four flags as a 4-bit number, receive-empty lowest. */
  function Nibble(f: Flags): (n: nat)
    ensures FrValue(f) == 16 * n
  {
    (if f.rxfe then 1 else 0) + (if f.txff then 2 else 0) + (if f.rxff then 4 else 0) + (if f.txfe then 8 else 0)
  }

  lemma NibbleBit(f: Flags, j: nat)
    ensures Bit(Nibble(f), j) <==> (j == 0 && f.rxfe) || (j == 1 && f.txff) || (j == 2 && f.rxff) || (j == 3 && f.txfe)
  {
    var n := Nibble(f);
    if j >= 1 {
      assert Bit(n, j) == Bit(n / 2, j - 1);
    }
    if j >= 2 {
      assert Bit(n / 2, j - 1) == Bit(n / 4, j - 2);
    }
    if j >= 3 {
      assert Bit(n / 4, j - 2) == Bit(n / 8, j - 3);
    }
    if j >= 4 {
      assert Bit(n / 8, j - 3) == Bit(0, j - 4);
      ZeroBit(j - 4);
    }
  }

  /** Bit i of 16·y is bit i - 4 of y; the low four bits are clear. */
  lemma Times16Bit(y: nat, i: nat)
    ensures Bit(16 * y, i) <==> i >= 4 && Bit(y, i - 4)
  {
    if i >= 4 {
      assert Bit(16 * y, i) == Bit(8 * y, i - 1) == Bit(4 * y, i - 2) == Bit(2 * y, i - 3) == Bit(y, i - 4);
    } else if i == 3 {
      assert Bit(16 * y, 3) == Bit(8 * y, 2) == Bit(4 * y, 1) == Bit(2 * y, 0);
    } else if i == 2 {
      assert Bit(16 * y, 2) == Bit(8 * y, 1) == Bit(4 * y, 0);
    } else if i == 1 {
      assert Bit(16 * y, 1) == Bit(8 * y, 0);
    }
  }

  lemma FrBit(f: Flags, i: nat)
    ensures Bit(FrValue(f), i) <==> (i == 4 && f.rxfe) || (i == 5 && f.txff) || (i == 6 && f.rxff) || (i == 7 && f.txfe)
  {
    Times16Bit(Nibble(f), i);
    if i >= 4 {
      NibbleBit(f, i - 4);
    }
  }

  /** A MIS read: RIS masked by IMSC, stored back into MIS. */
  function ReadMis(u: Uart): (r: Access)
    ensures !r.raise && r.u == u.(mis := r.value)
    ensures forall i: nat {:trigger Bit(r.value, i)} :: Bit(r.value, i) <==> Bit(Ris(u), i) && Bit(u.imsc, i)
    ensures r.value != 0 <==> (u.rxRaised && Bit(u.imsc, 4)) || (u.txRaised && Bit(u.imsc, 5))
    ensures Wf(u) ==> r.u == u
  {
    AndBelow(Ris(u), u.imsc);
    MaskedNonzero(u.rxRaised, u.txRaised, u.imsc);
    var m := And(Ris(u), u.imsc);
    forall i: nat ensures Bit(m, i) <==> Bit(Ris(u), i) && Bit(u.imsc, i) {
      AndBit(Ris(u), u.imsc, i);
    }
    Access(u.(mis := m), m, false)
  }

  /**
   vpl011_read: reads of an uninitialised UART and of unknown offsets give
   0; only a DR read changes the FIFO or raises an interrupt.
   */
  function Read(u: Uart, offset: u32): (r: Access)
    ensures !u.initialized ==> r == Access(u, 0, false)
    ensures Wf(u) ==> Wf(r.u)
    ensures r.u.initialized == u.initialized && r.u.imsc == u.imsc && r.u.cr == u.cr && r.u.txCount == u.txCount
    ensures offset != Dr ==> r.u.rx == u.rx && !r.raise
    ensures u.initialized && offset == Dr ==> r == ReadDr(u)
    ensures u.initialized && IdValue(offset).Some? ==> r == Access(u, IdValue(offset).value, false)
  {
    if !u.initialized then Access(u, 0, false)
    else if offset == Dr then ReadDr(u)
    else if offset == Rsr then Access(u, u.rsr, false)
    else if offset == Fr then ReadFr(u)
    else if offset == Ilpr then Access(u, u.ilpr, false)
    else if offset == Ibrd then Access(u, u.ibrd, false)
    else if offset == Fbrd then Access(u, u.fbrd, false)
    else if offset == LcrH then Access(u, u.lcrH, false)
    else if offset == Cr then Access(u, u.cr, false)
    else if offset == Ifls then Access(u, u.ifls, false)
    else if offset == Imsc then Access(u, u.imsc, false)
    else if offset == RisReg then Access(u, Ris(u), false)
    else if offset == MisReg then ReadMis(u)
    else if IdValue(offset).Some? then Access(u, IdValue(offset).value, false)
    else Access(u, 0, false)
  }

  /** `value & (2^k - 1)`. */
  function Masked(value: u32, k: nat): (r: u32)
    ensures r == value % BitUtils.Pow2(k)
  {
    LowMask(value, k);
    AndBelow(value, BitUtils.Pow2(k) - 1);
    And(value, BitUtils.Pow2(k) - 1)
  }

  lemma Pow2Masks()
    ensures BitUtils.Pow2(4) == 0x10 && BitUtils.Pow2(6) == 0x40 && BitUtils.Pow2(8) == 0x100 && BitUtils.Pow2(11) == 0x800 && BitUtils.Pow2(16) == 0x1_0000
  {
    assert BitUtils.Pow2(8) == 0x100;
    BitUtils.Pow2Add(8, 8);
    assert BitUtils.Pow2(11) == 0x800;
  }

  /** The outcome of a register write: the new state, the byte sent to the physical UART, whether SPI 33 was raised. */
  datatype Written = Written(u: Uart, sent: Option<u8>, raise: bool)

  /**
   A DR write: when the transmit FIFO has room the low byte goes out at
   once and the FIFO is as empty as before; when it is full the byte is
   dropped.
   */
  function WriteDr(u: Uart, value: u32): (r: Written)
    requires u.initialized
    ensures u.txCount >= Depth ==> r == Written(u, None, false)
    ensures u.txCount < Depth ==> r.sent == Some(value % 0x100) && RisCurrent(r.u)
    ensures r.u.rx == u.rx && r.u.txCount == u.txCount && r.u.imsc == u.imsc && r.u.cr == u.cr && r.u.initialized
    ensures Wf(u) ==> Wf(r.u)
  {
    if u.txCount >= Depth then Written(u, None, false)
    else
      Pow2Masks();
      var b := Masked(value, 8);
      var count := u.txCount + 1;
      var fr := u.fr.(txfe := false);
      var fr := fr.(txff := fr.txff || count >= Depth);
      var count := count - 1;
      var fr := fr.(txfe := fr.txfe || count == 0);
      var fr := fr.(txff := false);
      var t := Update(u.(txCount := count, fr := fr));
      Written(t.0, Some(b), t.1)
  }

  /** An RSR write: each error bit (0 to 3) set in the value is cleared. */
  function WriteRsr(u: Uart, value: u32): (r: Uart)
    ensures r == u.(rsr := r.rsr) && Quiet(u, r)
    ensures forall i: nat {:trigger Bit(r.rsr, i)} :: Bit(r.rsr, i) <==> Bit(u.rsr, i) && !(i < 4 && Bit(value, i))
  {
    Pow2Masks();
    var m := Masked(value, 4);
    AndNotBelow(u.rsr, m);
    var rsr := AndNot(u.rsr, m);
    forall i: nat ensures Bit(rsr, i) <==> Bit(u.rsr, i) && !(i < 4 && Bit(value, i)) {
      AndNotBit(u.rsr, m, i);
      ModBit(value, 4, i);
    }
    u.(rsr := rsr)
  }

  /** `v` differs from `u` at most in registers the FIFOs and the interrupt state do not depend on. */
  predicate Quiet(u: Uart, v: Uart) {
    v.fr == u.fr && v.imsc == u.imsc && v.mis == u.mis && v.rxRaised == u.rxRaised && v.txRaised == u.txRaised
    && v.rx == u.rx && v.txCount == u.txCount && v.initialized == u.initialized
  }

  /** The plain configuration registers and the width each keeps. */
  function ConfigWidth(offset: u32): (k: Option<nat>)
  {
    if offset == Ilpr || offset == LcrH then Some(8)
    else if offset == Ibrd || offset == Cr then Some(16)
    else if offset == Fbrd || offset == Ifls then Some(6)
    else None
  }

  /** A write to one of the plain configuration registers, masked to its width. */
  function WriteConfig(u: Uart, offset: u32, value: u32): (r: Uart)
    requires ConfigWidth(offset).Some?
    ensures Quiet(u, r)
    ensures offset == Ilpr ==> r == u.(ilpr := value % 0x100)
    ensures offset == LcrH ==> r == u.(lcrH := value % 0x100)
    ensures offset == Ibrd ==> r == u.(ibrd := value % 0x1_0000)
    ensures offset == Cr ==> r == u.(cr := value % 0x1_0000)
    ensures offset == Fbrd ==> r == u.(fbrd := value % 0x40)
    ensures offset == Ifls ==> r == u.(ifls := value % 0x40)
  {
    Pow2Masks();
    var v := Masked(value, ConfigWidth(offset).value);
    if offset == Ilpr then u.(ilpr := v)
    else if offset == LcrH then u.(lcrH := v)
    else if offset == Ibrd then u.(ibrd := v)
    else if offset == Cr then u.(cr := v)
    else if offset == Fbrd then u.(fbrd := v)
    else u.(ifls := v)
  }

  /**
   An ICR write: the raw bits set in the value are cleared, then the
   interrupt state is recomputed from the FIFOs, which overrides the
   clearing.
   */
  function WriteIcr(u: Uart, value: u32): (r: Written)
    requires u.initialized
    ensures r.sent.None? && RisCurrent(r.u) && r.u.imsc == u.imsc && r.u.rx == u.rx && r.u.txCount == u.txCount
    ensures r == Written(Update(u).0, None, Update(u).1)
    ensures Wf(u) ==> Wf(r.u)
  {
    var cleared := u.(rxRaised := u.rxRaised && !Bit(value, 4), txRaised := u.txRaised && !Bit(value, 5));
    var t := Update(cleared);
    Written(t.0, None, t.1)
  }

  /** An IMSC write: the 11-bit mask, then the interrupt state recomputed. */
  function WriteImsc(u: Uart, value: u32): (r: Written)
    requires u.initialized
    ensures r.sent.None? && RisCurrent(r.u) && r.u.imsc == value % 0x800 && r.u.rx == u.rx && r.u.txCount == u.txCount
    ensures r.raise <==> (r.u.rxRaised && Bit(r.u.imsc, 4)) || (r.u.txRaised && Bit(r.u.imsc, 5))
    ensures Wf(u) ==> Wf(r.u)
  {
    Pow2Masks();
    var t := Update(u.(imsc := Masked(value, 11)));
    Written(t.0, None, t.1)
  }

  /** The writes that only store a register: RSR, the configuration registers, and the ignored offsets. */
  function WriteQuiet(u: Uart, offset: u32, value: u32): (r: Uart)
    ensures Quiet(u, r)
    ensures offset == Rsr ==> r == WriteRsr(u, value)
    ensures ConfigWidth(offset).Some? ==> r == WriteConfig(u, offset, value)
    ensures offset != Rsr && ConfigWidth(offset).None? ==> r == u
  {
    if offset == Rsr then WriteRsr(u, value)
    else if ConfigWidth(offset).Some? then WriteConfig(u, offset, value)
    else u
  }

  /**
   vpl011_write: writes to an uninitialised UART, to read-only registers and
   to unknown offsets change nothing; no write touches the receive FIFO.
   */
  function Write(u: Uart, offset: u32, value: u32): (r: Written)
    ensures !u.initialized ==> r == Written(u, None, false)
    ensures Wf(u) ==> Wf(r.u)
    ensures r.u.rx == u.rx && r.u.txCount == u.txCount && r.u.initialized == u.initialized
    ensures r.sent.Some? <==> u.initialized && offset == Dr && u.txCount < Depth
    ensures r.sent.Some? ==> r.sent.value == value % 0x100
    ensures r.raise ==> offset == Dr || offset == Imsc || offset == Icr
    ensures u.initialized && offset == Rsr ==> r.u == WriteRsr(u, value)
    ensures u.initialized && ConfigWidth(offset).Some? ==> r.u == WriteConfig(u, offset, value)
    ensures u.initialized && offset == Imsc ==> r == WriteImsc(u, value)
    ensures u.initialized && offset == Icr ==> r == Written(Update(u).0, None, Update(u).1)
    ensures offset !in {Dr, Rsr, Imsc, Icr} && ConfigWidth(offset).None? ==> r == Written(u, None, false)
  {
    if !u.initialized then Written(u, None, false)
    else if offset == Dr then WriteDr(u, value)
    else if offset == Imsc then WriteImsc(u, value)
    else if offset == Icr then WriteIcr(u, value)
    else Written(WriteQuiet(u, offset, value), None, false)
  }

  /**
   vpl011_inject_rx_char: the byte joins the receive FIFO when it has room
   and is dropped when 16 bytes are already waiting.
   */
  function Inject(u: Uart, c: u8): (r: (Uart, bool))
    ensures !u.initialized || |u.rx| >= Depth ==> r == (u, false)
    ensures u.initialized && |u.rx| < Depth ==> r.0.rx == u.rx + [c] && RisCurrent(r.0)
    ensures r.0.initialized == u.initialized && r.0.txCount == u.txCount
    ensures Wf(u) ==> Wf(r.0)
  {
    if !u.initialized || |u.rx| >= Depth then (u, false)
    else
      var rx := u.rx + [c];
      var fr := u.fr.(rxfe := false, rxff := u.fr.rxff || |rx| >= Depth);
      Update(u.(rx := rx, fr := fr))
  }

  /** A stream of bytes injected one after another. */
  function InjectAll(u: Uart, s: seq<u8>): (u': Uart)
    ensures u'.initialized == u.initialized
    ensures Wf(u) ==> Wf(u')
    decreases |s|
  {
    if s == [] then u else InjectAll(Inject(u, s[0]).0, s[1..])
  }

  /** `n` DR reads one after another, with the values they return. */
  function ReadAll(u: Uart, n: nat): (r: (Uart, seq<u8>))
    requires u.initialized
    ensures r.0.initialized && |r.1| == n
    decreases n
  {
    if n == 0 then (u, [])
    else
      var a := Read(u, Dr);
      var rest := ReadAll(a.u, n - 1);
      (rest.0, [a.value as u8] + rest.1)
  }

  /** Bytes injected into a FIFO with room for them queue up behind those waiting; the rest are dropped. */
  lemma {:induction false} InjectKeepsFitting(u: Uart, s: seq<u8>)
    requires Wf(u) && u.initialized
    decreases |s|
    ensures var room := Depth - |u.rx|;
      InjectAll(u, s).rx == u.rx + s[..if |s| < room then |s| else room]
  {
    if s != [] {
      var v := Inject(u, s[0]).0;
      InjectKeepsFitting(v, s[1..]);
      if |u.rx| < Depth {
        assert s[..if |s| < Depth - |u.rx| then |s| else Depth - |u.rx|]
          == [s[0]] + s[1..][..if |s| - 1 < Depth - |v.rx| then |s| - 1 else Depth - |v.rx|];
      }
    }
  }

  /** DR reads return the waiting bytes oldest first, each leaving the FIFO. */
  lemma {:induction false} ReadsDrain(u: Uart, n: nat)
    requires u.initialized && n <= |u.rx|
    decreases n
    ensures ReadAll(u, n).1 == u.rx[..n] && ReadAll(u, n).0.rx == u.rx[n..]
  {
    if n > 0 {
      var a := Read(u, Dr);
      ReadsDrain(a.u, n - 1);
      assert a.u.rx[..n - 1] == u.rx[1..n] && a.u.rx[n - 1..] == u.rx[n..];
    }
  }

  /** The receive path is a FIFO: up to 16 bytes injected into an empty UART read back in order. */
  lemma InjectedReadBackInOrder(u: Uart, s: seq<u8>)
    requires Wf(u) && u.initialized && u.rx == [] && |s| <= Depth
    ensures ReadAll(InjectAll(u, s), |s|).1 == s
  {
    InjectKeepsFitting(u, s);
    assert s[..|s|] == s;
    ReadsDrain(InjectAll(u, s), |s|);
  }

  /** A byte injected into a full FIFO is lost: the seventeenth of a burst never reads back. */
  lemma SeventeenthDropped(u: Uart, s: seq<u8>)
    requires Wf(u) && u.initialized && u.rx == [] && |s| > Depth
    ensures InjectAll(u, s).rx == s[..Depth]
  {
    InjectKeepsFitting(u, s);
  }

  /**
   vpl011_mmio_handler: the register offset is the fault address less the
   UART's base, truncated to 32 bits; a write passes the low 32 bits of the
   register, a read returns the register value zero-extended. Without a
   UART for the current VM the access is not handled (0).
   */
  datatype Handled = Handled(status: int, u: Option<Uart>, data: u64, sent: Option<u8>, raise: bool)

  function MmioHandler(u: Option<Uart>, gpa: u64, isWrite: bool, data: u64): (r: Handled)
    ensures u.None? ==> r.status == 0 && r.u == u && r.data == data
    ensures u.Some? ==> r.status == 1 && r.u.Some?
    ensures u.Some? && isWrite ==> (r.data == data
      && r == (var w := Write(u.value, (gpa - u.value.base) % Word32, data % Word32); Handled(1, Some(w.u), data, w.sent, w.raise)))
    ensures u.Some? && !isWrite ==> r.data == Read(u.value, (gpa - u.value.base) % Word32).value && !r.sent.Some?
  {
    if u.None? then Handled(0, u, data, None, false)
    else
      var offset := (gpa - u.value.base) % Word32;
      if isWrite then
        var w := Write(u.value, offset, data % Word32);
        Handled(1, Some(w.u), data, w.sent, w.raise)
      else
        var a := Read(u.value, offset);
        Handled(1, Some(a.u), a.value, None, a.raise)
  }
}
