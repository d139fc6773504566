/**
 Register encodings of the emulated GICv2 distributor (vmm/vdev/vgicd.c):
 byte arrays viewed as little-endian 32-bit words, the GICD_SGIR fields,
 the GICD_TYPER CPU-count field, and the fixed SGI/PPI configuration and
 target words. Field layouts follow section 4.3 of the ARM Generic
 Interrupt Controller Architecture Specification, version 2.0.
 */
module VgicdRegs {
  import opened CTypes
  import opened IntBits
  import opened Util
  import BitUtils

  lemma Powers()
    ensures BitUtils.Pow2(2) == 4 && BitUtils.Pow2(4) == 16 && BitUtils.Pow2(5) == 32
    ensures BitUtils.Pow2(8) == 0x100 && BitUtils.Pow2(16) == 0x1_0000 && BitUtils.Pow2(24) == 0x100_0000
    ensures BitUtils.Pow2(32) == Word32
  {
    assert BitUtils.Pow2(8) == 0x100 && BitUtils.Pow2(5) == 32;
    BitUtils.Pow2Add(8, 8);
    BitUtils.Pow2Add(16, 8);
    BitUtils.Pow2Word();
  }

  /** `x & 0xFF`: the low byte. */
  function LowByte(x: nat): (r: u8)
    ensures r == x % 0x100
  {
    Powers();
    LowMask(x, 8);
    And(x, 0xFF)
  }

  /** The weight of byte i of a little-endian word, `1 << (8 * i)`. */
  function ByteWeight(i: nat): (r: nat)
    requires i < 4
    ensures r == BitUtils.Pow2(8 * i)
  {
    Powers();
    if i == 0 then 1 else if i == 1 then 0x100 else if i == 2 then 0x1_0000 else 0x100_0000
  }

  /** `(v >> (8 * i)) & 0xFF`: byte i of v. */
  function ByteOf(v: u32, i: nat): (r: u8)
    requires i < 4
    ensures r == (v / ByteWeight(i)) % 0x100
  {
    LowByte(v / ByteWeight(i))
  }

  /** A 32-bit load from a byte array at word index w, least significant byte first. */
  function LoadWord(b: seq<u8>, w: nat): (r: u32)
    requires 4 * w + 4 <= |b|
    ensures r % 0x100 == b[4 * w]
  {
    var b0, b1, b2, b3: nat := b[4 * w], b[4 * w + 1], b[4 * w + 2], b[4 * w + 3];
    var x := b0 + b1 * 0x100 + b2 * 0x1_0000 + b3 * 0x100_0000;
    WordFits(b[4 * w], b[4 * w + 1], b[4 * w + 2], b[4 * w + 3]);
    x
  }

  lemma WordFits(a: u8, b: u8, c: u8, d: u8)
    ensures a + b * 0x100 + c * 0x1_0000 + d * 0x100_0000 < Word32
    ensures (a + b * 0x100 + c * 0x1_0000 + d * 0x100_0000) % 0x100 == a
  {
    var q := b + c * 0x100 + d * 0x1_0000;
    assert a + b * 0x100 + c * 0x1_0000 + d * 0x100_0000 == q * 0x100 + a;
    DivOf(q * 0x100 + a, 0x100, q, a);
  }

  /** A 32-bit store into a byte array at word index w, least significant byte first. */
  function StoreWord(b: seq<u8>, w: nat, v: u32): (r: seq<u8>)
    requires 4 * w + 4 <= |b|
    ensures |r| == |b|
    ensures forall j | 0 <= j < |b| && !(4 * w <= j < 4 * w + 4) :: r[j] == b[j]
    ensures forall i | 0 <= i < 4 :: r[4 * w + i] == ByteOf(v, i)
  {
    b[4 * w := ByteOf(v, 0)][4 * w + 1 := ByteOf(v, 1)][4 * w + 2 := ByteOf(v, 2)][4 * w + 3 := ByteOf(v, 3)]
  }

  /** A word is the sum of its four bytes at their weights. */
  lemma WordOfBytes(v: u32)
    ensures v == ByteOf(v, 0) + ByteOf(v, 1) * 0x100 + ByteOf(v, 2) * 0x1_0000 + ByteOf(v, 3) * 0x100_0000
  {
    var a, q1 := v % 0x100, v / 0x100;
    var b, q2 := q1 % 0x100, q1 / 0x100;
    var c, d := q2 % 0x100, q2 / 0x100;
    DivOf(v, 0x1_0000, q2, a + b * 0x100);
    DivOf(v, 0x100_0000, d, a + b * 0x100 + c * 0x1_0000);
    assert d < 0x100;
    DivOf(d, 0x100, 0, d);
  }

  /** Storing a word and loading it back gives the word. */
  lemma LoadStore(b: seq<u8>, w: nat, v: u32)
    requires 4 * w + 4 <= |b|
    ensures LoadWord(StoreWord(b, w, v), w) == v
  {
    WordOfBytes(v);
  }

  /** A store leaves every other word as it was. */
  lemma LoadStoreOther(b: seq<u8>, w: nat, w': nat, v: u32)
    requires 4 * w + 4 <= |b| && 4 * w' + 4 <= |b| && w != w'
    ensures LoadWord(StoreWord(b, w, v), w') == LoadWord(b, w')
  {}

  // ---------------------------------------------------------------------
  // GICD_SGIR
  // ---------------------------------------------------------------------

  /** `sgir & 0xF`: SGIINTID. */
  function SgirId(v: u32): (r: nat)
    ensures r == v % 16
  {
    Powers();
    LowMask(v, 4);
    And(v, 0xF)
  }

  /** `(sgir >> 24) & 0x3`: TargetListFilter. */
  function SgirFilter(v: u32): (r: nat)
    ensures r == (v / 0x100_0000) % 4
  {
    Powers();
    LowMask(v / 0x100_0000, 2);
    And(v / 0x100_0000, 3)
  }

  /** `(sgir >> 16) & 0xFF`: CPUTargetList. */
  function SgirTargets(v: u32): (r: nat)
    ensures r == (v / 0x1_0000) % 0x100
  {
    LowByte(v / 0x1_0000)
  }

  /** The value a guest writes to GICD_SGIR to send SGI `id` with the given filter and target list. */
  function EncodeSgir(id: nat, filter: nat, targets: nat): (v: u32)
    requires id < 16 && filter < 4 && targets < 0x100
  {
    filter * 0x100_0000 + targets * 0x1_0000 + id
  }

  /** Decoding an encoded GICD_SGIR value gives back the SGI id, the filter and the target list. */
  lemma SgirRoundTrip(id: nat, filter: nat, targets: nat)
    requires id < 16 && filter < 4 && targets < 0x100
    ensures SgirId(EncodeSgir(id, filter, targets)) == id
    ensures SgirFilter(EncodeSgir(id, filter, targets)) == filter
    ensures SgirTargets(EncodeSgir(id, filter, targets)) == targets
  {
    var v := EncodeSgir(id, filter, targets);
    DivOf(v, 16, filter * 0x10_0000 + targets * 0x1000, id);
    DivOf(v, 0x100_0000, filter, targets * 0x1_0000 + id);
    DivOf(filter, 4, 0, filter);
    DivOf(v, 0x1_0000, filter * 0x100 + targets, id);
    DivOf(filter * 0x100 + targets, 0x100, filter, targets);
  }

  /**
   Whether the vCPU with id `vcpu` receives an SGI written by vCPU `curr`:
   filter 0 sends to the vCPUs whose bit is set in the target list
   (`(targets >> vcpu) & 1`), 1 to every vCPU but the writer, 2 to the
   writer alone; 3 is reserved and sends nothing.
   */
  predicate SgiTargeted(filter: nat, targets: nat, vcpu: nat, curr: nat) {
    if filter == 0 then Bit(targets, vcpu)
    else if filter == 1 then vcpu != curr
    else if filter == 2 then vcpu == curr
    else false
  }

  /** A target list below 256 never names a vCPU with id 8 or more. */
  lemma {:induction false} ListedBelow8(targets: nat, vcpu: nat)
    requires targets < 0x100 && vcpu >= 8
    ensures !SgiTargeted(0, targets, vcpu, 0)
  {
    Powers();
    ModSmall(targets, 0x100);
    ModBit(targets, 8, vcpu);
  }

  // ---------------------------------------------------------------------
  // GICD_TYPER
  // ---------------------------------------------------------------------

  /**
   The GICD_TYPER a guest reads: the hardware value with CPUNumber (bits
   [7:5]) replaced by `(vcpu_cnt - 1) & 7`, or cleared when the VM has no
   vCPU.
   */
  function TyperRead(hw: u32, vcpuCnt: u32): (r: u32)
    ensures r == (hw / 0x100) * 0x100 + (if vcpuCnt > 0 then (vcpuCnt - 1) % 8 else 0) * 32 + hw % 32
  {
    Powers();
    var cleared := AndNot(hw, 0xE0);
    TyperClear(hw);
    if vcpuCnt > 0 then
      LowMask(vcpuCnt - 1, 3);
      var f := And(vcpuCnt - 1, 7);
      TyperInsert(hw, f);
      Or(cleared, f * 32)
    else
      cleared
  }

  /** `x & ~(0x7 << 5)` keeps everything but bits 5..7. */
  lemma TyperClear(hw: u32)
    ensures AndNot(hw, 0xE0) == (hw / 0x100) * 0x100 + hw % 32
  {
    Powers();
    var lo, hi := hw % 32, (hw / 0x100) * 0x100;
    AndSplit(hw, 0xE0);
    AndMask(hw, 8, 5);
    HighLowSplit(hw);
  }

  lemma HighLowSplit(hw: nat)
    ensures hw == (hw / 0x100) * 0x100 + ((hw % 0x100) / 32) * 32 + hw % 32
  {
    var q, m := hw / 0x100, hw % 0x100;
    DivOf(m, 32, m / 32, m % 32);
    DivOf(hw, 32, q * 8 + m / 32, m % 32);
  }

  lemma TyperInsert(hw: u32, f: nat)
    requires f < 8
    ensures Or(AndNot(hw, 0xE0), f * 32) == (hw / 0x100) * 0x100 + f * 32 + hw % 32
  {
    Powers();
    TyperClear(hw);
    var lo, hi := hw % 32, (hw / 0x100) * 0x100;
    DivOf(hi, 32, (hw / 0x100) * 8, 0);
    DivOf(f * 32, 32, f, 0);
    OrAddHigh(lo, hi, f * 32, 5);
    DivOf(hi, 0x100, hw / 0x100, 0);
    OrComm(hi, f * 32);
    DisjointOr(f * 32, hi, 8);
  }

  /** `x & y` and `x & ~y` split x between them. */
  lemma {:induction false} AndSplit(x: nat, y: nat)
    decreases x
    ensures And(x, y) + AndNot(x, y) == x
  {
    if x != 0 && y != 0 {
      AndSplit(x / 2, y / 2);
    } else if x != 0 {
      AndNotZero(x);
    }
  }

  lemma {:induction false} AndNotZero(x: nat)
    decreases x
    ensures AndNot(x, 0) == x
  {
    if x != 0 {
      AndNotZero(x / 2);
    }
  }

  /** GICD_TYPER_CPU_NUM: `((typer >> 5) & 7) + 1`. */
  function CpuNumber(typer: u32): (n: nat)
    ensures n == (typer / 32) % 8 + 1
  {
    LowMask(typer / 32, 3);
    And(typer / 32, 7) + 1
  }

  /** A guest of a VM with one to eight vCPUs reads back the vCPU count from GICD_TYPER. */
  lemma TyperCountsVcpus(hw: u32, vcpuCnt: u32)
    requires 1 <= vcpuCnt <= 8
    ensures CpuNumber(TyperRead(hw, vcpuCnt)) == vcpuCnt
  {
    var f := vcpuCnt - 1;
    var r := TyperRead(hw, vcpuCnt);
    assert f % 8 == f;
    DivOf(r, 32, (hw / 0x100) * 8 + f, hw % 32);
    DivOf((hw / 0x100) * 8 + f, 8, hw / 0x100, f);
  }

  /** The rest of GICD_TYPER (ITLinesNumber, SecurityExtn, LSPI) passes through from the hardware. */
  lemma TyperKeepsHardwareFields(hw: u32, vcpuCnt: u32)
    ensures TyperRead(hw, vcpuCnt) % 32 == hw % 32
    ensures TyperRead(hw, vcpuCnt) / 0x100 == hw / 0x100
  {
    var r := TyperRead(hw, vcpuCnt);
    var f := if vcpuCnt > 0 then (vcpuCnt - 1) % 8 else 0;
    DivOf(r, 32, (hw / 0x100) * 8 + f, hw % 32);
    DivOf(r, 0x100, hw / 0x100, f * 32 + hw % 32);
  }

  // ---------------------------------------------------------------------
  // GICD_ICFGR and GICD_ITARGETSR for SGIs and PPIs
  // ---------------------------------------------------------------------

  /** Field m of a word of two-bit fields: `(word >> 2m) & 3`. */
  function Field2(word: nat, m: nat): (f: nat)
    decreases m
    ensures f < 4
  {
    if m == 0 then word % 4 else Field2(word / 4, m - 1)
  }

  /** The Int_config field of interrupt k in its GICD_ICFGR word. */
  function ConfigField(word: nat, k: nat): (f: nat)
    ensures f < 4
  {
    Field2(word, k % 16)
  }

  /** The SGI/PPI GICD_ICFGR read: word 0 is 0x0000AAAA, word 1 is 0. */
  function CfgSgiPpiRead(word: nat): (r: u32) {
    if word == 0 then 0xAAAA else 0
  }

  lemma {:induction false} OddBitsFields(n: nat, m: nat)
    decreases m
    ensures Field2(OddBits(n), m) == if m < n then 2 else 0
  {
    if m > 0 {
      if n > 0 {
        assert OddBits(n) / 4 == OddBits(n - 1);
        OddBitsFields(n - 1, m - 1);
      } else {
        ZeroFields(m);
      }
    }
  }

  lemma {:induction false} ZeroFields(m: nat)
    decreases m
    ensures Field2(0, m) == 0
  {
    if m > 0 {
      ZeroFields(m - 1);
    }
  }

  /** SGIs 0..7 read Int_config 0b10; SGIs 8..15 and every PPI (16..31) read 0b00. */
  lemma CfgSgiPpiFields(k: nat)
    requires k < 32
    ensures ConfigField(CfgSgiPpiRead(k / 16), k) == if k < 8 then 2 else 0
  {
    if k < 16 {
      OddBitsWord();
      OddBitsFields(8, k);
    } else {
      ZeroFields(k % 16);
    }
  }

  /** `(uint8_t)(1 << vcpu)`: the target byte naming the reading vCPU alone. */
  function SelfTargetByte(vcpu: nat): (r: u8)
    ensures vcpu < 8 ==> r == BitUtils.Pow2(vcpu)
    ensures vcpu >= 8 ==> r == 0
  {
    Powers();
    if vcpu < 8 then
      BitUtils.Pow2Monotone(vcpu, 7);
      BitUtils.Pow2(vcpu)
    else
      BitUtils.Pow2Add(8, vcpu - 8);
      DivOf(BitUtils.Pow2(vcpu), 0x100, BitUtils.Pow2(vcpu - 8), 0);
      LowByte(BitUtils.Pow2(vcpu))
  }

  /** The SGI/PPI GICD_ITARGETSR read: the self-target byte in each of the four byte lanes. */
  function TargetSgiPpiRead(vcpu: nat): (r: u32)
    ensures forall i | 0 <= i < 4 :: ByteOf(r, i) == SelfTargetByte(vcpu)
  {
    var v := SelfTargetByte(vcpu);
    var r := v * 0x100_0000 + v * 0x1_0000 + v * 0x100 + v;
    ReplicatedBytes(v, r);
    r
  }

  lemma ReplicatedBytes(v: u8, r: nat)
    requires r == v * 0x100_0000 + v * 0x1_0000 + v * 0x100 + v
    ensures r < Word32
    ensures forall i | 0 <= i < 4 :: ByteOf(r, i) == v
  {
    DivOf(r, 0x100, v * 0x1_0000 + v * 0x100 + v, v);
    DivOf(r, 0x1_0000, v * 0x100 + v, v * 0x100 + v);
    DivOf(v * 0x100 + v, 0x100, v, v);
    DivOf(r, 0x100_0000, v, v * 0x1_0000 + v * 0x100 + v);
    DivOf(v, 0x100, 0, v);
    DivOf(v * 0x1_0000 + v * 0x100 + v, 0x100, v * 0x100 + v, v);
  }

  /** Bit `vcpu` of each lane is set exactly when the vCPU id fits in the eight-bit target list. */
  lemma SelfTargetNamesReader(vcpu: nat)
    ensures Bit(SelfTargetByte(vcpu), vcpu) <==> vcpu < 8
  {
    if vcpu < 8 {
      PowBit(vcpu, vcpu);
    } else {
      ZeroBit(vcpu);
    }
  }

  // ---------------------------------------------------------------------
  // SPI GICD_ICFGR write
  // ---------------------------------------------------------------------

  /** 0xAAAAAAAA: the high bit of each two-bit Int_config field. */
  function OddBits(n: nat): (r: nat)
    decreases n
  {
    if n == 0 then 0 else 4 * OddBits(n - 1) + 2
  }

  lemma {:induction false} OddBitsBit(n: nat, j: nat)
    decreases n
    ensures Bit(OddBits(n), j) <==> j < 2 * n && j % 2 == 1
  {
    if n == 0 {
      ZeroBit(j);
    } else if j >= 2 {
      var o := OddBits(n - 1);
      assert Bit(OddBits(n), j) == Bit(OddBits(n) / 2, j - 1) == Bit(OddBits(n) / 4, j - 2);
      assert OddBits(n) / 4 == o;
      OddBitsBit(n - 1, j - 2);
    }
  }

  lemma OddBitsWord()
    ensures OddBits(8) == 0xAAAA && OddBits(16) == 0xAAAA_AAAA
  {
    assert OddBits(4) == 0xAA;
    assert OddBits(8) == 0xAAAA;
    assert OddBits(12) == 0xAA_AAAA;
  }

  /** `value & 0xAAAAAAAA`: what the hardware GICD_ICFGR receives, only the edge/level bit of each field. */
  function HwConfig(v: u32): (r: u32)
    ensures forall j: nat | j < 32 :: Bit(r, j) <==> Bit(v, j) && j % 2 == 1
  {
    OddBitsWord();
    AndBelow(v, 0xAAAA_AAAA);
    assert forall j: nat | j < 32 :: Bit(And(v, 0xAAAA_AAAA), j) <==> Bit(v, j) && j % 2 == 1 by {
      forall j: nat | j < 32
        ensures Bit(And(v, 0xAAAA_AAAA), j) <==> Bit(v, j) && j % 2 == 1
      {
        AndBit(v, 0xAAAA_AAAA, j);
        OddBitsBit(16, j);
      }
    }
    And(v, 0xAAAA_AAAA)
  }
}
