/**
 The GICv2 list-register words the hypervisor builds and reads back
 (dev/gic.c). A list register (section 5.3.2 of the GICv2 architecture
 specification, GICH_LR) holds the virtual id in bits 0..9, the physical
 id or the requesting CPU in bits 10..19, the priority in bits 23..27,
 the state in bits 28..29, the group in bit 30 and the hardware flag in
 bit 31. The encoders combine their fields with `|`; the fields occupy
 disjoint bits, so the order of the `|` does not matter, and the model
 writes them lowest field first.
 */
module Gic {
  import opened CTypes
  import opened IntBits
  import opened Util
  import BitUtils

  /** Bit 28 set: the state field says "pending". Bit 31: the hardware flag. */
  const PendingHw := 0x9000_0000
  const Pending := 0x1000_0000
  const Group1 := 0x4000_0000

  /** The powers of two the list-register fields sit at. */
  lemma Powers()
    ensures BitUtils.Pow2(3) == 8 && BitUtils.Pow2(8) == 0x100 && BitUtils.Pow2(9) == 0x200
    ensures BitUtils.Pow2(10) == 0x400 && BitUtils.Pow2(20) == 0x10_0000 && BitUtils.Pow2(23) == 0x80_0000
    ensures BitUtils.Pow2(28) == 0x1000_0000 && BitUtils.Pow2(29) == 0x2000_0000 && BitUtils.Pow2(32) == Word32
  {
    assert BitUtils.Pow2(8) == 0x100 && BitUtils.Pow2(3) == 8;
    BitUtils.Pow2Add(8, 1);
    BitUtils.Pow2Add(8, 2);
    BitUtils.Pow2Add(10, 10);
    BitUtils.Pow2Add(20, 3);
    BitUtils.Pow2Add(20, 8);
    BitUtils.Pow2Add(28, 1);
    BitUtils.Pow2Word();
  }

  /** `v & 0x1ff`: the low 9 bits. */
  function Low9(v: nat): (r: nat)
    ensures r == v % 0x200
  {
    LowMask(v, 9);
    Powers();
    And(v, 0x1ff)
  }

  /** `pri & 0xf8` on an `int32_t` priority: bits 3..7 of its two's complement form. */
  function PriField(pri: i32): (r: nat)
    ensures r < 0x100 && r % 8 == 0
    ensures r == (pri % 0x100) / 8 * 8
  {
    PriMask(pri % 0x100);
    And(pri % 0x100, 0xf8)
  }

  lemma PriMask(b: nat)
    requires b < 0x100
    ensures And(b, 0xf8) == b / 8 * 8 && b / 8 * 8 < 0x100 && (b / 8 * 8) % 8 == 0
  {
    AndMask(b, 8, 3);
    Powers();
    ModSmall(b, 0x100);
    var q := b / 8;
    assert And(b, 0xf8) == q * 8;
    DivOf(q * 8, 8, q, 0);
  }

  /** The high fields shared by every encoder: priority, group and the state/hardware bits in `top`. */
  function HighFields(pri: i32, grp1: bool, top: nat): (r: nat)
    requires top == Pending || top == PendingHw
    ensures r == (top + (if grp1 then Group1 else 0)) + PriField(pri) * 0x10_0000
    ensures r < Word32 && r % 0x80_0000 == 0
  {
    var g := if grp1 then Group1 else 0;
    HighSum(top, grp1, PriField(pri));
    Or(Or(top, g), PriField(pri) * 0x10_0000)
  }

  lemma HighSum(top: nat, grp1: bool, p8: nat)
    requires top == Pending || top == PendingHw
    requires p8 < 0x100 && p8 % 8 == 0
    ensures var g := if grp1 then Group1 else 0;
      var r := Or(Or(top, g), p8 * 0x10_0000);
      r == (top + g) + p8 * 0x10_0000 && r < Word32 && r % 0x80_0000 == 0
  {
    var g := if grp1 then Group1 else 0;
    var t := top + g;
    if grp1 { TopGroup(top); }
    assert Or(top, g) == t;
    var p := p8 * 0x10_0000;
    var tq := (if top == Pending then 1 else 9) + (if grp1 then 4 else 0);
    assert t == tq * 0x1000_0000;
    HighArith(tq, p8);
    HighDisjoint(p, t);
    OrComm(p, t);
  }

  lemma HighArith(tq: nat, p8: nat)
    requires tq < 0xE && p8 < 0x100 && p8 % 8 == 0
    ensures var t, p := tq * 0x1000_0000, p8 * 0x10_0000;
      p % 0x10_0000 == 0 && p < 0x1000_0000 && t % 0x1000_0000 == 0
      && t + p < Word32 && (t + p) % 0x80_0000 == 0
  {
    var t, p := tq * 0x1000_0000, p8 * 0x10_0000;
    var q := p8 / 8;
    assert p == q * 0x80_0000;
    DivOf(p, 0x10_0000, p8, 0);
    DivOf(t, 0x1000_0000, tq, 0);
    DivOf(t + p, 0x80_0000, tq * 0x20 + q, 0);
  }

  lemma TopGroup(top: nat)
    requires top == Pending || top == PendingHw
    ensures Or(top, Group1) == top + Group1
  {
    Powers();
    BitUtils.Pow2Word();
    if top == Pending {
      OrComm(top, Group1);
      DisjointOr(Pending, Group1, 29);
    } else {
      OrAddHigh(Pending, 0x8000_0000, Group1, 29);
      OrComm(0x8000_0000, Group1);
      DisjointOr(Group1, 0x8000_0000, 31);
    }
  }

  lemma HighDisjoint(p: nat, t: nat)
    requires p % 0x10_0000 == 0 && p < 0x1000_0000 && t % 0x1000_0000 == 0
    ensures Or(p, t) == p + t
  {
    Powers();
    DisjointOr(p, t, 28);
  }

  /** A value that is a multiple of 2^k, plus one below 2^k: `|` is `+`. */
  lemma LowOr(v: nat, hi: nat, k: nat)
    requires v < BitUtils.Pow2(k) && hi % BitUtils.Pow2(k) == 0
    ensures Or(v, hi) == v + hi
  {
    DisjointOr(v, hi, k);
  }

  /**
   gic_make_virtual_hardware_interrupt: a pending hardware interrupt,
   virtual id `vector`, physical id `pintvec`, priority `pri & 0xf8`.
   */
  function MakeHw(vector: u32, pintvec: u32, pri: i32, grp1: bool): (r: u32)
    ensures r == HighFields(pri, grp1, PendingHw) + (pintvec % 0x200) * 0x400 + vector % 0x200
    ensures r % 0x400 == vector % 0x200
  {
    var h := HighFields(pri, grp1, PendingHw);
    HwLayout(Low9(vector), Low9(pintvec), h);
    Or(Low9(vector), Or(Low9(pintvec) * 0x400, h))
  }

  /** The three fields of a hardware list register are disjoint, so `|` adds them. */
  lemma HwLayout(v9: nat, p9: nat, h: nat)
    requires v9 < 0x200 && p9 < 0x200 && h < Word32 && h % 0x80_0000 == 0
    ensures Or(v9, Or(p9 * 0x400, h)) == h + p9 * 0x400 + v9
    ensures (h + p9 * 0x400 + v9) % 0x400 == v9
    ensures h + p9 * 0x400 + v9 < Word32
  {
    var pin := p9 * 0x400;
    Powers();
    MulOfMultiple(h, 0x80_0000, 0x10_0000);
    LowOr(pin, h, 20);
    MulOfMultiple(h, 0x80_0000, 0x400);
    Shifted(p9, 0x400);
    SumMultiple(pin, h, 0x400);
    LowOr(v9, pin + h, 10);
    AddLow(v9, pin + h, 0x400, 0x400);
    HighRoom(h);
  }

  lemma HighRoom(h: nat)
    requires h < Word32 && h % 0x80_0000 == 0
    ensures h + 0x80_0000 <= Word32
  {
    var q := h / 0x80_0000;
    assert h == q * 0x80_0000;
  }

  /** gic_make_virtual_software_interrupt: a pending software interrupt. */
  function MakeSw(vector: u32, pri: i32, grp1: bool): (r: u32)
    ensures r == HighFields(pri, grp1, Pending) + vector % 0x200
  {
    var h := HighFields(pri, grp1, Pending);
    Powers();
    MulOfMultiple(h, 0x80_0000, 0x400);
    LowOr(Low9(vector), h, 10);
    Or(Low9(vector), h)
  }

  /** `(uint32_t) cpu_id << 10`, wrapping at 32 bits. */
  function CpuField(cpu: i32): (r: u32)
    ensures r % 0x400 == 0
    ensures 0 <= cpu < 0x2000 ==> r == cpu * 0x400
  {
    var r := (cpu * 0x400) % Word32;
    ShiftWraps(cpu);
    r
  }

  lemma ShiftWraps(cpu: int)
    ensures ((cpu * 0x400) % Word32) % 0x400 == 0
  {
    var q := (cpu * 0x400) / Word32;
    var r := (cpu * 0x400) % Word32;
    assert r == (cpu - q * 0x40_0000) * 0x400;
    DivOf(r, 0x400, cpu - q * 0x40_0000, 0);
  }

  /**
   gic_make_virtual_software_sgi: a software interrupt with the requesting
   CPU in bits 10 and up. The CPU id is not masked, so a large id spills
   into the fields above; the virtual id is never disturbed.
   */
  function MakeSgi(vector: u32, cpu: i32, pri: i32, grp1: bool): (r: u32)
    ensures r % 0x400 == vector % 0x200
    ensures 0 <= cpu < 0x2000 ==> r == HighFields(pri, grp1, Pending) + cpu * 0x400 + vector % 0x200
  {
    var h := HighFields(pri, grp1, Pending);
    var c := CpuField(cpu);
    Powers();
    MulOfMultiple(h, 0x80_0000, 0x400);
    OrLow(c, h, 10);
    OrBelow(c, h, 32);
    var mid := Or(c, h);
    assert 0 <= cpu < 0x2000 ==> mid == c + h by {
      if 0 <= cpu < 0x2000 {
        Powers();
        DisjointOr(c, h, 23);
      }
    }
    TopFits(mid);
    LowOr(Low9(vector), mid, 10);
    AddLow(vector % 0x200, mid, 0x400, 0x400);
    Or(Low9(vector), mid)
  }

  lemma MulOfMultiple(h: nat, m: nat, d: nat)
    requires d > 0 && m > 0 && m % d == 0 && h % m == 0
    ensures h % d == 0
  {
    var a, b := h / m, m / d;
    assert h == (a * b) * d;
    DivOf(h, d, a * b, 0);
  }

  lemma Shifted(x: nat, d: nat)
    requires d > 0
    ensures (x * d) % d == 0
  {
    DivOf(x * d, d, x, 0);
  }

  lemma SumMultiple(a: nat, b: nat, d: nat)
    requires d > 0 && a % d == 0 && b % d == 0
    ensures (a + b) % d == 0
  {
    DivOf(a + b, d, a / d + b / d, 0);
  }

  lemma TopFits(m: nat)
    requires m < Word32 && m % 0x400 == 0
    ensures m + 0x3ff < Word32
  {
    var q := m / 0x400;
    assert m == q * 0x400;
  }

  lemma AddLow(v: nat, m: nat, n: nat, d: nat)
    requires 0 < n <= d && v < n && m % d == 0 && d % n == 0
    ensures (v + m) % n == v
  {
    MulOfMultiple(m, d, n);
    DivOf(v + m, n, m / n, v);
  }

  /** gic_lr_read_vid: `lr & 0x1ff`. */
  function ReadVid(lr: u32): (r: nat)
    ensures r == lr % 0x200
  {
    Low9(lr)
  }

  /** gic_lr_read_pri: `(lr & (0xf8 << 20)) >> 20`, the priority bits 23..27 brought down to bits 3..7. */
  function ReadPri(lr: u32): (r: nat)
    ensures r == (lr % 0x1000_0000) / 0x80_0000 * 8
    ensures r < 0x100 && r % 8 == 0
  {
    AndMask(lr, 28, 23);
    Powers();
    var q := (lr % 0x1000_0000) / 0x80_0000;
    DivOf(q * 0x80_0000, 0x10_0000, q * 8, 0);
    And(lr, 0xF80_0000) / 0x10_0000
  }

  /**
   The word layout every encoder produces: state/group/hardware bits on
   top, then the priority, a middle field, and the virtual id.
   */
  lemma Layout(r: nat, t: nat, q: nat, m: nat, v: nat)
    requires r == t * 0x1000_0000 + q * 0x80_0000 + m * 0x200 + v
    requires q < 0x20 && m < 0x4000 && v < 0x200
    ensures r / 0x1000_0000 == t
    ensures (r % 0x1000_0000) / 0x80_0000 == q
    ensures r % 0x200 == v
    ensures r / 0x200 % 0x4000 == m
  {
    var rest := q * 0x80_0000 + m * 0x200 + v;
    DivOf(r, 0x1000_0000, t, rest);
    DivOf(rest, 0x80_0000, q, m * 0x200 + v);
    DivOf(r, 0x200, t * 0x8_0000 + q * 0x4000 + m, v);
    DivOf(r / 0x200, 0x4000, t * 0x20 + q, m);
  }

  /** A hardware word reads back its virtual id, priority, physical id and top bits. */
  lemma HwReadsBack(vector: u32, pintvec: u32, pri: i32, grp1: bool)
    ensures var r := MakeHw(vector, pintvec, pri, grp1);
      ReadVid(r) == vector % 0x200 && ReadPri(r) == PriField(pri)
      && (r / 0x400) % 0x200 == pintvec % 0x200
      && r / 0x1000_0000 == (if grp1 then 0xD else 0x9)
  {
    var r := MakeHw(vector, pintvec, pri, grp1);
    var t := if grp1 then 0xD else 0x9;
    var q := PriField(pri) / 8;
    var l := pintvec % 0x200;
    Layout(r, t, q, 2 * l, vector % 0x200);
    DivOf(r, 0x400, t * 0x4_0000 + q * 0x2000 + l, vector % 0x200);
    DivOf(r / 0x400, 0x200, t * 0x200 + q * 0x10, l);
  }

  /** A software word reads back its virtual id and priority, with bit 28 set and bit 31 clear. */
  lemma SwReadsBack(vector: u32, pri: i32, grp1: bool)
    ensures var r := MakeSw(vector, pri, grp1);
      ReadVid(r) == vector % 0x200 && ReadPri(r) == PriField(pri)
      && r / 0x1000_0000 == (if grp1 then 5 else 1)
  {
    var r := MakeSw(vector, pri, grp1);
    Layout(r, if grp1 then 5 else 1, PriField(pri) / 8, 0, vector % 0x200);
  }

  /**
   An SGI word for a CPU id below 2^13 reads back its virtual id,
   priority and CPU id, with bit 28 set and bit 31 clear.
   */
  lemma SgiReadsBack(vector: u32, cpu: i32, pri: i32, grp1: bool)
    requires 0 <= cpu < 0x2000
    ensures var r := MakeSgi(vector, cpu, pri, grp1);
      ReadVid(r) == vector % 0x200 && ReadPri(r) == PriField(pri)
      && r / 0x400 % 0x2000 == cpu
      && r / 0x1000_0000 == (if grp1 then 5 else 1)
  {
    var r := MakeSgi(vector, cpu, pri, grp1);
    var t := if grp1 then 5 else 1;
    var q := PriField(pri) / 8;
    Layout(r, t, q, 2 * cpu, vector % 0x200);
    DivOf(r, 0x400, t * 0x4_0000 + q * 0x2000 + cpu, vector % 0x200);
    DivOf(r / 0x400, 0x2000, t * 0x20 + q, cpu);
  }
}
