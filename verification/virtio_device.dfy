/**
 The hypervisor's emulated virtio-mmio devices (vmm/vdev/virtio/virtqueue.c
 and vmm/vdev/virtio/virtio.c): the device side of a split virtqueue, the
 register file a guest reaches through trapped MMIO accesses, and the static
 device pool. Guest memory holding a queue's rings is a value passed in;
 callbacks the registers trigger (queue notify, reset) are returned as effects.
 */
module VirtioDevice {
  import opened Util
  import opened CTypes
  import VirtioFrontend
  import IntBits
  import BitUtils

  type Desc = VirtioFrontend.Desc
  type UsedElem = VirtioFrontend.UsedElem

  /** The largest queue a guest may configure. */
  const MaxQueueNum := 256
  /** The longest descriptor chain the device follows. */
  const MaxChain := 16
  const Word16 := 0x1_0000

  const Magic := 0x7472_6976
  const VendorQemu := 0x554D_4551
  /** VM_NUM_MAX (4) devices per VM times 8. */
  const PoolDevices := 32
  /** Eight queues for each pool device. */
  const PoolQueues := 256
  /** The size of each device's MMIO window. */
  const WindowSize := 0x1000

  const IdNet := 1
  const IdBlock := 2
  const IdConsole := 3

  // Register offsets of the virtio-mmio transport.
  const RegMagic := 0x000
  const RegVersion := 0x004
  const RegDeviceId := 0x008
  const RegVendorId := 0x00c
  const RegDeviceFeatures := 0x010
  const RegDeviceFeaturesSel := 0x014
  const RegDriverFeatures := 0x020
  const RegDriverFeaturesSel := 0x024
  const RegQueueSel := 0x030
  const RegQueueNumMax := 0x034
  const RegQueueNum := 0x038
  const RegQueueReady := 0x044
  const RegQueueNotify := 0x050
  const RegInterruptStatus := 0x060
  const RegInterruptAck := 0x064
  const RegStatus := 0x070
  const RegQueueDescLow := 0x080
  const RegQueueDescHigh := 0x084
  const RegQueueAvailLow := 0x090
  const RegQueueAvailHigh := 0x094
  const RegQueueUsedLow := 0x0a0
  const RegQueueUsedHigh := 0x0a4
  const RegConfigGeneration := 0x0fc
  const RegConfig := 0x100

  /** Interrupt status bit: the used ring changed. */
  const IntVring := 1
  /** Used-ring flag: the driver does not want interrupts. */
  const UsedNoNotify := 1

  // ---------------------------------------------------------------------
  // The device side of a queue
  // ---------------------------------------------------------------------

  /** virtqueue_t: the queue's configuration and the two indices the device owns. Pointers are addresses, 0 for NULL. */
  datatype VQueue = VQueue(
    num: u32, ready: u32, lastAvail: u16, usedIdx: u16,
    descAddr: u64, availAddr: u64, usedAddr: u64,
    desc: u64, avail: u64, used: u64)

  /** The guest memory a queue's pointers reach: the descriptor table and both rings. */
  datatype Rings = Rings(
    desc: seq<Desc>, availIdx: u16, availRing: seq<u16>,
    usedFlags: u16, usedIdx: u16, usedRing: seq<UsedElem>)

  function ZeroQueue(): VQueue {
    VQueue(0, 0, 0, 0, 0, 0, 0, 0, 0, 0)
  }

  /** A queue the device may serve: a live queue has between 1 and 256 entries. */
  predicate Live(vq: VQueue) {
    vq.num <= MaxQueueNum && (vq.ready != 0 ==> vq.num > 0)
  }

  /** The guest memory holds at least `num` entries in every table. */
  predicate Fits(vq: VQueue, m: Rings) {
    |m.desc| >= vq.num && |m.availRing| >= vq.num && |m.usedRing| >= vq.num
  }

  /** virtio_queue_init: refuse 0 or more than 256 entries; otherwise a stopped, unmapped queue of `num`. */
  function QueueInit(vq: VQueue, num: u32): (r: Option<VQueue>)
    ensures r.None? <==> num == 0 || num > MaxQueueNum
    ensures r.Some? ==> r.value == ZeroQueue().(num := num) && Live(r.value)
  {
    if num == 0 || num > MaxQueueNum then None
    else Some(VQueue(num, 0, 0, 0, 0, 0, 0, 0, 0, 0))
  }

  /** virtio_queue_reset: every field back to zero, so the queue is stopped. */
  function QueueReset(vq: VQueue): (r: VQueue)
    ensures r.ready == 0 && r.num == 0 && r.lastAvail == 0 && r.usedIdx == 0 && Live(r)
    ensures r.desc == 0 && r.avail == 0 && r.used == 0
  {
    ZeroQueue()
  }

  /** virtio_queue_available: the driver has published entries the device has not taken. */
  function Available(vq: VQueue, m: Rings): (b: bool)
    ensures b <==> vq.ready != 0 && vq.avail != 0 && vq.lastAvail != m.availIdx
  {
    vq.ready != 0 && vq.avail != 0 && vq.lastAvail != m.availIdx
  }

  /**
   The chain walk of virtio_queue_pop: copy descriptors while NEXT is set,
   refusing an index past the table or a 17th descriptor.
   */
  function Collect(desc: seq<Desc>, num: nat, idx: nat, acc: seq<Desc>): (r: Option<seq<Desc>>)
    requires num <= |desc| && |acc| <= MaxChain
    decreases MaxChain - |acc|
    ensures r.Some? ==> |acc| < |r.value| <= MaxChain && r.value[..|acc|] == acc
    ensures r.Some? ==> r.value[|r.value| - 1].flags % 2 == 0
  {
    if idx >= num then None
    else if |acc| >= MaxChain then None
    else
      var d := desc[idx];
      if d.flags % 2 == 1 then Collect(desc, num, d.next, acc + [d])
      else Some(acc + [d])
  }

  /**
   On a chain of `k` <= 16 entries inside the table, flagged NEXT on all but
   the last, Collect returns exactly those descriptors in chain order.
   */
  lemma {:induction false} CollectChain(desc: seq<Desc>, num: nat, idx: nat, acc: seq<Desc>, k: nat)
    requires num <= |desc| && VirtioFrontend.Linked(desc) && idx < num
    requires 0 < k && |acc| + k <= MaxChain
    requires forall m :: 0 <= m < k ==> VirtioFrontend.Walk(desc, idx, k)[m] < num
    requires forall m :: 0 <= m < k - 1 ==> desc[VirtioFrontend.Walk(desc, idx, k)[m]].flags % 2 == 1
    requires desc[VirtioFrontend.Walk(desc, idx, k)[k - 1]].flags % 2 == 0
    decreases k
    ensures Collect(desc, num, idx, acc) == Some(acc + seq(k, m requires 0 <= m < k => desc[VirtioFrontend.Walk(desc, idx, k)[m]]))
  {
    var w := VirtioFrontend.Walk(desc, idx, k);
    var d := desc[idx];
    if k > 1 {
      ChainTail(desc, num, idx, k);
      var w1 := VirtioFrontend.Walk(desc, d.next, k - 1);
      CollectChain(desc, num, d.next, acc + [d], k - 1);
      ChainCons(desc, w, w1, d, acc, k);
    } else {
      assert seq(k, m requires 0 <= m < k => desc[w[m]]) == [d];
    }
  }

  /** The walk from the second entry of a well-formed chain is again a well-formed chain, one shorter. */
  lemma ChainTail(desc: seq<Desc>, num: nat, idx: nat, k: nat)
    requires num <= |desc| && VirtioFrontend.Linked(desc) && idx < num && 1 < k
    requires forall m :: 0 <= m < k ==> VirtioFrontend.Walk(desc, idx, k)[m] < num
    requires forall m :: 0 <= m < k - 1 ==> desc[VirtioFrontend.Walk(desc, idx, k)[m]].flags % 2 == 1
    requires desc[VirtioFrontend.Walk(desc, idx, k)[k - 1]].flags % 2 == 0
    ensures var w1 := VirtioFrontend.Walk(desc, desc[idx].next, k - 1);
      w1 == VirtioFrontend.Walk(desc, idx, k)[1..]
      && desc[idx].next < num && desc[idx].flags % 2 == 1
      && (forall m :: 0 <= m < k - 1 ==> w1[m] < num)
      && (forall m :: 0 <= m < k - 2 ==> desc[w1[m]].flags % 2 == 1)
      && desc[w1[k - 2]].flags % 2 == 0
  {
    var w := VirtioFrontend.Walk(desc, idx, k);
    var w1 := VirtioFrontend.Walk(desc, desc[idx].next, k - 1);
    assert w[1..] == w1;
    assert w[0] == idx;
    assert w1[0] == w[1];
    forall m | 0 <= m < k - 1 ensures w1[m] < num { assert w1[m] == w[m + 1]; }
    forall m | 0 <= m < k - 2 ensures desc[w1[m]].flags % 2 == 1 { assert w1[m] == w[m + 1]; }
    assert w1[k - 2] == w[k - 1];
  }

  lemma ChainCons(desc: seq<Desc>, w: seq<nat>, w1: seq<nat>, d: Desc, acc: seq<Desc>, k: nat)
    requires 1 < k && |w| == k && w1 == w[1..] && forall m :: 0 <= m < k ==> w[m] < |desc|
    requires desc[w[0]] == d
    ensures acc + [d] + seq(k - 1, m requires 0 <= m < k - 1 => desc[w1[m]])
      == acc + seq(k, m requires 0 <= m < k => desc[w[m]])
  {
    var s1 := seq(k - 1, m requires 0 <= m < k - 1 => desc[w1[m]]);
    var s := seq(k, m requires 0 <= m < k => desc[w[m]]);
    assert [d] + s1 == s;
  }

  /** A chain whose first 16 entries all carry NEXT is refused, whatever follows. */
  lemma {:induction false} CollectRefusesLong(desc: seq<Desc>, num: nat, idx: nat, acc: seq<Desc>, k: nat)
    requires num <= |desc| && VirtioFrontend.Linked(desc) && idx < num && |acc| <= MaxChain
    requires k == MaxChain - |acc|
    requires forall m :: 0 <= m < k ==> VirtioFrontend.Walk(desc, idx, k)[m] < num
    requires forall m :: 0 <= m < k ==> desc[VirtioFrontend.Walk(desc, idx, k)[m]].flags % 2 == 1
    decreases k
    ensures Collect(desc, num, idx, acc) == None
  {
    if |acc| < MaxChain {
      var w := VirtioFrontend.Walk(desc, idx, k);
      var d := desc[idx];
      if k > 1 {
        var w1 := VirtioFrontend.Walk(desc, d.next, k - 1);
        assert w[1..] == w1;
        forall m | 0 <= m < k - 1 ensures w1[m] < num && desc[w1[m]].flags % 2 == 1 { assert w1[m] == w[m + 1]; }
        CollectRefusesLong(desc, num, d.next, acc + [d], k - 1);
      } else {
        assert w[0] == idx;
        assert desc[idx].next < |desc|;
        if d.next < num {
          assert Collect(desc, num, d.next, acc + [d]) == None;
        }
      }
    }
  }

  datatype Popped = Popped(vq: VQueue, ret: int, chain: seq<Desc>)

  /**
   virtio_queue_pop: take the next published head and copy its chain; on
   any refusal the queue is unchanged and nothing is taken.
   */
  function Pop(vq: VQueue, m: Rings): (r: Popped)
    requires Live(vq) && Fits(vq, m)
    ensures r.ret == -1 ==> r.vq == vq && r.chain == []
    ensures !Available(vq, m) || vq.desc == 0 ==> r.ret == -1
    ensures r.ret != -1 ==> (
      r.ret == m.availRing[vq.lastAvail % vq.num] && r.ret < vq.num
      && 0 < |r.chain| <= MaxChain && r.chain[|r.chain| - 1].flags % 2 == 0
      && r.vq == vq.(lastAvail := (vq.lastAvail + 1) % Word16))
  {
    if vq.ready == 0 || vq.avail == 0 || vq.desc == 0 then Popped(vq, -1, [])
    else if vq.lastAvail == m.availIdx then Popped(vq, -1, [])
    else
      var head := m.availRing[vq.lastAvail % vq.num];
      match Collect(m.desc, vq.num, head, [])
      case None => Popped(vq, -1, [])
      case Some(c) => Popped(vq.(lastAvail := (vq.lastAvail + 1) % Word16), head, c)
  }

  datatype Pushed = Pushed(vq: VQueue, rings: Rings)

  /** virtio_queue_push: record the finished chain in the next used slot, then publish the new used index. */
  function Push(vq: VQueue, m: Rings, id: u32, len: u32): (r: Pushed)
    requires Live(vq) && Fits(vq, m)
    ensures Fits(r.vq, r.rings) && Live(r.vq) && r.vq.num == vq.num && |r.rings.usedRing| == |m.usedRing|
    ensures vq.ready == 0 || vq.used == 0 ==> r == Pushed(vq, m)
    ensures vq.ready != 0 && vq.used != 0 ==> (
      r.vq.usedIdx == (vq.usedIdx + 1) % Word16 && r.rings.usedIdx == r.vq.usedIdx
      && r.rings.usedRing[vq.usedIdx % vq.num] == VirtioFrontend.UsedElem(id, len)
      && (forall i :: 0 <= i < |m.usedRing| && i != vq.usedIdx % vq.num ==> r.rings.usedRing[i] == m.usedRing[i])
      && r.rings.desc == m.desc && r.rings.availRing == m.availRing && r.rings.availIdx == m.availIdx)
  {
    if vq.ready == 0 || vq.used == 0 then Pushed(vq, m)
    else
      var slot := vq.usedIdx % vq.num;
      var idx := (vq.usedIdx + 1) % Word16;
      Pushed(vq.(usedIdx := idx),
             m.(usedRing := m.usedRing[slot := VirtioFrontend.UsedElem(id, len)], usedIdx := idx))
  }

  /**
   A request crosses from driver to device: after the driver adds a chain of
   at most 16 buffers, the device pops that head and sees the driver's
   buffers and lengths in order, with NEXT on all but the last and WRITE on
   exactly the device-written ones.
   */
  lemma DriverChainReachesDevice(d: VirtioFrontend.Driver, qid: u32, bufs: seq<u64>, lens: seq<u32>,
                                 outNum: u32, inNum: u32, vq: VQueue)
    requires VirtioFrontend.DriverWf(d) && qid < d.numQueues && VirtioFrontend.Ready(d.queues[qid])
    requires |bufs| == outNum + inNum && |lens| == outNum + inNum
    requires 0 < outNum + inNum <= MaxChain && outNum + inNum <= d.queues[qid].numFree
    requires vq.num == d.queues[qid].size && vq.ready != 0 && vq.avail != 0 && vq.desc != 0
    requires vq.lastAvail == d.queues[qid].availIdx && Live(vq)
    ensures var q' := VirtioFrontend.AddBuf(d, qid, bufs, lens, outNum, inNum).driver.queues[qid];
      var m := Rings(q'.desc, q'.availIdx, q'.availRing, q'.usedFlags, q'.usedIdx, q'.usedRing);
      Fits(vq, m)
      && var p := Pop(vq, m);
      p.ret == d.queues[qid].freeHead && |p.chain| == outNum + inNum
      && forall j :: 0 <= j < outNum + inNum ==>
           p.chain[j].addr == bufs[j] && p.chain[j].len == lens[j]
           && (p.chain[j].flags % 2 == 1 <==> j + 1 < outNum + inNum)
           && ((p.chain[j].flags / 2) % 2 == 1 <==> j >= outNum)
  {
    var q := d.queues[qid];
    var total := outNum + inNum;
    var q' := VirtioFrontend.AddBuf(d, qid, bufs, lens, outNum, inNum).driver.queues[qid];
    var m := Rings(q'.desc, q'.availIdx, q'.availRing, q'.usedFlags, q'.usedIdx, q'.usedRing);
    var w := VirtioFrontend.Walk(q.desc, q.freeHead, total);
    PopAfterAdd(d, qid, bufs, lens, outNum, inNum, vq);
    VirtioFrontend.AddBufChain(d, qid, bufs, lens, outNum, inNum);
    CopiedChainHolds(Pop(vq, m).chain, q'.desc, w, bufs, lens, outNum, total);
  }

  /** A copy of the table entries along `w` holds what those entries hold, in walk order. */
  lemma CopiedChainHolds(chain: seq<VirtioFrontend.Desc>, desc: seq<VirtioFrontend.Desc>, w: seq<nat>,
                         bufs: seq<u64>, lens: seq<u32>, outNum: nat, total: nat)
    requires |w| == total <= |bufs| && total <= |lens| && forall k :: 0 <= k < total ==> w[k] < |desc|
    requires chain == seq(total, k requires 0 <= k < total => desc[w[k]])
    requires forall j :: 0 <= j < total ==>
      desc[w[j]].addr == bufs[j] && desc[w[j]].len == lens[j]
      && (desc[w[j]].flags % 2 == 1 <==> j + 1 < total)
      && ((desc[w[j]].flags / 2) % 2 == 1 <==> j >= outNum)
    ensures |chain| == total
    ensures forall j :: 0 <= j < total ==>
      chain[j].addr == bufs[j] && chain[j].len == lens[j]
      && (chain[j].flags % 2 == 1 <==> j + 1 < total)
      && ((chain[j].flags / 2) % 2 == 1 <==> j >= outNum)
  {
    forall j | 0 <= j < total
      ensures chain[j].addr == bufs[j] && chain[j].len == lens[j]
        && (chain[j].flags % 2 == 1 <==> j + 1 < total)
        && ((chain[j].flags / 2) % 2 == 1 <==> j >= outNum)
    {
      assert chain[j] == desc[w[j]];
    }
  }

  /** The chain Pop copies after AddBuf is the table entries along the driver's walk. */
  lemma PopAfterAdd(d: VirtioFrontend.Driver, qid: u32, bufs: seq<u64>, lens: seq<u32>,
                    outNum: u32, inNum: u32, vq: VQueue)
    requires VirtioFrontend.DriverWf(d) && qid < d.numQueues && VirtioFrontend.Ready(d.queues[qid])
    requires |bufs| == outNum + inNum && |lens| == outNum + inNum
    requires 0 < outNum + inNum <= MaxChain && outNum + inNum <= d.queues[qid].numFree
    requires vq.num == d.queues[qid].size && vq.ready != 0 && vq.avail != 0 && vq.desc != 0
    requires vq.lastAvail == d.queues[qid].availIdx && Live(vq)
    ensures var q := d.queues[qid];
      var q' := VirtioFrontend.AddBuf(d, qid, bufs, lens, outNum, inNum).driver.queues[qid];
      var m := Rings(q'.desc, q'.availIdx, q'.availRing, q'.usedFlags, q'.usedIdx, q'.usedRing);
      var w := VirtioFrontend.Walk(q.desc, q.freeHead, outNum + inNum);
      Fits(vq, m)
      && Pop(vq, m).ret == q.freeHead
      && Pop(vq, m).chain == seq(outNum + inNum, k requires 0 <= k < outNum + inNum => q'.desc[w[k]])
  {
    var q := d.queues[qid];
    var total := outNum + inNum;
    var q' := VirtioFrontend.AddBuf(d, qid, bufs, lens, outNum, inNum).driver.queues[qid];
    var m := Rings(q'.desc, q'.availIdx, q'.availRing, q'.usedFlags, q'.usedIdx, q'.usedRing);
    var w := VirtioFrontend.Walk(q.desc, q.freeHead, total);
    VirtioFrontend.AddBufChain(d, qid, bufs, lens, outNum, inNum);
    AddPublishes(d, qid, bufs, lens, outNum, inNum);
    PopChain(vq, m, q.freeHead, total);
  }

  /**
   When the next published head starts a chain of k <= 16 entries inside
   the table, NEXT on all but the last, Pop returns that head and copies
   the chain in order.
   */
  lemma PopChain(vq: VQueue, m: Rings, head: nat, k: nat)
    requires Live(vq) && Fits(vq, m) && VirtioFrontend.Linked(m.desc)
    requires vq.ready != 0 && vq.avail != 0 && vq.desc != 0 && vq.lastAvail != m.availIdx
    requires m.availRing[vq.lastAvail % vq.num] == head && head < vq.num
    requires 0 < k <= MaxChain
    requires forall j :: 0 <= j < k ==> VirtioFrontend.Walk(m.desc, head, k)[j] < vq.num
    requires forall j :: 0 <= j < k - 1 ==> m.desc[VirtioFrontend.Walk(m.desc, head, k)[j]].flags % 2 == 1
    requires m.desc[VirtioFrontend.Walk(m.desc, head, k)[k - 1]].flags % 2 == 0
    ensures Pop(vq, m).ret == head
    ensures Pop(vq, m).chain == seq(k, j requires 0 <= j < k => m.desc[VirtioFrontend.Walk(m.desc, head, k)[j]])
  {
    CollectChain(m.desc, vq.num, head, [], k);
  }

  /** AddBuf leaves the head in the slot the device reads next and moves the published index on. */
  lemma AddPublishes(d: VirtioFrontend.Driver, qid: u32, bufs: seq<u64>, lens: seq<u32>, outNum: u32, inNum: u32)
    requires VirtioFrontend.DriverWf(d) && qid < d.numQueues && VirtioFrontend.Ready(d.queues[qid])
    requires |bufs| == outNum + inNum && |lens| == outNum + inNum
    requires 0 < outNum + inNum <= MaxChain && outNum + inNum <= d.queues[qid].numFree
    ensures var q := d.queues[qid];
      var q' := VirtioFrontend.AddBuf(d, qid, bufs, lens, outNum, inNum).driver.queues[qid];
      q.size > 0 && q'.size == q.size && |q'.availRing| == q.size
      && q'.availRing[q.availIdx % q.size] == q.freeHead && q'.availIdx != q.availIdx
  {
    var q := d.queues[qid];
    if q.availIdx + 1 < Word16 { ModSmall(q.availIdx + 1, Word16); }
  }

  // ---------------------------------------------------------------------
  // The register file
  // ---------------------------------------------------------------------

  /**
   virtio_device_t: identity, feature words, selectors, status, the queues,
   the interrupt status and the device-specific configuration bytes (None
   when the device has none). `notifies` and `resets` say whether the queue
   notify and reset callbacks are installed.
   */
  datatype Device = Device(
    deviceId: u32, vendorId: u32, version: u32,
    deviceFeatures: u64, driverFeatures: u64, featuresSel: u32,
    status: u8, configGeneration: u8,
    queueSel: u32, queues: seq<VQueue>, numQueues: u32,
    interruptStatus: u32, config: Option<seq<u8>>,
    notifies: bool, resets: bool, base: u64, irq: u32)

  predicate DeviceWf(dev: Device) {
    |dev.queues| == dev.numQueues && forall i :: 0 <= i < |dev.queues| ==> Live(dev.queues[i])
  }

  /** The queue QUEUE_SEL points at, when it is one the device has. */
  function Selected(dev: Device): (r: Option<nat>)
    ensures r.Some? <==> dev.queueSel < dev.numQueues
    ensures r.Some? ==> r.value == dev.queueSel
  {
    if dev.queueSel < dev.numQueues then Some(dev.queueSel) else None
  }

  /** The low and high 32-bit halves of a 64-bit word. */
  function Low32(x: u64): (r: u32)
    ensures x == High32(x) * Word32 + r
  {
    HighHalfBelow(x);
    x % Word32
  }

  function High32(x: u64): (r: u32) {
    HighHalfBelow(x);
    x / Word32
  }

  /** The high half of a 64-bit word fits in 32 bits, and the halves put back give the word. */
  lemma HighHalfBelow(x: u64)
    ensures x / Word32 < Word32 && x == (x / Word32) * Word32 + x % Word32
  {
    var hi := x / Word32;
    if hi >= Word32 {
      MulMono(Word32, hi, Word32);
      assert false;
    }
  }

  /** `size` bytes of `v`, least significant first, as memcpy copies them on a little-endian machine. */
  function LeBytes(v: u32, size: nat): (r: seq<u8>)
    requires size <= 4
    ensures |r| == size
    ensures size > 0 ==> r[0] == v % 0x100
  {
    if size == 0 then [] else [v % 0x100] + LeBytes(v / 0x100, size - 1)
  }

  datatype Reply = Value(v: u32) | ConfigBytes(bytes: seq<u8>)

  /**
   virtio_mmio_read. `offset` is inside the device's 4 KiB window, as the
   trap handler guarantees; `size` is at most the 32-bit value it fills.
   */
  function MmioRead(dev: Device, offset: u64, size: u32): (r: Reply)
    requires DeviceWf(dev) && offset < WindowSize && size <= 4
    ensures offset == RegMagic ==> r == Value(Magic)
    ensures offset == RegDeviceFeatures ==>
      r == Value(if dev.featuresSel == 0 then Low32(dev.deviceFeatures)
                 else if dev.featuresSel == 1 then High32(dev.deviceFeatures) else 0)
    ensures offset == RegQueueNumMax ==> r == Value(if Selected(dev).Some? then MaxQueueNum else 0)
    ensures offset == RegQueueReady ==>
      r == Value(if Selected(dev).Some? then dev.queues[dev.queueSel].ready else 0)
    ensures r.ConfigBytes? ==> (
      offset >= RegConfig && dev.config.Some?
      && offset - RegConfig + size <= |dev.config.value|
      && r.bytes == dev.config.value[offset - RegConfig .. offset - RegConfig + size])
  {
    var vq := Selected(dev);
    if offset == RegMagic then Value(Magic)
    else if offset == RegVersion then Value(dev.version)
    else if offset == RegDeviceId then Value(dev.deviceId)
    else if offset == RegVendorId then Value(dev.vendorId)
    else if offset == RegDeviceFeatures then
      Value(if dev.featuresSel == 0 then Low32(dev.deviceFeatures)
            else if dev.featuresSel == 1 then High32(dev.deviceFeatures) else 0)
    else if offset == RegQueueNumMax then Value(if vq.Some? then MaxQueueNum else 0)
    else if offset == RegQueueReady then Value(if vq.Some? then dev.queues[vq.value].ready else 0)
    else if offset == RegInterruptStatus then Value(dev.interruptStatus)
    else if offset == RegStatus then Value(dev.status)
    else if offset == RegConfigGeneration then Value(dev.configGeneration)
    else if offset >= RegConfig && dev.config.Some? && offset - RegConfig + size <= |dev.config.value| then
      ConfigBytes(dev.config.value[offset - RegConfig .. offset - RegConfig + size])
    else Value(0)
  }

  /** What a register write did: the new device and the callbacks it asked for. */
  datatype Written = Written(dev: Device, notify: Option<u32>, reset: bool)

  /**
   Replace the high or the low 32-bit half of a 64-bit word, as the driver
   feature and queue address registers do.
   */
  function SetHalf(x: u64, high: bool, value: u32): (r: u64)
    ensures high ==> Low32(r) == Low32(x) && High32(r) == value
    ensures !high ==> High32(r) == High32(x) && Low32(r) == value
  {
    var lo, hi := Low32(x), High32(x);
    if high then
      MulMono(value, Word32 - 1, Word32);
      DivOf(value * Word32 + lo, Word32, value, lo);
      value * Word32 + lo
    else
      MulMono(hi, Word32 - 1, Word32);
      DivOf(hi * Word32 + value, Word32, hi, value);
      hi * Word32 + value
  }

  /** DRIVER_FEATURES: FEATURES_SEL 0 writes the low half, 1 the high half, any other selector nothing. */
  function SetDriverFeatures(dev: Device, value: u32): (r: Device)
    ensures r == dev.(driverFeatures := r.driverFeatures)
    ensures dev.featuresSel == 0 ==> Low32(r.driverFeatures) == value && High32(r.driverFeatures) == High32(dev.driverFeatures)
    ensures dev.featuresSel == 1 ==> High32(r.driverFeatures) == value && Low32(r.driverFeatures) == Low32(dev.driverFeatures)
    ensures dev.featuresSel > 1 ==> r == dev
  {
    if dev.featuresSel == 0 then dev.(driverFeatures := SetHalf(dev.driverFeatures, false, value))
    else if dev.featuresSel == 1 then dev.(driverFeatures := SetHalf(dev.driverFeatures, true, value))
    else dev
  }

  /**
   QUEUE_READY as written: the flag is set whatever the queue size, so a
   queue whose QUEUE_NUM was never written (0 entries) goes live.
   */
  function ReadyAsWritten(vq: VQueue, value: u32): (r: VQueue)
    ensures r.ready == (if value != 0 then 1 else 0) && r.num == vq.num
  {
    vq.(ready := if value != 0 then 1 else 0)
  }

  /**
   The input that shows it: a freshly reset queue with READY written goes
   live with 0 entries, and virtio_queue_pop would take the ring index
   modulo 0.
   */
  lemma ZeroSizedQueueGoesLive()
    ensures var vq := ReadyAsWritten(QueueReset(ZeroQueue()), 1);
      vq.ready == 1 && vq.num == 0 && !Live(vq)
  {}

  /** QUEUE_READY taking effect only on a sized queue; clearing it always works. */
  function SetReady(vq: VQueue, value: u32): (r: VQueue)
    requires Live(vq)
    ensures Live(r)
    ensures value == 0 ==> r.ready == 0
    ensures value != 0 ==> (r.ready == 1 <==> vq.num > 0)
    ensures r == vq.(ready := r.ready)
  {
    if value != 0 && vq.num == 0 then vq else vq.(ready := if value != 0 then 1 else 0)
  }

  /** Apply a change to the selected queue, if there is one. */
  function WithQueue(dev: Device, q: VQueue): (r: Device)
    requires DeviceWf(dev) && Selected(dev).Some? && Live(q)
    ensures DeviceWf(r) && r == dev.(queues := r.queues) && r.queues[dev.queueSel] == q
    ensures forall i :: 0 <= i < |dev.queues| && i != dev.queueSel ==> r.queues[i] == dev.queues[i]
  {
    dev.(queues := dev.queues[dev.queueSel := q])
  }

  /** The registers that act on the queue QUEUE_SEL points at. */
  predicate QueueRegister(offset: u64) {
    offset == RegQueueNum || offset == RegQueueReady || AddressRegister(offset)
  }

  predicate AddressRegister(offset: u64) {
    offset == RegQueueDescLow || offset == RegQueueDescHigh || offset == RegQueueAvailLow
    || offset == RegQueueAvailHigh || offset == RegQueueUsedLow || offset == RegQueueUsedHigh
  }

  /** A queue register's effect on the selected queue. */
  function WriteQueue(vq: VQueue, offset: u64, value: u32): (r: VQueue)
    requires Live(vq) && QueueRegister(offset)
    ensures Live(r)
    ensures offset == RegQueueNum ==>
      r == (match QueueInit(vq, value) case Some(q) => q case None => vq)
    ensures offset == RegQueueReady ==> r == SetReady(vq, value)
    ensures AddressRegister(offset) ==> r == SetQueueAddress(vq, offset, value)
  {
    if offset == RegQueueNum then
      match QueueInit(vq, value)
      case Some(q) => q
      case None => vq
    else if offset == RegQueueReady then SetReady(vq, value)
    else SetQueueAddress(vq, offset, value)
  }

  /**
   A device-specific configuration write: `size` bytes of the value replace
   the bytes at `offset` - 0x100 when they fall inside the configuration;
   anything else is ignored.
   */
  function WriteConfig(dev: Device, offset: u64, value: u32, size: u32): (r: Device)
    requires offset >= RegConfig && size <= 4
    ensures r == dev.(config := r.config) && r.config.Some? == dev.config.Some?
    ensures r.config.Some? ==> |r.config.value| == |dev.config.value|
    ensures r.config.Some? && offset - RegConfig + size <= |dev.config.value| ==>
      var off := offset - RegConfig;
      r.config.value[..off] == dev.config.value[..off]
      && r.config.value[off..off + size] == LeBytes(value, size)
      && r.config.value[off + size..] == dev.config.value[off + size..]
    ensures r.config.Some? && offset - RegConfig + size > |dev.config.value| ==> r == dev
  {
    if dev.config.Some? && offset - RegConfig + size <= |dev.config.value| then
      var c := dev.config.value;
      var off := offset - RegConfig;
      dev.(config := Some(c[..off] + LeBytes(value, size) + c[off + size..]))
    else dev
  }

  /** INTERRUPT_ACK: the written bits are cleared from the interrupt status. */
  function Acknowledge(dev: Device, value: u32): (r: Device)
    ensures r == dev.(interruptStatus := r.interruptStatus)
    ensures forall i :: IntBits.Bit(r.interruptStatus, i) <==> IntBits.Bit(dev.interruptStatus, i) && !IntBits.Bit(value, i)
  {
    IntBits.AndNotBelow(dev.interruptStatus, value);
    var s := IntBits.AndNot(dev.interruptStatus, value);
    forall i ensures IntBits.Bit(s, i) <==> IntBits.Bit(dev.interruptStatus, i) && !IntBits.Bit(value, i) {
      IntBits.AndNotBit(dev.interruptStatus, value, i);
    }
    dev.(interruptStatus := s)
  }

  /**
   virtio_mmio_write, with QUEUE_READY refused on a queue of 0 entries.
   `offset` is inside the window and `size` at most 4, as for reads.
   */
  function MmioWrite(dev: Device, offset: u64, value: u32, size: u32): (r: Written)
    requires DeviceWf(dev) && offset < WindowSize && size <= 4
    ensures DeviceWf(r.dev) && r.dev.numQueues == dev.numQueues && r.dev.deviceFeatures == dev.deviceFeatures
    ensures r.notify.Some? <==> offset == RegQueueNotify && value < dev.numQueues && dev.notifies
    ensures r.notify.Some? ==> r.notify.value == value
    ensures r.reset <==> offset == RegStatus && value == 0 && dev.resets
    ensures offset == RegDriverFeatures ==> r.dev == SetDriverFeatures(dev, value)
    ensures offset == RegInterruptAck ==> r.dev == Acknowledge(dev, value)
    ensures offset == RegStatus ==> r.dev.status == value % 0x100
    ensures QueueRegister(offset) && Selected(dev).Some? ==>
      r.dev == WithQueue(dev, WriteQueue(dev.queues[dev.queueSel], offset, value))
    ensures QueueRegister(offset) && Selected(dev).None? ==> r.dev == dev
    ensures offset == RegMagic || offset == RegDeviceFeatures || offset == RegQueueNumMax || offset == RegInterruptStatus
      ==> r.dev == dev
  {
    if QueueRegister(offset) then
      if Selected(dev).Some? then Written(WithQueue(dev, WriteQueue(dev.queues[dev.queueSel], offset, value)), None, false)
      else Written(dev, None, false)
    else if offset == RegQueueSel then Written(dev.(queueSel := value), None, false)
    else if offset == RegDeviceFeaturesSel || offset == RegDriverFeaturesSel then
      Written(dev.(featuresSel := value), None, false)
    else if offset == RegDriverFeatures then Written(SetDriverFeatures(dev, value), None, false)
    else if offset == RegQueueNotify then
      Written(dev, if value < dev.numQueues && dev.notifies then Some(value) else None, false)
    else if offset == RegInterruptAck then Written(Acknowledge(dev, value), None, false)
    else if offset == RegStatus then Written(dev.(status := value % 0x100), None, value == 0 && dev.resets)
    else if offset >= RegConfig then Written(WriteConfig(dev, offset, value, size), None, false)
    else Written(dev, None, false)
  }

  /**
   The six queue address registers: LOW replaces the low half of the
   address, HIGH the high half and also maps the pointer.
   */
  function SetQueueAddress(vq: VQueue, offset: u64, value: u32): (r: VQueue)
    requires Live(vq)
    ensures Live(r) && r.num == vq.num && r.ready == vq.ready
    ensures offset == RegQueueDescHigh ==> r.desc == r.descAddr && High32(r.descAddr) == value && Low32(r.descAddr) == Low32(vq.descAddr)
    ensures offset == RegQueueDescLow ==> Low32(r.descAddr) == value && High32(r.descAddr) == High32(vq.descAddr) && r.desc == vq.desc
  {
    if offset == RegQueueDescLow then vq.(descAddr := SetHalf(vq.descAddr, false, value))
    else if offset == RegQueueDescHigh then
      var a := SetHalf(vq.descAddr, true, value); vq.(descAddr := a, desc := a)
    else if offset == RegQueueAvailLow then vq.(availAddr := SetHalf(vq.availAddr, false, value))
    else if offset == RegQueueAvailHigh then
      var a := SetHalf(vq.availAddr, true, value); vq.(availAddr := a, avail := a)
    else if offset == RegQueueUsedLow then vq.(usedAddr := SetHalf(vq.usedAddr, false, value))
    else if offset == RegQueueUsedHigh then
      var a := SetHalf(vq.usedAddr, true, value); vq.(usedAddr := a, used := a)
    else vq
  }

  /** Writing LOW then HIGH places the 64-bit address hi·2^32 + lo and maps the descriptor table there. */
  lemma DescAddressComposes(dev: Device, lo: u32, hi: u32)
    requires DeviceWf(dev) && Selected(dev).Some?
    ensures var d1 := MmioWrite(dev, RegQueueDescLow, lo, 4).dev;
      var d2 := MmioWrite(d1, RegQueueDescHigh, hi, 4).dev;
      d2.queues[dev.queueSel].descAddr == hi * Word32 + lo
      && d2.queues[dev.queueSel].desc == d2.queues[dev.queueSel].descAddr
  {
    var q0 := dev.queues[dev.queueSel];
    var d1 := MmioWrite(dev, RegQueueDescLow, lo, 4).dev;
    var q1 := d1.queues[dev.queueSel];
    assert q1 == SetQueueAddress(q0, RegQueueDescLow, lo);
    var d2 := MmioWrite(d1, RegQueueDescHigh, hi, 4).dev;
    var q2 := d2.queues[dev.queueSel];
    assert q2 == SetQueueAddress(q1, RegQueueDescHigh, hi);
    var a := q2.descAddr;
    assert Low32(a) == lo && High32(a) == hi;
  }

  /** Acknowledging clears exactly the written bits of the interrupt status and keeps the others. */
  lemma AckClearsBits(dev: Device, value: u32, i: nat)
    requires DeviceWf(dev)
    ensures var s := MmioWrite(dev, RegInterruptAck, value, 4).dev.interruptStatus;
      IntBits.Bit(s, i) <==> IntBits.Bit(dev.interruptStatus, i) && !IntBits.Bit(value, i)
  {
    assert MmioWrite(dev, RegInterruptAck, value, 4).dev == Acknowledge(dev, value);
  }

  /** Every register write keeps every queue live: with the corrected READY, no zero-sized queue is ever served. */
  lemma WritesKeepQueuesLive(dev: Device, offset: u64, value: u32, size: u32, i: nat)
    requires DeviceWf(dev) && offset < WindowSize && size <= 4 && i < dev.numQueues
    ensures Live(MmioWrite(dev, offset, value, size).dev.queues[i])
  {}

  // ---------------------------------------------------------------------
  // Features and notification
  // ---------------------------------------------------------------------

  /** virtio_set_features: the driver may only accept features the device offers. */
  function SetFeatures(dev: Device, features: u64): (r: Device)
    ensures r == dev.(driverFeatures := r.driverFeatures)
    ensures r.driverFeatures <= features && r.driverFeatures <= dev.deviceFeatures
  {
    IntBits.AndBelow(features, dev.deviceFeatures);
    dev.(driverFeatures := IntBits.And(features, dev.deviceFeatures))
  }

  /** virtio_has_feature: bit `feature` of the accepted features. */
  function HasFeature(dev: Device, feature: nat): (b: bool)
    requires feature < 64
  {
    IntBits.Bit(dev.driverFeatures, feature)
  }

  /** A feature the driver has accepted through SetFeatures is one the device offers and the driver asked for. */
  lemma AcceptedFeatureOffered(dev: Device, features: u64, feature: nat)
    requires feature < 64
    ensures HasFeature(SetFeatures(dev, features), feature) <==>
      (IntBits.Bit(dev.deviceFeatures, feature) && IntBits.Bit(features, feature))
  {
    IntBits.AndBit(features, dev.deviceFeatures, feature);
  }

  /**
   virtio_queue_notify: for a ready queue, raise the ring interrupt unless the
   driver set NO_NOTIFY in the used ring. `hasVm` says whether the device is
   attached to a VM (virtio_inject_irq does nothing otherwise).
   */
  function Notify(dev: Device, qidx: u32, m: Rings, hasVm: bool): (r: Written)
    requires DeviceWf(dev)
    ensures r.notify == None && !r.reset
    ensures r.dev == dev || r.dev == dev.(interruptStatus := r.dev.interruptStatus)
    ensures r.dev != dev ==> qidx < dev.numQueues && dev.queues[qidx].ready != 0 && hasVm
    ensures forall i :: i != 0 ==> (IntBits.Bit(r.dev.interruptStatus, i) <==> IntBits.Bit(dev.interruptStatus, i))
    ensures qidx < dev.numQueues && dev.queues[qidx].ready != 0 && hasVm && dev.queues[qidx].used == 0 ==>
      IntBits.Bit(r.dev.interruptStatus, 0)
  {
    if qidx >= dev.numQueues then Written(dev, None, false)
    else
      var vq := dev.queues[qidx];
      if vq.ready == 0 then Written(dev, None, false)
      else if vq.used != 0 && m.usedFlags % 2 == UsedNoNotify then Written(dev, None, false)
      else if !hasVm then Written(dev, None, false)
      else Written(RaiseVring(dev), None, false)
  }

  /** interrupt_status |= VIRTIO_MMIO_INT_VRING. */
  function RaiseVring(dev: Device): (r: Device)
    ensures r == dev.(interruptStatus := r.interruptStatus)
    ensures forall i :: IntBits.Bit(r.interruptStatus, i) <==> (i == 0 || IntBits.Bit(dev.interruptStatus, i))
  {
    BitUtils.Pow2Word();
    IntBits.OrBelow(dev.interruptStatus, IntVring, 32);
    var s := IntBits.Or(dev.interruptStatus, IntVring);
    forall i ensures IntBits.Bit(s, i) <==> (i == 0 || IntBits.Bit(dev.interruptStatus, i)) {
      IntBits.OrBit(dev.interruptStatus, IntVring, i);
      OneBit(i);
    }
    dev.(interruptStatus := s)
  }

  lemma OneBit(i: nat)
    ensures IntBits.Bit(1, i) <==> i == 0
  {
    if i > 0 { IntBits.ZeroBit(i - 1); }
  }

  // ---------------------------------------------------------------------
  // The device pool
  // ---------------------------------------------------------------------

  /** The static device array and how much of the queue pool it has handed out. */
  datatype Pool = Pool(devices: seq<Device>, queuesUsed: nat)

  /** Each device type's feature word and queue count. */
  function DefaultFeatures(id: u32): (f: u64) {
    if id == IdNet then 0x21 else if id == IdBlock then 0x3 else if id == IdConsole then 0x1 else 0
  }

  function QueueCount(id: u32): (n: u32)
    ensures 1 <= n <= 2
    ensures n == 2 <==> id == IdNet || id == IdConsole
  {
    if id == IdNet || id == IdConsole then 2 else 1
  }

  /** The pool's accounting: at most 32 devices, each owning at most two queues of the pool. */
  predicate PoolWf(p: Pool) {
    |p.devices| <= PoolDevices && p.queuesUsed <= 2 * |p.devices|
    && forall i :: 0 <= i < |p.devices| ==> DeviceWf(p.devices[i])
  }

  datatype Created = Created(pool: Pool, index: Option<nat>)

  /**
   virtio_create_device: take the next device slot, fill in the defaults for
   the type and hand it its queues from the queue pool. As written, running
   out of queues returns NULL after the slot was already counted.
   */
  function Create(p: Pool, id: u32, base: u64, irq: u32): (r: Created)
    ensures |p.devices| >= PoolDevices ==> r == Created(p, None)
    ensures r.index.Some? ==> (
      r.index.value == |p.devices| && |r.pool.devices| == |p.devices| + 1
      && r.pool.devices[..|p.devices|] == p.devices
      && var dev := r.pool.devices[r.index.value];
      dev.deviceId == id && dev.base == base && dev.irq == irq && dev.version == 2
      && dev.vendorId == VendorQemu && dev.configGeneration == 1 && dev.status == 0
      && dev.deviceFeatures == DefaultFeatures(id) && dev.numQueues == QueueCount(id)
      && DeviceWf(dev) && forall i :: 0 <= i < |dev.queues| ==> dev.queues[i] == ZeroQueue())
  {
    if |p.devices| >= PoolDevices then Created(p, None)
    else
      var n := QueueCount(id);
      var dev := Device(id, VendorQemu, 2, DefaultFeatures(id), 0, 0, 0, 1, 0, [], n, 0, None,
                        false, false, base, irq);
      if p.queuesUsed + n <= PoolQueues then
        Created(Pool(p.devices + [dev.(queues := ZeroQueues(n))], p.queuesUsed + n), Some(|p.devices|))
      else
        Created(Pool(p.devices + [dev], p.queuesUsed), None)
  }

  function ZeroQueues(n: nat): (qs: seq<VQueue>)
    ensures |qs| == n && forall i :: 0 <= i < n ==> qs[i] == ZeroQueue()
  {
    if n == 0 then [] else ZeroQueues(n - 1) + [ZeroQueue()]
  }

  /**
   The queue pool can never run out: 32 devices of at most two queues need
   64 of its 256 entries. So the path that counts a device slot and then
   returns NULL is never taken, and creation fails only when all 32 slots
   are used.
   */
  lemma CreateKeepsPool(p: Pool, id: u32, base: u64, irq: u32)
    requires PoolWf(p)
    ensures var r := Create(p, id, base, irq);
      PoolWf(r.pool) && (r.index.None? <==> |p.devices| >= PoolDevices)
  {
    var r := Create(p, id, base, irq);
    if |p.devices| < PoolDevices {
      var dev := r.pool.devices[|p.devices|];
      assert forall i :: 0 <= i < |p.devices| ==> r.pool.devices[i] == p.devices[i];
      assert DeviceWf(dev);
    }
  }

  /**
   virtio_find_device_by_addr: the first device whose 4 KiB window holds
   `addr` (the window end is computed in 64 bits).
   */
  function FindDevice(devs: seq<Device>, addr: u64): (r: Option<nat>)
    ensures r.Some? ==> (r.value < |devs| && InWindow(devs[r.value], addr)
      && forall j :: 0 <= j < r.value ==> !InWindow(devs[j], addr))
    ensures r.None? <==> forall j :: 0 <= j < |devs| ==> !InWindow(devs[j], addr)
  {
    FindFrom(devs, addr, 0)
  }

  predicate InWindow(dev: Device, addr: u64) {
    dev.base <= addr < (dev.base + WindowSize) % Word64
  }

  function FindFrom(devs: seq<Device>, addr: u64, i: nat): (r: Option<nat>)
    requires i <= |devs|
    decreases |devs| - i
    ensures r.Some? ==> (i <= r.value < |devs| && InWindow(devs[r.value], addr)
      && forall j :: i <= j < r.value ==> !InWindow(devs[j], addr))
    ensures r.None? <==> forall j :: i <= j < |devs| ==> !InWindow(devs[j], addr)
  {
    if i == |devs| then None
    else if InWindow(devs[i], addr) then Some(i)
    else FindFrom(devs, addr, i + 1)
  }
}
