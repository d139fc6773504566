/**
 The driver side of a split virtqueue (virtio_frontend/virtio_block_frontend.c):
 queue setup, adding a descriptor chain to the available ring and taking a
 completed chain back from the used ring. The descriptor table, the rings and
 the queue's bookkeeping are values; MMIO register writes are left out.
 */
module VirtioFrontend {
  import opened Util
  import opened CTypes
  import VirtioAlloc

  /** The largest number of devices whose queue memory is cached. */
  const MaxDevices := 16
  /** The number of queues a device record holds. */
  const MaxQueues := 16
  /** Descriptor flag: the chain continues at `next`. */
  const FlagNext := 1
  /** Descriptor flag: the device writes into the buffer. */
  const FlagWrite := 2
  /** Available-ring flag asking the device not to interrupt. */
  const AvailNoInterrupt := 1
  /** The modulus of C's `uint16_t` arithmetic. */
  const Word16 := 0x1_0000

  datatype Desc = Desc(addr: u64, len: u32, flags: u16, next: u16)

  datatype UsedElem = UsedElem(id: u32, len: u32)

  /**
   One queue: its bookkeeping, its addresses, and the contents of the memory
   they point at. The rings hold `size` slots each.
   */
  datatype Queue = Queue(
    id: u32, size: u32, lastUsed: u16, freeHead: u16, numFree: u32,
    layout: VirtioAlloc.QueueLayout,
    desc: seq<Desc>,
    availFlags: u16, availIdx: u16, availRing: seq<u16>,
    usedFlags: u16, usedIdx: u16, usedRing: seq<UsedElem>)

  /** The part of virtio_device_t the queue functions touch. */
  datatype Driver = Driver(numQueues: u32, queues: seq<Queue>)

  /** Every `next` index stays inside the table. */
  predicate Linked(desc: seq<Desc>) {
    forall i :: 0 <= i < |desc| ==> desc[i].next < |desc|
  }

  /** The shape the queue functions rely on: tables of `size` entries and an in-range free head. */
  predicate QueueWf(q: Queue) {
    |q.desc| == q.size && |q.availRing| == q.size && |q.usedRing| == q.size
    && Linked(q.desc)
    && (q.size > 0 ==> q.freeHead < q.size)
    && (q.size == 0 ==> q.numFree == 0)
  }

  predicate DriverWf(d: Driver) {
    |d.queues| == MaxQueues && d.numQueues <= MaxQueues
  }

  /** The `k` indices reached from `start` by following `next`. */
  function Walk(desc: seq<Desc>, start: int, k: nat): (w: seq<nat>)
    requires Linked(desc) && (k > 0 ==> 0 <= start < |desc|)
    ensures |w| == k
    ensures forall i :: 0 <= i < k ==> w[i] < |desc|
    ensures k > 0 ==> w[0] == start
    ensures forall i :: 0 <= i < k - 1 ==> w[i + 1] == desc[w[i]].next
    decreases k
  {
    if k == 0 then [] else [start] + Walk(desc, desc[start].next, k - 1)
  }

  /** A walk depends only on the `next` fields along it. */
  lemma {:induction false} WalkSameNext(desc: seq<Desc>, desc': seq<Desc>, start: int, k: nat)
    requires Linked(desc) && Linked(desc') && |desc'| == |desc|
    requires k > 0 ==> 0 <= start < |desc|
    requires forall m :: 0 <= m < k ==> desc'[Walk(desc, start, k)[m]].next == desc[Walk(desc, start, k)[m]].next
    ensures Walk(desc', start, k) == Walk(desc, start, k)
    decreases k
  {
    if k > 0 {
      var w := Walk(desc, start, k);
      var w1 := Walk(desc, desc[start].next, k - 1);
      assert w[1..] == w1;
      forall m | 0 <= m < k - 1
        ensures desc'[w1[m]].next == desc[w1[m]].next
      {
        assert w[m + 1] == w1[m];
      }
      WalkSameNext(desc, desc', desc[start].next, k - 1);
    }
  }

  // ---------------------------------------------------------------------
  // Device memory and queue setup
  // ---------------------------------------------------------------------

  datatype Memory = Memory(cache: seq<u64>, base: u64)

  /**
   virtio_get_device_base_addr: 0 for an index past the table; otherwise the
   cached block, allocating it with `given` (kalloc's result, 0 for failure)
   the first time.
   */
  function DeviceMemory(cache: seq<u64>, index: u32, given: u64): (r: Memory)
    requires |cache| == MaxDevices
    ensures |r.cache| == MaxDevices
    ensures index >= MaxDevices ==> r == Memory(cache, 0)
    ensures index < MaxDevices && cache[index] != 0 ==> r == Memory(cache, cache[index])
    ensures index < MaxDevices ==> r.cache[index] == r.base
    ensures forall i :: 0 <= i < MaxDevices && i != index ==> r.cache[i] == cache[i]
  {
    if index >= MaxDevices then Memory(cache, 0)
    else if cache[index] != 0 then Memory(cache, cache[index])
    else Memory(cache[index := given], given)
  }

  /** Once a device's block is allocated, every later lookup returns it, whatever kalloc would give. */
  lemma DeviceMemoryStable(cache: seq<u64>, index: u32, given: u64, given': u64)
    requires |cache| == MaxDevices
    ensures var m := DeviceMemory(cache, index, given);
      DeviceMemory(m.cache, index, given') == (if m.base == 0 then DeviceMemory(m.cache, index, given') else m)
  {}

  datatype Setup = Setup(driver: Driver, ret: int)

  /** The `next` field setup gives entry i: the following entry, cut to 16 bits. */
  function InitialNext(i: nat, size: u32): (n: u16)
    requires i < size
    ensures n < size
    ensures size <= Word16 ==> n == (i + 1) % size
  {
    var x := (i + 1) % size;
    ModIfSmall(x, Word16);
    x % Word16
  }

  /** The free chain a successful setup builds: entry i points at entry i+1, the last one back at 0. */
  function InitialTable(size: u32): (t: seq<Desc>)
    ensures |t| == size && Linked(t)
    ensures forall i :: 0 <= i < size ==> t[i] == Desc(0, 0, 0, InitialNext(i, size))
  {
    seq(size, (i: int) requires 0 <= i < size => Desc(0, 0, 0, InitialNext(i, size)))
  }

  /** The steps of virtio_queue_setup after the queue size is settled, when the addresses are all non-zero. */
  function Configure(d: Driver, qid: u32, q: Queue, l: VirtioAlloc.QueueLayout): (r: Setup)
    requires DriverWf(d) && qid < MaxQueues
  {
    var q' := q.(layout := l, desc := InitialTable(q.size),
                 availFlags := AvailNoInterrupt, availIdx := 0, availRing := seq(q.size, _ => 0),
                 usedFlags := 0, usedIdx := 0, usedRing := seq(q.size, _ => UsedElem(0, 0)));
    Setup(Driver(qid + 1, d.queues[qid := q']), 0)
  }

  /**
   virtio_queue_setup as written: `num_free` is set to the requested size
   before the size is clamped to the device's maximum, and the bookkeeping
   fields stay written on the error paths. `maxSize` is the value read from
   QUEUE_NUM_MAX and `base` the device's memory block.
   */
  function SetupAsWritten(d: Driver, qid: u32, qsize: u32, maxSize: u32, base: u64): (r: Setup)
    requires DriverWf(d)
    ensures DriverWf(r.driver)
    ensures r.ret == 0 || r.ret == -1
    ensures qid >= MaxQueues ==> r == Setup(d, -1)
    ensures r.ret == 0 ==> r.driver.queues[qid].numFree == qsize
  {
    if qid >= MaxQueues then Setup(d, -1)
    else
      var q := d.queues[qid].(id := qid, size := qsize, lastUsed := 0, freeHead := 0, numFree := qsize);
      if maxSize == 0 then Setup(d.(queues := d.queues[qid := q]), -1)
      else
        var q1 := if qsize > maxSize then q.(size := maxSize) else q;
        var l := VirtioAlloc.Layout(base, qid);
        if l.desc == 0 || l.avail == 0 || l.used == 0 then Setup(d.(queues := d.queues[qid := q1.(layout := l)]), -1)
        else Configure(d, qid, q1, l)
  }

  /** The input that shows the overcount: 16 requested, 8 allowed, 16 counted free. */
  lemma SetupOvercounts(d: Driver, base: u64)
    requires DriverWf(d)
    requires VirtioAlloc.Layout(base, 0).desc != 0 && VirtioAlloc.Layout(base, 0).avail != 0
    requires VirtioAlloc.Layout(base, 0).used != 0
    ensures var r := SetupAsWritten(d, 0, 16, 8, base);
      r.ret == 0 && r.driver.queues[0].size == 8 && r.driver.queues[0].numFree == 16
  {}

  /** virtio_queue_setup with `num_free` set to the size the queue actually has. */
  function SetupQueue(d: Driver, qid: u32, qsize: u32, maxSize: u32, base: u64): (r: Setup)
    requires DriverWf(d)
    ensures DriverWf(r.driver)
    ensures r.ret == 0 || r.ret == -1
    ensures qid >= MaxQueues ==> r == Setup(d, -1)
    ensures r.ret == 0 <==> (qid < MaxQueues && maxSize != 0 && base != 0
      && VirtioAlloc.Layout(base, qid).desc != 0 && VirtioAlloc.Layout(base, qid).avail != 0
      && VirtioAlloc.Layout(base, qid).used != 0)
    ensures r.ret == 0 ==> (r.driver.numQueues == qid + 1
      && r.driver.queues[qid].size == Min(qsize, maxSize)
      && r.driver.queues[qid].numFree == r.driver.queues[qid].size)
    ensures forall i :: 0 <= i < MaxQueues && i != qid ==> r.driver.queues[i] == d.queues[i]
  {
    if qid >= MaxQueues then Setup(d, -1)
    else
      var q := d.queues[qid].(id := qid, size := qsize, lastUsed := 0, freeHead := 0, numFree := qsize);
      if maxSize == 0 then Setup(d.(queues := d.queues[qid := q]), -1)
      else
        var q1 := if qsize > maxSize then q.(size := maxSize, numFree := maxSize) else q;
        var l := VirtioAlloc.Layout(base, qid);
        if l.desc == 0 || l.avail == 0 || l.used == 0 then Setup(d.(queues := d.queues[qid := q1.(layout := l)]), -1)
        else Configure(d, qid, q1, l)
  }

  /** The walk from entry `i` of a fresh table visits i, i+1, ... modulo the size. */
  lemma {:induction false} InitialWalk(size: u32, i: nat, k: nat)
    requires 0 < size <= Word16 && i < size
    ensures forall m :: 0 <= m < k ==> Walk(InitialTable(size), i, k)[m] == (i + m) % size
    decreases k
  {
    if k > 0 {
      var t := InitialTable(size);
      var w := Walk(t, i, k);
      var n := t[i].next;
      assert n == (i + 1) % size;
      InitialWalk(size, n, k - 1);
      forall m | 0 <= m < k
        ensures w[m] == (i + m) % size
      {
        if m > 0 {
          assert w[m] == Walk(t, n, k - 1)[m - 1];
          ModShift(i, m, size);
        } else {
          ModSmall(i, size);
        }
      }
    }
  }

  lemma ModShift(i: nat, m: nat, n: nat)
    requires n > 0 && m > 0
    ensures ((i + 1) % n + (m - 1)) % n == (i + m) % n
  {
    var q := (i + 1) / n;
    var r := (i + 1) % n;
    assert i + m == r + (m - 1) + q * n;
    var q2 := (r + (m - 1)) / n;
    var r2 := (r + (m - 1)) % n;
    assert i + m == r2 + (q + q2) * n;
    DivOf(i + m, n, q + q2, r2);
  }

  /** The fresh free chain visits every entry exactly once. */
  lemma InitialChainDistinct(size: u32)
    requires 0 < size <= Word16
    ensures Distinct(Walk(InitialTable(size), 0, size))
  {
    var w := Walk(InitialTable(size), 0, size);
    InitialWalk(size, 0, size);
    forall a, b | 0 <= a < b < size
      ensures w[a] != w[b]
    {
      assert w[a] == (0 + a) % size && w[b] == (0 + b) % size;
      ModSmall(a, size);
      ModSmall(b, size);
    }
  }

  /** The free chain of a queue: the `numFree` entries reachable from the free head. */
  function FreeChain(q: Queue): (w: seq<nat>)
    requires QueueWf(q)
    ensures |w| == q.numFree
  {
    if q.numFree == 0 then [] else Walk(q.desc, q.freeHead, q.numFree)
  }

  /** A queue whose free chain covers distinct entries, one per free descriptor. */
  predicate Ready(q: Queue) {
    QueueWf(q) && Distinct(FreeChain(q))
  }

  /** After a successful setup the queue is ready and every entry is free. */
  lemma SetupReady(d: Driver, qid: u32, qsize: u32, maxSize: u32, base: u64)
    requires DriverWf(d) && Min(qsize, maxSize) <= Word16
    ensures var r := SetupQueue(d, qid, qsize, maxSize, base);
      r.ret == 0 ==> Ready(r.driver.queues[qid]) && r.driver.queues[qid].freeHead == 0
  {
    var r := SetupQueue(d, qid, qsize, maxSize, base);
    if r.ret == 0 {
      var q := r.driver.queues[qid];
      if q.size > 0 {
        InitialChainDistinct(q.size);
      }
    }
  }

  /** The as-written setup counts more free descriptors than the chain holds, so the free walk revisits an entry. */
  lemma OvercountRevisits(d: Driver, base: u64)
    requires DriverWf(d)
    requires VirtioAlloc.Layout(base, 0).desc != 0 && VirtioAlloc.Layout(base, 0).avail != 0
    requires VirtioAlloc.Layout(base, 0).used != 0
    ensures var q := SetupAsWritten(d, 0, 16, 8, base).driver.queues[0];
      QueueWf(q) && !Distinct(FreeChain(q))
  {
    var q := SetupAsWritten(d, 0, 16, 8, base).driver.queues[0];
    assert q.desc == InitialTable(8) && q.freeHead == 0 && q.numFree == 16;
    InitialWalk(8, 0, 16);
    var w := FreeChain(q);
    assert w == Walk(InitialTable(8), 0, 16);
    assert w[0] == 0 % 8 && w[8] == (0 + 8) % 8;
  }

  // ---------------------------------------------------------------------
  // Adding a chain
  // ---------------------------------------------------------------------

  /** The flags of the j-th descriptor of a chain of `total` whose first `out` are read by the device. */
  function FlagsFor(j: nat, total: nat, out: nat): (f: u16)
    ensures f % 2 == 1 <==> j + 1 < total
    ensures (f / 2) % 2 == 1 <==> j >= out
    ensures f < 4
  {
    (if j >= out then FlagWrite else 0) + (if j + 1 < total then FlagNext else 0)
  }

  datatype Filled = Filled(desc: seq<Desc>, last: nat)

  /**
   The two descriptor loops of virtio_queue_add_buf: write buffer j into
   the entry at `prev` and move along its `next` while more remain.
   */
  function Fill(desc: seq<Desc>, prev: nat, j: nat, total: nat, out: nat, bufs: seq<u64>, lens: seq<u32>): (r: Filled)
    requires Linked(desc) && prev < |desc|
    requires j < total <= |bufs| && total <= |lens|
    decreases total - j
    ensures |r.desc| == |desc| && r.last < |desc|
    ensures forall i :: 0 <= i < |desc| ==> r.desc[i].next == desc[i].next
  {
    var desc1 := desc[prev := Desc(bufs[j], lens[j], FlagsFor(j, total, out), desc[prev].next)];
    if j + 1 < total then Fill(desc1, desc[prev].next, j + 1, total, out, bufs, lens)
    else Filled(desc1, prev)
  }

  /**
   `after` holds buffer j + m, with its flags, in the m-th entry of the walk
   `w`, keeps every `next`, and agrees with `before` off the walk.
   */
  predicate FillsAlong(before: seq<Desc>, after: seq<Desc>, w: seq<nat>, j: nat, total: nat, out: nat,
                       bufs: seq<u64>, lens: seq<u32>)
    requires |after| == |before| && j + |w| <= |bufs| && j + |w| <= |lens|
    requires forall m :: 0 <= m < |w| ==> w[m] < |before|
  {
    (forall m :: 0 <= m < |w| ==>
       after[w[m]] == Desc(bufs[j + m], lens[j + m], FlagsFor(j + m, total, out), before[w[m]].next))
    && (forall i :: 0 <= i < |before| && i !in w ==> after[i] == before[i])
  }

  /** Along a chain of distinct entries, Fill writes buffer m into the m-th entry and nothing else. */
  lemma {:induction false} FillChain(desc: seq<Desc>, prev: nat, j: nat, total: nat, out: nat, bufs: seq<u64>, lens: seq<u32>)
    requires Linked(desc) && prev < |desc|
    requires j < total <= |bufs| && total <= |lens|
    requires Distinct(Walk(desc, prev, total - j))
    decreases total - j, 1
    ensures Fill(desc, prev, j, total, out, bufs, lens).last == Walk(desc, prev, total - j)[total - j - 1]
    ensures FillsAlong(desc, Fill(desc, prev, j, total, out, bufs, lens).desc, Walk(desc, prev, total - j),
                       j, total, out, bufs, lens)
  {
    if j + 1 < total {
      FillChainMore(desc, prev, j, total, out, bufs, lens);
    } else {
      FillOne(desc, prev, j, total, out, bufs, lens);
    }
    FillLast(desc, prev, j, total, out, bufs, lens);
  }

  /** FillChain when more than one buffer is left: the rest of the chain first, then the entry at `prev`. */
  lemma {:induction false} FillChainMore(desc: seq<Desc>, prev: nat, j: nat, total: nat, out: nat, bufs: seq<u64>,
                                         lens: seq<u32>)
    requires Linked(desc) && prev < |desc|
    requires j + 1 < total <= |bufs| && total <= |lens|
    requires Distinct(Walk(desc, prev, total - j))
    decreases total - j, 0
    ensures FillsAlong(desc, Fill(desc, prev, j, total, out, bufs, lens).desc, Walk(desc, prev, total - j),
                       j, total, out, bufs, lens)
  {
    var desc1 := desc[prev := Desc(bufs[j], lens[j], FlagsFor(j, total, out), desc[prev].next)];
    var n := desc[prev].next;
    var k := total - j - 1;
    FillChainSetup(desc, desc1, prev, k + 1, Walk(desc, n, k));
    FillChain(desc1, n, j + 1, total, out, bufs, lens);
    FillChainRec(desc, prev, j, total, out, bufs, lens);
  }

  /** The step of FillChain: what the fill from the next entry writes extends to the fill from `prev`. */
  lemma FillChainRec(desc: seq<Desc>, prev: nat, j: nat, total: nat, out: nat, bufs: seq<u64>, lens: seq<u32>)
    requires Linked(desc) && prev < |desc|
    requires j + 1 < total <= |bufs| && total <= |lens|
    requires var desc1 := desc[prev := Desc(bufs[j], lens[j], FlagsFor(j, total, out), desc[prev].next)];
      var n := desc[prev].next;
      var w1 := Walk(desc, n, total - j - 1);
      && Linked(desc1) && Walk(desc, prev, total - j)[1..] == w1 && prev !in w1
      && Walk(desc1, n, total - (j + 1)) == w1
      && FillsAlong(desc1, Fill(desc1, n, j + 1, total, out, bufs, lens).desc, Walk(desc1, n, total - (j + 1)),
                    j + 1, total, out, bufs, lens)
    ensures FillsAlong(desc, Fill(desc, prev, j, total, out, bufs, lens).desc, Walk(desc, prev, total - j),
                       j, total, out, bufs, lens)
  {
    var w := Walk(desc, prev, total - j);
    var desc1 := desc[prev := Desc(bufs[j], lens[j], FlagsFor(j, total, out), desc[prev].next)];
    var n := desc[prev].next;
    var w1 := Walk(desc, n, total - j - 1);
    var r1 := Fill(desc1, n, j + 1, total, out, bufs, lens);
    FillsAlongRenamed(desc1, r1.desc, Walk(desc1, n, total - (j + 1)), w1, j + 1, total, out, bufs, lens);
    assert Fill(desc, prev, j, total, out, bufs, lens) == r1;
    FillStep(desc, desc1, r1.desc, w, w1, prev, j, total, out, bufs, lens);
  }

  /** The last buffer of a chain is written into the one entry left of the walk. */
  lemma FillOne(desc: seq<Desc>, prev: nat, j: nat, total: nat, out: nat, bufs: seq<u64>, lens: seq<u32>)
    requires Linked(desc) && prev < |desc|
    requires j + 1 == total <= |bufs| && total <= |lens|
    ensures FillsAlong(desc, Fill(desc, prev, j, total, out, bufs, lens).desc, Walk(desc, prev, 1),
                       j, total, out, bufs, lens)
  {
    assert Walk(desc, prev, 1) == [prev];
  }

  /** Fill stops at the last entry of the walk it follows. */
  lemma {:induction false} FillLast(desc: seq<Desc>, prev: nat, j: nat, total: nat, out: nat, bufs: seq<u64>, lens: seq<u32>)
    requires Linked(desc) && prev < |desc|
    requires j < total <= |bufs| && total <= |lens|
    decreases total - j, 1
    ensures Fill(desc, prev, j, total, out, bufs, lens).last == Walk(desc, prev, total - j)[total - j - 1]
  {
    if j + 1 < total {
      FillLastMore(desc, prev, j, total, out, bufs, lens);
    } else {
      assert Walk(desc, prev, total - j) == [prev];
    }
  }

  lemma {:induction false} FillLastMore(desc: seq<Desc>, prev: nat, j: nat, total: nat, out: nat, bufs: seq<u64>,
                                        lens: seq<u32>)
    requires Linked(desc) && prev < |desc|
    requires j + 1 < total <= |bufs| && total <= |lens|
    decreases total - j, 0
    ensures Fill(desc, prev, j, total, out, bufs, lens).last == Walk(desc, prev, total - j)[total - j - 1]
  {
    var w := Walk(desc, prev, total - j);
    var desc1 := desc[prev := Desc(bufs[j], lens[j], FlagsFor(j, total, out), desc[prev].next)];
    var n := desc[prev].next;
    var k := total - j - 1;
    var w1 := Walk(desc, n, k);
    assert Linked(desc1);
    WalkSameNext(desc, desc1, n, k);
    FillLast(desc1, n, j + 1, total, out, bufs, lens);
    assert w[1..] == w1;
    assert w1[k - 1] == w[k];
  }

  lemma FillsAlongRenamed(before: seq<Desc>, after: seq<Desc>, w: seq<nat>, w': seq<nat>, j: nat, total: nat,
                          out: nat, bufs: seq<u64>, lens: seq<u32>)
    requires |after| == |before| && j + |w| <= |bufs| && j + |w| <= |lens|
    requires forall m :: 0 <= m < |w| ==> w[m] < |before|
    requires w == w' && FillsAlong(before, after, w, j, total, out, bufs, lens)
    ensures FillsAlong(before, after, w', j, total, out, bufs, lens)
  {
  }

  /**
   Before FillChain goes on from the entry after `prev`: the rest of the
   walk is unchanged by the write to `prev`, avoids `prev` and stays distinct.
   */
  lemma FillChainSetup(desc: seq<Desc>, desc1: seq<Desc>, prev: nat, len: nat, w1: seq<nat>)
    requires Linked(desc) && prev < |desc| && 1 < len
    requires Distinct(Walk(desc, prev, len))
    requires |desc1| == |desc| && forall i :: 0 <= i < |desc| ==> desc1[i].next == desc[i].next
    requires w1 == Walk(desc, desc[prev].next, len - 1)
    ensures Linked(desc1)
    ensures Walk(desc, prev, len)[1..] == w1 && prev !in w1 && Distinct(w1)
    ensures Walk(desc1, desc[prev].next, len - 1) == w1
  {
    var w := Walk(desc, prev, len);
    var k := len - 1;
    assert w[1..] == w1;
    forall m | 0 <= m < k ensures w1[m] != prev {
      assert w1[m] == w[m + 1];
    }
    forall a, b | 0 <= a < b < k ensures w1[a] != w1[b] {
      assert w1[a] == w[a + 1] && w1[b] == w[b + 1];
    }
    assert Linked(desc1);
    WalkSameNext(desc, desc1, desc[prev].next, k);
  }

  /** One step of FillChain: the entry written first survives the rest of the fill. */
  lemma FillStep(desc: seq<Desc>, desc1: seq<Desc>, after: seq<Desc>, w: seq<nat>, w1: seq<nat>, prev: nat,
                 j: nat, total: nat, out: nat, bufs: seq<u64>, lens: seq<u32>)
    requires |w| > 0 && w[0] == prev && w[1..] == w1 && prev !in w1
    requires j + |w| <= |bufs| && j + |w| <= |lens|
    requires prev < |desc| && forall m :: 0 <= m < |w| ==> w[m] < |desc|
    requires desc1 == desc[prev := Desc(bufs[j], lens[j], FlagsFor(j, total, out), desc[prev].next)]
    requires |after| == |desc|
    requires FillsAlong(desc1, after, w1, j + 1, total, out, bufs, lens)
    ensures FillsAlong(desc, after, w, j, total, out, bufs, lens)
  {
    forall m | 0 <= m < |w|
      ensures after[w[m]] == Desc(bufs[j + m], lens[j + m], FlagsFor(j + m, total, out), desc[w[m]].next)
    {
      if m > 0 {
        assert w[m] == w1[m - 1];
      }
    }
    forall i | 0 <= i < |desc| && i !in w
      ensures after[i] == desc[i]
    {
      assert i !in w1 by {
        forall m | 0 <= m < |w1| ensures w1[m] != i { assert w1[m] == w[m + 1]; }
      }
    }
  }

  datatype Added = Added(driver: Driver, ret: int)

  /**
   virtio_queue_add_buf: the first `outNum` buffers are read by the device
   and the next `inNum` written by it. The chain is taken from the free head,
   its head published in the available ring and returned.
   */
  function AddBuf(d: Driver, qid: u32, bufs: seq<u64>, lens: seq<u32>, outNum: u32, inNum: u32): (r: Added)
    requires DriverWf(d)
    requires qid < d.numQueues ==> QueueWf(d.queues[qid])
    requires |bufs| == outNum + inNum && |lens| == outNum + inNum && outNum + inNum < Word32
    ensures DriverWf(r.driver)
    ensures r.ret == -1 <==> qid >= d.numQueues || outNum + inNum == 0 || outNum + inNum > d.queues[qid].numFree
    ensures r.ret == -1 ==> r.driver == d
    ensures r.ret != -1 ==> (
      var q := d.queues[qid];
      var q' := r.driver.queues[qid];
      r.ret == q.freeHead && QueueWf(q') && q'.size == q.size
      && q'.numFree == q.numFree - (outNum + inNum)
      && q'.availIdx == (q.availIdx + 1) % Word16
      && q'.availRing[q.availIdx % q.size] == r.ret
      && q'.usedIdx == q.usedIdx && q'.usedRing == q.usedRing && q'.lastUsed == q.lastUsed
      && r.driver.numQueues == d.numQueues
      && forall i :: 0 <= i < MaxQueues && i != qid ==> r.driver.queues[i] == d.queues[i])
  {
    if qid >= d.numQueues then Added(d, -1)
    else
      var q := d.queues[qid];
      var total := outNum + inNum;
      if total == 0 || total > q.numFree then Added(d, -1)
      else
        var f := Fill(q.desc, q.freeHead, 0, total, outNum, bufs, lens);
        var q' := q.(desc := f.desc, freeHead := f.desc[f.last].next, numFree := q.numFree - total,
                     availRing := q.availRing[q.availIdx % q.size := q.freeHead],
                     availIdx := (q.availIdx + 1) % Word16);
        Added(d.(queues := d.queues[qid := q']), q.freeHead)
  }

  /**
   The chain AddBuf publishes: the j-th descriptor from the head holds buffer
   j with NEXT on all but the last and WRITE on the `inNum` device-written
   ones, and the new free head follows the chain's last entry.
   */
  lemma AddBufChain(d: Driver, qid: u32, bufs: seq<u64>, lens: seq<u32>, outNum: u32, inNum: u32)
    requires DriverWf(d) && qid < d.numQueues && Ready(d.queues[qid])
    requires |bufs| == outNum + inNum && |lens| == outNum + inNum && outNum + inNum < Word32
    requires 0 < outNum + inNum <= d.queues[qid].numFree
    ensures var q := d.queues[qid];
      var q' := AddBuf(d, qid, bufs, lens, outNum, inNum).driver.queues[qid];
      var w := Walk(q.desc, q.freeHead, outNum + inNum);
      (forall j :: 0 <= j < outNum + inNum ==>
         q'.desc[w[j]].addr == bufs[j] && q'.desc[w[j]].len == lens[j]
         && (q'.desc[w[j]].flags % 2 == 1 <==> j + 1 < outNum + inNum)
         && ((q'.desc[w[j]].flags / 2) % 2 == 1 <==> j >= outNum))
      && Walk(q'.desc, q.freeHead, outNum + inNum) == w
      && q'.freeHead == q.desc[w[outNum + inNum - 1]].next
  {
    var q := d.queues[qid];
    var total := outNum + inNum;
    var w := Walk(q.desc, q.freeHead, total);
    var all := FreeChain(q);
    assert w == all[..total] by {
      WalkPrefix(q.desc, q.freeHead, total, q.numFree);
    }
    DistinctPrefix(all, total);
    FillChain(q.desc, q.freeHead, 0, total, outNum, bufs, lens);
    var f := Fill(q.desc, q.freeHead, 0, total, outNum, bufs, lens);
    WalkSameNext(q.desc, f.desc, q.freeHead, total);
  }

  /** A shorter walk is a prefix of a longer one from the same start. */
  lemma {:induction false} WalkPrefix(desc: seq<Desc>, start: int, k: nat, n: nat)
    requires Linked(desc) && k <= n && (n > 0 ==> 0 <= start < |desc|)
    ensures Walk(desc, start, k) == Walk(desc, start, n)[..k]
    decreases k
  {
    if k > 0 {
      WalkPrefix(desc, desc[start].next, k - 1, n - 1);
    }
  }

  lemma DistinctPrefix<T>(s: seq<T>, k: nat)
    requires Distinct(s) && k <= |s|
    ensures Distinct(s[..k])
  {}

  /** A walk whose first step is known splits into that step and the walk after it. */
  lemma WalkDrop(desc: seq<Desc>, start: int, k: nat, j: nat)
    requires Linked(desc) && 0 <= start < |desc| && j < k
    ensures Walk(desc, start, k)[j..] == Walk(desc, Walk(desc, start, k)[j], k - j)
    decreases j
  {
    if j > 0 {
      WalkDrop(desc, desc[start].next, k - 1, j - 1);
    }
  }

  /** Adding a chain keeps the rest of the free chain intact and distinct. */
  lemma AddBufKeepsReady(d: Driver, qid: u32, bufs: seq<u64>, lens: seq<u32>, outNum: u32, inNum: u32)
    requires DriverWf(d) && qid < d.numQueues && Ready(d.queues[qid])
    requires |bufs| == outNum + inNum && |lens| == outNum + inNum && outNum + inNum < Word32
    ensures Ready(AddBuf(d, qid, bufs, lens, outNum, inNum).driver.queues[qid])
  {
    var q := d.queues[qid];
    var total := outNum + inNum;
    var r := AddBuf(d, qid, bufs, lens, outNum, inNum);
    if r.ret != -1 {
      AddBufChain(d, qid, bufs, lens, outNum, inNum);
      RestStaysFree(q, r.driver.queues[qid], total);
    }
  }

  /**
   Taking the first `total` entries of a ready queue's free chain, with
   every `next` kept, leaves the rest of the chain as the new free chain.
   */
  lemma RestStaysFree(q: Queue, q': Queue, total: nat)
    requires Ready(q) && QueueWf(q') && q'.size == q.size && 0 < total <= q.numFree
    requires forall i :: 0 <= i < |q.desc| ==> q'.desc[i].next == q.desc[i].next
    requires q'.numFree == q.numFree - total
    requires q'.freeHead == q.desc[Walk(q.desc, q.freeHead, total)[total - 1]].next
    ensures Ready(q')
  {
    var all := FreeChain(q);
    if q'.numFree > 0 {
      assert all[total - 1 + 1] == q.desc[all[total - 1]].next;
      WalkPrefix(q.desc, q.freeHead, total, q.numFree);
      assert q'.freeHead == all[total];
      WalkDrop(q.desc, q.freeHead, q.numFree, total);
      var rest := Walk(q.desc, all[total], q'.numFree);
      assert rest == all[total..];
      WalkSameNext(q.desc, q'.desc, all[total], q'.numFree);
      assert FreeChain(q') == rest;
      assert Distinct(rest) by {
        forall a, b | 0 <= a < b < |rest| ensures rest[a] != rest[b] {
          assert rest[a] == all[total + a] && rest[b] == all[total + b];
        }
      }
    }
  }

  // ---------------------------------------------------------------------
  // Taking a completed chain back
  // ---------------------------------------------------------------------

  /** The entries whose NEXT flag is set; releasing a chain shrinks this set. */
  function Chained(desc: seq<Desc>): set<nat> {
    set i: nat | i < |desc| && desc[i].flags % 2 == 1
  }

  datatype Freed = Freed(desc: seq<Desc>, head: u16, count: nat)

  /**
   The release loop of virtio_queue_get_buf: clear the entry, push it on the
   free list, and follow `next` while its NEXT flag was set. Clearing the flag
   is what makes the loop end.
   */
  function Release(desc: seq<Desc>, idx: u16, freeHead: u16, count: nat): (r: Freed)
    requires Linked(desc) && idx < |desc| && freeHead < |desc|
    decreases |Chained(desc)|
    ensures |r.desc| == |desc| && Linked(r.desc) && r.head < |desc|
    ensures r.count > count
  {
    var next := desc[idx].next;
    var hasNext := desc[idx].flags % 2 == 1;
    var desc1 := desc[idx := Desc(0, 0, 0, freeHead)];
    if !hasNext then Freed(desc1, idx, count + 1)
    else
      assert Chained(desc1) == Chained(desc) - {idx};
      Release(desc1, next, idx, count + 1)
  }

  /**
   Releasing a chain of `k` distinct entries flagged NEXT on all but the last
   frees exactly those `k`, clears them, and leaves the last as the new head.
   */
  lemma {:induction false} ReleaseChain(desc: seq<Desc>, idx: u16, freeHead: u16, count: nat, k: nat)
    requires Linked(desc) && idx < |desc| && freeHead < |desc| && k > 0
    requires Distinct(Walk(desc, idx, k))
    requires forall m :: 0 <= m < k - 1 ==> desc[Walk(desc, idx, k)[m]].flags % 2 == 1
    requires desc[Walk(desc, idx, k)[k - 1]].flags % 2 == 0
    decreases k
    ensures var w := Walk(desc, idx, k);
      var r := Release(desc, idx, freeHead, count);
      r.count == count + k && r.head == w[k - 1]
      && (forall m :: 0 <= m < k ==> r.desc[w[m]].addr == 0 && r.desc[w[m]].len == 0 && r.desc[w[m]].flags == 0)
      && (forall i :: 0 <= i < |desc| && i !in w ==> r.desc[i] == desc[i])
  {
    var w := Walk(desc, idx, k);
    var desc1 := desc[idx := Desc(0, 0, 0, freeHead)];
    if k > 1 {
      var n := desc[idx].next;
      ReleaseTail(desc, idx, freeHead, k);
      ReleaseChain(desc1, n, idx, count + 1, k - 1);
      var r := Release(desc, idx, freeHead, count);
      assert r == Release(desc1, n, idx, count + 1);
      ReleaseExtend(desc, idx, freeHead, k, r.desc);
    }
  }

  /** After the first entry of a chain is cleared, the rest of the chain still meets ReleaseChain's conditions. */
  lemma ReleaseTail(desc: seq<Desc>, idx: u16, freeHead: u16, k: nat)
    requires Linked(desc) && idx < |desc| && freeHead < |desc| && k > 1
    requires Distinct(Walk(desc, idx, k))
    requires forall m :: 0 <= m < k - 1 ==> desc[Walk(desc, idx, k)[m]].flags % 2 == 1
    requires desc[Walk(desc, idx, k)[k - 1]].flags % 2 == 0
    ensures var desc1 := desc[idx := Desc(0, 0, 0, freeHead)];
      var w1 := Walk(desc1, desc[idx].next, k - 1);
      Linked(desc1) && desc[idx].flags % 2 == 1
      && w1 == Walk(desc, idx, k)[1..] && idx !in w1 && Distinct(w1)
      && (forall m :: 0 <= m < k - 2 ==> desc1[w1[m]].flags % 2 == 1)
      && desc1[w1[k - 2]].flags % 2 == 0
  {
    var w := Walk(desc, idx, k);
    var desc1 := desc[idx := Desc(0, 0, 0, freeHead)];
    var n := desc[idx].next;
    var w1 := Walk(desc, n, k - 1);
    assert w[1..] == w1;
    assert idx !in w1 by {
      forall m | 0 <= m < k - 1 ensures w1[m] != idx { assert w1[m] == w[m + 1]; }
    }
    WalkSameNext(desc, desc1, n, k - 1);
    assert Distinct(w1) by {
      forall a, b | 0 <= a < b < k - 1 ensures w1[a] != w1[b] {
        assert w1[a] == w[a + 1] && w1[b] == w[b + 1];
      }
    }
    forall m | 0 <= m < k - 2 ensures desc1[w1[m]].flags % 2 == 1 {
      assert w1[m] == w[m + 1];
    }
    assert desc1[w1[k - 2]] == desc[w[k - 1]];
  }

  /**
   What releasing the rest of a chain guarantees about its entries extends
   to the whole chain once the first entry's own clearing is added.
   */
  lemma ReleaseExtend(desc: seq<Desc>, idx: u16, freeHead: u16, k: nat, out: seq<Desc>)
    requires Linked(desc) && idx < |desc| && k > 1
    requires |out| == |desc| && Distinct(Walk(desc, idx, k))
    requires var w1 := Walk(desc, idx, k)[1..];
      (forall m :: 0 <= m < k - 1 ==> out[w1[m]].addr == 0 && out[w1[m]].len == 0 && out[w1[m]].flags == 0)
      && (forall i :: 0 <= i < |desc| && i !in w1 ==> out[i] == desc[idx := Desc(0, 0, 0, freeHead)][i])
    ensures var w := Walk(desc, idx, k);
      (forall m :: 0 <= m < k ==> out[w[m]].addr == 0 && out[w[m]].len == 0 && out[w[m]].flags == 0)
      && (forall i :: 0 <= i < |desc| && i !in w ==> out[i] == desc[i])
  {
    var w := Walk(desc, idx, k);
    var w1 := w[1..];
    assert idx !in w1 by {
      forall m | 0 <= m < k - 1 ensures w1[m] != idx { assert w1[m] == w[m + 1]; }
    }
    forall m | 0 <= m < k
      ensures out[w[m]].addr == 0 && out[w[m]].len == 0 && out[w[m]].flags == 0
    {
      if m > 0 { assert w[m] == w1[m - 1]; }
    }
    forall i | 0 <= i < |desc| && i !in w
      ensures out[i] == desc[i]
    {
      assert i !in w1 by {
        forall m | 0 <= m < k - 1 ensures w1[m] != i { assert w1[m] == w[m + 1]; }
      }
    }
  }

  /** The device has reported the next used element with an id inside the table. */
  predicate UsedInRange(q: Queue) {
    QueueWf(q)
    && (q.lastUsed != q.usedIdx ==>
          q.size > 0 && q.usedRing[q.lastUsed % q.size].id % Word16 < q.size)
  }

  datatype Taken = Taken(driver: Driver, ret: int, len: Option<u32>)

  /**
   virtio_queue_get_buf: nothing to take when the used index has not moved;
   otherwise the reported chain is released onto the free list and its id
   returned with the length the device wrote.
   */
  function GetBuf(d: Driver, qid: u32): (r: Taken)
    requires DriverWf(d)
    requires qid < d.numQueues ==> UsedInRange(d.queues[qid])
    ensures DriverWf(r.driver) && r.driver.numQueues == d.numQueues
    ensures (qid >= d.numQueues || d.queues[qid].lastUsed == d.queues[qid].usedIdx) ==>
      (r.ret == -1 && r.driver == d && r.len == None)
    ensures qid < d.numQueues && d.queues[qid].lastUsed != d.queues[qid].usedIdx ==> (
      var q := d.queues[qid];
      var q' := r.driver.queues[qid];
      var e := q.usedRing[q.lastUsed % q.size];
      r.ret == AsI32(e.id) && r.len == Some(e.len)
      && QueueWf(q') && q'.size == q.size
      && q'.lastUsed == (q.lastUsed + 1) % Word16 && q'.usedIdx == q.usedIdx
      && q'.availIdx == q.availIdx && q'.availRing == q.availRing
      && q'.freeHead < q.size
      && forall i :: 0 <= i < MaxQueues && i != qid ==> r.driver.queues[i] == d.queues[i])
  {
    if qid >= d.numQueues then Taken(d, -1, None)
    else
      var q := d.queues[qid];
      if q.lastUsed == q.usedIdx then Taken(d, -1, None)
      else
        var e := q.usedRing[q.lastUsed % q.size];
        var f := Release(q.desc, e.id % Word16, q.freeHead, 0);
        var q' := q.(desc := f.desc, freeHead := f.head, numFree := (q.numFree + f.count) % Word32,
                     lastUsed := (q.lastUsed + 1) % Word16);
        Taken(d.(queues := d.queues[qid := q']), AsI32(e.id), Some(e.len))
  }

  /** The device's side of the used ring: record a finished chain and advance the used index. */
  function Complete(d: Driver, qid: u32, id: u32, len: u32): (r: Driver)
    requires DriverWf(d) && qid < d.numQueues && QueueWf(d.queues[qid]) && d.queues[qid].size > 0
    ensures DriverWf(r) && QueueWf(r.queues[qid])
    ensures r.queues[qid].usedIdx == (d.queues[qid].usedIdx + 1) % Word16
  {
    var q := d.queues[qid];
    var q' := q.(usedRing := q.usedRing[q.usedIdx % q.size := UsedElem(id, len)],
                 usedIdx := (q.usedIdx + 1) % Word16);
    d.(queues := d.queues[qid := q'])
  }

  /**
   A request round trip: add a chain, let the device report its head, take
   it back. The caller gets the head and the written length, the queue gets
   all its descriptors back, and the chain's entries are cleared.
   */
  lemma AddThenGet(d: Driver, qid: u32, bufs: seq<u64>, lens: seq<u32>, outNum: u32, inNum: u32, written: u32)
    requires DriverWf(d) && qid < d.numQueues && Ready(d.queues[qid])
    requires d.queues[qid].lastUsed == d.queues[qid].usedIdx
    requires |bufs| == outNum + inNum && |lens| == outNum + inNum && outNum + inNum < Word32
    requires 0 < outNum + inNum <= d.queues[qid].numFree
    ensures var a := AddBuf(d, qid, bufs, lens, outNum, inNum);
      var c := Complete(a.driver, qid, a.ret, written);
      UsedInRange(c.queues[qid])
      && var g := GetBuf(c, qid);
      var q := d.queues[qid];
      var q' := g.driver.queues[qid];
      var w := Walk(q.desc, q.freeHead, outNum + inNum);
      a.ret == q.freeHead && g.ret == a.ret && g.len == Some(written)
      && q'.numFree == q.numFree && q'.lastUsed == q'.usedIdx
      && q'.freeHead == w[outNum + inNum - 1]
      && forall m :: 0 <= m < outNum + inNum ==> q'.desc[w[m]].flags == 0
  {
    var q := d.queues[qid];
    var total := outNum + inNum;
    AddThenComplete(d, qid, bufs, lens, outNum, inNum, written);
    var a := AddBuf(d, qid, bufs, lens, outNum, inNum);
    var c := Complete(a.driver, qid, a.ret, written);
    GetCompleted(c, qid, q.freeHead, total, q.numFree, Walk(q.desc, q.freeHead, total), written);
  }

  /**
   The second half of the round trip: the device has reported the chain `w`
   of `total` entries from `head` as used, so GetBuf returns `head` and puts
   the whole chain back on the free list, cleared.
   */
  lemma GetCompleted(c: Driver, qid: u32, head: u16, total: nat, numFree: u32, w: seq<nat>, written: u32)
    requires DriverWf(c) && qid < c.numQueues && UsedInRange(c.queues[qid])
    requires var qc := c.queues[qid];
      && qc.lastUsed != qc.usedIdx && qc.usedIdx == (qc.lastUsed + 1) % Word16
      && qc.usedRing[qc.lastUsed % qc.size] == UsedElem(head as u32, written)
      && head < qc.size && qc.freeHead < qc.size
      && 0 < total && qc.numFree + total == numFree
      && Distinct(w) && Walk(qc.desc, head, total) == w
      && (forall m :: 0 <= m < total - 1 ==> qc.desc[w[m]].flags % 2 == 1)
      && qc.desc[w[total - 1]].flags % 2 == 0
    ensures var g := GetBuf(c, qid);
      var q' := g.driver.queues[qid];
      g.ret == head && g.len == Some(written)
      && q'.numFree == numFree && q'.lastUsed == q'.usedIdx
      && q'.freeHead == w[total - 1]
      && forall m :: 0 <= m < total ==> q'.desc[w[m]].flags == 0
  {
    var qc := c.queues[qid];
    ModSmall(head as int, Word16);
    ReleaseChain(qc.desc, head, qc.freeHead, 0, total);
    ModSmall(numFree as int, Word32);
  }

  /** The first half of the round trip: the chain is published and its head reported back as used. */
  lemma AddThenComplete(d: Driver, qid: u32, bufs: seq<u64>, lens: seq<u32>, outNum: u32, inNum: u32,
                        written: u32)
    requires DriverWf(d) && qid < d.numQueues && Ready(d.queues[qid])
    requires d.queues[qid].lastUsed == d.queues[qid].usedIdx
    requires |bufs| == outNum + inNum && |lens| == outNum + inNum && outNum + inNum < Word32
    requires 0 < outNum + inNum <= d.queues[qid].numFree
    ensures var a := AddBuf(d, qid, bufs, lens, outNum, inNum);
      var qc := Complete(a.driver, qid, a.ret, written).queues[qid];
      var q := d.queues[qid];
      var total := outNum + inNum;
      var w := Walk(q.desc, q.freeHead, total);
      a.ret == q.freeHead && UsedInRange(qc) && qc.size == q.size
      && qc.lastUsed != qc.usedIdx && qc.usedIdx == (qc.lastUsed + 1) % Word16
      && qc.usedRing[qc.lastUsed % qc.size] == UsedElem(a.ret, written)
      && qc.numFree == q.numFree - total && qc.freeHead < qc.size
      && Distinct(w) && Walk(qc.desc, q.freeHead, total) == w
      && (forall m :: 0 <= m < total - 1 ==> qc.desc[w[m]].flags % 2 == 1)
      && qc.desc[w[total - 1]].flags % 2 == 0
  {
    var q := d.queues[qid];
    var total := outNum + inNum;
    var a := AddBuf(d, qid, bufs, lens, outNum, inNum);
    AddBufChain(d, qid, bufs, lens, outNum, inNum);
    var qa := a.driver.queues[qid];
    var c := Complete(a.driver, qid, a.ret, written);
    var qc := c.queues[qid];
    assert qc.lastUsed == q.lastUsed;
    ModSmall(q.usedIdx % q.size, q.size);
    assert qc.usedRing[qc.lastUsed % qc.size] == UsedElem(a.ret, written);
    ModSmall(a.ret, Word16);
    assert qc.lastUsed != qc.usedIdx by {
      assert qc.usedIdx == (q.usedIdx + 1) % Word16;
      if q.usedIdx + 1 < Word16 { ModSmall(q.usedIdx + 1, Word16); }
    }
    var w := Walk(q.desc, q.freeHead, total);
    assert Distinct(w) by {
      WalkPrefix(q.desc, q.freeHead, total, q.numFree);
      DistinctPrefix(FreeChain(q), total);
    }
    assert qc.desc == qa.desc;
  }
}
