/**
 The emulated virtio console (vmm/vdev/virtio/virtio_console.c): two
 1024-byte circular buffers, one for bytes on their way to the guest and
 one for bytes the guest wrote, each with a head (oldest byte) and a tail
 (next free slot). One slot always stays empty, so a buffer holds at most
 1023 bytes and head == tail means empty.
 */
module VirtioConsole {
  import opened Util
  import opened CTypes
  import VirtioDevice

  /** sizeof(input_buffer) == sizeof(output_buffer). */
  const Cap := 1024
  /** VM_NUM_MAX: the static console pool. */
  const MaxConsoles := 4
  /** Feature bits: F_SIZE (bit 0) and F_EMERG_WRITE (bit 2). */
  const ConsoleFeatures := 5

  datatype Ring = Ring(buf: seq<u8>, head: nat, tail: nat)

  predicate RingWf(r: Ring) {
    |r.buf| == Cap && r.head < Cap && r.tail < Cap
  }

  function EmptyRing(): (r: Ring)
    ensures RingWf(r) && Contents(r) == []
  {
    Ring(seq(Cap, _ => 0), 0, 0)
  }

  /** `(i + 1) % sizeof(buffer)`. */
  function Next(i: nat): (j: nat)
    requires i < Cap
    ensures j < Cap && j == (i + 1) % Cap
  {
    ModIfSmall(i + 1, Cap);
    if i + 1 < Cap then i + 1 else 0
  }

  /** The number of bytes held: the distance from head to tail around the circle. */
  function Count(r: Ring): (n: nat)
    requires RingWf(r)
    ensures n < Cap
  {
    if r.head <= r.tail then r.tail - r.head else r.tail + Cap - r.head
  }

  /** The slot of the i-th oldest byte. */
  function Slot(r: Ring, i: nat): (s: nat)
    requires RingWf(r) && i < Cap
    ensures s < Cap
  {
    if r.head + i < Cap then r.head + i else r.head + i - Cap
  }

  /** The bytes held, oldest first. */
  function Contents(r: Ring): (c: seq<u8>)
    requires RingWf(r)
    ensures |c| == Count(r)
  {
    seq(Count(r), i requires 0 <= i < Count(r) => r.buf[Slot(r, i)])
  }

  /** The buffer is full when advancing the tail would meet the head: exactly when it holds 1023 bytes. */
  predicate Full(r: Ring)
    requires RingWf(r)
  {
    Next(r.tail) == r.head
  }

  lemma FullIffCount(r: Ring)
    requires RingWf(r)
    ensures Full(r) <==> Count(r) == Cap - 1
  {}

  /**
   One byte in: stored at the tail when there is room, dropped (the buffer
   unchanged) when the buffer is full.
   */
  function Put(r: Ring, b: u8): (r': Ring)
    requires RingWf(r)
    ensures RingWf(r')
    ensures Full(r) ==> r' == r
    ensures !Full(r) ==> Contents(r') == Contents(r) + [b] && r'.head == r.head
  {
    if Full(r) then r
    else
      var r' := r.(buf := r.buf[r.tail := b], tail := Next(r.tail));
      PutAppends(r, b, r');
      r'
  }

  lemma PutAppends(r: Ring, b: u8, r': Ring)
    requires RingWf(r) && !Full(r)
    requires r' == r.(buf := r.buf[r.tail := b], tail := Next(r.tail))
    ensures RingWf(r') && Contents(r') == Contents(r) + [b]
  {
    FullIffCount(r);
    assert Count(r') == Count(r) + 1;
    forall i | 0 <= i < Count(r)
      ensures Slot(r', i) == Slot(r, i) && Slot(r, i) != r.tail
    {}
    assert Slot(r', Count(r)) == r.tail;
  }

  /** The oldest byte out: the head advances past it. */
  function Take(r: Ring): (res: (Ring, u8))
    requires RingWf(r) && Count(r) > 0
    ensures RingWf(res.0) && res.1 == Contents(r)[0] && Contents(res.0) == Contents(r)[1..]
    ensures res.0.tail == r.tail && res.0.buf == r.buf
  {
    var r' := r.(head := Next(r.head));
    assert Count(r') == Count(r) - 1;
    forall i | 0 <= i < Count(r')
      ensures Slot(r', i) == Slot(r, i + 1)
    {}
    (r', r.buf[r.head])
  }

  lemma TakeStep(out: seq<u8>, r: Ring, r': Ring, b: u8)
    requires RingWf(r) && RingWf(r') && Count(r) > 0
    requires b == Contents(r)[0] && Contents(r') == Contents(r)[1..]
    ensures (out + [b]) + Contents(r') == out + Contents(r) && Count(r') == Count(r) - 1
  {
    assert Contents(r) == [b] + Contents(r');
  }

  /**
   The bytes of a stream that fit: appending to a buffer with `room` free
   slots keeps the first `room` bytes and drops the rest.
   */
  function Fitting(data: seq<u8>, room: nat): (kept: seq<u8>)
    ensures kept == data[..Min(|data|, room)]
  {
    data[..if |data| < room then |data| else room]
  }

  /** The console's two buffers and whether input is waiting. */
  datatype Console = Console(dev: Option<VirtioDevice.Device>, input: Ring, output: Ring, inputAvailable: bool)

  predicate ConsoleWf(c: Console) {
    RingWf(c.input) && RingWf(c.output)
  }

  /**
   virtio_console_input, the buffering loop: each byte is appended while
   there is room; once the buffer is full every later byte of the call is
   dropped. The receive handler it then runs is not part of this model.
   */
  method Input(c: Console, data: seq<u8>) returns (c': Console)
    requires ConsoleWf(c)
    ensures ConsoleWf(c') && c'.output == c.output && c'.dev == c.dev
    ensures Contents(c'.input) == Contents(c.input) + Fitting(data, Cap - 1 - Count(c.input))
    ensures c'.inputAvailable <==> c.inputAvailable || (|data| > 0 && Count(c.input) < Cap - 1)
  {
    c' := c;
    var i := 0;
    while i < |data|
      invariant 0 <= i <= |data|
      invariant ConsoleWf(c') && c'.output == c.output && c'.dev == c.dev
      invariant Contents(c'.input) == Contents(c.input) + Fitting(data[..i], Cap - 1 - Count(c.input))
      invariant c'.inputAvailable <==> c.inputAvailable || (i > 0 && Count(c.input) < Cap - 1)
    {
      FullIffCount(c'.input);
      assert data[..i + 1] == data[..i] + [data[i]];
      if !Full(c'.input) {
        c' := c'.(input := Put(c'.input, data[i]), inputAvailable := true);
      }
      i := i + 1;
    }
    assert data[..i] == data;
  }

  /**
   virtio_console_output: copy out at most `maxLen` bytes, oldest first;
   what was copied leaves the buffer and the rest stays in order.
   */
  method Output(c: Console, maxLen: u32) returns (c': Console, out: seq<u8>)
    requires ConsoleWf(c)
    ensures ConsoleWf(c') && c'.input == c.input && c'.dev == c.dev && c'.inputAvailable == c.inputAvailable
    ensures |out| == Min(maxLen, Count(c.output))
    ensures out + Contents(c'.output) == Contents(c.output)
  {
    c' := c;
    out := [];
    while |out| < maxLen && c'.output.head != c'.output.tail
      invariant ConsoleWf(c') && c'.input == c.input && c'.dev == c.dev && c'.inputAvailable == c.inputAvailable
      invariant |out| <= maxLen && |out| + Count(c'.output) == Count(c.output)
      invariant out + Contents(c'.output) == Contents(c.output)
      decreases Count(c'.output)
    {
      var t := Take(c'.output);
      TakeStep(out, c'.output, t.0, t.1);
      out := out + [t.1];
      c' := c'.(output := t.0);
    }
  }

  /** console_reset: both buffers emptied (their bytes stay, unreachable). */
  function Reset(c: Console): (c': Console)
    requires ConsoleWf(c)
    ensures ConsoleWf(c') && Contents(c'.input) == [] && Contents(c'.output) == [] && !c'.inputAvailable
    ensures c'.dev == c.dev
  {
    c.(input := c.input.(head := 0, tail := 0), output := c.output.(head := 0, tail := 0), inputAvailable := false)
  }

  /**
   The configuration space as the driver reads it, little-endian: cols 80,
   rows 24 (16 bits each), max_nr_ports 1, emerg_wr 0 (32 bits each).
   */
  function ConfigBytes(): (bs: seq<u8>)
    ensures |bs| == 12
  {
    [80, 0, 24, 0, 1, 0, 0, 0, 0, 0, 0, 0]
  }

  datatype Pool = Pool(consoles: seq<Console>, count: nat)

  datatype Made = Made(pool: Pool, devices: VirtioDevice.Pool, index: Option<nat>)

  /**
   virtio_console_create: take the next of the four console slots, create a
   console virtio device for it, and install the console's features,
   configuration and callbacks. As written the slot is counted before the
   device is created, so a failed device creation uses up a slot.
   */
  function Create(p: Pool, devs: VirtioDevice.Pool, base: u64, irq: u32): (r: Made)
    requires p.count == |p.consoles|
    ensures p.count >= MaxConsoles ==> r == Made(p, devs, None)
    ensures p.count < MaxConsoles ==> r.pool.count == p.count + 1
    ensures r.index.Some? ==> (
      r.index.value == p.count && r.index.value < |r.pool.consoles|
      && var c := r.pool.consoles[r.index.value];
      ConsoleWf(c) && Contents(c.input) == [] && Contents(c.output) == []
      && c.dev.Some? && VirtioDevice.DeviceWf(c.dev.value)
      && c.dev.value.deviceId == VirtioDevice.IdConsole && c.dev.value.deviceFeatures == ConsoleFeatures
      && c.dev.value.config == Some(ConfigBytes()) && c.dev.value.notifies && c.dev.value.resets)
  {
    if p.count >= MaxConsoles then Made(p, devs, None)
    else
      var made := VirtioDevice.Create(devs, VirtioDevice.IdConsole, base, irq);
      match made.index
      case None =>
        Made(Pool(p.consoles + [Console(None, EmptyRing(), EmptyRing(), false)], p.count + 1),
             made.pool, None)
      case Some(k) =>
        var dev := made.pool.devices[k].(deviceFeatures := ConsoleFeatures, config := Some(ConfigBytes()),
                                         notifies := true, resets := true);
        Made(Pool(p.consoles + [Console(Some(dev), EmptyRing(), EmptyRing(), false)], p.count + 1),
             made.pool.(devices := made.pool.devices[k := dev]), Some(p.count))
  }

  /**
   The configuration the driver reads back through the register file is
   the console's 80x24, one-port layout: cols at 0x100, rows at 0x102.
   */
  lemma ConfigReadsBack(p: Pool, devs: VirtioDevice.Pool, base: u64, irq: u32)
    requires p.count == |p.consoles|
    ensures var r := Create(p, devs, base, irq);
      r.index.Some? ==>
        var dev := r.pool.consoles[r.index.value].dev.value;
        VirtioDevice.MmioRead(dev, VirtioDevice.RegConfig, 2) == VirtioDevice.ConfigBytes([80, 0])
        && VirtioDevice.MmioRead(dev, VirtioDevice.RegConfig + 2, 2) == VirtioDevice.ConfigBytes([24, 0])
        && VirtioDevice.MmioRead(dev, VirtioDevice.RegConfig + 4, 4) == VirtioDevice.ConfigBytes([1, 0, 0, 0])
  {
    var r := Create(p, devs, base, irq);
    if r.index.Some? {
      var dev := r.pool.consoles[r.index.value].dev.value;
      var c := ConfigBytes();
      assert c[0..2] == [80, 0] && c[2..4] == [24, 0] && c[4..8] == [1, 0, 0, 0];
    }
  }
}
