/**
 The physical UART's software buffers (io/uart_pl011.c): two 32-byte
 circular buffers, one holding bytes waiting for the transmit FIFO and one
 holding received bytes until a reader takes them. Unlike the virtio
 console's rings these keep an explicit count, so all 32 slots can be used:
 `head` is the next free slot, `tail` the oldest byte.

 The hardware FIFO is not modelled; where the source asks whether it is
 full, the answer is a parameter.
 */
module UartRing {
  import opened Util
  import opened CTypes

  /** UART_TX_BUFFER_SIZE (the receive buffer has the same size). */
  const Size := 32

  datatype Buffer = Buffer(buf: seq<Char8>, head: nat, tail: nat, count: nat)

  /** The indices stay in range and the head is `count` slots after the tail. */
  predicate Wf(b: Buffer) {
    |b.buf| == Size && b.head < Size && b.tail < Size && b.count <= Size
    && b.head == (b.tail + b.count) % Size
  }

  /** The bytes held, oldest first. */
  function Contents(b: Buffer): (c: seq<Char8>)
    requires Wf(b)
    ensures |c| == b.count
  {
    seq(b.count, k requires 0 <= k < b.count => b.buf[(b.tail + k) % Size])
  }

  /** buffer_is_empty. */
  predicate IsEmpty(b: Buffer) {
    b.count == 0
  }

  /** buffer_is_full: the count has reached the size. */
  predicate IsFull(b: Buffer) {
    b.count >= Size
  }

  /** uart_init: the three indices are zeroed; the stored bytes stay, unreachable. */
  function Reset(b: Buffer): (r: Buffer)
    requires |b.buf| == Size
    ensures Wf(r) && Contents(r) == [] && IsEmpty(r) && r.buf == b.buf
  {
    b.(head := 0, tail := 0, count := 0)
  }

  /** buffer_put: a full buffer refuses the byte and is left as it was; otherwise the byte is stored at the head. */
  function Put(b: Buffer, c: Char8): (r: (bool, Buffer))
    requires Wf(b)
    ensures r.0 <==> !IsFull(b)
    ensures !r.0 ==> r.1 == b
    ensures r.0 ==> Wf(r.1) && Contents(r.1) == Contents(b) + [c] && r.1.count == b.count + 1
  {
    if IsFull(b) then (false, b)
    else
      var b' := b.(buf := b.buf[b.head := c], head := (b.head + 1) % Size, count := b.count + 1);
      PutAppends(b, c, b');
      (true, b')
  }

  lemma PutAppends(b: Buffer, c: Char8, b': Buffer)
    requires Wf(b) && !IsFull(b)
    requires b' == b.(buf := b.buf[b.head := c], head := (b.head + 1) % Size, count := b.count + 1)
    ensures Wf(b') && Contents(b') == Contents(b) + [c]
  {
    forall k | 0 <= k < b.count
      ensures Contents(b')[k] == Contents(b)[k]
    {
      assert (b.tail + k) % Size != b.head;
    }
    assert Contents(b') == Contents(b) + [c];
  }

  /** buffer_get: an empty buffer gives nothing and is left as it was; otherwise the oldest byte leaves. */
  function Get(b: Buffer): (r: (Option<Char8>, Buffer))
    requires Wf(b)
    ensures r.0.Some? <==> !IsEmpty(b)
    ensures r.0.None? ==> r.1 == b
    ensures r.0.Some? ==> (Wf(r.1) && r.0.value == Contents(b)[0] && Contents(r.1) == Contents(b)[1..]
      && r.1.count == b.count - 1)
  {
    if IsEmpty(b) then (None, b)
    else
      var b' := b.(tail := (b.tail + 1) % Size, count := b.count - 1);
      GetPops(b, b');
      (Some(b.buf[b.tail]), b')
  }

  lemma GetPops(b: Buffer, b': Buffer)
    requires Wf(b) && !IsEmpty(b)
    requires b' == b.(tail := (b.tail + 1) % Size, count := b.count - 1)
    ensures Wf(b') && Contents(b')  == Contents(b)[1..] && Contents(b)[0] == b.buf[b.tail]
  {
    forall k | 0 <= k < b'.count
      ensures Contents(b')[k] == Contents(b)[k + 1]
    {
      if b.tail + 1 < Size {
        assert b'.tail + k == b.tail + (k + 1);
      } else {
        assert b'.tail == 0 && b.tail + (k + 1) == Size + k;
      }
    }
  }

  /** buffer_put of each byte in turn, ignoring refusals. */
  function PutAll(b: Buffer, cs: seq<Char8>): (r: Buffer)
    requires Wf(b)
    ensures Wf(r)
    decreases |cs|
  {
    if |cs| == 0 then b
    else
      var (ok, b') := Put(b, cs[0]);
      PutAll(b', cs[1..])
  }

  /** Bytes that all fit come back out by buffer_get in the order they were put, after the ones already held. */
  lemma {:induction false} FifoOrder(b: Buffer, cs: seq<Char8>)
    requires Wf(b) && b.count + |cs| <= Size
    decreases |cs|
    ensures DrainAll(PutAll(b, cs)) == Contents(b) + cs
  {
    if |cs| == 0 {
      DrainContents(b);
    } else {
      var b' := Put(b, cs[0]).1;
      FifoOrder(b', cs[1..]);
      assert Contents(b) + cs == (Contents(b) + [cs[0]]) + cs[1..];
    }
  }

  /** The bytes obtained by calling buffer_get until it fails. */
  function DrainAll(b: Buffer): (out: seq<Char8>)
    requires Wf(b)
    decreases b.count
  {
    var (c, b') := Get(b);
    if c.None? then [] else [c.value] + DrainAll(b')
  }

  /** Draining gives exactly the contents, oldest first. */
  lemma {:induction false} DrainContents(b: Buffer)
    requires Wf(b)
    decreases b.count
    ensures DrainAll(b) == Contents(b)
  {
    if !IsEmpty(b) {
      DrainContents(Get(b).1);
      assert Contents(b) == [Contents(b)[0]] + Contents(b)[1..];
    }
  }

  /**
   The transmit interrupt's loop: while the hardware FIFO has room and the
   buffer is not empty, one byte goes from the buffer to the data
   register. `room` is how many bytes the FIFO accepts before it reports
   full. Afterwards the transmit interrupt is disabled exactly when the
   buffer is empty.
   */
  method TxDrain(b: Buffer, room: nat) returns (b': Buffer, sent: seq<Char8>, txIrqOn: bool)
    requires Wf(b)
    ensures Wf(b')
    ensures |sent| == Min(room, b.count)
    ensures sent + Contents(b') == Contents(b)
    ensures txIrqOn <==> !IsEmpty(b')
  {
    b' := b;
    sent := [];
    while |sent| < room && !IsEmpty(b')
      invariant Wf(b') && |sent| <= room && |sent| + b'.count == b.count
      invariant sent + Contents(b') == Contents(b)
      decreases b'.count
    {
      var (c, next) := Get(b');
      SentStep(b', sent, Contents(b));
      sent := sent + [c.value];
      b' := next;
    }
    txIrqOn := !IsEmpty(b');
  }

  /** One step of the transmit loop keeps "sent, then still held" equal to the original contents. */
  lemma SentStep(b: Buffer, sent: seq<Char8>, all: seq<Char8>)
    requires Wf(b) && !IsEmpty(b) && sent + Contents(b) == all
    ensures (sent + [Get(b).0.value]) + Contents(Get(b).1) == all
  {
    assert Contents(b) == [Get(b).0.value] + Contents(Get(b).1);
  }

  /**
   The receive interrupt's loop: every byte read from the hardware is put
   into the buffer while there is room and dropped once it is full; every
   byte is also forwarded to the virtual UARTs whatever happens to it here.
   */
  method RxFill(b: Buffer, data: seq<Char8>) returns (b': Buffer, forwarded: seq<Char8>)
    requires Wf(b)
    ensures Wf(b') && forwarded == data
    ensures Contents(b') == Contents(b) + data[..Min(|data|, Size - b.count)]
  {
    b' := b;
    var i := 0;
    while i < |data|
      invariant 0 <= i <= |data|
      invariant Wf(b')
      invariant Contents(b') == Contents(b) + data[..Min(i, Size - b.count)]
    {
      if !IsFull(b') {
        b' := Put(b', data[i]).1;
        assert data[..Min(i + 1, Size - b.count)] == data[..Min(i, Size - b.count)] + [data[i]];
      }
      i := i + 1;
    }
    forwarded := data;
  }

  /** What uart_putchar_nb did with the byte. */
  datatype PutResult = Direct | Buffered | Refused

  /**
   uart_putchar_nb: before initialisation every byte is refused. After it,
   an empty buffer and a FIFO with room send the byte straight to the data
   register; otherwise it is buffered (and the transmit interrupt enabled),
   or refused when the buffer is full. The return value is true for the
   first two.
   */
  function PutCharNb(initialized: bool, b: Buffer, c: Char8, fifoFull: bool): (r: (PutResult, Buffer))
    requires Wf(b)
    ensures !initialized ==> r == (Refused, b)
    ensures r.0 == Direct <==> initialized && IsEmpty(b) && !fifoFull
    ensures r.0 == Refused <==> !initialized || IsFull(b)
    ensures r.0 != Buffered ==> r.1 == b
    ensures r.0 == Buffered ==> Wf(r.1) && Contents(r.1) == Contents(b) + [c]
  {
    if !initialized then (Refused, b)
    else if IsEmpty(b) && !fifoFull then (Direct, b)
    else
      var (ok, b') := Put(b, c);
      if ok then (Buffered, b') else (Refused, b)
  }
}
