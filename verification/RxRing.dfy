/** The receive ring of a TCP socket (src/pd/beam/io/tcp.c, src/pd/beam/io/network/runtime_tcp_logic.h). */
module RxRing {
  import opened Words
  import opened Regions

  const UINT16_MAX := 0xFFFF

  /** SOCKET_BUF_SIZE: positive, and small enough for the int that reports readability. */
  type Capacity = c: nat | 0 < c <= 0x7FFF_FFFF witness 0x200000

  function RxTail(head: nat, len: nat, capacity: Capacity): nat {
    (head + len) % capacity
  }

  function RxFreeSpan(head: nat, len: nat, capacity: Capacity): nat
    requires len <= capacity
  {
    var tail := RxTail(head, len, capacity);
    capacity - (if len > tail then len else tail)
  }

  function RxReadSpan(head: nat, len: nat, capacity: Capacity): nat
    requires head < capacity
  {
    var toEnd := capacity - head;
    if len < toEnd then len else toEnd
  }

  function RxAdvance(head: nat, count: nat, capacity: Capacity): nat {
    (head + count) % capacity
  }

  predicate RxCanAccept(len: nat, incoming: nat, capacity: Capacity) {
    len <= capacity && incoming <= capacity - len
  }

  function RecvedChunk(remaining: nat): nat {
    if remaining > UINT16_MAX then UINT16_MAX else remaining
  }

  /** Reduction modulo the capacity without division, for offsets below two capacities. */
  lemma ModOnce(x: nat, capacity: Capacity)
    requires x < 2 * capacity
    ensures x % capacity == if x < capacity then x else x - capacity
  {
  }

  /** Where the k-th buffered byte lies. */
  function Slot(head: nat, k: nat, capacity: nat): nat {
    if head + k < capacity then head + k else head + k - capacity
  }

  /** The bytes of buf from head on, len of them, wrapping at the end of the buffer. */
  function Wrapped(buf: seq<byte>, head: nat, len: nat): (s: seq<byte>)
    requires head < |buf| && len <= |buf|
  {
    seq(len, k requires 0 <= k < len => buf[Slot(head, k, |buf|)])
  }

  /** Writing a chunk into the free slots that follow the buffered bytes appends it. */
  lemma WrappedAppend(before: seq<byte>, after: seq<byte>, head: nat, len: nat, chunk: seq<byte>)
    requires head < |before| == |after| && len + |chunk| <= |before|
    requires forall k :: 0 <= k < len ==> after[Slot(head, k, |before|)] == before[Slot(head, k, |before|)]
    requires forall k :: 0 <= k < |chunk| ==> after[Slot(head, len + k, |before|)] == chunk[k]
    ensures Wrapped(after, head, len + |chunk|) == Wrapped(before, head, len) + chunk
  {
    var joined := Wrapped(after, head, len + |chunk|);
    forall k | 0 <= k < |joined|
      ensures joined[k] == (Wrapped(before, head, len) + chunk)[k]
    {
      if len <= k {
        assert after[Slot(head, len + (k - len), |before|)] == chunk[k - len];
      }
    }
  }

  /**
   * The free span starts at the tail, ends at the end of the buffer or at the oldest byte, and is empty
   * only when the ring is full; a chunk that fits it, copied to the tail, is appended.
   */
  lemma FreeSpanAppends(buf: seq<byte>, head: nat, len: nat, chunk: seq<byte>)
    requires |buf| <= 0x7FFF_FFFF && head < |buf| && len <= |buf| && |chunk| <= RxFreeSpan(head, len, |buf|)
    ensures var tail, span := RxTail(head, len, |buf|), RxFreeSpan(head, len, |buf|);
            && tail + span == (if len <= tail then |buf| else head)
            && (span == 0 <==> len == |buf|) && len + |chunk| <= |buf| && tail + |chunk| <= |buf|
            && Wrapped(Blit(buf, tail, chunk), head, len + |chunk|) == Wrapped(buf, head, len) + chunk
  {
    ModOnce(head + len, |buf|);
    WrappedAppend(buf, Blit(buf, RxTail(head, len, |buf|), chunk), head, len, chunk);
  }

  /** A run of count buffered bytes that does not wrap is the front of the contents. */
  lemma WrappedConsume(buf: seq<byte>, head: nat, len: nat, count: nat, next: nat)
    requires head < |buf| && count <= len <= |buf| && head + count <= |buf|
    requires next == if head + count < |buf| then head + count else 0
    ensures Wrapped(buf, head, len) == buf[head..head + count] + Wrapped(buf, next, len - count)
  {
  }

  function Sum(xs: seq<nat>): nat {
    if xs == [] then 0 else Sum(xs[..|xs| - 1]) + xs[|xs| - 1]
  }

  /** One slot's ring: head is the oldest byte and len the number buffered. */
  class Ring {
    const capacity: Capacity
    const rxBuf: array<byte>
    var rxHead: nat
    var rxLen: nat

    ghost predicate Valid()
      reads this
    {
      rxBuf.Length == capacity && rxHead < capacity && rxLen <= capacity
    }

    /** The buffered bytes, oldest first. */
    ghost function Contents(): (s: seq<byte>)
      reads this, rxBuf
      requires Valid()
      ensures |s| == rxLen
    {
      Wrapped(rxBuf[..], rxHead, rxLen)
    }

    constructor (capacity: Capacity)
      ensures Valid() && Contents() == [] && this.capacity == capacity
      ensures fresh(rxBuf)
    {
      this.capacity := capacity;
      rxBuf := new byte[capacity];
      rxHead, rxLen := 0, 0;
    }

    /** One copy of count segment bytes into the free span at the tail. */
    method Append(segment: seq<byte>, copied: nat, count: nat)
      requires Valid() && copied + count <= |segment|
      requires count <= RxFreeSpan(rxHead, rxLen, capacity)
      modifies this`rxLen, rxBuf
      ensures Valid() && rxLen == old(rxLen) + count
      ensures Contents() == old(Contents()) + segment[copied..copied + count]
    {
      hide RxFreeSpan, RxTail, Wrapped, Blit;
      ghost var before, chunk := rxBuf[..], segment[copied..copied + count];
      FreeSpanAppends(before, rxHead, rxLen, chunk);
      var rxTail := RxTail(rxHead, rxLen, capacity);
      StoreBytes(rxBuf, rxTail, segment[copied..copied + count]);
      rxLen := rxLen + count;
    }

    /**
     * socket_recv_callback on a connected socket: refuse a segment that does not fit, leaving the
     * ring as it was, or append all of it.
     */
    method Receive(segment: seq<byte>) returns (accepted: bool)
      requires Valid() && |segment| <= UINT16_MAX
      modifies this`rxLen, rxBuf
      ensures Valid()
      ensures accepted <==> old(rxLen) + |segment| <= capacity
      ensures accepted ==> Contents() == old(Contents()) + segment
      ensures !accepted ==> rxLen == old(rxLen) && rxBuf[..] == old(rxBuf[..])
    {
      hide RxFreeSpan, Wrapped, Blit;
      if !RxCanAccept(rxLen, |segment|, capacity) {
        return false;
      }
      var copied: nat, remaining: nat := 0, |segment|;
      while remaining != 0
        invariant Valid() && copied + remaining == |segment| && remaining <= capacity - rxLen
        invariant Contents() == old(Contents()) + segment[..copied]
        decreases remaining
      {
        var span := RxFreeSpan(rxHead, rxLen, capacity);
        FreeSpanAppends(rxBuf[..], rxHead, rxLen, []);
        var toCopy := if remaining < span then remaining else span;
        Append(segment, copied, toCopy);
        assert segment[..copied] + segment[copied..copied + toCopy] == segment[..copied + toCopy];
        copied := copied + toCopy;
        remaining := remaining - toCopy;
      }
      assert segment[..copied] == segment;
      return true;
    }

    /** One copy out of count bytes from the head. */
    method Consume(count: nat) returns (chunk: seq<byte>)
      requires Valid() && count <= RxReadSpan(rxHead, rxLen, capacity)
      modifies this`rxHead, this`rxLen
      ensures Valid() && rxLen == old(rxLen) - count
      ensures old(Contents()) == chunk + Contents()
    {
      chunk := rxBuf[rxHead..rxHead + count];
      ModOnce(rxHead + count, capacity);
      WrappedConsume(rxBuf[..], rxHead, rxLen, count, RxAdvance(rxHead, count, capacity));
      rxHead := RxAdvance(rxHead, count, capacity);
      rxLen := rxLen - count;
    }

    /** The copy-out loop of tcp_socket_recv: the oldest min(len, buffered) bytes. */
    method CopyOut(len: nat) returns (data: seq<byte>)
      requires Valid()
      modifies this`rxHead, this`rxLen
      ensures Valid() && |data| == if len < old(rxLen) then len else old(rxLen)
      ensures old(Contents()) == data + Contents()
    {
      data := [];
      while |data| != len
        invariant Valid() && |data| <= len
        invariant old(Contents()) == data + Contents()
        decreases rxLen
      {
        var span := RxReadSpan(rxHead, rxLen, capacity);
        var toCopy := if len - |data| < span then len - |data| else span;
        if toCopy == 0 {
          break;
        }
        ghost var before := Contents();
        var chunk := Consume(toCopy);
        assert data + before == data + chunk + Contents();
        data := data + chunk;
      }
    }

    /**
     * tcp_socket_recv once the gate says to copy: the bytes and the receive-window updates it
     * reports to lwIP, each of which fits the u16_t that tcp_recved takes.
     */
    method Recv(len: nat) returns (data: seq<byte>, updates: seq<nat>)
      requires Valid()
      modifies this`rxHead, this`rxLen
      ensures Valid() && |data| == if len < old(rxLen) then len else old(rxLen)
      ensures old(Contents()) == data + Contents()
      ensures Sum(updates) == |data|
      ensures forall u :: u in updates ==> 0 < u <= UINT16_MAX
    {
      data := CopyOut(len);
      updates := ReportWindow(|data|);
    }
  }

  /** The window-update loop: positive 16-bit chunks that add up to what was copied. */
  method ReportWindow(copied: nat) returns (updates: seq<nat>)
    ensures Sum(updates) == copied
    ensures forall u :: u in updates ==> 0 < u <= UINT16_MAX
  {
    updates := [];
    var remaining := copied;
    while remaining != 0
      invariant Sum(updates) + remaining == copied
      invariant forall u :: u in updates ==> 0 < u <= UINT16_MAX
    {
      var chunk := RecvedChunk(remaining);
      assert (updates + [chunk])[..|updates|] == updates;
      updates := updates + [chunk];
      remaining := remaining - chunk;
    }
  }

  // ----- whole runs -----

  /** A segment offered by lwIP, or a read of up to len bytes by the application. */
  datatype Op = Segment(bytes: seq<byte>) | Read(len: nat)

  /** The FIFO the ring is meant to be, with everything accepted and delivered so far. */
  datatype Fifo = Fifo(queue: seq<byte>, accepted: seq<byte>, delivered: seq<byte>)

  /** The effect of one operation on the FIFO; Receive and Recv meet exactly this. */
  function FifoStep(f: Fifo, op: Op, capacity: Capacity): Fifo {
    match op
    case Segment(bytes) =>
      if |f.queue| + |bytes| <= capacity
      then f.(queue := f.queue + bytes, accepted := f.accepted + bytes)
      else f
    case Read(len) =>
      var n := if len < |f.queue| then len else |f.queue|;
      f.(queue := f.queue[n..], delivered := f.delivered + f.queue[..n])
  }

  function FifoRun(f: Fifo, ops: seq<Op>, capacity: Capacity): Fifo
    decreases |ops|
  {
    if ops == [] then f else FifoStep(FifoRun(f, ops[..|ops| - 1], capacity), ops[|ops| - 1], capacity)
  }

  /**
   * Drives one ring through any interleaving of segments and reads: it stays equal to the FIFO run,
   * and everything it reported to lwIP adds up to what the application received.
   */
  method Drive(ring: Ring, ops: seq<Op>) returns (delivered: seq<byte>, reported: nat)
    requires ring.Valid() && ring.Contents() == []
    requires forall op :: op in ops && op.Segment? ==> |op.bytes| <= UINT16_MAX
    modifies ring, ring.rxBuf
    ensures ring.Valid()
    ensures var f := FifoRun(Fifo([], [], []), ops, ring.capacity);
            ring.Contents() == f.queue && delivered == f.delivered
    ensures reported == |delivered|
  {
    delivered, reported := [], 0;
    for i := 0 to |ops|
      invariant ring.Valid()
      invariant var f := FifoRun(Fifo([], [], []), ops[..i], ring.capacity);
                ring.Contents() == f.queue && delivered == f.delivered
      invariant reported == |delivered|
    {
      assert ops[..i + 1][..i] == ops[..i];
      match ops[i]
      case Segment(bytes) =>
        ghost var before := ring.Contents();
        var accepted := ring.Receive(bytes);
        assert accepted || ring.Contents() == before;
      case Read(len) =>
        ghost var before := ring.Contents();
        var data, updates := ring.Recv(len);
        assert data == before[..|data|] && ring.Contents() == before[|data|..];
        delivered, reported := delivered + data, reported + Sum(updates);
    }
    assert ops[..|ops|] == ops;
  }

  /**
   * Over any interleaving of segments and reads, what was delivered followed by what is buffered is
   * exactly what was accepted, in order; so delivered bytes are a prefix of accepted bytes.
   */
  lemma {:induction false} DeliveredIsPrefixOfAccepted(ops: seq<Op>, capacity: Capacity)
    ensures var f := FifoRun(Fifo([], [], []), ops, capacity);
            f.accepted == f.delivered + f.queue && f.delivered <= f.accepted && |f.queue| <= capacity
    decreases |ops|
  {
    if ops != [] {
      var last := ops[|ops| - 1];
      var f := FifoRun(Fifo([], [], []), ops[..|ops| - 1], capacity);
      DeliveredIsPrefixOfAccepted(ops[..|ops| - 1], capacity);
      match last
      case Segment(bytes) =>
        assert f.delivered + f.queue + bytes == f.delivered + (f.queue + bytes);
      case Read(len) =>
        var n := if len < |f.queue| then len else |f.queue|;
        assert f.delivered + f.queue == f.delivered + f.queue[..n] + f.queue[n..];
    }
  }
}
