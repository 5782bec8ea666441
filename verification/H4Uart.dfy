/** The interrupt handler of the hci_uart sample, against the one-shot parser of H4Parser.

    The UART is an input: `stream` are the bytes still to arrive, each entry of `grants` says
    how many bytes one uart_fifo_read finds at most, and each entry of `irqs` what one turn of
    the handler's loop finds pending.  All three may be anything.  The handler busy-waits for
    the bytes of a packet header; when the grants run out during that wait the model stops
    there and reports `stuck`. */
module H4Uart {
  import opened Bytes
  import opened H4Parser
  import opened Options

  datatype Irq = Quiet | RxReady | OtherReady

  datatype Start = Opened | Stuck | NoByte | UnknownType

  const H4_DISCARD_LEN := 33

  class HciUart {
    const pools: Pools
    // the static variables of bt_uart_isr, and everything ever put on tx_queue
    var buf: Option<Packet>
    var remaining: nat
    var txQueue: seq<Packet>
    // the surroundings
    var stream: seq<byte>
    var grants: seq<nat>
    var irqs: seq<Irq>
    var allocs: nat
    // what has been read, and its last incomplete frame
    ghost var consumed: seq<byte>
    ghost var partial: seq<byte>
    ghost var frames: nat

    /** The packets queued so far are those of the bytes consumed so far. */
    ghost predicate Agrees()
      reads this
    {
      Parse(pools, consumed, 0) == Parsed(txQueue, frames, partial)
    }

    /** As Agrees, with the bytes of `partial` not yet parsed. */
    ghost predicate Accounted()
      reads this
    {
      Parse(pools, consumed, 0) == After(txQueue, Parse(pools, partial, frames))
    }

    ghost predicate BetweenFrames()
      reads this
    {
      partial == [] && remaining == 0 && buf == None && allocs == frames
    }

    /** Inside a frame whose header is known. */
    ghost predicate InFrame()
      reads this
    {
      && HasHeader(partial) && |partial| + remaining == FrameSize(partial)
      && allocs == frames + 1
      && buf == if Accepted(pools, partial, frames) then Some(Packet(partial[0], partial[1..])) else None
    }

    ghost predicate Valid()
      reads this
    {
      Agrees() && (BetweenFrames() || (InFrame() && remaining > 0))
    }

    /** A UART that keeps delivering: every read finds something, and there are enough reads
        for the whole stream. */
    ghost predicate Delivering()
      reads this
    {
      (forall g :: g in grants ==> g > 0) && |grants| > 2 * |stream|
    }

    /** As Delivering, with enough interrupts too. */
    ghost predicate Flowing()
      reads this
    {
      && Delivering()
      && (forall i :: i in irqs ==> i == RxReady) && |irqs| >= |stream|
    }

    constructor (pools: Pools, stream: seq<byte>, grants: seq<nat>, irqs: seq<Irq>)
      ensures Valid() && txQueue == [] && consumed == []
      ensures this.pools == pools && this.stream == stream && this.grants == grants && this.irqs == irqs
    {
      this.pools := pools;
      this.stream, this.grants, this.irqs := stream, grants, irqs;
      buf, remaining, txQueue, allocs := None, 0, [], 0;
      consumed, partial, frames := [], [], 0;
    }

    /** uart_fifo_read: some of the bytes that are there, possibly none. */
    method FifoRead(len: nat) returns (data: seq<byte>)
      modifies this`stream, this`grants, this`consumed
      ensures |data| <= len
      ensures old(stream) == data + stream && consumed == old(consumed) + data
      ensures grants == if old(grants) == [] then [] else old(grants)[1..]
      ensures data == [] <==> old(grants) == [] || old(grants)[0] == 0 || len == 0 || old(stream) == []
    {
      data := [];
      if grants != [] {
        var n := grants[0];
        n := if n < len then n else len;
        n := if n < |stream| then n else |stream|;
        data, stream, grants := stream[..n], stream[n..], grants[1..];
      }
      consumed := consumed + data;
    }

    /** At most n grants have been used since `before`. */
    ghost predicate Spends(before: seq<nat>, n: nat)
      reads this`grants
    {
      |grants| + n >= |before| && forall g :: g in grants ==> g in before
    }

    /** h4_read: up to len bytes, waiting for the first min of them. */
    method H4Read(len: nat, min: nat) returns (data: seq<byte>, stuck: bool)
      requires min <= len
      modifies this`stream, this`grants, this`consumed
      ensures |data| <= len && (if stuck then |data| < min && grants == [] else |data| >= min)
      ensures old(stream) == data + stream && consumed == old(consumed) + data
      ensures old(Delivering()) ==> |data| == len || stream == []
      ensures old(Delivering()) && stream != [] ==> Spends(old(grants), |data|)
    {
      data, stuck := [], false;
      while |data| < len
        invariant |data| <= len && !stuck
        invariant old(stream) == data + stream && consumed == old(consumed) + data
        invariant old(Delivering()) && stream != [] ==> Spends(old(grants), |data|)
        decreases |grants|, len - |data|
      {
        assert grants != [] ==> grants[0] in grants;
        var rx := FifoRead(len - |data|);
        if rx == [] {
          if |data| < min {
            if grants == [] {
              stuck := true;
              return;
            }
            continue;
          }
          return;
        }
        data := data + rx;
      }
    }

    /** h4_discard: one read into the throw-away buffer. */
    method H4Discard(len: nat) returns (read: seq<byte>)
      modifies this`stream, this`grants, this`consumed
      ensures |read| <= len && |read| <= 33
      ensures old(stream) == read + stream && consumed == old(consumed) + read
      ensures old(Delivering()) && len > 0 && old(stream) != [] ==> read != []
      ensures old(Delivering()) ==> Spends(old(grants), 1)
    {
      assert grants != [] ==> grants[0] in grants;
      read := FifoRead(if len < H4_DISCARD_LEN then len else H4_DISCARD_LEN);
    }

    /** h4_cmd_recv and h4_acl_recv: read the header, learn the length, try for a buffer. */
    method ReceiveHeader(t: byte) returns (b: Option<Packet>, stuck: bool)
      requires KnownType(t) && partial == [t] && Agrees() && allocs == frames
      modifies this`stream, this`grants, this`consumed, this`remaining, this`allocs, this`partial
      ensures consumed + stream == old(consumed + stream) && |stream| <= |old(stream)|
      ensures old(Delivering()) && stream != [] ==> !stuck && Spends(old(grants), HeaderSize(t))
      ensures old(Delivering()) && stream != [] ==> |old(stream)| == |stream| + HeaderSize(t)
      ensures Accounted() && Skipped(consumed) == old(Skipped(consumed))
      ensures stuck ==> partial != [] && partial[0] == t && !HasHeader(partial)
      ensures !stuck ==> HasHeader(partial) && |partial| == 1 + HeaderSize(t) && partial[0] == t
      ensures !stuck ==> remaining == Payload(partial) && allocs == frames + 1
      ensures !stuck ==> b == if pools.alloc(frames) then Some(Packet(t, partial[1..])) else None
    {
      var header;
      header, stuck := H4Read(HeaderSize(t), HeaderSize(t));
      ParseAppend(pools, old(consumed), header, 0);
      partial := partial + header;
      FrameSkipsNothing(pools, old(consumed), [t], header);
      b := None;
      if !stuck {
        assert partial[1..1 + HeaderSize(t)] == header;
        remaining := PayloadSize(t, header);
        if pools.alloc(allocs) {
          b := Some(Packet(t, header));
        }
        allocs := allocs + 1;
      }
    }
  
    /** One turn for a frame whose header is known: read on, and queue the packet or forget
        the discarded frame when its last byte has been read. */
    method ReceivePayload()
      requires Accounted() && InFrame()
      modifies this
      ensures Valid() && consumed + stream == old(consumed + stream) && |stream| <= |old(stream)|
      ensures irqs == old(irqs) && Skipped(consumed) == old(Skipped(consumed))
      ensures old(Delivering()) && stream != [] ==>
        && (old(remaining) > 0 ==> |stream| < |old(stream)|)
        && Spends(old(grants), |old(stream)| - |stream| + (if old(remaining) == 0 then 1 else 0))
    {
      hide Parse, Payload, FrameSize, Accepted, Room, Skipped;
      ReadPayload();
      ParseFrame(pools, partial, frames);
      if remaining == 0 {
        if buf != None {
          txQueue := txQueue + [buf.value];
          buf := None;
        }
        partial, frames := [], frames + 1;
      }
    }

    /** Discard or store what there is of the payload. */
    method ReadPayload()
      requires Accounted() && InFrame()
      modifies this`stream, this`grants, this`consumed, this`buf, this`partial, this`remaining
      ensures Accounted() && InFrame() && Skipped(consumed) == old(Skipped(consumed))
      ensures consumed + stream == old(consumed + stream) && |stream| <= |old(stream)|
      ensures old(Delivering()) && stream != [] ==>
        && (old(remaining) > 0 ==> |stream| < |old(stream)|)
        && Spends(old(grants), |old(stream)| - |stream| + (if old(remaining) == 0 then 1 else 0))
    {
      hide Parse, Payload, FrameSize, Accepted, Room, Skipped;
      var read;
      if buf == None {
        read := H4Discard(remaining);
      } else {
        var stuck;
        read, stuck := H4Read(remaining, 0);
        buf := Some(Packet(buf.value.kind, buf.value.data + read));
      }
      FrameGrows(pools, old(consumed), txQueue, partial, read, frames);
      PayloadNotSkipped(pools, old(consumed), txQueue, partial, read, frames);
      partial := partial + read;
      remaining := remaining - |read|;
    }

    /** The beginning of a new packet in bt_uart_isr: its type byte, its header, its buffer. */
    method StartPacket() returns (start: Start)
      requires Valid() && remaining == 0
      modifies this
      ensures consumed + stream == old(consumed + stream) && irqs == old(irqs)
      ensures match start
        case Opened => Accounted() && InFrame()
        case Stuck => Agrees()
        case NoByte => Valid() && stream == old(stream)
        case UnknownType => Valid()
      ensures old(Delivering()) ==> stream == [] || (Delivering() && (start == Opened || start == UnknownType))
      ensures old(Delivering()) && start == Opened ==> stream == [] || |grants| > 2 * |stream| + 1
      ensures |stream| <= |old(stream)| && (start == Opened || start == UnknownType ==> |stream| < |old(stream)|)
      ensures Skipped(consumed) == old(Skipped(consumed)) + if start == UnknownType then 1 else 0
    {
      hide Parse, Payload, Skipped;
      ghost var before := consumed;
      var kind, _ := H4Read(1, 0);
      if kind == [] {
        assert consumed == before;
        return NoByte;
      }
      TypeByte(pools, before, txQueue, kind, frames);
      TypeByteSkipped(pools, before, kind);
      if !KnownType(kind[0]) {
        return UnknownType;
      }
      partial := kind;
      var stuck;
      buf, stuck := ReceiveHeader(kind[0]);
      if stuck {
        ParseFrame(pools, partial, frames);
        return Stuck;
      }
      if buf != None && remaining > Room(pools, kind[0]) {
        buf := None;
      }
      return Opened;
    }

    /** One turn of the loop: begin a packet if none is being read, and read on. */
    method ReceiveTurn() returns (start: Start)
      requires Valid()
      modifies this
      ensures consumed + stream == old(consumed + stream) && |stream| <= |old(stream)| && irqs == old(irqs)
      ensures if start == Stuck then Agrees() else Valid()
      ensures Skipped(consumed) == old(Skipped(consumed)) + if start == UnknownType then 1 else 0
      ensures old(Delivering()) ==> stream == [] || (Delivering() && start != Stuck && |stream| < |old(stream)|)
    {
      hide Parse, Payload, FrameSize, Accepted, Room, Skipped;
      start := Opened;
      if remaining == 0 {
        start := StartPacket();
        if start != Opened {
          return;
        }
      } else {
        ParseFrame(pools, partial, frames);
      }
      ReceivePayload();
    }

    /** bt_uart_isr, from its entry to its return, which comes after n turns: when one of them has
        found nothing to receive, or behind a byte that is no packet type, and only then. */
    method BtUartIsr() returns (stuck: bool, ghost n: nat)
      requires Valid()
      modifies this
      ensures Agrees() && (!stuck ==> Valid())
      ensures consumed + stream == old(consumed + stream) && |stream| <= |old(stream)|
      ensures old(Flowing()) ==> stream == [] || (!stuck && Flowing() && |stream| < |old(stream)|)
      ensures n <= |old(irqs)| && irqs == old(irqs)[n..] && forall i :: 0 <= i < n - 1 ==> old(irqs)[i] == RxReady
      ensures Skipped(consumed) <= old(Skipped(consumed)) + 1
      ensures !stuck && n < |old(irqs)| && Skipped(consumed) == old(Skipped(consumed)) ==>
        n > 0 && old(irqs)[n - 1] != RxReady
    {
      hide Parse, Payload, FrameSize, Accepted, Room, Skipped;
      n := 0;
      while irqs != [] && irqs[0] != Quiet
        invariant Valid() && Skipped(consumed) == old(Skipped(consumed))
        invariant n <= |old(irqs)| && irqs == old(irqs)[n..] && forall i :: 0 <= i < n ==> old(irqs)[i] == RxReady
        invariant consumed + stream == old(consumed + stream) && |stream| <= |old(stream)|
        invariant old(Flowing()) ==> stream == [] || Flowing()
        decreases |irqs|
      {
        var irq := irqs[0];
        assert irq in irqs && forall i :: i in irqs[1..] ==> i in irqs;
        irqs, n := irqs[1..], n + 1;
        if irq == OtherReady {
          return false, n;
        }
        var start := ReceiveTurn();
        if start == Stuck || start == UnknownType {
          return start == Stuck, n;
        }
      }
      assert irqs != [] ==> irqs[0] in irqs && forall i :: i in irqs[1..] ==> i in irqs;
      if irqs != [] {
        irqs, n := irqs[1..], n + 1;
      }
      return false, n;
    }

    /** Any number of interrupts.  Whatever the UART delivers when, the packets queued are those
        of the bytes consumed; when the stream has been consumed, those of the stream. */
    method Interrupts(count: nat) returns (stuck: bool)
      requires Valid() && consumed == []
      modifies this
      ensures Agrees() && consumed + stream == old(stream)
      ensures txQueue == Parse(pools, consumed, 0).packets
      ensures old(Flowing()) && count >= |old(stream)| ==>
        stream == [] && txQueue == Parse(pools, old(stream), 0).packets
    {
      stuck := false;
      var i := 0;
      while i < count && !stuck
        invariant Agrees() && (!stuck ==> Valid())
        invariant consumed + stream == old(stream)
        invariant old(Flowing()) ==> stream == [] || (!stuck && Flowing() && |stream| + i <= |old(stream)|)
      {
        ghost var turns;
        stuck, turns := BtUartIsr();
        i := i + 1;
      }
      assert consumed + [] == consumed;
    }
  }
}
