/** The serial side of the wpan_serial sample as written: static decoder variables, the receive
    queue, and the encoder that writes through a moving pointer. */
module SlipSerial {
  import opened Bytes
  import opened SlipCodec
  import opened Options

  class SlipReceiver {
    const capacity: nat
    var slipState: SlipState
    var pktCurr: Option<seq<byte>>
    var rxQueue: seq<seq<byte>>

    function Now(): Rx
      reads this
    {
      Rx(slipState, pktCurr)
    }

    constructor (capacity: nat)
      ensures this.capacity == capacity && Now() == Rx(Ok, None) && rxQueue == []
    {
      this.capacity := capacity;
      slipState, pktCurr, rxQueue := Ok, None, [];
    }

    /** slip_process_byte: 1 at the end of a packet, full or not. */
    method ProcessByte(byte0: byte, alloc: bool) returns (end: bool)
      modifies this`slipState, this`pktCurr
      ensures end == (old(slipState) == Ok && byte0 == END)
      ensures end ==> Now() == old(Now())
      ensures !end ==> Step(capacity, old(Now()), Arrival(byte0, alloc)) == (Now(), [])
    {
      var c := byte0;
      match slipState {
        case Garbage =>
          if c == END {
            slipState := Ok;
          }
          return false;
        case Esc =>
          if c == ESC_END {
            c := END;
          } else if c == ESC_ESC {
            c := ESC;
          } else {
            slipState := Garbage;
            return false;
          }
          slipState := Ok;
        case Ok =>
          if c == ESC {
            slipState := Esc;
            return false;
          } else if c == END {
            return true;
          }
      }
      if pktCurr == None {
        if !alloc {
          return false;
        }
        pktCurr := Some([]);
      }
      if capacity <= |pktCurr.value| {
        pktCurr := None;
        return false;
      }
      pktCurr := Some(pktCurr.value + [c]);
      return false;
    }

    /** The reading loop of interrupt_handler, over everything the UART delivers. */
    method Interrupt(input: seq<Arrival>)
      modifies this`slipState, this`pktCurr, this`rxQueue
      ensures var r := Run(capacity, old(Now()), input); Now() == r.rx && rxQueue == old(rxQueue) + r.packets
    {
      hide Run;
      assert input[..0] == [];
      NothingKept(capacity);
      for i := 0 to |input|
        invariant var r := Run(capacity, old(Now()), input[..i]); Now() == r.rx && rxQueue == old(rxQueue) + r.packets
      {
        RunNext(capacity, old(Now()), input, i);
        var end := ProcessByte(input[i].c, input[i].alloc);
        if end && pktCurr != None {
          rxQueue := rxQueue + [pktCurr.value];
          pktCurr := None;
        }
      }
      assert input[..|input|] == input;
    }
  }

  lemma RunNext(cap: nat, rx: Rx, input: seq<Arrival>, i: nat)
    requires i < |input|
    ensures var before := Run(cap, rx, input[..i]);
      var (after, delivered) := Step(cap, before.rx, input[i]);
      Run(cap, rx, input[..i + 1]) == Received(after, before.packets + delivered)
  {
    hide Step;
    assert input[..i + 1][..i] == input[..i];
  }

  lemma EncodeNothing()
    ensures EncodeBytes([]) == []
  {
  }

  lemma EncodeNext(p: seq<byte>, i: nat)
    requires i < |p|
    ensures EncodeBytes(p[..i + 1]) == EncodeBytes(p[..i]) + EncodeByte(p[i])
  {
    assert p[..i + 1][..i] == p[..i];
  }

  /** slip_buffer, into a buffer of the size the sample reserves. */
  method SlipBuffer(sbuf: array<byte>, buf: seq<byte>) returns (len: nat)
    requires sbuf.Length >= 1 + 2 * |buf|
    modifies sbuf
    ensures len <= 1 + 2 * |buf|
    ensures sbuf[..len] == Encode(buf) && sbuf[len..] == old(sbuf[len..])
  {
    hide EncodeBytes;
    var p := 0;
    EncodeNothing();
    assert buf[..0] == [];
    for i := 0 to |buf|
      invariant i <= p <= 2 * i
      invariant sbuf[..p] == EncodeBytes(buf[..i])
      invariant forall k :: p <= k < sbuf.Length ==> sbuf[k] == old(sbuf[k])
    {
      EncodeNext(buf, i);
      ghost var done, q := sbuf[..p], p;
      var b := buf[i];
      if b == END {
        sbuf[p], sbuf[p + 1] := ESC, ESC_END;
        p := p + 2;
      } else if b == ESC {
        sbuf[p], sbuf[p + 1] := ESC, ESC_ESC;
        p := p + 2;
      } else {
        sbuf[p] := b;
        p := p + 1;
      }
      assert sbuf[..q] == done;
      assert sbuf[..p] == sbuf[..q] + EncodeByte(b);
    }
    assert buf[..|buf|] == buf;
    sbuf[p] := END;
    len := p + 1;
    assert sbuf[..p] == EncodeBytes(buf);
    assert sbuf[..len] == sbuf[..p] + [END];
  }
}
