/** One-shot parsing of an H:4 byte stream from the host, as the reassembly in the interrupt
    handler must amount to: section 2 of Vol 4 Part A of the Bluetooth Core Specification,
    with the packet formats of sections 5.4.1 and 5.4.2 of Vol 4 Part E. */
module H4Parser {
  import opened Bytes

  const H4_CMD: byte := 1
  const H4_ACL: byte := 2

  datatype Packet = Packet(kind: byte, data: seq<byte>)

  /** What the stream does not determine: whether the k-th frame gets a buffer, and how much
      payload fits behind the header in a buffer of either pool. */
  datatype Pools = Pools(alloc: nat -> bool, cmdRoom: nat, aclRoom: nat)

  predicate KnownType(t: byte) {
    t == H4_CMD || t == H4_ACL
  }

  function HeaderSize(t: byte): nat
    requires KnownType(t)
  {
    if t == H4_CMD then 3 else 4
  }

  /** A command header ends in a one-byte length, an ACL header in a little-endian two-byte one. */
  function PayloadSize(t: byte, header: seq<byte>): nat
    requires KnownType(t) && |header| == HeaderSize(t)
  {
    if t == H4_CMD then header[2] else header[2] as int + 256 * (header[3] as int)
  }

  function Room(pools: Pools, t: byte): nat {
    if t == H4_CMD then pools.cmdRoom else pools.aclRoom
  }

  predicate HasHeader(s: seq<byte>) {
    s != [] && KnownType(s[0]) && |s| >= 1 + HeaderSize(s[0])
  }

  function Payload(s: seq<byte>): nat
    requires HasHeader(s)
  {
    PayloadSize(s[0], s[1..1 + HeaderSize(s[0])])
  }

  function FrameSize(s: seq<byte>): nat
    requires HasHeader(s)
  {
    1 + HeaderSize(s[0]) + Payload(s)
  }

  predicate Accepted(pools: Pools, s: seq<byte>, k: nat)
    requires HasHeader(s)
  {
    pools.alloc(k) && Payload(s) <= Room(pools, s[0])
  }

  datatype Parsed = Parsed(packets: seq<Packet>, frames: nat, rest: seq<byte>)

  /** The frames of s, the first of them being frame number k: the packets of the accepted
      ones, how many there were, and the incomplete frame at the end.  A byte that is no
      known packet type is skipped on its own. */
  function Parse(pools: Pools, s: seq<byte>, k: nat): Parsed
    decreases |s|
  {
    if s == [] then Parsed([], k, [])
    else if !KnownType(s[0]) then Parse(pools, s[1..], k)
    else if !HasHeader(s) || |s| < FrameSize(s) then Parsed([], k, s)
    else
      var n := FrameSize(s);
      var more := Parse(pools, s[n..], k + 1);
      var packets := if Accepted(pools, s, k) then [Packet(s[0], s[1..n])] else [];
      Parsed(packets + more.packets, more.frames, more.rest)
  }

  /** The outcome m, found after some packets were already there. */
  function After(packets: seq<Packet>, m: Parsed): Parsed {
    Parsed(packets + m.packets, m.frames, m.rest)
  }

  lemma HeaderPrefix(s: seq<byte>, t: seq<byte>)
    requires HasHeader(s)
    ensures HasHeader(s + t) && Payload(s + t) == Payload(s) && FrameSize(s + t) == FrameSize(s)
  {
    assert (s + t)[1..1 + HeaderSize(s[0])] == s[1..1 + HeaderSize(s[0])];
  }

  /** Parsing can stop anywhere and resume from the incomplete frame left over. */
  lemma {:induction false} ParseAppend(pools: Pools, s: seq<byte>, t: seq<byte>, k: nat)
    ensures var a := Parse(pools, s, k);
      Parse(pools, s + t, k) == After(a.packets, Parse(pools, a.rest + t, a.frames))
    decreases |s|
  {
    if s == [] {
      assert s + t == t;
    } else if !KnownType(s[0]) {
      assert (s + t)[1..] == s[1..] + t;
      ParseAppend(pools, s[1..], t, k);
    } else if HasHeader(s) && |s| >= FrameSize(s) {
      var n := FrameSize(s);
      HeaderPrefix(s, t);
      assert (s + t)[n..] == s[n..] + t;
      assert (s + t)[1..n] == s[1..n];
      ParseAppend(pools, s[n..], t, k + 1);
    }
  }

  function Concat(chunks: seq<seq<byte>>): seq<byte> {
    if chunks == [] then [] else Concat(chunks[..|chunks| - 1]) + chunks[|chunks| - 1]
  }

  /** The incremental parser: feed one chunk after the other, keeping only the incomplete frame. */
  function Feed(pools: Pools, chunks: seq<seq<byte>>): Parsed {
    if chunks == [] then Parsed([], 0, [])
    else
      var before := Feed(pools, chunks[..|chunks| - 1]);
      After(before.packets, Parse(pools, before.rest + chunks[|chunks| - 1], before.frames))
  }

  /** Chunking independence: however the stream is cut, the result is that of the whole. */
  lemma {:induction false} ChunkingIndependence(pools: Pools, chunks: seq<seq<byte>>)
    ensures Feed(pools, chunks) == Parse(pools, Concat(chunks), 0)
  {
    if chunks != [] {
      var n := |chunks| - 1;
      ChunkingIndependence(pools, chunks[..n]);
      ParseAppend(pools, Concat(chunks[..n]), chunks[n], 0);
    }
  }

  /** A frame as the host sends it. */
  datatype Frame = Frame(kind: byte, header: seq<byte>, payload: seq<byte>)
  {
    predicate WellFormed() {
      KnownType(kind) && |header| == HeaderSize(kind) && |payload| == PayloadSize(kind, header)
    }

    function Bytes(): seq<byte> {
      [kind] + header + payload
    }
  }

  function Stream(frames: seq<Frame>): seq<byte> {
    if frames == [] then [] else frames[0].Bytes() + Stream(frames[1..])
  }

  function Delivered(pools: Pools, frames: seq<Frame>, k: nat): seq<Packet> {
    if frames == [] then []
    else
      (if pools.alloc(k) && |frames[0].payload| <= Room(pools, frames[0].kind)
       then [Packet(frames[0].kind, frames[0].header + frames[0].payload)] else [])
      + Delivered(pools, frames[1..], k + 1)
  }

  /** One frame is consumed whole, whether or not its packet is kept, and the parser goes on
      right behind it: a refused frame costs only itself. */
  lemma FrameConsumed(pools: Pools, f: Frame, s: seq<byte>, k: nat)
    requires f.WellFormed()
    ensures Parse(pools, f.Bytes() + s, k) == After(Delivered(pools, [f], k), Parse(pools, s, k + 1))
  {
    var all := f.Bytes() + s;
    assert all[0] == f.kind && all[1..1 + |f.header|] == f.header;
    var n := |f.Bytes()|;
    assert FrameSize(all) == n;
    assert f.Bytes() == [f.kind] + (f.header + f.payload);
    assert all[..n] == f.Bytes() && all[n..] == s;
    assert all[1..n] == all[..n][1..] == f.header + f.payload;
    assert Delivered(pools, [f][1..], k + 1) == [];
  }

  lemma ParseNothing(pools: Pools, k: nat)
    ensures Parse(pools, [], k) == Parsed([], k, [])
  {
  }

  /** Round trip: a stream of frames yields exactly the accepted ones, in order, unchanged. */
  lemma {:induction false} StreamRoundTrip(pools: Pools, frames: seq<Frame>, k: nat)
    requires forall i :: 0 <= i < |frames| ==> frames[i].WellFormed()
    ensures Parse(pools, Stream(frames), k) == Parsed(Delivered(pools, frames, k), k + |frames|, [])
  {
    hide Parse, PayloadSize, HeaderSize, KnownType, Delivered;
    DeliveredFirst(pools, frames, k);
    if frames == [] {
      ParseNothing(pools, k);
    } else {
      FrameConsumed(pools, frames[0], Stream(frames[1..]), k);
      StreamRoundTrip(pools, frames[1..], k + 1);
    }
  }

  lemma DeliveredFirst(pools: Pools, frames: seq<Frame>, k: nat)
    ensures Delivered(pools, frames, k)
         == if frames == [] then [] else Delivered(pools, frames[..1], k) + Delivered(pools, frames[1..], k + 1)
    ensures frames != [] ==> frames[..1] == [frames[0]]
  {
    if frames != [] {
      assert frames[..1][1..] == [];
    }
  }

  // The byte codes of the two kinds of frame

  /** An ACL frame: type 2, handle, little-endian length, payload.  It is taken whole, and kept
      exactly when it gets a buffer and fits. */
  lemma AclFrame(pools: Pools, h0: byte, h1: byte, lo: byte, hi: byte, payload: seq<byte>, s: seq<byte>, k: nat)
    requires |payload| == lo as int + 256 * hi as int
    ensures var kept := pools.alloc(k) && |payload| <= pools.aclRoom;
      Parse(pools, [2, h0, h1, lo, hi] + payload + s, k)
      == After(if kept then [Packet(2, [h0, h1, lo, hi] + payload)] else [], Parse(pools, s, k + 1))
  {
    var f := Frame(2, [h0, h1, lo, hi], payload);
    FrameConsumed(pools, f, s, k);
    assert f.Bytes() == [2, h0, h1, lo, hi] + payload;
    assert [f][1..] == [];
  }

  /** A command frame: type 1, opcode, length, parameters. */
  lemma CmdFrame(pools: Pools, op0: byte, op1: byte, len: byte, payload: seq<byte>, s: seq<byte>, k: nat)
    requires |payload| == len
    ensures var kept := pools.alloc(k) && |payload| <= pools.cmdRoom;
      Parse(pools, [1, op0, op1, len] + payload + s, k)
      == After(if kept then [Packet(1, [op0, op1, len] + payload)] else [], Parse(pools, s, k + 1))
  {
    var f := Frame(1, [op0, op1, len], payload);
    FrameConsumed(pools, f, s, k);
    assert f.Bytes() == [1, op0, op1, len] + payload;
    assert [f][1..] == [];
  }

  /** Any other byte where a frame should begin is skipped alone. */
  lemma OtherByte(pools: Pools, t: byte, s: seq<byte>, k: nat)
    requires t != 1 && t != 2
    ensures Parse(pools, [t] + s, k) == Parse(pools, s, k)
  {
    assert ([t] + s)[1..] == s;
  }

  /** A frame that is not complete yields nothing yet and is all left over. */
  lemma Incomplete(pools: Pools, frame: seq<byte>, n: nat, k: nat)
    requires 0 < n < |frame|
    requires || (|frame| >= 5 && frame[0] == 2 && |frame| == 5 + frame[3] as int + 256 * frame[4] as int)
             || (|frame| >= 4 && frame[0] == 1 && |frame| == 4 + frame[3] as int)
    ensures Parse(pools, frame[..n], k) == Parsed([], k, frame[..n])
  {
    var s := frame[..n];
    assert s[0] == frame[0];
    if HasHeader(s) {
      assert s[1..1 + HeaderSize(s[0])] == frame[1..1 + HeaderSize(s[0])];
    }
    ParseFrame(pools, s, k);
  }

  /** What the bytes of one frame, or its beginning, parse to. */
  lemma ParseFrame(pools: Pools, s: seq<byte>, k: nat)
    requires s != [] && KnownType(s[0])
    requires HasHeader(s) ==> |s| <= FrameSize(s)
    ensures Parse(pools, s, k) ==
      if HasHeader(s) && |s| == FrameSize(s)
      then Parsed(if Accepted(pools, s, k) then [Packet(s[0], s[1..])] else [], k + 1, [])
      else Parsed([], k, s)
  {
    if HasHeader(s) && |s| == FrameSize(s) {
      assert s[|s|..] == [] && s[1..|s|] == s[1..];
    }
  }

  /** Further bytes of the frame being read. */
  lemma FrameGrows(pools: Pools, consumed: seq<byte>, packets: seq<Packet>, s: seq<byte>, t: seq<byte>, k: nat)
    requires Parse(pools, consumed, 0) == After(packets, Parse(pools, s, k))
    requires HasHeader(s) && |s| + |t| <= FrameSize(s)
    ensures Parse(pools, consumed + t, 0) == After(packets, Parse(pools, s + t, k))
    ensures HasHeader(s + t) && FrameSize(s + t) == FrameSize(s) && Accepted(pools, s + t, k) == Accepted(pools, s, k)
    ensures (s + t)[1..] == s[1..] + t
  {
    hide Parse, Payload, FrameSize, Room;
    HeaderPrefix(s, t);
    if t == [] {
      assert consumed + t == consumed && s + t == s;
    } else {
      ParseFrame(pools, s, k);
      ParseAppend(pools, consumed, t, 0);
    }
  }

  /** The byte between two frames: it opens a frame or is skipped. */
  lemma TypeByte(pools: Pools, consumed: seq<byte>, packets: seq<Packet>, t: seq<byte>, k: nat)
    requires Parse(pools, consumed, 0) == Parsed(packets, k, []) && |t| == 1
    ensures Parse(pools, consumed + t, 0) == Parsed(packets, k, if KnownType(t[0]) then t else [])
  {
    ParseAppend(pools, consumed, t, 0);
    assert [] + t == t;
    if KnownType(t[0]) {
      ParseFrame(pools, t, k);
    } else {
      assert Parse(pools, t, k) == Parse(pools, t[1..], k);
    }
  }

  // Bytes no frame begins with

  /** How many bytes of s are skipped. */
  function Skipped(s: seq<byte>): nat
    decreases |s|
  {
    if s == [] then 0
    else if !KnownType(s[0]) then 1 + Skipped(s[1..])
    else if !HasHeader(s) || |s| < FrameSize(s) then 0
    else Skipped(s[FrameSize(s)..])
  }

  lemma {:induction false} SkippedAppend(pools: Pools, s: seq<byte>, t: seq<byte>, k: nat)
    ensures Skipped(s + t) == Skipped(s) + Skipped(Parse(pools, s, k).rest + t)
    decreases |s|
  {
    if s == [] {
      assert s + t == t;
    } else if !KnownType(s[0]) {
      assert (s + t)[1..] == s[1..] + t;
      SkippedAppend(pools, s[1..], t, k);
    } else if HasHeader(s) && |s| >= FrameSize(s) {
      var n := FrameSize(s);
      HeaderPrefix(s, t);
      assert (s + t)[n..] == s[n..] + t;
      SkippedAppend(pools, s[n..], t, k + 1);
    }
  }

  /** Further bytes of the frame being read are not skipped. */
  lemma FrameSkipsNothing(pools: Pools, consumed: seq<byte>, s: seq<byte>, t: seq<byte>)
    requires Parse(pools, consumed, 0).rest == s
    requires s != [] && KnownType(s[0]) && (HasHeader(s + t) ==> |s| + |t| <= FrameSize(s + t))
    ensures Skipped(consumed + t) == Skipped(consumed)
  {
    SkippedAppend(pools, consumed, t, 0);
  }

  lemma PayloadNotSkipped(
      pools: Pools, consumed: seq<byte>, packets: seq<Packet>, s: seq<byte>, t: seq<byte>, k: nat)
    requires Parse(pools, consumed, 0) == After(packets, Parse(pools, s, k))
    requires HasHeader(s) && |s| + |t| <= FrameSize(s)
    ensures Skipped(consumed + t) == Skipped(consumed)
  {
    if t == [] {
      assert consumed + t == consumed;
    } else {
      ParseFrame(pools, s, k);
      HeaderPrefix(s, t);
      FrameSkipsNothing(pools, consumed, s, t);
    }
  }

  lemma TypeByteSkipped(pools: Pools, consumed: seq<byte>, t: seq<byte>)
    requires Parse(pools, consumed, 0).rest == [] && |t| == 1
    ensures Skipped(consumed + t) == Skipped(consumed) + if KnownType(t[0]) then 0 else 1
  {
    SkippedAppend(pools, consumed, t, 0);
    assert [] + t == t;
    assert t[1..] == [];
  }
}
