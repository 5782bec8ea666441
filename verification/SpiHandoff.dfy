/** The hci_spi sample: a sending and a receiving thread share one SPI bus and one pair of
    transfer descriptors, handed over with two semaphores.  Every assignment to a descriptor and
    every bus transfer is a step of its own, so the threads interleave between any two. */
module SpiHandoff {
  import opened Bytes
  import opened Options

  const SPI_WRITE: byte := 0x0a
  const SPI_READ: byte := 0x0b
  const READY_NOW: byte := 0x02
  const SANITY_CHECK: byte := 0x02
  const HCI_ACL: byte := 0x02
  const HCI_EVT: byte := 0x04
  const SPI_MAX_MSG_LEN := 255

  /** The memory a descriptor can point at: the header pair of each thread, the two static message
      buffers and the packet being sent. */
  datatype Buffer =
    Null | SenderSlave | SenderMaster | ReceiverSlave | ReceiverMaster | TxMsg | RxMsg | Packet

  datatype Descriptor = Descriptor(buf: Buffer, len: nat)

  datatype Kind = AclIn | Evt | OtherKind

  datatype SenderPc = SIdle | STake | SSetHeader(k: nat) | SPoll | SSetPacket(k: nat) | SWrite | SGive

  datatype ReceiverPc = RSetHeader(k: nat) | RPoll | RGive | RTake | RSetMessage(k: nat) | RTransfer | RHandle

  /** What happened on the bus: a header exchange by either thread, with what the host asks for; one
      of the receiving thread in which no answer arrives, with what its header holds all the same;
      a packet written, successfully or not; a message received; the bus granted to the sender. */
  datatype Transfer =
    | SenderPoll(out: seq<byte>, asked: byte)
    | ReceiverPoll(out: seq<byte>, asked: byte)
    | FailedPoll(left: byte)
    | Write(ok: bool, out: seq<byte>)
    | Receive(out: seq<byte>, data: seq<byte>)
    | Grant

  /** accepted, handled and wire are history. */
  datatype System = System(
    semTx: nat,
    semRx: nat,
    tx: Descriptor,
    rx: Descriptor,
    memory: map<Buffer, seq<byte>>,
    sender: SenderPc,
    receiver: ReceiverPc,
    accepted: seq<seq<byte>>,
    handled: seq<seq<byte>>,
    wire: seq<Transfer>)

  /** Submit: spi_send is called.  The other two are one step of a thread; ok and data are the
      outcome of the transfer, if the step is one. */
  datatype Event =
    | Submit(kind: Kind, payload: seq<byte>)
    | SenderStep(ok: bool, data: seq<byte>)
    | ReceiverStep(ok: bool, data: seq<byte>)

  function SlaveHeader(toRead: int): seq<byte>
    requires 0 <= toRead < 256
  {
    [READY_NOW, SANITY_CHECK, 0, toRead as byte, 0]
  }

  function Fill(n: nat, b: byte): (r: seq<byte>)
    ensures |r| == n && forall i :: 0 <= i < n ==> r[i] == b
  {
    seq(n, _ => b)
  }

  /** The packet with its type byte, or None where spi_send returns -EINVAL. */
  function Framed(kind: Kind, payload: seq<byte>): Option<seq<byte>> {
    if kind == OtherKind || 1 + |payload| > SPI_MAX_MSG_LEN then None
    else Some([if kind == AclIn then HCI_ACL else HCI_EVT] + payload)
  }

  predicate Mapped(memory: map<Buffer, seq<byte>>) {
    forall b: Buffer :: b in memory
  }

  /** The first len bytes of data, over what the buffer held. */
  function Overlay(buffer: seq<byte>, data: seq<byte>, len: nat): (r: seq<byte>)
    ensures |r| == |buffer|
    ensures |buffer| == len ==> Clipped(data, len) <= r
    ensures forall i :: |Clipped(data, len)| <= i < |buffer| ==> r[i] == buffer[i]
  {
    var d := Clipped(data, len);
    if |d| <= |buffer| then d + buffer[|d|..] else d[..|buffer|]
  }

  function Clipped(data: seq<byte>, len: nat): seq<byte> {
    if |data| <= len then data else data[..len]
  }

  /** The receiving thread does not initialise its header buffer. */
  function Initial(garbage: seq<byte>): System {
    System(0, 0, Descriptor(Null, 0), Descriptor(Null, 0),
           map[Null := [], SenderSlave := Fill(5, 0), SenderMaster := Fill(5, 0), ReceiverSlave := SlaveHeader(0),
               ReceiverMaster := garbage, TxMsg := Fill(SPI_MAX_MSG_LEN, 0xff), RxMsg := Fill(SPI_MAX_MSG_LEN, 0),
               Packet := []],
           SIdle, RSetHeader(0), [], [], [])
  }

  /** k_sem_give of a semaphore with limit 1. */
  function Give(count: nat): nat {
    if count < 1 then count + 1 else 1
  }

  predicate Legal(s: System, e: Event) {
    match e
    case Submit(_, _) => s.sender == SIdle
    case SenderStep(_, _) => s.sender != SIdle && (s.sender == STake ==> s.semTx > 0)
    case ReceiverStep(_, _) => s.receiver == RTake ==> s.semRx > 0
  }

  function Start(s: System, kind: Kind, payload: seq<byte>): System {
    match Framed(kind, payload)
    case None => s
    case Some(frame) =>
      s.(memory := s.memory[SenderMaster := Fill(5, 0)][SenderSlave := SlaveHeader(|frame|)][Packet := frame],
         sender := STake,
         accepted := s.accepted + [frame])
  }

  /** A successful transfer stores what the host sent where rx points. */
  function Transceive(s: System, ok: bool, data: seq<byte>): System
    requires Mapped(s.memory)
  {
    if ok then s.(memory := s.memory[s.rx.buf := Overlay(s.memory[s.rx.buf], data, s.rx.len)]) else s
  }

  /** What a transfer clocks out to the host. */
  function Out(s: System): seq<byte>
    requires Mapped(s.memory)
  {
    Clipped(s.memory[s.tx.buf], s.tx.len)
  }

  function Status(s: System, b: Buffer): byte
    requires Mapped(s.memory)
  {
    if s.memory[b] == [] then 0 else s.memory[b][0]
  }

  function Assign(s: System, k: nat, tx: Descriptor, rx: Descriptor): System {
    match k
    case 0 => s.(tx := s.tx.(buf := tx.buf))
    case 1 => s.(tx := s.tx.(len := tx.len))
    case 2 => s.(rx := s.rx.(buf := rx.buf))
    case _ => s.(rx := s.rx.(len := rx.len))
  }

  function StepSender(s: System, ok: bool, data: seq<byte>): System
    requires Mapped(s.memory)
  {
    match s.sender
    case SIdle => s
    case STake => s.(semTx := if s.semTx > 0 then s.semTx - 1 else 0, sender := SSetHeader(0))
    case SSetHeader(k) =>
      Assign(s, k, Descriptor(SenderSlave, 5), Descriptor(SenderMaster, 5))
      .(sender := if k < 3 then SSetHeader(k + 1) else SPoll)
    case SPoll =>
      var t := Transceive(s, ok, data);
      var status := Status(t, SenderMaster);
      t.(wire := if ok then s.wire + [SenderPoll(Out(s), status)] else s.wire,
         sender := if status == SPI_READ then SSetPacket(0) else SPoll)
    case SSetPacket(k) =>
      Assign(s, k, Descriptor(Packet, |s.memory[Packet]|), s.rx)
      .(sender := if k < 1 then SSetPacket(k + 1) else SWrite)
    case SWrite => s.(wire := s.wire + [Write(ok, Out(s))], sender := SGive)
    case SGive => s.(semRx := Give(s.semRx), sender := SIdle)
  }

  function StepReceiver(s: System, ok: bool, data: seq<byte>): System
    requires Mapped(s.memory)
  {
    match s.receiver
    case RSetHeader(k) =>
      Assign(s, k, Descriptor(ReceiverSlave, 5), Descriptor(ReceiverMaster, 5))
      .(receiver := if k < 3 then RSetHeader(k + 1) else RPoll)
    case RPoll =>
      var t := Transceive(s, ok, data);
      var status := Status(t, ReceiverMaster);
      t.(wire := s.wire + [if ok && data != [] then ReceiverPoll(Out(s), status) else FailedPoll(status)],
         receiver := if status == SPI_READ then RGive else if status == SPI_WRITE then RSetMessage(0) else RPoll)
    case RGive => s.(semTx := Give(s.semTx), receiver := RTake, wire := s.wire + [Grant])
    case RTake => s.(semRx := if s.semRx > 0 then s.semRx - 1 else 0, receiver := RSetHeader(0))
    case RSetMessage(k) =>
      Assign(s, k, Descriptor(TxMsg, SPI_MAX_MSG_LEN), Descriptor(RxMsg, SPI_MAX_MSG_LEN))
      .(receiver := if k < 3 then RSetMessage(k + 1) else RTransfer)
    case RTransfer =>
      if ok then Transceive(s, ok, data).(wire := s.wire + [Receive(Out(s), data)], receiver := RHandle)
      else s.(receiver := RSetHeader(0))
    case RHandle => s.(handled := s.handled + [s.memory[RxMsg]], receiver := RSetHeader(0))
  }

  function Step(s: System, e: Event): System
    requires Mapped(s.memory)
  {
    match e
    case Submit(kind, payload) => Start(s, kind, payload)
    case SenderStep(ok, data) => StepSender(s, ok, data)
    case ReceiverStep(ok, data) => StepReceiver(s, ok, data)
  }

  lemma StepKeepsMapped(s: System, e: Event)
    requires Mapped(s.memory)
    ensures Mapped(Step(s, e).memory)
  {
  }

  /** The state after a sequence of events; None when one of them is not possible. */
  function Run(s: System, events: seq<Event>): Option<System>
    requires Mapped(s.memory)
    decreases |events|
  {
    if events == [] then Some(s)
    else if Legal(s, events[0]) then
      StepKeepsMapped(s, events[0]);
      Run(Step(s, events[0]), events[1..])
    else None
  }

  // Ownership

  /** The sender owns the bus from taking sem_spi_tx until it gives sem_spi_rx. */
  function SenderOwns(s: System): nat {
    if s.sender == SIdle || s.sender == STake then 0 else 1
  }

  /** The receiver owns it from taking sem_spi_rx, or the start, until it gives sem_spi_tx. */
  function ReceiverOwns(s: System): nat {
    if s.receiver == RTake then 0 else 1
  }

  predicate Token(s: System) {
    s.semTx + s.semRx + SenderOwns(s) + ReceiverOwns(s) == 1
  }

  /** k of the four assignments that install the two descriptors are done. */
  predicate Assigned(s: System, k: nat, tx: Descriptor, rx: Descriptor) {
    && (k > 0 ==> s.tx.buf == tx.buf)
    && (k > 1 ==> s.tx.len == tx.len)
    && (k > 2 ==> s.rx.buf == rx.buf)
    && (k > 3 ==> s.rx.len == rx.len)
  }

  predicate SenderDescriptors(s: System)
    requires Mapped(s.memory)
  {
    match s.sender
    case SSetHeader(k) => k < 4 && Assigned(s, k, Descriptor(SenderSlave, 5), Descriptor(SenderMaster, 5))
    case SPoll => Assigned(s, 4, Descriptor(SenderSlave, 5), Descriptor(SenderMaster, 5))
    case SSetPacket(k) => k < 2 && (k > 0 ==> s.tx.buf == Packet) && s.rx == Descriptor(SenderMaster, 5)
    case SWrite => s.tx == Descriptor(Packet, |s.memory[Packet]|) && s.rx == Descriptor(SenderMaster, 5)
    case _ => true
  }

  predicate ReceiverDescriptors(s: System) {
    match s.receiver
    case RSetHeader(k) => k < 4 && Assigned(s, k, Descriptor(ReceiverSlave, 5), Descriptor(ReceiverMaster, 5))
    case RPoll => Assigned(s, 4, Descriptor(ReceiverSlave, 5), Descriptor(ReceiverMaster, 5))
    case RSetMessage(k) =>
      k < 4 && Assigned(s, k, Descriptor(TxMsg, SPI_MAX_MSG_LEN), Descriptor(RxMsg, SPI_MAX_MSG_LEN))
    case RTransfer => Assigned(s, 4, Descriptor(TxMsg, SPI_MAX_MSG_LEN), Descriptor(RxMsg, SPI_MAX_MSG_LEN))
    case _ => true
  }

  // What goes over the bus

  /** The packets given to spi_write, whether or not it succeeded. */
  function Attempts(wire: seq<Transfer>): seq<seq<byte>> {
    if wire == [] then []
    else Attempts(wire[..|wire| - 1]) + (var t := wire[|wire| - 1]; if t.Write? then [t.out] else [])
  }

  /** How each of those ended. */
  function Outcomes(wire: seq<Transfer>): seq<bool> {
    if wire == [] then []
    else Outcomes(wire[..|wire| - 1]) + (var t := wire[|wire| - 1]; if t.Write? then [t.ok] else [])
  }

  /** The packets that reached the host. */
  function Delivered(wire: seq<Transfer>): seq<seq<byte>> {
    if wire == [] then []
    else Delivered(wire[..|wire| - 1]) + (var t := wire[|wire| - 1]; if t.Write? && t.ok then [t.out] else [])
  }

  function Receives(wire: seq<Transfer>): seq<seq<byte>> {
    if wire == [] then []
    else Receives(wire[..|wire| - 1]) + (var t := wire[|wire| - 1]; if t.Receive? then [t.data] else [])
  }

  /** The packet accepted and not yet written. */
  function Pending(s: System): seq<seq<byte>>
    requires Mapped(s.memory)
  {
    if s.sender == SIdle || s.sender == SGive then [] else [s.memory[Packet]]
  }

  /** The message received and not yet handled. */
  function Unhandled(s: System): seq<seq<byte>>
    requires Mapped(s.memory)
  {
    if s.receiver == RHandle then [s.memory[RxMsg]] else []
  }

  /** Each message handled is what the host sent. */
  predicate Arrived(messages: seq<seq<byte>>, data: seq<seq<byte>>) {
    && |messages| == |data|
    && forall i :: 0 <= i < |data| ==> Clipped(data[i], SPI_MAX_MSG_LEN) <= messages[i]
  }

  predicate Announced(wire: seq<Transfer>, packet: seq<byte>) {
    && |packet| <= SPI_MAX_MSG_LEN
    && wire != [] && wire[|wire| - 1] == SenderPoll(SlaveHeader(|packet|), SPI_READ)
  }

  /** The last header exchange asked for this, or it failed and an earlier one had. */
  predicate Asked(wire: seq<Transfer>, status: byte) {
    wire != [] && (wire[|wire| - 1] == ReceiverPoll(SlaveHeader(0), status) || wire[|wire| - 1] == FailedPoll(status))
  }

  /** What each transfer clocks out and follows.  A packet is written only right after a header
      exchange that told the host the length of that packet and in which the host asked to read; a
      message is received, with 0xff clocked out meanwhile, and the bus
      granted, only right after a header exchange whose header, fresh or left over, asks for it. */
  predicate Follows(wire: seq<Transfer>, t: Transfer) {
    match t
    case SenderPoll(header, _) => |header| == 5 && header == SlaveHeader(header[3])
    case ReceiverPoll(header, _) => header == SlaveHeader(0)
    case FailedPoll(_) => true
    case Write(_, packet) => Announced(wire, packet)
    case Receive(idle, _) => idle == Fill(SPI_MAX_MSG_LEN, 0xff) && Asked(wire, SPI_WRITE)
    case Grant => Asked(wire, SPI_READ)
  }

  predicate Proper(wire: seq<Transfer>, i: nat)
    requires i < |wire|
  {
    Follows(wire[..i], wire[i])
  }

  predicate Buffers(memory: map<Buffer, seq<byte>>)
    requires Mapped(memory)
  {
    && |memory[SenderMaster]| == 5 && |memory[ReceiverMaster]| == 5 && |memory[RxMsg]| == SPI_MAX_MSG_LEN
    && memory[ReceiverSlave] == SlaveHeader(0) && memory[TxMsg] == Fill(SPI_MAX_MSG_LEN, 0xff)
  }

  predicate SenderState(s: System)
    requires Mapped(s.memory)
  {
    && (s.sender != SIdle ==>
      && |s.memory[Packet]| <= SPI_MAX_MSG_LEN && s.memory[SenderSlave] == SlaveHeader(|s.memory[Packet]|))
    && (s.sender == STake || s.sender.SSetHeader? || s.sender == SPoll ==> Status(s, SenderMaster) != SPI_READ)
    && (s.sender.SSetPacket? || s.sender == SWrite ==> Announced(s.wire, s.memory[Packet]))
  }

  predicate ReceiverState(s: System) {
    && (s.receiver.RSetMessage? || s.receiver == RTransfer ==> Asked(s.wire, SPI_WRITE))
    && (s.receiver == RGive ==> Asked(s.wire, SPI_READ))
  }

  predicate Traffic(s: System)
    requires Mapped(s.memory)
  {
    && Attempts(s.wire) + Pending(s) == s.accepted
    && Arrived(s.handled + Unhandled(s), Receives(s.wire))
    && forall i :: 0 <= i < |s.wire| ==> Proper(s.wire, i)
  }

  predicate Inv(s: System) {
    && Mapped(s.memory)
    && Token(s)
    && SenderDescriptors(s)
    && ReceiverDescriptors(s)
    && Buffers(s.memory)
    && SenderState(s)
    && ReceiverState(s)
    && Traffic(s)
  }

  // Every step keeps the invariant

  lemma InitialInv(garbage: seq<byte>)
    requires |garbage| == 5
    ensures Inv(Initial(garbage))
  {
    forall b: Buffer ensures b in Initial(garbage).memory {
      match b
      case Null | SenderSlave | SenderMaster | ReceiverSlave | ReceiverMaster | TxMsg | RxMsg | Packet =>
    }
  }

  lemma StartKeepsInv(s: System, kind: Kind, payload: seq<byte>)
    requires Inv(s) && s.sender == SIdle
    ensures Inv(Start(s, kind, payload))
  {
    hide Attempts, Receives, Proper, Announced;
    var t := Start(s, kind, payload);
    assert t.wire == s.wire && t.handled + Unhandled(t) == s.handled + Unhandled(s);
  }

  /** One more transfer on the wire. */
  lemma WireAppend(wire: seq<Transfer>, t: Transfer)
    requires forall i :: 0 <= i < |wire| ==> Proper(wire, i)
    requires Follows(wire, t)
    ensures var w := wire + [t];
      && (forall i :: 0 <= i < |w| ==> Proper(w, i))
      && Attempts(w) == Attempts(wire) + (if t.Write? then [t.out] else [])
      && Receives(w) == Receives(wire) + (if t.Receive? then [t.data] else [])
  {
    var w := wire + [t];
    assert w[..|w| - 1] == wire;
    forall i | 0 <= i < |w| ensures Proper(w, i) {
      assert i < |wire| ==> Proper(wire, i);
      assert w[..i] == wire[..i];
    }
  }

  lemma SenderPollKeepsInv(s: System, ok: bool, data: seq<byte>)
    requires Inv(s) && s.sender == SPoll
    ensures Inv(StepSender(s, ok, data))
  {
    hide Attempts, Receives, Proper, Overlay;
    var t := StepSender(s, ok, data);
    assert Out(s) == s.memory[SenderSlave];
    if ok {
      WireAppend(s.wire, t.wire[|s.wire|]);
      assert t.handled + Unhandled(t) == s.handled + Unhandled(s);
    }
  }

  lemma SenderKeepsInv(s: System, ok: bool, data: seq<byte>)
    requires Inv(s) && Legal(s, SenderStep(ok, data))
    ensures Inv(StepSender(s, ok, data))
  {
    hide Attempts, Receives, Proper, Announced;
    var t := StepSender(s, ok, data);
    if s.sender == SPoll {
      SenderPollKeepsInv(s, ok, data);
    } else if s.sender == SWrite {
      assert Out(s) == s.memory[Packet];
      WireAppend(s.wire, Write(ok, Out(s)));
    } else {
      assert t.wire == s.wire && t.memory == s.memory && t.handled == s.handled;
    }
  }

  lemma ReceiverPollKeepsInv(s: System, ok: bool, data: seq<byte>)
    requires Inv(s) && s.receiver == RPoll
    ensures Inv(StepReceiver(s, ok, data))
  {
    hide Attempts, Receives, Proper, Overlay, Announced;
    var t := StepReceiver(s, ok, data);
    assert Out(s) == s.memory[ReceiverSlave];
    WireAppend(s.wire, t.wire[|s.wire|]);
    assert t.handled + Unhandled(t) == s.handled + Unhandled(s);
  }

  lemma TransferKeepsInv(s: System, ok: bool, data: seq<byte>)
    requires Inv(s) && s.receiver == RTransfer
    ensures Inv(StepReceiver(s, ok, data))
  {
    hide Attempts, Receives, Proper, Overlay, Announced;
    var t := StepReceiver(s, ok, data);
    if ok {
      assert Out(s) == s.memory[TxMsg];
      WireAppend(s.wire, t.wire[|s.wire|]);
    }
  }

  lemma ReceiverKeepsInv(s: System, ok: bool, data: seq<byte>)
    requires Inv(s) && Legal(s, ReceiverStep(ok, data))
    ensures Inv(StepReceiver(s, ok, data))
  {
    hide Attempts, Receives, Proper, Announced;
    var t := StepReceiver(s, ok, data);
    if s.receiver == RPoll {
      ReceiverPollKeepsInv(s, ok, data);
    } else if s.receiver == RTransfer {
      TransferKeepsInv(s, ok, data);
    } else if s.receiver == RGive {
      WireAppend(s.wire, Grant);
      assert t.handled + Unhandled(t) == s.handled + Unhandled(s);
    } else {
      assert t.wire == s.wire && t.memory == s.memory;
      assert t.handled + Unhandled(t) == s.handled + Unhandled(s);
    }
  }

  lemma StepKeepsInv(s: System, e: Event)
    requires Inv(s) && Legal(s, e)
    ensures Inv(Step(s, e))
  {
    match e
    case Submit(kind, payload) => StartKeepsInv(s, kind, payload);
    case SenderStep(ok, data) => SenderKeepsInv(s, ok, data);
    case ReceiverStep(ok, data) => ReceiverKeepsInv(s, ok, data);
  }

  lemma {:induction false} RunKeepsInv(s: System, events: seq<Event>)
    requires Inv(s) && Run(s, events).Some?
    ensures Inv(Run(s, events).value)
    decreases |events|
  {
    hide Step, Legal;
    if events != [] {
      StepKeepsInv(s, events[0]);
      RunKeepsInv(Step(s, events[0]), events[1..]);
    }
  }

  // What the invariant means, for every run from the start

  ghost predicate Reachable(s: System) {
    exists garbage: seq<byte>, events: seq<Event> :: From(garbage, events, s)
  }

  predicate From(garbage: seq<byte>, events: seq<Event>, s: System) {
    |garbage| == 5 && Mapped(Initial(garbage).memory) && Run(Initial(garbage), events) == Some(s)
  }

  lemma ReachableInv(s: System)
    requires Reachable(s)
    ensures Inv(s)
  {
    var garbage: seq<byte>, events: seq<Event> :| From(garbage, events, s);
    InitialInv(garbage);
    RunKeepsInv(Initial(garbage), events);
  }

  /** A thread about to use the bus owns it alone, both descriptors then point at its own buffers,
      and no semaphore is given while it is full. */
  lemma BusOwnership(s: System)
    requires Reachable(s)
    ensures s.semTx + s.semRx + SenderOwns(s) + ReceiverOwns(s) == 1 && Mapped(s.memory)
    ensures s.sender == SPoll ==> s.tx == Descriptor(SenderSlave, 5) && s.rx == Descriptor(SenderMaster, 5)
    ensures s.sender == SWrite ==> s.tx == Descriptor(Packet, |s.memory[Packet]|) && s.rx == Descriptor(SenderMaster, 5)
    ensures s.receiver == RPoll ==> s.tx == Descriptor(ReceiverSlave, 5) && s.rx == Descriptor(ReceiverMaster, 5)
    ensures s.receiver == RTransfer ==> s.tx == Descriptor(TxMsg, 255) && s.rx == Descriptor(RxMsg, 255)
    ensures s.receiver == RGive ==> s.semTx == 0
    ensures s.sender == SGive ==> s.semRx == 0
  {
    ReachableInv(s);
  }

  /** Of the packets, those marked. */
  function Select(packets: seq<seq<byte>>, marks: seq<bool>): seq<seq<byte>>
    requires |packets| == |marks|
  {
    if packets == [] then []
    else
      var m := |packets| - 1;
      Select(packets[..m], marks[..m]) + if marks[m] then [packets[m]] else []
  }

  lemma {:induction false} SelectAll(packets: seq<seq<byte>>, marks: seq<bool>)
    requires |packets| == |marks|
    ensures |Select(packets, marks)| <= |packets|
    ensures Select(packets, marks) == packets <==> forall i :: 0 <= i < |marks| ==> marks[i]
  {
    if packets != [] {
      var m := |packets| - 1;
      SelectAll(packets[..m], marks[..m]);
      assert packets == packets[..m] + [packets[m]];
      if Select(packets, marks) == packets {
        assert marks[m];
        assert Select(packets[..m], marks[..m]) == packets[..m];
        assert forall i :: 0 <= i < m ==> marks[..m][i] == marks[i];
      }
    }
  }

  lemma {:induction false} DeliveredIsSelect(wire: seq<Transfer>)
    ensures |Outcomes(wire)| == |Attempts(wire)|
    ensures Delivered(wire) == Select(Attempts(wire), Outcomes(wire))
  {
    if wire != [] {
      var m := |wire| - 1;
      DeliveredIsSelect(wire[..m]);
      var packets, marks := Attempts(wire[..m]), Outcomes(wire[..m]);
      if wire[m].Write? {
        assert (packets + [wire[m].out])[..|packets|] == packets && (marks + [wire[m].ok])[..|marks|] == marks;
      } else {
        assert packets + [] == packets && marks + [] == marks;
      }
    }
  }

  /** Every packet accepted is given to spi_write once, in order, the last one perhaps still pending;
      each right after the host was told its length.  Those whose one write failed are lost, and
      exactly those: everything written has arrived if and only if no write failed.  The messages
      handled are those the host sent. */
  lemma TrafficIntact(s: System)
    requires Reachable(s)
    ensures Attempts(s.wire) == s.accepted
      || (s.accepted != [] && Attempts(s.wire) == s.accepted[..|s.accepted| - 1])
    ensures s.sender == SIdle ==> Attempts(s.wire) == s.accepted
    ensures |Outcomes(s.wire)| == |Attempts(s.wire)|
    ensures Delivered(s.wire) == Select(Attempts(s.wire), Outcomes(s.wire))
    ensures Delivered(s.wire) == Attempts(s.wire)
      <==> forall i :: 0 <= i < |Outcomes(s.wire)| ==> Outcomes(s.wire)[i]
    ensures forall i :: 0 <= i < |s.wire| ==> Proper(s.wire, i)
    ensures s.receiver != RHandle ==> Arrived(s.handled, Receives(s.wire))
  {
    ReachableInv(s);
    hide Attempts, Outcomes, Delivered, Select, Receives, Proper, Arrived;
    if Pending(s) == [] {
      assert Attempts(s.wire) + [] == Attempts(s.wire);
    } else {
      assert s.accepted[..|s.accepted| - 1] == Attempts(s.wire);
    }
    assert s.receiver != RHandle ==> s.handled + [] == s.handled;
    DeliveredIsSelect(s.wire);
    SelectAll(Attempts(s.wire), Outcomes(s.wire));
  }

  /** In literal codes: a packet of at most 255 bytes is written right after a header exchange in
      which the host was told its length and asked to read (0x0b), and only then. */
  lemma WrittenOnRequest(s: System, i: nat)
    requires Reachable(s) && i < |s.wire| && s.wire[i].Write?
    ensures var n := |s.wire[i].out|;
      n <= 255 && i > 0 && s.wire[i - 1] == SenderPoll([2, 2, 0, n, 0], 0x0b)
  {
    ReachableInv(s);
    assert Proper(s.wire, i);
  }

  /** The sender's polling ends exactly at an exchange that brings a request to read, and after it
      only the packet can follow. */
  lemma SenderPollEnds(s: System, ok: bool, data: seq<byte>)
    requires Reachable(s) && s.sender == SPoll
    ensures Mapped(s.memory)
    ensures var t := Step(s, SenderStep(ok, data));
      && (t.sender == SSetPacket(0) <==> ok && data != [] && data[0] == 0x0b)
      && (t.sender == SPoll <==> !(ok && data != [] && data[0] == 0x0b))
  {
    ReachableInv(s);
    var buffer := s.memory[SenderMaster];
    if ok && data != [] {
      assert Clipped(data, 5)[0] == data[0];
      assert Overlay(buffer, data, 5)[0] == data[0];
    } else if ok {
      Unanswered(buffer);
    }
  }

  /** And the receiving thread's ends exactly at one that brings a request to read or write, or, when
      it brings nothing, as FailedPollActs says. */
  lemma ReceiverPollEnds(s: System, data: seq<byte>)
    requires Reachable(s) && s.receiver == RPoll && data != []
    ensures Mapped(s.memory)
    ensures Step(s, ReceiverStep(true, data)).receiver
         == if data[0] == 0x0b then RGive else if data[0] == 0x0a then RSetMessage(0) else RPoll
  {
    ReachableInv(s);
    assert Clipped(data, 5)[0] == data[0];
    assert Overlay(s.memory[ReceiverMaster], data, 5)[0] == data[0];
  }

  // What the receiving thread's header holds

  /** The last answer of the host on the wire, or, before any, what was in the header from the start. */
  function HeaderAt(garbage: seq<byte>, wire: seq<Transfer>): byte
    requires |garbage| == 5
  {
    if wire == [] then garbage[0]
    else
      var t := wire[|wire| - 1];
      if t.ReceiverPoll? then t.asked else HeaderAt(garbage, wire[..|wire| - 1])
  }

  /** The header, and what every unanswered exchange found in it, is the last answer. */
  predicate HeaderKept(garbage: seq<byte>, s: System)
    requires |garbage| == 5 && Mapped(s.memory)
  {
    && Status(s, ReceiverMaster) == HeaderAt(garbage, s.wire)
    && forall i :: 0 <= i < |s.wire| && s.wire[i].FailedPoll? ==> s.wire[i].left == HeaderAt(garbage, s.wire[..i])
  }

  lemma HeaderAppend(garbage: seq<byte>, wire: seq<Transfer>, t: Transfer)
    requires |garbage| == 5
    requires forall i :: 0 <= i < |wire| && wire[i].FailedPoll? ==> wire[i].left == HeaderAt(garbage, wire[..i])
    requires t.FailedPoll? ==> t.left == HeaderAt(garbage, wire)
    ensures var w := wire + [t];
      && HeaderAt(garbage, w) == (if t.ReceiverPoll? then t.asked else HeaderAt(garbage, wire))
      && forall i :: 0 <= i < |w| && w[i].FailedPoll? ==> w[i].left == HeaderAt(garbage, w[..i])
  {
    var w := wire + [t];
    assert w[..|wire|] == wire;
    forall i | 0 <= i < |w| && w[i].FailedPoll?
      ensures w[i].left == HeaderAt(garbage, w[..i])
    {
      assert w[..i] == wire[..i];
    }
  }

  lemma StepKeepsHeader(garbage: seq<byte>, s: System, e: Event)
    requires |garbage| == 5 && Inv(s) && Legal(s, e) && HeaderKept(garbage, s)
    ensures Mapped(Step(s, e).memory) && HeaderKept(garbage, Step(s, e))
  {
    hide Token, Traffic, SenderState, ReceiverState, HeaderAt, Overlay, Attempts, Receives, Proper;
    StepKeepsMapped(s, e);
    var t := Step(s, e);
    if e.ReceiverStep? && s.receiver == RPoll {
      PollKeepsHeader(garbage, s, e.ok, e.data);
    } else {
      OnlyPollsWriteHeader(s, e);
      if t.wire != s.wire {
        assert t.wire == s.wire + [t.wire[|s.wire|]];
        HeaderAppend(garbage, s.wire, t.wire[|s.wire|]);
      }
    }
  }

  lemma OnlyPollsWriteHeader(s: System, e: Event)
    requires Inv(s) && Legal(s, e) && !(e.ReceiverStep? && s.receiver == RPoll)
    ensures Mapped(Step(s, e).memory) && Step(s, e).memory[ReceiverMaster] == s.memory[ReceiverMaster]
    ensures var w := Step(s, e).wire;
      w == s.wire || (w == s.wire + [w[|w| - 1]] && !w[|w| - 1].ReceiverPoll? && !w[|w| - 1].FailedPoll?)
  {
    hide Traffic, SenderState, ReceiverState, Overlay;
    StepKeepsMapped(s, e);
  }

  lemma PollKeepsHeader(garbage: seq<byte>, s: System, ok: bool, data: seq<byte>)
    requires |garbage| == 5 && Inv(s) && HeaderKept(garbage, s) && s.receiver == RPoll
    ensures Mapped(StepReceiver(s, ok, data).memory) && HeaderKept(garbage, StepReceiver(s, ok, data))
  {
    hide Token, Traffic, SenderState, ReceiverState, HeaderAt, Overlay;
    var t := StepReceiver(s, ok, data);
    Unanswered(s.memory[ReceiverMaster]);
    HeaderAppend(garbage, s.wire, t.wire[|s.wire|]);
  }

  lemma Unanswered(buffer: seq<byte>)
    ensures Overlay(buffer, [], 5) == buffer
  {
  }

  lemma {:induction false} RunKeepsHeader(garbage: seq<byte>, s: System, events: seq<Event>)
    requires |garbage| == 5 && Inv(s) && HeaderKept(garbage, s) && Run(s, events).Some?
    ensures Mapped(Run(s, events).value.memory) && HeaderKept(garbage, Run(s, events).value)
    decreases |events|
  {
    hide HeaderKept, Token, Traffic, SenderState, ReceiverState, SenderDescriptors, ReceiverDescriptors, Step, Legal;
    if events != [] {
      StepKeepsInv(s, events[0]);
      StepKeepsHeader(garbage, s, events[0]);
      RunKeepsHeader(garbage, Step(s, events[0]), events[1..]);
    }
  }

  /** In every run the header holds the last answer of the host, or what the stack held before. */
  lemma HeaderHoldsLastAnswer(garbage: seq<byte>, events: seq<Event>, s: System)
    requires From(garbage, events, s)
    ensures Inv(s) && HeaderKept(garbage, s)
  {
    InitialInv(garbage);
    RunKeepsInv(Initial(garbage), events);
    RunKeepsHeader(garbage, Initial(garbage), events);
  }

  /** A message is received, or the bus granted, only while the last answer of the host, if there is
      any, asks for it: at once when that answer came in the exchange before, and otherwise because
      an exchange without an answer found it still there. */
  lemma ActsOnHeader(garbage: seq<byte>, events: seq<Event>, s: System, i: nat)
    requires From(garbage, events, s) && i < |s.wire| && (s.wire[i].Receive? || s.wire[i].Grant?)
    ensures var asked := if s.wire[i].Receive? then SPI_WRITE else SPI_READ;
      && HeaderAt(garbage, s.wire[..i]) == asked
      && i > 0 && (s.wire[i - 1] == ReceiverPoll(SlaveHeader(0), asked)
                   || (s.wire[i - 1] == FailedPoll(asked) && HeaderAt(garbage, s.wire[..i - 1]) == asked))
  {
    HeaderHoldsLastAnswer(garbage, events, s);
    assert Proper(s.wire, i);
    assert s.wire[..i][..i - 1] == s.wire[..i - 1];
  }

  /** A header exchange without an answer ends the polling exactly when the last answer, or without
      one what the stack held before, asks for something; nothing clears it. */
  lemma FailedPollActs(garbage: seq<byte>, events: seq<Event>, s: System, ok: bool, data: seq<byte>)
    requires From(garbage, events, s) && s.receiver == RPoll && (!ok || data == [])
    ensures Mapped(s.memory)
    ensures var t := Step(s, ReceiverStep(ok, data));
      var left := HeaderAt(garbage, s.wire);
      && (t.receiver == RPoll <==> left != SPI_READ && left != SPI_WRITE)
      && (t.receiver == RGive <==> left == SPI_READ) && (t.receiver == RSetMessage(0) <==> left == SPI_WRITE)
  {
    HeaderHoldsLastAnswer(garbage, events, s);
    Unanswered(s.memory[ReceiverMaster]);
  }
}
