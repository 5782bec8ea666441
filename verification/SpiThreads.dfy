/** spi_send and bt_tx_thread of the hci_spi sample as they are written, each with the other thread
    running in between.  A list of turns, one for each statement the thread comes to, says what
    happens around it: what the others try to do first, and how the transfer ends, if it is one.
    All of it may be anything.  A thread that waits or polls stops when the list has ended.

    SenderRun and ReceiverRun are the same runs as folds over the turns, in the steps of module
    SpiHandoff: the two programs with their loops are proved equal to them.

    Every state these programs go through is reachable in module SpiHandoff, so what is proved
    there about reachable states holds of them. */
module SpiThreads {
  import opened Bytes
  import opened Options
  import opened SpiHandoff

  datatype Turn = Turn(others: seq<Event>, ok: bool, data: seq<byte>)

  /** -EINVAL, not yet returned, 0. */
  datatype Sending = Refused | Waiting | Sent

  /** The turn of statement j; past the end of the list nothing happens and every transfer fails. */
  function At(turns: seq<Turn>, j: nat): Turn {
    if j < |turns| then turns[j] else Turn([], false, [])
  }

  /** A header exchange in which the host asks to read. */
  predicate Requests(t: Turn) {
    t.ok && t.data != [] && t.data[0] == 0x0b
  }

  /** A turn of spi_send leads on, except where it waits for the semaphore or the host has not asked
      to read, or where spi_send has returned. */
  lemma SenderMoves(s: System, turns: seq<Turn>, n: nat)
    requires Mapped(s.memory)
    ensures var t := After(SenderRun(s, turns, n), At(turns, n).others);
      var u := SenderRun(s, turns, n + 1);
      u.sender == t.sender ==>
        || (u == t && (t.sender == SIdle || (t.sender == STake && t.semTx == 0)))
        || (t.sender == SPoll && !([0x0b] <= u.memory[SenderMaster]))
  {
    hide After, Overlay, Out, StepReceiver;
  }

  /** A turn of bt_tx_thread leads on, except where it waits for the semaphore or its header holds no
      request. */
  lemma ReceiverMoves(s: System, turns: seq<Turn>, n: nat)
    requires Mapped(s.memory)
    ensures var t := After(ReceiverRun(s, turns, n), At(turns, n).others);
      var u := ReceiverRun(s, turns, n + 1);
      u.receiver == t.receiver ==>
        || (u == t && t.receiver == RTake && t.semRx == 0)
        || (t.receiver == RPoll && !([0x0a] <= u.memory[ReceiverMaster]) && !([0x0b] <= u.memory[ReceiverMaster]))
  {
    hide After, Overlay, Out, StepSender;
  }

  predicate ReceiversOnly(turns: seq<Turn>) {
    forall i :: 0 <= i < |turns| ==> Receivers(turns[i].others)
  }

  predicate SendersOnly(turns: seq<Turn>) {
    forall i :: 0 <= i < |turns| ==> Senders(turns[i].others)
  }

  /** e, if it is possible when its turn comes. */
  function Happens(s: System, e: Event): (t: System)
    requires Mapped(s.memory)
    ensures Mapped(t.memory)
  {
    StepKeepsMapped(s, e);
    if Legal(s, e) then Step(s, e) else s
  }

  function After(s: System, events: seq<Event>): (t: System)
    requires Mapped(s.memory)
    ensures Mapped(t.memory)
  {
    if events == [] then s else Happens(After(s, events[..|events| - 1]), events[|events| - 1])
  }

  /** The state after n turns of spi_send; a turn in which it has to wait is one of the others alone. */
  function SenderRun(s: System, turns: seq<Turn>, n: nat): (t: System)
    requires Mapped(s.memory)
    ensures Mapped(t.memory)
  {
    if n == 0 then s
    else
      var turn := At(turns, n - 1);
      Happens(After(SenderRun(s, turns, n - 1), turn.others), SenderStep(turn.ok, turn.data))
  }

  /** The same for bt_tx_thread. */
  function ReceiverRun(s: System, turns: seq<Turn>, n: nat): (t: System)
    requires Mapped(s.memory)
    ensures Mapped(t.memory)
  {
    if n == 0 then s
    else
      var turn := At(turns, n - 1);
      Happens(After(ReceiverRun(s, turns, n - 1), turn.others), ReceiverStep(turn.ok, turn.data))
  }

  predicate Receivers(events: seq<Event>) {
    forall i :: 0 <= i < |events| ==> events[i].ReceiverStep?
  }

  predicate Senders(events: seq<Event>) {
    forall i :: 0 <= i < |events| ==> !events[i].ReceiverStep?
  }

  /** What the receiving thread may change while spi_send is under way. */
  predicate SenderUndisturbed(s: System, t: System) {
    && t.sender == s.sender && t.accepted == s.accepted
    && (SenderOwns(s) == 1 ==> t == s)
  }

  /** What spi_send may change while the receiving thread is under way. */
  predicate ReceiverUndisturbed(s: System, t: System)
    requires Mapped(s.memory) && Mapped(t.memory)
  {
    && t.receiver == s.receiver && t.handled == s.handled
    && (ReceiverOwns(s) == 1 ==>
      && t.tx == s.tx && t.rx == s.rx && t.wire == s.wire
      && t.memory[ReceiverMaster] == s.memory[ReceiverMaster] && t.memory[RxMsg] == s.memory[RxMsg])
  }

  lemma OthersStep(s: System, e: Event)
    requires Inv(s) && Legal(s, e)
    ensures e.ReceiverStep? ==> SenderUndisturbed(s, Step(s, e))
    ensures Mapped(Step(s, e).memory) && (!e.ReceiverStep? ==> ReceiverUndisturbed(s, Step(s, e)))
  {
    hide Traffic, SenderState, ReceiverState, Overlay;
    StepKeepsMapped(s, e);
  }

  lemma Logs(garbage: seq<byte>, log: seq<Event>, s: System, e: Event)
    requires From(garbage, log, s) && Inv(s) && Legal(s, e)
    ensures From(garbage, log + [e], Step(s, e)) && Inv(Step(s, e))
  {
    StepKeepsInv(s, e);
    hide Step, Legal, Token, Traffic, SenderState, ReceiverState, SenderDescriptors, ReceiverDescriptors;
    RunNext(Initial(garbage), log, e);
  }

  lemma {:induction false} RunNext(s: System, events: seq<Event>, e: Event)
    requires Mapped(s.memory) && Run(s, events).Some? && Mapped(Run(s, events).value.memory)
    requires Legal(Run(s, events).value, e)
    ensures Run(s, events + [e]) == Some(Step(Run(s, events).value, e))
    decreases |events|
  {
    hide Step, Legal;
    if events == [] {
      StepKeepsMapped(s, e);
      assert [] + [e] == [e] && [e][1..] == [];
      assert Run(Step(s, e), []) == Some(Step(s, e));
    } else {
      StepKeepsMapped(s, events[0]);
      RunNext(Step(s, events[0]), events[1..], e);
      assert (events + [e])[1..] == events[1..] + [e];
    }
  }

  class SpiBus {
    var semTx: nat
    var semRx: nat
    var tx: Descriptor
    var rx: Descriptor
    var memory: map<Buffer, seq<byte>>
    // how far the threads are, and history
    var sender: SenderPc
    var receiver: ReceiverPc
    var accepted: seq<seq<byte>>
    var handled: seq<seq<byte>>
    var wire: seq<Transfer>
    ghost const garbage: seq<byte>
    ghost var log: seq<Event>

    function State(): System
      reads this
    {
      System(semTx, semRx, tx, rx, memory, sender, receiver, accepted, handled, wire)
    }

    ghost predicate Valid()
      reads this
    {
      From(garbage, log, State()) && Inv(State())
    }

    constructor (garbage: seq<byte>)
      requires |garbage| == 5
      ensures Valid() && State() == Initial(garbage)
    {
      semTx, semRx := 0, 0;
      tx, rx := Descriptor(Null, 0), Descriptor(Null, 0);
      memory := Initial(garbage).memory;
      sender, receiver := SIdle, RSetHeader(0);
      accepted, handled, wire := [], [], [];
      this.garbage, log := garbage, [];
      new;
      InitialInv(garbage);
    }

    /** Other threads do these steps, as far as they are possible when their turn comes. */
    method Others(events: seq<Event>)
      requires Valid()
      modifies this
      ensures Valid() && State() == After(old(State()), events)
      ensures Receivers(events) ==> SenderUndisturbed(old(State()), State())
      ensures Senders(events) ==> ReceiverUndisturbed(old(State()), State())
    {
      hide Inv, From, Happens;
      InvMeansMapped(State());
      for i := 0 to |events|
        invariant Valid() && Mapped(memory) && State() == After(old(State()), events[..i])
        invariant Receivers(events) ==> SenderUndisturbed(old(State()), State())
        invariant Senders(events) ==> ReceiverUndisturbed(old(State()), State())
      {
        Other(events[i]);
        assert events[..i + 1][..i] == events[..i];
      }
      assert events[..|events|] == events;
    }

    /** While spi_send owns the bus the receiving thread cannot do anything. */
    method ReceiverWaits(events: seq<Event>)
      requires Valid() && Receivers(events) && SenderOwns(State()) == 1
      modifies this
      ensures Valid() && State() == old(State()) == After(old(State()), events)
    {
      hide Inv, From, After;
      InvMeansMapped(State());
      Others(events);
    }

    method Other(e: Event)
      requires Valid()
      modifies this
      ensures Valid() && Mapped(memory)
      ensures Mapped(old(memory)) && State() == Happens(old(State()), e)
      ensures e.ReceiverStep? ==> SenderUndisturbed(old(State()), State())
      ensures !e.ReceiverStep? ==> ReceiverUndisturbed(old(State()), State())
    {
      hide Inv, From, Step, Legal;
      InvMeansMapped(State());
      if Legal(State(), e) {
        OthersStep(State(), e);
        Logs(garbage, log, State(), e);
        Become(Step(State(), e), log + [e]);
        InvMeansMapped(State());
      }
    }

    method Become(t: System, ghost newLog: seq<Event>)
      modifies this
      ensures State() == t && log == newLog
    {
      semTx, semRx, tx, rx, memory := t.semTx, t.semRx, t.tx, t.rx, t.memory;
      sender, receiver, accepted, handled, wire := t.sender, t.receiver, t.accepted, t.handled, t.wire;
      log := newLog;
    }

    /** One of the four assignments that install a pair of descriptors. */
    method Assign(k: nat, t: Descriptor, r: Descriptor)
      requires k < 4
      modifies this`tx, this`rx
      ensures State() == SpiHandoff.Assign(old(State()), k, t, r)
    {
      match k
      case 0 => tx := tx.(buf := t.buf);
      case 1 => tx := tx.(len := t.len);
      case 2 => rx := rx.(buf := r.buf);
      case _ => rx := rx.(len := r.len);
    }

    // spi_send

    /** spi_send: a packet of unknown type or too long is refused, any other is written after its
        length has been announced, and the bus is given back.  Its result is the same whether or not
        the write succeeded.  It stops before that only when its turns have ended. */
    method SpiSend(kind: Kind, payload: seq<byte>, turns: seq<Turn>)
      returns (r: Sending, ghost n: nat)
      requires Valid() && sender == SIdle && ReceiversOnly(turns)
      modifies this
      ensures Valid()
      ensures r == Refused <==> kind == OtherKind || |payload| >= 255
      ensures r == Refused ==> State() == old(State())
      ensures r != Refused ==> State() == SenderRun(Start(old(State()), kind, payload), turns, n)
      ensures r != Refused ==> accepted == old(accepted) + [[if kind == AclIn then 2 else 4] + payload]
      ensures r == Waiting ==> n >= |turns|
      ensures r == Sent ==>
        && sender == SIdle && semRx == 1 && Attempts(wire) == accepted && |wire| >= 2 && n >= 2
        && wire[|wire| - 2..] == [SenderPoll([2, 2, 0, 1 + |payload|, 0], 0x0b),
                                  Write(At(turns, n - 2).ok, accepted[|accepted| - 1])]
    {
      hide Inv, From, Step, Legal, Attempts, Happens, After, Start, SenderRun;
      n := 0;
      var frame: seq<byte>;
      match kind {
        case AclIn => frame := [HCI_ACL] + payload;
        case Evt => frame := [HCI_EVT] + payload;
        case OtherKind => return Refused, 0;
      }
      if |frame| > SPI_MAX_MSG_LEN {
        return Refused, 0;
      }
      Accept(kind, payload, frame);
      ghost var start := State();
      var taken, j := AwaitBus(turns);
      if !taken {
        return Waiting, j;
      }
      InstallHeaders(start, turns, j);
      var ready;
      ready, j := PollHost(start, turns, j + 4);
      if !ready {
        return Waiting, j;
      }
      PacketAnnounced(State());
      WritePacket(start, turns, j);
      return Sent, j + 4;
    }

    method Accept(kind: Kind, payload: seq<byte>, frame: seq<byte>)
      requires Valid() && sender == SIdle && Framed(kind, payload) == Some(frame)
      modifies this
      ensures Valid() && Mapped(memory) && State() == Start(old(State()), kind, payload)
      ensures sender == STake && accepted == old(accepted) + [frame]
    {
      hide Inv, From, Legal;
      assert Legal(State(), Submit(kind, payload)) by {
        SubmitIsLegal(State(), kind, payload);
      }
      Logs(garbage, log, State(), Submit(kind, payload));
      memory := memory[SenderMaster := Fill(5, 0)][SenderSlave := SlaveHeader(|frame|)][Packet := frame];
      sender, accepted, log := STake, accepted + [frame], log + [Submit(kind, payload)];
      InvMeansMapped(State());
    }

    /** k_sem_take, until it gets through. */
    method AwaitBus(turns: seq<Turn>) returns (taken: bool, j: nat)
      requires Valid() && sender == STake && ReceiversOnly(turns)
      modifies this
      ensures Valid() && State() == SenderRun(old(State()), turns, j) && accepted == old(accepted)
      ensures if taken then sender == SSetHeader(0) else sender == STake && j >= |turns|
    {
      hide Inv, From, Step, Legal, Happens, After;
      InvMeansMapped(State());
      taken, j := false, 0;
      while !taken && j < |turns|
        invariant Valid() && State() == SenderRun(old(State()), turns, j)
        invariant sender == (if taken then SSetHeader(0) else STake) && accepted == old(accepted)
        decreases |turns| - j
      {
        Others(turns[j].others);
        taken := TakeTx(turns[j].ok, turns[j].data);
        j := j + 1;
      }
    }

    /** k_sem_take: it gets through if the semaphore is up. */
    method TakeTx(ok: bool, data: seq<byte>) returns (taken: bool)
      requires Valid() && sender == STake
      modifies this
      ensures Valid() && State() == Happens(old(State()), SenderStep(ok, data))
      ensures taken <==> old(semTx) > 0
      ensures sender == (if taken then SSetHeader(0) else STake) && accepted == old(accepted)
    {
      hide Inv, From, SpiHandoff.Transceive, Out, Status, Start, StepReceiver;
      InvMeansMapped(State());
      taken := semTx > 0;
      if taken {
        Logs(garbage, log, State(), SenderStep(ok, data));
        semTx, sender, log := semTx - 1, SSetHeader(0), log + [SenderStep(ok, data)];
      }
    }

    /** The assignments to the two descriptors. */
    method InstallHeaders(ghost start: System, turns: seq<Turn>, j: nat)
      requires Valid() && sender == SSetHeader(0) && ReceiversOnly(turns)
      requires Mapped(start.memory) && State() == SenderRun(start, turns, j)
      modifies this
      ensures Valid() && sender == SPoll && accepted == old(accepted)
      ensures State() == SenderRun(start, turns, j + 4)
    {
      hide Inv, From, Step, Legal, Happens, After;
      for k := 0 to 4
        invariant Valid() && accepted == old(accepted) && State() == SenderRun(start, turns, j + k)
        invariant sender == if k < 4 then SSetHeader(k) else SPoll
      {
        var turn := At(turns, j + k);
        ReceiverWaits(turn.others);
        AssignHeader(k, turn.ok, turn.data);
      }
    }

    method AssignHeader(k: nat, ok: bool, data: seq<byte>)
      requires Valid() && k < 4 && sender == SSetHeader(k)
      modifies this
      ensures Valid() && State() == Happens(old(State()), SenderStep(ok, data))
      ensures accepted == old(accepted) && sender == if k < 3 then SSetHeader(k + 1) else SPoll
    {
      hide Inv, From, SpiHandoff.Transceive, Out, Status, Start, StepReceiver;
      Logs(garbage, log, State(), SenderStep(ok, data));
      InvMeansMapped(State());
      Assign(k, Descriptor(SenderSlave, 5), Descriptor(SenderMaster, 5));
      sender, log := if k < 3 then SSetHeader(k + 1) else SPoll, log + [SenderStep(ok, data)];
    }

    /** The loop of header exchanges, until the host asks to read. */
    method PollHost(ghost start: System, turns: seq<Turn>, from: nat) returns (ready: bool, j: nat)
      requires Valid() && sender == SPoll && ReceiversOnly(turns)
      requires Mapped(start.memory) && State() == SenderRun(start, turns, from)
      modifies this
      ensures Valid() && accepted == old(accepted) && State() == SenderRun(start, turns, j)
      ensures sender == if ready then SSetPacket(0) else SPoll
      ensures if ready then from < j <= |turns| && Requests(turns[j - 1]) else j >= |turns|
      ensures forall i :: from <= i < |turns| && (ready ==> i < j - 1) ==> !Requests(turns[i])
    {
      hide Inv, From, Step, Legal, Happens, After;
      j, ready := from, false;
      while !ready && j < |turns|
        invariant Valid() && accepted == old(accepted) && from <= j && State() == SenderRun(start, turns, j)
        invariant sender == if ready then SSetPacket(0) else SPoll
        invariant ready ==> from < j <= |turns| && Requests(turns[j - 1])
        invariant forall i :: from <= i < j && i < |turns| && (ready ==> i < j - 1) ==> !Requests(turns[i])
        decreases |turns| - j
      {
        ReceiverWaits(turns[j].others);
        ready := ExchangeHeader(turns[j].ok, turns[j].data);
        j := j + 1;
      }
    }

    method ExchangeHeader(ok: bool, data: seq<byte>) returns (ready: bool)
      requires Valid() && sender == SPoll
      modifies this
      ensures Valid() && accepted == old(accepted) && State() == Happens(old(State()), SenderStep(ok, data))
      ensures sender == if ready then SSetPacket(0) else SPoll
      ensures ready <==> ok && data != [] && data[0] == 0x0b
    {
      hide Inv, From, Overlay, Clipped, Start, StepReceiver;
      assert Reachable(State());
      SenderPollEnds(State(), ok, data);
      assert Legal(State(), SenderStep(ok, data));
      Logs(garbage, log, State(), SenderStep(ok, data));
      InvMeansMapped(State());
      if ok {
        var header := Clipped(memory[tx.buf], tx.len);
        memory := memory[rx.buf := Overlay(memory[rx.buf], data, rx.len)];
        wire := wire + [SenderPoll(header, if memory[SenderMaster] == [] then 0 else memory[SenderMaster][0])];
      }
      ready := memory[SenderMaster] != [] && memory[SenderMaster][0] == SPI_READ;
      sender := if ready then SSetPacket(0) else SPoll;
      log := log + [SenderStep(ok, data)];
    }

    /** Point tx at the packet, write it, give the bus back. */
    method WritePacket(ghost start: System, turns: seq<Turn>, j: nat)
      requires Valid() && sender == SSetPacket(0) && ReceiversOnly(turns)
      requires Mapped(start.memory) && State() == SenderRun(start, turns, j)
      modifies this
      ensures Valid() && State() == SenderRun(start, turns, j + 4)
      ensures sender == SIdle && semRx == 1 && accepted == old(accepted) && Attempts(wire) == accepted
      ensures accepted != [] && wire == old(wire) + [Write(At(turns, j + 2).ok, accepted[|accepted| - 1])]
    {
      hide Inv, From, Step, Legal, Attempts, Happens, After;
      PointAtPacket(start, turns, j);
      var turn := At(turns, j + 2);
      ReceiverWaits(turn.others);
      SpiWrite(turn.ok, turn.data);
      assert State() == SenderRun(start, turns, j + 3);
      turn := At(turns, j + 3);
      ReceiverWaits(turn.others);
      GiveRx(turn.ok, turn.data);
      AllWritten(State());
    }

    method PointAtPacket(ghost start: System, turns: seq<Turn>, j: nat)
      requires Valid() && sender == SSetPacket(0) && ReceiversOnly(turns)
      requires Mapped(start.memory) && State() == SenderRun(start, turns, j)
      modifies this
      ensures Valid() && sender == SWrite && accepted == old(accepted) && wire == old(wire)
      ensures State() == SenderRun(start, turns, j + 2)
    {
      hide Inv, From, Step, Legal, Happens, After;
      for k := 0 to 2
        invariant Valid() && accepted == old(accepted) && wire == old(wire)
        invariant State() == SenderRun(start, turns, j + k)
        invariant sender == if k < 2 then SSetPacket(k) else SWrite
      {
        var turn := At(turns, j + k);
        ReceiverWaits(turn.others);
        AssignPacket(k, turn.ok, turn.data);
      }
    }

    method AssignPacket(k: nat, ok: bool, data: seq<byte>)
      requires Valid() && k < 2 && sender == SSetPacket(k)
      modifies this
      ensures Valid() && State() == Happens(old(State()), SenderStep(ok, data))
      ensures accepted == old(accepted) && wire == old(wire)
      ensures sender == if k < 1 then SSetPacket(k + 1) else SWrite
    {
      hide Inv, From, SpiHandoff.Transceive, Out, Status, Start, StepReceiver;
      Logs(garbage, log, State(), SenderStep(ok, data));
      InvMeansMapped(State());
      Assign(k, Descriptor(Packet, |memory[Packet]|), rx);
      sender, log := if k < 1 then SSetPacket(k + 1) else SWrite, log + [SenderStep(ok, data)];
    }

    method SpiWrite(ok: bool, data: seq<byte>)
      requires Valid() && sender == SWrite
      modifies this
      ensures Valid() && State() == Happens(old(State()), SenderStep(ok, data))
      ensures sender == SGive && accepted == old(accepted)
      ensures accepted != [] && wire == old(wire) + [Write(ok, accepted[|accepted| - 1])]
    {
      hide Inv, From, SpiHandoff.Transceive, Status, Start, StepReceiver;
      PacketIsLast(State());
      Logs(garbage, log, State(), SenderStep(ok, data));
      wire := wire + [Write(ok, Clipped(memory[tx.buf], tx.len))];
      sender, log := SGive, log + [SenderStep(ok, data)];
    }

    method GiveRx(ok: bool, data: seq<byte>)
      requires Valid() && sender == SGive
      modifies this
      ensures Valid() && State() == Happens(old(State()), SenderStep(ok, data))
      ensures sender == SIdle && semRx == 1 && accepted == old(accepted) && wire == old(wire)
    {
      hide Inv, From, SpiHandoff.Transceive, Out, Status, Start, StepReceiver;
      GiveFits(State());
      InvMeansMapped(State());
      Logs(garbage, log, State(), SenderStep(ok, data));
      semRx, sender, log := Give(semRx), SIdle, log + [SenderStep(ok, data)];
    }

    // bt_tx_thread

    /** bt_tx_thread, until its turns run out; it always stops in a reachable state, and whatever it
        has handled is what the host sent. */
    method BtTxThread(turns: seq<Turn>) returns (waiting: bool, ghost n: nat)
      requires Valid() && receiver == RSetHeader(0)
      requires SendersOnly(turns)
      modifies this
      ensures Valid() && State() == ReceiverRun(old(State()), turns, n) && n >= |turns|
      ensures !waiting ==> receiver == RSetHeader(0)
      ensures old(handled) <= handled && Arrived(handled, Receives(wire))
    {
      hide Inv, From, Step, Legal, Arrived, Receives, Happens, After;
      InvMeansMapped(State());
      ghost var start := State();
      AllHandled(State());
      var j := 0;
      waiting, n := false, 0;
      while j < |turns|
        invariant Valid() && receiver == RSetHeader(0) && State() == ReceiverRun(start, turns, j)
        invariant old(handled) <= handled && Arrived(handled, Receives(wire))
        decreases |turns| - j
      {
        InstallReceiver(start, turns, j);
        var status;
        status, j := PollForRequest(start, turns, j + 4);
        AllHandled(State());
        if status != SPI_READ && status != SPI_WRITE {
          return true, j;
        }
        if status == SPI_READ {
          var taken;
          taken, j := LendBus(start, turns, j);
          AllHandled(State());
          if !taken {
            return true, j;
          }
        } else {
          j := ReceiveMessage(start, turns, j);
          AllHandled(State());
        }
      }
      n := j;
    }

    method InstallReceiver(ghost start: System, turns: seq<Turn>, j: nat)
      requires Valid() && receiver == RSetHeader(0) && SendersOnly(turns)
      requires Mapped(start.memory) && State() == ReceiverRun(start, turns, j)
      modifies this
      ensures Valid() && receiver == RPoll && handled == old(handled)
      ensures State() == ReceiverRun(start, turns, j + 4)
    {
      hide Inv, From, Step, Legal, Happens, After;
      for k := 0 to 4
        invariant Valid() && handled == old(handled) && State() == ReceiverRun(start, turns, j + k)
        invariant receiver == if k < 4 then RSetHeader(k) else RPoll
      {
        var turn := At(turns, j + k);
        Others(turn.others);
        AssignReceiver(k, turn.ok, turn.data);
      }
    }

    method AssignReceiver(k: nat, ok: bool, data: seq<byte>)
      requires Valid() && k < 4 && receiver == RSetHeader(k)
      modifies this
      ensures Valid() && State() == Happens(old(State()), ReceiverStep(ok, data))
      ensures handled == old(handled) && receiver == if k < 3 then RSetHeader(k + 1) else RPoll
    {
      hide Inv, From, SpiHandoff.Transceive, Out, Status, Start, StepSender;
      Logs(garbage, log, State(), ReceiverStep(ok, data));
      InvMeansMapped(State());
      Assign(k, Descriptor(ReceiverSlave, 5), Descriptor(ReceiverMaster, 5));
      receiver, log := if k < 3 then RSetHeader(k + 1) else RPoll, log + [ReceiverStep(ok, data)];
    }

    /** The loop of header exchanges, until the host asks for something. */
    method PollForRequest(ghost start: System, turns: seq<Turn>, from: nat) returns (status: byte, j: nat)
      requires Valid() && receiver == RPoll && SendersOnly(turns)
      requires Mapped(start.memory) && State() == ReceiverRun(start, turns, from)
      modifies this
      ensures Valid() && State() == ReceiverRun(start, turns, j)
      ensures handled == old(handled) && from < j && receiver == Requested(status)
      ensures status != 0x0a && status != 0x0b ==> j >= |turns|
    {
      hide Inv, From, Step, Legal, Happens, After;
      j := from + 1;
      Others(At(turns, from).others);
      status := ExchangeStatus(At(turns, from).ok, At(turns, from).data);
      while status != SPI_READ && status != SPI_WRITE && j < |turns|
        invariant Valid() && State() == ReceiverRun(start, turns, j)
        invariant handled == old(handled) && from < j && receiver == Requested(status)
        decreases |turns| - j
      {
        Others(turns[j].others);
        status := ExchangeStatus(turns[j].ok, turns[j].data);
        j := j + 1;
      }
    }

    method ExchangeStatus(ok: bool, data: seq<byte>) returns (status: byte)
      requires Valid() && receiver == RPoll
      modifies this
      ensures Valid() && State() == Happens(old(State()), ReceiverStep(ok, data))
      ensures handled == old(handled) && receiver == Requested(status)
    {
      hide Inv, From, Overlay, Clipped, Start, StepSender;
      assert Legal(State(), ReceiverStep(ok, data));
      Logs(garbage, log, State(), ReceiverStep(ok, data));
      InvMeansMapped(State());
      var header := Clipped(memory[tx.buf], tx.len);
      if ok {
        memory := memory[rx.buf := Overlay(memory[rx.buf], data, rx.len)];
      }
      status := if memory[ReceiverMaster] == [] then 0 else memory[ReceiverMaster][0];
      wire := wire + [if ok && data != [] then ReceiverPoll(header, status) else FailedPoll(status)];
      receiver, log := Requested(status), log + [ReceiverStep(ok, data)];
    }

    /** The bus is lent to spi_send and taken back. */
    method LendBus(ghost start: System, turns: seq<Turn>, from: nat) returns (taken: bool, j: nat)
      requires Valid() && receiver == RGive && SendersOnly(turns)
      requires Mapped(start.memory) && State() == ReceiverRun(start, turns, from)
      modifies this
      ensures Valid() && State() == ReceiverRun(start, turns, j) && handled == old(handled) && from < j
      ensures receiver == if taken then RSetHeader(0) else RTake
      ensures !taken ==> j >= |turns|
    {
      hide Inv, From, Step, Legal, Happens, After;
      var turn := At(turns, from);
      Others(turn.others);
      GrantBus(turn.ok, turn.data);
      taken, j := false, from + 1;
      while !taken && j < |turns|
        invariant Valid() && State() == ReceiverRun(start, turns, j) && handled == old(handled) && from < j
        invariant receiver == if taken then RSetHeader(0) else RTake
        decreases |turns| - j
      {
        Others(turns[j].others);
        taken := TakeBus(turns[j].ok, turns[j].data);
        j := j + 1;
      }
    }

    method GrantBus(ok: bool, data: seq<byte>)
      requires Valid() && receiver == RGive
      modifies this
      ensures Valid() && State() == Happens(old(State()), ReceiverStep(ok, data))
      ensures receiver == RTake && handled == old(handled)
    {
      hide Inv, From, Start, StepSender;
      InvMeansMapped(State());
      Logs(garbage, log, State(), ReceiverStep(ok, data));
      semTx, receiver, wire, log := Give(semTx), RTake, wire + [Grant], log + [ReceiverStep(ok, data)];
    }

    method TakeBus(ok: bool, data: seq<byte>) returns (taken: bool)
      requires Valid() && receiver == RTake
      modifies this
      ensures Valid() && State() == Happens(old(State()), ReceiverStep(ok, data))
      ensures taken <==> old(semRx) > 0
      ensures receiver == (if taken then RSetHeader(0) else RTake) && handled == old(handled)
    {
      hide Inv, From, Start, StepSender;
      InvMeansMapped(State());
      taken := semRx > 0;
      if taken {
        Logs(garbage, log, State(), ReceiverStep(ok, data));
        semRx, receiver, log := semRx - 1, RSetHeader(0), log + [ReceiverStep(ok, data)];
      }
    }

    /** Point tx and rx at the message buffers, receive a message, pass it on unless that failed. */
    method ReceiveMessage(ghost start: System, turns: seq<Turn>, from: nat) returns (j: nat)
      requires Valid() && receiver == RSetMessage(0) && SendersOnly(turns)
      requires Mapped(start.memory) && State() == ReceiverRun(start, turns, from)
      modifies this
      ensures Valid() && receiver == RSetHeader(0) && State() == ReceiverRun(start, turns, j)
      ensures j == from + if At(turns, from + 4).ok then 6 else 5
      ensures if At(turns, from + 4).ok then |handled| == |old(handled)| + 1 && old(handled) <= handled
              else handled == old(handled)
    {
      hide Inv, From, Step, Legal, Happens, After;
      PointAtMessages(start, turns, from);
      var turn := At(turns, from + 4);
      Others(turn.others);
      TransferMessage(turn.ok, turn.data);
      j := from + 5;
      if turn.ok {
        var last := At(turns, j);
        Others(last.others);
        InvMeansMapped(State());
        HandleMessage(last.ok, last.data);
        j := j + 1;
      }
    }

    method PointAtMessages(ghost start: System, turns: seq<Turn>, from: nat)
      requires Valid() && receiver == RSetMessage(0) && SendersOnly(turns)
      requires Mapped(start.memory) && State() == ReceiverRun(start, turns, from)
      modifies this
      ensures Valid() && receiver == RTransfer && handled == old(handled)
      ensures State() == ReceiverRun(start, turns, from + 4)
    {
      hide Inv, From, Step, Legal, Happens, After;
      for k := 0 to 4
        invariant Valid() && handled == old(handled) && State() == ReceiverRun(start, turns, from + k)
        invariant receiver == if k < 4 then RSetMessage(k) else RTransfer
      {
        var turn := At(turns, from + k);
        Others(turn.others);
        AssignMessage(k, turn.ok, turn.data);
      }
    }

    method AssignMessage(k: nat, ok: bool, data: seq<byte>)
      requires Valid() && k < 4 && receiver == RSetMessage(k)
      modifies this
      ensures Valid() && State() == Happens(old(State()), ReceiverStep(ok, data))
      ensures handled == old(handled) && receiver == if k < 3 then RSetMessage(k + 1) else RTransfer
    {
      hide Inv, From, SpiHandoff.Transceive, Out, Status, Start, StepSender;
      Logs(garbage, log, State(), ReceiverStep(ok, data));
      InvMeansMapped(State());
      Assign(k, Descriptor(TxMsg, SPI_MAX_MSG_LEN), Descriptor(RxMsg, SPI_MAX_MSG_LEN));
      receiver, log := if k < 3 then RSetMessage(k + 1) else RTransfer, log + [ReceiverStep(ok, data)];
    }

    method HandleMessage(ok: bool, data: seq<byte>)
      requires Valid() && Mapped(memory) && receiver == RHandle
      modifies this
      ensures Valid() && State() == Happens(old(State()), ReceiverStep(ok, data))
      ensures receiver == RSetHeader(0) && handled == old(handled) + [memory[RxMsg]]
    {
      hide Inv, From, SpiHandoff.Transceive, Out, Status, Start, StepSender;
      Logs(garbage, log, State(), ReceiverStep(ok, data));
      handled, receiver, log := handled + [memory[RxMsg]], RSetHeader(0), log + [ReceiverStep(ok, data)];
    }

    method TransferMessage(ok: bool, data: seq<byte>)
      requires Valid() && receiver == RTransfer
      modifies this
      ensures Valid() && Mapped(memory) && State() == Happens(old(State()), ReceiverStep(ok, data))
      ensures handled == old(handled) && receiver == if ok then RHandle else RSetHeader(0)
    {
      hide Inv, From, Overlay, Start, StepSender;
      Logs(garbage, log, State(), ReceiverStep(ok, data));
      InvMeansMapped(State());
      if ok {
        wire := wire + [Receive(Clipped(memory[tx.buf], tx.len), data)];
        memory := memory[rx.buf := Overlay(memory[rx.buf], data, rx.len)];
        receiver := RHandle;
      } else {
        receiver := RSetHeader(0);
      }
      log := log + [ReceiverStep(ok, data)];
      InvMeansMapped(State());
    }
  }

  function Requested(status: byte): ReceiverPc {
    if status == SPI_READ then RGive else if status == SPI_WRITE then RSetMessage(0) else RPoll
  }

  lemma InvMeansMapped(s: System)
    requires Inv(s)
    ensures Mapped(s.memory)
  {
  }

  lemma SubmitIsLegal(s: System, kind: Kind, payload: seq<byte>)
    requires s.sender == SIdle
    ensures Legal(s, Submit(kind, payload))
  {
  }

  lemma GiveFits(s: System)
    requires Inv(s) && s.sender == SGive
    ensures s.semRx == 0
  {
  }

  lemma PacketIsLast(s: System)
    requires Inv(s) && s.sender == SWrite
    ensures Mapped(s.memory) && s.accepted != [] && Out(s) == s.accepted[|s.accepted| - 1]
  {
    hide Attempts, Receives, Proper;
    assert s.accepted == Attempts(s.wire) + [s.memory[Packet]];
  }

  lemma PacketAnnounced(s: System)
    requires Inv(s) && s.sender == SSetPacket(0)
    ensures s.accepted != [] && s.wire != []
    ensures var packet := s.accepted[|s.accepted| - 1];
      |packet| <= SPI_MAX_MSG_LEN && s.wire[|s.wire| - 1] == SenderPoll(SlaveHeader(|packet|), SPI_READ)
  {
    hide Attempts, Receives, Proper;
    assert s.accepted == Attempts(s.wire) + [s.memory[Packet]];
  }

  lemma AllWritten(s: System)
    requires Inv(s) && s.sender == SIdle
    ensures Attempts(s.wire) == s.accepted
  {
    hide Attempts;
    assert Attempts(s.wire) + [] == Attempts(s.wire);
  }

  lemma AllHandled(s: System)
    requires Inv(s)
    ensures s.receiver != RHandle ==> Arrived(s.handled, Receives(s.wire))
  {
    hide Attempts, Receives, Arrived, Proper;
    assert s.receiver != RHandle ==> s.handled + [] == s.handled;
  }
}
