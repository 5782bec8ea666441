/** What can still happen on the bus of the hci_spi sample: which packets and messages can get
    through from where, and which runs go wrong. */
module SpiProgress {
  import opened Bytes
  import opened Options
  import opened SpiHandoff

  predicate NoSubmit(events: seq<Event>) {
    forall i :: 0 <= i < |events| ==> !events[i].Submit?
  }

  lemma {:induction false} RunAppend(s: System, first: seq<Event>, second: seq<Event>)
    requires Inv(s) && Run(s, first).Some? && Mapped(Run(s, first).value.memory)
    ensures Run(s, first + second) == Run(Run(s, first).value, second)
    decreases |first|
  {
    hide Step, Legal, Token, Traffic, SenderState, ReceiverState, SenderDescriptors, ReceiverDescriptors;
    if first == [] {
      assert first + second == second;
    } else {
      StepKeepsInv(s, first[0]);
      RunAppend(Step(s, first[0]), first[1..], second);
      assert (first + second)[1..] == first[1..] + second;
    }
  }

  /** Nothing handled is forgotten. */
  lemma {:induction false} RunKeepsHandled(s: System, events: seq<Event>)
    requires Inv(s) && Run(s, events).Some?
    ensures s.handled <= Run(s, events).value.handled
    decreases |events|
  {
    hide Token, Traffic, SenderState, ReceiverState, SenderDescriptors, ReceiverDescriptors;
    if events != [] {
      StepKeepsInv(s, events[0]);
      StepKeepsHandled(s, events[0]);
      RunKeepsHandled(Step(s, events[0]), events[1..]);
    }
  }

  lemma StepKeepsHandled(s: System, e: Event)
    requires Mapped(s.memory)
    ensures s.handled <= Step(s, e).handled
  {
  }

  // A packet can always be sent

  const READING: seq<byte> := [SPI_READ, 0, 0, 0, 0]

  /** The next step towards writing the packet, with a host that wants to read; the write itself
      succeeds or fails. */
  function Drive(s: System, ok: bool): Event {
    if s.sender == STake && s.semTx == 0 then
      ReceiverStep(s.receiver != RTransfer, READING)
    else
      SenderStep(s.sender == SWrite ==> ok, READING)
  }

  function SenderDistance(pc: SenderPc): nat {
    match pc
    case SIdle => 0
    case STake => 10
    case SSetHeader(k) => if k < 4 then 9 - k else 6
    case SPoll => 5
    case SSetPacket(k) => if k == 0 then 4 else 3
    case SWrite => 2
    case SGive => 1
  }

  function ReceiverDistance(pc: ReceiverPc): nat {
    match pc
    case RSetMessage(k) => if k < 4 then 11 - k else 8
    case RTransfer | RHandle | RTake => 7
    case RSetHeader(k) => if k < 4 then 6 - k else 3
    case RPoll => 2
    case RGive => 1
  }

  function Distance(s: System): (d: nat)
    ensures d <= 21
  {
    SenderDistance(s.sender) + if s.sender == STake && s.semTx == 0 then ReceiverDistance(s.receiver) else 0
  }

  /** What will have reached the host when the packet has been written. */
  function Owed(s: System, ok: bool): seq<seq<byte>>
    requires Mapped(s.memory)
  {
    Delivered(s.wire) + if ok then Pending(s) else []
  }

  lemma DriveStep(s: System, ok: bool)
    requires Inv(s) && s.sender != SIdle
    ensures Legal(s, Drive(s, ok)) && Distance(Step(s, Drive(s, ok))) < Distance(s)
    ensures Step(s, Drive(s, ok)).accepted == s.accepted
    ensures var t := Step(s, Drive(s, ok)); t.sender == SIdle ==> t.receiver == RTake && t.semRx == 1
  {
    hide Overlay, Traffic, SenderState;
  }

  lemma DriveOwes(s: System, ok: bool)
    requires Inv(s) && s.sender != SIdle
    ensures Mapped(Step(s, Drive(s, ok)).memory) && Owed(Step(s, Drive(s, ok)), ok) == Owed(s, ok)
  {
    hide Overlay, Attempts, Receives, Proper, Announced, Delivered;
    StepKeepsMapped(s, Drive(s, ok));
    var t := Step(s, Drive(s, ok));
    if t.wire != s.wire {
      DeliveredAppend(s.wire, t.wire[|s.wire|]);
      assert t.wire == s.wire + [t.wire[|s.wire|]];
    }
    if s.sender == SWrite {
      assert Out(s) == s.memory[Packet];
    }
  }

  lemma DeliveredAppend(wire: seq<Transfer>, t: Transfer)
    ensures Delivered(wire + [t]) == Delivered(wire) + if t.Write? && t.ok then [t.out] else []
  {
    assert (wire + [t])[..|wire|] == wire;
  }

  /** However far the threads are, at most 21 steps of theirs, with a host that asks to read, end
      with the accepted packet written and the bus given back.  It has reached the host if its one
      write succeeds; if not it never will, and nothing else tells the two runs apart. */
  lemma {:induction false} EveryPacketCanBeWritten(s: System, ok: bool) returns (events: seq<Event>)
    requires Inv(s)
    ensures |events| <= Distance(s) && NoSubmit(events) && Run(s, events).Some?
    ensures var t := Run(s, events).value;
      && Inv(t) && t.sender == SIdle && t.accepted == s.accepted == Attempts(t.wire)
      && Delivered(t.wire) == Owed(s, ok)
      && (s.sender != SIdle ==> t.receiver == RTake && t.semRx == 1)
    decreases Distance(s)
  {
    hide Step, Legal, Drive, Distance, Traffic, Token, SenderState, ReceiverState, Owed;
    if s.sender == SIdle {
      events := [];
      IdleMeansWritten(s, ok);
    } else {
      var e := Drive(s, ok);
      DriveStep(s, ok);
      DriveOwes(s, ok);
      StepKeepsInv(s, e);
      var rest := EveryPacketCanBeWritten(Step(s, e), ok);
      DriveIsNoSubmit(s, ok);
      events := [e] + rest;
      assert events[1..] == rest;
      if Step(s, e).sender == SIdle {
        IdleStays(Step(s, e), rest);
      }
    }
  }

  lemma DriveIsNoSubmit(s: System, ok: bool)
    ensures !Drive(s, ok).Submit?
  {
  }

  lemma IdleStays(s: System, events: seq<Event>)
    requires Mapped(s.memory) && s.sender == SIdle && |events| <= Distance(s)
    ensures Run(s, events) == Some(s)
  {
  }

  lemma IdleMeansWritten(s: System, ok: bool)
    requires Inv(s) && s.sender == SIdle
    ensures s.accepted == Attempts(s.wire) && Delivered(s.wire) == Owed(s, ok)
  {
    hide Attempts, Delivered;
    assert Attempts(s.wire) + [] == Attempts(s.wire);
    assert Delivered(s.wire) + [] == Delivered(s.wire);
  }

  /** A run in which a packet is accepted, spi_send returns 0, and the host never sees it. */
  lemma SilentLoss(garbage: seq<byte>, kind: Kind, payload: seq<byte>) returns (s: System)
    requires |garbage| == 5 && Framed(kind, payload).Some?
    ensures Reachable(s) && s.sender == SIdle
    ensures s.accepted == [Framed(kind, payload).value] && Delivered(s.wire) == []
  {
    hide Token, Traffic, SenderState, ReceiverState, SenderDescriptors, ReceiverDescriptors, Delivered, Attempts;
    var first := Submit(kind, payload);
    InitialInv(garbage);
    var s0 := Initial(garbage);
    NothingDelivered(s0);
    StepKeepsInv(s0, first);
    var s1 := Step(s0, first);
    assert s1.wire == s0.wire;
    var rest := EveryPacketCanBeWritten(s1, false);
    s := Run(s1, rest).value;
    assert ([first] + rest)[1..] == rest;
    assert From(garbage, [first] + rest, s);
    assert Delivered([]) + [] == Delivered([]);
  }

  lemma NothingDelivered(s: System)
    requires s.wire == []
    ensures Delivered(s.wire) == []
  {
  }

  // When a message can be received

  const WRITING: seq<byte> := [SPI_WRITE, 0, 0, 0, 0]

  function StepsToTransfer(pc: ReceiverPc): nat {
    match pc
    case RSetHeader(k) => if k < 4 then 9 - k else 6
    case RPoll => 5
    case RSetMessage(k) => if k < 4 then 4 - k else 1
    case _ => 0
  }

  /** The receiving thread's next step, with a host that wants to write this message. */
  function Offer(s: System, data: seq<byte>): Event {
    ReceiverStep(true, if s.receiver == RPoll then WRITING else data)
  }

  lemma OfferStep(s: System, data: seq<byte>)
    requires Inv(s) && StepsToTransfer(s.receiver) > 0
    ensures Legal(s, Offer(s, data)) && Step(s, Offer(s, data)).handled == s.handled
    ensures StepsToTransfer(Step(s, Offer(s, data)).receiver) == StepsToTransfer(s.receiver) - 1
    ensures StepsToTransfer(s.receiver) == 1 ==> Step(s, Offer(s, data)).receiver == RTransfer
  {
    hide Overlay, Traffic, SenderState;
  }

  lemma TransferStep(s: System, data: seq<byte>)
    requires Inv(s) && s.receiver == RTransfer
    ensures var t := Step(s, ReceiverStep(true, data));
      && t.receiver == RHandle && t.handled == s.handled
      && Mapped(t.memory) && Clipped(data, SPI_MAX_MSG_LEN) <= t.memory[RxMsg]
  {
    hide Overlay, Traffic, SenderState;
  }

  lemma HandleStep(s: System)
    requires Inv(s) && s.receiver == RHandle
    ensures var t := Step(s, ReceiverStep(true, []));
      t.handled == s.handled + [s.memory[RxMsg]] && t.receiver == RSetHeader(0)
  {
  }

  /** From s to t something was handled, and the last of it is the host's message. */
  predicate Handled(s: System, t: System, data: seq<byte>) {
    && s.handled <= t.handled && |s.handled| < |t.handled|
    && Clipped(data, SPI_MAX_MSG_LEN) <= t.handled[|t.handled| - 1]
  }

  lemma {:induction false} OfferMessage(s: System, data: seq<byte>) returns (events: seq<Event>)
    requires Inv(s) && (StepsToTransfer(s.receiver) > 0 || s.receiver == RTransfer)
    ensures |events| <= 11 && |events| == StepsToTransfer(s.receiver) + 2 && NoSubmit(events) && Run(s, events).Some?
    ensures Handled(s, Run(s, events).value, data)
    decreases StepsToTransfer(s.receiver)
  {
    hide Traffic, Token, SenderState, ReceiverState, Overlay, Clipped, StepSender, StepReceiver, Start;
    if s.receiver == RTransfer {
      var first, last := ReceiverStep(true, data), ReceiverStep(true, []);
      TransferStep(s, data);
      StepKeepsInv(s, first);
      var t := Step(s, first);
      HandleStep(t);
      StepKeepsInv(t, last);
      events := [first, last];
      assert events[1..] == [last] && [last][1..] == [];
      assert Run(Step(t, last), []) == Some(Step(t, last));
      assert Run(t, [last]) == Some(Step(t, last));
    } else {
      OfferStep(s, data);
      StepKeepsInv(s, Offer(s, data));
      var rest := OfferMessage(Step(s, Offer(s, data)), data);
      events := [Offer(s, data)] + rest;
      assert events[1..] == rest;
    }
  }

  /** The receiving thread has granted the bus, or is about to, and there is nothing to send. */
  predicate Blocked(s: System) {
    s.sender == SIdle && (s.receiver == RGive || (s.receiver == RTake && s.semRx == 0))
  }

  lemma {:induction false} BlockedStays(s: System, events: seq<Event>)
    requires Inv(s) && Blocked(s) && NoSubmit(events) && Run(s, events).Some?
    ensures Run(s, events).value.handled == s.handled
    decreases |events|
  {
    hide Traffic, SenderState, ReceiverState, SenderDescriptors, ReceiverDescriptors;
    if events != [] {
      StepKeepsInv(s, events[0]);
      BlockedStays(Step(s, events[0]), events[1..]);
    }
  }

  /** One step of the receiving thread, taken first. */
  lemma StepFirst(s: System, e: Event, data: seq<byte>, rest: seq<Event>) returns (events: seq<Event>)
    requires Inv(s) && Legal(s, e) && !e.Submit? && NoSubmit(rest)
    requires Mapped(Step(s, e).memory) && Run(Step(s, e), rest).Some?
    requires Handled(Step(s, e), Run(Step(s, e), rest).value, data)
    ensures |events| == |rest| + 1 && NoSubmit(events) && Run(s, events) == Run(Step(s, e), rest)
    ensures Handled(s, Run(s, events).value, data)
  {
    hide Step, Legal, Traffic, Token, SenderState, ReceiverState, Clipped;
    StepKeepsHandled(s, e);
    events := [e] + rest;
    assert events[1..] == rest;
  }

  /** From the top of the loop, from its end, or once the bus has been given back. */
  lemma FromTheTop(s: System, data: seq<byte>) returns (events: seq<Event>)
    requires Inv(s) && (s.receiver == RTake ==> s.semRx > 0) && s.receiver != RGive
    ensures |events| <= 12 && NoSubmit(events) && Run(s, events).Some? && Handled(s, Run(s, events).value, data)
  {
    hide Traffic, SenderState, ReceiverState, Overlay, Clipped;
    if s.receiver == RTake || s.receiver == RHandle {
      var e := ReceiverStep(true, []);
      StepKeepsInv(s, e);
      var rest := OfferMessage(Step(s, e), data);
      events := StepFirst(s, e, data, rest);
    } else {
      events := OfferMessage(s, data);
    }
  }

  /** From every state that is not blocked, at most 34 steps of the threads, with a suitable host and
      without any further packet to send, end with the host's message handled. */
  lemma EveryMessageCanBeReceived(s: System, data: seq<byte>) returns (events: seq<Event>)
    requires Inv(s) && !Blocked(s)
    ensures |events| <= 34 && NoSubmit(events) && Run(s, events).Some? && Handled(s, Run(s, events).value, data)
  {
    hide Traffic, SenderState, ReceiverState, Overlay, Clipped;
    if s.receiver == RGive || (s.receiver == RTake && s.semRx == 0) {
      var first := EveryPacketCanBeWritten(s, true);
      var t := Run(s, first).value;
      RunKeepsHandled(s, first);
      var second := FromTheTop(t, data);
      RunAppend(s, first, second);
      events := first + second;
    } else {
      events := FromTheTop(s, data);
    }
  }

  ghost predicate CanReceive(s: System, data: seq<byte>)
    requires Mapped(s.memory)
  {
    exists events: seq<Event> :: NoSubmit(events) && Run(s, events).Some? && Handled(s, Run(s, events).value, data)
  }

  /** In a reachable state the host's message can be received without waiting for another packet
      to send exactly when the receiving thread is not stuck behind a grant nobody takes; and in a
      state where it is, nothing at all is handled until a packet is sent. */
  lemma ReceivingNeedsUnblocked(s: System, data: seq<byte>)
    requires Reachable(s)
    ensures Mapped(s.memory) && (CanReceive(s, data) <==> !Blocked(s))
    ensures Blocked(s) ==> forall events: seq<Event> ::
      NoSubmit(events) && Run(s, events).Some? ==> Run(s, events).value.handled == s.handled
  {
    ReachableInv(s);
    if Blocked(s) {
      forall events: seq<Event> | NoSubmit(events) && Run(s, events).Some?
        ensures Run(s, events).value.handled == s.handled
      {
        BlockedStays(s, events);
      }
    } else {
      var events := EveryMessageCanBeReceived(s, data);
      assert NoSubmit(events);
    }
  }

  /** The threads never wait for each other: neither can take a step exactly when the receiving
      thread waits for the bus it has granted and there is no packet to send. */
  lemma NeverBothBlocked(s: System)
    requires Reachable(s)
    ensures (forall ok, data :: !Legal(s, SenderStep(ok, data)) && !Legal(s, ReceiverStep(ok, data)))
      <==> Blocked(s) && s.receiver == RTake
  {
    ReachableInv(s);
    hide Traffic, SenderState, ReceiverState, SenderDescriptors, ReceiverDescriptors;
    if !(Blocked(s) && s.receiver == RTake) {
      assert Legal(s, SenderStep(true, [])) || Legal(s, ReceiverStep(true, []));
    }
  }

  // Runs

  /** Four assignments and one header exchange: from the top of the loop to what the host asks. */
  function HeaderRun(ok: bool, data: seq<byte>): seq<Event> {
    [ReceiverStep(true, []), ReceiverStep(true, []), ReceiverStep(true, []), ReceiverStep(true, []),
     ReceiverStep(ok, data)]
  }

  lemma Unroll5(s: System, a: Event, b: Event, c: Event, d: Event, e: Event)
    requires Mapped(s.memory)
    requires Legal(s, a) && Legal(Next(s, a), b) && Legal(Next(Next(s, a), b), c)
    requires Legal(Next(Next(Next(s, a), b), c), d) && Legal(Next(Next(Next(Next(s, a), b), c), d), e)
    ensures Run(s, [a, b, c, d, e]) == Some(Next(Next(Next(Next(Next(s, a), b), c), d), e))
  {
    hide Step, Legal;
    var s1 := Next(s, a);
    var s2 := Next(s1, b);
    var s3 := Next(s2, c);
    var s4 := Next(s3, d);
    var s5 := Next(s4, e);
    assert [e][1..] == [] && Run(s5, []) == Some(s5);
    assert Run(s4, [e]) == Some(s5);
    assert [d, e][1..] == [e] && Run(s3, [d, e]) == Some(s5);
    assert [c, d, e][1..] == [d, e] && Run(s2, [c, d, e]) == Some(s5);
    assert [b, c, d, e][1..] == [c, d, e] && Run(s1, [b, c, d, e]) == Some(s5);
    assert [a, b, c, d, e][1..] == [b, c, d, e];
  }

  function Next(s: System, e: Event): (t: System)
    requires Mapped(s.memory)
    ensures Mapped(t.memory)
  {
    StepKeepsMapped(s, e);
    Step(s, e)
  }

  /** The top of the loop, through one header exchange. */
  lemma HeaderExchange(s: System, ok: bool, data: seq<byte>)
    requires Inv(s) && s.receiver == RSetHeader(0)
    ensures Run(s, HeaderRun(ok, data)).Some?
    ensures var t := Run(s, HeaderRun(ok, data)).value;
      && Inv(t) && t.sender == s.sender && t.semRx == s.semRx && t.accepted == s.accepted
      && |t.memory[ReceiverMaster]| == 5
      && (var left := s.memory[ReceiverMaster];
          t.memory[ReceiverMaster] == if ok then Overlay(left, data, 5) else left)
      && (var status := t.memory[ReceiverMaster][0];
          && t.wire == s.wire + [if ok && data != [] then ReceiverPoll(SlaveHeader(0), status) else FailedPoll(status)]
          && t.receiver == if status == SPI_READ then RGive else if status == SPI_WRITE then RSetMessage(0) else RPoll)
  {
    hide Token, Traffic, SenderState, ReceiverState, Overlay;
    var e := ReceiverStep(true, []);
    var s1 := Next(s, e);
    var s2 := Next(s1, e);
    var s3 := Next(s2, e);
    var s4 := Next(s3, e);
    Unroll5(s, e, e, e, e, ReceiverStep(ok, data));
    RunKeepsInv(s, HeaderRun(ok, data));
  }

  /** Four assignments and one message transfer. */
  lemma MessageTransfer(s: System, data: seq<byte>)
    requires Inv(s) && s.receiver == RSetMessage(0)
    ensures Run(s, HeaderRun(true, data)).Some?
    ensures var t := Run(s, HeaderRun(true, data)).value;
      && Inv(t) && t.receiver == RHandle && t.wire == s.wire + [Receive(Fill(255, 0xff), data)]
      && t.memory[ReceiverMaster] == s.memory[ReceiverMaster]
  {
    hide Token, Traffic, SenderState, ReceiverState, Overlay;
    var e := ReceiverStep(true, []);
    var s1 := Next(s, e);
    var s2 := Next(s1, e);
    var s3 := Next(s2, e);
    var s4 := Next(s3, e);
    Unroll5(s, e, e, e, e, ReceiverStep(true, data));
    RunKeepsInv(s, HeaderRun(true, data));
  }

  lemma ReachFurther(garbage: seq<byte>, events: seq<Event>, s: System, more: seq<Event>)
    requires From(garbage, events, s) && Mapped(s.memory) && Run(s, more).Some?
    ensures From(garbage, events + more, Run(s, more).value)
  {
    InitialInv(garbage);
    RunAppend(Initial(garbage), events, more);
  }

  lemma StatusOf(buffer: seq<byte>, data: seq<byte>)
    requires |buffer| == |data| == 5
    ensures Overlay(buffer, data, 5) == data
  {
  }

  /** A blocked state is reached as soon as the host asks to read before there is a packet. */
  lemma BlockedRun(garbage: seq<byte>) returns (s: System)
    requires |garbage| == 5
    ensures Reachable(s) && Blocked(s) && s.accepted == []
  {
    var s0 := Initial(garbage);
    InitialInv(garbage);
    HeaderExchange(s0, true, READING);
    StatusOf(s0.memory[ReceiverMaster], READING);
    s := Run(s0, HeaderRun(true, READING)).value;
    assert From(garbage, HeaderRun(true, READING), s);
  }

  /** A run in which one message is received. */
  lemma FirstMessage(garbage: seq<byte>, data: seq<byte>) returns (events: seq<Event>, s: System)
    requires |garbage| == 5
    ensures From(garbage, events, s) && Inv(s) && s.receiver == RSetHeader(0)
    ensures s.wire == [ReceiverPoll(SlaveHeader(0), SPI_WRITE), Receive(Fill(255, 0xff), data)]
    ensures s.memory[ReceiverMaster] == WRITING
  {
    hide Token, Traffic, SenderState, ReceiverState, SenderDescriptors, ReceiverDescriptors, Overlay, Run, Step, Legal;
    var s0 := Initial(garbage);
    InitialInv(garbage);
    HeaderExchange(s0, true, WRITING);
    StatusOf(s0.memory[ReceiverMaster], WRITING);
    events := HeaderRun(true, WRITING);
    var s1 := Run(s0, events).value;
    assert From(garbage, events, s1);
    MessageTransfer(s1, data);
    var s2 := Run(s1, HeaderRun(true, data)).value;
    ReachFurther(garbage, events, s1, HeaderRun(true, data));
    events := events + HeaderRun(true, data);
    HandlingDone(s2);
    ReachFurther(garbage, events, s2, [ReceiverStep(true, [])]);
    events := events + [ReceiverStep(true, [])];
    s := Run(s2, [ReceiverStep(true, [])]).value;
  }

  /** A run in which a second message is taken from a host that was not asked whether it has one:
      after a first message, a failed header exchange finds its SPI_WRITE still there. */
  lemma StaleHeader(garbage: seq<byte>, data: seq<byte>, noise: seq<byte>) returns (s: System)
    requires |garbage| == 5
    ensures Reachable(s)
    ensures var idle := Fill(255, 0xff);
      s.wire
      == [ReceiverPoll(SlaveHeader(0), SPI_WRITE), Receive(idle, data), FailedPoll(SPI_WRITE), Receive(idle, noise)]
  {
    hide Token, Traffic, SenderState, ReceiverState, SenderDescriptors, ReceiverDescriptors, Overlay, Run, Step, Legal;
    var events, s3 := FirstMessage(garbage, data);
    HeaderExchange(s3, false, []);
    var s4 := Run(s3, HeaderRun(false, [])).value;
    ReachFurther(garbage, events, s3, HeaderRun(false, []));
    MessageTransfer(s4, noise);
    ReachFurther(garbage, events + HeaderRun(false, []), s4, HeaderRun(true, noise));
    s := Run(s4, HeaderRun(true, noise)).value;
  }

  /** A run in which a message is taken without any answer of the host at all, because of what the
      stack held before. */
  lemma UninitialisedHeader(garbage: seq<byte>, noise: seq<byte>) returns (s: System)
    requires |garbage| == 5 && garbage[0] == SPI_WRITE
    ensures Reachable(s) && s.wire == [FailedPoll(SPI_WRITE), Receive(Fill(255, 0xff), noise)]
  {
    hide Token, Traffic, SenderState, ReceiverState, SenderDescriptors, ReceiverDescriptors, Overlay, Run, Step, Legal;
    var s0 := Initial(garbage);
    InitialInv(garbage);
    HeaderExchange(s0, false, []);
    var events := HeaderRun(false, []);
    var s1 := Run(s0, events).value;
    assert From(garbage, events, s1);
    MessageTransfer(s1, noise);
    ReachFurther(garbage, events, s1, HeaderRun(true, noise));
    s := Run(s1, HeaderRun(true, noise)).value;
  }

  lemma HandlingDone(s: System)
    requires Inv(s) && s.receiver == RHandle
    ensures Run(s, [ReceiverStep(true, [])]).Some?
    ensures var t := Run(s, [ReceiverStep(true, [])]).value;
      && Inv(t) && t.receiver == RSetHeader(0) && t.wire == s.wire
      && t.memory == s.memory
  {
    var e := ReceiverStep(true, []);
    StepKeepsInv(s, e);
    var t := Step(s, e);
    assert [e][1..] == [] && Run(t, []) == Some(t);
  }
}
