/** The zperf UDP receiver: the session table and what one datagram does to it.

    One address family is modelled; an address is a number.  Machine integers wrap where the
    source's do: u32 counters, a u64 length, s32 jitter and transit times. */
module ZperfReceiver {
  import opened MachineIntegers
  import opened ZperfTime
  import opened Options

  datatype State = Null | Ongoing | LastPacketReceived | Completed

  datatype Key = Key(port: nat, addr: nat)

  datatype Stats = Stats(
    counter: int, nextId: int, outorder: int, error: int, length: int, jitter: int, lastTransit: int)

  datatype Report = Report(
    stopUsec: int, errorCount: int, outorderCount: int, datagrams: int, jitter: int)

  datatype Session = Session(key: Key, state: State, startTime: int, stats: Stats, report: Report)

  /** A datagram as it arrives: who sent it, its id field, its payload size, the receiver's
      time in cycles, of which its counter shows the lowest 32 bits, and the sender's time stamp
      in microseconds. */
  datatype Datagram = Datagram(key: Key, id: int, size: nat, time: nat, sentUsec: int)
  {
    predicate Fits() {
      -TWO31 <= id < TWO31 && 0 <= sentUsec < TWO32
    }
  }

  const ZERO_STATS := Stats(0, 0, 0, 0, 0, 0, 0)

  function CyclesToUsec(hz: nat, cycles: int): int
    requires 0 < hz
  {
    cycles * 1_000_000 / hz
  }

  function Transit(hz: nat, d: Datagram): (t: int)
    requires 0 < hz && d.Fits()
    ensures -TWO31 <= t < TWO31
  {
    S32(TimeDelta(U32(CyclesToUsec(hz, U32(d.time))), d.sentUsec))
  }

  /** The jitter filter, in the source's integers.  A last transit time of 0 stands for
      "no datagram yet". */
  function Jitter(jitter: int, last: int, transit: int): int {
    if last == 0 then jitter
    else
      var delta := S32(transit - last);
      var deviation := S32(if delta < 0 then -delta else delta);
      S32(jitter + Quotient(S32(deviation - jitter), 16))
  }

  /** A data datagram of an ongoing session. */
  function Count(hz: nat, s: Stats, d: Datagram): (r: Stats)
    requires 0 < hz && d.Fits()
  {
    var transit := Transit(hz, d);
    var seen := s.(
      counter := U32(s.counter + 1), length := U64(s.length + d.size),
      jitter := Jitter(s.jitter, s.lastTransit, transit), lastTransit := transit);
    if d.id == s.nextId then seen.(nextId := U32(s.nextId + 1))
    else if d.id < s.nextId then seen.(outorder := U32(s.outorder + 1))
    else seen.(error := U32(s.error + (d.id - s.nextId)), nextId := U32(d.id + 1))
  }

  function Summary(hz: nat, s: Session, d: Datagram): Report
    requires 0 < hz && d.Fits() && 0 <= s.startTime < TWO32
  {
    Report(U32(CyclesToUsec(hz, TimeDelta(s.startTime, U32(d.time)))), s.stats.error, s.stats.outorder,
           s.stats.counter, s.stats.jitter)
  }

  datatype Outcome = Outcome(session: Session, reply: Option<Report>)

  /** The switch in udp_received, for the session found. */
  function Handle(hz: nat, s: Session, d: Datagram): (o: Outcome)
    requires 0 < hz && d.Fits() && 0 <= s.startTime < TWO32
    ensures 0 <= o.session.startTime < TWO32
  {
    match s.state
    case Ongoing =>
      if d.id < 0 then
        var report := Summary(hz, s, d);
        Outcome(s.(state := Completed, report := report), Some(report))
      else Outcome(s.(stats := Count(hz, s.stats, d)), None)
    case LastPacketReceived => Outcome(s, None)
    case _ =>
      if d.id < 0 then Outcome(s, Some(s.report))
      else Outcome(s.(state := Ongoing, startTime := U32(d.time), stats := ZERO_STATS), None)
  }

  predicate IsFree(s: Session) {
    s.state == Null || s.state == Completed
  }

  /** The first slot at or after i with this key. */
  function Lookup(table: seq<Session>, key: Key, i: nat := 0): (slot: Option<nat>)
    requires i <= |table|
    ensures slot.Some? ==> i <= slot.value < |table| && table[slot.value].key == key
    ensures forall j :: i <= j < (if slot.Some? then slot.value else |table|) ==> table[j].key != key
    decreases |table| - i
  {
    if i == |table| then None
    else if table[i].key == key then Some(i)
    else Lookup(table, key, i + 1)
  }

  /** The first slot at or after i that holds no session in progress. */
  function FindFree(table: seq<Session>, i: nat := 0): (slot: Option<nat>)
    requires i <= |table|
    ensures slot.Some? ==> i <= slot.value < |table| && IsFree(table[slot.value])
    ensures forall j :: i <= j < (if slot.Some? then slot.value else |table|) ==> !IsFree(table[j])
    decreases |table| - i
  {
    if i == |table| then None
    else if IsFree(table[i]) then Some(i)
    else FindFree(table, i + 1)
  }

  /** get_session: the slot of this flow, or else the first free one, which gets the flow's key. */
  function SlotFor(table: seq<Session>, key: Key): (slot: Option<nat>)
    ensures slot.Some? ==> slot.value < |table|
  {
    if Lookup(table, key).Some? then Lookup(table, key) else FindFree(table)
  }

  predicate TimesFit(table: seq<Session>) {
    forall i :: 0 <= i < |table| ==> 0 <= table[i].startTime < TWO32
  }

  datatype Received = Received(table: seq<Session>, reply: Option<Report>)

  /** udp_received.  A datagram of a new flow is dropped when every slot is in use. */
  function Receive(hz: nat, table: seq<Session>, d: Datagram): (r: Received)
    requires 0 < hz && d.Fits() && TimesFit(table)
    ensures |r.table| == |table| && TimesFit(r.table)
  {
    match SlotFor(table, d.key)
    case None => Received(table, None)
    case Some(i) =>
      var o := Handle(hz, table[i].(key := d.key), d);
      Received(table[i := o.session], o.reply)
  }

  /** zperf_session_init on a zeroed table. */
  function Init(n: nat): (table: seq<Session>)
    ensures |table| == n && TimesFit(table)
  {
    seq(n, _ => Session(Key(0, 0), Null, 0, ZERO_STATS, Report(0, 0, 0, 0, 0)))
  }

  /** The receiver with its static table, as written. */
  class Receiver {
    const hz: nat
    const sessions: array<Session>

    ghost predicate Valid()
      reads this, sessions
    {
      0 < hz && TimesFit(sessions[..])
    }

    constructor (hz: nat, sessionMax: nat)
      requires 0 < hz
      ensures Valid() && fresh(sessions) && this.hz == hz && sessions[..] == Init(sessionMax)
    {
      this.hz := hz;
      sessions := new Session[sessionMax](_ => Session(Key(0, 0), Null, 0, ZERO_STATS, Report(0, 0, 0, 0, 0)));
      new;
      assert sessions[..] == Init(sessionMax);
    }

    method GetSession(key: Key) returns (active: Option<nat>)
      requires Valid()
      modifies sessions
      ensures active == SlotFor(old(sessions[..]), key)
      ensures active.Some? ==>
        && active.value < sessions.Length
        && sessions[..] == old(sessions[..])[active.value := old(sessions[active.value]).(key := key)]
      ensures active.None? ==> sessions[..] == old(sessions[..])
    {
      active := None;
      var free: Option<nat> := None;
      var i := 0;
      while active.None? && i < sessions.Length
        invariant 0 <= i <= sessions.Length && sessions[..] == old(sessions[..])
        invariant active.None? ==> Lookup(sessions[..], key) == Lookup(sessions[..], key, i)
        invariant active.None? && free.None? ==> FindFree(sessions[..]) == FindFree(sessions[..], i)
        invariant active.None? && free.Some? ==> FindFree(sessions[..]) == free
        invariant active.Some? ==> active == Lookup(sessions[..], key)
      {
        if sessions[i].key == key {
          active := Some(i);
        } else if free.None? && IsFree(sessions[i]) {
          free := Some(i);
        }
        i := i + 1;
      }
      if active.None? && free.Some? {
        active := free;
        sessions[free.value] := sessions[free.value].(key := key);
      } else if active.Some? {
        var s := sessions[..];
        assert s[active.value := s[active.value].(key := key)] == s;
      }
    }

    method ResetStats(i: nat)
      requires i < sessions.Length
      modifies sessions
      ensures sessions[..] == old(sessions[..])[i := old(sessions[i]).(startTime := 0, stats := ZERO_STATS)]
    {
      sessions[i] := sessions[i].(startTime := 0, stats := ZERO_STATS);
    }

    method UdpReceived(d: Datagram) returns (reply: Option<Report>)
      requires Valid() && d.Fits()
      modifies sessions
      ensures Valid() && Received(sessions[..], reply) == Receive(hz, old(sessions[..]), d)
    {
      reply := None;
      var time := U32(d.time);
      var active := GetSession(d.key);
      if active.None? {
        return;
      }
      var i := active.value;
      var s := sessions[i];
      match s.state {
        case Completed =>
          if d.id < 0 {
            reply := Some(s.report);
          } else {
            ResetStats(i);
            sessions[i] := sessions[i].(state := Ongoing, startTime := time);
          }
        case Null =>
          if d.id < 0 {
            reply := Some(s.report);
          } else {
            ResetStats(i);
            sessions[i] := sessions[i].(state := Ongoing, startTime := time);
          }
        case Ongoing =>
          if d.id < 0 {
            var duration := U32(CyclesToUsec(hz, TimeDelta(s.startTime, time)));
            sessions[i] := sessions[i].(state := Completed);
            var report := Report(duration, s.stats.error, s.stats.outorder, s.stats.counter, s.stats.jitter);
            sessions[i] := sessions[i].(report := report);
            reply := Some(report);
          } else {
            var stats := CountDatagram(s.stats, d);
            sessions[i] := sessions[i].(stats := stats);
          }
        case LastPacketReceived =>
      }
      assert sessions[i] == Handle(hz, old(sessions[..])[i].(key := d.key), d).session;
    }

    method CountDatagram(before: Stats, d: Datagram) returns (s: Stats)
      requires 0 < hz && d.Fits()
      ensures s == Count(hz, before, d)
    {
      hide U32, U64, S32, Quotient, TimeDelta, CyclesToUsec;
      s := before.(counter := U32(before.counter + 1), length := U64(before.length + d.size));
      var transit := S32(TimeDelta(U32(CyclesToUsec(hz, U32(d.time))), d.sentUsec));
      if s.lastTransit != 0 {
        var delta := S32(transit - s.lastTransit);
        if delta < 0 {
          delta := S32(-delta);
        }
        s := s.(jitter := S32(s.jitter + Quotient(S32(delta - s.jitter), 16)));
      }
      s := s.(lastTransit := transit);
      if d.id != s.nextId {
        if d.id < s.nextId {
          s := s.(outorder := U32(s.outorder + 1));
        } else {
          s := s.(error := U32(s.error + (d.id - s.nextId)));
          s := s.(nextId := U32(d.id + 1));
        }
      } else {
        s := s.(nextId := U32(s.nextId + 1));
      }
    }
  }
}
