/** The receiver's slots over whole runs: whose report a datagram with a negative id is answered
    with, which datagrams are given a slot, and when a slot holds a running session. */
module ZperfReports {
  import opened MachineIntegers
  import opened Options
  import opened ZperfTime
  import opened ZperfReceiver
  import opened ZperfFlows

  // What a slot's report is, over whole runs

  const NO_REPORT := Report(0, 0, 0, 0, 0)

  /** The last datagram of the run that ended a session in slot i. */
  function EndedAt(hz: nat, n: nat, trace: Trace, i: nat): (end: Option<nat>)
    requires 0 < hz && AllFit(trace) && i < n
    ensures end.Some? ==> end.value < |trace|
  {
    if trace == [] then None
    else
      var m := |trace| - 1;
      if Ends(Run(hz, n, trace[..m])[i], trace[m]) then Some(m) else EndedAt(hz, n, trace[..m], i)
  }

  predicate Ends(s: Session, d: Datagram) {
    s.state == Ongoing && s.key == d.key && d.id < 0
  }

  /** Datagram `start` began and datagram `end` ended a session in slot i, both of the same flow. */
  predicate SessionIn(hz: nat, n: nat, trace: Trace, i: nat, start: nat, end: nat)
    requires 0 < hz && AllFit(trace) && i < n
  {
    && end < |trace| && Ends(Run(hz, n, trace[..end])[i], trace[end])
    && BegunBy(hz, Run(hz, n, trace[..end]), trace[..end], i, start)
  }

  /** The report such a session deserves: the totals of exactly its own datagrams after the one
      that opened it. */
  function SessionReport(hz: nat, trace: Trace, start: nat, end: nat): Report
    requires 0 < hz && AllFit(trace) && start < end < |trace|
  {
    var d := trace[end];
    var totals := Totals(hz, Own(trace[start + 1..end], d.key));
    Report(U32(CyclesToUsec(hz, TimeDelta(U32(trace[start].time), U32(d.time)))),
           totals.error, totals.outorder, totals.counter, totals.jitter)
  }

  /** One datagram changes a slot's report exactly when it ends the session there. */
  lemma ReportStep(hz: nat, table: seq<Session>, d: Datagram, i: nat)
    requires 0 < hz && d.Fits() && TimesFit(table) && Findable(table) && i < |table|
    ensures var s, s' := table[i], Receive(hz, table, d).table[i];
      && s'.report == (if Ends(s, d) then Summary(hz, s, d) else s.report)
      && (s.state != LastPacketReceived ==> s'.state != LastPacketReceived)
    ensures SlotFor(table, d.key) == Some(i) && d.id < 0 && table[i].state != LastPacketReceived ==>
      Receive(hz, table, d).reply == Some(Receive(hz, table, d).table[i].report)
  {
    hide Count, Summary;
    if table[i].state == Ongoing {
      assert Lookup(table, table[i].key) == Some(i);
      assert table[i].(key := table[i].key) == table[i];
    }
  }

  /** Each slot's report is that of the last session completed in it, whoever holds the slot now. */
  lemma {:induction false} SlotReport(hz: nat, n: nat, trace: Trace, i: nat) returns (start: nat)
    requires 0 < hz && AllFit(trace) && i < n
    ensures Run(hz, n, trace)[i].state != LastPacketReceived
    ensures match EndedAt(hz, n, trace, i)
      case None => Run(hz, n, trace)[i].report == NO_REPORT
      case Some(end) =>
        && SessionIn(hz, n, trace, i, start, end)
        && Run(hz, n, trace)[i].report == SessionReport(hz, trace, start, end)
    decreases |trace|
  {
    hide Receive, Count, Own, Lookup, Totals;
    start := 0;
    if trace != [] {
      var m := |trace| - 1;
      var before := trace[..m];
      RunKeepsFindable(hz, n, before);
      ReportStep(hz, Run(hz, n, before), trace[m], i);
      start := SlotReport(hz, n, before, i);
      if Ends(Run(hz, n, before)[i], trace[m]) {
        start := FlowIsolation(hz, n, before, i);
        assert trace[start + 1..m] == before[start + 1..];
      } else if EndedAt(hz, n, before, i).Some? {
        var end := EndedAt(hz, n, before, i).value;
        assert before[..end] == trace[..end] && before[start + 1..end] == trace[start + 1..end];
      }
    }
  }

  /** The session running in slot i, or else the last one completed there, is of this flow. */
  predicate OwnSlot(hz: nat, n: nat, trace: Trace, i: nat, key: Key)
    requires 0 < hz && AllFit(trace) && i < n
  {
    var s, end := Run(hz, n, trace)[i], EndedAt(hz, n, trace, i);
    if s.state == Ongoing then s.key == key else end.Some? && trace[end.value].key == key
  }

  /** In every run, a datagram with a negative id is answered with the report of the session last
      completed in the flow's slot, its own end included, or with an empty one when there is none.
      So the answer is about the flow that asks exactly when the session running in that slot, or
      else the last one completed there, was its own: a slot may have served another flow before,
      and keeps that flow's report under its new key. */
  lemma NegativeIdAnswer(hz: nat, n: nat, trace: Trace, d: Datagram, i: nat) returns (start: nat)
    requires 0 < hz && AllFit(trace) && d.Fits() && d.id < 0 && i < n
    requires SlotFor(Run(hz, n, trace), d.key) == Some(i)
    ensures AllFit(trace + [d])
    ensures var all := trace + [d];
      match EndedAt(hz, n, all, i)
      case None => Receive(hz, Run(hz, n, trace), d).reply == Some(NO_REPORT)
      case Some(end) =>
        && SessionIn(hz, n, all, i, start, end)
        && Receive(hz, Run(hz, n, trace), d).reply == Some(SessionReport(hz, all, start, end))
    ensures var all := trace + [d];
      var end := EndedAt(hz, n, all, i);
      end.Some? && all[end.value].key == d.key <==> OwnSlot(hz, n, trace, i, d.key)
  {
    hide Receive, Count, Own, Lookup, Totals, BegunBy;
    var all := trace + [d];
    assert all[..|all| - 1] == trace && all[|all| - 1] == d;
    assert AllFit(all);
    RunKeepsFindable(hz, n, trace);
    var before := SlotReport(hz, n, trace, i);
    start := SlotReport(hz, n, all, i);
    ReportStep(hz, Run(hz, n, trace), d, i);
    RunningSlotIsOwn(Run(hz, n, trace), d.key, i);
    RunStep(hz, n, trace, d);
  }

  lemma RunStep(hz: nat, n: nat, trace: Trace, d: Datagram)
    requires 0 < hz && AllFit(trace) && d.Fits() && AllFit(trace + [d])
    ensures Run(hz, n, trace + [d]) == Receive(hz, Run(hz, n, trace), d).table
  {
    hide Receive;
    assert (trace + [d])[..|trace|] == trace;
  }

  lemma RunningSlotIsOwn(table: seq<Session>, key: Key, i: nat)
    requires SlotFor(table, key) == Some(i)
    ensures table[i].state == Ongoing ==> table[i].key == key
  {
  }

  /** This datagram leaves slot i alone: it goes elsewhere, or only asks for the report there. */
  predicate Passes(table: seq<Session>, d: Datagram, key: Key, i: nat) {
    SlotFor(table, d.key) != Some(i) || (d.key == key && d.id < 0)
  }

  /** Slot i is this flow's, with no session running. */
  predicate Settled(table: seq<Session>, key: Key, i: nat) {
    i < |table| && Lookup(table, key) == Some(i) && IsFree(table[i])
  }

  lemma FirstAnswer(hz: nat, table: seq<Session>, d: Datagram, i: nat)
    requires 0 < hz && d.Fits() && TimesFit(table) && d.id < 0
    requires SlotFor(table, d.key) == Some(i) && table[i].state != LastPacketReceived
    ensures var r := Receive(hz, table, d);
      Settled(r.table, d.key, i) && r.reply == Some(r.table[i].report)
  {
    LookupIs(Receive(hz, table, d).table, d.key, i);
  }

  lemma StaysSettled(hz: nat, table: seq<Session>, d: Datagram, key: Key, i: nat)
    requires 0 < hz && d.Fits() && TimesFit(table) && Settled(table, key, i) && Passes(table, d, key, i)
    ensures var t := Receive(hz, table, d).table; Settled(t, key, i) && t[i] == table[i]
  {
    hide Count, Summary;
    var t := Receive(hz, table, d).table;
    assert table[i].(key := key) == table[i];
    LookupIs(t, key, i);
  }

  /** The datagrams after `trace`, each of which leaves slot i alone. */
  predicate AllPass(hz: nat, n: nat, trace: Trace, more: Trace, key: Key, i: nat)
    requires 0 < hz && AllFit(trace) && AllFit(more)
  {
    forall k :: 0 <= k < |more| ==>
      AllFit(trace + more[..k]) && Passes(Run(hz, n, trace + more[..k]), more[k], key, i)
  }

  lemma {:induction false} RunStaysSettled(hz: nat, n: nat, trace: Trace, more: Trace, key: Key, i: nat)
    requires 0 < hz && AllFit(trace) && AllFit(more) && AllFit(trace + more)
    requires Settled(Run(hz, n, trace), key, i) && AllPass(hz, n, trace, more, key, i)
    ensures var t := Run(hz, n, trace + more); Settled(t, key, i) && t[i] == Run(hz, n, trace)[i]
    decreases |more|
  {
    hide Receive, Settled, Passes, Run;
    if more == [] {
      assert trace + more == trace;
    } else {
      var m := |more| - 1;
      assert forall k :: 0 <= k < m ==> more[..m][..k] == more[..k];
      assert (trace + more[..m]) + [more[m]] == trace + more;
      RunStep(hz, n, trace + more[..m], more[m]);
      RunStaysSettled(hz, n, trace, more[..m], key, i);
      StaysSettled(hz, Run(hz, n, trace + more[..m]), more[m], key, i);
    }
  }

  /** A flow that asks again is told the same, whatever came in between, as long as its slot was
      left alone; so a foreign report, too, is repeated. */
  lemma RepeatedReport(hz: nat, n: nat, trace: Trace, d: Datagram, more: Trace, again: Datagram, i: nat)
    requires 0 < hz && AllFit(trace) && d.Fits() && AllFit(trace + [d]) && AllFit(more) && again.Fits()
    requires AllFit(trace + [d] + more)
    requires d.id < 0 && again.id < 0 && again.key == d.key && i < n
    requires SlotFor(Run(hz, n, trace), d.key) == Some(i)
    requires AllPass(hz, n, trace + [d], more, d.key, i)
    ensures var first := Receive(hz, Run(hz, n, trace), d);
      var second := Receive(hz, Run(hz, n, trace + [d] + more), again);
      && first.reply.Some? && second.reply == first.reply
      && second.table == Run(hz, n, trace + [d] + more)
  {
    hide Receive, AllPass;
    var t := Run(hz, n, trace + [d] + more);
    var _ := SlotReport(hz, n, trace, i);
    RunStep(hz, n, trace, d);
    FirstAnswer(hz, Run(hz, n, trace), d, i);
    RunStaysSettled(hz, n, trace + [d], more, d.key, i);
    SecondAnswer(hz, t, again, i);
  }

  lemma SecondAnswer(hz: nat, table: seq<Session>, d: Datagram, i: nat)
    requires 0 < hz && d.Fits() && TimesFit(table) && d.id < 0 && Settled(table, d.key, i)
    ensures Receive(hz, table, d) == Received(table, Some(table[i].report))
  {
    assert table[i].(key := d.key) == table[i] && table[i := table[i]] == table;
  }

  // When a slot holds a running session, over whole runs

  /** The last datagram of the run that was given slot i. */
  function LastGiven(hz: nat, n: nat, trace: Trace, i: nat): (last: Option<nat>)
    requires 0 < hz && AllFit(trace)
    ensures last.Some? ==> last.value < |trace|
  {
    if trace == [] then None
    else
      var m := |trace| - 1;
      if SlotFor(Run(hz, n, trace[..m]), trace[m].key) == Some(i) then Some(m)
      else LastGiven(hz, n, trace[..m], i)
  }

  /** One datagram, seen from every slot: it begins or goes on with a session in its own slot when
      its id is not negative, ends or leaves it closed otherwise, and touches no other slot. */
  lemma SlotStep(hz: nat, table: seq<Session>, d: Datagram, i: nat)
    requires 0 < hz && d.Fits() && TimesFit(table) && i < |table| && table[i].state != LastPacketReceived
    ensures var s, s' := table[i], Receive(hz, table, d).table[i];
      && s'.state != LastPacketReceived
      && (SlotFor(table, d.key) == Some(i) ==> s'.key == d.key && (s'.state == Ongoing <==> d.id >= 0))
      && (SlotFor(table, d.key) != Some(i) ==> s' == s)
    ensures SlotFor(table, d.key) == Some(i) ==> (Receive(hz, table, d).reply.Some? <==> d.id < 0)
    ensures SlotFor(table, d.key).None? ==> Receive(hz, table, d) == Received(table, None)
  {
    hide Count, Summary;
  }

  /** In every run a slot holds a running session exactly when the last datagram given that slot
      had an id that is not negative, and the session is of that datagram's flow.  So only a
      negative id ends a session, and any other id begins one where none is running. */
  lemma {:induction false} SlotState(hz: nat, n: nat, trace: Trace, i: nat)
    requires 0 < hz && AllFit(trace) && i < n
    ensures var s, last := Run(hz, n, trace)[i], LastGiven(hz, n, trace, i);
      && s.state != LastPacketReceived
      && (s.state == Ongoing <==> last.Some? && trace[last.value].id >= 0)
      && s.key == (if last.Some? then trace[last.value].key else Key(0, 0))
  {
    hide Receive, SlotFor;
    if trace != [] {
      var m := |trace| - 1;
      SlotState(hz, n, trace[..m], i);
      SlotStep(hz, Run(hz, n, trace[..m]), trace[m], i);
    }
  }

  /** Some datagram with an id that is not negative was given slot i after the last one that ended
      a session there. */
  ghost predicate BegunSinceEnd(hz: nat, n: nat, trace: Trace, i: nat)
    requires 0 < hz && AllFit(trace) && i < n
  {
    exists k :: 0 <= k < |trace| && trace[k].id >= 0 && GivenAt(hz, n, trace, i, k) && AfterEnd(hz, n, trace, i, k)
  }

  predicate GivenAt(hz: nat, n: nat, trace: Trace, i: nat, k: nat)
    requires 0 < hz && AllFit(trace) && k < |trace|
  {
    SlotFor(Run(hz, n, trace[..k]), trace[k].key) == Some(i)
  }

  predicate AfterEnd(hz: nat, n: nat, trace: Trace, i: nat, k: nat)
    requires 0 < hz && AllFit(trace) && i < n
  {
    EndedAt(hz, n, trace, i).Some? ==> EndedAt(hz, n, trace, i).value < k
  }

  /** The same in terms of ends. */
  lemma {:induction false} RunningSinceEnd(hz: nat, n: nat, trace: Trace, i: nat)
    requires 0 < hz && AllFit(trace) && i < n
    ensures Run(hz, n, trace)[i].state == Ongoing <==> BegunSinceEnd(hz, n, trace, i)
  {
    hide Receive, SlotFor, Run;
    if trace == [] {
      NothingRunning(hz, n, i);
    } else {
      var m := |trace| - 1;
      var before, d := trace[..m], trace[m];
      RunningSinceEnd(hz, n, before, i);
      SlotState(hz, n, before, i);
      RunKeepsFindable(hz, n, before);
      SlotStep(hz, Run(hz, n, before), d, i);
      EndIsGiven(Run(hz, n, before), d, i);
      assert before + [d] == trace;
      RunStep(hz, n, before, d);
      forall k | 0 <= k < m
        ensures GivenAt(hz, n, trace, i, k) == GivenAt(hz, n, before, i, k)
      {
        assert trace[..k] == before[..k];
      }
      if GivenAt(hz, n, trace, i, m) && d.id >= 0 {
        assert AfterEnd(hz, n, trace, i, m);
      } else if Ends(Run(hz, n, before)[i], d) {
        assert EndedAt(hz, n, trace, i) == Some(m);
      } else {
        SameSince(hz, n, trace, i);
        if GivenAt(hz, n, trace, i, m) {
          RunningSlotIsOwn(Run(hz, n, before), d.key, i);
        }
      }
    }
  }

  /** Nothing happened to slot i at the end of the trace. */
  lemma SameSince(hz: nat, n: nat, trace: Trace, i: nat)
    requires 0 < hz && AllFit(trace) && i < n && trace != []
    requires var m := |trace| - 1;
      && !Ends(Run(hz, n, trace[..m])[i], trace[m])
      && !(GivenAt(hz, n, trace, i, m) && trace[m].id >= 0)
    ensures BegunSinceEnd(hz, n, trace, i) <==> BegunSinceEnd(hz, n, trace[..|trace| - 1], i)
  {
    hide Run, SlotFor;
    var m := |trace| - 1;
    var before := trace[..m];
    assert EndedAt(hz, n, trace, i) == EndedAt(hz, n, before, i);
    forall k | 0 <= k < m
      ensures GivenAt(hz, n, trace, i, k) == GivenAt(hz, n, before, i, k)
      ensures AfterEnd(hz, n, trace, i, k) == AfterEnd(hz, n, before, i, k)
    {
      assert trace[..k] == before[..k];
    }
    if k :| 0 <= k < m && before[k].id >= 0 && GivenAt(hz, n, before, i, k) && AfterEnd(hz, n, before, i, k) {
      assert GivenAt(hz, n, trace, i, k) && AfterEnd(hz, n, trace, i, k);
    }
    if k :| 0 <= k < m && trace[k].id >= 0 && GivenAt(hz, n, trace, i, k) && AfterEnd(hz, n, trace, i, k) {
      assert GivenAt(hz, n, before, i, k) && AfterEnd(hz, n, before, i, k);
    }
  }

  lemma NothingRunning(hz: nat, n: nat, i: nat)
    requires 0 < hz && i < n
    ensures Run(hz, n, [])[i].state != Ongoing
  {
  }

  lemma EndIsGiven(table: seq<Session>, d: Datagram, i: nat)
    requires Findable(table) && i < |table|
    ensures Ends(table[i], d) ==> SlotFor(table, d.key) == Some(i)
  {
  }

  /** In every run a datagram is given a slot exactly when its flow has one or one holds no running
      session; it is the flow's first if it has any, and otherwise the first that is not running.
      It is answered exactly when it has a negative id, and without a slot nothing happens. */
  lemma SlotGiven(hz: nat, n: nat, trace: Trace, d: Datagram)
    requires 0 < hz && AllFit(trace) && d.Fits()
    ensures var table := Run(hz, n, trace);
      var slot := SlotFor(table, d.key);
      && (slot.Some? <==> exists i :: 0 <= i < n && (table[i].key == d.key || table[i].state != Ongoing))
      && (slot.Some? ==>
        && slot.value < n
        && (table[slot.value].key == d.key || table[slot.value].state != Ongoing)
        && (table[slot.value].key != d.key ==> forall j :: 0 <= j < n ==> table[j].key != d.key)
        && forall j :: 0 <= j < slot.value ==>
          table[j].key != d.key && (table[slot.value].key == d.key || table[j].state == Ongoing))
      && (Receive(hz, table, d).reply.Some? <==> slot.Some? && d.id < 0)
      && (slot.None? ==> Receive(hz, table, d).table == table)
  {
    hide Receive, Run;
    var table := Run(hz, n, trace);
    forall i | 0 <= i < n
      ensures IsFree(table[i]) <==> table[i].state != Ongoing
    {
      SlotState(hz, n, trace, i);
    }
    var slot := SlotFor(table, d.key);
    if slot.Some? {
      SlotState(hz, n, trace, slot.value);
      SlotStep(hz, table, d, slot.value);
    } else if n > 0 {
      SlotState(hz, n, trace, 0);
      SlotStep(hz, table, d, 0);
    } else {
      NoTable(hz, table, d);
    }
  }

  lemma NoTable(hz: nat, table: seq<Session>, d: Datagram)
    requires 0 < hz && d.Fits() && TimesFit(table) && SlotFor(table, d.key).None?
    ensures Receive(hz, table, d) == Received(table, None)
  {
  }

  /** A run in which the answer is about another flow: flow 1 sends three datagrams, one of them
      data, and flow 2 is then told that one datagram arrived. */
  lemma ForeignReport(hz: nat, n: nat)
    requires 0 < hz && 0 < n
    ensures var one, two := Key(1, 1), Key(2, 2);
      var trace := [Datagram(one, 0, 0, 0, 0), Datagram(one, 0, 100, 0, 0), Datagram(one, -1, 0, 0, 0)];
      var reply := Receive(hz, Run(hz, n, trace), Datagram(two, -1, 0, 0, 0)).reply;
      reply.Some? && reply.value.datagrams == 1 && Own(trace, two) == []
  {
    var one, two := Key(1, 1), Key(2, 2);
    var trace := [Datagram(one, 0, 0, 0, 0), Datagram(one, 0, 100, 0, 0), Datagram(one, -1, 0, 0, 0)];
    var t2, t3 := Run(hz, n, trace[..2]), Run(hz, n, trace);
    FlowOne(hz, n);
    assert trace[..2] == [trace[0], trace[1]];
    assert t3 == Receive(hz, t2, trace[2]).table;
    assert t3[0].state == Completed && t3[0].report.datagrams == 1;
    assert forall j :: 0 < j < n ==> t3[j] == t2[j];
    NoSlot(t3, two, 0);
    assert Own(trace[..1], two) == Own(trace[..1][..0], two);
    assert Own(trace[..2], two) == Own(trace[..2][..1], two);
    assert Own(trace, two) == Own(trace[..2], two);
  }

  /** The session of flow 1 in that run, before it ends. */
  lemma FlowOne(hz: nat, n: nat)
    requires 0 < hz && 0 < n
    ensures var one := Key(1, 1);
      var t := Run(hz, n, [Datagram(one, 0, 0, 0, 0), Datagram(one, 0, 100, 0, 0)]);
      && |t| == n && t[0].state == Ongoing && t[0].key == one && t[0].stats.counter == 1
      && forall j :: 0 < j < n ==> t[j] == Init(n)[j]
  {
    var one := Key(1, 1);
    var trace := [Datagram(one, 0, 0, 0, 0), Datagram(one, 0, 100, 0, 0)];
    var t0, t1 := Init(n), Run(hz, n, trace[..1]);
    assert trace[..1][..0] == [] && trace[..1][0] == trace[0];
    NoSlot(t0, one, 0);
    assert Run(hz, n, trace[..1][..0]) == t0;
    assert t1 == Receive(hz, t0, trace[0]).table;
    assert t1[0].state == Ongoing && t1[0].key == one && t1[0].stats == ZERO_STATS;
    assert Run(hz, n, trace) == Receive(hz, t1, trace[1]).table;
  }

  lemma {:induction false} NoSlot(table: seq<Session>, key: Key, i: nat)
    requires i <= |table| && forall j :: i <= j < |table| ==> table[j].key != key
    ensures Lookup(table, key, i).None?
    decreases |table| - i
  {
    if i < |table| {
      NoSlot(table, key, i + 1);
    }
  }
}
