/** The receiver over whole runs: flows do not disturb each other's statistics. */
module ZperfFlows {
  import opened MachineIntegers
  import opened ZperfTime
  import opened ZperfReceiver
  import opened Options

  type Trace = seq<Datagram>

  predicate AllFit(trace: Trace) {
    forall i :: 0 <= i < |trace| ==> trace[i].Fits()
  }

  /** The table after all datagrams of the trace. */
  function Run(hz: nat, n: nat, trace: Trace): (table: seq<Session>)
    requires 0 < hz && AllFit(trace)
    ensures |table| == n && TimesFit(table)
  {
    if trace == [] then Init(n)
    else Receive(hz, Run(hz, n, trace[..|trace| - 1]), trace[|trace| - 1]).table
  }

  /** The datagrams of one flow, in order. */
  function Own(trace: Trace, key: Key): (own: Trace)
    ensures AllFit(trace) ==> AllFit(own)
    ensures forall i :: 0 <= i < |own| ==> own[i] in trace && own[i].key == key
  {
    if trace == [] then []
    else
      var last := trace[|trace| - 1];
      Own(trace[..|trace| - 1], key) + if last.key == key then [last] else []
  }

  /** The receive step folded over the datagrams of one session. */
  function Totals(hz: nat, own: Trace): Stats
    requires 0 < hz && AllFit(own)
  {
    if own == [] then ZERO_STATS
    else Count(hz, Totals(hz, own[..|own| - 1]), own[|own| - 1])
  }

  /** A running session's slot is the one its flow finds. */
  predicate Findable(table: seq<Session>) {
    forall i :: 0 <= i < |table| && table[i].state == Ongoing ==> Lookup(table, table[i].key) == Some(i)
  }

  lemma LookupIs(table: seq<Session>, key: Key, i: nat)
    requires i < |table| && table[i].key == key
    requires forall j :: 0 <= j < i ==> table[j].key != key
    ensures Lookup(table, key) == Some(i)
  {
  }

  /** Handing out a slot never disturbs a running session, nor the way to it. */
  lemma ReceiveKeepsFindable(hz: nat, table: seq<Session>, d: Datagram)
    requires 0 < hz && d.Fits() && TimesFit(table) && Findable(table)
    ensures Findable(Receive(hz, table, d).table)
  {
    var after := Receive(hz, table, d).table;
    var slot := SlotFor(table, d.key);
    forall i | 0 <= i < |after| && after[i].state == Ongoing
      ensures Lookup(after, after[i].key) == Some(i)
    {
      if slot == Some(i) {
        assert forall j :: 0 <= j < i ==> table[j].key != d.key;
      } else {
        assert Lookup(table, table[i].key) == Some(i);
        assert slot.Some? ==> after[slot.value].key == d.key;
      }
      LookupIs(after, after[i].key, i);
    }
  }

  lemma {:induction false} RunKeepsFindable(hz: nat, n: nat, trace: Trace)
    requires 0 < hz && AllFit(trace)
    ensures Findable(Run(hz, n, trace))
  {
    if trace != [] {
      var before := trace[..|trace| - 1];
      RunKeepsFindable(hz, n, before);
      ReceiveKeepsFindable(hz, Run(hz, n, before), trace[|trace| - 1]);
    }
  }

  /** Slot i holds a session begun by datagram number `start`, and its statistics are those of
      the flow's own datagrams after that one, whatever other flows sent in between. */
  predicate BegunBy(hz: nat, table: seq<Session>, trace: Trace, i: nat, start: nat)
    requires 0 < hz && AllFit(trace) && i < |table|
  {
    && start < |trace| && trace[start].key == table[i].key && trace[start].id >= 0
    && table[i].startTime == U32(trace[start].time)
    && (forall d :: d in Own(trace[start + 1..], table[i].key) ==> d.id >= 0)
    && table[i].stats == Totals(hz, Own(trace[start + 1..], table[i].key))
  }

  /** One datagram, seen from a slot that holds a running session afterwards. */
  lemma OngoingStep(hz: nat, table: seq<Session>, d: Datagram, i: nat)
    requires 0 < hz && d.Fits() && TimesFit(table) && Findable(table) && i < |table|
    ensures var s, s' := table[i], Receive(hz, table, d).table[i];
      s'.state == Ongoing ==>
        if s.state != Ongoing then
          s'.key == d.key && d.id >= 0 && s'.startTime == U32(d.time) && s'.stats == ZERO_STATS
        else if d.key == s.key then d.id >= 0 && s' == s.(stats := Count(hz, s.stats, d))
        else s' == s
  {
    hide Count, Summary;
    if table[i].state == Ongoing {
      assert Lookup(table, table[i].key) == Some(i);
      assert table[i].(key := table[i].key) == table[i];
    }
  }

  lemma {:induction false} FlowIsolation(hz: nat, n: nat, trace: Trace, i: nat) returns (start: nat)
    requires 0 < hz && AllFit(trace) && i < n && Run(hz, n, trace)[i].state == Ongoing
    ensures BegunBy(hz, Run(hz, n, trace), trace, i, start)
    ensures Lookup(Run(hz, n, trace), Run(hz, n, trace)[i].key) == Some(i)
    decreases |trace|
  {
    hide Receive, Count, Own, Lookup;
    RunKeepsFindable(hz, n, trace);
    var m := |trace| - 1;
    var before, d := trace[..m], trace[m];
    var table := Run(hz, n, before);
    RunKeepsFindable(hz, n, before);
    OngoingStep(hz, table, d, i);
    if table[i].state == Ongoing {
      start := FlowIsolation(hz, n, before, i);
      OwnAppend(trace, start, table[i].key);
      var own := Own(before[start + 1..], table[i].key);
      assert own + [] == own && (own + [d])[..|own|] == own;
    } else {
      start := m;
      NoneOwn(d.key);
      assert trace[m + 1..] == [];
    }
  }

  lemma NoneOwn(key: Key)
    ensures Own([], key) == []
  {
  }

  /** How the last datagram extends a flow's own datagrams. */
  lemma OwnAppend(trace: Trace, start: nat, key: Key)
    requires start + 1 < |trace|
    ensures var m := |trace| - 1;
      Own(trace[start + 1..], key) == Own(trace[..m][start + 1..], key) + if trace[m].key == key then [trace[m]] else []
  {
    var m := |trace| - 1;
    var tail := trace[start + 1..];
    assert tail[..|tail| - 1] == trace[..m][start + 1..];
  }

  /** The end of a session is answered with the totals of exactly that session's datagrams. */
  lemma EndReport(hz: nat, n: nat, trace: Trace, d: Datagram, i: nat) returns (start: nat)
    requires 0 < hz && AllFit(trace) && d.Fits() && d.id < 0 && i < n
    requires Run(hz, n, trace)[i].state == Ongoing && Run(hz, n, trace)[i].key == d.key
    ensures start < |trace| && trace[start].key == d.key && trace[start].id >= 0
    ensures var totals := Totals(hz, Own(trace[start + 1..], d.key));
      Receive(hz, Run(hz, n, trace), d).reply == Some(Report(
        U32(CyclesToUsec(hz, TimeDelta(U32(trace[start].time), U32(d.time)))),
        totals.error, totals.outorder, totals.counter, totals.jitter))
  {
    start := FlowIsolation(hz, n, trace, i);
    var table := Run(hz, n, trace);
    assert table[i].(key := d.key) == table[i];
  }
}
