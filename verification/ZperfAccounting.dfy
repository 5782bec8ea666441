/** What the counters of a zperf session account for: losses, reordering and bytes. */
module ZperfAccounting {
  import opened MachineIntegers
  import opened ZperfTime
  import opened ZperfReceiver
  import opened ZperfFlows

  predicate DataOnly(own: Trace) {
    AllFit(own) && forall i :: 0 <= i < |own| ==> own[i].id >= 0
  }

  function Ids(own: Trace): set<int> {
    set i | 0 <= i < |own| :: own[i].id
  }

  predicate Distinct(own: Trace) {
    forall i, j :: 0 <= i < j < |own| ==> own[i].id != own[j].id
  }

  /** The ids below the next expected one that are not among these datagrams. */
  function Missing(own: Trace, nextId: nat): set<int> {
    Below(nextId) - Ids(own)
  }

  function Below(n: nat): (s: set<int>)
    ensures |s| == n
    ensures forall x :: x in s <==> 0 <= x < n
  {
    if n == 0 then {} else Below(n - 1) + {n - 1}
  }

  /** How many datagrams came after one with an id as high or higher. */
  function Overtaken(own: Trace): (n: nat)
    ensures n <= |own|
  {
    if own == [] then 0
    else
      var m := |own| - 1;
      Overtaken(own[..m]) + if exists i :: 0 <= i < m && own[i].id >= own[m].id then 1 else 0
  }

  lemma IdsAppend(own: Trace)
    requires own != []
    ensures var m := |own| - 1; Ids(own) == Ids(own[..m]) + {own[m].id}
  {
    var m := |own| - 1;
    forall x | x in Ids(own)
      ensures x in Ids(own[..m]) + {own[m].id}
    {
      var i :| 0 <= i < |own| && own[i].id == x;
      if i < m {
        assert own[..m][i].id == x;
      }
    }
    forall x | x in Ids(own[..m])
      ensures x in Ids(own)
    {
      var i :| 0 <= i < m && own[..m][i].id == x;
      assert own[i].id == x;
    }
  }

  /** The counters of any session balance: nextId is one above the highest id counted, counter and
      outorder count the datagrams and those overtaken.  Only counter and outorder can wrap, and
      they do so exactly modulo 2^32. */
  lemma {:induction false} Balance(hz: nat, own: Trace)
    requires 0 < hz && DataOnly(own)
    ensures var t := Totals(hz, own);
      && 0 <= t.error <= t.nextId <= TWO31
      && t.counter == U32(|own|) && t.outorder == U32(Overtaken(own))
      && t.nextId + Overtaken(own) == |own| + t.error
      && (forall x :: x in Ids(own) ==> 0 <= x < t.nextId)
      && (if own == [] then t.nextId == 0 else t.nextId - 1 in Ids(own))
  {
    hide Count, U32, Ids;
    if own == [] {
      NoIds();
    } else {
      var m := |own| - 1;
      var before := own[..m];
      Balance(hz, before);
      IdsAppend(own);
      WrapNext(m);
      WrapNext(Overtaken(before));
      CountStep(hz, Totals(hz, before), own[m]);
      HighestIs(before, Totals(hz, before).nextId, own[m].id);
      OvertakenAppend(own);
    }
  }

  lemma OvertakenAppend(own: Trace)
    requires own != []
    ensures var m := |own| - 1;
      Overtaken(own) == Overtaken(own[..m]) + if exists i :: 0 <= i < m && own[..m][i].id >= own[m].id then 1 else 0
  {
    var m := |own| - 1;
    assert forall i :: 0 <= i < m ==> own[..m][i] == own[i];
  }

  /** One datagram counted, while error and nextId are in range. */
  lemma CountStep(hz: nat, s: Stats, d: Datagram)
    requires 0 < hz && d.Fits() && 0 <= d.id && 0 <= s.error <= s.nextId <= TWO31
    ensures var t := Count(hz, s, d);
      && t.counter == U32(s.counter + 1)
      && t.outorder == (if d.id < s.nextId then U32(s.outorder + 1) else s.outorder)
      && t.nextId == (if d.id < s.nextId then s.nextId else d.id + 1)
      && t.error == (if d.id < s.nextId then s.error else s.error + (d.id - s.nextId))
  {
    hide Jitter, Transit, U64;
  }

  /** Below the highest id so far means overtaken. */
  lemma HighestIs(own: Trace, next: int, id: int)
    requires forall x :: x in Ids(own) ==> x < next
    requires own != [] ==> next - 1 in Ids(own)
    requires own == [] ==> next == 0 && id >= 0
    ensures id < next <==> exists i :: 0 <= i < |own| && own[i].id >= id
  {
    if own != [] && id < next {
      var i :| 0 <= i < |own| && own[i].id == next - 1;
      assert own[i].id >= id;
    }
    if i :| 0 <= i < |own| && own[i].id >= id {
      assert own[i].id in Ids(own);
    }
  }

  function TotalSize(own: Trace): nat {
    if own == [] then 0 else TotalSize(own[..|own| - 1]) + own[|own| - 1].size
  }

  /** length is the number of bytes in the datagrams counted, modulo 2^64. */
  lemma {:induction false} LengthCounts(hz: nat, own: Trace)
    requires 0 < hz && AllFit(own)
    ensures Totals(hz, own).length == U64(TotalSize(own))
  {
    hide Jitter, Transit, U32, U64;
    if own == [] {
      NoBytes();
    } else {
      var m := |own| - 1;
      LengthCounts(hz, own[..m]);
      WrapAdd(TotalSize(own[..m]), own[m].size);
    }
  }

  lemma NoBytes()
    ensures U64(0) == 0
  {
  }

  lemma NoIds()
    ensures Ids([]) == {}
  {
  }

  lemma WrapNext(x: nat)
    ensures U32(U32(x) + 1) == U32(x + 1)
  {
  }

  lemma {:induction false} DistinctIds(own: Trace)
    ensures |Ids(own)| <= |own| && (Distinct(own) <==> |Ids(own)| == |own|)
  {
    if own == [] {
      assert Ids(own) == {};
    } else {
      var m := |own| - 1;
      DistinctIds(own[..m]);
      IdsAppend(own);
      if own[m].id in Ids(own[..m]) {
        var i :| 0 <= i < m && own[..m][i].id == own[m].id;
        assert own[i].id == own[m].id;
      } else if Distinct(own[..m]) {
        forall i, j | 0 <= i < j < |own|
          ensures own[i].id != own[j].id
        {
          if j < m {
            assert own[..m][i].id != own[..m][j].id;
          } else {
            assert own[..m][i].id in Ids(own[..m]);
          }
        }
      } else {
        var i, j :| 0 <= i < j < m && own[..m][i].id == own[..m][j].id;
        assert own[i].id == own[j].id;
      }
    }
  }

  /** error minus outorder is the number of ids below nextId that are not among the datagrams
      counted, less the number of repetitions; so it is that number exactly when no id was
      counted twice. */
  lemma LossCount(hz: nat, own: Trace)
    requires 0 < hz && DataOnly(own) && |own| < TWO32
    ensures var t := Totals(hz, own);
      && t.error - t.outorder == |Missing(own, t.nextId)| - (|own| - |Ids(own)|)
      && (t.error - t.outorder == |Missing(own, t.nextId)| <==> Distinct(own))
  {
    hide Totals, Ids, Overtaken, Distinct;
    var t := Totals(hz, own);
    Balance(hz, own);
    DistinctIds(own);
    var all := Below(t.nextId);
    assert all == Ids(own) + Missing(own, t.nextId);
  }

  /** How much the datagram that opened the session, which is received but not counted, is
      mistaken for a loss. */
  function Mistaken(open: Datagram, own: Trace, nextId: nat): nat {
    if open.id in Missing(own, nextId) then 1 else 0
  }

  /** Over the whole session, opening datagram included: error minus outorder is the number of ids
      below nextId never received, one more if the opening one's is below nextId and not counted
      later, less the repetitions.  So it is the number lost exactly when these two cancel out. */
  lemma SessionLosses(hz: nat, open: Datagram, own: Trace)
    requires 0 < hz && open.Fits() && DataOnly(own) && |own| < TWO32
    ensures var t := Totals(hz, own);
      var lost := Missing([open] + own, t.nextId);
      var mistaken, repeated := Mistaken(open, own, t.nextId), |own| - |Ids(own)|;
      && t.error - t.outorder == |lost| + mistaken - repeated
      && (t.error - t.outorder == |lost| <==> repeated == mistaken)
  {
    hide Totals, Distinct, Ids;
    LossCount(hz, own);
    Balance(hz, own);
    var t := Totals(hz, own);
    IdsPrepend(open, own);
    var lost, missing := Missing([open] + own, t.nextId), Missing(own, t.nextId);
    assert lost == missing - {open.id};
    assert open.id in missing ==> missing == lost + {open.id};
    assert open.id !in missing ==> missing == lost;
  }

  lemma IdsPrepend(open: Datagram, own: Trace)
    ensures Ids([open] + own) == {open.id} + Ids(own)
  {
    var all := [open] + own;
    assert all[0] == open && forall i :: 0 <= i < |own| ==> all[i + 1] == own[i];
    forall x | x in Ids(own)
      ensures x in Ids(all)
    {
      var i :| 0 <= i < |own| && own[i].id == x;
      assert all[i + 1].id == x;
    }
  }

  /** So in every run, a running session's error and outorder count the losses of its own flow
      since and including the datagram that began the session, in that sense. */
  lemma RunningSessionLosses(hz: nat, n: nat, trace: Trace, i: nat) returns (start: nat)
    requires 0 < hz && AllFit(trace) && i < n
    requires Run(hz, n, trace)[i].state == Ongoing
    ensures start < |trace| && BegunBy(hz, Run(hz, n, trace), trace, i, start)
    ensures var s := Run(hz, n, trace)[i];
      var open, own := trace[start], Own(trace[start + 1..], s.key);
      && s.stats.nextId >= 0
      && (|own| < TWO32 ==>
        var lost := Missing([open] + own, s.stats.nextId);
        var mistaken, repeated := Mistaken(open, own, s.stats.nextId), |own| - |Ids(own)|;
        && s.stats.error - s.stats.outorder == |lost| + mistaken - repeated
        && (s.stats.error - s.stats.outorder == |lost| <==> repeated == mistaken))
  {
    hide Totals, Ids, Missing, Mistaken, Distinct, Run, Own;
    start := FlowIsolation(hz, n, trace, i);
    var own := Own(trace[start + 1..], Run(hz, n, trace)[i].key);
    assert forall k :: 0 <= k < |own| ==> own[k] in own;
    Balance(hz, own);
    if |own| < TWO32 {
      SessionLosses(hz, trace[start], own);
    }
  }

  /** A run that loses nothing and reports a loss: ids 0, 1 and 2 arrive once each and in order. */
  lemma LosslessRun(hz: nat)
    requires 0 < hz
    ensures var key := Key(1, 1);
      var trace := [Datagram(key, 0, 0, 0, 0), Datagram(key, 1, 0, 0, 0), Datagram(key, 2, 0, 0, 0)];
      var s := Run(hz, 1, trace)[0];
      && s.state == Ongoing && s.key == key && s.stats.nextId == 3
      && s.stats.error == 1 && s.stats.outorder == 0 && s.stats.counter == 2
      && Missing(trace, 3) == {}
  {
    var key := Key(1, 1);
    var trace := [Datagram(key, 0, 0, 0, 0), Datagram(key, 1, 0, 0, 0), Datagram(key, 2, 0, 0, 0)];
    var t2 := Run(hz, 1, trace[..2]);
    FirstTwo(hz);
    assert trace[..2] == [trace[0], trace[1]];
    assert Run(hz, 1, trace) == Receive(hz, t2, trace[2]).table;
    assert trace[0].id in Ids(trace) && trace[1].id in Ids(trace) && trace[2].id in Ids(trace);
  }

  lemma FirstTwo(hz: nat)
    requires 0 < hz
    ensures var key := Key(1, 1);
      var t := Run(hz, 1, [Datagram(key, 0, 0, 0, 0), Datagram(key, 1, 0, 0, 0)]);
      && |t| == 1 && t[0].state == Ongoing && t[0].key == key
      && t[0].stats.nextId == 2 && t[0].stats.error == 1 && t[0].stats.outorder == 0 && t[0].stats.counter == 1
  {
    var key := Key(1, 1);
    var trace := [Datagram(key, 0, 0, 0, 0), Datagram(key, 1, 0, 0, 0)];
    var t0, t1 := Init(1), Run(hz, 1, trace[..1]);
    assert trace[..1][..0] == [] && trace[..1][0] == trace[0];
    assert Run(hz, 1, trace[..1][..0]) == t0;
    assert t1 == Receive(hz, t0, trace[0]).table;
    assert t1[0].state == Ongoing && t1[0].key == key && t1[0].stats == ZERO_STATS;
    assert Run(hz, 1, trace) == Receive(hz, t1, trace[1]).table;
  }
}
