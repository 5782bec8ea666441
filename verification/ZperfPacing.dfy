/** The send loop of the zperf UDP uploader: how it keeps to its rate.

    The clock is an input: `clock` lists what successive calls of k_cycle_get_32 return, as
    unbounded times; the program sees them modulo 2^32.  The model stops when the list ends. */
module ZperfPacing {
  import opened MachineIntegers
  import opened ZperfTime

  /** The correction of the delay between two datagrams, in the source's u32 and s32. */
  function NextDelay(period: int, delay: int, last: int, now: int): (d: int)
    requires 0 <= last < TWO32 && 0 <= now < TWO32
  {
    var adjust := if last != now then S32(U32(period - TimeDelta(last, now))) else 0;
    if adjust >= 0 || U32(-adjust) < delay then U32(delay + adjust) else 0
  }

  /** The correction is what it should be, exactly as long as the loop took at most half a turn
      of the clock longer than the packet period, or the delay makes up for it; beyond that the
      sign is lost and the loop waits when it should hurry. */
  lemma NextDelayExact(period: int, delay: int, last: int, now: int)
    requires 0 <= period < TWO31 && 0 <= delay <= 2 * period
    requires 0 <= last < TWO32 && 0 <= now < TWO32 && last != now
    requires delay <= period || delay <= TimeDelta(last, now)
    ensures var took := TimeDelta(last, now);
      NextDelay(period, delay, last, now) == (if delay + period >= took then delay + period - took else 0)
      <==> took <= period + TWO31 || took <= delay + period
  {
    var x := period - TimeDelta(last, now);
    assert U32(x) == if x >= 0 then x else x + TWO32;
    WrapSigned(U32(x));
  }

  lemma WrapSigned(x: int)
    requires 0 <= x < TWO32
    ensures S32(x) == if x < TWO31 then x else x - TWO32
  {
  }

  datatype Plan = Plan(period: int, duration: int, sends: nat -> bool)
  {
    predicate Fits() {
      0 <= period < TWO31 && 0 <= duration < TWO32
    }
  }

  /** A datagram sent: the loop's time stamp and the delay chosen after it. */
  datatype Sent = Sent(time: nat, delay: int)

  /** The first clock reading from j on that ends the wait; the reading after it comes next. */
  function WaitEnd(clock: seq<nat>, j: nat, since: nat, delay: int): (end: nat)
    requires j <= |clock|
    ensures j <= end <= |clock|
    decreases |clock| - j
  {
    if j == |clock| then j
    else if TimeDelta(U32(since), U32(clock[j])) < delay then WaitEnd(clock, j + 1, since, delay)
    else j + 1
  }

  /** The loop from clock reading j on, when n datagrams have been sent. */
  function Loop(plan: Plan, clock: seq<nat>, start: nat, j: nat, last: nat, delay: int, n: nat): (sent: seq<Sent>)
    requires j <= |clock|
    decreases |clock| - j
  {
    if j == |clock| || !plan.sends(n) then []
    else
      var now := clock[j];
      var next := NextDelay(plan.period, delay, U32(last), U32(now));
      [Sent(now, next)] +
      if TimeDelta(U32(start), U32(now)) >= plan.duration then []
      else Loop(plan, clock, start, WaitEnd(clock, j + 1, now, next), now, next, n + 1)
  }

  function Upload(plan: Plan, clock: seq<nat>): seq<Sent> {
    if clock == [] then [] else Loop(plan, clock, clock[0], 1, clock[0], plan.period, 0)
  }

  /** The algorithm that maintains the baud rate. */
  method AdjustDelay(period: int, before: int, lastLoopTime: int, loopTime: int) returns (delay: int)
    requires 0 <= lastLoopTime < TWO32 && 0 <= loopTime < TWO32
    ensures delay == NextDelay(period, before, lastLoopTime, loopTime)
  {
    var adjust;
    if lastLoopTime != loopTime {
      adjust := S32(U32(period - TimeDelta(lastLoopTime, loopTime)));
    } else {
      adjust := 0;
    }
    delay := before;
    if adjust >= 0 || U32(-adjust) < delay {
      delay := U32(delay + adjust);
    } else {
      delay := 0;
    }
  }

  /** The wait for the delay to pass. */
  method Wait(clock: seq<nat>, from: nat, loopTime: nat, delay: int) returns (j: nat)
    requires from <= |clock|
    ensures j == WaitEnd(clock, from, loopTime, delay)
  {
    j := from;
    var waiting := true;
    while waiting && j < |clock|
      invariant from <= j <= |clock|
      invariant WaitEnd(clock, from, loopTime, delay) == if waiting then WaitEnd(clock, j, loopTime, delay) else j
      decreases |clock| - j, waiting
    {
      waiting := TimeDelta(U32(loopTime), U32(clock[j])) < delay;
      j := j + 1;
    }
  }

  /** zperf_udp_upload. */
  method UdpUpload(plan: Plan, clock: seq<nat>) returns (sent: seq<Sent>)
    ensures sent == Upload(plan, clock)
  {
    hide Loop, WaitEnd, NextDelay, TimeDelta, U32;
    sent := [];
    if clock == [] {
      return;
    }
    var start := clock[0];
    var lastLoopTime, delay, j, more := start, plan.period, 1, true;
    while more && j < |clock| && plan.sends(|sent|)
      invariant 1 <= j <= |clock|
      invariant Upload(plan, clock) ==
        sent + if more then Loop(plan, clock, start, j, lastLoopTime, delay, |sent|) else []
      decreases |clock| - j, more
    {
      LoopUnfold(plan, clock, start, j, lastLoopTime, delay, sent);
      var loopTime := clock[j];
      delay := AdjustDelay(plan.period, delay, U32(lastLoopTime), U32(loopTime));
      lastLoopTime := loopTime;
      sent := sent + [Sent(loopTime, delay)];
      j := Wait(clock, j + 1, loopTime, delay);
      more := TimeDelta(U32(start), U32(lastLoopTime)) < plan.duration;
    }
    if more {
      LoopEnds(plan, clock, start, j, lastLoopTime, delay, |sent|);
    }
  }

  lemma LoopUnfold(plan: Plan, clock: seq<nat>, start: nat, j: nat, last: nat, delay: int, sent: seq<Sent>)
    requires j < |clock| && plan.sends(|sent|)
    ensures var now := clock[j];
      var next := NextDelay(plan.period, delay, U32(last), U32(now));
      sent + Loop(plan, clock, start, j, last, delay, |sent|) == (sent + [Sent(now, next)]) +
        if TimeDelta(U32(start), U32(now)) < plan.duration
        then Loop(plan, clock, start, WaitEnd(clock, j + 1, now, next), now, next, |sent| + 1) else []
  {
    hide WaitEnd, NextDelay, TimeDelta, U32;
  }

  lemma LoopEnds(plan: Plan, clock: seq<nat>, start: nat, j: nat, last: nat, delay: int, n: nat)
    requires j <= |clock| && (j == |clock| || !plan.sends(n))
    ensures Loop(plan, clock, start, j, last, delay, n) == []
  {
  }

  predicate Monotone(clock: seq<nat>) {
    forall i, j :: 0 <= i <= j < |clock| ==> clock[i] <= clock[j]
  }

  /** A clock that has advanced whenever it is read again. */
  ghost predicate Advancing(clock: seq<nat>) {
    forall i, j :: 0 <= i < j < |clock| && j == i + 1 ==> clock[i] < clock[j]
  }

  /** Two successive readings are at most g ticks apart. */
  ghost predicate ReadOften(clock: seq<nat>, g: nat) {
    forall i, j :: 0 <= i < j < |clock| && j == i + 1 ==> clock[j] <= clock[i] + g
  }

  lemma {:induction false} AdvancingIsMonotone(clock: seq<nat>, i: nat, j: nat)
    requires Advancing(clock) && i <= j < |clock|
    ensures clock[i] <= clock[j] && (i < j ==> clock[i] < clock[j])
  {
    if i < j {
      AdvancingIsMonotone(clock, i, j - 1);
    }
  }

  /** Each datagram follows the previous one (the first one follows `last`) within less than
      half a turn of the clock. */
  predicate Prompt(sent: seq<Sent>, last: nat) {
    forall k :: 0 <= k < |sent| ==> sent[k].time < Before(sent, last, k) + TWO31
  }

  function Before(sent: seq<Sent>, last: nat, k: nat): nat
    requires k < |sent|
  {
    if k == 0 then last else sent[k - 1].time
  }

  /** How many datagrams up to number k carry the same time stamp as the one before. */
  function Stalls(sent: seq<Sent>, k: nat): (n: nat)
    requires k < |sent|
    ensures n <= k
  {
    if k == 0 then 0
    else Stalls(sent, k - 1) + if sent[k].time == sent[k - 1].time then 1 else 0
  }

  lemma DeltaAtMost(since: nat, t: nat)
    requires since <= t
    ensures TimeDelta(U32(since), U32(t)) <= t - since
    ensures t < since + TWO32 ==> t - since <= TimeDelta(U32(since), U32(t)) + 1
  {
    hide U32, TimeDelta;
    var turns := DeltaTurns(since, t);
  }

  /** While the wait lasts, time_delta never overtakes the clock and never falls back. */
  lemma DeltaGrows(since: nat, a: nat, b: nat)
    requires since <= a <= b < since + TWO32
    ensures TimeDelta(U32(since), U32(a)) <= TimeDelta(U32(since), U32(b)) <= b - since
  {
    hide U32, TimeDelta;
    TimeDeltaMeasures(since, a);
    TimeDeltaMeasures(since, b);
  }

  /** The delay has passed since the earlier time stamp: in true time, and, within a turn of the
      counter, as time_delta sees it. */
  predicate Elapsed(since: nat, delay: int, now: nat) {
    && since + delay <= now
    && (now < since + TWO32 ==> delay <= TimeDelta(U32(since), U32(now)))
  }

  /** The wait is over only when the delay has passed. */
  lemma {:induction false} WaitTakesDelay(clock: seq<nat>, j: nat, since: nat, delay: int)
    requires j <= |clock| && Monotone(clock) && forall i :: j <= i < |clock| ==> since <= clock[i]
    requires WaitEnd(clock, j, since, delay) < |clock|
    ensures Elapsed(since, delay, clock[WaitEnd(clock, j, since, delay)])
    decreases |clock| - j
  {
    hide U32, TimeDelta;
    if TimeDelta(U32(since), U32(clock[j])) < delay {
      WaitTakesDelay(clock, j + 1, since, delay);
    } else {
      DeltaAtMost(since, clock[j]);
      if clock[j + 1] < since + TWO32 {
        DeltaGrows(since, clock[j], clock[j + 1]);
      }
    }
  }

  /** On a clock read often, the wait takes little longer than the delay. */
  lemma {:induction false} WaitIsShort(clock: seq<nat>, j: nat, since: nat, delay: int, g: nat)
    requires 0 < j <= |clock| && Monotone(clock) && ReadOften(clock, g)
    requires since <= clock[j - 1] <= since + delay && delay + g < TWO32
    requires WaitEnd(clock, j, since, delay) < |clock|
    ensures clock[WaitEnd(clock, j, since, delay)] <= since + delay + 2 * g
    decreases |clock| - j
  {
    hide U32, TimeDelta;
    assert clock[j - 1] <= clock[j] <= clock[j - 1] + g;
    if TimeDelta(U32(since), U32(clock[j])) < delay {
      DeltaAtMost(since, clock[j]);
      WaitIsShort(clock, j + 1, since, delay, g);
    }
  }

  /** One correction, in true time, after any gap whatever: the end of the wait moves on by at
      least one period unless the clock stood still.  Where the correction loses its sign, or a
      turn of the counter goes unseen, the loop is late, never early. */
  lemma DelayLower(period: int, delay: int, last: nat, now: nat)
    requires 0 <= period < TWO31 && 0 <= delay < TWO32 && last <= now
    requires delay <= period || last + delay <= now
    ensures var next := NextDelay(period, delay, U32(last), U32(now));
      0 <= next < TWO32 && now + next >= last + delay + (if last == now then 0 else period)
  {
    hide U32, S32, TimeDelta;
    var turns := DeltaTurns(last, now);
    var d := TimeDelta(U32(last), U32(now));
    if U32(last) == U32(now) {
      SameCount(U32(last));
    } else {
      var x := period - d;
      Correction(x);
      var adjust := S32(U32(x));
      if delay + adjust >= 0 {
        WrapOnce(delay + adjust);
      }
      assert now - last == TWO32 * turns + d || now - last == TWO32 * turns + d + 1;
      CorrectionLower(period, delay, d, now - last, turns, adjust);
    }
  }

  lemma SameCount(t: int)
    requires 0 <= t < TWO32
    ensures TimeDelta(t, t) == 0
  {
  }

  /** A correction and its negation, as the source's types see them. */
  lemma Correction(x: int)
    requires -TWO32 < x < TWO31
    ensures var adjust := S32(U32(x)); -TWO31 <= adjust < TWO31 && (adjust == x || adjust == x + TWO32)
    ensures var adjust := S32(U32(x)); adjust < 0 ==> U32(-adjust) == -adjust
  {
    assert U32(x) == if x >= 0 then x else x + TWO32;
    WrapSigned(U32(x));
  }

  lemma CorrectionLower(period: int, delay: int, d: int, gap: int, turns: nat, adjust: int)
    requires 0 <= period < TWO31 && 0 <= delay < TWO32 && 0 <= d < TWO32
    requires gap == TWO32 * turns + d || gap == TWO32 * turns + d + 1
    requires delay <= period || delay <= gap
    requires -TWO31 <= adjust < TWO31 && (adjust == period - d || adjust == period - d + TWO32)
    ensures adjust >= 0 || -adjust < delay ==>
      var sum := delay + adjust;
      0 <= sum < 2 * TWO32 && gap + (if sum < TWO32 then sum else sum - TWO32) >= delay + period
    ensures adjust < 0 && delay <= -adjust ==> gap >= delay + period
  {
  }

  lemma WrapOnce(x: int)
    requires 0 <= x < 2 * TWO32
    ensures U32(x) == if x < TWO32 then x else x - TWO32
  {
  }

  /** One correction after less than half a turn of the counter: the delay stays small, and the
      end of the wait moves on by exactly one period, plus the tick time_delta misses when the
      counter turned over, as long as there is a delay left. */
  lemma DelayStep(period: int, delay: int, last: nat, now: nat)
    requires 0 <= period < TWO31 && 0 <= delay <= 2 * period && last <= now < last + TWO31
    requires delay <= period || delay <= TimeDelta(U32(last), U32(now))
    ensures var next := NextDelay(period, delay, U32(last), U32(now));
      && 0 <= next <= delay + period
      && (delay <= TimeDelta(U32(last), U32(now)) ==> next <= period)
      && (last != now && 0 < next ==>
        now + next == last + delay + period + (if U32(now) < U32(last) then 1 else 0))
  {
    hide TimeDelta;
    TimeDeltaMeasures(last, now);
    if last == now {
      assert TimeDelta(U32(last), U32(now)) == 0;
    } else {
      SameReading(last, now);
      hide NextDelay, U32;
      NextDelayExact(period, delay, U32(last), U32(now));
    }
  }

  lemma SameReading(a: nat, b: nat)
    requires a <= b < a + TWO32
    ensures U32(a) == U32(b) <==> a == b
  {
    TimeDeltaMeasures(a, b);
  }

  /** How a datagram follows the previous one. */
  predicate Follows(period: int, a: Sent, b: Sent) {
    && a.time <= b.time
    && b.delay == NextDelay(period, a.delay, U32(a.time), U32(b.time))
  }

  predicate Waited(a: Sent, b: Sent) {
    Elapsed(a.time, a.delay, b.time)
  }

  /** The datagrams follow each other, each after waiting out the previous one's delay. */
  ghost predicate Linked(period: int, sent: seq<Sent>) {
    forall i, k :: 0 <= i < k < |sent| && k == i + 1 ==>
      Follows(period, sent[i], sent[k]) && Waited(sent[i], sent[k])
  }

  /** Every datagram of the loop follows the previous one after waiting out its delay. */
  lemma {:induction false} LoopLinks(
    plan: Plan, clock: seq<nat>, start: nat, j: nat, last: nat, delay: int, n: nat)
    requires j <= |clock| && Monotone(clock) && forall i :: j <= i < |clock| ==> last <= clock[i]
    ensures var sent := Loop(plan, clock, start, j, last, delay, n);
      && (sent != [] ==> sent[0].time == clock[j] && Follows(plan.period, Sent(last, delay), sent[0]))
      && Linked(plan.period, sent)
    decreases |clock| - j
  {
    hide U32, TimeDelta, NextDelay, WaitEnd, Elapsed;
    var sent := Loop(plan, clock, start, j, last, delay, n);
    if |sent| > 1 {
      var now, next := clock[j], sent[0].delay;
      var end := WaitEnd(clock, j + 1, now, next);
      var rest := Loop(plan, clock, start, end, now, next, n + 1);
      assert sent == [Sent(now, next)] + rest;
      assert forall k :: 0 <= k < |rest| ==> rest[k] == sent[k + 1];
      LoopLinks(plan, clock, start, end, now, next, n + 1);
      WaitTakesDelay(clock, j + 1, now, next);
      assert sent[1].time == clock[end];
      forall i, k | 0 <= i < k < |sent| && k == i + 1
        ensures Follows(plan.period, sent[i], sent[k]) && Waited(sent[i], sent[k])
      {
        if i > 0 {
          assert Follows(plan.period, rest[i - 1], rest[i]) && Waited(rest[i - 1], rest[i]);
        }
      }
    }
  }

  /** On an advancing clock no two time stamps are equal. */
  lemma {:induction false} LoopAdvances(
    plan: Plan, clock: seq<nat>, start: nat, j: nat, last: nat, delay: int, n: nat, k: nat)
    requires j <= |clock| && Advancing(clock)
    requires k < |Loop(plan, clock, start, j, last, delay, n)|
    ensures var sent := Loop(plan, clock, start, j, last, delay, n); Stalls(sent, k) == 0
    decreases |clock| - j, k
  {
    hide U32, TimeDelta, NextDelay, WaitEnd;
    if k != 0 {
      LoopAdvances(plan, clock, start, j, last, delay, n, k - 1);
      StampsAdvance(plan, clock, start, j, last, delay, n, k);
    }
  }

  lemma {:induction false} StampsAdvance(
    plan: Plan, clock: seq<nat>, start: nat, j: nat, last: nat, delay: int, n: nat, k: nat)
    requires j <= |clock| && Advancing(clock)
    requires 0 < k < |Loop(plan, clock, start, j, last, delay, n)|
    ensures var sent := Loop(plan, clock, start, j, last, delay, n); sent[k - 1].time < sent[k].time
    decreases |clock| - j
  {
    hide U32, TimeDelta, NextDelay, WaitEnd;
    var sent := Loop(plan, clock, start, j, last, delay, n);
    var now, next := clock[j], sent[0].delay;
    var end := WaitEnd(clock, j + 1, now, next);
    var rest := Loop(plan, clock, start, end, now, next, n + 1);
    assert sent == [Sent(now, next)] + rest;
    if k == 1 {
      assert rest[0].time == clock[end];
      AdvancingIsMonotone(clock, j, end);
    } else {
      StampsAdvance(plan, clock, start, end, now, next, n + 1, k - 1);
    }
  }

  predicate InTime(plan: Plan, start: nat, s: Sent) {
    TimeDelta(U32(start), U32(s.time)) < plan.duration
  }

  /** The loop goes on only while the duration has not passed. */
  lemma {:induction false} LoopEndsInTime(
    plan: Plan, clock: seq<nat>, start: nat, j: nat, last: nat, delay: int, n: nat, k: nat)
    requires j <= |clock| && k + 1 < |Loop(plan, clock, start, j, last, delay, n)|
    ensures InTime(plan, start, Loop(plan, clock, start, j, last, delay, n)[k])
    decreases |clock| - j
  {
    hide U32, TimeDelta, NextDelay, WaitEnd;
    var sent := Loop(plan, clock, start, j, last, delay, n);
    var now, next := clock[j], sent[0].delay;
    var end := WaitEnd(clock, j + 1, now, next);
    var rest := Loop(plan, clock, start, end, now, next, n + 1);
    assert sent == [Sent(now, next)] + rest;
    if k > 0 {
      LoopEndsInTime(plan, clock, start, end, now, next, n + 1, k - 1);
    }
  }

  /** When the wait after datagram k is over at the earliest. */
  lemma {:induction false} WaitOver(period: int, sent: seq<Sent>, start: nat, k: nat)
    requires 0 <= period < TWO31 && k < |sent| && Linked(period, sent)
    requires Follows(period, Sent(start, period), sent[0])
    ensures 0 <= sent[k].delay < TWO32
    ensures sent[k].time + sent[k].delay >= Due(period, sent, start, k)
  {
    hide U32, TimeDelta, NextDelay, Due;
    DueUnfold(period, sent, start, k);
    if k == 0 {
      DelayLower(period, period, start, sent[0].time);
    } else {
      WaitOver(period, sent, start, k - 1);
      assert Follows(period, sent[k - 1], sent[k]) && Waited(sent[k - 1], sent[k]);
      DelayLower(period, sent[k - 1].delay, sent[k - 1].time, sent[k].time);
    }
  }

  function Due(period: int, sent: seq<Sent>, start: nat, k: nat): int
    requires k < |sent|
  {
    start + (k + 1 - Stalls(sent, k)) * period
  }

  lemma DueUnfold(period: int, sent: seq<Sent>, start: nat, k: nat)
    requires k < |sent|
    ensures k == 0 ==> Due(period, sent, start, k) == start + period
    ensures k > 0 ==>
      var step := if sent[k].time == sent[k - 1].time then 0 else period;
      Due(period, sent, start, k) == Due(period, sent, start, k - 1) + step
  {
    if k > 0 {
      OneMore(k - Stalls(sent, k - 1), period);
    }
  }

  lemma OneMore(n: int, period: int)
    ensures (n + 1) * period == n * period + period
  {
  }

  /** Pacing: however irregularly the clock is read and however long a round takes, datagram k
      leaves no earlier than k packet periods after the start, less one period for every
      datagram whose time stamp equals the previous one's. */
  lemma Pacing(plan: Plan, clock: seq<nat>, k: nat)
    requires plan.Fits() && Monotone(clock) && k < |Upload(plan, clock)|
    ensures Upload(plan, clock)[k].time >= clock[0] + (k - Stalls(Upload(plan, clock), k)) * plan.period
  {
    hide Follows, Waited, Loop, Stalls;
    LoopLinks(plan, clock, clock[0], 1, clock[0], plan.period, 0);
    SentPacing(plan.period, Upload(plan, clock), clock[0], k);
  }

  lemma SentPacing(period: int, sent: seq<Sent>, start: nat, k: nat)
    requires 0 <= period < TWO31 && k < |sent| && Linked(period, sent)
    requires Follows(period, Sent(start, period), sent[0])
    ensures sent[k].time >= start + (k - Stalls(sent, k)) * period
  {
    hide NextDelay, U32, TimeDelta, Due, Stalls;
    DueBound(period, sent, start, k);
    if k > 0 {
      WaitOver(period, sent, start, k - 1);
      assert Waited(sent[k - 1], sent[k]);
    }
  }

  lemma DueBound(period: int, sent: seq<Sent>, start: nat, k: nat)
    requires k < |sent| && 0 <= period
    ensures k == 0 ==> (k - Stalls(sent, k)) * period == 0
    ensures k > 0 ==> Due(period, sent, start, k - 1) >= start + (k - Stalls(sent, k)) * period
  {
    if k > 0 && Stalls(sent, k) != Stalls(sent, k - 1) {
      OneMore(k - Stalls(sent, k), period);
    }
  }

  /** With a clock that advances between readings, no datagram is ever early. */
  lemma NeverEarly(plan: Plan, clock: seq<nat>, k: nat)
    requires plan.Fits() && Advancing(clock) && k < |Upload(plan, clock)|
    ensures Upload(plan, clock)[k].time >= clock[0] + k * plan.period
  {
    hide Loop, Stalls, Follows;
    forall i, j | 0 <= i <= j < |clock|
      ensures clock[i] <= clock[j]
    {
      AdvancingIsMonotone(clock, i, j);
    }
    Pacing(plan, clock, k);
    LoopAdvances(plan, clock, clock[0], 1, clock[0], plan.period, 0, k);
  }

  /** So a test of the given duration never sends more than duration / period + 2 datagrams, as
      long as the counter does not make a full turn; every full turn can go unseen and then adds
      the time it takes. */
  lemma RateCap(plan: Plan, clock: seq<nat>)
    requires plan.Fits() && Advancing(clock) && clock != []
    ensures var turns := (clock[|clock| - 1] - clock[0]) / TWO32;
      (|Upload(plan, clock)| - 2) * plan.period <= plan.duration + TWO32 * turns
  {
    hide Upload;
    var k := |Upload(plan, clock)| - 2;
    AdvancingIsMonotone(clock, 0, |clock| - 1);
    if k >= 0 {
      NeverEarly(plan, clock, k);
      LastSendInTime(plan, clock, k);
    } else {
      Sign(k, plan.period);
    }
  }

  lemma LastSendInTime(plan: Plan, clock: seq<nat>, k: nat)
    requires Advancing(clock) && clock != [] && k + 1 < |Upload(plan, clock)|
    ensures var turns := (clock[|clock| - 1] - clock[0]) / TWO32;
      Upload(plan, clock)[k].time - clock[0] <= plan.duration + TWO32 * turns
  {
    hide Loop, U32, TimeDelta;
    var start := clock[0];
    LoopEndsInTime(plan, clock, start, 1, start, plan.period, 0, k);
    var s := Upload(plan, clock)[k];
    assert InTime(plan, start, s);
    LoopReadsClock(plan, clock, start, 1, start, plan.period, 0, k);
    var turns := DeltaTurns(start, s.time);
    FewerTurns(turns, s.time - start, clock[|clock| - 1] - start);
  }

  lemma FewerTurns(turns: nat, t: nat, span: nat)
    requires TWO32 * turns <= t <= span
    ensures turns <= span / TWO32
  {
  }

  /** Time stamps are readings of the clock. */
  lemma {:induction false} LoopReadsClock(
    plan: Plan, clock: seq<nat>, start: nat, j: nat, last: nat, delay: int, n: nat, k: nat)
    requires j <= |clock| && Advancing(clock) && clock != []
    requires k < |Loop(plan, clock, start, j, last, delay, n)|
    ensures clock[0] <= Loop(plan, clock, start, j, last, delay, n)[k].time <= clock[|clock| - 1]
    decreases |clock| - j
  {
    hide U32, TimeDelta, NextDelay, WaitEnd;
    var sent := Loop(plan, clock, start, j, last, delay, n);
    var now, next := clock[j], sent[0].delay;
    if k == 0 {
      AdvancingIsMonotone(clock, 0, j);
      AdvancingIsMonotone(clock, j, |clock| - 1);
    } else {
      var end := WaitEnd(clock, j + 1, now, next);
      assert sent == [Sent(now, next)] + Loop(plan, clock, start, end, now, next, n + 1);
      LoopReadsClock(plan, clock, start, end, now, next, n + 1, k - 1);
    }
  }

  lemma Sign(k: int, period: int)
    requires k <= 0 && 0 <= period
    ensures k * period <= 0
  {
  }

  /** While datagrams follow each other within half a turn of the counter, the delay never
      exceeds two periods, nor one after the first datagram. */
  lemma {:induction false} DelayBound(period: int, sent: seq<Sent>, start: nat, k: nat)
    requires 0 <= period < TWO31 && k < |sent| && Linked(period, sent) && Prompt(sent, start)
    requires Follows(period, Sent(start, period), sent[0])
    ensures 0 <= sent[k].delay <= 2 * period && (0 < k ==> sent[k].delay <= period)
  {
    hide U32, TimeDelta, NextDelay;
    if k == 0 {
      DelayStep(period, period, start, sent[0].time);
    } else {
      DelayBound(period, sent, start, k - 1);
      assert Follows(period, sent[k - 1], sent[k]) && Waited(sent[k - 1], sent[k]);
      assert sent[k].time < Before(sent, start, k) + TWO31;
      DelayStep(period, sent[k - 1].delay, sent[k - 1].time, sent[k].time);
    }
  }

  /** A clock read often enough keeps datagrams within half a turn of each other. */
  lemma {:induction false} LoopIsPrompt(
    plan: Plan, clock: seq<nat>, start: nat, j: nat, last: nat, delay: int, n: nat, g: nat)
    requires plan.Fits() && Monotone(clock) && ReadOften(clock, g) && 2 * (plan.period + g) < TWO31
    requires j <= |clock| && 0 <= delay <= 2 * plan.period
    requires j < |clock| ==> last <= clock[j] <= last + delay + 2 * g
    requires j < |clock| ==> delay <= plan.period || delay <= TimeDelta(U32(last), U32(clock[j]))
    ensures Prompt(Loop(plan, clock, start, j, last, delay, n), last)
    decreases |clock| - j
  {
    hide U32, TimeDelta, NextDelay, WaitEnd;
    var sent := Loop(plan, clock, start, j, last, delay, n);
    if sent != [] {
      var now, next := clock[j], sent[0].delay;
      DelayStep(plan.period, delay, last, now);
      var end := WaitEnd(clock, j + 1, now, next);
      var rest := Loop(plan, clock, start, end, now, next, n + 1);
      if end < |clock| {
        WaitTakesDelay(clock, j + 1, now, next);
        WaitIsShort(clock, j + 1, now, next, g);
      }
      LoopIsPrompt(plan, clock, start, end, now, next, n + 1, g);
      assert |sent| > 1 ==> sent == [Sent(now, next)] + rest;
      forall k | 0 <= k < |sent|
        ensures sent[k].time < Before(sent, last, k) + TWO31
      {
        if k > 0 {
          assert sent[k] == rest[k - 1] && Before(sent, last, k) == Before(rest, now, k - 1);
        }
      }
    }
  }

  /** On such a clock the delay stays within two periods, and within one after the first datagram. */
  lemma DelayStaysSmall(plan: Plan, clock: seq<nat>, g: nat, k: nat)
    requires plan.Fits() && Monotone(clock) && ReadOften(clock, g) && 2 * (plan.period + g) < TWO31
    requires k < |Upload(plan, clock)|
    ensures Prompt(Upload(plan, clock), clock[0])
    ensures var s := Upload(plan, clock)[k];
      0 <= s.delay <= 2 * plan.period && (0 < k ==> s.delay <= plan.period)
  {
    hide Loop, Follows, Waited, U32, TimeDelta;
    LoopLinks(plan, clock, clock[0], 1, clock[0], plan.period, 0);
    LoopIsPrompt(plan, clock, clock[0], 1, clock[0], plan.period, 0, g);
    DelayBound(plan.period, Upload(plan, clock), clock[0], k);
  }

  /** Why the loop stopped: the duration has passed, a datagram could not be sent, or there were no
      more readings to end the wait with.  Otherwise it goes on. */
  lemma {:induction false} LoopStops(
    plan: Plan, clock: seq<nat>, start: nat, j: nat, last: nat, delay: int, n: nat) returns (i: nat)
    requires j <= |clock| && Loop(plan, clock, start, j, last, delay, n) != []
    ensures var sent := Loop(plan, clock, start, j, last, delay, n);
      var s := sent[|sent| - 1];
      && j <= i < |clock| && s.time == clock[i]
      && (!InTime(plan, start, s) || !plan.sends(n + |sent|) || WaitEnd(clock, i + 1, s.time, s.delay) == |clock|)
    decreases |clock| - j
  {
    hide U32, TimeDelta, NextDelay, WaitEnd;
    var sent := Loop(plan, clock, start, j, last, delay, n);
    var now, next := clock[j], sent[0].delay;
    var end := WaitEnd(clock, j + 1, now, next);
    var rest := Loop(plan, clock, start, end, now, next, n + 1);
    i := j;
    if |sent| > 1 {
      assert sent == [Sent(now, next)] + rest;
      i := LoopStops(plan, clock, start, end, now, next, n + 1);
    }
  }

  /** Every datagram counted was sent without an error: the first one that cannot be sent ends the test. */
  lemma {:induction false} LoopSends(
    plan: Plan, clock: seq<nat>, start: nat, j: nat, last: nat, delay: int, n: nat, k: nat)
    requires j <= |clock| && k < |Loop(plan, clock, start, j, last, delay, n)|
    ensures plan.sends(n + k)
    decreases k
  {
    hide U32, TimeDelta, NextDelay, WaitEnd;
    if k > 0 {
      var now, next := clock[j], NextDelay(plan.period, delay, U32(last), U32(clock[j]));
      LoopSends(plan, clock, start, WaitEnd(clock, j + 1, now, next), now, next, n + 1, k - 1);
    }
  }

  /** When the readings run out during a wait, the last one is not much later than its end. */
  lemma {:induction false} WaitRunsOut(clock: seq<nat>, j: nat, since: nat, delay: int, g: nat)
    requires 0 < j <= |clock| && Monotone(clock) && ReadOften(clock, g)
    requires since <= clock[j - 1] <= since + delay && delay + g < TWO32
    requires WaitEnd(clock, j, since, delay) == |clock|
    ensures clock[|clock| - 1] <= since + delay + g
    decreases |clock| - j
  {
    hide U32, TimeDelta;
    if j < |clock| {
      assert clock[j - 1] <= clock[j] <= clock[j - 1] + g;
      if TimeDelta(U32(since), U32(clock[j])) < delay {
        DeltaAtMost(since, clock[j]);
        WaitRunsOut(clock, j + 1, since, delay, g);
      }
    }
  }

  /** On a clock read often no datagram is long overdue either. */
  lemma {:induction false} LoopGaps(
    plan: Plan, clock: seq<nat>, start: nat, j: nat, last: nat, delay: int, n: nat, g: nat, k: nat)
    requires plan.Fits() && Monotone(clock) && ReadOften(clock, g) && 2 * (plan.period + g) < TWO31
    requires j <= |clock| && 0 <= delay <= 2 * plan.period
    requires j < |clock| ==> last <= clock[j] <= last + delay + 2 * g
    requires j < |clock| ==> delay <= plan.period || delay <= TimeDelta(U32(last), U32(clock[j]))
    requires 0 < k < |Loop(plan, clock, start, j, last, delay, n)|
    ensures var sent := Loop(plan, clock, start, j, last, delay, n);
      sent[k].time <= sent[k - 1].time + sent[k - 1].delay + 2 * g
    decreases |clock| - j
  {
    hide U32, TimeDelta, NextDelay, WaitEnd;
    var sent := Loop(plan, clock, start, j, last, delay, n);
    var now, next := clock[j], sent[0].delay;
    DelayStep(plan.period, delay, last, now);
    var end := WaitEnd(clock, j + 1, now, next);
    var rest := Loop(plan, clock, start, end, now, next, n + 1);
    assert sent == [Sent(now, next)] + rest;
    assert end < |clock|;
    WaitTakesDelay(clock, j + 1, now, next);
    WaitIsShort(clock, j + 1, now, next, g);
    if k > 1 {
      LoopGaps(plan, clock, start, end, now, next, n + 1, g, k - 1);
    }
  }

  /** The latest that datagram k can leave. */
  lemma {:induction false} NotLate(plan: Plan, clock: seq<nat>, g: nat, k: nat)
    requires plan.Fits() && Monotone(clock) && ReadOften(clock, g) && 2 * (plan.period + g) < TWO31
    requires k < |Upload(plan, clock)|
    ensures Upload(plan, clock)[k].time <= clock[0] + g + plan.period + k * (plan.period + 2 * g)
  {
    hide Upload;
    FirstSoon(plan, clock, g);
    var step := plan.period + 2 * g;
    if k == 0 {
      assert 0 * step == 0;
    } else {
      NotLate(plan, clock, g, k - 1);
      DelayStaysSmall(plan, clock, g, k - 1);
      GapOf(plan, clock, g, k);
      OneMore(k - 1, step);
      assert k == 1 ==> k * step == step;
    }
  }

  lemma FirstSoon(plan: Plan, clock: seq<nat>, g: nat)
    requires ReadOften(clock, g) && Upload(plan, clock) != []
    ensures Upload(plan, clock)[0].time <= clock[0] + g
  {
    hide U32, TimeDelta, NextDelay, WaitEnd;
  }

  lemma GapOf(plan: Plan, clock: seq<nat>, g: nat, k: nat)
    requires plan.Fits() && Monotone(clock) && ReadOften(clock, g) && 2 * (plan.period + g) < TWO31
    requires 0 < k < |Upload(plan, clock)|
    ensures var sent := Upload(plan, clock); sent[k].time <= sent[k - 1].time + sent[k - 1].delay + 2 * g
  {
    hide Loop, U32, TimeDelta;
    LoopGaps(plan, clock, clock[0], 1, clock[0], plan.period, 0, g, k);
  }

  /** The other side of RateCap: while nothing fails and the clock is read often and long enough, a
      test sends at least duration / (period + 2 g) datagrams, g being the longest gap. */
  lemma RateFloor(plan: Plan, clock: seq<nat>, g: nat)
    requires plan.Fits() && Monotone(clock) && ReadOften(clock, g) && 2 * (plan.period + g) < TWO31
    requires clock != [] && forall n :: plan.sends(n)
    requires clock[0] + plan.duration + 2 * plan.period + g < clock[|clock| - 1] < clock[0] + TWO32
    ensures |Upload(plan, clock)| * (plan.period + 2 * g) >= plan.duration
  {
    hide Loop, U32, TimeDelta, WaitEnd;
    var sent, start := Upload(plan, clock), clock[0];
    SomethingSent(plan, clock);
    var k := |sent| - 1;
    var i := LoopStops(plan, clock, start, 1, start, plan.period, 0);
    DelayStaysSmall(plan, clock, g, k);
    DeltaAtMost(start, sent[k].time);
    if InTime(plan, start, sent[k]) {
      WaitRunsOut(clock, i + 1, sent[k].time, sent[k].delay, g);
      assert false;
    }
    NotLate(plan, clock, g, k);
    OneMore(k, plan.period + 2 * g);
  }

  lemma SomethingSent(plan: Plan, clock: seq<nat>)
    requires |clock| >= 2 && plan.sends(0)
    ensures Upload(plan, clock) != []
  {
    hide NextDelay, U32, TimeDelta;
  }

  /** In how many of the rounds up to datagram k the counter turned over. */
  function Turnovers(sent: seq<Sent>, k: nat): (n: nat)
    requires k < |sent|
    ensures n <= k
  {
    if k == 0 then 0
    else Turnovers(sent, k - 1) + if U32(sent[k].time) < U32(sent[k - 1].time) then 1 else 0
  }

  /** No drift: while the delay stays positive, the end of each wait is exactly one period after
      the end of the wait before, and one tick more when the counter turned over in between. */
  lemma {:induction false} NoDrift(plan: Plan, clock: seq<nat>, g: nat, k: nat)
    requires plan.Fits() && Monotone(clock) && ReadOften(clock, g) && 2 * (plan.period + g) < TWO31
    requires k < |Upload(plan, clock)| && forall i :: 1 <= i <= k ==> Upload(plan, clock)[i].delay > 0
    ensures var sent := Upload(plan, clock);
      sent[k].time + sent[k].delay == sent[0].time + sent[0].delay + k * plan.period + Turnovers(sent, k)
  {
    hide Loop, U32, TimeDelta, NextDelay;
    if k != 0 {
      NoDrift(plan, clock, g, k - 1);
      var sent, start := Upload(plan, clock), clock[0];
      LoopLinks(plan, clock, start, 1, start, plan.period, 0);
      DelayStaysSmall(plan, clock, g, k - 1);
      var a, b := sent[k - 1], sent[k];
      assert Follows(plan.period, a, b) && Waited(a, b) && b.time < Before(sent, start, k) + TWO31;
      NonzeroWait(plan.period, a, b);
      DelayStep(plan.period, a.delay, a.time, b.time);
      OneMore(k - 1, plan.period);
    }
  }

  lemma NonzeroWait(period: int, a: Sent, b: Sent)
    requires Waited(a, b) && Follows(period, a, b) && 0 <= a.delay < TWO32
    ensures a.time == b.time ==> b.delay == 0
  {
    assert U32(0) == 0;
  }

  /** The exception in Pacing is real: on a clock that stands still after a late datagram, the
      loop sends a burst ahead of its rate. */
  lemma StalledClockBursts()
    ensures var plan, clock := Plan(10, 1000, (_: nat) => true), [0, 0, 20, 20, 20, 20, 20, 20];
      && plan.Fits() && Monotone(clock)
      && Upload(plan, clock) == [Sent(0, 10), Sent(20, 0), Sent(20, 0), Sent(20, 0)]
  {
    hide Upload, U32, TimeDelta, NextDelay;
    BurstRun(Plan(10, 1000, (_: nat) => true), [0, 0, 20, 20, 20, 20, 20, 20]);
  }

  function Endless(period: int): Plan {
    Plan(period, TWO32 - 1, (_: nat) => true)
  }

  predicate Early(period: int, clock: seq<nat>, k: nat)
    requires k < |Upload(Endless(period), clock)|
  {
    Upload(Endless(period), clock)[k].time < clock[0] + k * period
  }

  /** The bound on the period is needed: with any period of half a turn of the counter or more there
      is an advancing clock on which the correction loses its sign and a datagram leaves early. */
  lemma LongPeriodIsEarly(period: int) returns (clock: seq<nat>, k: nat)
    requires TWO31 <= period < TWO32
    ensures Advancing(clock) && k < |Upload(Endless(period), clock)| && Early(period, clock, k)
  {
    hide U32, TimeDelta, NextDelay, Upload;
    LongPeriodTimes(period);
    if period == TWO31 {
      clock, k := [TWO32 - 1, TWO32, TWO32 + 1, TWO32 + 2], 1;
      EarlyAtOnce(clock, period, 0);
    } else if period < TWO32 - 1 {
      var m := period - TWO31;
      clock, k := [0, 1, 2 * m, 2 * m + 1], 1;
      EarlyAtOnce(clock, period, 2 * m - 1);
    } else {
      clock, k := [1, TWO31, TWO32 - 1, TWO32, TWO32 + 1, TWO32 + 2], 2;
      EarlyNext(clock, period);
    }
  }

  lemma LongPeriodTimes(period: int)
    requires TWO31 <= period < TWO32
    ensures U32(TWO32 - 1) == TWO32 - 1 && U32(TWO32) == 0 && U32(TWO32 + 1) == 1 && U32(0) == 0 && U32(1) == 1
    ensures TimeDelta(TWO32 - 1, 0) == 0 && TimeDelta(0, 1) == 1
    ensures NextDelay(TWO31, TWO31, TWO32 - 1, 0) == 0
    ensures TWO31 < period < TWO32 - 1 ==>
      var m := period - TWO31;
      U32(2 * m) == 2 * m && TimeDelta(1, 2 * m) == 2 * m - 1 && NextDelay(period, period, 0, 1) == 2 * m - 1
  {
    assert S32(TWO31) == -TWO31;
    if TWO31 < period {
      WrapSigned(period - 1);
    }
  }

  /** The second datagram leaves after the wait that follows the first correction. */
  lemma EarlyAtOnce(clock: seq<nat>, period: int, next: nat)
    requires |clock| == 4 && NextDelay(period, period, U32(clock[0]), U32(clock[1])) == next
    requires TimeDelta(U32(clock[0]), U32(clock[1])) < TWO32 - 1
    requires TimeDelta(U32(clock[1]), U32(clock[2])) >= next
    ensures var sent := Upload(Endless(period), clock); |sent| == 2 && sent[1].time == clock[3]
  {
    hide U32, TimeDelta, NextDelay;
    var plan := Endless(period);
    assert WaitEnd(clock, 2, clock[1], next) == 3;
    assert |Loop(plan, clock, clock[0], 3, clock[1], next, 1)| == 1 by {
      assert WaitEnd(clock, 4, clock[3], NextDelay(period, next, U32(clock[1]), U32(clock[3]))) == 4;
    }
  }

  lemma EarlyNext(clock: seq<nat>, period: int)
    requires period == TWO32 - 1 && clock == [1, TWO31, TWO32 - 1, TWO32, TWO32 + 1, TWO32 + 2]
    ensures var sent := Upload(Endless(period), clock); |sent| == 3 && sent[2].time == TWO32 + 2
  {
    EarlyNextTimes();
    hide U32, TimeDelta, NextDelay;
    var plan := Endless(period);
    assert WaitEnd(clock, 2, TWO31, TWO31 - 1) == 3 && WaitEnd(clock, 4, TWO32, 0) == 5;
    assert WaitEnd(clock, 6, TWO32 + 2, NextDelay(period, 0, U32(TWO32), U32(TWO32 + 2))) == 6;
    assert |Loop(plan, clock, 1, 5, TWO32, 0, 2)| == 1;
    assert Loop(plan, clock, 1, 3, TWO31, TWO31 - 1, 1)
        == [Sent(TWO32, 0)] + Loop(plan, clock, 1, 5, TWO32, 0, 2);
    assert Upload(plan, clock) == [Sent(TWO31, TWO31 - 1)] + Loop(plan, clock, 1, 3, TWO31, TWO31 - 1, 1);
  }

  lemma EarlyNextTimes()
    ensures U32(1) == 1 && U32(TWO31) == TWO31 && U32(TWO32 - 1) == TWO32 - 1 && U32(TWO32) == 0
    ensures U32(TWO32 + 1) == 1 && TimeDelta(1, TWO31) == TWO31 - 1 && TimeDelta(TWO31, TWO32 - 1) == TWO31 - 1
    ensures TimeDelta(1, 0) == TWO32 - 2 && TimeDelta(0, 1) == 1
    ensures NextDelay(TWO32 - 1, TWO32 - 1, 1, TWO31) == TWO31 - 1
    ensures NextDelay(TWO32 - 1, TWO31 - 1, TWO31, 0) == 0
  {
    assert S32(TWO31) == -TWO31;
  }

  /** So an advancing clock is enough for pacing exactly when the period is below 2^31 ticks. */
  lemma PacingNeedsShortPeriod(period: int)
    requires 0 <= period < TWO32
    ensures period < TWO31 <==> forall clock: seq<nat>, k: nat ::
      Advancing(clock) && k < |Upload(Endless(period), clock)| ==> !Early(period, clock, k)
  {
    if period < TWO31 {
      forall clock: seq<nat>, k: nat | Advancing(clock) && k < |Upload(Endless(period), clock)|
        ensures !Early(period, clock, k)
      {
        NeverEarly(Endless(period), clock, k);
      }
    } else {
      var clock, k := LongPeriodIsEarly(period);
      assert Early(period, clock, k);
    }
  }

  lemma BurstRun(plan: Plan, clock: seq<nat>)
    requires plan.period == 10 && plan.duration == 1000 && forall n :: plan.sends(n)
    requires clock == [0, 0, 20, 20, 20, 20, 20, 20]
    ensures Upload(plan, clock) == [Sent(0, 10), Sent(20, 0), Sent(20, 0), Sent(20, 0)]
  {
    SmallTimes();
    hide U32, TimeDelta, NextDelay;
    assert WaitEnd(clock, 2, 0, 10) == 3 && WaitEnd(clock, 4, 20, 0) == 5 && WaitEnd(clock, 6, 20, 0) == 7;
    assert WaitEnd(clock, 8, 20, 0) == 8;
    assert Loop(plan, clock, 0, 8, 20, 0, 4) == [];
    assert Loop(plan, clock, 0, 7, 20, 0, 3) == [Sent(20, 0)];
    assert Loop(plan, clock, 0, 5, 20, 0, 2) == [Sent(20, 0)] + Loop(plan, clock, 0, 7, 20, 0, 3);
    assert Loop(plan, clock, 0, 3, 0, 10, 1) == [Sent(20, 0)] + Loop(plan, clock, 0, 5, 20, 0, 2);
    assert Upload(plan, clock) == [Sent(0, 10)] + Loop(plan, clock, 0, 3, 0, 10, 1);
  }

  lemma SmallTimes()
    ensures U32(0) == 0 && U32(20) == 20
    ensures TimeDelta(0, 0) == 0 && TimeDelta(0, 20) == 20 && TimeDelta(20, 20) == 0
    ensures NextDelay(10, 10, 0, 0) == 10 && NextDelay(10, 10, 0, 20) == 0 && NextDelay(10, 0, 20, 20) == 0
  {
  }
}
