/** The wrapping clock difference used throughout zperf. */
module ZperfTime {
  import opened MachineIntegers

  /** time_delta: the cycles from ts to t on a 32-bit counter. */
  function TimeDelta(ts: int, t: int): (d: int)
    requires 0 <= ts < TWO32 && 0 <= t < TWO32
    ensures 0 <= d < TWO32
  {
    if t >= ts then t - ts else TWO32 - 1 - ts + t
  }

  /** For clock readings less than a full turn apart, time_delta is the time between them,
      except that it is one tick short whenever the counter wrapped in between. */
  lemma TimeDeltaMeasures(from: nat, to: nat)
    requires from <= to < from + TWO32
    ensures TimeDelta(U32(from), U32(to)) == to - from - (if U32(to) < U32(from) then 1 else 0)
    ensures TimeDelta(U32(from), U32(to)) == to - from <==> U32(from) <= U32(to)
  {
    assert from == TWO32 * (from / TWO32) + U32(from);
    assert to == TWO32 * (to / TWO32) + U32(to);
    var turns := to / TWO32 - from / TWO32;
    assert to - from == TWO32 * turns + U32(to) - U32(from);
  }

  /** time_delta against the clock, over any time: whole turns of the counter are not seen, nor
      is the last tick when it turned over. */
  lemma DeltaTurns(since: nat, t: nat) returns (turns: nat)
    requires since <= t
    ensures t - since == TWO32 * turns + TimeDelta(U32(since), U32(t)) + (if U32(t) < U32(since) then 1 else 0)
    ensures turns == (t - since - (if U32(t) < U32(since) then 1 else 0)) / TWO32
  {
    assert since == TWO32 * (since / TWO32) + U32(since);
    assert t == TWO32 * (t / TWO32) + U32(t);
    turns := t / TWO32 - since / TWO32 - if U32(t) < U32(since) then 1 else 0;
  }

  /** So it measures true time exactly when the counter did not turn over. */
  lemma TimeDeltaExact(from: nat, to: nat)
    requires from <= to
    ensures TimeDelta(U32(from), U32(to)) == to - from <==> to < from + TWO32 && U32(from) <= U32(to)
  {
    hide U32, TimeDelta;
    var turns := DeltaTurns(from, to);
  }
}
