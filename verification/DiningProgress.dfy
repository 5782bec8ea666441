/** Nobody starves for lack of a schedule: from every reachable state every philosopher can
    be brought to eat.  The schedule is built by draining the chain of waits. */
module DiningProgress {
  import opened Dining

  lemma {:induction false} RunAppend(t: Table, first: seq<nat>, second: seq<nat>)
    requires t.Inv() && t.Legal(first) && t.Run(first).Legal(second)
    ensures t.Legal(first + second) && t.Run(first + second) == t.Run(first).Run(second)
    decreases |first|
  {
    if first == [] {
      assert first + second == second;
    } else {
      StepKeepsInv(t, first[0]);
      RunAppend(t.Step(first[0]), first[1..], second);
      assert (first + second)[1..] == first[1..] + second;
    }
  }

  lemma AppendStep(t: Table, schedule: seq<nat>, id: nat)
    requires t.Inv() && t.Legal(schedule) && t.Run(schedule).Inv() && t.Run(schedule).CanStep(id)
    ensures t.Legal(schedule + [id]) && t.Run(schedule + [id]) == t.Run(schedule).Step(id)
    ensures t.Run(schedule + [id]).Inv()
  {
    StepKeepsInv(t.Run(schedule), id);
    var u := t.Run(schedule);
    assert [id][1..] == [];
    var after := u.Step(id);
    assert after.Legal([]) && after.Run([]) == after;
    assert u.Legal([id]) && u.Run([id]) == after.Run([id][1..]);
    RunAppend(t, schedule, [id]);
  }

  predicate HoldsFrom(t: Table, id: nat, f: nat)
    requires t.Shaped() && id < t.N()
  {
    exists g :: f <= g < t.N() && t.Holds(id, g)
  }

  /** A schedule after which fork f is free.  It moves only philosophers holding a fork
      numbered f or higher, so whoever waits for f below that stays where it is. */
  lemma {:induction false} FreeFork(t: Table, f: nat) returns (schedule: seq<nat>)
    requires t.Inv() && f < t.N()
    ensures t.Legal(schedule) && t.Run(schedule).Inv() && t.Run(schedule).holders[f].None?
    ensures forall k :: 0 <= k < t.N() && !HoldsFrom(t, k, f) ==> t.Run(schedule).phases[k] == t.phases[k]
    ensures |schedule| <= 3 * (t.N() - f)
    decreases t.N() - f
  {
    schedule := [];
    if t.holders[f].Some? {
      var h := t.holders[f].value;
      ForkOrder(t.N(), h);
      assert t.Holds(h, f);
      if t.phases[h] == HoldingOne {
        schedule := FreeFork(t, Fork2(t.N(), h));
        assert !HoldsFrom(t, h, Fork2(t.N(), h));
        assert t.Run(schedule).phases[h] == HoldingOne;
        schedule := TakeAndDrop(t, schedule, h);
      } else if t.phases[h] == Eating && f == Fork1(t.N(), h) {
        schedule := DropBoth(t, schedule, h);
      } else {
        AppendStep(t, schedule, h);
        schedule := schedule + [h];
      }
    }
  }

  lemma DropBoth(t: Table, schedule: seq<nat>, h: nat) returns (longer: seq<nat>)
    requires t.Inv() && t.Legal(schedule) && t.Run(schedule).Inv() && h < t.N()
    requires t.Run(schedule).phases[h] == Eating
    ensures t.Legal(longer) && t.Run(longer).Inv() && |longer| == |schedule| + 2
    ensures t.Run(longer).holders[Fork1(t.N(), h)].None?
    ensures forall k :: 0 <= k < t.N() && k != h ==> t.Run(longer).phases[k] == t.Run(schedule).phases[k]
  {
    AppendStep(t, schedule, h);
    longer := schedule + [h];
    AppendStep(t, longer, h);
    longer := longer + [h];
  }

  lemma TakeAndDrop(t: Table, schedule: seq<nat>, h: nat) returns (longer: seq<nat>)
    requires t.Inv() && t.Legal(schedule) && t.Run(schedule).Inv() && h < t.N()
    requires t.Run(schedule).phases[h] == HoldingOne && t.Run(schedule).holders[Fork2(t.N(), h)].None?
    ensures t.Legal(longer) && t.Run(longer).Inv() && |longer| == |schedule| + 3
    ensures t.Run(longer).holders[Fork1(t.N(), h)].None?
    ensures forall k :: 0 <= k < t.N() && k != h ==> t.Run(longer).phases[k] == t.Run(schedule).phases[k]
  {
    AppendStep(t, schedule, h);
    longer := DropBoth(t, schedule + [h], h);
  }

  function StepsToEating(p: Phase): nat {
    match p
    case Eating => 0
    case HoldingOne => 1
    case Starving => 2
    case Thinking => 3
    case DroppedOne => 4
  }

  /** The next step of philosopher id, made possible by freeing the fork it wants. */
  lemma Advance(t: Table, id: nat) returns (schedule: seq<nat>)
    requires t.Inv() && id < t.N() && t.phases[id] != Eating
    ensures t.Legal(schedule) && t.Run(schedule).Inv()
    ensures StepsToEating(t.Run(schedule).phases[id]) == StepsToEating(t.phases[id]) - 1
    ensures |schedule| <= (if t.Wanted(id).Some? then 3 * t.N() + 1 else 1)
  {
    schedule := [];
    if t.Wanted(id).Some? {
      ForkOrder(t.N(), id);
      schedule := FreeFork(t, t.Wanted(id).value);
      assert !HoldsFrom(t, id, t.Wanted(id).value);
    }
    AppendStep(t, schedule, id);
    schedule := schedule + [id];
  }

  lemma {:induction false} EatFrom(t: Table, id: nat) returns (schedule: seq<nat>)
    requires t.Inv() && id < t.N()
    ensures t.Legal(schedule) && t.Run(schedule).phases[id] == Eating
    ensures |schedule| <= match t.phases[id]
      case Eating => 0
      case HoldingOne => 3 * t.N() + 1
      case Starving => 6 * t.N() + 2
      case Thinking => 6 * t.N() + 3
      case DroppedOne => 6 * t.N() + 4
    decreases StepsToEating(t.phases[id])
  {
    schedule := [];
    if t.phases[id] != Eating {
      var first := Advance(t, id);
      var second := EatFrom(t.Run(first), id);
      RunAppend(t, first, second);
      schedule := first + second;
    }
  }

  /** From every reachable state and for every philosopher there is a finite sequence of
      allowed steps, of a length linear in N, after which that philosopher is eating. */
  lemma EveryoneCanEat(t: Table, id: nat)
    requires Reachable(t) && id < t.N()
    ensures t.Inv() && exists schedule: seq<nat> ::
      t.Legal(schedule) && t.Run(schedule).phases[id] == Eating && |schedule| <= 6 * t.N() + 4
  {
    ReachableInv(t);
    var schedule := EatFrom(t, id);
    assert t.Legal(schedule) && t.Run(schedule).phases[id] == Eating && |schedule| <= 6 * t.N() + 4;
  }
}
