/** The philosophers' protocol over abstract forks: a fork is free or held by one thread.

    One step is one kernel call of one philosopher's endless loop.  The number of
    philosophers is a parameter; NUM_PHIL is 6 in the sample. */
module Dining {
  import opened Options

  /** Where a philosopher's loop stands, named after what it last reported. */
  datatype Phase = Starving | HoldingOne | Eating | DroppedOne | Thinking

  predicate IsLast(n: nat, id: nat) {
    id == n - 1
  }

  function Fork1(n: nat, id: nat): (f: nat)
    requires id < n
    ensures f < n
  {
    if IsLast(n, id) then 0 else id
  }

  function Fork2(n: nat, id: nat): (f: nat)
    requires id < n
    ensures f < n
  {
    if IsLast(n, id) then id else id + 1
  }

  /** The lower fork is always taken first, and the two forks are exactly those that
      start_threads grants the thread access to. */
  lemma ForkOrder(n: nat, id: nat)
    requires 2 <= n && id < n
    ensures Fork1(n, id) < Fork2(n, id)
    ensures {Fork1(n, id), Fork2(n, id)} == {id, (id + 1) % n}
  {
    if IsLast(n, id) {
      assert (id + 1) % n == 0;
    } else {
      assert (id + 1) % n == id + 1;
    }
  }

  datatype Table = Table(phases: seq<Phase>, holders: seq<Option<nat>>)
  {
    predicate Shaped() {
      |phases| == |holders| >= 2
    }

    function N(): nat {
      |phases|
    }

    /** The fork this philosopher's next step takes, if that step is a take. */
    function Wanted(id: nat): (f: Option<nat>)
      requires Shaped() && id < N()
      ensures f.Some? ==> f.value < N()
    {
      match phases[id]
      case Starving => Some(Fork1(N(), id))
      case HoldingOne => Some(Fork2(N(), id))
      case _ => None
    }

    /** A take waits for its fork; every other step can always be made. */
    predicate CanStep(id: nat)
      requires Shaped()
    {
      id < N() && (Wanted(id).Some? ==> holders[Wanted(id).value].None?)
    }

    function Step(id: nat): (t: Table)
      requires Shaped() && CanStep(id)
      ensures t.Shaped() && t.N() == N()
    {
      var f1, f2 := Fork1(N(), id), Fork2(N(), id);
      match phases[id]
      case Starving => Table(phases[id := HoldingOne], holders[f1 := Some(id)])
      case HoldingOne => Table(phases[id := Eating], holders[f2 := Some(id)])
      case Eating => Table(phases[id := DroppedOne], holders[f2 := None])
      case DroppedOne => Table(phases[id := Thinking], holders[f1 := None])
      case Thinking => Table(phases[id := Starving], holders)
    }

    predicate Legal(schedule: seq<nat>)
      requires Shaped()
      decreases |schedule|
    {
      schedule != [] ==> CanStep(schedule[0]) && Step(schedule[0]).Legal(schedule[1..])
    }

    /** The state after the philosophers named in the schedule have stepped, in that order. */
    function Run(schedule: seq<nat>): (t: Table)
      requires Shaped() && Legal(schedule)
      ensures t.Shaped() && t.N() == N()
      decreases |schedule|
    {
      if schedule == [] then this else Step(schedule[0]).Run(schedule[1..])
    }

    /** What the program text says a philosopher in this phase is holding. */
    predicate Holds(id: nat, f: nat)
      requires id < N()
    {
      match phases[id]
      case HoldingOne => f == Fork1(N(), id)
      case Eating => f == Fork1(N(), id) || f == Fork2(N(), id)
      case DroppedOne => f == Fork1(N(), id)
      case _ => false
    }

    /** Every fork is held by exactly the philosopher whose program position says so. */
    predicate Inv() {
      && Shaped()
      && (forall f :: 0 <= f < N() && holders[f].Some? ==> holders[f].value < N() && Holds(holders[f].value, f))
      && (forall id, f :: 0 <= id < N() && 0 <= f < N() && Holds(id, f) ==> holders[f] == Some(id))
    }
  }

  function Init(n: nat): (t: Table)
    requires 2 <= n
    ensures t.Inv() && t.N() == n
  {
    Table(seq(n, _ => Starving), seq(n, _ => None))
  }

  ghost predicate Reachable(t: Table) {
    exists n: nat, schedule: seq<nat> :: 2 <= n && Init(n).Legal(schedule) && Init(n).Run(schedule) == t
  }

  lemma StepKeepsInv(t: Table, id: nat)
    requires t.Inv() && t.CanStep(id)
    ensures t.Step(id).Inv()
    ensures forall k :: 0 <= k < t.N() && k != id ==> t.Step(id).phases[k] == t.phases[k]
  {
    var n, u := t.N(), t.Step(id);
    ForkOrder(n, id);
    assert t.Holds(id, Fork1(n, id)) ==> t.holders[Fork1(n, id)] == Some(id);
    assert t.Holds(id, Fork2(n, id)) ==> t.holders[Fork2(n, id)] == Some(id);
    assert forall k, f :: 0 <= k < n && k != id ==> u.Holds(k, f) == t.Holds(k, f);
    forall k, f | 0 <= k < n && 0 <= f < n && u.Holds(k, f)
      ensures u.holders[f] == Some(k)
    {
      if k != id {
        assert t.holders[f] == Some(k);
      }
    }
    forall f | 0 <= f < n && u.holders[f].Some?
      ensures u.holders[f].value < n && u.Holds(u.holders[f].value, f)
    {
      if u.holders[f] == Some(id) && t.holders[f] == Some(id) {
        assert t.Holds(id, f);
      }
    }
  }

  lemma {:induction false} RunKeepsInv(t: Table, schedule: seq<nat>)
    requires t.Inv() && t.Legal(schedule)
    ensures t.Run(schedule).Inv()
    decreases |schedule|
  {
    if schedule != [] {
      StepKeepsInv(t, schedule[0]);
      RunKeepsInv(t.Step(schedule[0]), schedule[1..]);
    }
  }

  lemma ReachableInv(t: Table)
    requires Reachable(t)
    ensures t.Inv()
  {
    var n: nat, schedule: seq<nat> :| 2 <= n && Init(n).Legal(schedule) && Init(n).Run(schedule) == t;
    RunKeepsInv(Init(n), schedule);
  }

  /** What a philosopher holds in each phase of every reachable state, and what its next step waits
      for and leads to, by fork number: the lower one is taken first and dropped last. */
  lemma TakesLowerFirstDropsItLast(t: Table, id: nat)
    requires Reachable(t) && id < t.N()
    ensures t.Inv()
    ensures var lower, upper := (if id + 1 == t.N() then 0 else id), (if id + 1 == t.N() then id else id + 1);
      var hasLower, hasUpper := t.holders[lower] == Some(id), t.holders[upper] == Some(id);
      && (t.phases[id] == Starving ==> !hasLower && !hasUpper && (t.CanStep(id) <==> t.holders[lower].None?))
      && (t.phases[id] == HoldingOne ==> hasLower && !hasUpper && (t.CanStep(id) <==> t.holders[upper].None?))
      && (t.phases[id] == Eating ==> hasLower && hasUpper && t.CanStep(id))
      && (t.phases[id] == DroppedOne ==> hasLower && !hasUpper && t.CanStep(id))
      && (t.phases[id] == Thinking ==> !hasLower && !hasUpper && t.CanStep(id))
    ensures t.CanStep(id) ==> match t.phases[id]
      case Starving => t.Step(id).phases[id] == HoldingOne
      case HoldingOne => t.Step(id).phases[id] == Eating
      case Eating => t.Step(id).phases[id] == DroppedOne
      case DroppedOne => t.Step(id).phases[id] == Thinking
      case Thinking => t.Step(id).phases[id] == Starving
  {
    ReachableInv(t);
    ForkOrder(t.N(), id);
    var f1, f2 := Fork1(t.N(), id), Fork2(t.N(), id);
    assert t.Holds(id, f1) <==> t.holders[f1] == Some(id);
    assert t.Holds(id, f2) <==> t.holders[f2] == Some(id);
  }

  lemma EatingHolds(t: Table, id: nat, f: nat)
    requires t.Inv() && id < t.N() && t.phases[id] == Eating
    requires f == id || f == (id + 1) % t.N()
    ensures f < t.N() && t.holders[f] == Some(id)
  {
    ForkOrder(t.N(), id);
    assert f in {Fork1(t.N(), id), Fork2(t.N(), id)};
    assert t.Holds(id, f);
  }

  lemma NextIsAnother(n: nat, id: nat)
    requires 2 <= n && id < n
    ensures (id + 1) % n < n && (id + 1) % n != id
  {
    assert (id + 1) % n == if id + 1 < n then id + 1 else 0;
  }

  /** No fork is ever in two hands, so neighbours never eat at the same time. */
  lemma NeighboursNeverEatTogether(t: Table, id: nat)
    requires Reachable(t) && id < t.N()
    ensures forall f, p, q ::
      0 <= f < t.N() && 0 <= p < t.N() && 0 <= q < t.N() && t.Holds(p, f) && t.Holds(q, f) ==> p == q
    ensures !(t.phases[id] == Eating && t.phases[(id + 1) % t.N()] == Eating)
  {
    ReachableInv(t);
    var next := (id + 1) % t.N();
    NextIsAnother(t.N(), id);
    if t.phases[id] == Eating {
      EatingHolds(t, id, next);
    }
    if t.phases[next] == Eating {
      EatingHolds(t, next, next);
    }
  }

  /** From a philosopher to the holder of the fork it waits for, and on, until one can step. */
  function WaitChain(t: Table, id: nat): (chain: seq<nat>)
    requires t.Inv() && id < t.N()
    decreases t.N() - (if t.Wanted(id).Some? then t.Wanted(id).value else t.N())
  {
    if t.CanStep(id) then [id]
    else
      var holder := t.holders[t.Wanted(id).value].value;
      ForkOrder(t.N(), holder);
      [id] + WaitChain(t, holder)
  }

  predicate WaitsFor(t: Table, p: nat, q: nat)
    requires t.Shaped() && p < t.N() && q < t.N()
  {
    t.Wanted(p).Some? && t.holders[t.Wanted(p).value] == Some(q)
  }

  /** The chain's links are real waits, the wanted fork numbers strictly increase along it,
      and only its last philosopher can step. */
  ghost predicate IsWaitChain(t: Table, chain: seq<nat>)
    requires t.Shaped()
  {
    && chain != []
    && (forall i :: 0 <= i < |chain| ==> chain[i] < t.N())
    && (forall i, j :: 0 <= i && j == i + 1 && j < |chain| ==> WaitsFor(t, chain[i], chain[j]))
    && (forall i, j :: 0 <= i && j == i + 1 && j < |chain| && t.Wanted(chain[j]).Some? ==>
          t.Wanted(chain[i]).value < t.Wanted(chain[j]).value)
    && t.CanStep(chain[|chain| - 1])
  }

  lemma {:induction false} WaitChainCorrect(t: Table, id: nat)
    requires t.Inv() && id < t.N()
    ensures var chain := WaitChain(t, id); IsWaitChain(t, chain) && chain[0] == id
    ensures t.Wanted(id).Some? ==> |WaitChain(t, id)| <= t.N() - t.Wanted(id).value + 1
    ensures t.Wanted(id).None? ==> |WaitChain(t, id)| == 1
    decreases t.N() - (if t.Wanted(id).Some? then t.Wanted(id).value else t.N())
  {
    if !t.CanStep(id) {
      var holder := t.holders[t.Wanted(id).value].value;
      ForkOrder(t.N(), holder);
      WaitChainCorrect(t, holder);
    }
  }

  /** No deadlock: from every philosopher in every reachable state the chain of waits
      climbs the fork numbers and ends within N hops at somebody who can step. */
  lemma NoDeadlock(t: Table, id: nat)
    requires Reachable(t) && id < t.N()
    ensures t.Inv() && IsWaitChain(t, WaitChain(t, id)) && WaitChain(t, id)[0] == id
    ensures |WaitChain(t, id)| <= t.N() + 1
    ensures exists p :: 0 <= p < t.N() && t.CanStep(p)
  {
    ReachableInv(t);
    WaitChainCorrect(t, id);
    var chain := WaitChain(t, id);
    assert t.CanStep(chain[|chain| - 1]);
  }
}
