/** The five kernel objects the sample can use as forks, and a table set with any of them.

    The kernel itself is not part of this model: each object does what its take and drop
    macros rely on.  Every kind refines the abstract fork of module Dining. */
module DiningForks {
  import opened Dining
  import opened Options
  import Progress = DiningProgress

  const MAGIC := 0xa5a5ee11

  datatype Kind = Semaphores | Mutexes | Stacks | Fifos | Lifos

  /** The packet embedded in fork object `home`; queues link such packets, they do not copy them. */
  datatype Packet = Packet(home: nat, data: int)

  datatype ForkObject =
    | Sem(count: nat, limit: nat)
    | Mutex(owner: Option<nat>, lockCount: nat)
    | Stack(words: seq<int>, capacity: nat)
    | Fifo(queue: seq<Packet>)
    | Lifo(queue: seq<Packet>)
  {
    /** False while the take macro would block the calling thread.  A mutex lets its owner in again. */
    predicate CanTake(id: nat) {
      match this
      case Sem(count, _) => count > 0
      case Mutex(owner, lockCount) => lockCount == 0 || owner == Some(id)
      case Stack(words, _) => words != []
      case Fifo(queue) => queue != []
      case Lifo(queue) => queue != []
    }

    function Take(id: nat): ForkObject
      requires CanTake(id)
    {
      match this
      case Sem(count, limit) => Sem(count - 1, limit)
      case Mutex(_, lockCount) => Mutex(Some(id), lockCount + 1)
      case Stack(words, capacity) => Stack(words[..|words| - 1], capacity)
      case Fifo(queue) => Fifo(queue[1..])
      case Lifo(queue) => Lifo(queue[1..])
    }

    /** The word the take macro asserts to be MAGIC; semaphores and mutexes carry none. */
    function Received(id: nat): Option<int>
      requires CanTake(id)
    {
      match this
      case Sem(_, _) => None
      case Mutex(_, _) => None
      case Stack(words, _) => Some(words[|words| - 1])
      case Fifo(queue) => Some(queue[0].data)
      case Lifo(queue) => Some(queue[0].data)
    }

    /** The drop macro; a give beyond the limit or an unlock by a stranger changes nothing. */
    function Drop(id: nat, fork: nat): ForkObject {
      match this
      case Sem(count, limit) => Sem(if count < limit then count + 1 else count, limit)
      case Mutex(owner, lockCount) =>
        if owner != Some(id) || lockCount == 0 then this
        else if lockCount == 1 then Mutex(None, 0)
        else Mutex(owner, lockCount - 1)
      case Stack(words, capacity) => if |words| < capacity then Stack(words + [MAGIC], capacity) else this
      case Fifo(queue) => Fifo(queue + [Packet(fork, MAGIC)])
      case Lifo(queue) => Lifo([Packet(fork, MAGIC)] + queue)
    }

    /** No give past the limit, no unlock of another's mutex, no push onto a full stack, and
        no packet linked into a queue it is already in. */
    predicate DropFits(id: nat, fork: nat) {
      match this
      case Sem(count, limit) => count < limit
      case Mutex(owner, lockCount) => owner == Some(id) && lockCount > 0
      case Stack(words, capacity) => |words| < capacity
      case Fifo(queue) => forall p :: p in queue ==> p.home != fork
      case Lifo(queue) => forall p :: p in queue ==> p.home != fork
    }

    /** How many takes the object would still let through. */
    function Tokens(): int {
      match this
      case Sem(count, _) => count
      case Mutex(_, lockCount) => 1 - lockCount
      case Stack(words, _) => |words|
      case Fifo(queue) => |queue|
      case Lifo(queue) => |queue|
    }

    predicate Represents(fork: nat, holder: Option<nat>) {
      match this
      case Sem(count, limit) => limit == 1 && count == if holder.None? then 1 else 0
      case Mutex(owner, lockCount) => owner == holder && lockCount == if holder.None? then 0 else 1
      case Stack(words, capacity) => capacity == 1 && words == if holder.None? then [MAGIC] else []
      case Fifo(queue) => queue == if holder.None? then [Packet(fork, MAGIC)] else []
      case Lifo(queue) => queue == if holder.None? then [Packet(fork, MAGIC)] else []
    }
  }

  function ForkInit(kind: Kind, fork: nat): (o: ForkObject)
    ensures o.Represents(fork, None)
  {
    match kind
    case Semaphores => Sem(1, 1)
    case Mutexes => Mutex(None, 0)
    case Stacks => Stack([MAGIC], 1)
    case Fifos => Fifo([Packet(fork, MAGIC)])
    case Lifos => Lifo([Packet(fork, MAGIC)])
  }

  /** Any kind of fork behaves as the abstract one: a take gets through exactly when nobody
      holds the fork, what it receives is MAGIC, a drop by the holder always fits, and tokens
      and holders together are always one. */
  lemma ForkRefines(o: ForkObject, fork: nat, holder: Option<nat>, id: nat)
    requires o.Represents(fork, holder)
    ensures o.Tokens() + (if holder.Some? then 1 else 0) == 1
    ensures holder != Some(id) ==> (o.CanTake(id) <==> holder.None?)
    ensures holder.None? ==> o.CanTake(id) && o.Take(id).Represents(fork, Some(id))
    ensures holder.None? ==> o.Received(id) == None || o.Received(id) == Some(0xa5a5ee11)
    ensures holder == Some(id) ==> o.DropFits(id, fork) && o.Drop(id, fork).Represents(fork, None)
  {
  }

  /** Whatever else it holds, a take from a stack or a LIFO undoes the drop before it, while a FIFO
      gives out what it has held longest. */
  lemma DropThenTake(o: ForkObject, id: nat, fork: nat)
    requires o.Stack? || o.Fifo? || o.Lifo?
    requires o.DropFits(id, fork)
    ensures var dropped := o.Drop(id, fork);
      && dropped.CanTake(id) && dropped.Tokens() == o.Tokens() + 1
      && (!o.Fifo? ==> dropped.Take(id) == o && dropped.Received(id) == Some(0xa5a5ee11))
      && (o.Fifo? && o.CanTake(id) ==>
        dropped.Received(id) == o.Received(id) && dropped.Take(id) == o.Take(id).Drop(id, fork))
  {
    match o
    case Sem(_, _) =>
    case Mutex(_, _) =>
    case Stack(words, _) => assert (words + [MAGIC])[..|words|] == words;
    case Fifo(queue) =>
      var p := Packet(fork, MAGIC);
      assert queue != [] ==> (queue + [p])[1..] == queue[1..] + [p];
    case Lifo(queue) => assert ([Packet(fork, MAGIC)] + queue)[1..] == queue;
  }

  /** Whether a take gets through never depends on the kind, as long as no thread asks for a
      fork it already holds. */
  lemma KindsAgree(o: ForkObject, o': ForkObject, fork: nat, holder: Option<nat>, id: nat)
    requires o.Represents(fork, holder) && o'.Represents(fork, holder) && holder != Some(id)
    ensures o.CanTake(id) == o'.CanTake(id)
  {
    ForkRefines(o, fork, holder, id);
    ForkRefines(o', fork, holder, id);
  }

  /** The only philosopher of a table for one, and its only fork, which nobody else touches. */
  datatype Lone = Lone(phase: Phase, fork: ForkObject)
  {
    predicate Takes() {
      phase == Starving || phase == HoldingOne
    }

    predicate CanStep() {
      Takes() ==> fork.CanTake(0)
    }

    function Step(): Lone
      requires CanStep()
    {
      var f := if Takes() then fork.Take(0) else if phase == Thinking then fork else fork.Drop(0, 0);
      Lone(Next(phase), f)
    }

    /** The state after n steps, unless the philosopher gets stuck before. */
    function After(n: nat): Option<Lone>
      decreases n
    {
      if n == 0 then Some(this)
      else if CanStep() then Step().After(n - 1)
      else None
    }
  }

  function LoneStart(kind: Kind): Lone {
    Lone(Starving, ForkInit(kind, 0))
  }

  /** With a single philosopher both forks are fork 0, and the kinds do differ: after its first take
      it is stuck for ever, except on a mutex, which is recursive and lets it go on for ever.  So the
      protocol needs N >= 2. */
  lemma LonePhilosopher(kind: Kind, n: nat)
    ensures Fork1(1, 0) == Fork2(1, 0) == 0
    ensures LoneStart(kind).After(n).Some? <==> kind == Mutexes || n <= 1
  {
    if kind == Mutexes {
      MutexGoesOn(n);
    } else if n >= 2 {
      var s := LoneStart(kind);
      assert !s.Step().CanStep();
      assert s.After(n) == s.Step().After(n - 1) == None;
    }
  }

  lemma {:induction false} MutexGoesOn(n: nat)
    ensures LoneStart(Mutexes).After(n).Some?
  {
    var s0 := LoneStart(Mutexes);
    var s1 := s0.Step();
    var s2 := s1.Step();
    var s3 := s2.Step();
    var s4 := s3.Step();
    assert s4.CanStep() && s4.Step() == s0;
    if n >= 5 {
      MutexGoesOn(n - 5);
      assert s4.After(n - 4) == s0.After(n - 5);
      assert s3.After(n - 3) == s4.After(n - 4);
      assert s2.After(n - 2) == s3.After(n - 3);
      assert s1.After(n - 1) == s2.After(n - 2);
      assert s0.After(n) == s1.After(n - 1);
    } else if n == 4 {
      assert s3.After(1) == s4.After(0) && s2.After(2) == s3.After(1);
      assert s1.After(3) == s2.After(2) && s0.After(4) == s1.After(3);
    } else if n == 3 {
      assert s2.After(1) == s3.After(0) && s1.After(2) == s2.After(1) && s0.After(3) == s1.After(2);
    } else if n == 2 {
      assert s1.After(1) == s2.After(0) && s0.After(2) == s1.After(1);
    } else if n == 1 {
      assert s0.After(1) == s1.After(0);
    }
  }

  /** The running sample: N loop positions and N fork objects of one kind. */
  class Restaurant {
    var phases: seq<Phase>
    var forks: seq<ForkObject>
    ghost var table: Table

    ghost predicate Valid()
      reads this
    {
      && table.Inv()
      && phases == table.phases && |forks| == table.N()
      && Represented()
    }

    ghost predicate Represented()
      requires |forks| == |table.holders|
      reads this
    {
      forall f :: 0 <= f < |forks| ==> forks[f].Represents(f, table.holders[f])
    }

    constructor (kind: Kind, n: nat)
      requires 2 <= n
      ensures Valid() && table == Init(n)
    {
      phases := seq(n, _ => Starving);
      forks := seq(n, f requires 0 <= f => ForkInit(kind, f));
      table := Init(n);
    }

    method TakeFork(id: nat, f: nat) returns (taken: bool)
      requires Valid() && id < |phases| && table.Wanted(id) == Some(f)
      modifies this`forks
      ensures taken == table.holders[f].None?
      ensures |forks| == old(|forks|)
      ensures forall k :: 0 <= k < |forks| && k != f ==> forks[k] == old(forks)[k]
      ensures forks[f].Represents(f, if taken then Some(id) else table.holders[f])
    {
      ForkOrder(table.N(), id);
      assert !table.Holds(id, f);
      ForkRefines(forks[f], f, table.holders[f], id);
      taken := forks[f].CanTake(id);
      if taken {
        var data := forks[f].Received(id);
        assert data.Some? ==> data.value == MAGIC;
        forks := forks[f := forks[f].Take(id)];
      }
    }

    method DropFork(id: nat, f: nat)
      requires Valid() && id < |phases| && f < |forks| && table.holders[f] == Some(id)
      modifies this`forks
      ensures |forks| == old(|forks|)
      ensures forall k :: 0 <= k < |forks| && k != f ==> forks[k] == old(forks)[k]
      ensures forks[f].Represents(f, None)
    {
      ForkRefines(forks[f], f, table.holders[f], id);
      assert forks[f].DropFits(id, f);
      forks := forks[f := forks[f].Drop(id, f)];
    }

    /** One step of the philosopher loop.  It blocks exactly when the abstract step is not
        allowed, and otherwise does exactly what the abstract step does. */
    method Step(id: nat) returns (moved: bool)
      requires Valid() && id < |phases|
      modifies this
      ensures Valid()
      ensures moved == old(table).CanStep(id)
      ensures table == if moved then old(table).Step(id) else old(table)
    {
      ForkOrder(|phases|, id);
      var f1, f2 := Fork1(|phases|, id), Fork2(|phases|, id);
      moved := true;
      assert table.Holds(id, f1) ==> table.holders[f1] == Some(id);
      assert table.Holds(id, f2) ==> table.holders[f2] == Some(id);
      match phases[id] {
        case Starving => moved := TakeFork(id, f1);
        case HoldingOne => moved := TakeFork(id, f2);
        case Eating => DropFork(id, f2);
        case DroppedOne => DropFork(id, f1);
        case Thinking =>
      }
      if moved {
        StepKeepsInv(table, id);
        table := table.Step(id);
        phases := phases[id := Next(phases[id])];
      }
    }

    /** Any interleaving: threads that cannot go on are passed over.  Which steps get through
        does not depend on the kind of fork. */
    method RunAll(schedule: seq<nat>) returns (moves: seq<nat>)
      requires Valid() && forall k :: k in schedule ==> k < |phases|
      modifies this
      ensures Valid() && old(table).Legal(moves) && old(table).Run(moves) == table
      ensures moves == Moves(old(table), schedule)
    {
      hide Moves, Represented, IsLast, Fork1, Fork2;
      moves := [];
      var i := 0;
      assert schedule[0..] == schedule;
      while i < |schedule|
        invariant 0 <= i <= |schedule|
        invariant Valid() && |phases| == old(|phases|)
        invariant old(table).Legal(moves) && old(table).Run(moves) == table
        invariant Moves(old(table), schedule) == moves + Moves(table, schedule[i..])
      {
        ghost var before := table;
        assert schedule[i] in schedule;
        var moved := Step(schedule[i]);
        MovesUnfold(before, schedule[i..]);
        assert schedule[i..][1..] == schedule[i + 1..];
        if moved {
          Progress.AppendStep(old(table), moves, schedule[i]);
          moves := moves + [schedule[i]];
        }
        i := i + 1;
      }
      assert schedule[i..] == [];
      MovesUnfold(table, []);
      assert moves + [] == moves;
    }
  }

  function Next(p: Phase): Phase {
    match p
    case Starving => HoldingOne
    case HoldingOne => Eating
    case Eating => DroppedOne
    case DroppedOne => Thinking
    case Thinking => Starving
  }

  /** The schedule with the blocked attempts left out. */
  function Moves(t: Table, schedule: seq<nat>): (moves: seq<nat>)
    requires t.Shaped()
    decreases |schedule|
  {
    if schedule == [] then []
    else if t.CanStep(schedule[0]) then [schedule[0]] + Moves(t.Step(schedule[0]), schedule[1..])
    else Moves(t, schedule[1..])
  }

  lemma MovesUnfold(t: Table, schedule: seq<nat>)
    requires t.Shaped()
    ensures schedule == [] ==> Moves(t, schedule) == []
    ensures schedule != [] && t.CanStep(schedule[0]) ==>
      Moves(t, schedule) == [schedule[0]] + Moves(t.Step(schedule[0]), schedule[1..])
    ensures schedule != [] && !t.CanStep(schedule[0]) ==> Moves(t, schedule) == Moves(t, schedule[1..])
  {
  }
}
