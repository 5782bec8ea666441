/** The timer, metairq_fn and thread_fn as they are written, over one shared state, each with the
    others running in between.  What the program only leaves behind in logs is ghost history.

    Every state these programs go through is reachable in module MetaIrqPipeline, so what is proved
    there about runs holds of them. */
module MetaIrqThreads {
  import opened MetaIrqPipeline
  import opened Options

  /** What the others do while a thread waits for a message, and while it holds one. */
  datatype Round = Round(waiting: seq<Event>, holding: seq<Event>)

  /** e, if it is possible when its turn comes. */
  function Happens(c: Config, s: System, e: Event): System
    requires 0 < c.threads
  {
    if Legal(s, e) then Step(c, s, e) else s
  }

  function After(c: Config, s: System, events: seq<Event>): System
    requires 0 < c.threads
  {
    if events == [] then s else Happens(c, After(c, s, events[..|events| - 1]), events[|events| - 1])
  }

  /** The state after metairq_fn has gone around n times. */
  function MetaIrqRun(c: Config, s: System, rounds: seq<Round>, n: nat): System
    requires 0 < c.threads && n <= |rounds|
  {
    if n == 0 then s
    else
      var t := After(c, MetaIrqRun(c, s, rounds, n - 1), rounds[n - 1].waiting);
      if Legal(t, Fetch) then Happens(c, After(c, Step(c, t, Fetch), rounds[n - 1].holding), Dispatch) else t
  }

  /** The state after thread_fn number id has gone around n times. */
  function WorkerRun(c: Config, s: System, id: nat, rounds: seq<Round>, n: nat): System
    requires 0 < c.threads && n <= |rounds|
  {
    if n == 0 then s
    else
      var t := After(c, WorkerRun(c, s, id, rounds, n - 1), rounds[n - 1].waiting);
      if Legal(t, Get(id)) then Happens(c, After(c, Step(c, t, Get(id)), rounds[n - 1].holding), Finish(id)) else t
  }

  class Pipeline {
    const config: Config
    const threads: array<Worker>
    var armed: bool
    var msgSeq: nat
    var hwMsgs: seq<Message>
    var held: Option<Message>
    ghost var created: seq<Message>
    ghost var lostAtDevice: seq<Message>
    ghost var lostAtWorker: seq<Message>
    ghost var log: seq<Event>

    ghost function State(): System
      reads this, threads
    {
      System(armed, msgSeq, hwMsgs, held, threads[..], created, lostAtDevice, lostAtWorker)
    }

    ghost predicate Valid()
      reads this, threads
    {
      0 < config.threads && Reached(config, log, State())
    }

    constructor (config: Config)
      requires 0 < config.threads
      ensures Valid() && this.config == config && State() == Initial(config) && fresh(threads)
    {
      this.config := config;
      threads := new Worker[config.threads](_ => Worker([], None, []));
      armed, msgSeq, hwMsgs, held := true, 0, [], None;
      created, lostAtDevice, lostAtWorker, log := [], [], [], [];
      new;
      assert threads[..] == Initial(config).workers;
    }

    /** dev_timer_expired: a new message, dropped when the device queue is full. */
    method DevTimerExpired(random: nat)
      requires Valid() && Legal(State(), Timer(random))
      modifies this
      ensures Valid() && State() == Step(config, old(State()), Timer(random))
    {
      hide Reached, Inv;
      Logs(config, log, State(), Timer(random));
      log := log + [Timer(random)];
      var m := Message(msgSeq, random % config.threads);
      msgSeq := msgSeq + 1;
      created := created + [m];
      if |hwMsgs| < config.deviceDepth {
        hwMsgs := hwMsgs + [m];
      } else {
        lostAtDevice := lostAtDevice + [m];
      }
      armed := m.number < config.maxEvents;
    }

    /** message_dev_fetch, once a message is there. */
    method MessageDevFetch()
      requires Valid() && Legal(State(), Fetch)
      modifies this
      ensures Valid() && State() == Step(config, old(State()), Fetch)
    {
      hide Reached, Inv;
      Logs(config, log, State(), Fetch);
      log := log + [Fetch];
      held, hwMsgs := Some(hwMsgs[0]), hwMsgs[1..];
    }

    /** metairq_fn passes the message it holds to its target, or drops it. */
    method MetaIrqPut()
      requires Valid() && Legal(State(), Dispatch)
      modifies this, threads
      ensures Valid() && State() == Step(config, old(State()), Dispatch)
    {
      hide Reached, Inv;
      Logs(config, log, State(), Dispatch);
      log := log + [Dispatch];
      var m := held.value;
      var t := threads[m.target];
      if |t.queue| < config.workerDepth {
        threads[m.target] := t.(queue := t.queue + [m]);
      } else {
        lostAtWorker := lostAtWorker + [m];
      }
      held := None;
    }

    /** thread_fn takes a message from its queue. */
    method ThreadGet(id: nat)
      requires Valid() && Legal(State(), Get(id))
      modifies this`log, threads
      ensures Valid() && State() == Step(config, old(State()), Get(id))
    {
      hide Reached, Inv;
      Logs(config, log, State(), Get(id));
      log := log + [Get(id)];
      var t := threads[id];
      threads[id] := t.(current := Some(t.queue[0]), queue := t.queue[1..]);
    }

    /** thread_fn has processed its message. */
    method ThreadFinish(id: nat)
      requires Valid() && Legal(State(), Finish(id))
      modifies this`log, threads
      ensures Valid() && State() == Step(config, old(State()), Finish(id))
    {
      hide Reached, Inv;
      Logs(config, log, State(), Finish(id));
      log := log + [Finish(id)];
      var t := threads[id];
      threads[id] := t.(current := None, finished := t.finished + [t.current.value]);
    }

    method Handle(e: Event)
      requires Valid() && Legal(State(), e)
      modifies this, threads
      ensures Valid() && State() == Step(config, old(State()), e)
    {
      hide Reached, Step;
      match e
      case Timer(random) => DevTimerExpired(random);
      case Fetch => MessageDevFetch();
      case Dispatch => MetaIrqPut();
      case Get(id) => ThreadGet(id);
      case Finish(id) => ThreadFinish(id);
    }

    /** The timer and other threads do these steps, as far as they are possible when their turn comes. */
    method Others(events: seq<Event>)
      requires Valid()
      modifies this, threads
      ensures Valid() && State() == After(config, old(State()), events)
      ensures NotDispatching(events) ==> held == old(held)
      ensures forall w :: 0 <= w < threads.Length && NotWorking(w, events) ==>
        SameProgress(old(threads[w]), threads[w])
    {
      hide Reached, Step, Legal;
      for k := 0 to |events|
        invariant Valid() && State() == After(config, old(State()), events[..k])
        invariant NotDispatching(events) ==> held == old(held)
        invariant forall w :: 0 <= w < threads.Length && NotWorking(w, events) ==>
          SameProgress(old(threads[w]), threads[w])
      {
        assert events[k] in events && events[..k + 1][..k] == events[..k];
        if CanHandle(events[k]) {
          OthersStep(config, State(), events[k]);
          Handle(events[k]);
        }
      }
      assert events[..|events|] == events;
    }

    predicate CanHandle(e: Event)
      reads this, threads
      ensures CanHandle(e) <==> Legal(State(), e)
    {
      match e
      case Timer(_) => armed
      case Fetch => held.None? && hwMsgs != []
      case Dispatch => held.Some? && held.value.target < threads.Length
      case Get(w) => w < threads.Length && threads[w].current.None? && threads[w].queue != []
      case Finish(w) => w < threads.Length && threads[w].current.Some?
    }

    /** metairq_fn: wait for a message, pass it on, and again. */
    method MetaIrqFn(rounds: seq<Round>)
      requires Valid() && held.None?
      requires forall k :: 0 <= k < |rounds| ==> NotDispatching(rounds[k].waiting) && NotDispatching(rounds[k].holding)
      modifies this, threads
      ensures Valid() && held.None? && State() == MetaIrqRun(config, old(State()), rounds, |rounds|)
    {
      hide Reached, Inv, After;
      for k := 0 to |rounds|
        invariant Valid() && held.None? && State() == MetaIrqRun(config, old(State()), rounds, k)
      {
        Others(rounds[k].waiting);
        if hwMsgs != [] {
          MessageDevFetch();
          Others(rounds[k].holding);
          TargetExists(config, log, State());
          MetaIrqPut();
        }
      }
    }

    /** thread_fn: wait for a message, process it, and again.  It finishes messages only, keeps what
        it has finished, and finishes at most one in each round. */
    method ThreadFn(id: nat, rounds: seq<Round>)
      requires Valid() && id < threads.Length && threads[id].current.None?
      requires forall k :: 0 <= k < |rounds| ==> NotWorking(id, rounds[k].waiting) && NotWorking(id, rounds[k].holding)
      modifies this, threads
      ensures Valid() && threads[id].current.None?
      ensures State() == WorkerRun(config, old(State()), id, rounds, |rounds|)
      ensures old(threads[id].finished) <= threads[id].finished
      ensures |threads[id].finished| <= |old(threads[id].finished)| + |rounds|
    {
      hide Reached, Inv, After;
      for k := 0 to |rounds|
        invariant Valid() && threads[id].current.None?
        invariant State() == WorkerRun(config, old(State()), id, rounds, k)
        invariant old(threads[id].finished) <= threads[id].finished
        invariant |threads[id].finished| <= |old(threads[id].finished)| + k
      {
        Others(rounds[k].waiting);
        if threads[id].queue != [] {
          ThreadGet(id);
          Others(rounds[k].holding);
          ThreadFinish(id);
        }
      }
    }
  }

  predicate NotDispatching(events: seq<Event>) {
    Fetch !in events && Dispatch !in events
  }

  predicate NotWorking(id: nat, events: seq<Event>) {
    Get(id) !in events && Finish(id) !in events
  }

  predicate Reached(c: Config, log: seq<Event>, s: System)
    requires 0 < c.threads
  {
    Run(c, Initial(c), log) == Some(s)
  }

  predicate SameProgress(v: Worker, w: Worker) {
    w.current == v.current && w.finished == v.finished
  }

  lemma OthersStep(c: Config, s: System, e: Event)
    requires 0 < c.threads && Legal(s, e)
    ensures var t := Step(c, s, e);
      && |t.workers| == |s.workers|
      && (e != Fetch && e != Dispatch ==> t.held == s.held)
      && forall w :: 0 <= w < |s.workers| && e != Get(w) && e != Finish(w) ==> SameProgress(s.workers[w], t.workers[w])
  {
  }

  lemma Logs(c: Config, log: seq<Event>, s: System, e: Event)
    requires 0 < c.threads && Reached(c, log, s) && Legal(s, e)
    ensures Reached(c, log + [e], Step(c, s, e))
  {
    hide Legal, Step;
    RunNext(c, Initial(c), log, e);
  }

  lemma {:induction false} RunNext(c: Config, s: System, events: seq<Event>, e: Event)
    requires 0 < c.threads && Run(c, s, events).Some? && Legal(Run(c, s, events).value, e)
    ensures Run(c, s, events + [e]) == Some(Step(c, Run(c, s, events).value, e))
    decreases |events|
  {
    hide Legal, Step;
    if events == [] {
      assert [] + [e] == [e] && [e][1..] == [];
      assert Run(c, Step(c, s, e), []) == Some(Step(c, s, e));
    } else {
      RunNext(c, Step(c, s, events[0]), events[1..], e);
      assert (events + [e])[1..] == events[1..] + [e];
    }
  }

  lemma TargetExists(c: Config, log: seq<Event>, s: System)
    requires 0 < c.threads && Reached(c, log, s)
    ensures s.held.Some? ==> Legal(s, Dispatch)
  {
    InitialInv(c);
    RunKeepsInv(c, Initial(c), log);
    assert s.held.Some? ==> Upstream(s)[0] == s.held.value;
  }

  /** What the others leave alone, over any number of their steps. */
  lemma {:induction false} AfterKeeps(c: Config, s: System, events: seq<Event>)
    requires 0 < c.threads && Inv(c, s)
    ensures var t := After(c, s, events);
      && Inv(c, t) && |t.workers| == |s.workers|
      && (NotDispatching(events) ==> t.held == s.held)
      && forall w :: 0 <= w < |s.workers| && NotWorking(w, events) ==> SameProgress(s.workers[w], t.workers[w])
  {
    if events != [] {
      var k := |events| - 1;
      AfterKeeps(c, s, events[..k]);
      var t := After(c, s, events[..k]);
      assert events[k] in events && forall e :: e in events[..k] ==> e in events;
      if Legal(t, events[k]) {
        hide Step, Legal, Inv, After;
        StepKeepsInv(c, t, events[k]);
        OthersStep(c, t, events[k]);
      }
    }
  }

  /** Each time around thread_fn finishes the oldest message it finds in its queue, if there is one,
      and nothing else. */
  lemma WorkerRound(c: Config, s: System, id: nat, rounds: seq<Round>, n: nat)
    requires 0 < c.threads && n < |rounds| && Inv(c, WorkerRun(c, s, id, rounds, n)) && id < c.threads
    requires WorkerRun(c, s, id, rounds, n).workers[id].current.None?
    requires NotWorking(id, rounds[n].waiting) && NotWorking(id, rounds[n].holding)
    ensures var u, v := WorkerRun(c, s, id, rounds, n), WorkerRun(c, s, id, rounds, n + 1);
      var found := After(c, u, rounds[n].waiting).workers;
      && Inv(c, v) && |found| == c.threads && v.workers[id].current.None?
      && v.workers[id].finished
         == u.workers[id].finished + (if found[id].queue == [] then [] else [found[id].queue[0]])
  {
    var u := WorkerRun(c, s, id, rounds, n);
    var t := After(c, u, rounds[n].waiting);
    AfterKeeps(c, u, rounds[n].waiting);
    if Legal(t, Get(id)) {
      StepKeepsInv(c, t, Get(id));
      var begun := Step(c, t, Get(id));
      AfterKeeps(c, begun, rounds[n].holding);
      StepKeepsInv(c, After(c, begun, rounds[n].holding), Finish(id));
    }
  }

  /** Each time around metairq_fn takes the oldest message from the device queue, if there is one;
      it ends up last in the queue of its target, or is lost. */
  lemma MetaIrqRound(c: Config, s: System, rounds: seq<Round>, n: nat)
    requires 0 < c.threads && n < |rounds| && Inv(c, MetaIrqRun(c, s, rounds, n))
    requires MetaIrqRun(c, s, rounds, n).held.None?
    requires NotDispatching(rounds[n].waiting) && NotDispatching(rounds[n].holding)
    ensures var u, v := MetaIrqRun(c, s, rounds, n), MetaIrqRun(c, s, rounds, n + 1);
      var t := After(c, u, rounds[n].waiting);
      && Inv(c, v) && v.held.None?
      && if t.hardware == [] then v == t
         else
           var m := t.hardware[0];
           && m.target < |v.workers|
           && ([m] <= Last(v.workers[m.target].queue) || [m] <= Last(v.lostAtWorker))
  {
    var u := MetaIrqRun(c, s, rounds, n);
    var t := After(c, u, rounds[n].waiting);
    AfterKeeps(c, u, rounds[n].waiting);
    if Legal(t, Fetch) {
      StepKeepsInv(c, t, Fetch);
      var fetched := Step(c, t, Fetch);
      var w := After(c, fetched, rounds[n].holding);
      AfterKeeps(c, fetched, rounds[n].holding);
      assert w.held == Some(t.hardware[0]) && Upstream(w)[0] == w.held.value;
      StepKeepsInv(c, w, Dispatch);
    }
  }

  function Last(q: seq<Message>): seq<Message> {
    if q == [] then [] else [q[|q| - 1]]
  }
}
