/** The message pipeline of the metairq_dispatch sample: a timer creates messages, a MetaIRQ
    thread takes them from the device queue to the queues of worker threads, and both queues
    drop what does not fit.  The constants of the sample are a Config. */
module MetaIrqPipeline {
  import opened Options

  datatype Config = Config(threads: nat, deviceDepth: nat, workerDepth: nat, maxEvents: nat)

  datatype Message = Message(number: nat, target: nat)

  /** A worker thread: its queue, the message it is processing and those it has finished. */
  datatype Worker = Worker(queue: seq<Message>, current: Option<Message>, finished: seq<Message>)

  /** created, lostAtDevice, lostAtWorker and finished are history; the rest is what the program
      stores.  armed says that the timer will expire again. */
  datatype System = System(
    armed: bool,
    next: nat,
    hardware: seq<Message>,
    held: Option<Message>,
    workers: seq<Worker>,
    created: seq<Message>,
    lostAtDevice: seq<Message>,
    lostAtWorker: seq<Message>)

  datatype Event = Timer(random: nat) | Fetch | Dispatch | Get(worker: nat) | Finish(worker: nat)

  function AsSeq<T>(o: Option<T>): seq<T> {
    if o.Some? then [o.value] else []
  }

  function Initial(c: Config): System {
    System(true, 0, [], None, seq(c.threads, i => Worker([], None, [])), [], [], [])
  }

  predicate Legal(s: System, e: Event) {
    match e
    case Timer(_) => s.armed
    case Fetch => s.held.None? && s.hardware != []
    case Dispatch => s.held.Some? && s.held.value.target < |s.workers|
    case Get(w) => w < |s.workers| && s.workers[w].current.None? && s.workers[w].queue != []
    case Finish(w) => w < |s.workers| && s.workers[w].current.Some?
  }

  function Expire(c: Config, s: System, random: nat): System
    requires 0 < c.threads
  {
    var m := Message(s.next, random % c.threads);
    var t := s.(next := s.next + 1, created := s.created + [m], armed := s.next < c.maxEvents);
    if |s.hardware| < c.deviceDepth then
      t.(hardware := s.hardware + [m])
    else
      t.(lostAtDevice := s.lostAtDevice + [m])
  }

  function Deliver(c: Config, s: System): System
    requires Legal(s, Dispatch)
  {
    var m := s.held.value;
    var w := s.workers[m.target];
    if |w.queue| < c.workerDepth then
      s.(held := None, workers := s.workers[m.target := w.(queue := w.queue + [m])])
    else
      s.(held := None, lostAtWorker := s.lostAtWorker + [m])
  }

  function Begin(w: Worker): Worker
    requires w.queue != []
  {
    w.(queue := w.queue[1..], current := Some(w.queue[0]))
  }

  function Complete(w: Worker): Worker
    requires w.current.Some?
  {
    w.(current := None, finished := w.finished + [w.current.value])
  }

  function Step(c: Config, s: System, e: Event): System
    requires 0 < c.threads && Legal(s, e)
  {
    match e
    case Timer(random) => Expire(c, s, random)
    case Fetch => s.(held := Some(s.hardware[0]), hardware := s.hardware[1..])
    case Dispatch => Deliver(c, s)
    case Get(w) => s.(workers := s.workers[w := Begin(s.workers[w])])
    case Finish(w) => s.(workers := s.workers[w := Complete(s.workers[w])])
  }

  /** The states an allowed sequence of events leads to; None when one is not allowed. */
  function Run(c: Config, s: System, events: seq<Event>): Option<System>
    requires 0 < c.threads
    decreases |events|
  {
    if events == [] then Some(s)
    else if Legal(s, events[0]) then Run(c, Step(c, s, events[0]), events[1..])
    else None
  }

  // What is where

  /** All messages a worker has received, oldest first. */
  function Line(w: Worker): seq<Message> {
    w.finished + AsSeq(w.current) + w.queue
  }

  /** How often a message is in the lines of the workers. */
  function Received(ws: seq<Worker>, m: Message): nat {
    if ws == [] then 0 else Times(Line(ws[0]), m) + Received(ws[1..], m)
  }

  function Times(q: seq<Message>, m: Message): nat {
    multiset(q)[m]
  }

  function Upstream(s: System): seq<Message> {
    AsSeq(s.held) + s.hardware
  }

  /** How often a message is anywhere. */
  function Everywhere(s: System, m: Message): nat {
    Times(Upstream(s), m) + Received(s.workers, m) + Times(s.lostAtDevice, m) + Times(s.lostAtWorker, m)
  }

  predicate Increasing(q: seq<Message>) {
    forall i, j :: 0 <= i < j < |q| ==> q[i].number < q[j].number
  }

  predicate Numbered(q: seq<Message>) {
    forall i :: 0 <= i < |q| ==> q[i].number == i
  }

  predicate Targets(q: seq<Message>, threads: nat) {
    forall i :: 0 <= i < |q| ==> q[i].target < threads
  }

  predicate Below(q: seq<Message>, bound: nat) {
    forall i :: 0 <= i < |q| ==> q[i].number < bound
  }

  predicate For(q: seq<Message>, worker: nat) {
    forall i :: 0 <= i < |q| ==> q[i].target == worker
  }

  /** What a worker has received together with what is still on its way to any worker. */
  function Path(s: System, w: nat): seq<Message>
    requires w < |s.workers|
  {
    Line(s.workers[w]) + Upstream(s)
  }

  predicate WorkerInv(c: Config, s: System, w: nat)
    requires w < |s.workers|
  {
    && |s.workers[w].queue| <= c.workerDepth
    && For(Line(s.workers[w]), w)
    && Increasing(Path(s, w))
    && Below(Path(s, w), s.next)
  }

  ghost predicate Counted(c: Config, s: System) {
    && |s.created| == s.next <= c.maxEvents + 1
    && (s.armed <==> s.next <= c.maxEvents)
    && Numbered(s.created)
    && Targets(s.created, c.threads)
    && forall m :: Times(s.created, m) == Everywhere(s, m)
  }

  ghost predicate Inv(c: Config, s: System) {
    && |s.workers| == c.threads
    && |s.hardware| <= c.deviceDepth
    && Targets(Upstream(s), c.threads)
    && Counted(c, s)
    && forall w :: 0 <= w < |s.workers| ==> WorkerInv(c, s, w)
  }

  // Every step keeps the invariant

  lemma {:induction false} ReceivedUpdate(ws: seq<Worker>, i: nat, w: Worker, m: Message)
    requires i < |ws|
    ensures Received(ws[i := w], m) == Received(ws, m) - Times(Line(ws[i]), m) + Times(Line(w), m)
  {
    hide Line, Times;
    if i == 0 {
      assert ws[i := w][1..] == ws[1..];
    } else {
      ReceivedUpdate(ws[1..], i - 1, w, m);
      assert ws[i := w][1..] == ws[1..][i - 1 := w];
    }
  }

  lemma {:induction false} NothingReceived(ws: seq<Worker>, m: Message)
    requires forall i :: 0 <= i < |ws| ==> Line(ws[i]) == []
    ensures Received(ws, m) == 0
  {
    if ws != [] {
      NothingReceived(ws[1..], m);
    }
  }

  lemma InitialInv(c: Config)
    ensures Inv(c, Initial(c))
  {
    var s := Initial(c);
    forall w | 0 <= w < c.threads ensures Line(s.workers[w]) == [] && WorkerInv(c, s, w) {
    }
    forall m ensures Received(s.workers, m) == 0 {
      NothingReceived(s.workers, m);
    }
  }

  lemma AppendTimes(q: seq<Message>, x: Message, m: Message)
    ensures Times(q + [x], m) == Times(q, m) + if m == x then 1 else 0
    ensures Times([x] + q, m) == Times(q, m) + if m == x then 1 else 0
  {
  }

  lemma ExpireKeepsCount(c: Config, s: System, random: nat)
    requires 0 < c.threads && Inv(c, s) && s.armed
    ensures Counted(c, Expire(c, s, random))
  {
    hide WorkerInv, Times, Received;
    var t := Expire(c, s, random);
    var x := Message(s.next, random % c.threads);
    forall m ensures Times(t.created, m) == Everywhere(t, m) {
      assert Times(s.created, m) == Everywhere(s, m);
      AppendTimes(s.created, x, m);
      AppendTimes(Upstream(s), x, m);
      AppendTimes(s.lostAtDevice, x, m);
      assert Upstream(s) + [x] == AsSeq(s.held) + (s.hardware + [x]);
    }
  }

  lemma ExpireKeepsInv(c: Config, s: System, random: nat)
    requires 0 < c.threads && Inv(c, s) && s.armed
    ensures Inv(c, Expire(c, s, random))
  {
    hide Counted;
    var t := Expire(c, s, random);
    ExpireKeepsCount(c, s, random);
    var m := Message(s.next, random % c.threads);
    assert Upstream(t) == Upstream(s) || Upstream(t) == Upstream(s) + [m];
    forall w | 0 <= w < |s.workers| ensures WorkerInv(c, t, w) {
      assert WorkerInv(c, s, w);
      assert Path(t, w) == Path(s, w) || Path(t, w) == Path(s, w) + [m];
    }
  }

  lemma FetchKeepsInv(c: Config, s: System)
    requires 0 < c.threads && Inv(c, s) && Legal(s, Fetch)
    ensures Inv(c, Step(c, s, Fetch))
  {
    hide Received, Times;
    var t := Step(c, s, Fetch);
    assert Upstream(t) == Upstream(s);
    forall w | 0 <= w < |s.workers| ensures WorkerInv(c, t, w) {
      assert WorkerInv(c, s, w);
      assert Path(t, w) == Path(s, w);
    }
  }

  lemma DeliverKeepsCount(c: Config, s: System)
    requires 0 < c.threads && Inv(c, s) && Legal(s, Dispatch)
    ensures Counted(c, Deliver(c, s))
  {
    hide WorkerInv, Times, Received;
    var t := Deliver(c, s);
    var x := s.held.value;
    var w := s.workers[x.target];
    var v := w.(queue := w.queue + [x]);
    assert Upstream(s) == [x] + Upstream(t);
    assert Line(v) == Line(w) + [x];
    forall m ensures Times(t.created, m) == Everywhere(t, m) {
      assert Times(s.created, m) == Everywhere(s, m);
      AppendTimes(Upstream(t), x, m);
      AppendTimes(Line(w), x, m);
      ReceivedUpdate(s.workers, x.target, v, m);
      AppendTimes(s.lostAtWorker, x, m);
    }
  }

  lemma DeliverKeepsInv(c: Config, s: System)
    requires 0 < c.threads && Inv(c, s) && Legal(s, Dispatch)
    ensures Inv(c, Deliver(c, s))
  {
    hide Counted;
    var t := Deliver(c, s);
    var m := s.held.value;
    DeliverKeepsCount(c, s);
    assert Upstream(s) == [m] + Upstream(t);
    assert Upstream(t) == Upstream(s)[1..];
    forall w | 0 <= w < |s.workers| ensures WorkerInv(c, t, w) {
      assert WorkerInv(c, s, w);
      var line := Line(s.workers[w]);
      assert Path(s, w) == line + [m] + Upstream(t);
      if w == m.target && |s.workers[w].queue| < c.workerDepth {
        assert Line(t.workers[w]) == line + [m];
        assert Path(t, w) == Path(s, w);
      } else {
        assert Path(t, w) == line + Upstream(t);
        WithoutMiddle(line, m, Upstream(t), s.next);
      }
    }
  }

  lemma WithoutMiddle(a: seq<Message>, m: Message, b: seq<Message>, bound: nat)
    requires Increasing(a + [m] + b) && Below(a + [m] + b, bound)
    ensures Increasing(a + b) && Below(a + b, bound)
  {
    var q := a + [m] + b;
    var r := a + b;
    forall i | 0 <= i < |r| ensures r[i] == q[if i < |a| then i else i + 1] {
    }
  }

  /** A worker moves messages along its own line. */
  lemma WorkerKeepsInv(c: Config, s: System, w: nat, v: Worker)
    requires 0 < c.threads && Inv(c, s) && w < |s.workers|
    requires Line(v) == Line(s.workers[w]) && |v.queue| <= c.workerDepth
    ensures Inv(c, s.(workers := s.workers[w := v]))
  {
    hide Received, Times, Line;
    var t := s.(workers := s.workers[w := v]);
    assert Upstream(t) == Upstream(s);
    forall m ensures Times(t.created, m) == Everywhere(t, m) {
      assert Times(s.created, m) == Everywhere(s, m);
      ReceivedUpdate(s.workers, w, v, m);
    }
    forall k | 0 <= k < |s.workers| ensures WorkerInv(c, t, k) {
      assert WorkerInv(c, s, k);
      assert Path(t, k) == Path(s, k);
    }
  }

  lemma StepKeepsInv(c: Config, s: System, e: Event)
    requires 0 < c.threads && Inv(c, s) && Legal(s, e)
    ensures Inv(c, Step(c, s, e))
  {
    match e
    case Timer(random) =>
      hide *;
      StepIsExpire(c, s, random);
      ExpireKeepsInv(c, s, random);
    case Fetch =>
      FetchKeepsInv(c, s);
    case Dispatch =>
      DeliverKeepsInv(c, s);
    case Get(w) =>
      assert WorkerInv(c, s, w);
      assert Line(Begin(s.workers[w])) == Line(s.workers[w]);
      WorkerKeepsInv(c, s, w, Begin(s.workers[w]));
    case Finish(w) =>
      assert WorkerInv(c, s, w);
      assert Line(Complete(s.workers[w])) == Line(s.workers[w]);
      WorkerKeepsInv(c, s, w, Complete(s.workers[w]));
  }

  lemma StepIsExpire(c: Config, s: System, random: nat)
    requires 0 < c.threads && Legal(s, Timer(random))
    ensures s.armed && Step(c, s, Timer(random)) == Expire(c, s, random)
  {
  }

  lemma {:induction false} RunKeepsInv(c: Config, s: System, events: seq<Event>)
    requires 0 < c.threads && Inv(c, s) && Run(c, s, events).Some?
    ensures Inv(c, Run(c, s, events).value)
    decreases |events|
  {
    hide Inv, Step, Legal;
    if events != [] {
      StepKeepsInv(c, s, events[0]);
      RunKeepsInv(c, Step(c, s, events[0]), events[1..]);
    }
  }

  // What the invariant means

  lemma NumberedOnce(q: seq<Message>, m: Message)
    requires Numbered(q)
    ensures Times(q, m) == if m in q then 1 else 0
  {
    if m in q {
      var i :| 0 <= i < |q| && q[i] == m;
      assert q == q[..i] + [m] + q[i + 1..];
      assert m !in q[..i] && m !in q[i + 1..];
    }
  }

  /** In every reachable state each message created is in exactly one place, nothing else is
      anywhere, and the numbers given out are 0, 1, 2, ... in order. */
  lemma ExactlyOnePlace(c: Config, events: seq<Event>, m: Message)
    requires 0 < c.threads && Run(c, Initial(c), events).Some?
    ensures var s := Run(c, Initial(c), events).value;
      && Numbered(s.created) && |s.created| == s.next <= c.maxEvents + 1
      && Targets(s.created, c.threads)
      && Everywhere(s, m) == if m in s.created then 1 else 0
  {
    InitialInv(c);
    RunKeepsInv(c, Initial(c), events);
    NumberedOnce(Run(c, Initial(c), events).value.created, m);
  }

  /** In every reachable state a worker has received only its own messages, in strictly
      increasing order of number, all older than anything still on its way; and no queue is over
      its depth. */
  lemma WorkersSeeOrder(c: Config, events: seq<Event>, w: nat)
    requires w < c.threads && Run(c, Initial(c), events).Some?
    ensures var s := Run(c, Initial(c), events).value;
      && |s.workers| == c.threads
      && For(Line(s.workers[w]), w)
      && Increasing(Line(s.workers[w]) + Upstream(s))
      && |s.workers[w].queue| <= c.workerDepth && |s.hardware| <= c.deviceDepth
  {
    InitialInv(c);
    RunKeepsInv(c, Initial(c), events);
    var s := Run(c, Initial(c), events).value;
    assert WorkerInv(c, s, w);
  }

  lemma {:induction false} ReceivedBySome(ws: seq<Worker>, m: Message)
    ensures Received(ws, m) > 0 <==> exists w :: 0 <= w < |ws| && m in Line(ws[w])
  {
    hide Line;
    if ws != [] {
      ReceivedBySome(ws[1..], m);
      if Received(ws[1..], m) > 0 {
        var k :| 0 <= k < |ws| - 1 && m in Line(ws[1..][k]);
        assert m in Line(ws[k + 1]);
      }
      if w :| 0 <= w < |ws| && m in Line(ws[w]) && m !in Line(ws[0]) {
        assert m in Line(ws[1..][w - 1]);
      }
    }
  }

  /** A message created has reached the worker it was meant for, unless it is on its way or was
      dropped at a full queue. */
  lemma ReachesItsTarget(c: Config, events: seq<Event>, m: Message)
    requires 0 < c.threads && Run(c, Initial(c), events).Some?
    requires m in Run(c, Initial(c), events).value.created
    ensures var s := Run(c, Initial(c), events).value;
      && m.target < |s.workers|
      && (m in Line(s.workers[m.target])
          <==> m !in Upstream(s) && m !in s.lostAtDevice && m !in s.lostAtWorker)
  {
    var s := Run(c, Initial(c), events).value;
    ExactlyOnePlace(c, events, m);
    ReceivedBySome(s.workers, m);
    WorkersSeeOrder(c, events, m.target);
    if w :| 0 <= w < |s.workers| && m in Line(s.workers[w]) {
      WorkersSeeOrder(c, events, w);
    }
  }

  /** No two messages processed, by whatever workers, have the same number.  So the report, which
      the message numbered MAX_EVENTS - 1 triggers, is made at most once. */
  lemma ProcessedOnce(c: Config, events: seq<Event>, v: nat, i: nat, w: nat, j: nat)
    requires v < c.threads && w < c.threads && Run(c, Initial(c), events).Some?
    requires var s := Run(c, Initial(c), events).value;
      && |s.workers| == c.threads
      && i < |s.workers[v].finished| && j < |s.workers[w].finished|
      && s.workers[v].finished[i].number == s.workers[w].finished[j].number
    ensures v == w && i == j
  {
    hide Run, Legal, Step, Received;
    var s := Run(c, Initial(c), events).value;
    var m, n := Line(s.workers[v])[i], Line(s.workers[w])[j];
    ProcessedWasCreated(c, events, v, m);
    ProcessedWasCreated(c, events, w, n);
    assert m.number == n.number;
    WorkersSeeOrder(c, events, v);
    WorkersSeeOrder(c, events, w);
    assert m.target == v && n.target == w;
    assert (Line(s.workers[v]) + Upstream(s))[i] == m && (Line(s.workers[v]) + Upstream(s))[j] == n;
  }

  lemma ProcessedWasCreated(c: Config, events: seq<Event>, w: nat, m: Message)
    requires w < c.threads && Run(c, Initial(c), events).Some?
    requires var s := Run(c, Initial(c), events).value; |s.workers| == c.threads && m in Line(s.workers[w])
    ensures var s := Run(c, Initial(c), events).value;
      m in s.created && m.number < |s.created| && s.created[m.number] == m
  {
    var s := Run(c, Initial(c), events).value;
    ExactlyOnePlace(c, events, m);
    ReceivedBySome(s.workers, m);
    var i :| 0 <= i < |s.created| && s.created[i] == m;
  }

  /** In every reachable state, what each event does to the messages: the timer makes the next one,
      for the worker the random number gives, and it is lost exactly when the device queue is full;
      a message dispatched is lost exactly when its target's queue is full; no other event makes
      or loses any.  A message not lost is last in its queue. */
  lemma LostExactlyWhenFull(c: Config, events: seq<Event>, e: Event)
    requires 0 < c.threads && Run(c, Initial(c), events).Some? && Legal(Run(c, Initial(c), events).value, e)
    ensures var s := Run(c, Initial(c), events).value;
      var t := Step(c, s, e);
      && (e.Timer? ==>
        var m := Message(|s.created|, e.random % c.threads);
        && t.created == s.created + [m]
        && (if |s.hardware| == c.deviceDepth
            then t.lostAtDevice == s.lostAtDevice + [m] && t.hardware == s.hardware
            else t.lostAtDevice == s.lostAtDevice && t.hardware == s.hardware + [m]))
      && (!e.Timer? ==> t.created == s.created && t.lostAtDevice == s.lostAtDevice)
      && (e == Dispatch ==>
        var m := s.held.value;
        && |t.workers| == |s.workers| && m.target < |s.workers|
        && var v, w := s.workers[m.target], t.workers[m.target];
        if |v.queue| == c.workerDepth
        then t.lostAtWorker == s.lostAtWorker + [m] && w.queue == v.queue
        else t.lostAtWorker == s.lostAtWorker && w.queue == v.queue + [m])
      && (e != Dispatch ==> t.lostAtWorker == s.lostAtWorker)
  {
    InitialInv(c);
    RunKeepsInv(c, Initial(c), events);
    var s := Run(c, Initial(c), events).value;
    hide Everywhere;
    if e == Dispatch {
      assert WorkerInv(c, s, s.held.value.target);
    }
  }

  // Loss

  /** A worker that has lost a message has received at least a queueful of them; the device has
      lost messages only after passing on, or still holding, a queueful. */
  predicate LossJustified(c: Config, s: System) {
    && |s.lostAtDevice| + |s.hardware| <= |s.created|
    && (s.lostAtDevice != [] ==> |s.lostAtDevice| + c.deviceDepth <= |s.created|)
    && forall m :: m in s.lostAtWorker ==>
      m.target < |s.workers| && c.workerDepth <= |Line(s.workers[m.target])|
  }

  lemma StepKeepsJustified(c: Config, s: System, e: Event)
    requires 0 < c.threads && Inv(c, s) && Legal(s, e) && LossJustified(c, s)
    ensures LossJustified(c, Step(c, s, e))
  {
    hide Counted, WorkerInv;
    var t := Step(c, s, e);
    forall m | m in t.lostAtWorker
      ensures m.target < |t.workers| && c.workerDepth <= |Line(t.workers[m.target])|
    {
      assert m in s.lostAtWorker || e == Dispatch;
      assert m.target < |s.workers|;
      assert |Line(s.workers[m.target])| <= |Line(t.workers[m.target])|;
    }
  }

  lemma {:induction false} RunKeepsJustified(c: Config, s: System, events: seq<Event>)
    requires 0 < c.threads && Inv(c, s) && LossJustified(c, s) && Run(c, s, events).Some?
    ensures LossJustified(c, Run(c, s, events).value)
    decreases |events|
  {
    hide Inv, Step, Legal, LossJustified;
    if events != [] {
      StepKeepsInv(c, s, events[0]);
      StepKeepsJustified(c, s, events[0]);
      RunKeepsJustified(c, Step(c, s, events[0]), events[1..]);
    }
  }

  /** So nothing is dropped for a worker that has received less than QUEUE_DEPTH messages, nor at
      the device while no more messages were made than it can hold. */
  lemma NoLossWithoutOverload(c: Config, events: seq<Event>, w: nat)
    requires w < c.threads && Run(c, Initial(c), events).Some?
    ensures var s := Run(c, Initial(c), events).value;
      && |s.workers| == c.threads
      && (|Line(s.workers[w])| < c.workerDepth ==> forall m :: m in s.lostAtWorker ==> m.target != w)
      && (|s.created| <= c.deviceDepth ==> s.lostAtDevice == [])
  {
    InitialInv(c);
    RunKeepsInv(c, Initial(c), events);
    RunKeepsJustified(c, Initial(c), events);
  }

  // Runs end

  function InFlight(w: Worker): nat {
    2 * |w.queue| + |AsSeq(w.current)|
  }

  function Work(ws: seq<Worker>): nat {
    if ws == [] then 0 else InFlight(ws[0]) + Work(ws[1..])
  }

  /** How many steps the messages still to come and still in flight can cause. */
  function Remaining(c: Config, s: System): nat {
    5 * (if s.next <= c.maxEvents then c.maxEvents + 1 - s.next else 0)
    + 4 * |s.hardware| + 3 * |AsSeq(s.held)| + Work(s.workers)
  }

  lemma {:induction false} WorkUpdate(ws: seq<Worker>, i: nat, w: Worker)
    requires i < |ws|
    ensures Work(ws[i := w]) == Work(ws) - InFlight(ws[i]) + InFlight(w)
  {
    hide InFlight;
    if i == 0 {
      assert ws[i := w][1..] == ws[1..];
    } else {
      WorkUpdate(ws[1..], i - 1, w);
      assert ws[i := w][1..] == ws[1..][i - 1 := w];
    }
  }

  lemma StepUsesWork(c: Config, s: System, e: Event)
    requires 0 < c.threads && Inv(c, s) && Legal(s, e)
    ensures Remaining(c, Step(c, s, e)) < Remaining(c, s)
  {
    hide WorkerInv, Everywhere;
    match e
    case Timer(_) =>
    case Fetch =>
    case Dispatch =>
      var w := s.workers[s.held.value.target];
      WorkUpdate(s.workers, s.held.value.target, w.(queue := w.queue + [s.held.value]));
    case Get(w) =>
      WorkUpdate(s.workers, w, Begin(s.workers[w]));
    case Finish(w) =>
      WorkUpdate(s.workers, w, Complete(s.workers[w]));
  }

  lemma {:induction false} RunUsesWork(c: Config, s: System, events: seq<Event>)
    requires 0 < c.threads && Inv(c, s) && Run(c, s, events).Some?
    ensures |events| + Remaining(c, Run(c, s, events).value) <= Remaining(c, s)
    decreases |events|
  {
    hide Inv, Step, Legal, Remaining;
    if events != [] {
      StepUsesWork(c, s, events[0]);
      StepKeepsInv(c, s, events[0]);
      RunUsesWork(c, Step(c, s, events[0]), events[1..]);
    }
  }

  predicate Quiescent(s: System) {
    && !s.armed && s.held.None? && s.hardware == []
    && forall w :: 0 <= w < |s.workers| ==> s.workers[w].queue == [] && s.workers[w].current.None?
  }

  /** A state that allows no step at all is quiescent: nothing waits forever. */
  lemma StuckMeansDone(c: Config, s: System)
    requires 0 < c.threads && Inv(c, s)
    ensures Quiescent(s) <==> forall e :: !Legal(s, e)
  {
    hide Counted, WorkerInv;
    if !Quiescent(s) {
      if s.armed {
        assert Legal(s, Timer(0));
      } else if s.held.Some? {
        assert Upstream(s)[0] == s.held.value;
        assert Legal(s, Dispatch);
      } else if s.hardware != [] {
        assert Legal(s, Fetch);
      } else {
        var w :| 0 <= w < |s.workers| && !(s.workers[w].queue == [] && s.workers[w].current.None?);
        assert Legal(s, Get(w)) || Legal(s, Finish(w));
      }
    }
  }

  lemma {:induction false} NoWork(ws: seq<Worker>)
    ensures Work(ws) == 0 <==> forall w :: 0 <= w < |ws| ==> InFlight(ws[w]) == 0
  {
    hide InFlight;
    if ws != [] {
      NoWork(ws[1..]);
      if Work(ws) == 0 {
        forall w | 0 <= w < |ws| ensures InFlight(ws[w]) == 0 {
          assert w > 0 ==> InFlight(ws[1..][w - 1]) == 0;
        }
      }
    }
  }

  lemma {:induction false} InitialWork(c: Config, n: nat)
    requires n <= c.threads
    ensures Work(Initial(c).workers[n..]) == 0
    decreases c.threads - n
  {
    if n < c.threads {
      InitialWork(c, n + 1);
      assert Initial(c).workers[n..][1..] == Initial(c).workers[n + 1..];
    }
  }

  /** No run has more than 5 steps for each of its MAX_EVENTS + 1 messages, and when none is
      possible any more, messages 0 .. MAX_EVENTS have all been created and each has been finished
      by its worker or dropped, exactly one of the three. */
  lemma RunsEnd(c: Config, events: seq<Event>)
    requires 0 < c.threads && Run(c, Initial(c), events).Some?
    ensures |events| <= 5 * (c.maxEvents + 1)
    ensures var s := Run(c, Initial(c), events).value;
      (forall e :: !Legal(s, e)) ==>
        && s.next == c.maxEvents + 1
        && forall m :: m in s.created ==>
          && m.target < |s.workers|
          && Times(s.workers[m.target].finished, m) + Times(s.lostAtDevice, m) + Times(s.lostAtWorker, m) == 1
  {
    hide Legal, Step, Run;
    InitialInv(c);
    RunKeepsInv(c, Initial(c), events);
    RunUsesWork(c, Initial(c), events);
    InitialWork(c, 0);
    var s := Run(c, Initial(c), events).value;
    assert Initial(c).workers[0..] == Initial(c).workers;
    StuckMeansDone(c, s);
    if Quiescent(s) {
      forall m | m in s.created
        ensures m.target < |s.workers|
        ensures Times(s.workers[m.target].finished, m) + Times(s.lostAtDevice, m) + Times(s.lostAtWorker, m) == 1
      {
        DoneOnce(c, events, m);
      }
    }
  }

  lemma DoneOnce(c: Config, events: seq<Event>, m: Message)
    requires 0 < c.threads && Run(c, Initial(c), events).Some?
    requires var s := Run(c, Initial(c), events).value; Quiescent(s) && m in s.created
    ensures var s := Run(c, Initial(c), events).value;
      && m.target < |s.workers|
      && Times(s.workers[m.target].finished, m) + Times(s.lostAtDevice, m) + Times(s.lostAtWorker, m) == 1
  {
    var s := Run(c, Initial(c), events).value;
    ExactlyOnePlace(c, events, m);
    ReachesItsTarget(c, events, m);
    hide Run, Legal, Step, Received, Line;
    ReceivedAtLeast(s.workers, m.target, m);
    QuiescentLine(s, m.target);
    assert Upstream(s) == [];
  }

  lemma QuiescentLine(s: System, w: nat)
    requires Quiescent(s) && w < |s.workers|
    ensures Line(s.workers[w]) == s.workers[w].finished
  {
  }

  lemma {:induction false} ReceivedAtLeast(ws: seq<Worker>, w: nat, m: Message)
    requires w < |ws|
    ensures Times(Line(ws[w]), m) <= Received(ws, m)
  {
    hide Line, Times;
    if w > 0 {
      ReceivedAtLeast(ws[1..], w - 1, m);
    }
  }
}
