/**
 * The blocking bounded queue of gnl_ts_bb_queue_t.c. A call runs under the mutex until it returns
 * or sleeps on a condition variable; a woken call runs the loop test again when it gets the mutex.
 */
module BoundedQueue {
  type Thread = nat

  /** `pending` holds the elements of the producers that sleep or were woken. */
  datatype State<T> = State(q: seq<T>, pending: map<Thread, T>,
                            asleepProducers: set<Thread>, awakeProducers: set<Thread>,
                            asleepConsumers: set<Thread>, awakeConsumers: set<Thread>)

  /** `woken` are the sleepers that a signal wakes: at least one, if there is one. */
  datatype Event<T> =
    | Enqueue(thread: Thread, el: T, woken: set<Thread>)
    | Dequeue(thread: Thread, woken: set<Thread>)
    | ResumeEnqueue(thread: Thread, woken: set<Thread>)
    | ResumeDequeue(thread: Thread, woken: set<Thread>)
    | SpuriousProducer(thread: Thread)
    | SpuriousConsumer(thread: Thread)

  function Init<T>(): State<T> {
    State([], map[], {}, {}, {}, {})
  }

  ghost predicate Signalled(asleep: set<Thread>, woken: set<Thread>) {
    woken <= asleep && (asleep != {} ==> woken != {})
  }

  /** The thread is in no call. */
  ghost predicate Idle<T>(s: State<T>, thread: Thread) {
    && thread !in s.asleepProducers && thread !in s.awakeProducers
    && thread !in s.asleepConsumers && thread !in s.awakeConsumers
  }

  ghost predicate Enabled<T>(s: State<T>, e: Event<T>) {
    match e
    case Enqueue(thread, _, woken) => Idle(s, thread) && Signalled(s.asleepConsumers, woken)
    case Dequeue(thread, woken) => Idle(s, thread) && Signalled(s.asleepProducers, woken)
    case ResumeEnqueue(thread, woken) =>
      thread in s.awakeProducers && thread in s.pending && Signalled(s.asleepConsumers, woken)
    case ResumeDequeue(thread, woken) => thread in s.awakeConsumers && Signalled(s.asleepProducers, woken)
    case SpuriousProducer(thread) => thread in s.asleepProducers
    case SpuriousConsumer(thread) => thread in s.asleepConsumers
  }

  /** The loop of `enqueue`, from its test on. */
  function TryEnqueue<T>(s: State<T>, bound: nat, thread: Thread, el: T, woken: set<Thread>): State<T> {
    if |s.q| == bound then
      s.(pending := s.pending[thread := el], asleepProducers := s.asleepProducers + {thread})
    else
      s.(q := s.q + [el], asleepConsumers := s.asleepConsumers - woken, awakeConsumers := s.awakeConsumers + woken)
  }

  /** The loop of `dequeue`, from its test on. */
  function TryDequeue<T>(s: State<T>, thread: Thread, woken: set<Thread>): State<T> {
    if |s.q| == 0 then
      s.(asleepConsumers := s.asleepConsumers + {thread})
    else
      s.(q := s.q[1..], asleepProducers := s.asleepProducers - woken, awakeProducers := s.awakeProducers + woken)
  }

  function StopProducer<T>(s: State<T>, thread: Thread): State<T> {
    s.(pending := s.pending - {thread}, awakeProducers := s.awakeProducers - {thread})
  }

  function StopConsumer<T>(s: State<T>, thread: Thread): State<T> {
    s.(awakeConsumers := s.awakeConsumers - {thread})
  }

  ghost function Step<T>(s: State<T>, bound: nat, e: Event<T>): State<T>
    requires Enabled(s, e)
  {
    match e
    case Enqueue(thread, el, woken) => TryEnqueue(s, bound, thread, el, woken)
    case Dequeue(thread, woken) => TryDequeue(s, thread, woken)
    case ResumeEnqueue(thread, woken) => TryEnqueue(StopProducer(s, thread), bound, thread, s.pending[thread], woken)
    case ResumeDequeue(thread, woken) => TryDequeue(StopConsumer(s, thread), thread, woken)
    case SpuriousProducer(thread) =>
      s.(asleepProducers := s.asleepProducers - {thread}, awakeProducers := s.awakeProducers + {thread})
    case SpuriousConsumer(thread) =>
      s.(asleepConsumers := s.asleepConsumers - {thread}, awakeConsumers := s.awakeConsumers + {thread})
  }

  /** The element an event puts into the queue, if any. */
  ghost function Input<T>(s: State<T>, bound: nat, e: Event<T>): seq<T>
    requires Enabled(s, e)
  {
    match e
    case Enqueue(_, el, _) => if |s.q| == bound then [] else [el]
    case ResumeEnqueue(thread, _) => if |s.q| == bound then [] else [s.pending[thread]]
    case _ => []
  }

  /** The element an event takes out of the queue, if any. */
  ghost function Output<T>(s: State<T>, e: Event<T>): seq<T> {
    if (e.Dequeue? || e.ResumeDequeue?) && |s.q| > 0 then [s.q[0]] else []
  }

  ghost predicate Possible<T>(s: State<T>, bound: nat, es: seq<Event<T>>)
    decreases |es|
  {
    es == [] || (Enabled(s, es[0]) && Possible(Step(s, bound, es[0]), bound, es[1..]))
  }

  ghost function Run<T>(s: State<T>, bound: nat, es: seq<Event<T>>): State<T>
    requires Possible(s, bound, es)
    decreases |es|
  {
    if es == [] then s else Run(Step(s, bound, es[0]), bound, es[1..])
  }

  ghost function Inputs<T>(s: State<T>, bound: nat, es: seq<Event<T>>): seq<T>
    requires Possible(s, bound, es)
    decreases |es|
  {
    if es == [] then [] else Input(s, bound, es[0]) + Inputs(Step(s, bound, es[0]), bound, es[1..])
  }

  ghost function Outputs<T>(s: State<T>, bound: nat, es: seq<Event<T>>): seq<T>
    requires Possible(s, bound, es)
    decreases |es|
  {
    if es == [] then [] else Output(s, es[0]) + Outputs(Step(s, bound, es[0]), bound, es[1..])
  }

  // ---------- invariant ----------

  /** The invariant of the threads that wait. */
  ghost predicate Waiters<T>(s: State<T>) {
    && s.asleepProducers !! s.awakeProducers && s.asleepConsumers !! s.awakeConsumers
    && s.pending.Keys == s.asleepProducers + s.awakeProducers
  }

  /** Sleepers only exist while enough others were woken to use up the elements, or the room. */
  ghost predicate Inv<T>(s: State<T>, bound: nat) {
    && |s.q| <= bound && Waiters(s)
    && (s.asleepConsumers != {} ==> |s.awakeConsumers| >= |s.q|)
    && (s.asleepProducers != {} ==> |s.awakeProducers| >= bound - |s.q|)
  }

  lemma Grows(awake: set<Thread>, asleep: set<Thread>, woken: set<Thread>)
    requires Signalled(asleep, woken) && asleep !! awake
    ensures |awake + woken| >= |awake| + if asleep != {} then 1 else 0
  {
    assert |awake + woken| == |awake| + |woken|;
  }

  lemma Shrinks(awake: set<Thread>, thread: Thread)
    ensures |awake - {thread}| >= |awake| - 1
  {
    if thread in awake {
      assert |awake - {thread}| == |awake| - 1;
    } else {
      assert awake - {thread} == awake;
    }
  }

  /** A producer goes to sleep on a full queue. */
  lemma SleepInv<T>(s: State<T>, bound: nat, thread: Thread, el: T)
    requires Waiters(s) && |s.q| == bound
    requires thread !in s.asleepProducers && thread !in s.awakeProducers
    requires s.asleepConsumers != {} ==> |s.awakeConsumers| >= |s.q|
    ensures Inv(TryEnqueue(s, bound, thread, el, {}), bound)
  {
    assert s.pending[thread := el].Keys == s.pending.Keys + {thread};
  }

  /** One producer may be missing: the one that is about to run. */
  lemma EnqueueInv<T>(s: State<T>, bound: nat, thread: Thread, el: T, woken: set<Thread>)
    requires Waiters(s) && |s.q| <= bound && Signalled(s.asleepConsumers, woken)
    requires thread !in s.asleepProducers && thread !in s.awakeProducers
    requires s.asleepConsumers != {} ==> |s.awakeConsumers| >= |s.q|
    requires s.asleepProducers != {} ==> |s.awakeProducers| + 1 >= bound - |s.q|
    ensures Inv(TryEnqueue(s, bound, thread, el, woken), bound)
  {
    if |s.q| == bound {
      hide Inv, Waiters, Signalled;
      SleepInv(s, bound, thread, el);
    } else {
      Grows(s.awakeConsumers, s.asleepConsumers, woken);
    }
  }

  /** One consumer may be missing: the one that is about to run. */
  lemma DequeueInv<T>(s: State<T>, bound: nat, thread: Thread, woken: set<Thread>)
    requires Waiters(s) && |s.q| <= bound && Signalled(s.asleepProducers, woken)
    requires thread !in s.asleepConsumers && thread !in s.awakeConsumers
    requires s.asleepConsumers != {} ==> |s.awakeConsumers| + 1 >= |s.q|
    requires s.asleepProducers != {} ==> |s.awakeProducers| >= bound - |s.q|
    ensures Inv(TryDequeue(s, thread, woken), bound)
  {
    Grows(s.awakeProducers, s.asleepProducers, woken);
  }

  lemma WokenProducerInv<T>(s: State<T>, bound: nat, thread: Thread)
    requires Inv(s, bound) && thread in s.asleepProducers
    ensures Inv(Step(s, bound, SpuriousProducer(thread)), bound)
  {
    hide TryEnqueue, TryDequeue;
    assert |s.awakeProducers + {thread}| == |s.awakeProducers| + 1;
  }

  lemma WokenConsumerInv<T>(s: State<T>, bound: nat, thread: Thread)
    requires Inv(s, bound) && thread in s.asleepConsumers
    ensures Inv(Step(s, bound, SpuriousConsumer(thread)), bound)
  {
    hide TryEnqueue, TryDequeue;
    assert |s.awakeConsumers + {thread}| == |s.awakeConsumers| + 1;
  }

  lemma StopProducerKeeps<T>(s: State<T>, bound: nat, thread: Thread)
    requires Inv(s, bound) && thread in s.awakeProducers && thread in s.pending
    ensures var t := StopProducer(s, thread);
            && t.q == s.q && t.asleepConsumers == s.asleepConsumers && Waiters(t)
            && thread !in t.asleepProducers && thread !in t.awakeProducers
            && (t.asleepConsumers != {} ==> |t.awakeConsumers| >= |t.q|)
            && (t.asleepProducers != {} ==> |t.awakeProducers| + 1 >= bound - |t.q|)
  {
    Shrinks(s.awakeProducers, thread);
    assert (s.pending - {thread}).Keys == s.pending.Keys - {thread};
  }

  lemma StopConsumerKeeps<T>(s: State<T>, bound: nat, thread: Thread)
    requires Inv(s, bound) && thread in s.awakeConsumers
    ensures var t := StopConsumer(s, thread);
            && t.q == s.q && t.asleepProducers == s.asleepProducers && Waiters(t)
            && thread !in t.asleepConsumers && thread !in t.awakeConsumers
            && (t.asleepConsumers != {} ==> |t.awakeConsumers| + 1 >= |t.q|)
            && (t.asleepProducers != {} ==> |t.awakeProducers| >= bound - |t.q|)
  {
    Shrinks(s.awakeConsumers, thread);
  }

  lemma InvParts<T>(s: State<T>, bound: nat)
    requires Inv(s, bound)
    ensures Waiters(s) && |s.q| <= bound
    ensures s.asleepConsumers != {} ==> |s.awakeConsumers| >= |s.q|
    ensures s.asleepProducers != {} ==> |s.awakeProducers| >= bound - |s.q|
  {
  }

  lemma StepInv<T>(s: State<T>, bound: nat, e: Event<T>)
    requires Inv(s, bound) && Enabled(s, e)
    ensures Inv(Step(s, bound, e), bound)
  {
    hide Inv, Waiters, Signalled, TryEnqueue, TryDequeue, StopProducer, StopConsumer;
    InvParts(s, bound);
    match e
    case Enqueue(thread, el, woken) => EnqueueInv(s, bound, thread, el, woken);
    case Dequeue(thread, woken) => DequeueInv(s, bound, thread, woken);
    case ResumeEnqueue(thread, woken) =>
      StopProducerKeeps(s, bound, thread);
      EnqueueInv(StopProducer(s, thread), bound, thread, s.pending[thread], woken);
    case ResumeDequeue(thread, woken) =>
      StopConsumerKeeps(s, bound, thread);
      DequeueInv(StopConsumer(s, thread), bound, thread, woken);
    case SpuriousProducer(thread) => WokenProducerInv(s, bound, thread);
    case SpuriousConsumer(thread) => WokenConsumerInv(s, bound, thread);
  }

  /** What goes in and what comes out accounts for the queue. */
  lemma StepBalance<T>(s: State<T>, bound: nat, e: Event<T>)
    requires Enabled(s, e)
    ensures s.q + Input(s, bound, e) == Output(s, e) + Step(s, bound, e).q
  {
  }

  lemma Regroup<T>(a: seq<T>, b: seq<T>, c: seq<T>, d: seq<T>, e: seq<T>, f: seq<T>)
    requires a + b == c + d && d + e == f
    ensures a + (b + e) == c + f
  {
    assert a + (b + e) == (a + b) + e;
    assert (c + d) + e == c + (d + e);
  }

  /** In every run the bound is kept, no wakeup is lost, and elements leave in the order they came. */
  lemma {:induction false} RunInv<T>(s: State<T>, bound: nat, es: seq<Event<T>>)
    requires Inv(s, bound) && Possible(s, bound, es)
    ensures Inv(Run(s, bound, es), bound)
    ensures s.q + Inputs(s, bound, es) == Outputs(s, bound, es) + Run(s, bound, es).q
    decreases |es|
  {
    hide Step, Input, Output, Enabled, Inv;
    if es != [] {
      var e, rest := es[0], es[1..];
      StepInv(s, bound, e);
      StepBalance(s, bound, e);
      var t := Step(s, bound, e);
      RunInv(t, bound, rest);
      Regroup(s.q, Input(s, bound, e), Output(s, e), t.q, Inputs(t, bound, rest),
              Outputs(t, bound, rest) + Run(t, bound, rest).q);
      assert Output(s, e) + (Outputs(t, bound, rest) + Run(t, bound, rest).q)
          == (Output(s, e) + Outputs(t, bound, rest)) + Run(t, bound, rest).q;
    }
  }

  // ---------- the elements that the callers passed ----------

  /** The element that each thread passed to its latest call of `enqueue`. */
  ghost function Passed<T>(args: map<Thread, T>, e: Event<T>): map<Thread, T> {
    if e.Enqueue? then args[e.thread := e.el] else args
  }

  /** The calls of `enqueue` that found room, at once or later, in that order; each with the element it was called with. */
  ghost function Puts<T>(s: State<T>, bound: nat, es: seq<Event<T>>, args: map<Thread, T>): seq<T>
    requires Possible(s, bound, es)
    decreases |es|
  {
    if es == [] then []
    else
      var now := Passed(args, es[0]);
      (if (es[0].Enqueue? || es[0].ResumeEnqueue?) && |s.q| != bound && es[0].thread in now then [now[es[0].thread]] else [])
      + Puts(Step(s, bound, es[0]), bound, es[1..], now)
  }

  /** A blocked producer still has the element it was called with. */
  ghost predicate Remembered<T>(s: State<T>, args: map<Thread, T>) {
    forall p :: p in s.pending ==> p in args && args[p] == s.pending[p]
  }

  lemma StepRemembered<T>(s: State<T>, bound: nat, e: Event<T>, args: map<Thread, T>)
    requires Inv(s, bound) && Enabled(s, e) && Remembered(s, args)
    ensures Remembered(Step(s, bound, e), Passed(args, e))
  {
    hide Signalled;
  }

  lemma {:induction false} PutsAreInputs<T>(s: State<T>, bound: nat, es: seq<Event<T>>, args: map<Thread, T>)
    requires Inv(s, bound) && Possible(s, bound, es) && Remembered(s, args)
    ensures Puts(s, bound, es, args) == Inputs(s, bound, es)
    decreases |es|
  {
    hide Step, Inv, Signalled;
    if es != [] {
      StepInv(s, bound, es[0]);
      StepRemembered(s, bound, es[0], args);
      PutsAreInputs(Step(s, bound, es[0]), bound, es[1..], Passed(args, es[0]));
    }
  }

  /**
   * First in, first out: the elements that `enqueue` was called with, in the order in which the calls found room,
   * are those that came out, followed by those in the queue.
   */
  lemma FirstInFirstOut<T>(bound: nat, es: seq<Event<T>>)
    requires Possible(Init<T>(), bound, es)
    ensures Puts(Init<T>(), bound, es, map[]) == Outputs(Init<T>(), bound, es) + Run(Init<T>(), bound, es).q
    ensures |Run(Init<T>(), bound, es).q| <= bound
  {
    RunInv(Init<T>(), bound, es);
    PutsAreInputs(Init<T>(), bound, es, map[]);
    assert Init<T>().q + Inputs(Init<T>(), bound, es) == Inputs(Init<T>(), bound, es);
  }

  /** A producer that waits, in any run, waits with the element it was called with. */
  lemma {:induction false} WaitsWithArgument<T>(s: State<T>, bound: nat, es: seq<Event<T>>, args: map<Thread, T>)
    requires Inv(s, bound) && Possible(s, bound, es) && Remembered(s, args)
    ensures Remembered(Run(s, bound, es), AllPassed(args, es))
    decreases |es|
  {
    hide Step, Inv, Enabled, Remembered;
    if es != [] {
      StepInv(s, bound, es[0]);
      StepRemembered(s, bound, es[0], args);
      WaitsWithArgument(Step(s, bound, es[0]), bound, es[1..], Passed(args, es[0]));
    }
  }

  ghost function AllPassed<T>(args: map<Thread, T>, es: seq<Event<T>>): map<Thread, T>
    decreases |es|
  {
    if es == [] then args else AllPassed(Passed(args, es[0]), es[1..])
  }

  /** Nobody sleeps for good while there is work: some woken call can be resumed, and it succeeds. */
  lemma WorkIsDone<T>(bound: nat, es: seq<Event<T>>)
    requires Possible(Init<T>(), bound, es)
    ensures var s := Run(Init<T>(), bound, es);
            && (s.asleepConsumers != {} && s.q != [] ==>
                  exists c :: c in s.awakeConsumers && CanTake(s, bound, c))
            && (s.asleepProducers != {} && |s.q| < bound ==>
                  exists p :: p in s.awakeProducers && CanPut(s, bound, p))
  {
    RunInv(Init<T>(), bound, es);
    var s := Run(Init<T>(), bound, es);
    if s.asleepConsumers != {} && s.q != [] {
      assert |s.awakeConsumers| > 0;
      var c :| c in s.awakeConsumers;
      assert CanTake(s, bound, c) by {
        assert Enabled(s, ResumeDequeue(c, s.asleepProducers));
      }
    }
    if s.asleepProducers != {} && |s.q| < bound {
      assert |s.awakeProducers| > 0;
      var p :| p in s.awakeProducers;
      assert CanPut(s, bound, p) by {
        assert Enabled(s, ResumeEnqueue(p, s.asleepConsumers));
      }
    }
  }

  /** The woken consumer gets an element as soon as it runs. */
  ghost predicate CanTake<T>(s: State<T>, bound: nat, c: Thread) {
    exists woken :: Enabled(s, ResumeDequeue(c, woken)) && Output(s, ResumeDequeue(c, woken)) != []
  }

  /** The woken producer puts its element as soon as it runs. */
  ghost predicate CanPut<T>(s: State<T>, bound: nat, p: Thread) {
    exists woken :: Enabled(s, ResumeEnqueue(p, woken)) && Input(s, bound, ResumeEnqueue(p, woken)) != []
  }

  /** When no call is runnable, consumers sleep on an empty queue, producers on a full one, and never both. */
  lemma NoDeadlock<T>(bound: nat, es: seq<Event<T>>)
    requires bound > 0 && Possible(Init<T>(), bound, es)
    requires Run(Init<T>(), bound, es).awakeConsumers == {} && Run(Init<T>(), bound, es).awakeProducers == {}
    ensures var s := Run(Init<T>(), bound, es);
            && (s.asleepConsumers != {} ==> s.q == [])
            && (s.asleepProducers != {} ==> |s.q| == bound)
            && (s.asleepConsumers == {} || s.asleepProducers == {})
  {
    RunInv(Init<T>(), bound, es);
  }

  // ---------- the queue in place ----------

  class BlockingQueue<T> {
    const bound: nat
    var q: seq<T>
    ghost var waiting: State<T>

    ghost predicate Valid()
      reads this
    {
      bound > 0 && waiting.q == q && Inv(waiting, bound)
    }

    constructor (bound: nat)
      requires bound > 0
      ensures Valid() && this.bound == bound && waiting == Init()
    {
      this.bound, q, waiting := bound, [], Init();
    }

    /** One round of `enqueue`: it blocks, or puts the element and signals. */
    method EnqueueRound(ghost s: State<T>, ghost thread: Thread, el: T, ghost woken: set<Thread>) returns (blocked: bool)
      requires s.q == q
      modifies this
      ensures waiting == TryEnqueue(s, bound, thread, el, woken) && q == waiting.q
      ensures blocked <==> |old(q)| == bound
    {
      waiting := TryEnqueue(s, bound, thread, el, woken);
      if |q| == bound {
        return true;
      }
      q := q + [el];
      return false;
    }

    method Enqueue(ghost thread: Thread, el: T, ghost woken: set<Thread>) returns (blocked: bool)
      requires Valid() && Enabled(waiting, Event.Enqueue(thread, el, woken))
      modifies this
      ensures Valid() && waiting == Step(old(waiting), bound, Event.Enqueue(thread, el, woken))
      ensures blocked <==> |old(q)| == bound
    {
      StepInv(waiting, bound, Event.Enqueue(thread, el, woken));
      blocked := EnqueueRound(waiting, thread, el, woken);
    }

    method ResumeEnqueue(ghost thread: Thread, el: T, ghost woken: set<Thread>) returns (blocked: bool)
      requires Valid() && Enabled(waiting, Event.ResumeEnqueue(thread, woken)) && waiting.pending[thread] == el
      modifies this
      ensures Valid() && waiting == Step(old(waiting), bound, Event.ResumeEnqueue(thread, woken))
      ensures blocked <==> |old(q)| == bound
    {
      StepInv(waiting, bound, Event.ResumeEnqueue(thread, woken));
      blocked := EnqueueRound(StopProducer(waiting, thread), thread, el, woken);
    }

    /** One round of `dequeue`: it blocks, or takes an element and signals. */
    method DequeueRound(ghost s: State<T>, ghost thread: Thread, ghost woken: set<Thread>)
      returns (blocked: bool, out: seq<T>)
      requires s.q == q
      modifies this
      ensures waiting == TryDequeue(s, thread, woken) && q == waiting.q
      ensures blocked <==> |old(q)| == 0
      ensures out == if blocked then [] else [old(q)[0]]
    {
      waiting := TryDequeue(s, thread, woken);
      if |q| == 0 {
        return true, [];
      }
      out := [q[0]];
      q := q[1..];
      blocked := false;
    }

    method Dequeue(ghost thread: Thread, ghost woken: set<Thread>) returns (blocked: bool, out: seq<T>)
      requires Valid() && Enabled(waiting, Event.Dequeue(thread, woken))
      modifies this
      ensures Valid() && waiting == Step(old(waiting), bound, Event.Dequeue(thread, woken))
      ensures out == Output(old(waiting), Event.Dequeue(thread, woken)) && (blocked <==> out == [])
    {
      StepInv(waiting, bound, Event.Dequeue(thread, woken));
      blocked, out := DequeueRound(waiting, thread, woken);
    }

    method ResumeDequeue(ghost thread: Thread, ghost woken: set<Thread>) returns (blocked: bool, out: seq<T>)
      requires Valid() && Enabled(waiting, Event.ResumeDequeue(thread, woken))
      modifies this
      ensures Valid() && waiting == Step(old(waiting), bound, Event.ResumeDequeue(thread, woken))
      ensures out == Output(old(waiting), Event.ResumeDequeue(thread, woken)) && (blocked <==> out == [])
    {
      StepInv(waiting, bound, Event.ResumeDequeue(thread, woken));
      blocked, out := DequeueRound(StopConsumer(waiting, thread), thread, woken);
    }
  }

  /** A bound that is not positive is refused. */
  method Create<T>(bound: int) returns (queue: BlockingQueue?<T>)
    ensures queue == null <==> bound <= 0
    ensures queue != null ==> fresh(queue) && queue.Valid() && queue.bound == bound && queue.waiting == Init()
  {
    if bound <= 0 {
      return null;
    }
    queue := new BlockingQueue<T>(bound);
  }
}
