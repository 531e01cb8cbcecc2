/** `QueueT`: a blocking queue under a mutex and a condition variable, as a system of steps.

    What a thread does while it holds the mutex is one step; the signal of a producer is
    a step of its own, after the unlock. Waits may time out and may end for no reason. */
module Queue {
  import opened XmlChars

  /** Where a consumer is: outside, asleep on the condition variable, or woken and about to look again. */
  datatype Consumer = Outside | Asleep | Woken

  /** `signals`: the producers that have pushed into an empty queue and not signalled yet. The history of all
      items put in and taken out is kept beside. */
  datatype State<T> = State(queue: seq<T>, consumers: seq<Consumer>, signals: set<nat>, put: seq<T>, taken: seq<T>)

  /** `Enqueue`, `Signal` by a producer; by consumer `c`: `Dequeue` from the call on, `Again` after a wake-up,
      `Timeout` and `Spurious` while asleep. A signal names the sleeper it wakes. */
  datatype Event<T> =
    | Enqueue(producer: nat, item: T)
    | Signal(producer: nat, wakes: nat)
    | Dequeue(c: nat)
    | Again(c: nat)
    | Timeout(c: nat)
    | Spurious(c: nat)

  predicate AnyAsleep<T(!new)>(s: State<T>) {
    exists c :: 0 <= c < |s.consumers| && s.consumers[c] == Asleep
  }

  /** What can happen in a state. A producer signals before it enqueues again; a signal wakes a sleeper if there is one. */
  predicate Enabled<T(!new)>(s: State<T>, e: Event<T>) {
    match e
    case Enqueue(p, _) => p !in s.signals
    case Signal(p, w) => p in s.signals && (AnyAsleep(s) ==> w < |s.consumers| && s.consumers[w] == Asleep)
    case Dequeue(c) => c < |s.consumers| && s.consumers[c] == Outside
    case Again(c) => c < |s.consumers| && s.consumers[c] == Woken
    case Timeout(c) => c < |s.consumers| && s.consumers[c] == Asleep
    case Spurious(c) => c < |s.consumers| && s.consumers[c] == Asleep
  }

  /** The test of the wait loop: sleep on an empty queue, else take the front. */
  function Take<T>(s: State<T>, c: nat): State<T>
    requires c < |s.consumers|
  {
    if s.queue == [] then s.(consumers := s.consumers[c := Asleep])
    else s.(queue := s.queue[1..], consumers := s.consumers[c := Outside], taken := s.taken + [s.queue[0]])
  }

  /** `enqueue` up to its unlock: the item goes last, and a signal is to follow when the queue was empty. */
  function Pushed<T>(queue: seq<T>, item: T): seq<T> {
    queue + [item]
  }

  predicate MustSignal<T>(queue: seq<T>) {
    |queue| == 0
  }

  function Next<T(!new)>(s: State<T>, e: Event<T>): (t: State<T>)
    requires Enabled(s, e)
    ensures |t.consumers| == |s.consumers|
  {
    match e
    case Enqueue(p, x) =>
      State(Pushed(s.queue, x), s.consumers, if MustSignal(s.queue) then s.signals + {p} else s.signals, s.put + [x], s.taken)
    case Signal(p, w) =>
      var t := s.(signals := s.signals - {p});
      if AnyAsleep(s) then t.(consumers := s.consumers[w := Woken]) else t
    case Dequeue(c) => Take(s, c)
    case Again(c) => Take(s, c)
    case Timeout(c) => s.(consumers := s.consumers[c := Outside])
    case Spurious(c) => s.(consumers := s.consumers[c := Woken])
  }

  predicate Possible<T(!new)>(s: State<T>, run: seq<Event<T>>)
    decreases run
  {
    run == [] || (Enabled(s, run[0]) && Possible(Next(s, run[0]), run[1..]))
  }

  function After<T(!new)>(s: State<T>, run: seq<Event<T>>): (t: State<T>)
    requires Possible(s, run)
    ensures |t.consumers| == |s.consumers|
    decreases run
  {
    if run == [] then s else After(Next(s, run[0]), run[1..])
  }

  function Init<T>(consumers: nat): State<T> {
    State([], seq(consumers, i => Outside), {}, [], [])
  }

  // ----- the class

  /** The parts of `enqueue` and `dequeue` that run under the mutex. */
  class QueueT<T> {
    var m_queue: seq<T>

    constructor ()
      ensures m_queue == []
    {
      m_queue := [];
    }

    /** The part of `enqueue` under the mutex; the answer tells whether a signal is to follow. */
    method Push(t: T) returns (signal: bool)
      modifies this
      ensures m_queue == Pushed(old(m_queue), t) && (signal <==> MustSignal(old(m_queue)))
    {
      signal := |m_queue| == 0;
      m_queue := m_queue + [t];
    }

    /** One round of `dequeue`: nothing when the caller has to wait. */
    method Pop() returns (out: Option<T>)
      modifies this
      ensures old(m_queue) == [] ==> out.None? && m_queue == []
      ensures old(m_queue) != [] ==> out.Some? && [out.value] + m_queue == old(m_queue)
    {
      if |m_queue| == 0 {
        return None;
      }
      out := Some(m_queue[0]);
      m_queue := m_queue[1..];
    }
  }

  // ----- one consumer

  /** No wake-up is lost, and what has been taken followed by what is queued is what was put in. */
  ghost predicate Safe<T>(s: State<T>) {
    && |s.consumers| == 1
    && (s.consumers[0] == Asleep ==> s.queue == [] || s.signals != {})
    && s.put == s.taken + s.queue
  }

  lemma StepSafe<T(!new)>(s: State<T>, e: Event<T>)
    requires Safe(s) && Enabled(s, e)
    ensures Safe(Next(s, e))
  {
    var t := Next(s, e);
    match e
    case Enqueue(p, x) =>
      assert s.queue == [] ==> p in t.signals;
    case Signal(p, w) =>
      assert s.consumers[0] == Asleep ==> AnyAsleep(s);
    case _ =>
  }

  /** In every interleaving with one consumer: a sleeping consumer means an empty queue or a signal on its way, and
      the items taken are a prefix of the items put in. */
  lemma {:induction false} RunSafe<T(!new)>(s: State<T>, run: seq<Event<T>>)
    requires Safe(s) && Possible(s, run)
    ensures Safe(After(s, run)) && After(s, run).taken <= After(s, run).put
    decreases run
  {
    if run != [] {
      StepSafe(s, run[0]);
      RunSafe(Next(s, run[0]), run[1..]);
    }
  }

  lemma FromStart<T(!new)>(run: seq<Event<T>>)
    requires Possible(Init<T>(1), run)
    ensures var s := After(Init<T>(1), run);
            && (s.consumers[0] == Asleep ==> s.queue == [] || s.signals != {})
            && s.taken <= s.put && s.put == s.taken + s.queue
  {
    RunSafe(Init<T>(1), run);
  }

  /** A consumer that sleeps beside an item gets it: the signal on its way wakes it, and it then takes the front. */
  lemma SleeperServed<T(!new)>(run: seq<Event<T>>) returns (p: nat)
    requires Possible(Init<T>(1), run)
    requires var s := After(Init<T>(1), run); s.consumers[0] == Asleep && s.queue != []
    ensures var s := After(Init<T>(1), run);
            && Possible(s, [Signal(p, 0), Again(0)])
            && After(s, [Signal(p, 0), Again(0)]).taken == s.taken + [s.queue[0]]
  {
    FromStart(run);
    var s := After(Init<T>(1), run);
    p :| p in s.signals;
    var e: Event<T> := Signal(p, 0);
    var f: Event<T> := Again(0);
    assert AnyAsleep(s) && Next(s, e).consumers[0] == Woken;
    assert Enabled(s, e) && Enabled(Next(s, e), f);
    Chain(Next(s, e), f, []);
    Chain(s, e, [f]);
    assert [e] + [f] == [Signal(p, 0), Again(0)] && [f] + [] == [f];
    assert Next(Next(s, e), f).taken == s.taken + [s.queue[0]];
  }

  // ----- several consumers

  /** A lost wake-up: somebody sleeps beside an item, no signal is on its way and nobody else has been woken. */
  predicate Lost<T(!new)>(s: State<T>) {
    AnyAsleep(s) && |s.queue| > 0 && |s.signals| == 0 && forall c :: 0 <= c < |s.consumers| ==> s.consumers[c] != Woken
  }

  /** With two consumers or more a wake-up can be lost: the second item is put in before the first is taken, so
      nobody signals for it, and the second consumer sleeps on. */
  lemma TwoConsumersLose(n: nat, x: int, y: int) returns (run: seq<Event<int>>)
    requires n >= 2
    ensures Possible(Init<int>(n), run) && Lost(After(Init<int>(n), run))
    ensures var s := After(Init<int>(n), run); s.consumers[1] == Asleep && s.queue == [y]
  {
    var s0 := Init<int>(n);
    var e1, e2: Event<int> := Dequeue(0), Dequeue(1);
    var e3, e4: Event<int> := Enqueue(0, x), Enqueue(1, y);
    var e5, e6: Event<int> := Signal(0, 0), Again(0);
    var s1 := Next(s0, e1);
    var s2 := Next(s1, e2);
    var s3 := Next(s2, e3);
    var s4 := Next(s3, e4);
    assert s4.consumers[0] == Asleep;
    var s5 := Next(s4, e5);
    var s6 := Next(s5, e6);
    run := [e1, e2, e3, e4, e5, e6];
    assert s6.queue == [y] && s6.signals == {} && s6.consumers == s0.consumers[1 := Asleep];
    assert Lost(s6) by {
      assert s6.consumers[1] == Asleep;
    }
    assert Enabled(s0, e1) && Enabled(s1, e2) && Enabled(s2, e3) && Enabled(s3, e4) && Enabled(s4, e5) && Enabled(s5, e6);
    hide Next, Enabled, Lost;
    Chain(s5, e6, []);
    Chain(s4, e5, [e6]);
    Chain(s3, e4, [e5, e6]);
    Chain(s2, e3, [e4, e5, e6]);
    Chain(s1, e2, [e3, e4, e5, e6]);
    Chain(s0, e1, [e2, e3, e4, e5, e6]);
  }

  /** Without consumers nobody ever sleeps. */
  lemma NobodySleeps<T(!new)>(s: State<T>)
    requires |s.consumers| == 0
    ensures !Lost(s)
  {
  }

  /** No run loses a wake-up exactly when there is at most one consumer. */
  lemma NoneLostIff(n: nat)
    ensures (forall run: seq<Event<int>> :: Possible(Init<int>(n), run) ==> !Lost(After(Init<int>(n), run))) <==> n <= 1
  {
    if n >= 2 {
      var run := TwoConsumersLose(n, 0, 1);
    } else {
      forall run: seq<Event<int>> | Possible(Init<int>(n), run) ensures !Lost(After(Init<int>(n), run)) {
        if n == 0 {
          NobodySleeps(After(Init<int>(n), run));
        } else {
          FromStart<int>(run);
        }
      }
    }
  }

  lemma Chain<T(!new)>(s: State<T>, e: Event<T>, rest: seq<Event<T>>)
    requires Enabled(s, e) && Possible(Next(s, e), rest)
    ensures Possible(s, [e] + rest) && After(s, [e] + rest) == After(Next(s, e), rest)
  {
    assert ([e] + rest)[1..] == rest;
  }
}
