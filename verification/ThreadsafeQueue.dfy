/** `lib/ThreadsafeQueue.h`: the queue operations, and the protocol of one producer and
    one consumer around its two condition variables. */
module ThreadsafeQueues {
  import opened Common

  // ----- The operations under the mutex -----

  /** NothingThere: the front of an empty queue, which the source does not guard against. */
  datatype PopResult<T> = Blocked | Woken | Popped(value: T) | NothingThere

  class ThreadsafeQueue<T> {
    var theQueue: seq<T>
    var wakeupRequested: bool

    constructor ()
      ensures theQueue == [] && !wakeupRequested
    {
      theQueue, wakeupRequested := [], false;
    }

    method Push(val: T, maxSize: nat) returns (size: nat)
      modifies `theQueue
      ensures theQueue == if maxSize == 0 || |old(theQueue)| < maxSize then old(theQueue) + [val] else old(theQueue)
      ensures size == |theQueue|
    {
      if maxSize == 0 {
        theQueue := theQueue + [val];
      } else if |theQueue| < maxSize {
        theQueue := theQueue + [val];
      }
      size := |theQueue|;
    }

    /** Keeps the newest `maxSize` elements. */
    method PushOverflow(val: T, maxSize: nat) returns (overflowed: bool, size: nat)
      requires maxSize > 0
      modifies `theQueue
      ensures theQueue == Newest(old(theQueue) + [val], maxSize)
      ensures overflowed <==> |old(theQueue)| >= maxSize
      ensures size == |theQueue| <= maxSize
    {
      overflowed := false;
      ghost var before, dropped := theQueue, 0;
      while |theQueue| >= maxSize
        invariant dropped <= |before| && theQueue == before[dropped..]
        invariant overflowed <==> dropped > 0
        invariant dropped > 0 ==> |theQueue| >= maxSize - 1
      {
        overflowed := true;
        theQueue := theQueue[1..];
        dropped := dropped + 1;
      }
      theQueue := theQueue + [val];
      assert theQueue == (before + [val])[dropped..];
      size := |theQueue|;
    }

    /** One look at the condition: pushed, or still to wait. */
    method PushWaitIfFull(val: T, threshold: nat) returns (pushed: bool)
      modifies `theQueue
      ensures pushed <==> |old(theQueue)| < threshold
      ensures theQueue == if pushed then old(theQueue) + [val] else old(theQueue)
    {
      if |theQueue| >= threshold {
        return false;
      }
      theQueue := theQueue + [val];
      return true;
    }

    method TriggerWakeup()
      modifies `wakeupRequested
      ensures wakeupRequested
    {
      wakeupRequested := true;
    }

    method TryPop() returns (r: PopResult<T>)
      modifies `theQueue
      ensures if old(theQueue) == [] then r == Blocked && theQueue == []
              else r.Popped? && [r.value] + theQueue == old(theQueue)
    {
      if theQueue == [] {
        return Blocked;
      }
      r := Popped(theQueue[0]);
      theQueue := theQueue[1..];
    }

    /** One look at the condition: a wakeup request wins over data and is used up. */
    method WaitAndPop(prebuffering: nat) returns (r: PopResult<T>)
      modifies `theQueue, `wakeupRequested
      ensures r.Woken? <==> old(wakeupRequested)
      ensures r.Blocked? <==> !old(wakeupRequested) && |old(theQueue)| < prebuffering
      ensures r.NothingThere? <==> !old(wakeupRequested) && prebuffering == 0 && old(theQueue) == []
      ensures if r.Popped? then [r.value] + theQueue == old(theQueue) else theQueue == old(theQueue)
      ensures !wakeupRequested
    {
      if |theQueue| < prebuffering && !wakeupRequested {
        return Blocked;
      }
      if wakeupRequested {
        wakeupRequested := false;
        return Woken;
      }
      if theQueue == [] {
        return NothingThere;
      }
      r := Popped(theQueue[0]);
      theQueue := theQueue[1..];
    }
  }

  function Newest<T>(s: seq<T>, n: nat): seq<T> {
    if |s| <= n then s else s[|s| - n..]
  }

  // ----- Producer, consumer and the notifications between them -----

  /** Where the producer is: about to look at the queue, asleep on the_tx_notification,
      or between unlocking and notifying the_rx_notification. */
  datatype Producer<T> = ProducerIdle | ProducerLooks(val: T, threshold: nat) | ProducerSleeps(val: T, threshold: nat)
                       | ProducerNotifies

  datatype Consumer = ConsumerIdle | ConsumerLooks(prebuffering: nat) | ConsumerSleeps(prebuffering: nat)
                    | ConsumerNotifies

  /** `pushed` and `popped` record everything that went in and came out. */
  datatype State<T> = State(queue: seq<T>, wakeup: bool, producer: Producer<T>, consumer: Consumer,
                            pushed: seq<T>, popped: seq<T>)

  datatype Action<T> =
    | Push(val: T, maxSize: nat)
    | BeginPushWait(val: T, threshold: nat)
    | TriggerWakeup
    | BeginPop(prebuffering: nat)
    | TryPop
    | ProducerGoes
    | ConsumerGoes
    | SpuriousProducer
    | SpuriousConsumer

  function Init<T>(): State<T> {
    State([], false, ProducerIdle, ConsumerIdle, [], [])
  }

  function Enqueue<T>(s: State<T>, val: T): State<T> {
    s.(queue := s.queue + [val], pushed := s.pushed + [val], producer := ProducerNotifies)
  }

  function Dequeue<T>(s: State<T>): State<T>
    requires s.queue != []
  {
    s.(queue := s.queue[1..], popped := s.popped + [s.queue[0]], consumer := ConsumerNotifies)
  }

  function ProducerStep<T>(s: State<T>): Option<State<T>> {
    match s.producer
    case ProducerLooks(val, threshold) =>
      Some(if |s.queue| >= threshold then s.(producer := ProducerSleeps(val, threshold)) else Enqueue(s, val))
    case ProducerNotifies =>
      Some(s.(producer := ProducerIdle,
              consumer := if s.consumer.ConsumerSleeps? then ConsumerLooks(s.consumer.prebuffering) else s.consumer))
    case _ => None
  }

  function ConsumerStep<T>(s: State<T>): Option<State<T>> {
    match s.consumer
    case ConsumerLooks(prebuffering) =>
      if s.queue == [] && prebuffering == 0 && !s.wakeup then None
      else
        Some(if |s.queue| < prebuffering && !s.wakeup then s.(consumer := ConsumerSleeps(prebuffering))
             else if s.wakeup then s.(wakeup := false, consumer := ConsumerIdle)
             else Dequeue(s))
    case ConsumerNotifies =>
      Some(s.(consumer := ConsumerIdle,
              producer := if s.producer.ProducerSleeps? then ProducerLooks(s.producer.val, s.producer.threshold)
                          else s.producer))
    case _ => None
  }

  /** One atomic step; None when it is not possible in this state. */
  function Step<T>(s: State<T>, a: Action<T>): Option<State<T>> {
    match a
    case Push(val, maxSize) =>
      if !s.producer.ProducerIdle? then None
      else if maxSize == 0 || |s.queue| < maxSize then Some(Enqueue(s, val))
      else Some(s.(producer := ProducerNotifies))
    case BeginPushWait(val, threshold) =>
      if s.producer.ProducerIdle? then Some(s.(producer := ProducerLooks(val, threshold))) else None
    case TriggerWakeup =>
      if s.producer.ProducerIdle? then Some(s.(wakeup := true, producer := ProducerNotifies)) else None
    case BeginPop(prebuffering) =>
      if s.consumer.ConsumerIdle? then Some(s.(consumer := ConsumerLooks(prebuffering))) else None
    case TryPop =>
      if !s.consumer.ConsumerIdle? then None else if s.queue == [] then Some(s) else Some(Dequeue(s))
    case ProducerGoes => ProducerStep(s)
    case ConsumerGoes => ConsumerStep(s)
    case SpuriousProducer =>
      if s.producer.ProducerSleeps? then Some(s.(producer := ProducerLooks(s.producer.val, s.producer.threshold))) else None
    case SpuriousConsumer =>
      if s.consumer.ConsumerSleeps? then Some(s.(consumer := ConsumerLooks(s.consumer.prebuffering))) else None
  }

  function Exec<T>(s: State<T>, actions: seq<Action<T>>): Option<State<T>>
    decreases |actions|
  {
    if actions == [] then Some(s) else
    var next := Step(s, actions[0]);
    if next.None? then None else Exec(next.value, actions[1..])
  }

  /** Nothing is lost, doubled or reordered. */
  ghost predicate Fifo<T>(s: State<T>) {
    s.popped + s.queue == s.pushed
  }

  /** A sleeper whose condition has come true is about to be notified. */
  ghost predicate NoLostWakeup<T>(s: State<T>) {
    && (s.consumer.ConsumerSleeps? && (|s.queue| >= s.consumer.prebuffering || s.wakeup) ==> s.producer.ProducerNotifies?)
    && (s.producer.ProducerSleeps? && |s.queue| < s.producer.threshold ==> s.consumer.ConsumerNotifies?)
  }

  lemma StepKeeps<T>(s: State<T>, a: Action<T>)
    requires Fifo(s) && NoLostWakeup(s) && Step(s, a).Some?
    ensures Fifo(Step(s, a).value) && NoLostWakeup(Step(s, a).value)
  {
    var t := Step(s, a).value;
    if t.popped != s.popped {
      assert s.queue == [s.queue[0]] + s.queue[1..];
      assert t.popped + t.queue == s.popped + s.queue;
    } else if t.pushed != s.pushed {
      assert t.popped + t.queue == (s.popped + s.queue) + [t.pushed[|s.pushed|]];
    }
  }

  lemma {:induction false} RunKeeps<T>(s: State<T>, actions: seq<Action<T>>)
    requires Fifo(s) && NoLostWakeup(s) && Exec(s, actions).Some?
    ensures Fifo(Exec(s, actions).value) && NoLostWakeup(Exec(s, actions).value)
    decreases |actions|
  {
    hide Step, Fifo, NoLostWakeup;
    if actions != [] {
      StepKeeps(s, actions[0]);
      RunKeeps(Step(s, actions[0]).value, actions[1..]);
    }
  }

  // ----- Both asleep: exactly when the consumer waits for more than the producer may store -----

  ghost predicate BothAsleep<T>(s: State<T>) {
    s.consumer.ConsumerSleeps? && s.producer.ProducerSleeps?
  }

  ghost predicate Uses<T>(actions: seq<Action<T>>, threshold: nat, prebuffering: nat) {
    forall a | a in actions ::
      && (a.BeginPushWait? ==> a.threshold == threshold)
      && (a.BeginPop? ==> a.prebuffering == prebuffering)
  }

  ghost predicate Waits<T>(s: State<T>, threshold: nat, prebuffering: nat) {
    && (s.producer.ProducerLooks? || s.producer.ProducerSleeps? ==> s.producer.threshold == threshold)
    && (s.consumer.ConsumerLooks? || s.consumer.ConsumerSleeps? ==> s.consumer.prebuffering == prebuffering)
  }

  lemma {:induction false} RunWaits<T>(s: State<T>, actions: seq<Action<T>>, threshold: nat, prebuffering: nat)
    requires Waits(s, threshold, prebuffering) && Uses(actions, threshold, prebuffering) && Exec(s, actions).Some?
    ensures Waits(Exec(s, actions).value, threshold, prebuffering)
    decreases |actions|
  {
    if actions != [] {
      assert actions[0] in actions;
      RunWaits(Step(s, actions[0]).value, actions[1..], threshold, prebuffering);
    }
  }

  /** Unlimited pushes, each with its notification. */
  function Fill<T>(val: T, n: nat): seq<Action<T>> {
    if n == 0 then [] else [Push(val, 0), ProducerGoes] + Fill(val, n - 1)
  }

  lemma {:induction false} ExecAppend<T>(s: State<T>, a: seq<Action<T>>, b: seq<Action<T>>)
    requires Exec(s, a).Some?
    ensures Exec(s, a + b) == Exec(Exec(s, a).value, b)
    decreases |a|
  {
    hide Step;
    if a == [] {
      assert a + b == b;
    } else {
      assert (a + b)[0] == a[0] && (a + b)[1..] == a[1..] + b;
      ExecAppend(Step(s, a[0]).value, a[1..], b);
    }
  }

  lemma ExecOne<T>(s: State<T>, a: Action<T>)
    ensures Exec(s, [a]) == Step(s, a)
  {
    hide Step;
    assert [a][1..] == [];
    if Step(s, a).Some? {
      assert Exec(Step(s, a).value, []) == Step(s, a);
    }
  }

  lemma ExecTwo<T>(s: State<T>, a: Action<T>, b: Action<T>)
    requires Step(s, a).Some?
    ensures Exec(s, [a, b]) == Step(Step(s, a).value, b)
  {
    hide Step;
    ExecOne(s, a);
    ExecOne(Step(s, a).value, b);
    ExecAppend(s, [a], [b]);
    assert [a, b] == [a] + [b];
  }

  lemma {:induction false} Filled<T>(s: State<T>, val: T, n: nat)
    requires s.producer.ProducerIdle? && s.consumer.ConsumerIdle?
    ensures var t := Exec(s, Fill(val, n));
            t.Some? && |t.value.queue| == |s.queue| + n && t.value.producer.ProducerIdle? && t.value.consumer.ConsumerIdle?
            && t.value.wakeup == s.wakeup
    decreases n
  {
    if n > 0 {
      var a: seq<Action<T>> := [Push(val, 0), ProducerGoes];
      ExecTwo(s, Push(val, 0), ProducerGoes);
      Filled(Exec(s, a).value, val, n - 1);
      ExecAppend(s, a, Fill(val, n - 1));
    }
  }

  function DeadlyRun<T>(val: T, threshold: nat, prebuffering: nat): seq<Action<T>> {
    Fill(val, threshold) + ([BeginPop(prebuffering), ConsumerGoes] + [BeginPushWait(val, threshold), ProducerGoes])
  }

  lemma {:induction false} FillUses<T>(val: T, n: nat, threshold: nat, prebuffering: nat)
    ensures Uses(Fill(val, n), threshold, prebuffering)
    decreases n
  {
    if n > 0 {
      FillUses(val, n - 1, threshold, prebuffering);
    }
  }

  lemma DeadlyRunSleeps<T>(val: T, threshold: nat, prebuffering: nat)
    requires threshold < prebuffering
    ensures Uses(DeadlyRun(val, threshold, prebuffering), threshold, prebuffering)
    ensures var t := Exec(Init(), DeadlyRun(val, threshold, prebuffering)); t.Some? && BothAsleep(t.value)
  {
    Filled(Init(), val, threshold);
    FillUses(val, threshold, threshold, prebuffering);
    hide Fill, Exec;
    var s := Exec(Init(), Fill(val, threshold)).value;
    var pop: seq<Action<T>>, push: seq<Action<T>> :=
      [BeginPop(prebuffering), ConsumerGoes], [BeginPushWait(val, threshold), ProducerGoes];
    ExecTwo(s, BeginPop(prebuffering), ConsumerGoes);
    var t := Exec(s, pop).value;
    ExecTwo(t, BeginPushWait(val, threshold), ProducerGoes);
    ExecAppend(s, pop, push);
    ExecAppend(Init(), Fill(val, threshold), pop + push);
  }

  /** Whatever the two threads do from here on, nothing is pushed or popped any more. */
  ghost predicate AsleepForGood<T(!new)>(s: State<T>) {
    forall actions: seq<Action<T>> | Exec(s, actions).Some? ::
      var t := Exec(s, actions).value; t.queue == s.queue && t.pushed == s.pushed && t.popped == s.popped
  }

  /** Each thread sleeps, or looks in vain after a spurious wakeup. */
  ghost predicate InVain<T>(s: State<T>) {
    && !s.wakeup
    && (s.producer.ProducerSleeps? || s.producer.ProducerLooks?) && |s.queue| >= s.producer.threshold
    && (s.consumer.ConsumerSleeps? || s.consumer.ConsumerLooks?) && |s.queue| < s.consumer.prebuffering
  }

  lemma StepInVain<T>(s: State<T>, a: Action<T>)
    requires InVain(s) && Step(s, a).Some?
    ensures var t := Step(s, a).value; InVain(t) && t.queue == s.queue && t.pushed == s.pushed && t.popped == s.popped
  {
  }

  lemma {:induction false} RunInVain<T>(s: State<T>, actions: seq<Action<T>>)
    requires InVain(s) && Exec(s, actions).Some?
    ensures var t := Exec(s, actions).value; t.queue == s.queue && t.pushed == s.pushed && t.popped == s.popped
    decreases |actions|
  {
    hide Step, InVain;
    if actions != [] {
      StepInVain(s, actions[0]);
      RunInVain(Step(s, actions[0]).value, actions[1..]);
    }
  }

  lemma SleepersStay<T(!new)>(s: State<T>)
    requires NoLostWakeup(s) && BothAsleep(s)
    ensures AsleepForGood(s)
  {
    forall actions: seq<Action<T>> | Exec(s, actions).Some?
      ensures var t := Exec(s, actions).value; t.queue == s.queue && t.pushed == s.pushed && t.popped == s.popped
    {
      RunInVain(s, actions);
    }
  }

  ghost predicate NeverBothAsleep<T(!new)>(threshold: nat, prebuffering: nat) {
    forall actions: seq<Action<T>> |
      Uses(actions, threshold, prebuffering) && Exec(Init(), actions).Some? :: !BothAsleep(Exec(Init(), actions).value)
  }

  /** push_wait_if_full and wait_and_pop can put each other to sleep for good exactly
      when the producer's threshold is below the consumer's prebuffering: once both are
      asleep, no step of either thread, not even a spurious wakeup, moves anything. */
  lemma DeadlockFreeIff<T(!new)>(val: T, threshold: nat, prebuffering: nat)
    ensures NeverBothAsleep<T>(threshold, prebuffering) <==> prebuffering <= threshold
    ensures forall actions: seq<Action<T>> | Exec(Init(), actions).Some? && BothAsleep(Exec(Init(), actions).value) ::
              AsleepForGood(Exec(Init(), actions).value)
  {
    forall actions: seq<Action<T>> | Exec(Init(), actions).Some? && BothAsleep(Exec(Init(), actions).value)
      ensures AsleepForGood(Exec(Init(), actions).value)
    {
      RunKeeps(Init(), actions);
      SleepersStay(Exec(Init(), actions).value);
    }
    if prebuffering <= threshold {
      forall actions: seq<Action<T>> | Uses(actions, threshold, prebuffering) && Exec(Init(), actions).Some?
        ensures !BothAsleep(Exec(Init(), actions).value)
      {
        RunKeeps(Init(), actions);
        RunWaits(Init(), actions, threshold, prebuffering);
      }
    } else {
      DeadlyRunSleeps(val, threshold, prebuffering);
    }
  }
}
