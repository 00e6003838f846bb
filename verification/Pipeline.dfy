/** PipelinedModCodec of `ModPlugin.cpp`: the calling thread and the worker thread as
    atomic steps; waiting on an empty queue is a step that is not enabled. */
module Pipeline {
  import opened Common

  type Buffer = seq<int>
  type Metadata = seq<int>

  /** What internal_process leaves in its output buffer, and what it returns. */
  datatype Work = Work(out: Buffer, code: int)

  /** internal_process may keep state: its result depends on all buffers so far. */
  type Codec = seq<Buffer> -> Work

  /** The result of one call of process. */
  datatype Reply = Frame(data: Buffer) | NotRunning

  /** Idle; past the test of m_running; input pushed; process has returned and
      process_metadata comes next; in the join of stop_pipeline_thread. */
  datatype Caller = Idle | Admitted(x: Buffer) | Pushed | Processed | Joining | Joined

  datatype Worker = AtLoop | Waiting | Computing(x: Buffer) | Pushing(out: Buffer) | Exiting | Done

  /** The fields of the object, the two program counters, and the history: calls of
      process, buffers accepted and taken by the worker, outputs made, replies and metadata. */
  datatype State = State(running: bool, ready: bool, inputQueue: seq<Buffer>, outputQueue: seq<Buffer>,
                         fifo: seq<Metadata>, caller: Caller, worker: Worker,
                         calls: seq<Buffer>, inputs: seq<Buffer>, consumed: nat, made: nat,
                         frames: nat, replies: seq<Reply>, metas: seq<Metadata>, metaReplies: seq<Metadata>)

  datatype Action = Call(x: Buffer) | CallMetadata(m: Metadata) | Stop | CallerGoes | WorkerGoes

  /** After start_pipeline_thread */
  const START := State(true, false, [], [], [], Idle, AtLoop, [], [], 0, 0, 0, [], [], [])

  /** The next step of a call of process, or of the join. */
  function CallerStep(s: State): Option<State> {
    match s.caller
    case Admitted(x) =>
      Some(s.(inputQueue := s.inputQueue + [x], inputs := s.inputs + [x], caller := Pushed))
    case Pushed =>
      if !s.ready then
        Some(s.(ready := true, replies := s.replies + [Frame([])], frames := s.frames + 1, caller := Processed))
      else if s.outputQueue == [] then None
      else
        Some(s.(outputQueue := s.outputQueue[1..], replies := s.replies + [Frame(s.outputQueue[0])],
                frames := s.frames + 1, caller := Processed))
    case Joining => if s.worker.Done? then Some(s.(caller := Joined)) else None
    case _ => None
  }

  /** internal_process for the n-th buffer, after all those before it. */
  function WorkOn(f: Codec, inputs: seq<Buffer>, n: nat): Work {
    f(if n <= |inputs| then inputs[..n] else inputs)
  }

  function WorkerStep(f: Codec, s: State): Option<State> {
    match s.worker
    case AtLoop => Some(s.(worker := if s.running then Waiting else Exiting))
    case Waiting =>
      if s.inputQueue == [] then None
      else
        var x := s.inputQueue[0];
        Some(s.(inputQueue := s.inputQueue[1..], consumed := s.consumed + 1,
                worker := if x == [] then Exiting else Computing(x)))
    case Computing(x) =>
      var w := WorkOn(f, s.inputs, s.consumed);
      Some(s.(running := s.running && w.code != 0, worker := Pushing(w.out)))
    case Pushing(out) => Some(s.(outputQueue := s.outputQueue + [out], made := s.made + 1, worker := AtLoop))
    case Exiting => Some(s.(running := false, worker := Done))
    case Done => None
  }

  function Step(f: Codec, s: State, a: Action): Option<State> {
    match a
    case Call(x) =>
      if !s.caller.Idle? then None
      else if s.running then Some(s.(calls := s.calls + [x], caller := Admitted(x)))
      else Some(s.(calls := s.calls + [x], replies := s.replies + [NotRunning], caller := Processed))
    case CallMetadata(m) =>
      if !s.caller.Processed? then None
      else
        var fifo := s.fifo + [m];
        if |fifo| == 2 then
          Some(s.(fifo := fifo[1..], metas := s.metas + [m], metaReplies := s.metaReplies + [fifo[0]], caller := Idle))
        else
          Some(s.(fifo := fifo, metas := s.metas + [m], metaReplies := s.metaReplies + [[]], caller := Idle))
    case Stop =>
      if s.caller.Idle? then Some(s.(inputQueue := s.inputQueue + [[]], inputs := s.inputs + [[]], caller := Joining))
      else None
    case CallerGoes => CallerStep(s)
    case WorkerGoes => WorkerStep(f, s)
  }

  function Exec(f: Codec, s: State, actions: seq<Action>): Option<State>
    decreases |actions|
  {
    if actions == [] then Some(s) else
    var next := Step(f, s, actions[0]);
    if next.None? then None else Exec(f, next.value, actions[1..])
  }

  // ----- What every reachable state satisfies -----

  function Stopped(s: State): nat {
    if s.caller.Joining? || s.caller.Joined? then 1 else 0
  }

  function Inside(s: State): nat {
    if s.caller.Admitted? || s.caller.Pushed? then 1 else 0
  }

  /** Outputs taken by the caller: every frame but the first. */
  function Taken(s: State): nat {
    if s.frames == 0 then 0 else s.frames - 1
  }

  /** The queues hold what has been handed over and not yet taken. */
  ghost predicate QueuesMatch(f: Codec, s: State) {
    && s.made <= s.consumed <= |s.inputs|
    && s.inputQueue == s.inputs[s.consumed..]
    && Taken(s) + |s.outputQueue| == s.made
    && (forall i | 0 <= i < |s.outputQueue| :: s.outputQueue[i] == WorkOn(f, s.inputs, Taken(s) + i + 1).out)
  }

  ghost predicate WorkerMatches(f: Codec, s: State) {
    && (s.worker.AtLoop? || s.worker.Waiting? ==> s.consumed == s.made)
    && (s.worker.Computing? ==> s.running && s.consumed == s.made + 1)
    && (s.worker.Pushing? ==> s.consumed == s.made + 1 && s.worker.out == WorkOn(f, s.inputs, s.consumed).out)
    && (s.worker.Waiting? ==> s.running)
    && (s.worker.Done? ==> !s.running)
    && (s.worker.Exiting? && s.running ==> Stopped(s) == 1)
    && (s.consumed <= |s.inputs| - Stopped(s) || s.worker.Exiting? || s.worker.Done?)
  }

  /** The buffers handed over are those of the calls, none empty, then the stop marker. */
  ghost predicate InputsMatch(s: State) {
    && |s.inputs| == s.frames + Stopped(s) + (if s.caller.Pushed? then 1 else 0)
    && AreCalls(s.inputs, s.calls, |s.inputs| - Stopped(s))
    && (s.caller.Admitted? ==> |s.calls| == |s.inputs| + 1 && s.caller.x == s.calls[|s.inputs|])
    && (Stopped(s) == 1 ==> s.inputs[|s.inputs| - 1] == [])
    && NoneEmpty(s.calls)
    && (s.ready <==> s.frames > 0)
  }

  ghost predicate AreCalls(inputs: seq<Buffer>, calls: seq<Buffer>, n: int) {
    n <= |inputs| && n <= |calls| && forall i | 0 <= i < n :: inputs[i] == calls[i]
  }

  ghost predicate NoneEmpty(calls: seq<Buffer>) {
    forall x | x in calls :: x != []
  }

  /** Buffers that internal_process has seen. */
  function Worked(s: State): nat {
    if s.worker.Pushing? then s.made + 1 else s.made
  }

  /** m_running is cleared by the worker alone, before it hands over its last output:
      a caller that was let in still finds that output. */
  ghost predicate FailureVisible(f: Codec, s: State) {
    && (!s.running && Inside(s) == 1 ==> s.worker.Pushing? || s.outputQueue != [])
    && (!s.running && Stopped(s) == 0 ==> Worked(s) > 0 && WorkOn(f, s.inputs, Worked(s)).code == 0)
  }

  ghost predicate RepliesMatch(f: Codec, s: State) {
    && s.frames <= |s.replies| == |s.calls| - Inside(s)
    && (s.running || Inside(s) == 1 ==> |s.replies| == s.frames)
    && (forall k | 0 <= k < s.frames :: s.replies[k] == Frame(if k == 0 then [] else WorkOn(f, s.inputs, k).out))
    && (forall k | s.frames <= k < |s.replies| :: s.replies[k] == NotRunning)
  }

  ghost predicate MetadataMatches(s: State) {
    && |s.metaReplies| == |s.metas| == |s.replies| - (if s.caller.Processed? then 1 else 0)
    && Echoes(s.fifo, s.metas, s.metaReplies)
  }

  /** Each reply is the metadata of the call before; the last one waits in the FIFO. */
  ghost predicate Echoes(fifo: seq<Metadata>, metas: seq<Metadata>, replies: seq<Metadata>) {
    && |metas| == |replies|
    && fifo == (if metas == [] then [] else [metas[|metas| - 1]])
    && (forall k | 0 <= k < |metas| :: replies[k] == if k == 0 then [] else metas[k - 1])
  }

  ghost predicate CodesMatch(f: Codec, s: State) {
    && (forall n | 0 < n < Worked(s) :: WorkOn(f, s.inputs, n).code != 0)
    && (s.running && Worked(s) > 0 ==> WorkOn(f, s.inputs, Worked(s)).code != 0)
    && (|s.replies| > s.frames ==> exists n | 0 < n <= s.frames :: WorkOn(f, s.inputs, n).code == 0)
  }

  ghost predicate Invariant(f: Codec, s: State) {
    && QueuesMatch(f, s) && WorkerMatches(f, s) && InputsMatch(s) && FailureVisible(f, s)
    && RepliesMatch(f, s) && MetadataMatches(s) && CodesMatch(f, s)
  }

  lemma WorkIsFixed(f: Codec, inputs: seq<Buffer>, x: Buffer)
    ensures forall n | 0 <= n <= |inputs| :: WorkOn(f, inputs + [x], n) == WorkOn(f, inputs, n)
  {
    forall n | 0 <= n <= |inputs| ensures WorkOn(f, inputs + [x], n) == WorkOn(f, inputs, n) {
      assert (inputs + [x])[..n] == inputs[..n];
    }
  }

  lemma QueuesKept(f: Codec, s: State, a: Action)
    requires Invariant(f, s) && Step(f, s, a).Some?
    ensures QueuesMatch(f, Step(f, s, a).value)
  {
    hide WorkOn, InputsMatch, WorkerMatches, FailureVisible, RepliesMatch, MetadataMatches, CodesMatch, CallerStep, WorkerStep;
    if a.Stop? {
      QueuesGrow(f, s, []);
    } else if a.CallerGoes? {
      CallerQueues(f, s);
    } else if a.WorkerGoes? {
      WorkerQueues(f, s);
    }
  }

  lemma QueuesGrow(f: Codec, s: State, x: Buffer)
    requires QueuesMatch(f, s)
    ensures QueuesMatch(f, s.(inputQueue := s.inputQueue + [x], inputs := s.inputs + [x]))
  {
    hide WorkOn;
    WorkIsFixed(f, s.inputs, x);
    assert (s.inputs + [x])[s.consumed..] == s.inputs[s.consumed..] + [x];
  }

  lemma CallerQueues(f: Codec, s: State)
    requires QueuesMatch(f, s) && InputsMatch(s) && CallerStep(s).Some?
    ensures QueuesMatch(f, CallerStep(s).value)
  {
    hide WorkOn, InputsMatch;
    if s.caller.Admitted? {
      QueuesGrow(f, s, s.caller.x);
    } else {
      FramesMatchReady(s);
    }
  }

  lemma WorkerQueues(f: Codec, s: State)
    requires QueuesMatch(f, s) && WorkerMatches(f, s) && WorkerStep(f, s).Some?
    ensures QueuesMatch(f, WorkerStep(f, s).value)
  {
    hide WorkOn;
  }

  lemma FramesMatchReady(s: State)
    requires InputsMatch(s)
    ensures s.ready <==> s.frames > 0
  {
  }

  lemma WorkerKept(f: Codec, s: State, a: Action)
    requires Invariant(f, s) && Step(f, s, a).Some?
    ensures WorkerMatches(f, Step(f, s, a).value)
  {
    hide WorkOn, QueuesMatch, FailureVisible, RepliesMatch, MetadataMatches, InputsMatch, CodesMatch;
    if a.Stop? || (a.CallerGoes? && s.caller.Admitted?) {
      QueueCounts(f, s);
      WorkIsFixed(f, s.inputs, if a.Stop? then [] else s.caller.x);
    } else if a.WorkerGoes? && s.worker.Waiting? {
      TakenIsCall(f, s);
    }
  }

  lemma QueueCounts(f: Codec, s: State)
    requires QueuesMatch(f, s)
    ensures s.made <= s.consumed <= |s.inputs| && |s.inputQueue| == |s.inputs| - s.consumed
  {
    hide WorkOn;
  }

  /** The worker only finds an empty buffer after the stop. */
  lemma TakenIsCall(f: Codec, s: State)
    requires QueuesMatch(f, s) && InputsMatch(s) && s.inputQueue != []
    ensures s.inputQueue[0] == [] ==> Stopped(s) == 1
    ensures s.consumed == |s.inputs| - Stopped(s) ==> s.inputQueue[0] == []
  {
    hide WorkOn;
    assert s.inputQueue[0] == s.inputs[s.consumed];
    if Stopped(s) == 0 {
      assert s.inputs[s.consumed] == s.calls[s.consumed];
      assert s.calls[s.consumed] in s.calls;
    }
  }

  lemma InputsKept(f: Codec, s: State, a: Action)
    requires Invariant(f, s) && Step(f, s, a).Some? && (a.Call? ==> a.x != [])
    ensures InputsMatch(Step(f, s, a).value)
  {
    hide WorkOn, QueuesMatch, WorkerMatches, FailureVisible, MetadataMatches, RepliesMatch, CodesMatch, AreCalls, NoneEmpty;
    hide CallerStep, WorkerStep;
    if a.Call? {
      RepliesCount(f, s);
      CallsGrow(s.inputs, s.calls, |s.inputs|, a.x);
    } else if a.Stop? {
      InputsGrow(s.inputs, s.calls, |s.inputs|, []);
    } else if a.CallerGoes? {
      CallerInputs(s);
    } else if a.WorkerGoes? {
      WorkerInputs(f, s);
    }
  }

  lemma CallerInputs(s: State)
    requires InputsMatch(s) && CallerStep(s).Some?
    ensures InputsMatch(CallerStep(s).value)
  {
    hide AreCalls, NoneEmpty;
    if s.caller.Admitted? {
      InputsGrow(s.inputs, s.calls, |s.inputs|, s.caller.x);
    }
  }

  lemma WorkerInputs(f: Codec, s: State)
    requires InputsMatch(s) && WorkerStep(f, s).Some?
    ensures InputsMatch(WorkerStep(f, s).value)
  {
    hide AreCalls, NoneEmpty, WorkOn;
  }

  lemma CallsGrow(inputs: seq<Buffer>, calls: seq<Buffer>, n: nat, x: Buffer)
    requires AreCalls(inputs, calls, n) && NoneEmpty(calls) && x != []
    ensures AreCalls(inputs, calls + [x], n) && NoneEmpty(calls + [x])
  {
  }

  lemma InputsGrow(inputs: seq<Buffer>, calls: seq<Buffer>, n: nat, x: Buffer)
    requires AreCalls(inputs, calls, n) && n == |inputs|
    ensures AreCalls(inputs + [x], calls, n)
    ensures n < |calls| && x == calls[n] ==> AreCalls(inputs + [x], calls, n + 1)
  {
  }

  lemma RepliesCount(f: Codec, s: State)
    requires RepliesMatch(f, s)
    ensures s.frames <= |s.replies| == |s.calls| - Inside(s)
    ensures s.running || Inside(s) == 1 ==> |s.replies| == s.frames
  {
    hide WorkOn;
  }

  lemma FailureKept(f: Codec, s: State, a: Action)
    requires Invariant(f, s) && Step(f, s, a).Some?
    ensures FailureVisible(f, Step(f, s, a).value)
  {
    hide WorkOn, InputsMatch, QueuesMatch, RepliesMatch, MetadataMatches, CodesMatch;
    QueueCounts(f, s);
    if a.CallerGoes? && s.caller.Admitted? {
      WorkIsFixed(f, s.inputs, s.caller.x);
    }
  }

  lemma RepliesKept(f: Codec, s: State, a: Action)
    requires Invariant(f, s) && Step(f, s, a).Some?
    ensures RepliesMatch(f, Step(f, s, a).value)
  {
    hide WorkOn, QueuesMatch, WorkerMatches, InputsMatch, MetadataMatches, FailureVisible, CodesMatch;
    if a.Stop? || (a.CallerGoes? && s.caller.Admitted?) {
      FramesCount(s);
      WorkIsFixed(f, s.inputs, if a.Stop? then [] else s.caller.x);
    } else if a.CallerGoes? && s.caller.Pushed? {
      FramesMatchReady(s);
      NextOutput(f, s);
    }
  }

  lemma FramesCount(s: State)
    requires InputsMatch(s)
    ensures s.frames <= |s.inputs|
  {
  }

  lemma NextOutput(f: Codec, s: State)
    requires QueuesMatch(f, s)
    ensures s.frames > 0 && s.outputQueue != [] ==> s.outputQueue[0] == WorkOn(f, s.inputs, s.frames).out
  {
    hide WorkOn;
  }

  lemma MetadataKept(f: Codec, s: State, a: Action)
    requires Invariant(f, s) && Step(f, s, a).Some?
    ensures MetadataMatches(Step(f, s, a).value)
  {
    hide WorkOn, QueuesMatch, WorkerMatches, InputsMatch, FailureVisible, RepliesMatch, CodesMatch, Echoes;
    hide CallerStep, WorkerStep;
    if a.CallMetadata? {
      Echo(s.fifo, s.metas, s.metaReplies, a.m);
    } else if a.CallerGoes? {
      CallerMetadata(s);
    } else if a.WorkerGoes? {
      WorkerMetadata(f, s);
    }
  }

  lemma CallerMetadata(s: State)
    requires MetadataMatches(s) && CallerStep(s).Some?
    ensures MetadataMatches(CallerStep(s).value)
  {
    hide Echoes;
  }

  lemma WorkerMetadata(f: Codec, s: State)
    requires MetadataMatches(s) && WorkerStep(f, s).Some?
    ensures MetadataMatches(WorkerStep(f, s).value)
  {
    hide Echoes, WorkOn;
  }

  lemma Echo(fifo: seq<Metadata>, metas: seq<Metadata>, replies: seq<Metadata>, m: Metadata)
    requires Echoes(fifo, metas, replies)
    ensures if |fifo + [m]| == 2 then Echoes((fifo + [m])[1..], metas + [m], replies + [(fifo + [m])[0]])
            else Echoes(fifo + [m], metas + [m], replies + [[]])
  {
  }

  lemma CodesKept(f: Codec, s: State, a: Action)
    requires Invariant(f, s) && Step(f, s, a).Some?
    ensures CodesMatch(f, Step(f, s, a).value)
  {
    hide WorkOn, QueuesMatch, WorkerMatches, InputsMatch, FailureVisible, RepliesMatch, MetadataMatches;
    hide CallerStep, WorkerStep;
    QueueCounts(f, s);
    if a.Call? {
      RefusedCodes(f, s);
    } else if a.Stop? {
      CodesGrow(f, s, []);
    } else if a.CallerGoes? {
      CallerCodes(f, s);
    } else if a.WorkerGoes? {
      WorkerCodes(f, s);
    }
  }

  /** A refused call follows a failure. */
  lemma RefusedCodes(f: Codec, s: State)
    requires FailureVisible(f, s) && InputsMatch(s) && QueuesMatch(f, s) && WorkerMatches(f, s)
    ensures s.caller.Idle? && !s.running ==> exists n | 0 < n <= s.frames :: WorkOn(f, s.inputs, n).code == 0
  {
    hide WorkOn, AreCalls, NoneEmpty;
    if s.caller.Idle? && !s.running {
      assert Worked(s) <= s.consumed <= |s.inputs| == s.frames;
      assert WorkOn(f, s.inputs, Worked(s)).code == 0;
    }
  }

  lemma CodesGrow(f: Codec, s: State, x: Buffer)
    requires CodesMatch(f, s) && QueuesMatch(f, s) && WorkerMatches(f, s) && InputsMatch(s)
    ensures CodesMatch(f, s.(inputs := s.inputs + [x]))
  {
    hide WorkOn, AreCalls, NoneEmpty;
    var t := s.(inputs := s.inputs + [x]);
    WorkIsFixed(f, s.inputs, x);
    assert Worked(s) <= s.consumed <= |s.inputs|;
    if |s.replies| > s.frames {
      var n :| 0 < n <= s.frames && WorkOn(f, s.inputs, n).code == 0;
      assert WorkOn(f, t.inputs, n).code == 0;
    }
  }

  lemma CallerCodes(f: Codec, s: State)
    requires CallerStep(s).Some?
    requires CodesMatch(f, s) && QueuesMatch(f, s) && WorkerMatches(f, s) && InputsMatch(s)
    ensures CodesMatch(f, CallerStep(s).value)
  {
    hide WorkOn, QueuesMatch, WorkerMatches, InputsMatch;
    if s.caller.Admitted? {
      CodesGrow(f, s, s.caller.x);
    }
  }

  lemma WorkerCodes(f: Codec, s: State)
    requires CodesMatch(f, s) && WorkerMatches(f, s) && WorkerStep(f, s).Some?
    ensures CodesMatch(f, WorkerStep(f, s).value)
  {
    hide WorkOn;
  }

  predicate NonEmptyCalls(actions: seq<Action>) {
    forall a | a in actions :: a.Call? ==> a.x != []
  }

  lemma StepKeeps(f: Codec, s: State, a: Action)
    requires Invariant(f, s) && Step(f, s, a).Some? && (a.Call? ==> a.x != [])
    ensures Invariant(f, Step(f, s, a).value)
  {
    hide Step, QueuesMatch, WorkerMatches, InputsMatch, FailureVisible, RepliesMatch, MetadataMatches, CodesMatch;
    QueuesKept(f, s, a);
    WorkerKept(f, s, a);
    InputsKept(f, s, a);
    FailureKept(f, s, a);
    RepliesKept(f, s, a);
    MetadataKept(f, s, a);
    CodesKept(f, s, a);
  }

  lemma {:induction false} RunKeeps(f: Codec, s: State, actions: seq<Action>)
    requires Invariant(f, s) && NonEmptyCalls(actions) && Exec(f, s, actions).Some?
    ensures Invariant(f, Exec(f, s, actions).value)
    decreases |actions|
  {
    hide Invariant, Step;
    if actions != [] {
      assert actions[0] in actions;
      StepKeeps(f, s, actions[0]);
      RunKeeps(f, Step(f, s, actions[0]).value, actions[1..]);
    }
  }

  lemma StartInvariant(f: Codec)
    ensures Invariant(f, START)
  {
  }

  // ----- One call of delay, for data and metadata alike -----

  /** Calls 0 to frames - 1 have seen m_running. Call 0 gets an empty frame, call k the
      output for the buffer of call k - 1; the metadata is delayed in the same way. */
  ghost predicate OneCallDelay(f: Codec, s: State) {
    && s.frames <= |s.replies| <= |s.calls|
    && (forall k | 0 <= k < s.frames :: s.replies[k] == Frame(if k == 0 then [] else f(s.calls[..k]).out))
    && (forall k | s.frames <= k < |s.replies| :: s.replies[k] == NotRunning)
    && |s.metaReplies| == |s.metas| <= |s.replies| <= |s.metas| + 1
    && (forall k | 0 <= k < |s.metas| :: s.metaReplies[k] == if k == 0 then [] else s.metas[k - 1])
  }

  lemma InvariantMeansDelay(f: Codec, s: State)
    requires Invariant(f, s)
    ensures OneCallDelay(f, s)
  {
    hide WorkOn, QueuesMatch, WorkerMatches, FailureVisible, CodesMatch;
    forall k | 0 < k < s.frames ensures s.replies[k] == Frame(f(s.calls[..k]).out) {
      assert s.inputs[..k] == s.calls[..k];
      WorkIs(f, s.inputs, k);
    }
  }

  lemma WorkIs(f: Codec, inputs: seq<Buffer>, n: nat)
    requires n <= |inputs|
    ensures WorkOn(f, inputs, n) == f(inputs[..n])
  {
  }

  /** Every interleaving of the two threads, with non-empty buffers. */
  lemma EveryRunDelaysByOne(f: Codec, actions: seq<Action>)
    requires NonEmptyCalls(actions) && Exec(f, START, actions).Some?
    ensures OneCallDelay(f, Exec(f, START, actions).value)
  {
    hide Invariant, OneCallDelay, Exec;
    StartInvariant(f);
    RunKeeps(f, START, actions);
    InvariantMeansDelay(f, Exec(f, START, actions).value);
  }

  /** A call is refused only after internal_process has returned 0 for an accepted
      buffer; and a call that returns the output of such a buffer is the last accepted one. */
  lemma RefusalMeansFailure(f: Codec, actions: seq<Action>)
    requires NonEmptyCalls(actions) && Exec(f, START, actions).Some?
    ensures var s := Exec(f, START, actions).value;
            && s.frames <= |s.replies| && s.frames <= |s.calls|
            && (|s.replies| > s.frames ==> exists n | 0 < n <= s.frames :: f(s.calls[..n]).code == 0)
            && (forall n | 0 < n < s.frames && f(s.calls[..n]).code == 0 :: s.frames == n + 1)
  {
    hide Invariant, Exec;
    StartInvariant(f);
    RunKeeps(f, START, actions);
    FailureEndsFrames(f, Exec(f, START, actions).value);
  }

  lemma FailureEndsFrames(f: Codec, s: State)
    requires Invariant(f, s)
    ensures s.frames <= |s.replies| && s.frames <= |s.calls|
    ensures |s.replies| > s.frames ==> exists n | 0 < n <= s.frames :: f(s.calls[..n]).code == 0
    ensures forall n | 0 < n < s.frames && f(s.calls[..n]).code == 0 :: s.frames == n + 1
  {
    hide WorkOn, FailureVisible, MetadataMatches;
    forall n | 0 < n <= s.frames ensures WorkOn(f, s.inputs, n) == f(s.calls[..n]) {
      assert s.inputs[..n] == s.calls[..n];
      WorkIs(f, s.inputs, n);
    }
    if |s.replies| > s.frames {
      var n :| 0 < n <= s.frames && WorkOn(f, s.inputs, n).code == 0;
      assert f(s.calls[..n]).code == 0;
    }
    forall n | 0 < n < s.frames && f(s.calls[..n]).code == 0 ensures s.frames == n + 1 {
      assert WorkOn(f, s.inputs, n).code == 0;
      assert Taken(s) <= s.made <= Worked(s);
    }
  }

  // ----- Nobody waits forever -----

  /** The calling thread waits: for an output, or for the worker to end. */
  predicate CallerWaits(s: State) {
    (s.caller.Pushed? && s.ready && s.outputQueue == []) || (s.caller.Joining? && !s.worker.Done?)
  }

  /** A bound on the worker's steps without new input. */
  function Rank(s: State): nat {
    4 * |s.inputQueue| +
    match s.worker
    case Done => 0
    case Exiting => 1
    case Waiting => 1
    case AtLoop => 2
    case Pushing(_) => 3
    case Computing(_) => 4
  }

  lemma WorkerStepsDown(f: Codec, s: State)
    requires WorkerStep(f, s).Some?
    ensures Rank(WorkerStep(f, s).value) < Rank(s)
  {
    hide WorkOn;
  }

  /** While the caller waits, the worker has something to do. */
  lemma WorkerIsAble(f: Codec, s: State)
    requires Invariant(f, s) && CallerWaits(s)
    ensures WorkerStep(f, s).Some?
  {
    hide WorkOn, RepliesMatch, MetadataMatches, CodesMatch, AreCalls, NoneEmpty;
    assert s.worker.Waiting? ==> s.consumed < |s.inputs|;
  }

  function WorkerRun(n: nat): seq<Action> {
    if n == 0 then [] else [WorkerGoes] + WorkerRun(n - 1)
  }

  /** No deadlock: left alone, the worker ends every wait of the caller. */
  lemma {:induction false} WaitEnds(f: Codec, s: State)
    requires Invariant(f, s)
    ensures exists n :: 0 <= n <= Rank(s) && Exec(f, s, WorkerRun(n)).Some? && !CallerWaits(Exec(f, s, WorkerRun(n)).value)
    decreases Rank(s)
  {
    hide Invariant, WorkerStep, Rank, CallerWaits;
    if !CallerWaits(s) {
      assert Exec(f, s, WorkerRun(0)) == Some(s);
    } else {
      WorkerIsAble(f, s);
      WorkerStepsDown(f, s);
      StepKeeps(f, s, WorkerGoes);
      var t := WorkerStep(f, s).value;
      WaitEnds(f, t);
      var n :| 0 <= n <= Rank(t) && Exec(f, t, WorkerRun(n)).Some? && !CallerWaits(Exec(f, t, WorkerRun(n)).value);
      assert WorkerRun(n + 1)[0] == WorkerGoes && WorkerRun(n + 1)[1..] == WorkerRun(n);
      assert Exec(f, s, WorkerRun(n + 1)) == Exec(f, t, WorkerRun(n));
    }
  }

  // ----- An empty buffer ends the worker like the stop marker does -----

  ghost predicate Reaches(f: Codec, s: State, t: State) {
    exists actions :: Exec(f, s, actions) == Some(t)
  }

  lemma {:induction false} ExecAppend(f: Codec, s: State, a: seq<Action>, b: seq<Action>)
    requires Exec(f, s, a).Some?
    ensures Exec(f, s, a + b) == Exec(f, Exec(f, s, a).value, b)
    decreases |a|
  {
    hide Step;
    if a == [] {
      assert a + b == b;
    } else {
      assert (a + b)[0] == a[0] && (a + b)[1..] == a[1..] + b;
      ExecAppend(f, Step(f, s, a[0]).value, a[1..], b);
    }
  }

  lemma ReachSelf(f: Codec, s: State)
    ensures Reaches(f, s, s)
  {
    assert Exec(f, s, []) == Some(s);
  }

  lemma ReachStep(f: Codec, s: State, t: State, a: Action)
    requires Reaches(f, s, t) && Step(f, t, a).Some?
    ensures Reaches(f, s, Step(f, t, a).value)
  {
    hide Step;
    var actions :| Exec(f, s, actions) == Some(t);
    ExecAppend(f, s, actions, [a]);
    assert [a][1..] == [];
    assert Exec(f, Step(f, t, a).value, []) == Step(f, t, a);
    assert Exec(f, s, actions + [a]) == Step(f, t, a);
  }

  /** Neither thread can take a step. */
  ghost predicate Stuck(f: Codec, s: State) {
    CallerWaits(s) && CallerStep(s) == None && WorkerStep(f, s) == None
  }

  /** Some interleaving of these calls, in this order, leaves the caller waiting for good. */
  ghost predicate CanDeadlock(f: Codec, xs: seq<Buffer>) {
    exists s :: Reaches(f, START, s) && s.calls <= xs && Stuck(f, s)
  }

  /** Buffers that the worker gets through: none empty, and internal_process never returns 0. */
  ghost predicate GoesThrough(f: Codec, xs: seq<Buffer>) {
    NoneEmpty(xs) && forall n | 0 < n <= |xs| :: f(xs[..n]).code != 0
  }

  /** Buffer i is the first empty one, the worker gets that far, and another call follows. */
  ghost predicate EndsWorker(f: Codec, xs: seq<Buffer>, i: int) {
    0 <= i < |xs| - 1 && xs[i] == [] && GoesThrough(f, xs[..i])
  }

  /** After some number of calls in lockstep: the worker has caught up. */
  ghost predicate CaughtUp(s: State, xs: seq<Buffer>) {
    && s.running && s.caller.Idle? && s.worker.Waiting? && s.inputQueue == [] && s.calls == xs
    && s.inputs == xs && s.consumed == |xs|
    && (s.ready <==> xs != []) && |s.outputQueue| == if xs == [] then 0 else 1
  }

  lemma OneCall(f: Codec, s: State, xs: seq<Buffer>, x: Buffer) returns (t: State)
    requires Reaches(f, START, s) && CaughtUp(s, xs)
    ensures Reaches(f, START, t) && t.calls == t.inputs == xs + [x] && t.running && t.caller.Idle? && t.ready
    ensures t.worker.Waiting? && t.inputQueue == [x] && t.outputQueue == [] && t.consumed == |xs|
  {
    hide WorkOn;
    ReachStep(f, START, s, Call(x));
    var a := Step(f, s, Call(x)).value;
    ReachStep(f, START, a, CallerGoes);
    var b := Step(f, a, CallerGoes).value;
    ReachStep(f, START, b, CallerGoes);
    var c := Step(f, b, CallerGoes).value;
    ReachStep(f, START, c, CallMetadata([]));
    t := Step(f, c, CallMetadata([])).value;
  }

  lemma WorkerCatchesUp(f: Codec, s: State, xs: seq<Buffer>, x: Buffer) returns (t: State)
    requires f(xs + [x]).code != 0 && x != []
    requires Reaches(f, START, s) && s.calls == s.inputs == xs + [x] && s.running && s.caller.Idle? && s.ready
    requires s.worker.Waiting? && s.inputQueue == [x] && s.outputQueue == [] && s.consumed == |xs|
    ensures Reaches(f, START, t) && CaughtUp(t, xs + [x])
  {
    ReachStep(f, START, s, WorkerGoes);
    var a := Step(f, s, WorkerGoes).value;
    assert a.inputs[..a.consumed] == xs + [x];
    ReachStep(f, START, a, WorkerGoes);
    var b := Step(f, a, WorkerGoes).value;
    hide WorkOn;
    ReachStep(f, START, b, WorkerGoes);
    var c := Step(f, b, WorkerGoes).value;
    ReachStep(f, START, c, WorkerGoes);
    t := Step(f, c, WorkerGoes).value;
  }

  lemma GoesThroughPrefix(f: Codec, xs: seq<Buffer>, n: nat)
    requires GoesThrough(f, xs) && n <= |xs|
    ensures GoesThrough(f, xs[..n])
  {
    assert forall x | x in xs[..n] :: x in xs;
    forall m | 0 < m <= n ensures f(xs[..n][..m]).code != 0 {
      assert xs[..n][..m] == xs[..m];
    }
  }

  lemma {:induction false} Lockstep(f: Codec, xs: seq<Buffer>) returns (s: State)
    requires GoesThrough(f, xs)
    ensures Reaches(f, START, s) && CaughtUp(s, xs)
    decreases |xs|
  {
    if xs == [] {
      ReachSelf(f, START);
      ReachStep(f, START, START, WorkerGoes);
      s := Step(f, START, WorkerGoes).value;
    } else {
      var n := |xs| - 1;
      GoesThroughPrefix(f, xs, n);
      hide Step, CaughtUp, Reaches;
      assert xs[..n + 1] == xs == xs[..n] + [xs[n]] && xs[n] in xs;
      s := Lockstep(f, xs[..n]);
      s := OneCall(f, s, xs[..n], xs[n]);
      s := WorkerCatchesUp(f, s, xs[..n], xs[n]);
    }
  }

  lemma EmptyThenNext(f: Codec, xs: seq<Buffer>, y: Buffer)
    requires GoesThrough(f, xs)
    ensures CanDeadlock(f, xs + [[]] + [y])
  {
    hide Reaches, CaughtUp, WorkOn, Exec, GoesThrough;
    var s := Lockstep(f, xs);
    var t := OneCall(f, s, xs, []);
    ReachStep(f, START, t, WorkerGoes);
    var a := Step(f, t, WorkerGoes).value;
    ReachStep(f, START, a, Call(y));
    var b := Step(f, a, Call(y)).value;
    ReachStep(f, START, b, CallerGoes);
    var c := Step(f, b, CallerGoes).value;
    ReachStep(f, START, c, WorkerGoes);
    var d := Step(f, c, WorkerGoes).value;
    assert d.calls == xs + [[]] + [y] && Stuck(f, d);
  }

  // ----- What holds in every run, with empty buffers too -----

  /** The worker has taken an empty buffer and does not come back. */
  predicate TookEmpty(s: State) {
    s.consumed == s.made + 1 <= |s.inputs| && s.inputs[s.made] == [] && (s.worker.Exiting? || s.worker.Done?)
  }

  /** Calls that have seen m_running. */
  function Accepted(s: State): int {
    |s.inputs| - Stopped(s) + if s.caller.Admitted? then 1 else 0
  }

  ghost predicate CallsAdvance(s: State) {
    && |s.inputs| == s.frames + Stopped(s) + (if s.caller.Pushed? then 1 else 0)
    && AreCalls(s.inputs, s.calls, |s.inputs| - Stopped(s))
    && (s.running || Inside(s) == 1 ==> |s.calls| == s.frames + Inside(s))
    && (s.caller.Admitted? ==> |s.calls| == |s.inputs| + 1 && s.caller.x == s.calls[|s.inputs|])
    && (Stopped(s) == 1 ==> s.inputs[|s.inputs| - 1] == [])
    && (s.ready <==> s.frames > 0)
  }

  ghost predicate QueuesAdvance(s: State) {
    && s.made <= s.consumed <= |s.inputs| && s.inputQueue == s.inputs[s.consumed..]
    && Taken(s) + |s.outputQueue| == s.made
  }

  ghost predicate WorkerAdvances(s: State) {
    && (s.worker.AtLoop? || s.worker.Waiting? ==> s.consumed == s.made)
    && (s.worker.Computing? || s.worker.Pushing? ==> s.consumed == s.made + 1 <= |s.inputs| && s.inputs[s.made] != [])
    && (s.worker.Exiting? || s.worker.Done? ==> TookEmpty(s) || (s.consumed == s.made && !s.running))
    && (s.worker.Waiting? || s.worker.Computing? ==> s.running)
    && (s.worker.Done? ==> !s.running)
    && s.made <= |s.inputs| && (forall i | 0 <= i < s.made :: s.inputs[i] != [])
  }

  ghost predicate CodesAdvance(f: Codec, s: State) {
    && Worked(s) <= |s.inputs|
    && (forall n | 0 < n < Worked(s) :: WorkOn(f, s.inputs, n).code != 0)
    && (s.running && Worked(s) > 0 ==> WorkOn(f, s.inputs, Worked(s)).code != 0)
    && (TookEmpty(s) && s.made > 0 ==> WorkOn(f, s.inputs, s.made).code != 0)
    && (!s.running && !TookEmpty(s) ==> Accepted(s) <= Worked(s) + 1)
  }

  ghost predicate Advances(f: Codec, s: State) {
    CallsAdvance(s) && QueuesAdvance(s) && WorkerAdvances(s) && CodesAdvance(f, s)
  }

  lemma AcceptedCalls(s: State, x: Buffer)
    requires CallsAdvance(s)
    ensures AreCalls(s.inputs, s.calls + [x], |s.inputs| - Stopped(s))
    ensures Stopped(s) == 0 ==> AreCalls(s.inputs + [[]], s.calls, |s.inputs|)
    ensures s.caller.Admitted? ==> AreCalls(s.inputs + [s.caller.x], s.calls, |s.inputs| + 1)
  {
  }

  lemma CallsGoOn(f: Codec, s: State, a: Action)
    requires CallsAdvance(s) && Step(f, s, a).Some?
    ensures CallsAdvance(Step(f, s, a).value)
  {
    AcceptedCalls(s, if a.Call? then a.x else []);
    hide WorkOn, AreCalls, CallerStep, WorkerStep;
    if a.CallerGoes? {
      CallsOfCaller(s);
    } else if a.WorkerGoes? {
      CallsOfWorker(f, s);
    }
  }

  lemma CallsOfCaller(s: State)
    requires CallsAdvance(s) && CallerStep(s).Some?
    ensures CallsAdvance(CallerStep(s).value)
  {
    AcceptedCalls(s, []);
    hide AreCalls;
  }

  lemma CallsOfWorker(f: Codec, s: State)
    requires CallsAdvance(s) && WorkerStep(f, s).Some?
    ensures CallsAdvance(WorkerStep(f, s).value)
  {
    hide WorkOn, AreCalls;
    var t := WorkerStep(f, s).value;
    assert t.inputs == s.inputs && t.calls == s.calls && t.caller == s.caller && t.frames == s.frames && t.ready == s.ready;
    assert t.running ==> s.running;
  }

  lemma QueuesGoOn(f: Codec, s: State, a: Action)
    requires CallsAdvance(s) && QueuesAdvance(s) && WorkerAdvances(s) && Step(f, s, a).Some?
    ensures QueuesAdvance(Step(f, s, a).value)
  {
    hide WorkOn, CallsAdvance, WorkerAdvances, CallerStep, WorkerStep;
    QueueGrows(s, []);
    if a.CallerGoes? {
      QueuesOfCaller(s);
    } else if a.WorkerGoes? {
      QueuesOfWorker(f, s);
    }
  }

  lemma QueueGrows(s: State, x: Buffer)
    requires QueuesAdvance(s)
    ensures (s.inputs + [x])[s.consumed..] == s.inputQueue + [x]
  {
  }

  lemma QueuesOfCaller(s: State)
    requires CallsAdvance(s) && QueuesAdvance(s) && CallerStep(s).Some?
    ensures QueuesAdvance(CallerStep(s).value)
  {
    if s.caller.Admitted? {
      QueueGrows(s, s.caller.x);
    }
    hide AreCalls;
  }

  lemma QueuesOfWorker(f: Codec, s: State)
    requires QueuesAdvance(s) && WorkerAdvances(s) && WorkerStep(f, s).Some?
    ensures QueuesAdvance(WorkerStep(f, s).value)
  {
    hide WorkOn;
  }

  lemma WorkerGoesOn(f: Codec, s: State, a: Action)
    requires QueuesAdvance(s) && WorkerAdvances(s) && Step(f, s, a).Some?
    ensures WorkerAdvances(Step(f, s, a).value)
  {
    hide WorkOn, WorkerStep;
    if a.WorkerGoes? {
      WorkerOfWorker(f, s);
    }
  }

  lemma WorkerOfWorker(f: Codec, s: State)
    requires QueuesAdvance(s) && WorkerAdvances(s) && WorkerStep(f, s).Some?
    ensures WorkerAdvances(WorkerStep(f, s).value)
  {
    hide WorkOn;
    assert s.inputQueue != [] ==> s.inputQueue[0] == s.inputs[s.consumed];
  }

  lemma CodesGoOn(f: Codec, s: State, a: Action)
    requires Advances(f, s) && Step(f, s, a).Some?
    ensures CodesAdvance(f, Step(f, s, a).value)
  {
    hide WorkOn, AreCalls, CallerStep, WorkerStep, QueuesAdvance;
    if a.Stop? {
      CodesOfInput(f, s, []);
    } else if a.CallerGoes? {
      CodesOfCaller(f, s);
    } else if a.WorkerGoes? {
      CodesOfWorker(f, s);
    }
  }

  /** More input changes nothing for the buffers before it. */
  lemma CodesOfInput(f: Codec, s: State, x: Buffer)
    requires WorkerAdvances(s) && CodesAdvance(f, s)
    ensures var t := s.(inputs := s.inputs + [x]);
            && Worked(t) == Worked(s) <= |t.inputs| && TookEmpty(t) == TookEmpty(s)
            && forall n | 0 < n <= Worked(s) :: WorkOn(f, t.inputs, n) == WorkOn(f, s.inputs, n)
  {
    WorkIsFixed(f, s.inputs, x);
    hide WorkOn;
  }

  lemma CodesOfCaller(f: Codec, s: State)
    requires WorkerAdvances(s) && CodesAdvance(f, s) && CallerStep(s).Some?
    ensures CodesAdvance(f, CallerStep(s).value)
  {
    if s.caller.Admitted? {
      CodesOfInput(f, s, s.caller.x);
    }
    hide WorkOn, WorkerAdvances;
  }

  /** When internal_process fails, only the call after next may have been accepted. */
  lemma AcceptedSoFar(s: State)
    requires CallsAdvance(s) && QueuesAdvance(s)
    ensures Accepted(s) <= s.made + 2
  {
    hide AreCalls;
  }

  lemma CodesOfWorker(f: Codec, s: State)
    requires Advances(f, s) && WorkerStep(f, s).Some?
    ensures CodesAdvance(f, WorkerStep(f, s).value)
  {
    AcceptedSoFar(s);
    hide CallsAdvance, QueuesAdvance;
    if s.worker.Computing? {
      CodesOfComputing(f, s);
    } else {
      WorkerLeaves(f, s);
      hide WorkOn, WorkerStep, WorkerAdvances, TookEmpty, Worked, Accepted;
    }
  }

  lemma WorkerLeaves(f: Codec, s: State)
    requires WorkerAdvances(s) && WorkerStep(f, s).Some? && !s.worker.Computing?
    ensures var t := WorkerStep(f, s).value;
            && t.inputs == s.inputs && Worked(t) == Worked(s) && Accepted(t) == Accepted(s) && (t.running ==> s.running)
            && (TookEmpty(t) ==> t.made == s.made && (TookEmpty(s) || (s.running && Worked(s) == s.made)))
            && (!t.running && !TookEmpty(t) ==> !s.running && !TookEmpty(s))
  {
    hide WorkOn;
  }

  lemma CodesOfComputing(f: Codec, s: State)
    requires WorkerAdvances(s) && CodesAdvance(f, s) && s.worker.Computing? && Accepted(s) <= s.made + 2
    ensures WorkerStep(f, s).Some? && CodesAdvance(f, WorkerStep(f, s).value)
  {
    hide WorkOn;
    var t := WorkerStep(f, s).value;
    assert Worked(t) == s.consumed == Worked(s) + 1 && !TookEmpty(t) && t.inputs == s.inputs;
  }

  lemma {:induction false} RunAdvances(f: Codec, s: State, actions: seq<Action>)
    requires Advances(f, s) && Exec(f, s, actions).Some?
    ensures Advances(f, Exec(f, s, actions).value)
    decreases |actions|
  {
    hide CallsAdvance, QueuesAdvance, WorkerAdvances, CodesAdvance, Step;
    if actions != [] {
      CallsGoOn(f, s, actions[0]);
      QueuesGoOn(f, s, actions[0]);
      WorkerGoesOn(f, s, actions[0]);
      CodesGoOn(f, s, actions[0]);
      RunAdvances(f, Step(f, s, actions[0]).value, actions[1..]);
    }
  }

  /** Only a worker that has taken an empty buffer leaves a caller waiting for good. */
  lemma StuckTookEmpty(f: Codec, s: State)
    requires Advances(f, s) && Stuck(f, s)
    ensures TookEmpty(s) && s.made + 2 == |s.inputs| <= |s.calls| && Stopped(s) == 0
  {
    hide WorkOn, AreCalls;
    assert |s.inputs| - Stopped(s) <= |s.calls| by { CallCount(s.inputs, s.calls, |s.inputs| - Stopped(s)); }
  }

  lemma CallCount(inputs: seq<Buffer>, calls: seq<Buffer>, n: int)
    requires AreCalls(inputs, calls, n)
    ensures n <= |calls| && forall i | 0 <= i <= n :: inputs[..i] == calls[..i]
  {
    forall i | 0 <= i <= n ensures inputs[..i] == calls[..i] {
    }
  }

  lemma StuckEndsWorker(f: Codec, s: State, xs: seq<Buffer>)
    requires Advances(f, s) && Stuck(f, s) && s.calls <= xs
    ensures EndsWorker(f, xs, s.made)
  {
    StuckTookEmpty(f, s);
    hide Stuck, QueuesAdvance;
    CallCount(s.inputs, s.calls, |s.inputs|);
    hide AreCalls;
    var i := s.made;
    assert s.inputs[i] == s.inputs[..i + 1][i] == xs[i];
    assert xs[..i] == s.inputs[..i];
    forall n | 0 < n <= i ensures f(xs[..i][..n]).code != 0 {
      assert xs[..i][..n] == s.inputs[..n];
      WorkIs(f, s.inputs, n);
      assert WorkOn(f, s.inputs, n).code != 0 by { hide WorkOn; }
    }
  }

  lemma StartAdvances(f: Codec)
    ensures Advances(f, START)
  {
    StartCalls();
    StartQueues();
    StartWorker();
    StartCodes(f);
    hide CallsAdvance, QueuesAdvance, WorkerAdvances, CodesAdvance;
  }

  lemma StartCalls()
    ensures CallsAdvance(START)
  {
  }

  lemma StartQueues()
    ensures QueuesAdvance(START)
  {
  }

  lemma StartWorker()
    ensures WorkerAdvances(START)
  {
  }

  lemma StartCodes(f: Codec)
    ensures CodesAdvance(f, START)
  {
  }

  /** For every codec and all buffers: some interleaving leaves the caller waiting for good
      exactly when an empty buffer comes before the last call and the worker gets as far as it. */
  lemma DeadlockIff(f: Codec, xs: seq<Buffer>)
    ensures CanDeadlock(f, xs) <==> exists i :: EndsWorker(f, xs, i)
  {
    hide EndsWorker, CanDeadlock;
    if CanDeadlock(f, xs) {
      var i := DeadlockEndsWorker(f, xs);
    }
    if i :| EndsWorker(f, xs, i) {
      EmptyDeadlocks(f, xs, i);
    }
  }

  lemma DeadlockEndsWorker(f: Codec, xs: seq<Buffer>) returns (i: int)
    requires CanDeadlock(f, xs)
    ensures EndsWorker(f, xs, i)
  {
    hide Exec, Advances, Stuck, EndsWorker;
    var s :| Reaches(f, START, s) && s.calls <= xs && Stuck(f, s);
    var actions :| Exec(f, START, actions) == Some(s);
    StartAdvances(f);
    RunAdvances(f, START, actions);
    StuckEndsWorker(f, s, xs);
    i := s.made;
  }

  lemma EmptyDeadlocks(f: Codec, xs: seq<Buffer>, i: int)
    requires EndsWorker(f, xs, i)
    ensures CanDeadlock(f, xs)
  {
    hide Reaches, Stuck, GoesThrough;
    EmptyThenNext(f, xs[..i], xs[i + 1]);
    var s :| Reaches(f, START, s) && s.calls <= xs[..i] + [[]] + [xs[i + 1]] && Stuck(f, s);
    assert xs[..i] + [[]] + [xs[i + 1]] == xs[..i + 2];
    assert s.calls <= xs;
  }

  // ----- The output of the buffer that failed -----

  /** internal_process has returned 0 for the n-th buffer. */
  ghost predicate FailedAt(f: Codec, s: State, n: nat) {
    0 < n <= Worked(s) && n <= |s.calls| && f(s.calls[..n]).code == 0
  }

  lemma FailedLast(f: Codec, s: State, n: nat)
    requires Advances(f, s) && FailedAt(f, s, n)
    ensures 0 < n == Worked(s) <= |s.inputs| - Stopped(s) && !s.running && !TookEmpty(s)
    ensures n <= Accepted(s) == s.frames + Inside(s) <= n + 1 && s.inputs[..n] == s.calls[..n]
  {
    WorkedAreCalls(s);
    CallCount(s.inputs, s.calls, |s.inputs| - Stopped(s));
    WorkIs(f, s.inputs, n);
    hide WorkOn, AreCalls, QueuesAdvance, WorkerAdvances;
  }

  lemma WorkedAreCalls(s: State)
    requires CallsAdvance(s) && WorkerAdvances(s)
    ensures Worked(s) <= |s.inputs| - Stopped(s)
  {
    hide AreCalls;
  }

  /** When no call is under way, the output of the failed buffer n has been delivered exactly
      when call n was accepted: when it passed the test of m_running before the worker cleared
      it. Otherwise the output stays in the queue. */
  lemma FailedOutputIff(f: Codec, actions: seq<Action>, n: nat)
    requires NonEmptyCalls(actions) && Exec(f, START, actions).Some? && FailedAt(f, Exec(f, START, actions).value, n)
    ensures var s := Exec(f, START, actions).value;
            && (Inside(s) == 0 ==> (n < s.frames <==> n < Accepted(s)))
            && (n < s.frames ==> s.frames == n + 1 <= |s.replies| && s.replies[n] == Frame(f(s.calls[..n]).out))
            && (Accepted(s) <= n && !s.worker.Pushing? ==>
                  s.outputQueue != [] && s.outputQueue[|s.outputQueue| - 1] == f(s.calls[..n]).out)
  {
    hide Invariant, Advances, Exec, FailedAt, OneCallDelay;
    var s := Exec(f, START, actions).value;
    StartInvariant(f);
    RunKeeps(f, START, actions);
    StartAdvances(f);
    RunAdvances(f, START, actions);
    FailedLast(f, s, n);
    InvariantMeansDelay(f, s);
    FailedCalls(f, s, n);
    if n < s.frames {
      DelayOf(f, s, n);
    } else {
      OutputKept(f, s, n);
    }
  }

  lemma DelayOf(f: Codec, s: State, n: nat)
    requires OneCallDelay(f, s) && 0 < n < s.frames
    ensures n < |s.replies| && n <= |s.calls| && s.replies[n] == Frame(f(s.calls[..n]).out)
  {
  }

  lemma OutputKept(f: Codec, s: State, n: nat)
    requires Invariant(f, s) && n == Worked(s) > 0 && s.frames <= n <= |s.inputs| && n <= |s.calls|
    requires s.inputs[..n] == s.calls[..n]
    ensures !s.worker.Pushing? ==>
              s.outputQueue != [] && s.outputQueue[|s.outputQueue| - 1] == f(s.calls[..n]).out
  {
    WorkIs(f, s.inputs, n);
    hide WorkOn, WorkerMatches, InputsMatch, FailureVisible, RepliesMatch, MetadataMatches, CodesMatch;
  }

  /** Once m_running is cleared, no further call is accepted: the outcome is decided. */
  lemma {:induction false} NoMoreAccepted(f: Codec, s: State, actions: seq<Action>)
    requires !s.running && Exec(f, s, actions).Some?
    ensures !Exec(f, s, actions).value.running && Accepted(Exec(f, s, actions).value) == Accepted(s)
    decreases |actions|
  {
    hide Accepted, Step;
    if actions != [] {
      StepAccepts(f, s, actions[0]);
      NoMoreAccepted(f, Step(f, s, actions[0]).value, actions[1..]);
    }
  }

  lemma StepAccepts(f: Codec, s: State, a: Action)
    requires !s.running && Step(f, s, a).Some?
    ensures !Step(f, s, a).value.running && Accepted(Step(f, s, a).value) == Accepted(s)
  {
    hide WorkOn;
  }

  lemma StepKeepsFailure(f: Codec, s: State, a: Action, n: nat)
    requires FailedAt(f, s, n) && Step(f, s, a).Some?
    ensures FailedAt(f, Step(f, s, a).value, n)
  {
    hide WorkOn;
    var t := Step(f, s, a).value;
    assert t.calls[..n] == s.calls[..n];
  }

  lemma {:induction false} RunKeepsFailure(f: Codec, s: State, actions: seq<Action>, n: nat)
    requires FailedAt(f, s, n) && Exec(f, s, actions).Some?
    ensures FailedAt(f, Exec(f, s, actions).value, n)
    decreases |actions|
  {
    hide FailedAt, Step;
    if actions != [] {
      StepKeepsFailure(f, s, actions[0], n);
      RunKeepsFailure(f, Step(f, s, actions[0]).value, actions[1..], n);
    }
  }

  /** If call n has not been accepted by then, no continuation of the run delivers the output. */
  lemma LostForEver(f: Codec, actions: seq<Action>, more: seq<Action>, n: nat)
    requires NonEmptyCalls(actions + more) && Exec(f, START, actions).Some?
    requires var s := Exec(f, START, actions).value; FailedAt(f, s, n) && Accepted(s) <= n && Exec(f, s, more).Some?
    ensures var t := Exec(f, Exec(f, START, actions).value, more).value;
            && t.frames <= n
            && (!t.worker.Pushing? ==>
                  && n <= |t.calls| && t.outputQueue != []
                  && t.outputQueue[|t.outputQueue| - 1] == f(t.calls[..n]).out)
  {
    hide Exec, FailedAt, Advances;
    var s := Exec(f, START, actions).value;
    var t := Exec(f, s, more).value;
    StartAdvances(f);
    RunAdvances(f, START, actions);
    RunAdvances(f, s, more);
    FailedLast(f, s, n);
    NoMoreAccepted(f, s, more);
    RunKeepsFailure(f, s, more, n);
    ExecAppend(f, START, actions, more);
    FailedOutputIff(f, actions + more, n);
    FailedLast(f, t, n);
    FailedCalls(f, t, n);
  }

  lemma FailedCalls(f: Codec, s: State, n: nat)
    requires FailedAt(f, s, n)
    ensures n <= |s.calls|
  {
  }

  /** The next call comes after m_running is cleared: the output is lost. */
  lemma FailedOutputLost(f: Codec, x: Buffer, y: Buffer) returns (s: State)
    requires f([x]).code == 0 && x != [] && y != []
    ensures Reaches(f, START, s) && s.calls == [x, y] && s.caller.Processed? && s.worker.Done?
    ensures s.replies == [Frame([]), NotRunning] && s.outputQueue == [f([x]).out]
  {
    s := FirstBufferFails(f, x);
    hide WorkOn;
    s := Goes(f, s, WorkerGoes);
    s := Goes(f, s, WorkerGoes);
    s := Goes(f, s, WorkerGoes);
    s := Goes(f, s, Call(y));
  }

  /** The next call has passed the test before: it still gets the output. */
  lemma FailedOutputDelivered(f: Codec, x: Buffer, y: Buffer) returns (s: State)
    requires f([x]).code == 0 && x != [] && y != []
    ensures Reaches(f, START, s) && s.calls == [x, y] && s.caller.Processed? && !s.running
    ensures s.replies == [Frame([]), Frame(f([x]).out)] && s.outputQueue == []
  {
    s := FirstCall(f, x);
    s := Goes(f, s, Call(y));
    s := WorkerFails(f, s, x);
    hide WorkOn;
    s := Goes(f, s, WorkerGoes);
    s := Goes(f, s, CallerGoes);
    s := Goes(f, s, CallerGoes);
  }

  lemma Goes(f: Codec, s: State, a: Action) returns (t: State)
    requires Reaches(f, START, s) && Step(f, s, a).Some?
    ensures Reaches(f, START, t) && t == Step(f, s, a).value
  {
    hide *;
    ReachStep(f, START, s, a);
    t := Step(f, s, a).value;
  }

  /** The worker waits, the first call has returned. */
  lemma FirstCall(f: Codec, x: Buffer) returns (s: State)
    ensures Reaches(f, START, s)
    ensures s == START.(caller := Idle, worker := Waiting, ready := true, inputQueue := [x], inputs := [x], calls := [x],
                        fifo := [[]], metas := [[]], metaReplies := [[]], replies := [Frame([])], frames := 1)
  {
    hide WorkOn;
    ReachSelf(f, START);
    s := Goes(f, START, WorkerGoes);
    s := Goes(f, s, Call(x));
    s := Goes(f, s, CallerGoes);
    s := Goes(f, s, CallerGoes);
    s := Goes(f, s, CallMetadata([]));
  }

  /** The worker takes the buffer, and internal_process returns 0. */
  lemma WorkerFails(f: Codec, s: State, x: Buffer) returns (t: State)
    requires Reaches(f, START, s) && s.worker.Waiting? && s.inputQueue == [x] == s.inputs && s.consumed == 0
    requires x != [] && f([x]).code == 0
    ensures Reaches(f, START, t)
    ensures t == s.(worker := Pushing(f([x]).out), inputQueue := [], consumed := 1, running := false)
  {
    t := Goes(f, s, WorkerGoes);
    assert t.inputs[..1] == [x];
    t := Goes(f, t, WorkerGoes);
  }

  lemma FirstBufferFails(f: Codec, x: Buffer) returns (s: State)
    requires x != [] && f([x]).code == 0
    ensures Reaches(f, START, s) && s.calls == [x] && s.caller.Idle? && !s.running && s.worker == Pushing(f([x]).out)
    ensures s.replies == [Frame([])] && s.outputQueue == []
  {
    s := FirstCall(f, x);
    s := WorkerFails(f, s, x);
  }
}
