/**
 * The termination protocol of a web worker (runtime/web_worker.rs).
 *
 * Parent-side `terminate` calls, the delayed killer thread they spawn, and the worker's own
 * `terminate`, `terminate_if_needed` and `post_event` calls share two atomic flags, a channel
 * and the isolate. Every atomic operation is one step of one thread. A run is a sequence of
 * events chosen by an arbitrary scheduler, so a statement about all event sequences is a
 * statement about all interleavings of any number of calls.
 */
module WebWorker {
  import opened Histories
  import opened Wrappers

  datatype Op = ParentTerminate | WorkerTerminate | TerminateIfNeeded | PostEvent

  /**
   * The next atomic operation of a thread. `poll` is set inside `terminate_if_needed`, and
   * `asked` remembers whether the termination signal was already set when that call began.
   */
  datatype Pc =
    | SwapSignal
    | CheckTerminated
    | SpawnKiller
    | KillerSwap
    | KillerExecute
    | LoadTerminated(asked: bool)
    | LoadSignal(asked: bool)
    | Swap(poll: Option<bool>)
    | Execute(poll: Option<bool>)
    | Close(poll: Option<bool>)
    | CheckClosed
    | StoreTerminated
    | Finished
    | Answered(asked: bool, answer: bool)

  /** What first turned `has_terminated` from false to true. */
  datatype Setter = BySwap(thread: nat) | ByStore

  datatype State = State(
    signal: bool,
    terminated: bool,
    closed: bool,
    threads: seq<Pc>,
    setter: Option<Setter>,
    executions: seq<nat>)

  datatype Event = Call(op: Op) | Advance(thread: nat) | DropReceiver

  const CREATED := State(false, false, false, [], None, [])

  function Entry(op: Op, signal: bool): Pc {
    match op
    case ParentTerminate => SwapSignal
    case WorkerTerminate => Swap(None)
    case TerminateIfNeeded => LoadTerminated(signal)
    case PostEvent => CheckClosed
  }

  function Claim(s: State, setter: Setter): State {
    if s.terminated then s else s.(terminated := true, setter := Some(setter))
  }

  function Return(poll: Option<bool>): Pc {
    if poll.Some? then Answered(poll.value, true) else Finished
  }

  /** Where a thread at `pc` goes on after its operation on `s`. */
  function NextPc(s: State, pc: Pc): Pc {
    match pc
    case SwapSignal => if s.signal then Finished else CheckTerminated
    case CheckTerminated => if s.terminated then Finished else SpawnKiller
    case SpawnKiller => Finished
    case KillerSwap => if s.terminated then Finished else KillerExecute
    case KillerExecute => Finished
    case LoadTerminated(asked) => if s.terminated then Answered(asked, true) else LoadSignal(asked)
    case LoadSignal(asked) => if s.signal then Swap(Some(asked)) else Answered(asked, false)
    case Swap(poll) => if s.terminated then Close(poll) else Execute(poll)
    case Execute(poll) => Close(poll)
    case Close(poll) => Return(poll)
    case CheckClosed => if s.closed then StoreTerminated else Finished
    case StoreTerminated => Finished
    case Finished => Finished
    case Answered(_, _) => pc
  }

  /** What the operation at `pc`, done by thread `i`, does to the shared state. */
  function Effect(s: State, i: nat, pc: Pc): State {
    match pc
    case SwapSignal => s.(signal := true)
    case KillerSwap => Claim(s, BySwap(i))
    case Swap(_) => Claim(s, BySwap(i))
    case StoreTerminated => Claim(s, ByStore)
    case KillerExecute => s.(executions := s.executions + [i])
    case Execute(_) => s.(executions := s.executions + [i])
    case Close(_) => s.(closed := true)
    case _ => s
  }

  function Spawned(pc: Pc): seq<Pc> {
    if pc == SpawnKiller then [KillerSwap] else []
  }

  /** One atomic operation of thread `i`. */
  function Step(s: State, i: nat): State
    requires i < |s.threads|
  {
    var pc := s.threads[i];
    Effect(s, i, pc).(threads := s.threads[i := NextPc(s, pc)] + Spawned(pc))
  }

  function Apply(s: State, e: Event): State {
    match e
    case Call(op) => s.(threads := s.threads + [Entry(op, s.signal)])
    case Advance(i) => if i < |s.threads| then Step(s, i) else s
    case DropReceiver => s.(closed := true)
  }

  function Run(events: seq<Event>): State {
    if events == [] then CREATED else Apply(Run(events[..|events| - 1]), events[|events| - 1])
  }

  // ---- Counting threads ----

  /** The thread that still owes a termination to the call that set the signal. */
  predicate Responsible(pc: Pc) {
    pc.CheckTerminated? || pc.SpawnKiller? || pc.KillerSwap?
  }

  /** The number of steps a thread can still cause, its spawned killer's included. */
  function Remaining(pc: Pc): nat {
    match pc
    case SwapSignal => 5
    case CheckTerminated => 4
    case SpawnKiller => 3
    case KillerSwap => 2
    case KillerExecute => 1
    case LoadTerminated(_) => 5
    case LoadSignal(_) => 4
    case Swap(_) => 3
    case Execute(_) => 2
    case Close(_) => 1
    case CheckClosed => 2
    case StoreTerminated => 1
    case Finished => 0
    case Answered(_, _) => 0
  }

  function Owing(pc: Pc): nat { if Responsible(pc) then 1 else 0 }

  function Sum(f: Pc -> nat, threads: seq<Pc>): nat {
    if threads == [] then 0 else Sum(f, threads[..|threads| - 1]) + f(threads[|threads| - 1])
  }

  lemma {:induction false} SumUpdate(f: Pc -> nat, threads: seq<Pc>, i: nat, pc: Pc)
    requires i < |threads|
    ensures Sum(f, threads[i := pc]) + f(threads[i]) == Sum(f, threads) + f(pc)
  {
    var last := |threads| - 1;
    if i == last {
      assert threads[i := pc][..last] == threads[..last];
    } else {
      SumUpdate(f, threads[..last], i, pc);
      assert threads[i := pc][..last] == threads[..last][i := pc];
    }
  }

  lemma SumAppend(f: Pc -> nat, threads: seq<Pc>, pc: Pc)
    ensures Sum(f, threads + [pc]) == Sum(f, threads) + f(pc)
  {
  }

  lemma SumStep(f: Pc -> nat, s: State, i: nat)
    requires i < |s.threads|
    ensures var pc := s.threads[i];
            Sum(f, Step(s, i).threads) + f(pc) ==
              Sum(f, s.threads) + f(NextPc(s, pc)) + (if pc == SpawnKiller then f(KillerSwap) else 0)
  {
    var pc := s.threads[i];
    var moved := s.threads[i := NextPc(s, pc)];
    SumUpdate(f, s.threads, i, NextPc(s, pc));
    if pc == SpawnKiller {
      SumAppend(f, moved, KillerSwap);
    } else {
      assert moved + [] == moved;
    }
  }

  lemma {:induction false} SumAtLeast(f: Pc -> nat, threads: seq<Pc>, i: nat)
    requires i < |threads|
    ensures f(threads[i]) <= Sum(f, threads)
  {
    if i < |threads| - 1 {
      SumAtLeast(f, threads[..|threads| - 1], i);
    }
  }

  lemma {:induction false} SumZero(f: Pc -> nat, threads: seq<Pc>)
    requires forall i :: 0 <= i < |threads| ==> f(threads[i]) == 0
    ensures Sum(f, threads) == 0
  {
    if threads != [] {
      SumZero(f, threads[..|threads| - 1]);
    }
  }

  // ---- The invariant ----

  predicate Executing(pc: Pc) { pc.Execute? || pc.KillerExecute? }

  predicate PollOk(s: State, poll: Option<bool>) {
    poll.Some? && poll.value ==> s.signal
  }

  predicate ThreadOk(s: State, i: nat)
    requires i < |s.threads|
  {
    match s.threads[i]
    case KillerExecute => s.setter == Some(BySwap(i)) && s.executions == []
    case Execute(poll) => s.setter == Some(BySwap(i)) && s.executions == [] && PollOk(s, poll)
    case Close(poll) => s.terminated && PollOk(s, poll)
    case Swap(poll) => PollOk(s, poll)
    case LoadTerminated(asked) => asked ==> s.signal
    case LoadSignal(asked) => asked ==> s.signal
    case Answered(asked, answer) => if answer then s.terminated else !asked
    case _ => true
  }

  /** The flag, who set it, and the calls of `terminate_execution` fit together. */
  predicate SetterOk(s: State) {
    && (s.terminated <==> s.setter.Some?)
    && (s.setter.Some? && s.setter.value.BySwap? ==>
          (var w := s.setter.value.thread;
           w < |s.threads| && (s.executions == [w] || Executing(s.threads[w]))))
    && (s.executions != [] ==> s.setter.Some? && s.setter.value.BySwap?)
  }

  predicate OwedOk(s: State) {
    && Sum(Owing, s.threads) <= (if s.signal then 1 else 0)
    && (s.signal && !s.terminated ==> Sum(Owing, s.threads) == 1)
  }

  predicate Inv(s: State) {
    && SetterOk(s)
    && OwedOk(s)
    && forall i: nat :: i < |s.threads| ==> ThreadOk(s, i)
  }

  /** A thread's condition depends on the shared state only through these facts. */
  lemma ThreadOkFrame(s: State, s': State, i: nat)
    requires i < |s.threads| && i < |s'.threads| && s'.threads[i] == s.threads[i] && ThreadOk(s, i)
    requires s'.setter == s.setter && s'.executions == s.executions
    requires s'.signal == s.signal && s'.terminated == s.terminated
    ensures ThreadOk(s', i)
  {
  }

  lemma CallKeepsInv(s: State, op: Op)
    requires Inv(s)
    ensures Inv(Apply(s, Call(op)))
  {
    var s' := Apply(s, Call(op));
    var pc := Entry(op, s.signal);
    assert OwedOk(s') by { SumAppend(Owing, s.threads, pc); }
    assert SetterOk(s');
    forall i: nat | i < |s'.threads| ensures ThreadOk(s', i) {
      if i < |s.threads| {
        ThreadOkFrame(s, s', i);
      } else {
        assert s'.threads[i] == pc;
      }
    }
  }

  lemma StepKeepsOwed(s: State, i: nat)
    requires Inv(s) && i < |s.threads|
    ensures OwedOk(Step(s, i))
  {
    SumAtLeast(Owing, s.threads, i);
    SumStep(Owing, s, i);
  }

  lemma StepKeepsSetter(s: State, i: nat)
    requires Inv(s) && i < |s.threads|
    ensures SetterOk(Step(s, i))
  {
    assert ThreadOk(s, i);
  }

  /** Another thread's step changes nothing that thread `j` relies on. */
  lemma StepKeepsOther(s: State, i: nat, j: nat)
    requires Inv(s) && i < |s.threads| && j < |s.threads| && j != i
    ensures ThreadOk(Step(s, i), j)
  {
    assert ThreadOk(s, i) && ThreadOk(s, j);
    assert Step(s, i).threads[j] == s.threads[j];
  }

  lemma StepKeepsSelf(s: State, i: nat)
    requires Inv(s) && i < |s.threads|
    ensures ThreadOk(Step(s, i), i)
  {
    assert ThreadOk(s, i);
    assert Step(s, i).threads[i] == NextPc(s, s.threads[i]);
  }

  lemma StepKeepsInv(s: State, i: nat)
    requires Inv(s) && i < |s.threads|
    ensures Inv(Step(s, i))
  {
    StepKeepsOwed(s, i);
    StepKeepsSetter(s, i);
    var s' := Step(s, i);
    forall j: nat | j < |s'.threads| ensures ThreadOk(s', j) {
      if j == i {
        StepKeepsSelf(s, i);
      } else if j < |s.threads| {
        StepKeepsOther(s, i, j);
      }
    }
  }

  /** The invariant holds after every run. */
  lemma {:induction false} RunKeepsInv(events: seq<Event>)
    ensures Inv(Run(events))
  {
    if events != [] {
      var s, e := Run(events[..|events| - 1]), events[|events| - 1];
      RunKeepsInv(events[..|events| - 1]);
      match e
      case Call(op) => CallKeepsInv(s, op);
      case Advance(i) => if i < |s.threads| { StepKeepsInv(s, i); }
      case DropReceiver =>
        forall i: nat | i < |s.threads| ensures ThreadOk(s.(closed := true), i) {
          ThreadOkFrame(s, s.(closed := true), i);
        }
    }
  }

  // ---- The promises ----

  /**
   * In every interleaving the isolate is terminated at most once, and only by the thread whose
   * swap turned `has_terminated` from false to true.
   */
  lemma ExecutionStoppedAtMostOnce(events: seq<Event>)
    ensures var s := Run(events);
            |s.executions| <= 1 &&
            (s.executions != [] ==> s.setter == Some(BySwap(s.executions[0])))
  {
    RunKeepsInv(events);
    var s := Run(events);
    if s.setter.Some? && s.setter.value.BySwap? {
      assert ThreadOk(s, s.setter.value.thread);
    }
  }

  /**
   * A requested termination is never lost: while the signal is set and the worker has not
   * terminated, exactly one thread (the parent call that set the signal, or its killer) still
   * has to see to it. There is never a second one.
   */
  lemma RequestNeverLost(events: seq<Event>)
    ensures var s := Run(events);
            Sum(Owing, s.threads) <= 1 && (s.signal && !s.terminated ==> Sum(Owing, s.threads) == 1)
  {
    RunKeepsInv(events);
  }

  /** Every step of an unfinished thread uses up work, so calls end whatever the scheduler does. */
  lemma StepsRunOut(s: State, i: nat)
    requires i < |s.threads| && Remaining(s.threads[i]) > 0
    ensures Sum(Remaining, Step(s, i).threads) < Sum(Remaining, s.threads)
  {
    SumStep(Remaining, s, i);
  }

  predicate Quiescent(s: State) {
    forall i :: 0 <= i < |s.threads| ==> Remaining(s.threads[i]) == 0
  }

  /** A step of `post_event` that sets the flag while it was not set. */
  predicate FirstStore(before: seq<Event>, e: Event) {
    var s := Run(before);
    e.Advance? && e.thread < |s.threads| && s.threads[e.thread] == StoreTerminated && !s.terminated
  }

  lemma SetterStep(s: State, e: Event)
    requires Inv(s)
    ensures Apply(s, e).setter == Some(ByStore) <==>
              || s.setter == Some(ByStore)
              || (e.Advance? && e.thread < |s.threads| && s.threads[e.thread] == StoreTerminated && !s.terminated)
  {
  }

  /** The history field says what happened: `post_event` set the flag first in exactly those runs. */
  lemma {:induction false} StoreCameFirstExactly(events: seq<Event>)
    ensures Run(events).setter == Some(ByStore) <==> Ever(FirstStore, events)
  {
    if events != [] {
      var rest, e := events[..|events| - 1], events[|events| - 1];
      StoreCameFirstExactly(rest);
      EverStep(FirstStore, events);
      RunKeepsInv(rest);
      SetterStep(Run(rest), e);
    }
  }

  lemma QuiescentState(s: State)
    requires Inv(s) && Quiescent(s)
    ensures s.signal ==> s.terminated
    ensures |s.executions| == 1 <==> s.terminated && s.setter != Some(ByStore)
  {
    SumZero(Owing, s.threads);
    if s.setter.Some? && s.setter.value.BySwap? {
      assert Remaining(s.threads[s.setter.value.thread]) == 0;
    }
  }

  /**
   * Once all threads are done, a request has led to termination, and the isolate's execution was
   * stopped exactly unless some `post_event` set the flag first.
   */
  lemma QuiescentAfterRequest(events: seq<Event>)
    requires Quiescent(Run(events))
    ensures var s := Run(events);
            (s.signal ==> s.terminated) &&
            (|s.executions| == 1 <==> s.terminated && !Ever(FirstStore, events))
  {
    RunKeepsInv(events);
    StoreCameFirstExactly(events);
    QuiescentState(Run(events));
  }

  /** A poll that begins after the request never answers that the worker may go on. */
  lemma PollAfterRequestAnswersYes(events: seq<Event>, i: nat)
    requires i < |Run(events).threads| && Run(events).threads[i].Answered?
    ensures var s := Run(events);
            (s.threads[i].asked ==> s.threads[i].answer) && (s.threads[i].answer ==> s.terminated)
  {
    RunKeepsInv(events);
    assert ThreadOk(Run(events), i);
  }

  // ---- The one way to skip `terminate_execution` ----

  /** As long as the parent keeps its receiver, the channel is closed by `terminate` alone. */
  lemma {:induction false} ClosedOnlyByTerminate(events: seq<Event>)
    requires DropReceiver !in events
    ensures var s := Run(events);
            (s.closed ==> s.terminated) && s.setter != Some(ByStore) &&
            (forall i: nat :: i < |s.threads| && s.threads[i] == StoreTerminated ==> s.terminated)
  {
    if events != [] {
      var rest, e := events[..|events| - 1], events[|events| - 1];
      assert e in events;
      ClosedOnlyByTerminate(rest);
      RunKeepsInv(rest);
      if e.Advance? && e.thread < |Run(rest).threads| {
        assert ThreadOk(Run(rest), e.thread);
      }
    }
  }

  /** Then every finished run that terminated stopped the isolate exactly once. */
  lemma ReceiverKeptStopsExactlyOnce(events: seq<Event>)
    requires DropReceiver !in events && Quiescent(Run(events))
    ensures var s := Run(events);
            |s.executions| == (if s.terminated then 1 else 0) && (s.signal ==> s.terminated)
  {
    ClosedOnlyByTerminate(events);
    StoreCameFirstExactly(events);
    QuiescentAfterRequest(events);
    ExecutionStoppedAtMostOnce(events);
  }

  lemma RunSnoc(events: seq<Event>, e: Event)
    ensures Run(events + [e]) == Apply(Run(events), e)
  {
  }

  /** Whoever set the flag first stays recorded. */
  lemma SetterStays(s: State, e: Event, setter: Setter)
    requires s.terminated && s.setter == Some(setter)
    ensures Apply(s, e).terminated && Apply(s, e).setter == Some(setter)
  {
  }

  lemma {:induction false} StoreStays(events: seq<Event>, more: seq<Event>)
    requires Run(events).setter == Some(ByStore)
    ensures Run(events + more).setter == Some(ByStore) && Run(events + more).terminated
    decreases |more|
  {
    RunKeepsInv(events);
    if more == [] {
      assert events + more == events;
    } else {
      var rest, e := more[..|more| - 1], more[|more| - 1];
      StoreStays(events, rest);
      assert events + more == events + rest + [e];
      RunSnoc(events + rest, e);
      SetterStays(Run(events + rest), e, ByStore);
    }
  }

  /** Once `post_event` has set the flag first, nothing that follows ever stops the isolate. */
  lemma StoreFirstNeverStops(events: seq<Event>, more: seq<Event>)
    requires Ever(FirstStore, events)
    ensures Run(events + more).executions == []
  {
    StoreCameFirstExactly(events);
    StoreStays(events, more);
    RunKeepsInv(events + more);
  }

  /** A closed channel and one thread, which stores the flag. */
  function Closed(terminated: bool, pc: Pc): State {
    State(false, terminated, true, [pc], if terminated then Some(ByStore) else None, [])
  }

  lemma StoringSteps()
    ensures Apply(Closed(false, CheckClosed), Advance(0)) == Closed(false, StoreTerminated)
    ensures Apply(Closed(false, StoreTerminated), Advance(0)) == Closed(true, Finished)
    ensures Quiescent(Closed(true, Finished))
  {
  }

  lemma RunTo(events: seq<Event>, e: Event, s: State) returns (longer: seq<Event>)
    requires Apply(Run(events), e) == s
    ensures Run(longer) == s && (e in longer) && (forall x :: x in events ==> x in longer)
  {
    RunSnoc(events, e);
    longer := events + [e];
  }

  lemma PostedAfterClosing() returns (events: seq<Event>)
    ensures DropReceiver in events && Run(events) == Closed(false, CheckClosed)
  {
    events := RunTo([], DropReceiver, State(false, false, true, [], None, []));
    events := RunTo(events, Call(PostEvent), Closed(false, CheckClosed));
  }

  /** Posting an event after the parent dropped its receiver is such a run. */
  lemma DroppedReceiverLetsStoreWin() returns (events: seq<Event>)
    ensures DropReceiver in events && Ever(FirstStore, events) && Quiescent(Run(events))
  {
    StoringSteps();
    events := PostedAfterClosing();
    events := RunTo(events, Advance(0), Closed(false, StoreTerminated));
    events := RunTo(events, Advance(0), Closed(true, Finished));
    StoreCameFirstExactly(events);
  }
}
