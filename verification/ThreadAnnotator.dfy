/**
 The hand-off between the thread that calls an annotator and the worker thread
 that runs the annotator's methods, as a system of interleaved steps. A signal
 wakes a thread that waits and is lost otherwise; a thread that was woken goes
 on when it has the mutex again.
 */
module ThreadAnnotator {

  datatype Method =
    | Nop | Initialize | Reconfigure | Destroy | TypeSystemInit
    | Process | BatchProcessComplete | CollectionProcessComplete

  datatype Call = Call(method_: Method, arg: int)

  datatype Execution = Execution(call: Call, result: int)

  datatype Owner = Free | ByParent | ByWorker

  // The calling thread, by what it does next.
  datatype ParentPc =
    | Idle | WriteArgs(arg: int, method_: Method) | WriteSignal(next: Method) | ToLock | ToSignal | ToWait
    | Asleep | Awake | ToUnlock | ToJoin | ReadRet | Gone

  // The worker thread, by what it does next.
  datatype WorkerPc =
    | Starting | Waiting | Woken | ToRelease | ToEnter | InMethod | ToRetake | ToNotify | ToSleep
    | ToNotifyLast | ToExit | Exited

  // requests, executed and answers record the run.
  datatype State = State(
    parent: ParentPc, worker: WorkerPc, mutex: Owner,
    signal: Method, arg: int, ret: int,
    requests: seq<Call>, executed: seq<Execution>, answers: seq<Execution>)

  datatype Action =
    | Request(method_: Method, arg: int)
    | PWriteArgs | PWriteSignal | PLock | PSignal | PWait | PRelock | PUnlock | PJoin | PRead
    | WWait | WRelock | WRelease | WEnter | WLeave(result: int) | WRetake | WNotify | WSleep | WNotifyLast | WExit

  function Init(): State {
    State(Idle, Starting, Free, Nop, 0, 0, [], [], [])
  }

  predicate Enabled(s: State, a: Action) {
    match a
    case Request(m, _) => s.parent == Idle && m != Nop
    case PWriteArgs => s.parent.WriteArgs?
    case PWriteSignal => s.parent.WriteSignal?
    case PLock => s.parent == ToLock && s.mutex == Free
    case PSignal => s.parent == ToSignal
    case PWait => s.parent == ToWait
    case PRelock => s.parent == Awake && s.mutex == Free
    case PUnlock => s.parent == ToUnlock
    case PJoin => s.parent == ToJoin && s.worker == Exited
    case PRead => s.parent == ReadRet
    case WWait => s.worker == Starting
    case WRelock => s.worker == Woken && s.mutex == Free
    case WRelease => s.worker == ToRelease
    case WEnter => s.worker == ToEnter
    case WLeave(_) => s.worker == InMethod
    case WRetake => s.worker == ToRetake && s.mutex == Free
    case WNotify => s.worker == ToNotify
    case WSleep => s.worker == ToSleep
    case WNotifyLast => s.worker == ToNotifyLast
    case WExit => s.worker == ToExit
  }

  // A signal wakes the worker if it waits, and nobody otherwise.
  function SignalWorker(w: WorkerPc): WorkerPc {
    if w == Waiting then Woken else w
  }

  function SignalParent(p: ParentPc): ParentPc {
    if p == Asleep then Awake else p
  }

  // The call the caller is in.
  function Current(s: State): Call {
    if s.requests == [] then Call(Nop, 0) else s.requests[|s.requests| - 1]
  }

  function Step(s: State, a: Action): State
    requires Enabled(s, a)
  {
    match a
    case Request(m, arg) => s.(parent := WriteArgs(arg, m), requests := s.requests + [Call(m, arg)])
    case PWriteArgs => s.(arg := s.parent.arg, parent := WriteSignal(s.parent.method_))
    case PWriteSignal => s.(signal := s.parent.next, parent := ToLock)
    case PLock => s.(mutex := ByParent, parent := ToSignal)
    case PSignal => s.(worker := SignalWorker(s.worker), parent := ToWait)
    case PWait => s.(mutex := Free, parent := Asleep)
    case PRelock => s.(mutex := ByParent, parent := ToUnlock)
    case PUnlock => s.(mutex := Free, parent := if Current(s).method_ == Destroy then ToJoin else ReadRet)
    case PJoin => s.(parent := ReadRet)
    case PRead =>
      s.(parent := if Current(s).method_ == Destroy then Gone else Idle,
         answers := s.answers + [Execution(Current(s), s.ret)])
    case WWait => s.(worker := Waiting)
    case WRelock => s.(mutex := ByWorker, worker := ToRelease)
    case WRelease => s.(mutex := Free, worker := ToEnter)
    case WEnter => s.(worker := InMethod)
    case WLeave(r) =>
      s.(ret := r, worker := if s.signal == Destroy then ToNotifyLast else ToRetake,
         executed := s.executed + [Execution(Call(s.signal, s.arg), r)])
    case WRetake => s.(mutex := ByWorker, worker := ToNotify)
    case WNotify => s.(parent := SignalParent(s.parent), worker := ToSleep)
    case WSleep => s.(mutex := Free, worker := Waiting)
    case WNotifyLast => s.(parent := SignalParent(s.parent), worker := ToExit)
    case WExit => s.(worker := Exited)
  }

  // The state after a sequence of actions, if each is enabled in its turn.
  predicate IsRun(s: State, actions: seq<Action>, t: State)
    decreases |actions|
  {
    if actions == [] then s == t else Enabled(s, actions[0]) && IsRun(Step(s, actions[0]), actions[1..], t)
  }

  // ----------------------------------------------------------- the invariant

  // The caller touches the shared fields.
  predicate ParentTouches(s: State) {
    s.parent.WriteArgs? || s.parent.WriteSignal? || s.parent == ReadRet
  }

  // The worker looks at the shared fields or runs the annotator.
  predicate WorkerTouches(s: State) {
    s.worker == ToEnter || s.worker == InMethod
  }

  // The fields hold the current call.
  predicate Served(s: State) {
    s.requests != [] && Current(s) == Call(s.signal, s.arg)
  }

  // The worker has run the current call and left its result.
  predicate Ran(s: State) {
    Served(s) && |s.executed| == |s.requests| && s.executed[|s.executed| - 1] == Execution(Current(s), s.ret)
  }

  predicate AtRest(w: WorkerPc) {
    w == Waiting || w == ToSleep
  }

  // Which pairs of places the threads can be in together, and what the fields hold then.
  predicate Phase(s: State) {
    match s.parent
    case Idle => AtRest(s.worker)
    case WriteArgs(a, m) => AtRest(s.worker) && s.requests != [] && Current(s) == Call(m, a)
    case WriteSignal(m) => AtRest(s.worker) && s.requests != [] && Current(s) == Call(m, s.arg)
    case ToLock => AtRest(s.worker) && Served(s)
    case ToSignal => s.worker == Waiting && Served(s)
    case ToWait => s.worker == Woken && Served(s)
    case Asleep => Served(s) && Serving(s)
    case Awake => Ran(s) && Served(s) && Left(s)
    case ToUnlock => Ran(s) && Left(s)
    case ToJoin => Ran(s) && Left(s) && s.signal == Destroy
    case ReadRet => Ran(s) && Left(s) && (s.signal == Destroy ==> s.worker == Exited)
    case Gone => s.worker == Exited
  }

  // The caller sleeps, and the worker is on its way to run the method or to wake the caller.
  predicate Serving(s: State) {
    match s.worker
    case Woken => true
    case ToRelease => true
    case ToEnter => true
    case InMethod => true
    case ToRetake => s.signal != Destroy && Ran(s)
    case ToNotify => s.signal != Destroy && Ran(s)
    case ToNotifyLast => s.signal == Destroy && Ran(s)
    case _ => false
  }

  // The worker has woken the caller.
  predicate Left(s: State) {
    if s.signal == Destroy then s.worker == ToExit || s.worker == Exited else AtRest(s.worker)
  }

  predicate MutexOK(s: State) {
    && (s.mutex == ByParent <==> s.parent == ToSignal || s.parent == ToWait || s.parent == ToUnlock)
    && (s.mutex == ByWorker <==> s.worker == ToRelease || s.worker == ToNotify || s.worker == ToSleep)
  }

  predicate BetweenCalls(s: State) {
    s.parent == Idle || s.parent == Gone
  }

  // The worker still has to run the current call.
  predicate Pending(s: State) {
    match s.parent
    case Idle => false
    case Gone => false
    case Awake => false
    case ToUnlock => false
    case ToJoin => false
    case ReadRet => false
    case Asleep => !(s.worker == ToRetake || s.worker == ToNotify || s.worker == ToNotifyLast)
    case _ => true
  }

  // Every request but a pending one was executed, and every one but the current was answered.
  predicate RecordsOK(s: State) {
    && |s.requests| == |s.executed| + (if Pending(s) then 1 else 0)
    && |s.requests| == |s.answers| + (if BetweenCalls(s) then 0 else 1)
    && s.answers <= s.executed
    && (forall i :: 0 <= i < |s.executed| ==> s.executed[i].call == s.requests[i])
    && (forall i :: 0 <= i < |s.requests| ==> s.requests[i].method_ != Nop)
  }

  predicate Inv(s: State) {
    RecordsOK(s) && MutexOK(s) && Phase(s)
  }

  // The worker has reached its first wait, and nothing was called before.
  function Ready(): State {
    Step(Init(), WWait)
  }

  lemma ReadyHolds()
    ensures Inv(Ready())
  {
  }

  // The steps of the calling thread; the others are the worker's.
  predicate IsParentStep(a: Action) {
    || a.Request? || a.PWriteArgs? || a.PWriteSignal? || a.PLock? || a.PSignal?
    || a.PWait? || a.PRelock? || a.PUnlock? || a.PJoin? || a.PRead?
  }

  lemma ParentStepKeepsPhase(s: State, a: Action)
    requires Inv(s) && Enabled(s, a) && IsParentStep(a)
    ensures Phase(Step(s, a))
  {
  }

  lemma WorkerStepKeepsPhase(s: State, a: Action)
    requires Inv(s) && Enabled(s, a) && !IsParentStep(a)
    ensures Phase(Step(s, a))
  {
  }

  lemma StepKeepsMutex(s: State, a: Action)
    requires Inv(s) && Enabled(s, a)
    ensures MutexOK(Step(s, a))
  {
  }

  // The steps that add to the records.
  predicate IsRecorded(a: Action) {
    a.Request? || a.PRead? || a.WLeave?
  }

  lemma RecordedStepKeepsRecords(s: State, a: Action)
    requires Inv(s) && Enabled(s, a) && IsRecorded(a)
    ensures RecordsOK(Step(s, a))
  {
  }

  lemma ParentStepKeepsRecords(s: State, a: Action)
    requires Inv(s) && Enabled(s, a) && IsParentStep(a) && !IsRecorded(a)
    ensures RecordsOK(Step(s, a))
  {
  }

  lemma WorkerStepKeepsRecords(s: State, a: Action)
    requires Inv(s) && Enabled(s, a) && !IsParentStep(a) && !IsRecorded(a)
    ensures RecordsOK(Step(s, a))
  {
  }

  /** Every step keeps the invariant. */
  lemma StepKeepsInv(s: State, a: Action)
    requires Inv(s) && Enabled(s, a)
    ensures Inv(Step(s, a))
  {
    if IsParentStep(a) {
      ParentStepKeepsPhase(s, a);
    } else {
      WorkerStepKeepsPhase(s, a);
    }
    StepKeepsMutex(s, a);
    hide Phase, MutexOK, Step, Enabled;
    if IsRecorded(a) {
      RecordedStepKeepsRecords(s, a);
    } else if IsParentStep(a) {
      ParentStepKeepsRecords(s, a);
    } else {
      WorkerStepKeepsRecords(s, a);
    }
  }

  lemma {:induction false} RunKeepsInv(s: State, actions: seq<Action>, t: State)
    requires Inv(s) && IsRun(s, actions, t)
    ensures Inv(t)
    decreases |actions|
  {
    if actions != [] {
      StepKeepsInv(s, actions[0]);
      RunKeepsInv(Step(s, actions[0]), actions[1..], t);
    }
  }

  // -------------------------------------------------------------- safety

  /**
   In every run that starts with the worker at its first wait: the caller and
   the worker never touch the shared fields together; the methods that ran are
   the requests, once each and in order, up to the last one; every answer is
   the result of its own request; and between calls nothing is outstanding.
   */
  lemma RunsAreSafe(actions: seq<Action>, t: State)
    requires IsRun(Ready(), actions, t)
    ensures !(ParentTouches(t) && WorkerTouches(t))
    ensures |t.executed| <= |t.requests| <= |t.executed| + 1
    ensures forall i :: 0 <= i < |t.executed| ==> t.executed[i].call == t.requests[i]
    ensures |t.answers| <= |t.executed| && forall i :: 0 <= i < |t.answers| ==> t.answers[i] == t.executed[i]
    ensures BetweenCalls(t) ==> |t.answers| == |t.executed| == |t.requests|
  {
    ReadyHolds();
    RunKeepsInv(Ready(), actions, t);
  }

  // ------------------------------------------------------------ progress

  // An action that the thread whose turn it is can take.
  function NextAction(s: State): Action {
    match s.parent
    case WriteArgs(_, _) => PWriteArgs
    case WriteSignal(_) => PWriteSignal
    case ToLock => if s.worker == ToSleep then WSleep else PLock
    case ToSignal => PSignal
    case ToWait => PWait
    case Awake => if s.worker == ToSleep then WSleep else PRelock
    case ToUnlock => PUnlock
    case ToJoin => if s.worker == ToExit then WExit else PJoin
    case ReadRet => PRead
    case _ =>
      match s.worker
      case Woken => WRelock
      case ToRelease => WRelease
      case ToEnter => WEnter
      case InMethod => WLeave(0)
      case ToRetake => WRetake
      case ToNotify => WNotify
      case ToNotifyLast => WNotifyLast
      case _ => WSleep
  }

  /** While a call is outstanding, destroy included, some thread can go on. */
  lemma NoDeadlock(s: State)
    requires Inv(s) && !BetweenCalls(s)
    ensures Enabled(s, NextAction(s)) && !NextAction(s).Request?
  {
  }

  function ParentRank(p: ParentPc): nat {
    match p
    case Idle => 0
    case Gone => 0
    case ReadRet => 1
    case ToJoin => 2
    case ToUnlock => 3
    case Awake => 4
    case Asleep => 5
    case ToWait => 6
    case ToSignal => 15
    case ToLock => 16
    case WriteSignal(_) => 17
    case WriteArgs(_, _) => 18
  }

  function WorkerRank(w: WorkerPc): nat {
    match w
    case Waiting => 0
    case Exited => 0
    case Starting => 1
    case ToSleep => 1
    case ToExit => 1
    case ToNotify => 2
    case ToNotifyLast => 2
    case ToRetake => 3
    case InMethod => 4
    case ToEnter => 5
    case ToRelease => 6
    case Woken => 7
  }

  function Rank(s: State): nat {
    ParentRank(s.parent) + WorkerRank(s.worker)
  }

  /** Every step but a new request brings the end of the call nearer. */
  lemma StepDescends(s: State, a: Action)
    requires Inv(s) && Enabled(s, a) && !a.Request?
    ensures Rank(Step(s, a)) < Rank(s)
  {
    hide RecordsOK, MutexOK;
  }

  lemma {:induction false} RunDescends(s: State, actions: seq<Action>, t: State)
    requires Inv(s) && IsRun(s, actions, t) && forall a :: a in actions ==> !a.Request?
    ensures |actions| + Rank(t) <= Rank(s) && t.requests == s.requests
    decreases |actions|
  {
    if actions != [] {
      assert actions[0] in actions;
      StepDescends(s, actions[0]);
      StepKeepsInv(s, actions[0]);
      RunDescends(Step(s, actions[0]), actions[1..], t);
    }
  }

  /**
   However the steps of the two threads interleave, a call ends after at most
   19 of them, and gives back the result of the one execution of its request.
   */
  lemma EveryCallReturns(s: State, m: Method, arg: int, actions: seq<Action>, t: State)
    requires Inv(s) && Enabled(s, Request(m, arg))
    requires IsRun(Step(s, Request(m, arg)), actions, t) && forall a :: a in actions ==> !a.Request?
    ensures |actions| <= 19
    ensures (forall a :: Enabled(t, a) ==> a.Request?) ==>
              && BetweenCalls(t) && |t.answers| == |s.answers| + 1 && |t.executed| == |s.executed| + 1
              && t.answers[|s.answers|] == t.executed[|s.executed|] && t.answers[|s.answers|].call == Call(m, arg)
  {
    var s' := Step(s, Request(m, arg));
    StepKeepsInv(s, Request(m, arg));
    RunDescends(s', actions, t);
    RunKeepsInv(s', actions, t);
    if !BetweenCalls(t) {
      NoDeadlock(t);
    }
  }

  // ---------------------------------------------------- the lost first signal

  // The worker has not reached its first wait, and the caller has not signalled.
  predicate NotYetSignalled(s: State) {
    && s.worker == Starting && Inv(s.(worker := Waiting))
    && (s.parent == Idle || s.parent.WriteArgs? || s.parent.WriteSignal? || s.parent == ToLock || s.parent == ToSignal)
  }

  // The signal came before the wait: the caller waits for the worker and the worker for the caller.
  predicate Lost(s: State) {
    && (s.worker == Starting || s.worker == Waiting)
    && (s.parent == Asleep || (s.parent == ToWait && s.mutex == ByParent))
    && (s.parent == Asleep ==> s.mutex == Free)
  }

  /** A lost signal is lost for good: no step leads out, and in the end no step is possible. */
  lemma LostForever(s: State, a: Action)
    requires Lost(s) && Enabled(s, a)
    ensures Lost(Step(s, a)) && !a.Request? && Rank(Step(s, a)) < Rank(s)
  {
  }

  /**
   The first call works if and only if the worker was at its wait when the
   caller signalled: up to then nothing is decided; a signal to a waiting
   worker leads to states from which every call returns, and one to a worker
   that is still starting to states from which none does.
   */
  lemma FirstSignalDecides(s: State, a: Action)
    requires NotYetSignalled(s) && Enabled(s, a)
    ensures a == WWait ==> Inv(Step(s, a))
    ensures a == PSignal ==> Lost(Step(s, a))
    ensures a != WWait && a != PSignal ==> NotYetSignalled(Step(s, a))
  {
    var w := s.(worker := Waiting);
    if a != WWait && a != PSignal {
      StepKeepsInv(w, a);
      assert Step(s, a).(worker := Waiting) == Step(w, a);
    }
  }

  /** Every run from the very beginning is in one of the three situations. */
  lemma {:induction false} RunsFromTheStart(s: State, actions: seq<Action>, t: State)
    requires NotYetSignalled(s) || Inv(s) || Lost(s)
    requires IsRun(s, actions, t)
    ensures NotYetSignalled(t) || Inv(t) || Lost(t)
    decreases |actions|
  {
    if actions != [] {
      var a := actions[0];
      if Inv(s) {
        StepKeepsInv(s, a);
      } else if Lost(s) {
        LostForever(s, a);
      } else {
        FirstSignalDecides(s, a);
      }
      RunsFromTheStart(Step(s, a), actions[1..], t);
    }
  }

  // The caller sleeps, the worker waits, and the request was never run.
  function Hanging(): State {
    State(Asleep, Waiting, Free, Process, 1, 0, [Call(Process, 1)], [], [])
  }

  lemma NothingEnabled(a: Action)
    ensures !Enabled(Hanging(), a)
  {
  }

  /** A run in which the first call hangs. */
  lemma FirstCallCanHang() returns (actions: seq<Action>)
    ensures NotYetSignalled(Init()) && IsRun(Init(), actions, Hanging())
    ensures forall a :: !Enabled(Hanging(), a)
  {
    StartsUndecided();
    forall a ensures !Enabled(Hanging(), a) {
      NothingEnabled(a);
    }
    actions := HangingEnd();
    hide IsRun;
    var s1 := Step(Init(), Request(Process, 1));
    var s2 := Step(s1, PWriteArgs);
    var s3 := Step(s2, PWriteSignal);
    assert s3 == SignalReady();
    actions := RunBegins(s2, PWriteSignal, actions, Hanging());
    actions := RunBegins(s1, PWriteArgs, actions, Hanging());
    actions := RunBegins(Init(), Request(Process, 1), actions, Hanging());
  }

  // The fields are written, and the worker is not at its wait yet.
  function SignalReady(): State {
    State(ToLock, Starting, Free, Process, 1, 0, [Call(Process, 1)], [], [])
  }

  lemma HangingEnd() returns (actions: seq<Action>)
    ensures IsRun(SignalReady(), actions, Hanging())
  {
    assert IsRun(Hanging(), [], Hanging());
    hide IsRun;
    var s4 := Step(SignalReady(), PLock);
    var s5 := Step(s4, PSignal);
    var s6 := Step(s5, PWait);
    assert Step(s6, WWait) == Hanging();
    actions := RunBegins(s6, WWait, [], Hanging());
    actions := RunBegins(s5, PWait, actions, Hanging());
    actions := RunBegins(s4, PSignal, actions, Hanging());
    actions := RunBegins(SignalReady(), PLock, actions, Hanging());
  }

  lemma StartsUndecided()
    ensures NotYetSignalled(Init())
  {
    ReadyHolds();
    assert Init().(worker := Waiting) == Ready();
  }

  lemma RunBegins(s: State, a: Action, rest: seq<Action>, t: State) returns (actions: seq<Action>)
    requires Enabled(s, a) && IsRun(Step(s, a), rest, t)
    ensures IsRun(s, actions, t)
  {
    actions := [a] + rest;
    assert actions[1..] == rest;
  }
}
