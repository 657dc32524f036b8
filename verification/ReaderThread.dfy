/** The read thread, one reader and the closer of an open device, step by step. A step
    is what one of them does between two points where another may interfere: each
    critical section of the list mutex that does not read a flag in the middle is one
    step, and the flags, which no lock protects, are read and written in steps of
    their own. */
module ReaderThread {
  import opened Bytes
  import opened ReportQueue

  type Data = seq<byte>

  /** How the transfer ended. Other stands for a timeout or an unknown status. */
  datatype Status = Completed(data: Data) | Cancelled | NoDevice | Other

  /** Which event loop called the callback. */
  datatype Back = ToLoop | ToWait

  datatype ThreadPc =
    | Testing // the test of shutdown_thread
    | Handling(back: Back) // inside libusb_handle_events
    | Called(status: Status, back: Back) // in the callback
    | Stopping(back: Back) // in the callback, shutdown_thread set, cancelled not yet
    | Resubmitting(back: Back) // in the callback, before libusb_submit_transfer
    | Cancelling // after the loop, before libusb_cancel_transfer
    | Waiting // the test of cancelled
    | Broadcasting // before the final broadcast
    | Exited

  datatype Mode = Blocking | Timed | NonBlocking
  datatype Cause = Woken | Expired | WaitFailed
  datatype Answer = Report(data: Data) | Nothing | Failure(waitFailed: bool)

  datatype ReaderPc =
    | Away // no read in progress
    | Looking(mode: Mode) // holds the mutex, tests the list
    | Asking(mode: Mode) // holds the mutex, tests shutdown_thread
    | Guarding(mode: Mode) // holds the mutex, tests the loop condition
    | Settling(mode: Mode) // holds the mutex, found nothing, about to wait
    | Asleep(mode: Mode) // in the condition wait
    | Awake(mode: Mode, cause: Cause) // out of the wait, wants the mutex
    | Answering(answer: Answer) // holds the mutex, about to return

  datatype CloserPc = Open | Signalling | Joining | Freeing | Clearing | Closed

  datatype State = State(
    queue: seq<Data>,
    arrived: seq<Data>,
    left: seq<(Data, bool)>,
    discarded: seq<Data>,
    started: bool, // the first submission succeeded
    inFlight: bool,
    cancelAsked: bool, // libusb has accepted to cancel the transfer in flight
    shutdown: bool,
    cancelled: bool,
    thread: ThreadPc,
    reader: ReaderPc,
    closer: CloserPc,
    frees: nat)

  predicate Init(s: State) {
    s == State([], [], [], [], s.started, s.started, false, false, false, Testing, Away, Open, 0)
  }

  datatype Action =
    // the read thread
    | Test | Idle | Fatal | Complete(status: Status) | RunCallback | MarkCancelled | Resubmit(ok: bool)
    | AskCancel(accepted: bool) | Broadcast
    // the reader
    | Begin(mode: Mode) | Read | Wake(cause: Cause)
    // the closer
    | Close(accepted: bool)

  predicate ReaderHolds(r: ReaderPc) {
    r.Looking? || r.Asking? || r.Guarding? || r.Settling? || r.Answering?
  }

  function Return(back: Back): ThreadPc {
    if back.ToLoop? then Testing else Waiting
  }

  function Signal(r: ReaderPc): ReaderPc {
    if r.Asleep? then Awake(r.mode, Woken) else r
  }

  /** libusb completes only a transfer that was asked to cancel as cancelled. It may
      complete such a one in any other way as well, when the request comes too late. */
  predicate Possible(status: Status, cancelAsked: bool) {
    status.Cancelled? ==> cancelAsked
  }

  /** A cancel request, whose result the code ignores: it has an effect only when libusb
      accepts it, and then only on a transfer in flight. */
  function AskToCancel(s: State, accepted: bool): State {
    s.(cancelAsked := s.cancelAsked || (s.inFlight && accepted))
  }

  /** The locked part of the callback. */
  function Receive(s: State, data: Data): (r: State)
    ensures r.started == s.started && r.shutdown == s.shutdown
  {
    var next := s.(queue := Append(s.queue, data), arrived := s.arrived + [data],
                   reader := if s.queue == [] then Signal(s.reader) else s.reader);
    if |s.queue| < CAPACITY then next else next.(left := s.left + [(s.queue[0], false)])
  }

  /** The callback up to the resubmission or the end of the transfer. */
  function Callback(s: State, status: Status, back: Back): (r: Option<State>)
    ensures r.Some? ==> r.value.started == s.started && (s.shutdown ==> r.value.shutdown)
  {
    hide Receive;
    match status
    case Completed(data) =>
      if ReaderHolds(s.reader) then None else Some(Receive(s, data).(thread := Resubmitting(back)))
    case Other => Some(s.(thread := Resubmitting(back)))
    case _ => Some(s.(shutdown := true, thread := Stopping(back)))
  }

  function ThreadStep(s: State, a: Action): (r: Option<State>)
    ensures r.Some? ==> r.value.started == s.started && (s.shutdown ==> r.value.shutdown)
  {
    hide Receive;
    match a
    case Test =>
      if s.thread.Testing? then Some(s.(thread := if s.shutdown then Cancelling else Handling(ToLoop)))
      else if s.thread.Waiting? then Some(s.(thread := if s.cancelled then Broadcasting else Handling(ToWait)))
      else None
    case Idle => if s.thread.Handling? then Some(s.(thread := Return(s.thread.back))) else None
    case Fatal => if s.thread == Handling(ToLoop) then Some(s.(thread := Cancelling)) else None
    case Complete(status) =>
      if s.thread.Handling? && s.inFlight && Possible(status, s.cancelAsked)
      then Some(s.(inFlight := false, cancelAsked := false, thread := Called(status, s.thread.back)))
      else None
    case RunCallback => if s.thread.Called? then Callback(s, s.thread.status, s.thread.back) else None
    case MarkCancelled =>
      if s.thread.Stopping? then Some(s.(cancelled := true, thread := Return(s.thread.back))) else None
    case Resubmit(ok) =>
      if !s.thread.Resubmitting? then None
      else if ok then Some(s.(inFlight := true, thread := Return(s.thread.back)))
      else Some(s.(shutdown := true, thread := Stopping(s.thread.back)))
    case AskCancel(accepted) =>
      if s.thread.Cancelling? then Some(AskToCancel(s, accepted).(thread := Waiting)) else None
    case Broadcast =>
      if s.thread.Broadcasting? && !ReaderHolds(s.reader) then Some(s.(reader := Signal(s.reader), thread := Exited))
      else None
    case _ => None
  }

  /** Takes the first queued report. */
  function Deliver(s: State): State
    requires s.queue != []
  {
    s.(queue := s.queue[1..], left := s.left + [(s.queue[0], true)], reader := Answering(Report(s.queue[0])))
  }

  /** A read goes on to the next point where another may interfere. */
  function ReadOn(s: State): (r: Option<State>)
    ensures r.Some? ==> r.value == s.(queue := r.value.queue, left := r.value.left, reader := r.value.reader)
  {
    match s.reader
    case Looking(mode) => Some(if s.queue != [] then Deliver(s) else s.(reader := Asking(mode)))
    case Asking(mode) =>
      Some(s.(reader := if s.shutdown then Answering(Failure(false))
                        else if mode.NonBlocking? then Answering(Nothing) else Guarding(mode)))
    case Guarding(mode) =>
      Some(if s.queue == [] && !s.shutdown then s.(reader := Settling(mode))
           else if mode.Blocking? && s.queue != [] then Deliver(s)
           else s.(reader := Answering(Failure(false))))
    case Settling(mode) => Some(s.(reader := Asleep(mode)))
    case Awake(mode, cause) =>
      Some(if mode.Blocking? then s.(reader := Guarding(mode))
           else match cause
                case Woken => if s.queue != [] then Deliver(s) else s.(reader := Guarding(mode))
                case Expired => s.(reader := Answering(Nothing))
                case WaitFailed => s.(reader := Answering(Failure(true))))
    case Answering(_) => Some(s.(reader := Away))
    case _ => None
  }

  function ReaderStep(s: State, a: Action): (r: Option<State>)
    ensures r.Some? ==> r.value == s.(queue := r.value.queue, left := r.value.left, reader := r.value.reader)
  {
    match a
    case Begin(mode) => if s.reader.Away? && s.closer.Open? then Some(s.(reader := Looking(mode))) else None
    case Read => ReadOn(s)
    case Wake(cause) =>
      if s.reader.Asleep? && !(s.reader.mode.Blocking? && cause.Expired?)
      then Some(s.(reader := Awake(s.reader.mode, cause))) else None
    case _ => None
  }

  /** Closing excludes reading: both run under the same lock. */
  function CloserStep(s: State, accepted: bool): (r: Option<State>)
    ensures r.Some? ==> r.value.started == s.started && (s.shutdown ==> r.value.shutdown) && r.value.thread == s.thread
  {
    match s.closer
    case Open => if s.reader.Away? then Some(s.(shutdown := true, closer := Signalling)) else None
    case Signalling => Some(AskToCancel(s, accepted).(closer := Joining))
    case Joining => if s.thread.Exited? then Some(s.(closer := Freeing)) else None
    case Freeing => Some(s.(frees := s.frees + 1, closer := Clearing))
    case Clearing => Some(s.(queue := [], discarded := s.queue, closer := Closed))
    case Closed => None
  }

  function Step(s: State, a: Action): Option<State> {
    match a
    case Close(accepted) => CloserStep(s, accepted)
    case Begin(_) => ReaderStep(s, a)
    case Read => ReaderStep(s, a)
    case Wake(_) => ReaderStep(s, a)
    case _ => ThreadStep(s, a)
  }

  /** The states a run passes through; it stops at the first action that cannot happen. */
  function RunTo(s: State, actions: seq<Action>): Option<State>
    decreases |actions|
  {
    if actions == [] then Some(s)
    else
      match Step(s, actions[0])
      case None => None
      case Some(next) => RunTo(next, actions[1..])
  }

  ghost predicate Reachable(s: State) {
    exists first, actions :: Init(first) && RunTo(first, actions) == Some(s)
  }

  // ---- What every run keeps ----

  predicate InCallback(t: ThreadPc) {
    t.Called? || t.Stopping? || t.Resubmitting?
  }

  /** The transfer is out with the device, in the hands of the callback, or given up. */
  predicate TransferInv(s: State) {
    && (InCallback(s.thread) ==> !s.inFlight)
    && (s.cancelAsked ==> s.inFlight)
    && (s.cancelled ==> s.shutdown && !s.inFlight && !s.thread.Handling? && !InCallback(s.thread))
    && (s.thread.Stopping? ==> s.shutdown)
    && (s.thread.Broadcasting? || s.thread.Exited? ==> s.cancelled)
    && if s.started then s.inFlight || InCallback(s.thread) || s.cancelled
       else !s.inFlight && !InCallback(s.thread) && !s.cancelled
  }

  predicate CloserInv(s: State) {
    && (!s.closer.Open? ==> s.shutdown && s.reader.Away?)
    && (s.closer.Freeing? || s.closer.Clearing? || s.closer.Closed? ==> s.thread.Exited?)
    && s.frees == (if s.closer.Clearing? || s.closer.Closed? then 1 else 0)
    && (s.discarded != [] ==> s.closer.Closed?)
  }

  predicate ReaderInv(s: State) {
    && (s.reader.Asking? || (s.reader.Guarding? && !s.reader.mode.Blocking?) ==> s.queue == [])
    && (s.reader.Settling? || s.reader.Asleep? ==> s.queue == [] && !s.thread.Exited?)
    && (s.reader == Answering(Failure(false)) ==> s.queue == [] && s.shutdown)
  }

  predicate QueueInv(queue: seq<Data>, arrived: seq<Data>, left: seq<(Data, bool)>, discarded: seq<Data>) {
    |queue| <= CAPACITY && arrived == Items(left) + queue + discarded
  }

  predicate Inv(s: State) {
    TransferInv(s) && CloserInv(s) && ReaderInv(s) && QueueInv(s.queue, s.arrived, s.left, s.discarded)
  }

  lemma ItemsAppend<T>(left: seq<(T, bool)>, last: (T, bool))
    ensures Items(left + [last]) == Items(left) + [last.0]
  {
    if left != [] {
      assert (left + [last])[1..] == left[1..] + [last];
      ItemsAppend(left[1..], last);
    } else {
      assert [last][1..] == [];
    }
  }

  lemma ReceiveKeepsQueue(s: State, data: Data)
    requires QueueInv(s.queue, s.arrived, s.left, s.discarded) && s.discarded == []
    ensures var r := Receive(s, data); QueueInv(r.queue, r.arrived, r.left, r.discarded)
  {
    if |s.queue| == CAPACITY {
      ItemsAppend(s.left, (s.queue[0], false));
      assert s.queue + [data] == [s.queue[0]] + Append(s.queue, data);
    }
  }

  lemma DeliverKeepsQueue(s: State)
    requires QueueInv(s.queue, s.arrived, s.left, s.discarded) && s.queue != []
    ensures var r := Deliver(s); QueueInv(r.queue, r.arrived, r.left, r.discarded)
  {
    ItemsAppend(s.left, (s.queue[0], true));
    assert s.queue == [s.queue[0]] + s.queue[1..];
  }

  lemma ClearKeepsQueue(s: State)
    requires QueueInv(s.queue, s.arrived, s.left, s.discarded) && s.discarded == []
    ensures QueueInv([], s.arrived, s.left, s.queue)
  {
    assert Items(s.left) + s.queue + [] == Items(s.left) + [] + s.queue;
  }

  lemma ThreadKeepsInv(s: State, a: Action)
    requires Inv(s) && ThreadStep(s, a).Some?
    ensures Inv(ThreadStep(s, a).value)
  {
    hide QueueInv;
    if a.RunCallback? && s.thread.status.Completed? {
      ReceiveKeepsQueue(s, s.thread.status.data);
    }
  }

  lemma ReaderKeepsInv(s: State, a: Action)
    requires Inv(s) && ReaderStep(s, a).Some?
    ensures Inv(ReaderStep(s, a).value)
  {
    ReaderKeepsOwn(s, a);
    ReaderKeepsOthers(s, a);
  }

  lemma ReaderKeepsOwn(s: State, a: Action)
    requires Inv(s) && ReaderStep(s, a).Some?
    ensures var r := ReaderStep(s, a).value; ReaderInv(r) && QueueInv(r.queue, r.arrived, r.left, r.discarded)
  {
    hide QueueInv;
    if s.queue != [] {
      DeliverKeepsQueue(s);
    }
  }

  lemma ReaderKeepsOthers(s: State, a: Action)
    requires Inv(s) && ReaderStep(s, a).Some?
    ensures var r := ReaderStep(s, a).value; TransferInv(r) && CloserInv(r)
  {
    hide QueueInv, ReaderStep;
    if !s.closer.Open? {
      NoReadWhileClosing(s, a);
    }
  }

  lemma NoReadWhileClosing(s: State, a: Action)
    requires CloserInv(s) && !s.closer.Open?
    ensures ReaderStep(s, a).None?
  {
  }

  lemma CloserKeepsInv(s: State, accepted: bool)
    requires Inv(s) && CloserStep(s, accepted).Some?
    ensures Inv(CloserStep(s, accepted).value)
  {
    hide QueueInv;
    if s.closer.Clearing? {
      ClearKeepsQueue(s);
    }
  }

  lemma StepKeepsInv(s: State, a: Action)
    requires Inv(s) && Step(s, a).Some?
    ensures Inv(Step(s, a).value)
  {
    hide ThreadStep, ReaderStep, CloserStep, Inv;
    match a
    case Close(accepted) => CloserKeepsInv(s, accepted);
    case Begin(_) => ReaderKeepsInv(s, a);
    case Read => ReaderKeepsInv(s, a);
    case Wake(_) => ReaderKeepsInv(s, a);
    case _ => ThreadKeepsInv(s, a);
  }

  /** What the others leave to the thread. */
  lemma ThreadUntouched(s: State, a: Action)
    requires Step(s, a).Some?
    ensures var next := Step(s, a).value;
            && next.started == s.started && (s.shutdown ==> next.shutdown)
            && (Step(s, a) == ThreadStep(s, a) || (next.thread == s.thread && next.cancelled == s.cancelled))
  {
    hide ThreadStep, ReaderStep;
  }

  lemma {:induction false} RunKeepsInv(s: State, actions: seq<Action>)
    requires Inv(s) && RunTo(s, actions).Some?
    ensures Inv(RunTo(s, actions).value)
    decreases |actions|
  {
    if actions != [] {
      StepKeepsInv(s, actions[0]);
      RunKeepsInv(Step(s, actions[0]).value, actions[1..]);
    }
  }

  lemma ReachableInv(s: State)
    requires Reachable(s)
    ensures Inv(s)
  {
    var first, actions :| Init(first) && RunTo(first, actions) == Some(s);
    RunKeepsInv(first, actions);
  }

  // ---- Shutdown ----

  /** In every interleaving: cancelled means the transfer is neither in flight nor in the
      callback's hands; the thread exits only when cancelled; and the transfer is freed
      at most once, after the thread has gone and with nothing outstanding. */
  lemma SafeShutdown(s: State)
    requires Reachable(s)
    ensures s.cancelled ==> !s.inFlight && !InCallback(s.thread)
    ensures s.thread.Exited? ==> s.cancelled
    ensures s.frees <= 1
    ensures s.frees == 1 ==> s.thread.Exited? && !s.inFlight && s.reader.Away?
  {
    ReachableInv(s);
  }

  /** Once the transfer is freed the only step left is the clearing of the list. */
  lemma NothingTouchesFreedTransfer(s: State, a: Action)
    requires Reachable(s) && s.frees == 1 && Step(s, a).Some?
    ensures a.Close? && s.closer.Clearing?
    ensures Step(s, a).value.arrived == Items(s.left) + Step(s, a).value.discarded
  {
    ReachableInv(s);
  }

  /** Steps left until the thread has exited, idle waits and laps not counted. */
  function Remaining(s: State): nat {
    match s.thread
    case Handling(ToLoop) => 12
    case Called(_, ToLoop) => 11
    case Resubmitting(ToLoop) => 10
    case Stopping(ToLoop) => 9
    case Testing => 8
    case Cancelling => 7
    case Handling(ToWait) => 6
    case Called(_, ToWait) => 5
    case Resubmitting(ToWait) => 4
    case Stopping(ToWait) => 3
    case Waiting => if s.cancelled then 2 else 6
    case Broadcasting => 1
    case Exited => 0
  }

  predicate IsIdleWait(s: State, a: Action) {
    !s.cancelled && ((s.thread == Handling(ToWait) && a.Idle?) || (s.thread.Waiting? && a.Test?))
  }

  /** A resubmission while the thread only waits to be cancelled: the callback does not
      look at the flag, and nobody asks for a cancel again. */
  predicate IsLap(s: State, a: Action) {
    s.thread == Resubmitting(ToWait) && a == Resubmit(true)
  }

  /** Once shutdown is set, every step of the thread except a fruitless wait and a lap
      brings it closer to its exit, and no step of anyone else takes it further away. */
  lemma ShutdownAdvances(s: State, a: Action)
    requires Reachable(s) && s.started && s.shutdown && Step(s, a).Some? && !IsLap(s, a)
    ensures var next := Step(s, a).value;
            && next.shutdown && next.started
            && Remaining(next) <= Remaining(s) <= 12
            && (next.thread != s.thread && !IsIdleWait(s, a) ==> Remaining(next) < Remaining(s))
  {
    ReachableInv(s);
    ThreadUntouched(s, a);
    if Step(s, a) == ThreadStep(s, a) {
      ThreadAdvances(s, a);
    }
  }

  lemma ThreadAdvances(s: State, a: Action)
    requires TransferInv(s) && s.started && s.shutdown && ThreadStep(s, a).Some? && !IsLap(s, a)
    ensures var next := ThreadStep(s, a).value;
            && Remaining(next) <= Remaining(s)
            && (!IsIdleWait(s, a) ==> Remaining(next) < Remaining(s))
  {
    hide Receive;
  }

  // ---- Runs whose cancel requests are honoured ----

  /** The thread's own cancel request is accepted, unless an earlier one was, and a
      transfer asked to cancel ends cancelled or with its device gone. */
  predicate Honoured(s: State, a: Action) {
    match a
    case AskCancel(accepted) => s.inFlight ==> accepted || s.cancelAsked
    case Complete(status) => s.cancelAsked ==> status.Cancelled? || status.NoDevice?
    case _ => true
  }

  predicate HonouredRun(s: State, actions: seq<Action>)
    decreases |actions|
  {
    actions == [] ||
    (Honoured(s, actions[0]) && (Step(s, actions[0]).Some? ==> HonouredRun(Step(s, actions[0]).value, actions[1..])))
  }

  ghost predicate HonouredReachable(s: State) {
    exists first, actions :: Init(first) && HonouredRun(first, actions) && RunTo(first, actions) == Some(s)
  }

  /** After the thread's request the transfer can only come back cancelled or gone. */
  predicate Promised(s: State) {
    && (s.started && (s.thread.Waiting? || s.thread == Handling(ToWait)) && !s.cancelled ==> s.cancelAsked)
    && (s.thread.Called? && s.thread.back.ToWait? ==> s.thread.status.Cancelled? || s.thread.status.NoDevice?)
    && s.thread != Resubmitting(ToWait)
  }

  lemma StepKeepsPromise(s: State, a: Action)
    requires Inv(s) && Promised(s) && Honoured(s, a) && Step(s, a).Some?
    ensures Promised(Step(s, a).value)
  {
    hide Receive, Deliver, QueueInv;
  }

  lemma {:induction false} RunKeepsPromise(s: State, actions: seq<Action>)
    requires Inv(s) && Promised(s) && HonouredRun(s, actions) && RunTo(s, actions).Some?
    ensures Promised(RunTo(s, actions).value)
    decreases |actions|
  {
    if actions != [] {
      hide Step, Inv, Promised, Honoured;
      StepKeepsInv(s, actions[0]);
      StepKeepsPromise(s, actions[0]);
      RunKeepsPromise(Step(s, actions[0]).value, actions[1..]);
    }
  }

  /** When cancel requests are honoured there are no laps: the thread exits after at most
      twelve steps, fruitless waits not counted, also when the close races with a
      resubmission. */
  lemma HonouredNeverLaps(s: State, a: Action)
    requires HonouredReachable(s) && Step(s, a).Some?
    ensures Reachable(s) && !IsLap(s, a)
  {
    var first, actions :| Init(first) && HonouredRun(first, actions) && RunTo(first, actions) == Some(s);
    assert Inv(first) && Promised(first);
    hide Step, Inv, HonouredRun, RunTo;
    RunKeepsPromise(first, actions);
  }

  // ---- When the thread can still exit ----

  /** The device does not go away and resubmitting never fails. */
  predicate Healthy(a: Action) {
    a != Resubmit(false) && a != Complete(NoDevice)
  }

  /** Everything from the first test up to the thread's own cancel request. */
  predicate BeforeCancel(t: ThreadPc) {
    match t
    case Testing => true
    case Cancelling => true
    case Handling(back) => back.ToLoop?
    case Called(_, back) => back.ToLoop?
    case Resubmitting(back) => back.ToLoop?
    case _ => false
  }

  /** A stop is under way, the thread has yet to ask for one, or the transfer in flight
      has been accepted for cancelling. */
  predicate Hopeful(s: State) {
    || s.cancelled || s.cancelAsked
    || s.thread.Stopping? || BeforeCancel(s.thread)
    || (s.thread.Called? && (s.thread.status.Cancelled? || s.thread.status.NoDevice?))
  }

  /** What the thread does next once a close is waiting for it; a device that goes away
      or a failing resubmission helps where no cancel request does. */
  function Useful(s: State): Action {
    match s.thread
    case Testing => Test
    case Handling(ToLoop) => Idle
    case Handling(ToWait) => Complete(if s.cancelAsked then Cancelled else NoDevice)
    case Called(_, _) => RunCallback
    case Stopping(_) => MarkCancelled
    case Resubmitting(back) => Resubmit(back.ToLoop?)
    case Cancelling => AskCancel(true)
    case Waiting => Test
    case Broadcasting => Broadcast
    case Exited => Close(true)
  }

  lemma UsefulStep(s: State)
    requires TransferInv(s) && CloserInv(s) && s.started && s.closer.Joining? && !s.thread.Exited?
    ensures var next := Step(s, Useful(s));
            && next.Some? && next.value.started && next.value.closer.Joining?
            && Budget(next.value) < Budget(s)
            && (Hopeful(s) ==> Healthy(Useful(s)) && Hopeful(next.value))
  {
    hide Receive, QueueInv;
    if s.thread.Called? && s.thread.status.Completed? {
      ReceiveKeepsRest(s, s.thread.status.data);
    }
  }

  lemma ReceiveKeepsRest(s: State, data: Data)
    ensures var r := Receive(s, data);
            r.closer == s.closer && r.cancelled == s.cancelled && r.cancelAsked == s.cancelAsked
  {
  }

  function Budget(s: State): nat {
    2 * Remaining(s) + if s.thread.Waiting? then 1 else 0
  }

  lemma {:induction false} ExitsFrom(s: State) returns (actions: seq<Action>)
    requires Inv(s) && s.started && s.closer.Joining?
    ensures RunTo(s, actions).Some? && RunTo(s, actions).value.thread.Exited?
    ensures Hopeful(s) ==> forall a <- actions :: Healthy(a)
    decreases Budget(s)
  {
    if s.thread.Exited? {
      return [];
    }
    var a := Useful(s);
    UsefulStep(s);
    StepKeepsInv(s, a);
    hide Step, Inv, Useful, Hopeful, Healthy, Budget;
    var later := ExitsFrom(Step(s, a).value);
    actions := [a] + later;
    assert actions[1..] == later;
  }

  ghost predicate CanExit(s: State) {
    exists actions :: RunTo(s, actions).Some? && RunTo(s, actions).value.thread.Exited?
  }

  ghost predicate CanExitHealthy(s: State) {
    exists actions :: (forall a <- actions :: Healthy(a)) && RunTo(s, actions).Some?
        && RunTo(s, actions).value.thread.Exited?
  }

  lemma NeverExitedInv(s: State)
    requires Inv(s) && !s.started
    ensures !s.thread.Exited? && s.frees == 0
  {
  }

  lemma {:induction false} NeverExitsUnstarted(s: State, actions: seq<Action>)
    requires Inv(s) && !s.started && RunTo(s, actions).Some?
    ensures !RunTo(s, actions).value.thread.Exited? && RunTo(s, actions).value.frees == 0
    decreases |actions|
  {
    NeverExitedInv(s);
    if actions != [] {
      hide Step, TransferInv, ReaderInv, CloserInv, QueueInv;
      StepKeepsInv(s, actions[0]);
      ThreadUntouched(s, actions[0]);
      NeverExitsUnstarted(Step(s, actions[0]).value, actions[1..]);
    }
  }

  lemma StrandedStays(s: State, a: Action)
    requires TransferInv(s) && CloserInv(s) && s.closer.Joining? && !Hopeful(s) && Healthy(a) && Step(s, a).Some?
    ensures Step(s, a).value.closer.Joining? && !Hopeful(Step(s, a).value)
  {
    hide Receive;
    if a.RunCallback? && s.thread.Called? && s.thread.status.Completed? {
      ReceiveKeepsRest(s, s.thread.status.data);
    }
  }

  lemma {:induction false} StrandedNeverExits(s: State, actions: seq<Action>)
    requires Inv(s) && s.closer.Joining? && !Hopeful(s)
    requires (forall a <- actions :: Healthy(a)) && RunTo(s, actions).Some?
    ensures !RunTo(s, actions).value.thread.Exited?
    decreases |actions|
  {
    if actions != [] {
      assert actions[0] in actions && forall a <- actions[1..] :: a in actions;
      StepKeepsInv(s, actions[0]);
      StrandedStays(s, actions[0]);
      hide Step, Hopeful, Healthy;
      StrandedNeverExits(Step(s, actions[0]).value, actions[1..]);
    }
  }

  /** A close that waits for the thread can complete, with a device that stays and without
      a failing resubmission, exactly when the first submission succeeded and a cancel
      request has been accepted for the transfer in flight, is still to be made, or has
      already had its effect. */
  lemma CloseCompletesHealthyIff(s: State)
    requires Reachable(s) && s.closer.Joining?
    ensures CanExitHealthy(s) <==> s.started && Hopeful(s)
  {
    ReachableInv(s);
    hide Inv, Hopeful, Healthy;
    if s.started && Hopeful(s) {
      var actions := ExitsFrom(s);
      assert CanExitHealthy(s);
    } else {
      forall actions | (forall a <- actions :: Healthy(a)) && RunTo(s, actions).Some?
        ensures !RunTo(s, actions).value.thread.Exited?
      {
        if !s.started {
          NeverExitsUnstarted(s, actions);
        } else {
          StrandedNeverExits(s, actions);
        }
      }
    }
  }

  /** A close that waits for the thread can complete in some way, at worst because the
      device goes away, exactly when the first submission, whose result nobody looks at,
      succeeded. */
  lemma CloseCompletesIff(s: State)
    requires Reachable(s) && s.closer.Joining?
    ensures CanExit(s) <==> s.started
  {
    ReachableInv(s);
    hide Inv;
    if s.started {
      var actions := ExitsFrom(s);
      assert CanExit(s);
    } else {
      forall actions | RunTo(s, actions).Some? ensures !RunTo(s, actions).value.thread.Exited? {
        NeverExitsUnstarted(s, actions);
      }
    }
  }

  lemma {:induction false} TwoSteps(s: State, a: Action, b: Action)
    requires Step(s, a).Some? && Step(Step(s, a).value, b).Some?
    ensures RunTo(s, [a, b]) == Step(Step(s, a).value, b)
  {
    hide Step;
    var s1 := Step(s, a).value;
    assert [a, b][1..] == [b] && [b][1..] == [];
    assert RunTo(Step(s1, b).value, []) == Step(s1, b);
    assert RunTo(s1, [b]) == Step(s1, b);
  }

  lemma {:induction false} RunsJoin(s: State, first: seq<Action>, last: seq<Action>)
    requires RunTo(s, first).Some?
    ensures RunTo(s, first + last) == RunTo(RunTo(s, first).value, last)
    decreases |first|
  {
    if first == [] {
      assert first + last == last;
    } else {
      hide Step;
      assert (first + last)[1..] == first[1..] + last;
      RunsJoin(Step(s, first[0]).value, first[1..], last);
    }
  }

  /** The failing case exists: a device whose first submission fails, closed at once. */
  lemma FailedStartHangsClose()
    ensures exists s :: Reachable(s) && s.closer.Joining? && !CanExit(s)
  {
    var first := State([], [], [], [], false, false, false, false, false, Testing, Away, Open, 0);
    TwoSteps(first, Close(true), Close(true));
    var s := RunTo(first, [Close(true), Close(true)]).value;
    assert Init(first) && Reachable(s) && s.closer.Joining? && !s.started;
    CloseCompletesIff(s);
  }

  /** A device whose cancel requests are both refused: where its run starts, where the
      close begins to wait, and where the thread does. */
  function Refused(shutdown: bool, closer: CloserPc, thread: ThreadPc): State {
    State([], [], [], [], true, true, false, shutdown, false, thread, Away, closer, 0)
  }

  lemma RefusedSteps()
    ensures Init(Refused(false, Open, Testing)) && !Hopeful(Refused(true, Joining, Waiting))
    ensures Step(Refused(false, Open, Testing), Close(false)) == Some(Refused(true, Signalling, Testing))
    ensures Step(Refused(true, Signalling, Testing), Close(false)) == Some(Refused(true, Joining, Testing))
    ensures Step(Refused(true, Joining, Testing), Test) == Some(Refused(true, Joining, Cancelling))
    ensures Step(Refused(true, Joining, Cancelling), AskCancel(false)) == Some(Refused(true, Joining, Waiting))
  {
  }

  /** So does the other one: both cancel requests are refused, and from then on the
      transfer is resubmitted for ever while the close waits. */
  lemma RefusedCancelStrandsClose()
    ensures exists s :: Reachable(s) && s.started && s.closer.Joining? && !CanExitHealthy(s)
  {
    hide Step, Hopeful, Init;
    RefusedSteps();
    var first, s := Refused(false, Open, Testing), Refused(true, Joining, Waiting);
    TwoSteps(first, Close(false), Close(false));
    TwoSteps(Refused(true, Joining, Testing), Test, AskCancel(false));
    RunsJoin(first, [Close(false), Close(false)], [Test, AskCancel(false)]);
    assert Reachable(s);
    CloseCompletesHealthyIff(s);
  }

  // ---- Wake-up and drain ----

  /** The reader is never left asleep while a report is queued, nor after the thread has
      gone, although a report is signalled only when the list was empty. */
  lemma NoLostWakeUp(s: State)
    requires Reachable(s) && s.reader.Asleep?
    ensures s.queue == [] && !s.thread.Exited?
  {
    ReachableInv(s);
  }

  /** Without a failed wait, a read fails only when the list is empty and the device has
      been shut down: every queued report comes out before that. */
  lemma FailureMeansDrained(s: State)
    requires Reachable(s) && s.reader == Answering(Failure(false))
    ensures s.queue == [] && s.shutdown && s.arrived == Items(s.left) + s.discarded
  {
    ReachableInv(s);
  }

  /** A read that starts with reports queued returns the first of them in two steps,
      whatever the state of the shutdown. */
  lemma QueuedReportComesOut(s: State, mode: Mode)
    requires Reachable(s) && s.reader == Looking(mode) && s.queue != []
    ensures var next := Step(s, Read);
            && next.Some? && next.value.reader == Answering(Report(s.queue[0])) && next.value.queue == s.queue[1..]
            && Marked(next.value.left, true) == Marked(s.left, true) + [s.queue[0]]
  {
    MarkedAppend(s.left, (s.queue[0], true));
  }

  lemma MarkedAppend<T>(left: seq<(T, bool)>, last: (T, bool))
    ensures Marked(left + [last], true) == Marked(left, true) + if last.1 then [last.0] else []
  {
    if left != [] {
      assert (left + [last])[1..] == left[1..] + [last];
      MarkedAppend(left[1..], last);
    } else {
      assert [last][1..] == [];
    }
  }

  /** Conservation over all runs, with at most 32 reports queued at any time. */
  lemma ReportsConserved(s: State)
    requires Reachable(s)
    ensures |s.queue| <= CAPACITY && s.arrived == Items(s.left) + s.queue + s.discarded
    ensures s.discarded != [] ==> s.closer.Closed?
  {
    ReachableInv(s);
  }

  // ---- The critical sections are a run of the queue ----

  /** The operations amount to what has happened to the list. */
  predicate Matches(s: State, ops: seq<Op<Data>>) {
    var log := Perform([], ops);
    log.queued == s.queue + s.discarded && log.left == s.left && Arrivals(ops) == s.arrived
  }

  /** What one step does to the list: an arrival, a delivery, or nothing but the clearing
      at the very end. */
  predicate ListEffect(s: State, next: State, effect: Option<Op<Data>>) {
    match effect
    case Some(op) =>
      && s.discarded == next.discarded == []
      && next.queue == AfterFirst(s.queue, op)
      && next.left == s.left + Gone(s.queue, op)
      && next.arrived == s.arrived + if op.Arrive? then [op.item] else []
    case None =>
      && next.left == s.left && next.arrived == s.arrived
      && next.queue + next.discarded == s.queue + s.discarded
  }

  lemma ReceiveEffect(s: State, data: Data)
    requires s.discarded == [] && |s.queue| <= CAPACITY
    ensures ListEffect(s, Receive(s, data), Some(Arrive(data)))
  {
    assert s.left + [] == s.left;
  }

  predicate SameList(s: State, next: State) {
    next.queue == s.queue && next.arrived == s.arrived && next.left == s.left && next.discarded == s.discarded
  }

  lemma NoEffect(s: State, next: State)
    requires SameList(s, next)
    ensures ListEffect(s, next, None)
  {
  }

  lemma ThreadTouchesList(s: State, a: Action)
    requires ThreadStep(s, a).Some?
    ensures var next := ThreadStep(s, a).value;
            if a.RunCallback? && s.thread.Called? && s.thread.status.Completed?
            then SameList(Receive(s, s.thread.status.data), next) && !s.thread.Exited?
            else SameList(s, next)
  {
    hide Receive;
  }

  lemma ThreadEffect(s: State, a: Action) returns (effect: Option<Op<Data>>)
    requires CloserInv(s) && |s.queue| <= CAPACITY && ThreadStep(s, a).Some?
    ensures ListEffect(s, ThreadStep(s, a).value, effect)
  {
    hide Receive, AfterFirst, Gone, ThreadStep;
    ThreadTouchesList(s, a);
    if a.RunCallback? && s.thread.Called? && s.thread.status.Completed? {
      ReceiveEffect(s, s.thread.status.data);
      effect := Some(Arrive(s.thread.status.data));
    } else {
      NoEffect(s, ThreadStep(s, a).value);
      effect := None;
    }
  }

  lemma ReaderTouchesList(s: State, a: Action)
    requires ReaderStep(s, a).Some?
    ensures var next := ReaderStep(s, a).value;
            SameList(s, next) || (s.queue != [] && SameList(Deliver(s), next) && !s.reader.Away?)
  {
  }

  lemma DeliverEffect(s: State)
    requires s.queue != [] && s.discarded == []
    ensures ListEffect(s, Deliver(s), Some(Take(0)))
  {
    assert s.arrived + [] == s.arrived;
  }

  lemma ReaderEffect(s: State, a: Action)
    requires CloserInv(s) && ReaderStep(s, a).Some?
    ensures var next := ReaderStep(s, a).value;
            ListEffect(s, next, None) || (s.queue != [] && ListEffect(s, next, Some(Take(0))))
  {
    hide ReaderStep, AfterFirst, Gone;
    ReaderTouchesList(s, a);
    if SameList(s, ReaderStep(s, a).value) {
      NoEffect(s, ReaderStep(s, a).value);
    } else {
      DeliverEffect(s);
    }
  }

  lemma CloserEffect(s: State, accepted: bool)
    requires Inv(s) && CloserStep(s, accepted).Some?
    ensures ListEffect(s, CloserStep(s, accepted).value, None)
  {
    assert s.queue + [] == s.queue && [] + s.queue == s.queue;
  }

  lemma QueueBound(s: State)
    requires Inv(s)
    ensures CloserInv(s) && |s.queue| <= CAPACITY
  {
  }

  lemma StepEffect(s: State, a: Action) returns (effect: Option<Op<Data>>)
    requires Inv(s) && Step(s, a).Some?
    ensures ListEffect(s, Step(s, a).value, effect)
  {
    hide ThreadStep, ReaderStep, CloserStep, Inv, ListEffect;
    match a
    case Close(accepted) =>
      CloserEffect(s, accepted);
      effect := None;
    case Begin(_) =>
      ReaderEffect(s, a) by { QueueBound(s); }
      effect := if ListEffect(s, ReaderStep(s, a).value, None) then None else Some(Take(0));
    case Read =>
      ReaderEffect(s, a) by { QueueBound(s); }
      effect := if ListEffect(s, ReaderStep(s, a).value, None) then None else Some(Take(0));
    case Wake(_) =>
      ReaderEffect(s, a) by { QueueBound(s); }
      effect := if ListEffect(s, ReaderStep(s, a).value, None) then None else Some(Take(0));
    case _ =>
      effect := ThreadEffect(s, a) by { QueueBound(s); }
  }

  lemma StepMatches(s: State, next: State, effect: Option<Op<Data>>, ops: seq<Op<Data>>)
    requires ListEffect(s, next, effect) && Matches(s, ops)
    ensures Matches(next, ops + if effect.Some? then [effect.value] else [])
  {
    hide Perform, Append, Gone, AfterFirst;
    assert ops + [] == ops && s.queue + [] == s.queue;
    if effect.Some? {
      PerformLast([], ops, effect.value);
      assert next.queue + [] == next.queue;
    }
  }

  lemma {:induction false} RunMatches(s: State, actions: seq<Action>, ops: seq<Op<Data>>) returns (more: seq<Op<Data>>)
    requires Inv(s) && RunTo(s, actions).Some? && Matches(s, ops)
    ensures Matches(RunTo(s, actions).value, more)
    decreases |actions|
  {
    more := ops;
    if actions != [] {
      hide Step, Matches, Inv;
      StepKeepsInv(s, actions[0]);
      var effect := StepEffect(s, actions[0]);
      StepMatches(s, Step(s, actions[0]).value, effect, ops);
      more := ops + if effect.Some? then [effect.value] else [];
      more := RunMatches(Step(s, actions[0]).value, actions[1..], more);
    }
  }

  /** Every interleaving of the threads is a run of the drop-oldest queue: what arrived,
      what left the list and how, and what is in it are those of some sequence of
      arrivals and takes. */
  lemma ThreadsPerform(s: State)
    requires Reachable(s)
    ensures exists ops :: Matches(s, ops)
  {
    var first, actions :| Init(first) && RunTo(first, actions) == Some(s);
    assert Matches(first, []);
    var ops := RunMatches(first, actions, []);
  }
}
