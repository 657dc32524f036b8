/** What the threads of an open device make of its transfers, over whole runs and in terms
    of the actions in them: what arrives, what reads return and why, and what stops the
    read thread. */
module ReaderAnswers {
  import opened Bytes
  import opened ReportQueue
  import opened ReaderThread

  // ---- What arrives ----

  /** The data of the completed transfers whose callback has run, in order; `pending` is
      the data of a completed transfer whose callback has not. */
  function Arriving(actions: seq<Action>, pending: Option<Data>): seq<Data> {
    if actions == [] then []
    else
      match actions[0]
      case Complete(status) => Arriving(actions[1..], if status.Completed? then Some(status.data) else None)
      case RunCallback => (if pending.Some? then [pending.value] else []) + Arriving(actions[1..], None)
      case _ => Arriving(actions[1..], pending)
  }

  function PendingOf(t: ThreadPc): Option<Data> {
    if t.Called? && t.status.Completed? then Some(t.status.data) else None
  }

  /** What one step adds to the arrivals and keeps of a completed transfer. */
  predicate Arrives(s: State, a: Action, next: State) {
    match a
    case Complete(status) =>
      next.arrived == s.arrived && PendingOf(next.thread) == if status.Completed? then Some(status.data) else None
    case RunCallback =>
      && next.arrived == s.arrived + (if PendingOf(s.thread).Some? then [PendingOf(s.thread).value] else [])
      && PendingOf(next.thread) == None
    case _ => next.arrived == s.arrived && PendingOf(next.thread) == PendingOf(s.thread)
  }

  lemma ThreadPending(s: State, a: Action)
    requires ThreadStep(s, a).Some?
    ensures var next := ThreadStep(s, a).value;
            PendingOf(next.thread) ==
            match a
            case Complete(status) => if status.Completed? then Some(status.data) else None
            case RunCallback => None
            case _ => PendingOf(s.thread)
    ensures a.RunCallback? ==> s.thread.Called?
  {
    hide Receive;
  }

  lemma ThreadArrives(s: State, a: Action)
    requires ThreadStep(s, a).Some?
    ensures Arrives(s, a, ThreadStep(s, a).value)
  {
    hide ThreadStep;
    ThreadPending(s, a);
    ThreadTouchesList(s, a);
    assert s.arrived + [] == s.arrived;
  }

  lemma StepArrives(s: State, a: Action)
    requires Step(s, a).Some?
    ensures Arrives(s, a, Step(s, a).value)
  {
    hide ThreadStep, ReaderStep, CloserStep, Arrives;
    ThreadUntouched(s, a);
    match a
    case Close(accepted) => OthersArrive(s, a);
    case Begin(_) => OthersArrive(s, a);
    case Read => OthersArrive(s, a);
    case Wake(_) => OthersArrive(s, a);
    case _ => ThreadArrives(s, a);
  }

  lemma OthersArrive(s: State, a: Action)
    requires (a.Close? || a.Begin? || a.Read? || a.Wake?) && Step(s, a).Some?
    ensures Arrives(s, a, Step(s, a).value)
  {
    if !a.Close? {
      ReaderTouchesList(s, a);
    }
  }

  lemma {:induction false} ArrivedIsCompleted(s: State, actions: seq<Action>)
    requires RunTo(s, actions).Some?
    ensures RunTo(s, actions).value.arrived == s.arrived + Arriving(actions, PendingOf(s.thread))
    decreases |actions|
  {
    if actions == [] {
      assert s.arrived + [] == s.arrived;
    } else {
      hide Step, PendingOf;
      StepArrives(s, actions[0]);
      var next := Step(s, actions[0]).value;
      ArrivedIsCompleted(next, actions[1..]);
      if actions[0].RunCallback? {
        var first := if PendingOf(s.thread).Some? then [PendingOf(s.thread).value] else [];
        var rest := Arriving(actions[1..], None);
        assert s.arrived + first + rest == s.arrived + (first + rest);
      }
    }
  }

  // ---- What reads return ----

  /** The answer that a step returns to the caller of a read. */
  function ReturnedBy(s: State, a: Action): seq<Answer> {
    if a.Read? && s.reader.Answering? then [s.reader.answer] else []
  }

  /** The answers that reads have returned in a run. */
  function Returned(s: State, actions: seq<Action>): seq<Answer>
    decreases |actions|
  {
    if actions == [] || Step(s, actions[0]).None? then []
    else ReturnedBy(s, actions[0]) + Returned(Step(s, actions[0]).value, actions[1..])
  }

  function ReportsOf(answers: seq<Answer>): seq<Data> {
    if answers == [] then []
    else (if answers[0].Report? then [answers[0].data] else []) + ReportsOf(answers[1..])
  }

  /** The report that a read holds and is about to return. */
  function InHand(r: ReaderPc): seq<Data> {
    if r.Answering? && r.answer.Report? then [r.answer.data] else []
  }

  /** From one state to another `more` was delivered, and what was in hand and delivered is
      what was returned and is in hand. */
  predicate Hands(s: State, next: State, answers: seq<Answer>, more: seq<Data>) {
    && Marked(next.left, true) == Marked(s.left, true) + more
    && InHand(s.reader) + more == ReportsOf(answers) + InHand(next.reader)
  }

  lemma {:induction false} ReportsOfSplit(a: seq<Answer>, b: seq<Answer>)
    ensures ReportsOf(a + b) == ReportsOf(a) + ReportsOf(b)
  {
    if a == [] {
      assert a + b == b;
    } else {
      assert (a + b)[1..] == a[1..] + b && (a + b)[0] == a[0];
      ReportsOfSplit(a[1..], b);
      var first := if a[0].Report? then [a[0].data] else [];
      assert first + (ReportsOf(a[1..]) + ReportsOf(b)) == first + ReportsOf(a[1..]) + ReportsOf(b);
    }
  }

  lemma HandsJoin(s: State, mid: State, end: State, a: seq<Answer>, b: seq<Answer>, m: seq<Data>, n: seq<Data>)
    requires Hands(s, mid, a, m) && Hands(mid, end, b, n)
    ensures Hands(s, end, a + b, m + n)
  {
    hide Marked, ReportsOf, InHand;
    ReportsOfSplit(a, b);
    assert Marked(s.left, true) + m + n == Marked(s.left, true) + (m + n);
    assert InHand(s.reader) + (m + n) == InHand(s.reader) + m + n == ReportsOf(a) + InHand(mid.reader) + n
        == ReportsOf(a) + (InHand(mid.reader) + n) == ReportsOf(a) + (ReportsOf(b) + InHand(end.reader))
        == ReportsOf(a) + ReportsOf(b) + InHand(end.reader);
  }

  lemma SameHands(s: State, next: State)
    requires Marked(next.left, true) == Marked(s.left, true) && InHand(next.reader) == InHand(s.reader)
    ensures Hands(s, next, [], [])
  {
    assert Marked(s.left, true) + [] == Marked(s.left, true) && InHand(s.reader) + [] == [] + InHand(s.reader);
  }

  lemma SignalKeepsHand(r: ReaderPc)
    ensures InHand(Signal(r)) == InHand(r)
  {
  }

  lemma ThreadKeepsReader(s: State, a: Action)
    requires ThreadStep(s, a).Some?
    ensures ThreadStep(s, a).value.reader == s.reader || ThreadStep(s, a).value.reader == Signal(s.reader)
  {
    hide Signal;
  }

  lemma ThreadHands(s: State, a: Action)
    requires ThreadStep(s, a).Some? && |s.queue| <= CAPACITY
    ensures Hands(s, ThreadStep(s, a).value, [], [])
  {
    hide ThreadStep, InHand, Hands, Signal;
    ThreadTouchesList(s, a);
    ThreadKeepsReader(s, a);
    SignalKeepsHand(s.reader);
    if a.RunCallback? && s.thread.Called? && s.thread.status.Completed? && |s.queue| == CAPACITY {
      MarkedAppend(s.left, (s.queue[0], false));
      assert Marked(s.left, true) + [] == Marked(s.left, true);
    }
    SameHands(s, ThreadStep(s, a).value);
  }

  /** A reader's step delivers, returns an answer, or does neither. */
  predicate HandCases(s: State, a: Action, next: State) {
    || (&& s.queue != [] && !s.reader.Answering?
        && next.left == s.left + [(s.queue[0], true)] && next.reader == Answering(Report(s.queue[0])))
    || (next.left == s.left && a.Read? && s.reader.Answering? && next.reader == Away)
    || (next.left == s.left && !s.reader.Answering? && InHand(next.reader) == [])
  }

  lemma AwakeCases(s: State)
    requires s.reader.Awake?
    ensures ReadOn(s).Some? && HandCases(s, Read, ReadOn(s).value)
  {
  }

  lemma ReadOnCases(s: State)
    requires ReadOn(s).Some?
    ensures HandCases(s, Read, ReadOn(s).value)
  {
    if s.reader.Awake? {
      hide ReadOn, HandCases;
      AwakeCases(s);
    }
  }

  lemma ReaderCases(s: State, a: Action)
    requires ReaderStep(s, a).Some?
    ensures HandCases(s, a, ReaderStep(s, a).value)
  {
    if a == Read {
      hide ReadOn, HandCases;
      ReadOnCases(s);
    }
  }

  lemma ReaderHands(s: State, a: Action) returns (more: seq<Data>)
    requires ReaderStep(s, a).Some?
    ensures Hands(s, ReaderStep(s, a).value, ReturnedBy(s, a), more)
  {
    hide ReaderStep;
    ReaderCases(s, a);
    var next := ReaderStep(s, a).value;
    if next.left == s.left {
      more := [];
      assert Marked(s.left, true) + [] == Marked(s.left, true);
      assert s.reader.Answering? ==> ReportsOf([s.reader.answer][1..]) == [];
    } else {
      more := [s.queue[0]];
      MarkedAppend(s.left, (s.queue[0], true));
    }
  }

  lemma StepHands(s: State, a: Action) returns (more: seq<Data>)
    requires Step(s, a).Some? && |s.queue| <= CAPACITY
    ensures Hands(s, Step(s, a).value, ReturnedBy(s, a), more)
  {
    hide ThreadStep, ReaderStep, Hands, Marked, InHand, ReportsOf;
    assert a.Read? || ReturnedBy(s, a) == [];
    match a
    case Close(_) =>
      SameHands(s, Step(s, a).value);
      more := [];
    case Begin(_) => more := ReaderHands(s, a);
    case Read => more := ReaderHands(s, a);
    case Wake(_) => more := ReaderHands(s, a);
    case _ =>
      ThreadHands(s, a);
      more := [];
  }

  lemma {:induction false} RunHands(s: State, actions: seq<Action>) returns (more: seq<Data>)
    requires Inv(s) && RunTo(s, actions).Some?
    ensures Hands(s, RunTo(s, actions).value, Returned(s, actions), more)
    decreases |actions|
  {
    if actions == [] {
      more := [];
      SameHands(s, s);
    } else {
      QueueBound(s);
      StepKeepsInv(s, actions[0]);
      hide Step, Inv, Hands, ReturnedBy;
      var first := StepHands(s, actions[0]);
      var next := Step(s, actions[0]).value;
      var later := RunHands(next, actions[1..]);
      HandsJoin(s, next, RunTo(next, actions[1..]).value, ReturnedBy(s, actions[0]), Returned(next, actions[1..]),
          first, later);
      more := first + later;
    }
  }

  lemma InitialInv(first: State)
    requires Init(first)
    ensures Inv(first) && Marked(first.left, true) == [] && InHand(first.reader) == []
    ensures PendingOf(first.thread) == None && first.arrived == [] && first.reader.Away?
  {
  }

  /** In every run: what arrived is the data of the completed transfers, in order, and the
      reports that left the list by delivery are exactly those that reads returned, in
      order, then the one that a read is about to return. */
  lemma RunAnswers(first: State, actions: seq<Action>)
    requires Init(first) && RunTo(first, actions).Some?
    ensures var s := RunTo(first, actions).value;
            && s.arrived == Arriving(actions, None)
            && Marked(s.left, true) == ReportsOf(Returned(first, actions)) + InHand(s.reader)
  {
    InitialInv(first);
    ArrivedIsCompleted(first, actions);
    hide Inv, Returned, RunTo, Arriving, ReportsOf, InHand, Marked;
    var more := RunHands(first, actions);
    assert [] + Arriving(actions, None) == Arriving(actions, None);
    assert [] + more == more;
  }

  // ---- Why a read answers as it does ----

  /** The mode of the latest read, and why its latest wait, if any, ended. */
  datatype Call = Call(mode: Option<Mode>, cause: Option<Cause>)

  function After(call: Call, a: Action): Call {
    match a
    case Begin(mode) => Call(Some(mode), None)
    case Wake(cause) => call.(cause := Some(cause))
    case _ => call
  }

  function CallOf(actions: seq<Action>, call: Call): Call {
    if actions == [] then call else CallOf(actions[1..], After(call, actions[0]))
  }

  const NO_CALL := Call(None, None)

  predicate Ordinary(cause: Option<Cause>) {
    cause.None? || cause.value.Woken?
  }

  /** A read is awake for the reason its wait ended; an empty answer comes to a read that
      does not wait or whose wait has expired, a wait error to one whose wait failed; and
      an expired or failed wait of a timed read leads to nothing else. */
  predicate Explains(r: ReaderPc, call: Call) {
    match r
    case Away => true
    case Looking(mode) => call == Call(Some(mode), None)
    case Asking(mode) => call == Call(Some(mode), None)
    case Guarding(mode) => Waits(mode, call)
    case Settling(mode) => Waits(mode, call)
    case Asleep(mode) => Waits(mode, call)
    case Awake(mode, cause) =>
      if cause.Woken? then Waits(mode, call)
      else call == Call(Some(mode), Some(cause)) && !mode.NonBlocking? && (cause.Expired? ==> mode.Timed?)
    case Answering(answer) => Fits(answer, call)
  }

  predicate Waits(mode: Mode, call: Call) {
    !mode.NonBlocking? && call.mode == Some(mode) && (mode.Timed? ==> Ordinary(call.cause))
  }

  predicate Fits(answer: Answer, call: Call) {
    if call == Call(Some(Timed), Some(Expired)) then answer == Nothing
    else if call == Call(Some(Timed), Some(WaitFailed)) then answer == Failure(true)
    else answer != Failure(true) && (answer.Nothing? ==> call == Call(Some(NonBlocking), None))
  }

  lemma AwakeKeepsReason(s: State, call: Call)
    requires s.reader.Awake? && Explains(s.reader, call)
    ensures ReadOn(s).Some? && Explains(ReadOn(s).value.reader, call)
  {
  }

  lemma ReadKeepsReason(s: State, call: Call)
    requires ReadOn(s).Some? && Explains(s.reader, call)
    ensures Explains(ReadOn(s).value.reader, call)
  {
    if s.reader.Awake? {
      hide ReadOn, Explains;
      AwakeKeepsReason(s, call);
    }
  }

  lemma ReaderKeepsReason(s: State, a: Action, call: Call)
    requires ReaderStep(s, a).Some? && Explains(s.reader, call)
    ensures Explains(ReaderStep(s, a).value.reader, After(call, a))
  {
    if a == Read {
      hide ReadOn, Explains;
      ReadKeepsReason(s, call);
    }
  }

  lemma SignalKeepsReason(r: ReaderPc, call: Call)
    requires Explains(r, call)
    ensures Explains(Signal(r), call)
  {
  }

  lemma StepKeepsReason(s: State, a: Action, call: Call)
    requires Step(s, a).Some? && Explains(s.reader, call)
    ensures Explains(Step(s, a).value.reader, After(call, a))
  {
    hide ThreadStep, ReaderStep, Explains;
    match a
    case Close(_) =>
    case Begin(_) => ReaderKeepsReason(s, a, call);
    case Read => ReaderKeepsReason(s, a, call);
    case Wake(_) => ReaderKeepsReason(s, a, call);
    case _ =>
      ThreadKeepsReader(s, a);
      SignalKeepsReason(s.reader, call);
  }

  lemma {:induction false} RunKeepsReason(s: State, actions: seq<Action>, call: Call)
    requires RunTo(s, actions).Some? && Explains(s.reader, call)
    ensures Explains(RunTo(s, actions).value.reader, CallOf(actions, call))
    decreases |actions|
  {
    if actions != [] {
      hide Step, Explains, After;
      StepKeepsReason(s, actions[0], call);
      RunKeepsReason(Step(s, actions[0]).value, actions[1..], After(call, actions[0]));
    }
  }

  lemma {:induction false} CauseOccurs(actions: seq<Action>, call: Call)
    ensures var c := CallOf(actions, call).cause; c.Some? && c != call.cause ==> Wake(c.value) in actions
    decreases |actions|
  {
    if actions != [] {
      assert forall a <- actions[1..] :: a in actions;
      assert actions[0] in actions;
      CauseOccurs(actions[1..], After(call, actions[0]));
    }
  }

  /** In every run, from the actions of the read in progress: an expired timed wait is
      answered as empty, a failed one with an error, and without those an error means a
      shut down device with an empty list, while an empty answer comes to a read that does
      not wait only. In particular no read fails on its wait in a run whose waits do not
      fail. */
  lemma AnswersExplained(first: State, actions: seq<Action>)
    requires Init(first) && RunTo(first, actions).Some?
    ensures var s, call := RunTo(first, actions).value, CallOf(actions, NO_CALL);
            && (s.reader.Answering? ==> Fits(s.reader.answer, call))
            && (s.reader.Awake? && !s.reader.cause.Woken? ==> call == Call(Some(s.reader.mode), Some(s.reader.cause)))
            && (s.reader == Answering(Failure(false)) ==> s.queue == [] && s.shutdown)
            && (s.reader == Answering(Failure(true)) ==> Wake(WaitFailed) in actions)
  {
    InitialInv(first);
    RunKeepsReason(first, actions, NO_CALL);
    RunKeepsInv(first, actions);
    CauseOccurs(actions, NO_CALL);
  }

  // ---- What an undisturbed read answers ----

  /** The reader's steps until it answers, when nobody else moves and a wait expires. */
  function Alone(s: State, mode: Mode): seq<Action> {
    if s.queue != [] then [Read]
    else if s.shutdown || mode.NonBlocking? then [Read, Read]
    else [Read, Read, Read, Read, Wake(Expired), Read]
  }

  function AnswerAlone(s: State): Answer {
    if s.queue != [] then Report(s.queue[0]) else if s.shutdown then Failure(false) else Nothing
  }

  lemma FirstStep(s: State, a: Action, rest: seq<Action>)
    requires Step(s, a).Some?
    ensures RunTo(s, [a] + rest) == RunTo(Step(s, a).value, rest)
  {
    assert ([a] + rest)[1..] == rest;
  }

  lemma RunNone(s: State)
    ensures RunTo(s, []) == Some(s)
  {
  }

  lemma LookSteps(s: State, mode: Mode)
    requires s.reader == Looking(mode)
    ensures Step(s, Read) == Some(if s.queue != [] then Deliver(s) else s.(reader := Asking(mode)))
  {
  }

  lemma AskSteps(s: State, mode: Mode)
    requires s.reader == Asking(mode)
    ensures Step(s, Read) == Some(s.(reader := if s.shutdown then Answering(Failure(false))
                                               else if mode.NonBlocking? then Answering(Nothing) else Guarding(mode)))
  {
  }

  lemma WaitSteps(s: State)
    requires s.queue == [] && !s.shutdown
    ensures Step(s.(reader := Guarding(Timed)), Read) == Some(s.(reader := Settling(Timed)))
    ensures Step(s.(reader := Settling(Timed)), Read) == Some(s.(reader := Asleep(Timed)))
    ensures Step(s.(reader := Asleep(Timed)), Wake(Expired)) == Some(s.(reader := Awake(Timed, Expired)))
    ensures Step(s.(reader := Awake(Timed, Expired)), Read) == Some(s.(reader := Answering(Nothing)))
  {
  }

  lemma TimedAlone(s: State)
    requires s.reader == Looking(Timed) && s.queue == [] && !s.shutdown
    ensures RunTo(s, [Read, Read, Read, Read, Wake(Expired), Read]) == Some(s.(reader := Answering(Nothing)))
  {
    hide Step;
    LookSteps(s, Timed);
    var asking := s.(reader := Asking(Timed));
    AskSteps(asking, Timed);
    WaitSteps(s);
    RunNone(s.(reader := Answering(Nothing)));
    FirstStep(s.(reader := Awake(Timed, Expired)), Read, []);
    FirstStep(s.(reader := Asleep(Timed)), Wake(Expired), [Read]);
    FirstStep(s.(reader := Settling(Timed)), Read, [Wake(Expired), Read]);
    FirstStep(s.(reader := Guarding(Timed)), Read, [Read, Wake(Expired), Read]);
    FirstStep(asking, Read, [Read, Read, Wake(Expired), Read]);
    FirstStep(s, Read, [Read, Read, Read, Wake(Expired), Read]);
    assert [Read] + [] == [Read] && [Wake(Expired)] + [Read] == [Wake(Expired), Read];
    assert [Read] + [Wake(Expired), Read] == [Read, Wake(Expired), Read];
    assert [Read] + [Read, Wake(Expired), Read] == [Read, Read, Wake(Expired), Read];
    assert [Read] + [Read, Read, Wake(Expired), Read] == [Read, Read, Read, Wake(Expired), Read];
    assert [Read] + [Read, Read, Read, Wake(Expired), Read] == [Read, Read, Read, Read, Wake(Expired), Read];
  }

  lemma AskedAlone(s: State, mode: Mode)
    requires s.reader == Looking(mode) && s.queue == [] && (s.shutdown || mode.NonBlocking?)
    ensures RunTo(s, [Read, Read])
         == Some(s.(reader := Answering(if s.shutdown then Failure(false) else Nothing)))
  {
    hide Step;
    LookSteps(s, mode);
    var asking := s.(reader := Asking(mode));
    AskSteps(asking, mode);
    RunNone(Step(asking, Read).value);
    FirstStep(asking, Read, []);
    FirstStep(s, Read, [Read]);
    assert [Read] + [] == [Read] && [Read] + [Read] == [Read, Read];
  }

  /** A read that is left alone and does not block answers the first report if there is
      one, an error if the device was shut down, and that there is nothing otherwise; it
      changes the list only by taking that report. */
  lemma ReadAlone(s: State, mode: Mode)
    requires s.reader == Looking(mode) && !mode.Blocking?
    ensures RunTo(s, Alone(s, mode)).Some?
    ensures var end := RunTo(s, Alone(s, mode)).value;
            && end.reader == Answering(AnswerAlone(s))
            && end.queue == (if s.queue == [] then [] else s.queue[1..])
            && (s.queue == [] ==> end == s.(reader := end.reader))
  {
    hide Step;
    LookSteps(s, mode);
    if s.queue != [] {
      FirstStep(s, Read, []);
      RunNone(Deliver(s));
      assert [Read] + [] == [Read];
    } else if s.shutdown || mode.NonBlocking? {
      AskedAlone(s, mode);
    } else {
      TimedAlone(s);
    }
  }

  /** The reader's steps after it was woken with a report queued. */
  function Woke(mode: Mode): seq<Action> {
    if mode.Timed? then [Read] else [Read, Read]
  }

  /** A read that wakes up with reports queued answers the first of them, whether it waits
      for a time or for ever. */
  lemma WokenAnswers(s: State)
    requires s.reader.Awake? && !s.reader.mode.NonBlocking? && s.queue != []
    requires s.reader.cause.Woken? || s.reader.mode.Blocking?
    ensures RunTo(s, Woke(s.reader.mode)) == Some(Deliver(s))
  {
    AwakeReads(s);
    RunNone(Deliver(s));
    hide Step;
    var next := Step(s, Read).value;
    if s.reader.mode.Timed? {
      FirstStep(s, Read, []);
      assert [Read] + [] == [Read];
    } else {
      FirstStep(next, Read, []);
      FirstStep(s, Read, [Read]);
      assert [Read] + [] == [Read] && [Read] + [Read] == [Read, Read];
    }
  }

  lemma AwakeReads(s: State)
    requires s.reader.Awake? && s.queue != [] && (s.reader.cause.Woken? || s.reader.mode.Blocking?)
    ensures Step(s, Read) == Some(if s.reader.mode.Blocking? then s.(reader := Guarding(Blocking)) else Deliver(s))
    ensures Step(s.(reader := Guarding(Blocking)), Read) == Some(Deliver(s))
  {
  }

  /** A report that arrives while a read sleeps wakes it and is what it answers. */
  lemma WokenByReport(s: State, data: Data, back: Back)
    requires s.reader.Asleep? && !s.reader.mode.NonBlocking? && s.queue == []
    requires s.thread == Called(Completed(data), back)
    ensures var woken := Step(s, RunCallback);
            && woken.Some? && woken.value.reader == Awake(s.reader.mode, Woken)
            && var end := RunTo(woken.value, Woke(s.reader.mode));
               end.Some? && end.value.reader == Answering(Report(data)) && end.value.queue == []
  {
    ReportWakes(s, data, back);
    hide Step;
    WokenAnswers(Step(s, RunCallback).value);
  }

  lemma ReportWakes(s: State, data: Data, back: Back)
    requires s.reader.Asleep? && s.queue == [] && s.thread == Called(Completed(data), back)
    ensures var woken := Step(s, RunCallback);
            woken.Some? && woken.value.reader == Awake(s.reader.mode, Woken) && woken.value.queue == [data]
  {
  }

  // ---- What stops the thread ----

  /** The thread has left its loop and goes on to ask for a cancel. */
  predicate LeftLoop(t: ThreadPc) {
    match t
    case Testing => false
    case Handling(back) => back.ToWait?
    case Called(_, back) => back.ToWait?
    case Stopping(back) => back.ToWait?
    case Resubmitting(back) => back.ToWait?
    case _ => true
  }

  /** The actions by which a device is shut down: a close, a transfer that comes back
      cancelled or without its device, and a failing resubmission. */
  predicate ShutsDown(a: Action) {
    a.Close? || (a.Complete? && (a.status.Cancelled? || a.status.NoDevice?)) || a == Resubmit(false)
  }

  predicate Doomed(t: ThreadPc) {
    t.Called? && (t.status.Cancelled? || t.status.NoDevice?)
  }

  lemma ThreadLeavesLoop(s: State, a: Action)
    requires ThreadStep(s, a).Some?
    ensures LeftLoop(ThreadStep(s, a).value.thread)
        <==> LeftLoop(s.thread) || a.Fatal? || (a.Test? && s.thread.Testing? && s.shutdown)
  {
    hide Receive, Signal;
  }

  lemma ThreadShutsDown(s: State, a: Action)
    requires ThreadStep(s, a).Some?
    ensures ThreadStep(s, a).value.shutdown
        <==> s.shutdown || (Doomed(s.thread) && a.RunCallback?) || a == Resubmit(false)
  {
    hide Receive, Signal;
  }

  lemma ThreadDooms(s: State, a: Action)
    requires ThreadStep(s, a).Some? && Doomed(ThreadStep(s, a).value.thread)
    ensures ShutsDown(a) || Doomed(s.thread)
  {
    hide Receive, Signal;
  }

  lemma ThreadLeaves(s: State, a: Action)
    requires ThreadStep(s, a).Some?
    ensures Leaves(s, a, ThreadStep(s, a).value)
  {
    hide ThreadStep, LeftLoop, Doomed;
    ThreadLeavesLoop(s, a);
    ThreadShutsDown(s, a);
    if Doomed(ThreadStep(s, a).value.thread) {
      ThreadDooms(s, a);
    }
  }

  predicate Leaves(s: State, a: Action, next: State) {
    && (LeftLoop(next.thread) ==> LeftLoop(s.thread) || a.Fatal? || s.shutdown)
    && (LeftLoop(s.thread) || a.Fatal? ==> LeftLoop(next.thread))
    && (next.shutdown || Doomed(next.thread) ==> s.shutdown || Doomed(s.thread) || ShutsDown(a))
    && (s.shutdown ==> next.shutdown)
  }

  lemma StepLeaves(s: State, a: Action)
    requires Step(s, a).Some?
    ensures Leaves(s, a, Step(s, a).value)
  {
    hide ThreadStep, ReaderStep, LeftLoop, Doomed;
    ThreadUntouched(s, a);
    match a
    case Close(_) =>
    case Begin(_) =>
    case Read =>
    case Wake(_) =>
    case _ => ThreadLeaves(s, a);
  }

  lemma {:induction false} RunLeaves(s: State, actions: seq<Action>)
    requires RunTo(s, actions).Some?
    ensures var end := RunTo(s, actions).value;
            && (LeftLoop(end.thread) ==> LeftLoop(s.thread) || end.shutdown || Fatal in actions)
            && (LeftLoop(s.thread) || Fatal in actions ==> LeftLoop(end.thread))
            && (end.shutdown || Doomed(end.thread) ==>
                  s.shutdown || Doomed(s.thread) || exists a <- actions :: ShutsDown(a))
            && (s.shutdown ==> end.shutdown)
    decreases |actions|
  {
    if actions != [] {
      hide Step, LeftLoop, Doomed, ShutsDown;
      StepLeaves(s, actions[0]);
      assert actions[0] in actions && forall a <- actions[1..] :: a in actions;
      assert forall a <- actions :: a == actions[0] || a in actions[1..];
      RunLeaves(Step(s, actions[0]).value, actions[1..]);
    }
  }

  /** In every run: the thread leaves its loop only after a shutdown or a fatal error, and
      for good; and a device is shut down only by a close, by a transfer that comes back
      cancelled or without its device, or by a failing resubmission. */
  lemma ThreadStopsOnlyIf(first: State, actions: seq<Action>)
    requires Init(first) && RunTo(first, actions).Some?
    ensures var s := RunTo(first, actions).value;
            && (LeftLoop(s.thread) ==> s.shutdown || Fatal in actions)
            && (Fatal in actions ==> LeftLoop(s.thread))
            && (s.shutdown ==> exists a <- actions :: ShutsDown(a))
  {
    RunLeaves(first, actions);
  }

  // ---- The cancel request of the closer ----

  /** A close that finds the transfer in flight and whose cancel request is accepted can
      complete with a device that stays, whatever becomes of the thread's own request. */
  lemma AcceptedCloseCompletes(s: State)
    requires Reachable(s) && s.started && s.closer.Signalling? && s.inFlight
    ensures Step(s, Close(true)).Some? && CanExitHealthy(Step(s, Close(true)).value)
  {
    var next := Step(s, Close(true)).value;
    assert next.cancelAsked;
    hide Step, CanExitHealthy;
    StepReaches(s, Close(true));
    CloseCompletesHealthyIff(next);
  }

  lemma StepReaches(s: State, a: Action)
    requires Reachable(s) && Step(s, a).Some?
    ensures Reachable(Step(s, a).value)
  {
    hide Step;
    var first, actions :| Init(first) && RunTo(first, actions) == Some(s);
    RunsJoin(first, actions, [a]);
    FirstStep(s, a, []);
    RunNone(Step(s, a).value);
    assert [a] + [] == [a];
    assert RunTo(first, actions + [a]) == Some(Step(s, a).value);
  }
}
