/** The job queue of a communicator: any number of producers, one consumer thread that
    runs the executor, step by step. Producers and the consumer meet under one mutex;
    a producer still holds it between its push and its notification. */
module JobQueue {
  import opened Bytes
  import opened Framing
  import opened Executor

  datatype Lock = Free | Producer(id: nat) | Consumer

  datatype ConsumerPc =
    | Taking // before locking the mutex in take
    | Testing // holds the mutex, tests for an empty queue
    | Asleep // in the condition wait
    | Waking // out of the wait, wants the mutex
    | Running(job: Job) // in the executor
    | Ended(cut: bool) // interrupted, in the middle of a job or not

  datatype State = State(
    queue: seq<Job>,
    lock: Lock,
    consumer: ConsumerPc,
    put: seq<Job>,
    taken: seq<Job>,
    owned: Owned,
    events: seq<Event>,
    callbacks: seq<Callback>)

  const NOTHING := Owned(false, false)
  const INITIAL := State([], Free, Taking, [], [], NOTHING, [], [])

  /** What the world decides for each job, by its place in the order of execution. */
  type World = nat -> Luck

  datatype Action = Push(id: nat, job: Job) | Notify | Advance | WakeSpuriously | Interrupt | Run

  /** The end of the consumer thread, which destroys the executor. */
  function End(s: State, cut: bool): State {
    s.(consumer := Ended(cut), lock := if s.lock.Consumer? then Free else s.lock,
       owned := NOTHING, events := s.events + Teardown(s.owned))
  }

  /** The running job comes to its end, if it does. */
  function RunStep(s: State, luck: Luck): Option<State>
    requires s.consumer.Running?
  {
    var e := Execute(s.owned, s.consumer.job, luck);
    var after := s.(owned := e.owned, events := s.events + e.events, callbacks := s.callbacks + e.callbacks);
    match e.unfinished
    case None => Some(after.(consumer := Taking))
    case Some(why) => if why.ThreadInterrupted? then Some(End(after, true)) else None
  }

  function Step(s: State, a: Action, world: World): Option<State> {
    match a
    case Push(id, job) =>
      if s.lock.Free? then Some(s.(queue := s.queue + [job], put := s.put + [job], lock := Producer(id))) else None
    case Notify =>
      if s.lock.Producer?
      then Some(s.(lock := Free, consumer := if s.consumer.Asleep? then Waking else s.consumer)) else None
    case Advance =>
      (match s.consumer
       case Testing =>
         if s.queue == [] then Some(s.(consumer := Asleep, lock := Free))
         else
           Some(s.(consumer := Running(s.queue[0]), queue := s.queue[1..],
                   taken := s.taken + [s.queue[0]], lock := Free))
       case Taking => if s.lock.Free? then Some(s.(consumer := Testing, lock := Consumer)) else None
       case Waking => if s.lock.Free? then Some(s.(consumer := Testing, lock := Consumer)) else None
       case _ => None)
    case WakeSpuriously => if s.consumer.Asleep? then Some(s.(consumer := Waking)) else None
    case Interrupt =>
      if (s.consumer.Testing? && s.queue == []) || ((s.consumer.Asleep? || s.consumer.Waking?) && s.lock.Free?)
      then Some(End(s, false)) else None
    case Run => if s.consumer.Running? && s.taken != [] then RunStep(s, world(|s.taken| - 1)) else None
  }

  function RunTo(s: State, actions: seq<Action>, world: World): Option<State>
    decreases |actions|
  {
    if actions == [] then Some(s)
    else
      match Step(s, actions[0], world)
      case None => None
      case Some(next) => RunTo(next, actions[1..], world)
  }

  ghost predicate Reachable(s: State, world: World) {
    exists actions :: RunTo(INITIAL, actions, world) == Some(s)
  }

  /** The jobs that the producers push in a run, in order. */
  function Pushed(actions: seq<Action>): seq<Job> {
    if actions == [] then []
    else (if actions[0].Push? then [actions[0].job] else []) + Pushed(actions[1..])
  }

  /** The jobs whose execution is over. */
  function Finished(s: State): seq<Job> {
    if (s.consumer.Running? || s.consumer == Ended(true)) && s.taken != [] then s.taken[..|s.taken| - 1] else s.taken
  }

  /** Jobs in the order of execution, the first of them at place `base`, with their luck. */
  function Lucky(jobs: seq<Job>, base: nat, world: World): (r: seq<(Job, Luck)>)
    ensures |r| == |jobs|
  {
    seq(|jobs|, i requires 0 <= i < |jobs| => (jobs[i], world(base + i)))
  }

  /** What the executor does with jobs one after the other, from the start. */
  function Sequential(jobs: seq<Job>, world: World): Executed {
    ExecuteAll(NOTHING, Lucky(jobs, 0, world))
  }

  predicate Answered(callbacks: seq<Callback>, jobs: seq<Job>) {
    |callbacks| == |jobs| && forall i :: 0 <= i < |jobs| ==> callbacks[i].id == jobs[i].id
  }

  predicate QueueInv(s: State) {
    && s.put == s.taken + s.queue
    && (s.lock.Consumer? <==> s.consumer.Testing?)
    && (s.consumer.Asleep? ==> s.queue == [] || s.lock.Producer?)
    && (s.consumer.Running? ==> s.taken != [] && s.taken[|s.taken| - 1] == s.consumer.job)
    && (s.consumer == Ended(true) ==> s.taken != [])
  }

  predicate EffectInv(s: State, world: World) {
    var e := Sequential(Finished(s), world);
    && e.unfinished.None? && s.callbacks == e.callbacks
    && (if s.consumer.Ended? then s.owned == NOTHING else s.owned == e.owned && s.events == e.events)
    && (s.owned.channel ==> s.owned.buffer)
    && Alive(NOTHING, s.events) == Some(s.owned)
  }

  predicate Inv(s: State, world: World) {
    QueueInv(s) && EffectInv(s, world)
  }

  // ---- Steps keep the invariant ----

  lemma LuckyAppend(jobs: seq<Job>, base: nat, more: seq<Job>, world: World)
    ensures Lucky(jobs + more, base, world) == Lucky(jobs, base, world) + Lucky(more, base + |jobs|, world)
  {
  }

  lemma {:induction false} SequentialNext(jobs: seq<Job>, job: Job, world: World)
    ensures Sequential(jobs + [job], world)
         == Then(Sequential(jobs, world), Execute(Sequential(jobs, world).owned, job, world(|jobs|)))
  {
    hide Execute, Then;
    var o := Sequential(jobs, world).owned;
    var e := Execute(o, job, world(|jobs|));
    LuckyAppend(jobs, 0, [job], world);
    ExecuteAllSplit(NOTHING, Lucky(jobs, 0, world), Lucky([job], |jobs|, world));
    assert Lucky([job], |jobs|, world) == [(job, world(|jobs|))];
    assert ExecuteAll(e.owned, [(job, world(|jobs|))][1..]) == Executed(e.owned, [], [], None);
    ThenEnd(e);
  }

  lemma ThenEnd(e: Executed)
    ensures Then(e, Executed(e.owned, [], [], None)) == e
  {
    assert e.events + [] == e.events && e.callbacks + [] == e.callbacks;
  }

  lemma EndKeepsAlive(s: State, cut: bool)
    requires Alive(NOTHING, s.events) == Some(s.owned) && (s.owned.channel ==> s.owned.buffer)
    ensures Alive(NOTHING, End(s, cut).events) == Some(NOTHING)
  {
    hide Alive, Teardown;
    TeardownAlive(s.owned);
    AliveSplit(NOTHING, s.events, Teardown(s.owned));
  }

  lemma RunKeepsEffects(s: State, world: World)
    requires Inv(s, world) && s.consumer.Running? && RunStep(s, world(|s.taken| - 1)).Some?
    ensures EffectInv(RunStep(s, world(|s.taken| - 1)).value, world)
  {
    hide Execute, Alive, Sequential, Teardown;
    var job, before, luck := s.consumer.job, s.taken[..|s.taken| - 1], world(|s.taken| - 1);
    assert s.taken == before + [job];
    SequentialNext(before, job, world);
    var e := Execute(s.owned, job, luck);
    ExecuteAlive(s.owned, job, luck);
    ExecuteAnswers(s.owned, job, luck);
    AliveSplit(NOTHING, s.events, e.events);
    if e.unfinished.Some? {
      assert s.callbacks + e.callbacks == s.callbacks;
      EndKeepsAlive(s.(owned := e.owned, events := s.events + e.events), true);
    }
  }

  lemma QueueSteps(s: State, a: Action, world: World)
    requires QueueInv(s) && Step(s, a, world).Some?
    ensures QueueInv(Step(s, a, world).value)
  {
    hide Execute, Teardown;
    if a.Advance? && s.consumer.Testing? && s.queue != [] {
      assert s.queue == [s.queue[0]] + s.queue[1..];
    }
  }

  lemma {:induction false} StepKeepsInv(s: State, a: Action, world: World)
    requires Inv(s, world) && Step(s, a, world).Some?
    ensures Inv(Step(s, a, world).value, world)
  {
    hide Sequential, Alive, Execute, Teardown;
    QueueSteps(s, a, world);
    if a.Run? {
      RunKeepsEffects(s, world);
    } else if a.Interrupt? {
      EndKeepsAlive(s, false);
    } else if a.Advance? && s.consumer.Testing? && s.queue != [] {
      assert (s.taken + [s.queue[0]])[..|s.taken|] == s.taken;
    }
  }

  lemma {:induction false} RunKeepsInv(s: State, actions: seq<Action>, world: World)
    requires Inv(s, world) && RunTo(s, actions, world).Some?
    ensures Inv(RunTo(s, actions, world).value, world)
    decreases |actions|
  {
    if actions != [] {
      hide Inv, Step;
      StepKeepsInv(s, actions[0], world);
      RunKeepsInv(Step(s, actions[0], world).value, actions[1..], world);
    }
  }

  lemma InitialInv(world: World)
    ensures Inv(INITIAL, world)
  {
    assert Lucky([], 0, world) == [];
    assert Alive(NOTHING, []) == Some(NOTHING);
  }

  lemma {:induction false} InvAnswers(s: State, world: World)
    requires Inv(s, world)
    ensures Answered(s.callbacks, Finished(s))
  {
    hide Alive, ExecuteAll;
    OwnershipHolds(NOTHING, Lucky(Finished(s), 0, world));
  }

  lemma StepPuts(s: State, a: Action, world: World)
    requires Step(s, a, world).Some?
    ensures Step(s, a, world).value.put == s.put + if a.Push? then [a.job] else []
  {
    hide Execute, Teardown;
    assert s.put + [] == s.put;
  }

  /** What the queue has been given is what the producers pushed. */
  lemma {:induction false} PutIsPushed(s: State, actions: seq<Action>, world: World)
    requires RunTo(s, actions, world).Some?
    ensures RunTo(s, actions, world).value.put == s.put + Pushed(actions)
    decreases |actions|
  {
    if actions == [] {
      assert s.put + [] == s.put;
    } else {
      hide Step;
      StepPuts(s, actions[0], world);
      var next := Step(s, actions[0], world).value;
      PutIsPushed(next, actions[1..], world);
      var first := if actions[0].Push? then [actions[0].job] else [];
      assert s.put + first + Pushed(actions[1..]) == s.put + (first + Pushed(actions[1..]));
    }
  }

  /** Over all interleavings, for the jobs that the producers pushed in them: none is lost,
      doubled or reordered; the consumer sleeps only when none is waiting or a producer is
      about to notify it; the jobs that are over had exactly one callback each, in order,
      and exactly the effects of running them one after the other; and what the executor
      owns is sound at every moment, and nothing once the thread has ended. */
  lemma EveryRun(actions: seq<Action>, world: World)
    requires RunTo(INITIAL, actions, world).Some?
    ensures var s := RunTo(INITIAL, actions, world).value;
            && Pushed(actions) == s.taken + s.queue
            && (s.consumer.Asleep? ==> s.taken == Pushed(actions) || s.lock.Producer?)
            && (s.consumer.Running? ==> s.taken != [] && s.taken[|s.taken| - 1] == s.consumer.job)
            && Answered(s.callbacks, Finished(s))
            && (!s.consumer.Ended? ==> Executed(s.owned, s.events, s.callbacks, None) == Sequential(Finished(s), world))
            && Alive(NOTHING, s.events) == Some(s.owned) && (s.owned.channel ==> s.owned.buffer)
            && (s.consumer.Ended? ==> s.owned == NOTHING)
  {
    hide Execute, Alive, Step, Sequential;
    var s := RunTo(INITIAL, actions, world).value;
    InitialInv(world);
    RunKeepsInv(INITIAL, actions, world);
    PutIsPushed(INITIAL, actions, world);
    assert [] + Pushed(actions) == Pushed(actions);
    InvAnswers(s, world);
    assert s.queue == [] ==> s.taken + s.queue == s.taken;
  }

  // ---- When every job is answered ----

  /** Steps left until all jobs put so far are answered. */
  function Remaining(s: State): nat {
    4 * |s.queue| + (if s.lock.Producer? then 1 else 0)
    + match s.consumer
      case Testing => 1
      case Running(_) => 3
      case Ended(_) => 0
      case _ => 2
  }

  predicate Busy(s: State) {
    !s.consumer.Ended? && (s.queue != [] || s.consumer.Running?)
  }

  /** The running job, if there is one, comes back. */
  predicate JobReturns(s: State, world: World) {
    s.consumer.Running? && s.taken != [] ==> Execute(s.owned, s.consumer.job, world(|s.taken| - 1)).unfinished.None?
  }

  /** While a job is waiting or running, some step other than a new push can happen,
      provided that the running job comes back. */
  lemma NeverStuck(s: State, world: World)
    requires QueueInv(s) && Busy(s) && JobReturns(s, world)
    ensures Step(s, Notify, world).Some? || Step(s, Advance, world).Some? || Step(s, Run, world).Some?
  {
    hide Execute;
  }

  /** While a job is waiting or running, every step but a push and a spurious wake-up
      leaves less to do, whether jobs succeed or fail. */
  lemma StepsAdvance(s: State, a: Action, world: World)
    requires QueueInv(s) && Busy(s) && Step(s, a, world).Some? && !a.Push? && !a.WakeSpuriously?
    ensures Remaining(Step(s, a, world).value) < Remaining(s) && Step(s, a, world).value.put == s.put
  {
    hide Execute, Teardown;
  }

  /** The jobs put and not yet over, from place |Finished(s)| on. */
  function Left(s: State): seq<Job> {
    (if s.consumer.Running? then [s.consumer.job] else []) + s.queue
  }

  /** The executor, run on the jobs left one after the other, comes back from each. */
  predicate AllReturn(s: State, world: World) {
    ExecuteAll(s.owned, Lucky(Left(s), |Finished(s)|, world)).unfinished.None?
  }

  /** Some further run, without a push, answers exactly the given jobs. */
  ghost predicate CanAnswer(s: State, jobs: seq<Job>, world: World) {
    exists more ::
      Pushed(more) == [] && RunTo(s, more, world).Some? && Answered(RunTo(s, more, world).value.callbacks, jobs)
  }

  lemma {:induction false} LeftSplit(s: State, world: World)
    requires Inv(s, world) && !s.consumer.Ended?
    ensures s.put == Finished(s) + Left(s)
    ensures AllReturn(s, world) <==> Sequential(s.put, world).unfinished.None?
  {
    hide ExecuteAll, Alive;
    assert s.put == Finished(s) + Left(s);
    LuckyAppend(Finished(s), 0, Left(s), world);
    ExecuteAllSplit(NOTHING, Lucky(Finished(s), 0, world), Lucky(Left(s), |Finished(s)|, world));
  }

  lemma {:induction false} AllReturnStep(s: State, world: World)
    requires AllReturn(s, world) && s.consumer.Running? && QueueInv(s)
    ensures JobReturns(s, world)
  {
    hide Execute;
    var jobs := Lucky(Left(s), |Finished(s)|, world);
    assert jobs[0] == (s.consumer.job, world(|s.taken| - 1));
  }

  lemma {:induction false} AnsweredAll(s: State, world: World)
    requires Inv(s, world) && AllReturn(s, world) && !s.consumer.Ended?
    ensures CanAnswer(s, s.put, world)
    decreases Remaining(s)
  {
    if !Busy(s) {
      assert s.put == s.taken;
      InvAnswers(s, world);
      assert RunTo(s, [], world) == Some(s);
      assert Pushed([]) == [];
    } else {
      if s.consumer.Running? {
        AllReturnStep(s, world);
      }
      NeverStuck(s, world);
      var a := if Step(s, Notify, world).Some? then Notify else if Step(s, Advance, world).Some? then Advance else Run;
      var next := Step(s, a, world).value;
      StepsAdvance(s, a, world);
      StepKeepsInv(s, a, world);
      assert !next.consumer.Ended?;
      LeftSplit(s, world);
      LeftSplit(next, world);
      hide Step, Inv, Busy, Remaining, AllReturn, Sequential;
      AnsweredAll(next, world);
      var more :| Pushed(more) == [] && RunTo(next, more, world).Some?
                  && Answered(RunTo(next, more, world).value.callbacks, s.put);
      assert ([a] + more)[0] == a && ([a] + more)[1..] == more;
      assert RunTo(s, [a] + more, world) == RunTo(next, more, world);
      assert Pushed([a] + more) == [];
    }
  }

  lemma EndedStep(s: State, a: Action, world: World)
    requires s.consumer.Ended? && Step(s, a, world).Some?
    ensures Step(s, a, world).value.consumer.Ended? && Step(s, a, world).value.callbacks == s.callbacks
  {
  }

  lemma {:induction false} EndedStays(s: State, actions: seq<Action>, world: World)
    requires s.consumer.Ended? && RunTo(s, actions, world).Some?
    ensures RunTo(s, actions, world).value.callbacks == s.callbacks
    decreases |actions|
  {
    if actions != [] {
      hide Step;
      EndedStep(s, actions[0], world);
      EndedStays(Step(s, actions[0], world).value, actions[1..], world);
    }
  }

  lemma {:induction false} AnsweredReturn(s: State, world: World)
    requires Inv(s, world) && Answered(s.callbacks, s.put)
    ensures Sequential(s.put, world).unfinished.None?
  {
    hide Sequential, Alive;
    InvAnswers(s, world);
    assert Finished(s) == s.put;
  }

  /** Everything that the producers pushed can be answered, in order, exactly when the
      executor comes back from each of those jobs, run one after the other, whether they
      succeed or fail; once the thread has ended, exactly when all were answered before. */
  lemma AllAnswered(actions: seq<Action>, world: World)
    requires RunTo(INITIAL, actions, world).Some?
    ensures var s := RunTo(INITIAL, actions, world).value;
            CanAnswer(s, Pushed(actions), world) <==>
              if s.consumer.Ended? then Answered(s.callbacks, Pushed(actions))
              else Sequential(Pushed(actions), world).unfinished.None?
  {
    hide Step, Sequential, Alive, AllReturn;
    var s := RunTo(INITIAL, actions, world).value;
    InitialInv(world);
    RunKeepsInv(INITIAL, actions, world);
    PutIsPushed(INITIAL, actions, world);
    assert [] + Pushed(actions) == Pushed(actions);
    if CanAnswer(s, s.put, world) {
      var more :| Pushed(more) == [] && RunTo(s, more, world).Some?
                  && Answered(RunTo(s, more, world).value.callbacks, s.put);
      if s.consumer.Ended? {
        EndedStays(s, more, world);
      } else {
        RunKeepsInv(s, more, world);
        PutIsPushed(s, more, world);
        assert s.put + [] == s.put;
        AnsweredReturn(RunTo(s, more, world).value, world);
      }
    } else if s.consumer.Ended? {
      assert RunTo(s, [], world) == Some(s);
      assert Pushed([]) == [];
    } else if Sequential(s.put, world).unfinished.None? {
      LeftSplit(s, world);
      AnsweredAll(s, world);
    }
  }

  // ---- Producers are never kept out ----

  /** A producer's two steps for each job. */
  function Puts(jobs: seq<Job>): seq<Action> {
    if jobs == [] then [] else [Push(0, jobs[0]), Notify] + Puts(jobs[1..])
  }

  lemma {:induction false} PutsRun(s: State, jobs: seq<Job>, world: World)
    requires s.lock.Free?
    ensures RunTo(s, Puts(jobs), world).Some? && RunTo(s, Puts(jobs), world).value.lock.Free?
    ensures RunTo(s, Puts(jobs), world).value.consumer.Ended? <==> s.consumer.Ended?
    ensures Pushed(Puts(jobs)) == jobs
    decreases |jobs|
  {
    if jobs != [] {
      hide Execute;
      var s1 := Step(s, Push(0, jobs[0]), world).value;
      var s2 := Step(s1, Notify, world).value;
      PutsRun(s2, jobs[1..], world);
      var rest := [Notify] + Puts(jobs[1..]);
      assert Puts(jobs)[1..] == rest && rest[1..] == Puts(jobs[1..]);
      assert RunTo(s1, rest, world) == RunTo(s2, Puts(jobs[1..]), world);
      assert Pushed(rest) == [] + Pushed(Puts(jobs[1..])) == jobs[1..];
      assert Pushed(Puts(jobs)) == [jobs[0]] + Pushed(rest);
      assert jobs == [jobs[0]] + jobs[1..];
    }
  }

  /** So any jobs at all can be pushed and, when they come back, are answered in order. */
  lemma AnyJobsAnswered(jobs: seq<Job>, world: World)
    requires Sequential(jobs, world).unfinished.None?
    ensures exists actions ::
              && Pushed(actions) == jobs && RunTo(INITIAL, actions, world).Some?
              && CanAnswer(RunTo(INITIAL, actions, world).value, jobs, world)
  {
    hide Sequential, CanAnswer;
    PutsRun(INITIAL, jobs, world);
    AllAnswered(Puts(jobs), world);
  }

  // ---- Interruption ----

  /** A running call that is interrupted ends its thread, without a callback and with
      nothing left open. */
  lemma InterruptedCallEnds(actions: seq<Action>, world: World)
    requires RunTo(INITIAL, actions, world).Some?
    requires var s := RunTo(INITIAL, actions, world).value;
             s.consumer.Running? && s.taken != [] &&
             Execute(s.owned, s.consumer.job, world(|s.taken| - 1)).unfinished == Some(ThreadInterrupted)
    ensures var s := RunTo(INITIAL, actions, world).value; var next := Step(s, Run, world);
            && next.Some? && next.value.consumer.Ended? && next.value.callbacks == s.callbacks
            && Alive(NOTHING, next.value.events) == Some(NOTHING) && next.value.queue == s.queue
  {
    hide Execute, Alive, Sequential, Teardown;
    var s := RunTo(INITIAL, actions, world).value;
    InitialInv(world);
    RunKeepsInv(INITIAL, actions, world);
    ExecuteAnswers(s.owned, s.consumer.job, world(|s.taken| - 1));
    StepKeepsInv(s, Run, world);
  }

  /** An idle consumer that is interrupted ends, with nothing left open. */
  lemma IdleInterruptEnds(actions: seq<Action>, world: World)
    requires RunTo(INITIAL, actions, world).Some?
    requires var s := RunTo(INITIAL, actions, world).value;
             (s.consumer.Asleep? || s.consumer.Waking?) && s.lock.Free?
    ensures var s := RunTo(INITIAL, actions, world).value; var next := Step(s, Interrupt, world);
            && next.Some? && next.value.consumer == Ended(false) && next.value.callbacks == s.callbacks
            && Alive(NOTHING, next.value.events) == Some(NOTHING) && next.value.queue == s.queue
  {
    hide Execute, Alive, Sequential, Teardown;
    InitialInv(world);
    RunKeepsInv(INITIAL, actions, world);
    StepKeepsInv(RunTo(INITIAL, actions, world).value, Interrupt, world);
  }
}
