/** The whole plugin: a table of communicators, each with its path, its queue and its
    executor, in any interleaving with the lookups that make it grow. */
module Plugin {
  import opened Bytes
  import opened Executor
  import JobQueue

  datatype Entry = Entry(path: string, state: JobQueue.State)

  /** The table, and every executor event in the order in which they happened. */
  datatype State = State(table: seq<Entry>, log: seq<(string, Event)>)

  const INITIAL := State([], [])

  /** What the world decides for the jobs of each path. */
  type Worlds = string -> JobQueue.World

  datatype Action = Ask(path: string) | At(index: nat, action: JobQueue.Action)

  function Paths(table: seq<Entry>): (paths: seq<string>)
    ensures |paths| == |table|
  {
    seq(|table|, i requires 0 <= i < |table| => table[i].path)
  }

  function Tagged(path: string, events: seq<Event>): (r: seq<(string, Event)>)
    ensures |r| == |events|
  {
    seq(|events|, i requires 0 <= i < |events| => (path, events[i]))
  }

  /** What a step of a communicator adds to its events. */
  function News(s: JobQueue.State, next: JobQueue.State): seq<Event> {
    if |s.events| <= |next.events| then next.events[|s.events|..] else []
  }

  function Step(s: State, a: Action, worlds: Worlds): Option<State> {
    match a
    case Ask(path) =>
      Some(if path in Paths(s.table) then s else s.(table := s.table + [Entry(path, JobQueue.INITIAL)]))
    case At(i, action) =>
      if |s.table| <= i then None
      else
        var entry := s.table[i];
        match JobQueue.Step(entry.state, action, worlds(entry.path))
        case None => None
        case Some(next) =>
          Some(State(s.table[i := entry.(state := next)], s.log + Tagged(entry.path, News(entry.state, next))))
  }

  function RunTo(s: State, actions: seq<Action>, worlds: Worlds): Option<State>
    decreases |actions|
  {
    if actions == [] then Some(s)
    else
      match Step(s, actions[0], worlds)
      case None => None
      case Some(next) => RunTo(next, actions[1..], worlds)
  }

  ghost predicate Reachable(s: State, worlds: Worlds) {
    exists actions :: RunTo(INITIAL, actions, worlds) == Some(s)
  }

  /** The events of one path, in order. */
  function EventsOf(log: seq<(string, Event)>, path: string): seq<Event> {
    if log == [] then [] else (if log[0].0 == path then [log[0].1] else []) + EventsOf(log[1..], path)
  }

  ghost predicate Distinct(table: seq<Entry>) {
    forall i, j :: 0 <= i < |table| && 0 <= j < |table| && table[i].path == table[j].path ==> i == j
  }

  ghost predicate LogInv(s: State) {
    && (forall i :: 0 <= i < |s.table| ==> EventsOf(s.log, s.table[i].path) == s.table[i].state.events)
    && (forall path :: path !in Paths(s.table) ==> EventsOf(s.log, path) == [])
  }

  ghost predicate Inv(s: State, worlds: Worlds) {
    && Distinct(s.table)
    && (forall i :: 0 <= i < |s.table| ==> JobQueue.Reachable(s.table[i].state, worlds(s.table[i].path)))
    && LogInv(s)
  }

  lemma {:induction false} EventsOfSplit(a: seq<(string, Event)>, b: seq<(string, Event)>, path: string)
    ensures EventsOf(a + b, path) == EventsOf(a, path) + EventsOf(b, path)
  {
    if a == [] {
      assert a + b == b;
    } else {
      assert (a + b)[1..] == a[1..] + b && (a + b)[0] == a[0];
      EventsOfSplit(a[1..], b, path);
      var first := if a[0].0 == path then [a[0].1] else [];
      assert first + (EventsOf(a[1..], path) + EventsOf(b, path)) == first + EventsOf(a[1..], path) + EventsOf(b, path);
    }
  }

  lemma {:induction false} EventsOfTagged(path: string, events: seq<Event>, other: string)
    ensures EventsOf(Tagged(path, events), other) == if other == path then events else []
  {
    if events != [] {
      assert Tagged(path, events)[1..] == Tagged(path, events[1..]);
      EventsOfTagged(path, events[1..], other);
      assert events == [events[0]] + events[1..];
    }
  }

  lemma EventsGrow(s: JobQueue.State, a: JobQueue.Action, world: JobQueue.World)
    requires JobQueue.Step(s, a, world).Some?
    ensures var next := JobQueue.Step(s, a, world).value; next.events == s.events + News(s, next)
  {
    hide Execute, Teardown;
    assert s.events + [] == s.events;
  }

  lemma {:induction false} RunsOn(s: JobQueue.State, actions: seq<JobQueue.Action>, last: JobQueue.Action,
                                  world: JobQueue.World)
    requires JobQueue.RunTo(s, actions, world).Some?
    ensures JobQueue.RunTo(s, actions + [last], world)
              == JobQueue.Step(JobQueue.RunTo(s, actions, world).value, last, world)
    decreases |actions|
  {
    hide JobQueue.Step;
    if actions == [] {
      assert actions + [last] == [last] && [last][1..] == [];
      if JobQueue.Step(s, last, world).Some? {
        assert JobQueue.RunTo(JobQueue.Step(s, last, world).value, [], world) == JobQueue.Step(s, last, world);
      }
    } else {
      assert (actions + [last])[1..] == actions[1..] + [last] && (actions + [last])[0] == actions[0];
      RunsOn(JobQueue.Step(s, actions[0], world).value, actions[1..], last, world);
    }
  }

  lemma StepReaches(s: JobQueue.State, a: JobQueue.Action, world: JobQueue.World)
    requires JobQueue.Reachable(s, world) && JobQueue.Step(s, a, world).Some?
    ensures JobQueue.Reachable(JobQueue.Step(s, a, world).value, world)
  {
    hide JobQueue.Step;
    var actions :| JobQueue.RunTo(JobQueue.INITIAL, actions, world) == Some(s);
    RunsOn(JobQueue.INITIAL, actions, a, world);
  }

  lemma InitialReachable(world: JobQueue.World)
    ensures JobQueue.Reachable(JobQueue.INITIAL, world)
  {
    assert JobQueue.RunTo(JobQueue.INITIAL, [], world) == Some(JobQueue.INITIAL);
  }

  lemma AskKeepsInv(s: State, path: string, worlds: Worlds)
    requires Inv(s, worlds)
    ensures Inv(Step(s, Ask(path), worlds).value, worlds)
  {
    hide JobQueue.Reachable;
    var next := Step(s, Ask(path), worlds).value;
    if path !in Paths(s.table) {
      assert forall i :: 0 <= i < |s.table| ==> Paths(s.table)[i] == s.table[i].path;
      assert Paths(next.table) == Paths(s.table) + [path];
      InitialReachable(worlds(path));
    }
  }

  lemma AtKeepsLog(s: State, i: nat, action: JobQueue.Action, worlds: Worlds)
    requires Distinct(s.table) && LogInv(s) && Step(s, At(i, action), worlds).Some?
    ensures LogInv(Step(s, At(i, action), worlds).value)
  {
    hide JobQueue.Step, EventsOf;
    var entry, next := s.table[i], Step(s, At(i, action), worlds).value;
    var news := News(entry.state, next.table[i].state);
    EventsGrow(entry.state, action, worlds(entry.path));
    assert Paths(next.table) == Paths(s.table);
    assert Paths(s.table)[i] == entry.path;
    forall path ensures EventsOf(next.log, path) == EventsOf(s.log, path) + if path == entry.path then news else [] {
      EventsOfSplit(s.log, Tagged(entry.path, news), path);
      EventsOfTagged(entry.path, news, path);
    }
    forall j | 0 <= j < |next.table| ensures EventsOf(next.log, next.table[j].path) == next.table[j].state.events {
      assert next.table[j].path == s.table[j].path;
      assert s.table[j].state.events + [] == s.table[j].state.events;
    }
  }

  lemma StepKeepsInv(s: State, a: Action, worlds: Worlds)
    requires Inv(s, worlds) && Step(s, a, worlds).Some?
    ensures Inv(Step(s, a, worlds).value, worlds)
  {
    hide JobQueue.Reachable, JobQueue.Step, LogInv;
    match a
    case Ask(path) => AskKeepsInv(s, path, worlds);
    case At(i, action) =>
      AtKeepsLog(s, i, action, worlds);
      StepReaches(s.table[i].state, action, worlds(s.table[i].path));
  }

  lemma {:induction false} RunKeepsInv(s: State, actions: seq<Action>, worlds: Worlds)
    requires Inv(s, worlds) && RunTo(s, actions, worlds).Some?
    ensures Inv(RunTo(s, actions, worlds).value, worlds)
    decreases |actions|
  {
    if actions != [] {
      hide Inv, Step;
      StepKeepsInv(s, actions[0], worlds);
      RunKeepsInv(Step(s, actions[0], worlds).value, actions[1..], worlds);
    }
  }

  lemma ReachableInv(s: State, worlds: Worlds)
    requires Reachable(s, worlds)
    ensures Inv(s, worlds)
  {
    var actions :| RunTo(INITIAL, actions, worlds) == Some(s);
    RunKeepsInv(INITIAL, actions, worlds);
  }

  ghost predicate OpenAt(s: State, i: nat, path: string)
    requires i < |s.table|
  {
    s.table[i].path == path && s.table[i].state.owned.channel
  }

  /** In every interleaving of lookups with the steps of all producers and consumers, at
      most one entry of the table has a channel open for a given device path. */
  lemma OneChannelPerPath(s: State, worlds: Worlds, path: string, i: nat, j: nat)
    requires Reachable(s, worlds) && i < |s.table| && j < |s.table|
    requires OpenAt(s, i, path) && OpenAt(s, j, path)
    ensures i == j
  {
    ReachableInv(s, worlds);
  }

  /** And the history of every path is sound: on no path was a channel opened while one
      was open, nor a buffer freed under a channel, whoever did it; what the path's
      communicator owns now is what that history leaves. */
  lemma HistoryOfPathSound(s: State, worlds: Worlds, path: string)
    requires Reachable(s, worlds)
    ensures match Alive(Owned(false, false), EventsOf(s.log, path))
            case None => false
            case Some(owned) =>
              && (owned.channel ==> owned.buffer)
              && forall i :: 0 <= i < |s.table| && s.table[i].path == path ==> s.table[i].state.owned == owned
  {
    hide Alive, JobQueue.Step, EventsOf;
    ReachableInv(s, worlds);
    assert forall i :: 0 <= i < |s.table| ==> Paths(s.table)[i] == s.table[i].path;
    if path in Paths(s.table) {
      var i :| 0 <= i < |s.table| && Paths(s.table)[i] == path;
      var actions :| JobQueue.RunTo(JobQueue.INITIAL, actions, worlds(path)) == Some(s.table[i].state);
      JobQueue.EveryRun(actions, worlds(path));
    } else {
      AliveNone();
    }
  }

  lemma AliveNone()
    ensures Alive(Owned(false, false), []) == Some(Owned(false, false))
  {
  }

  lemma PathsAsked(s: State, path: string, worlds: Worlds)
    ensures Paths(Step(s, Ask(path), worlds).value.table) == Asked(Paths(s.table), path)
  {
    if path !in Paths(s.table) {
      assert Paths(s.table + [Entry(path, JobQueue.INITIAL)]) == Paths(s.table) + [path];
    }
  }

  function Lifted(i: nat, actions: seq<JobQueue.Action>): seq<Action> {
    if actions == [] then [] else [At(i, actions[0])] + Lifted(i, actions[1..])
  }

  /** No communicator keeps another from running: whatever one of them can do by itself it
      can do in the table, and it leaves the others alone. */
  lemma {:induction false} EntryRunsFreely(s: State, i: nat, actions: seq<JobQueue.Action>, worlds: Worlds)
    requires i < |s.table| && JobQueue.RunTo(s.table[i].state, actions, worlds(s.table[i].path)).Some?
    ensures var end := RunTo(s, Lifted(i, actions), worlds);
            end.Some? && end.value.table
                         == s.table[i := Entry(s.table[i].path,
                                               JobQueue.RunTo(s.table[i].state, actions,
                                                              worlds(s.table[i].path)).value)]
    decreases |actions|
  {
    hide JobQueue.Step, News, Tagged;
    if actions != [] {
      var next := Step(s, At(i, actions[0]), worlds).value;
      EntryRunsFreely(next, i, actions[1..], worlds);
      assert Lifted(i, actions)[1..] == Lifted(i, actions[1..]);
    }
  }
}
