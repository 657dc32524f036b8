/** The executor of device jobs, which owns a buffer and a channel that borrows it, and
    the plugin's table of communicators. */
module Executor {
  import opened Bytes
  import opened Reports
  import opened Framing
  import opened Delivery
  import opened Sending
  import opened HidBuffer

  /** A call's request is None when the message cannot be built from the caller's map. */
  datatype Job =
    | CloseJob(id: nat)
    | OpenJob(id: nat)
    | CallJob(id: nat, useTimeout: bool, request: Option<Message>)

  datatype Callback = Success(id: nat, reply: Option<Message>) | Error(id: nat)

  // ---- Ownership on values ----

  datatype Owned = Owned(buffer: bool, channel: bool)

  datatype Event = BufferMade | ChannelOpened | ChannelClosed | BufferFreed

  /** Why a call is not over: it is still polling, it was interrupted, which ends the
      thread, or it has stored past the array and has no defined behaviour. */
  datatype Unfinished = StillPolling | ThreadInterrupted | Undefined

  /** What an exchange over a channel comes to; Raised stands for every exception that is
      reported to the caller. */
  datatype Outcome = Replied(reply: Message) | Raised | Open(why: Unfinished)

  /** What the world decides for one job: whether opening the device would succeed, and
      what the exchange over the channel would come to. */
  datatype Luck = Luck(opens: bool, outcome: Outcome)

  datatype Executed = Executed(owned: Owned, events: seq<Event>, callbacks: seq<Callback>,
      unfinished: Option<Unfinished>)

  /** Makes buffer and channel where they are missing. */
  function Prepare(o: Owned, opens: bool): (Owned, seq<Event>) {
    var made := if o.buffer then [] else [BufferMade];
    if o.channel then (o.(buffer := true), made)
    else if opens then (Owned(true, true), made + [ChannelOpened])
    else (Owned(true, false), made)
  }

  /** Dropping the channel, then the buffer, as closing does and as the destructor of the
      executor does. */
  function Teardown(o: Owned): seq<Event> {
    (if o.channel then [ChannelClosed] else []) + (if o.buffer then [BufferFreed] else [])
  }

  function Execute(o: Owned, job: Job, luck: Luck): Executed {
    match job
    case CloseJob(id) => Executed(Owned(false, false), Teardown(o), [Success(id, None)], None)
    case OpenJob(id) =>
      var (ready, events) := Prepare(o, luck.opens);
      Executed(ready, events, [if ready.channel then Success(id, None) else Error(id)], None)
    case CallJob(id, _, _) =>
      var (ready, events) := Prepare(o, luck.opens);
      if !ready.channel then Executed(ready, events, [Error(id)], None)
      else
        match luck.outcome
        case Replied(reply) => Executed(ready, events, [Success(id, Some(reply))], None)
        case Raised => Executed(ready, events, [Error(id)], None)
        case Open(why) => Executed(ready, events, [], Some(why))
  }

  /** What is alive after the events, or None when one of them comes at the wrong time:
      a second buffer or channel, a channel without a buffer, or a buffer freed while a
      channel still borrows it. */
  function Alive(o: Owned, events: seq<Event>): Option<Owned>
    decreases |events|
  {
    if events == [] then Some(o)
    else
      match events[0]
      case BufferMade => if o.buffer then None else Alive(o.(buffer := true), events[1..])
      case ChannelOpened => if o.channel || !o.buffer then None else Alive(o.(channel := true), events[1..])
      case ChannelClosed => if !o.channel || !o.buffer then None else Alive(o.(channel := false), events[1..])
      case BufferFreed => if o.channel || !o.buffer then None else Alive(o.(buffer := false), events[1..])
  }

  lemma {:induction false} AliveSplit(o: Owned, a: seq<Event>, b: seq<Event>)
    ensures Alive(o, a + b) == match Alive(o, a) case None => None case Some(mid) => Alive(mid, b)
    decreases |a|
  {
    if a == [] {
      assert a + b == b;
    } else {
      assert (a + b)[1..] == a[1..] + b;
      match a[0]
      case BufferMade => if !o.buffer { AliveSplit(o.(buffer := true), a[1..], b); }
      case ChannelOpened => if !o.channel && o.buffer { AliveSplit(o.(channel := true), a[1..], b); }
      case ChannelClosed => if o.channel && o.buffer { AliveSplit(o.(channel := false), a[1..], b); }
      case BufferFreed => if !o.channel && o.buffer { AliveSplit(o.(buffer := false), a[1..], b); }
    }
  }

  /** What comes first and, when that is over, the rest. */
  function Then(first: Executed, rest: Executed): Executed {
    if first.unfinished.Some? then first
    else rest.(events := first.events + rest.events, callbacks := first.callbacks + rest.callbacks)
  }

  /** The jobs one after the other, up to the first that is not over. */
  function ExecuteAll(o: Owned, jobs: seq<(Job, Luck)>): Executed
    decreases |jobs|
  {
    if jobs == [] then Executed(o, [], [], None)
    else
      var first := Execute(o, jobs[0].0, jobs[0].1);
      Then(first, ExecuteAll(first.owned, jobs[1..]))
  }

  lemma TeardownAlive(o: Owned)
    requires o.channel ==> o.buffer
    ensures Alive(o, Teardown(o)) == Some(Owned(false, false))
  {
    var e := Teardown(o);
    if o.channel {
      assert e[1..][1..] == [] && e[1..] == [BufferFreed];
      assert Alive(Owned(false, false), []).Some?;
      assert Alive(Owned(true, false), e[1..]) == Some(Owned(false, false));
    } else if o.buffer {
      assert e[1..] == [];
    }
  }

  lemma ExecuteAlive(o: Owned, job: Job, luck: Luck)
    requires o.channel ==> o.buffer
    ensures var e := Execute(o, job, luck);
            (e.owned.channel ==> e.owned.buffer) && Alive(o, e.events) == Some(e.owned)
  {
    if job.CloseJob? {
      TeardownAlive(o);
    } else {
      var e := Prepare(o, luck.opens).1;
      if |e| == 2 {
        assert e[1..][1..] == [];
        assert Alive(Execute(o, job, luck).owned, e[1..][1..]).Some?;
      } else if |e| == 1 {
        assert e[1..] == [];
      }
    }
  }

  /** A job is answered by one callback when it is over and by none before; only a call
      over an open channel can fail to come back. */
  lemma ExecuteAnswers(o: Owned, job: Job, luck: Luck)
    ensures var e := Execute(o, job, luck);
            && |e.callbacks| == (if e.unfinished.None? then 1 else 0)
            && (e.callbacks != [] ==> e.callbacks[0].id == job.id)
            && (e.unfinished.Some? ==> job.CallJob? && e.owned.channel && luck.outcome == Open(e.unfinished.value))
  {
  }

  predicate AnswersInOrder(callbacks: seq<Callback>, jobs: seq<(Job, Luck)>) {
    |callbacks| <= |jobs| && forall i :: 0 <= i < |callbacks| ==> callbacks[i].id == jobs[i].0.id
  }

  /** Over all job sequences, failed opens included: a live channel always has a live
      buffer, closing drops the channel before the buffer, never are there two of either,
      and each job is answered by exactly one callback, in order, up to the first that
      does not come back. */
  lemma {:induction false} OwnershipHolds(o: Owned, jobs: seq<(Job, Luck)>)
    requires o.channel ==> o.buffer
    ensures var e := ExecuteAll(o, jobs);
            && Alive(o, e.events) == Some(e.owned)
            && (e.owned.channel ==> e.owned.buffer)
            && AnswersInOrder(e.callbacks, jobs)
            && (|e.callbacks| == |jobs| <==> e.unfinished.None?)
            && (e.unfinished.Some? ==> jobs[|e.callbacks|].0.CallJob?)
    decreases |jobs|
  {
    if jobs != [] {
      hide Execute, Alive;
      var first := Execute(o, jobs[0].0, jobs[0].1);
      ExecuteAlive(o, jobs[0].0, jobs[0].1);
      ExecuteAnswers(o, jobs[0].0, jobs[0].1);
      if first.unfinished.None? {
        OwnershipHolds(first.owned, jobs[1..]);
        AliveSplit(o, first.events, ExecuteAll(first.owned, jobs[1..]).events);
      }
    } else {
      assert Alive(o, []) == Some(o);
    }
  }

  lemma ThenAssociates(a: Executed, b: Executed, c: Executed)
    ensures Then(a, Then(b, c)) == Then(Then(a, b), c)
  {
    assert a.events + (b.events + c.events) == a.events + b.events + c.events;
    assert a.callbacks + (b.callbacks + c.callbacks) == a.callbacks + b.callbacks + c.callbacks;
  }

  lemma ThenNone(o: Owned, e: Executed)
    ensures Then(Executed(o, [], [], None), e) == e
  {
    assert [] + e.events == e.events && [] + e.callbacks == e.callbacks;
  }

  lemma {:induction false} ExecuteAllSplit(o: Owned, a: seq<(Job, Luck)>, b: seq<(Job, Luck)>)
    ensures ExecuteAll(o, a + b) == Then(ExecuteAll(o, a), ExecuteAll(ExecuteAll(o, a).owned, b))
    decreases |a|
  {
    if a == [] {
      assert a + b == b;
      ThenNone(o, ExecuteAll(o, b));
    } else {
      hide Execute;
      assert (a + b)[1..] == a[1..] + b && (a + b)[0] == a[0];
      var head := Execute(o, a[0].0, a[0].1);
      var mid := ExecuteAll(head.owned, a[1..]);
      ExecuteAllSplit(head.owned, a[1..], b);
      ThenAssociates(head, mid, ExecuteAll(mid.owned, b));
    }
  }

  // ---- What each kind of job leaves behind ----

  /** After any jobs that come back, a close leaves neither channel nor buffer, whatever
      was there, and reports success. */
  lemma CloseLeavesNothing(o: Owned, jobs: seq<(Job, Luck)>, id: nat, luck: Luck)
    requires (o.channel ==> o.buffer) && ExecuteAll(o, jobs).unfinished.None?
    ensures var e := ExecuteAll(o, jobs + [(CloseJob(id), luck)]);
            && Alive(o, e.events) == Some(Owned(false, false))
            && |e.callbacks| == |jobs| + 1 && e.callbacks[|jobs|] == Success(id, None)
  {
    hide Alive;
    var last := [(CloseJob(id), luck)];
    var mid := ExecuteAll(o, jobs);
    OwnershipHolds(o, jobs);
    ExecuteAllSplit(o, jobs, last);
    OwnershipHolds(o, jobs + last);
    assert last[1..] == [];
    assert ExecuteAll(Execute(mid.owned, CloseJob(id), luck).owned, last[1..]).callbacks == [];
  }

  /** After an open job the buffer is there, and the channel is open exactly when it was
      before or the device can be opened; that is what the callback says. */
  lemma OpenAnswers(o: Owned, id: nat, luck: Luck)
    requires o.channel ==> o.buffer
    ensures var e := Execute(o, OpenJob(id), luck); var after := Alive(o, e.events);
            && after == Some(Owned(true, o.channel || luck.opens))
            && e.callbacks == [if o.channel || luck.opens then Success(id, None) else Error(id)]
  {
    hide Alive;
    ExecuteAlive(o, OpenJob(id), luck);
  }

  /** A call job opens in the same way. Its callback is a success exactly when a channel
      is open and a reply came over it, and carries that reply; it is an error exactly
      when there is no channel or an exception was raised. */
  lemma CallAnswers(o: Owned, job: Job, luck: Luck)
    requires (o.channel ==> o.buffer) && job.CallJob?
    ensures var e := Execute(o, job, luck); var open := o.channel || luck.opens;
            && Alive(o, e.events) == Some(Owned(true, open))
            && (forall reply :: e.callbacks == [Success(job.id, Some(reply))] <==>
                open && luck.outcome == Replied(reply))
            && (e.callbacks == [Error(job.id)] <==> !open || luck.outcome.Raised?)
            && (e.callbacks == [] <==> open && luck.outcome.Open?)
  {
    hide Alive;
    ExecuteAlive(o, job, luck);
  }

  // ---- One exchange ----

  function OutcomeOf(fault: Fault): Outcome {
    match fault
    case Pending => Open(StillPolling)
    case Interrupted => Open(ThreadInterrupted)
    case Overrun => Open(Undefined)
    case _ => Raised
  }

  /** What an exchange over a link comes to: the request is sent whole as far as the
      results tell, and the next message is read and can be rendered for the caller. */
  function Exchange(request: Option<Message>, link: Link, results: seq<WriteResult>, host: Host, known: set<uint16>,
                    s: Settings, renders: Message -> bool): Outcome
  {
    if request.None? || !Send(Chunks(Frame(host, request.value)), results).ok then Raised
    else
      match ReadMessage(link, host, known, s)
      case Ok(m, _) => if renders(m) then Replied(m) else Raised
      case Err(fault, _) => OutcomeOf(fault)
  }

  /** The reports of the request that the device takes, and what the exchange leaves of the
      link: nothing is read before the whole request was written. */
  function Delivered(request: Option<Message>, host: Host, results: seq<WriteResult>): seq<Report> {
    if request.None? then [] else Send(Chunks(Frame(host, request.value)), results).delivered
  }

  function LeftOf(link: Link, request: Option<Message>, results: seq<WriteResult>, host: Host, known: set<uint16>,
                  s: Settings): Link
  {
    if request.None? || !Send(Chunks(Frame(host, request.value)), results).ok then link
    else ReadMessage(link, host, known, s).link
  }

  /** Every call that writes the request returned its whole size, or the -1 that nobody
      notices. */
  predicate Written(request: Option<Message>, host: Host, results: seq<WriteResult>) {
    request.Some? &&
    forall res <- Seen(|Chunks(Frame(host, request.value))|, results) :: res == -1 || res == REPORT_SIZE
  }

  /** A request that cannot be built or is written short raises an exception, whatever the
      device sends. */
  lemma UnwrittenRaises(request: Option<Message>, link: Link, results: seq<WriteResult>, host: Host, known: set<uint16>,
                        s: Settings, renders: Message -> bool)
    requires !Written(request, host, results)
    ensures Exchange(request, link, results, host, known, s, renders) == Raised
  {
    if request.Some? {
      ShortWriteIsReported(Chunks(Frame(host, request.value)), results);
    }
  }

  /** What each outcome says about the request, the bytes from the device and the polls. */
  predicate Justified(outcome: Outcome, request: Option<Message>, link: Link, results: seq<WriteResult>, host: Host,
                      known: set<uint16>, s: Settings, renders: Message -> bool)
  {
    var parsed := Parse(Stream(link), host, known);
    match outcome
    case Replied(reply) =>
      Written(request, host, results) && parsed.Got? && parsed.message == reply && renders(reply)
    case Raised =>
      || !Written(request, host, results) || parsed.Refused? || (parsed.Got? && !renders(parsed.message))
      || (exists p <- link.polls :: p.Broken?) || (s.timeout && exists p <- link.polls :: p.Quiet?)
    case Open(why) =>
      && Written(request, host, results)
      && match why
         case StillPolling => parsed == Short
         case ThreadInterrupted => s.timeout && exists p <- link.polls :: p.Quiet? && p.stop
         case Undefined => !SafeLength(Stream(link), host)
  }

  /** In every trace: a reply is the first message that the device's bytes make, never
      anything else, and came after the request was written; every other outcome has its
      reason as well. */
  lemma ExchangeJustified(request: Option<Message>, link: Link, results: seq<WriteResult>, host: Host,
                          known: set<uint16>, s: Settings, renders: Message -> bool)
    requires s.capacity == BUFFER_SIZE
    ensures Justified(Exchange(request, link, results, host, known, s, renders),
                      request, link, results, host, known, s, renders)
  {
    hide ReadMessage, Parse, SafeLength, Stream, Chunks, Frame;
    if !Written(request, host, results) {
      UnwrittenRaises(request, link, results, host, known, s, renders);
    } else {
      ShortWriteIsReported(Chunks(Frame(host, request.value)), results);
      ReadIsParse(link, host, known, s);
      MessageBreaks(link, host, known, s);
    }
  }

  /** With calm polls and a length that fits, the outcome is exactly what the device's
      bytes make of it. */
  lemma CalmExchange(request: Option<Message>, link: Link, results: seq<WriteResult>, host: Host, known: set<uint16>,
                     s: Settings, renders: Message -> bool)
    requires s.capacity == BUFFER_SIZE && Calm(link.polls, link.now, s) && SafeLength(Stream(link), host)
    requires Written(request, host, results)
    ensures var parsed := Parse(Stream(link), host, known);
            Exchange(request, link, results, host, known, s, renders)
            == if parsed.Short? then Open(StillPolling)
               else if parsed.Got? && renders(parsed.message) then Replied(parsed.message) else Raised
  {
    hide ReadMessage, Parse, SafeLength, Stream, Chunks, Frame;
    ShortWriteIsReported(Chunks(Frame(host, request.value)), results);
    ReadIsParse(link, host, known, s);
    MessageCalm(link, host, known, s, link.now);
  }

  /** In particular, when the reports of one message come, the call answers with it. */
  lemma MessageAnswers(request: Option<Message>, link: Link, results: seq<WriteResult>, host: Host, known: set<uint16>,
                       s: Settings, renders: Message -> bool, m: Message)
    requires s.capacity == BUFFER_SIZE && Calm(link.polls, link.now, s) && OnlyPadding(link.buffer)
    requires Sendable(m, known) && renders(m) && Written(request, host, results)
    requires ReportsIn(link.polls) == Chunks(Frame(host, m))
    ensures Exchange(request, link, results, host, known, s, renders) == Replied(m)
  {
    hide ReadMessage, Chunks, Frame, Calm, OnlyPadding, ReportsIn;
    ShortWriteIsReported(Chunks(Frame(host, request.value)), results);
    assert Transmit(host, [m]) == Chunks(Frame(host, m)) by {
      assert [m][1..] == [];
      assert Transmit(host, []) == [];
    }
    OneMessage(link, host, [m], known, s);
    MessageCalm(link, host, known, s, link.now);
  }

  /** A call that is still polling is ended by the next poll in the way the poll calls for:
      a failed one and one past the limit raise an exception, one in time with the thread
      asked to stop interrupts the thread. */
  lemma PollEndsCall(request: Option<Message>, link: Link, p: Poll, behind: seq<Poll>, results: seq<WriteResult>,
                     host: Host, known: set<uint16>, s: Settings, renders: Message -> bool,
                     lo: int, hi: int, fault: Fault)
    requires Exchange(request, link, results, host, known, s, renders) == Open(StillPolling)
    requires Starts(link, lo, hi) && EndsAs(p, lo, hi, s, fault)
    ensures Exchange(request, More(link, [p] + behind), results, host, known, s, renders)
         == if fault.Interrupted? then Open(ThreadInterrupted) else Raised
  {
    hide ReadMessage, Chunks, Frame, Starts, More;
    MessageEndsAs(link, p, behind, host, known, s, lo, hi, fault);
  }

  /** A call comes back, with a reply or an exception, when some poll fails or, with the
      timeout on, an empty poll finds the clock past the limit, provided that the thread
      is not asked to stop and that the next frame announces a length that fits. */
  lemma CallComesBack(request: Option<Message>, link: Link, results: seq<WriteResult>, host: Host, known: set<uint16>,
                      s: Settings, renders: Message -> bool, i: nat)
    requires s.capacity == BUFFER_SIZE && SafeLength(Stream(link), host)
    requires forall p <- link.polls :: !(p.Quiet? && p.stop)
    requires i < |link.polls| && EndsWait(link.polls, link.now, i, s)
    ensures !Exchange(request, link, results, host, known, s, renders).Open?
  {
    hide ReadMessage, Parse, SafeLength, Stream;
    MessageReturns(link, host, known, s, i);
    MessageBreaks(link, host, known, s);
    ReadIsParse(link, host, known, s);
  }

  /** With the timeout off, a call whose request was sent never comes back exactly when
      the bytes from the device make no whole frame and no poll fails. */
  lemma UntimedCallStaysIff(request: Option<Message>, link: Link, results: seq<WriteResult>, host: Host,
                            known: set<uint16>, s: Settings, renders: Message -> bool)
    requires !s.timeout && s.capacity == BUFFER_SIZE && SafeLength(Stream(link), host)
    requires request.Some? && Send(Chunks(Frame(host, request.value)), results).ok
    ensures var outcome := Exchange(request, link, results, host, known, s, renders);
            && (outcome == Open(StillPolling) <==>
                  Parse(Stream(link), host, known) == Short && forall p <- link.polls :: !p.Broken?)
            && (outcome.Open? ==> outcome == Open(StillPolling))
  {
    hide ReadMessage, Parse, SafeLength, Stream;
    UntimedWaitIff(link, host, known, s);
    MessageBreaks(link, host, known, s);
    ReadIsParse(link, host, known, s);
  }

  // ---- The executor ----

  class DeviceJobExecutor {
    const host: Host
    const known: set<uint16>
    var buffer: HIDBuffer?
    var channel: DeviceChannel?
    var callbacks: seq<Callback>
    var events: seq<Event>

    constructor (host: Host, known: set<uint16>)
      ensures Valid() && Has() == Owned(false, false) && callbacks == [] && events == []
    {
      this.host, this.known, buffer, channel, callbacks, events := host, known, null, null, [], [];
    }

    /** A live channel borrows the very buffer that is alive. */
    ghost predicate Valid()
      reads this, buffer
    {
      && (buffer != null ==> buffer.Valid())
      && (channel != null ==>
            buffer != null && channel.buffer == buffer && channel.host == host && channel.known == known)
    }

    ghost function Has(): Owned
      reads this
    {
      Owned(buffer != null, channel != null)
    }

    method FreeChannel()
      requires Valid() && channel != null
      modifies this`channel, this`events
      ensures Valid() && channel == null && events == old(events) + [ChannelClosed]
    {
      channel, events := null, events + [ChannelClosed];
    }

    method FreeBuffer()
      requires Valid() && buffer != null && channel == null
      modifies this`buffer, this`events
      ensures Valid() && buffer == null && events == old(events) + [BufferFreed]
    {
      buffer, events := null, events + [BufferFreed];
    }

    /** `device` is what opening the device's path gives, null when that fails. */
    method MakeReady(device: HidDevice?) returns (ready: bool)
      requires Valid()
      modifies this`buffer, this`channel, this`events
      ensures Valid() && ready == Has().channel
      ensures (Has(), events) == (var (o, e) := Prepare(old(Has()), device != null); (o, old(events) + e))
      ensures old(buffer) != null ==> buffer == old(buffer)
      ensures old(buffer) == null ==>
                fresh(buffer) && fresh(buffer.buffer) && buffer.bufferLength == 0 && buffer.readTimeout == 15
      ensures if old(channel) != null then channel == old(channel) else channel != null ==> channel.device == device
    {
      assert events + [] == events;
      if buffer == null {
        buffer := new HIDBuffer();
        events := events + [BufferMade];
      }
      if channel == null {
        if device == null {
          return false;
        }
        channel := new DeviceChannel(buffer, device, host, known);
        events := events + [ChannelOpened];
        assert events == old(events) + Prepare(old(Has()), true).1;
      }
      return true;
    }

    /** What its end does to the executor, as the end of its thread. */
    method Destroy()
      requires Valid()
      modifies this`buffer, this`channel, this`events
      ensures Valid() && Has() == Owned(false, false) && events == old(events) + Teardown(old(Has()))
    {
      assert events + [] == events;
      if channel != null {
        FreeChannel();
      }
      if buffer != null {
        FreeBuffer();
      }
    }

    method DoClose(id: nat)
      requires Valid()
      modifies this`buffer, this`channel, this`events, this`callbacks
      ensures Valid() && buffer == null && channel == null
      ensures callbacks == old(callbacks) + [Success(id, None)]
      ensures forall luck :: var e := Execute(old(Has()), CloseJob(id), luck);
                             && Has() == e.owned && events == old(events) + e.events
                             && callbacks == old(callbacks) + e.callbacks
    {
      if channel != null {
        FreeChannel();
      }
      if buffer != null {
        FreeBuffer();
      }
      callbacks := callbacks + [Success(id, None)];
    }

    method DoOpen(id: nat, device: HidDevice?)
      requires Valid()
      modifies this`buffer, this`channel, this`events, this`callbacks
      ensures Valid() && buffer != null && (channel != null <==> old(channel) != null || device != null)
      ensures callbacks == old(callbacks) + [if channel != null then Success(id, None) else Error(id)]
      ensures var e := Execute(old(Has()), OpenJob(id), Luck(device != null, Raised));
              Has() == e.owned && events == old(events) + e.events && callbacks == old(callbacks) + e.callbacks
    {
      var ready := MakeReady(device);
      callbacks := callbacks + [if ready then Success(id, None) else Error(id)];
    }

    method Call(request: Option<Message>, useTimeout: bool, renders: Message -> bool) returns (outcome: Outcome)
      requires Valid() && channel != null
      modifies buffer`bufferLength, buffer.buffer, channel.device
      ensures Valid()
      ensures outcome == Exchange(request, old(channel.View()), old(channel.device.results), host, known,
                buffer.With(useTimeout), renders)
      ensures channel.device.taken == old(channel.device.taken) + Delivered(request, host, old(channel.device.results))
      ensures channel.View()
           == LeftOf(old(channel.View()), request, old(channel.device.results), host, known, buffer.With(useTimeout))
    {
      hide ReadMessage, Send, Chunks, Frame;
      if request.None? {
        assert channel.device.taken + [] == channel.device.taken;
        return Raised;
      }
      var ok := channel.Write(request.value);
      if !ok {
        return Raised;
      }
      var m, fault := channel.Read(useTimeout);
      if fault.Some? {
        return OutcomeOf(fault.value);
      }
      return if renders(m.value) then Replied(m.value) else Raised;
    }

    /** The device and the link of a call: those of the open channel or, in its absence,
        `device` and the buffer, empty if there is none. */
    ghost function DeviceFor(device: HidDevice?): HidDevice?
      reads this
    {
      if channel != null then channel.device else device
    }

    ghost function LinkFor(device: HidDevice?): Link
      requires Valid() && DeviceFor(device) != null
      reads this, buffer, DeviceFor(device)
      reads if buffer != null then {buffer.buffer} else {}
    {
      var dev := DeviceFor(device);
      Link(if buffer != null then buffer.buffer[..buffer.bufferLength] else [], dev.polls, dev.now)
    }

    ghost function Patience(): int
      reads this, buffer
    {
      if buffer != null then buffer.readTimeout else 15
    }

    /** What the exchange of a call job comes to. */
    ghost function OutcomeFor(job: Job, device: HidDevice?, renders: Message -> bool): Outcome
      requires Valid() && job.CallJob? && DeviceFor(device) != null
      reads this, buffer, DeviceFor(device)
      reads if buffer != null then {buffer.buffer} else {}
    {
      Exchange(job.request, LinkFor(device), DeviceFor(device).results, host, known,
               Settings(job.useTimeout, Patience(), BUFFER_SIZE), renders)
    }

    /** A call job whose device sends the reports of a message answers with that message,
        in a trace that is calm for the timeout the job asks for. */
    lemma JobAnswers(job: Job, device: HidDevice?, renders: Message -> bool, m: Message)
      requires Valid() && job.CallJob? && Sendable(m, known) && renders(m) && DeviceFor(device) != null
      requires OnlyPadding(LinkFor(device).buffer) && Written(job.request, host, DeviceFor(device).results)
      requires Calm(DeviceFor(device).polls, DeviceFor(device).now, Settings(job.useTimeout, Patience(), BUFFER_SIZE))
      requires ReportsIn(DeviceFor(device).polls) == Chunks(Frame(host, m))
      ensures var e := Execute(Has(), job, Luck(true, OutcomeFor(job, device, renders)));
              e.callbacks == [Success(job.id, Some(m))] && e.unfinished.None?
    {
      hide Exchange, Calm, Written, Chunks, Frame, ReportsIn;
      MessageAnswers(job.request, LinkFor(device), DeviceFor(device).results, host, known,
                     Settings(job.useTimeout, Patience(), BUFFER_SIZE), renders, m);
    }

    /** A call opens what is missing. Its only callback carries the message that the
        channel reads for it, or an error; there is none while the call is still polling,
        nor after an interruption, which ends the thread. */
    method DoCall(job: Job, device: HidDevice?, renders: Message -> bool) returns (unfinished: Option<Unfinished>)
      requires Valid() && job.CallJob?
      modifies this`buffer, this`channel, this`events, this`callbacks
      modifies if buffer != null then {buffer, buffer.buffer} else {}
      modifies if channel != null then {channel.device} else if device != null then {device} else {}
      ensures Valid()
      ensures var outcome := if old(DeviceFor(device)) != null then old(OutcomeFor(job, device, renders)) else Raised;
              var e := Execute(old(Has()), job, Luck(device != null, outcome));
              && Has() == e.owned && events == old(events) + e.events && callbacks == old(callbacks) + e.callbacks
              && unfinished == e.unfinished
              && (unfinished.None? <==> Has().channel ==> outcome.Replied? || outcome.Raised?)
      ensures var dev := old(DeviceFor(device));
              if dev == null then channel == null
              else
                && channel != null && channel.device == dev
                && dev.taken == old(dev.taken) + Delivered(job.request, host, old(dev.results))
                && channel.View() == LeftOf(old(LinkFor(device)), job.request, old(dev.results), host, known,
                                            Settings(job.useTimeout, old(Patience()), BUFFER_SIZE))
    {
      hide Exchange, Delivered, LeftOf;
      var ready := MakeReady(device);
      if !ready {
        callbacks := callbacks + [Error(job.id)];
        return None;
      }
      assert channel.View().buffer == if old(buffer) != null then old(buffer.buffer[..buffer.bufferLength]) else [];
      var outcome := Call(job.request, job.useTimeout, renders);
      assert outcome == old(OutcomeFor(job, device, renders));
      assert callbacks + [] == callbacks;
      match outcome
      case Replied(reply) =>
        callbacks := callbacks + [Success(job.id, Some(reply))];
        return None;
      case Raised =>
        callbacks := callbacks + [Error(job.id)];
        return None;
      case Open(why) => return Some(why);
    }
  }

  // ---- The plugin's communicators ----

  class DeviceCommunicator {
    const path: string

    constructor (path: string)
      ensures this.path == path
    {
      this.path := path;
    }
  }

  /** The table of paths after asking for the communicator of one of them. */
  function Asked(paths: seq<string>, path: string): seq<string> {
    if path in paths then paths else paths + [path]
  }

  class BitcoinTrezorPlugin {
    var communicators: seq<DeviceCommunicator>

    ghost function Paths(): (paths: seq<string>)
      reads this
      ensures |paths| == |communicators|
    {
      seq(|communicators|, i requires 0 <= i < |communicators| reads this => communicators[i].path)
    }

    constructor ()
      ensures Paths() == []
    {
      communicators := [];
    }

    method Communicator(path: string) returns (c: DeviceCommunicator)
      modifies this
      ensures Paths() == Asked(old(Paths()), path) && c.path == path && c in communicators
      ensures if path in old(Paths()) then communicators == old(communicators)
              else fresh(c) && communicators == old(communicators) + [c]
    {
      var i := 0;
      while i < |communicators|
        invariant 0 <= i <= |communicators|
        invariant forall k :: 0 <= k < i ==> communicators[k].path != path
      {
        if communicators[i].path == path {
          assert Paths()[i] == path;
          return communicators[i];
        }
        i := i + 1;
      }
      assert path !in Paths();
      c := new DeviceCommunicator(path);
      communicators := communicators + [c];
      assert Paths() == old(Paths()) + [path];
    }
  }
}
