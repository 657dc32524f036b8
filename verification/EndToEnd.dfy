/** The queue and the framing together: reports arrive while a reader polls, and what
    the reader makes of them is the messages that were written. */
module EndToEnd {
  import opened Bytes
  import opened Reports
  import opened Framing
  import opened Delivery
  import opened ReportQueue
  import opened Sending
  import ReaderAnswers
  import ReaderThread

  type Data = seq<byte>

  // ---- Nothing is lost while at most 32 reports are on the way ----

  lemma {:induction false} BacklogBound<T>(queue: seq<T>, ops: seq<Op<T>>, n: nat)
    requires n <= |ops|
    ensures |Backlog(queue, ops, n)| <= |queue| + |Arrivals(ops[..n])|
  {
    if n > 0 {
      BacklogBound(queue, ops, n - 1);
      assert ops[..n] == ops[..n - 1] + [ops[n - 1]];
      ArrivalsSplit(ops[..n - 1], [ops[n - 1]]);
    }
  }

  lemma {:induction false} ArrivalsSplit<T>(a: seq<Op<T>>, b: seq<Op<T>>)
    ensures Arrivals(a + b) == Arrivals(a) + Arrivals(b)
  {
    if a == [] {
      assert a + b == b;
    } else {
      assert (a + b)[1..] == a[1..] + b && (a + b)[0] == a[0];
      ArrivalsSplit(a[1..], b);
      var first: seq<T> := if a[0].Arrive? then [a[0].item] else [];
      assert first + (Arrivals(a[1..]) + Arrivals(b)) == first + Arrivals(a[1..]) + Arrivals(b);
    }
  }

  /** Up to 32 arrivals are never dropped, however arrivals and takes interleave: what
      was taken, then what is queued, is what arrived. */
  lemma FewArrivalsKept<T>(ops: seq<Op<T>>)
    requires |Arrivals(ops)| <= CAPACITY
    ensures var log := Perform([], ops);
            Marked(log.left, false) == [] && Taken(log.takes) + log.queued == Arrivals(ops)
  {
    forall n | 0 <= n <= |ops| ensures |Backlog([], ops, n)| <= CAPACITY {
      BacklogBound([], ops, n);
      ArrivalsSplit(ops[..n], ops[n..]);
      assert ops == ops[..n] + ops[n..];
    }
    NoDropIffSmall([], ops);
    RunKeepsOrder([], ops);
  }

  // ---- Messages through the queue ----

  lemma MessageFitsQueue(host: Host, m: Message)
    requires |m.payload| <= SAFE_LENGTH
    ensures Cost(host, m) <= CAPACITY
  {
    ChunksSize(Frame(host, m));
  }

  /** What the takes of a run without drops returned is the beginning of what arrived. */
  lemma TakenFirst<T>(ops: seq<Op<T>>)
    requires StaysSmall([], ops)
    ensures var log := Perform([], ops); Marked(log.left, false) == [] && Taken(log.takes) + log.queued == Arrivals(ops)
  {
    hide Perform;
    NoDropIffSmall([], ops);
    RunKeepsOrder([], ops);
    assert [] + Arrivals(ops) == Arrivals(ops);
  }

  /** Messages of any number on a queue that never needs more than 32 places, with any
      part of their reports arrived and any part of those taken: nothing is dropped, and
      reading returns exactly the messages whose reports were taken, in order, up to the
      first read that is broken off. */
  lemma {:induction false} MessagesArrive(link: Link, n: nat, host: Host, messages: seq<Message>, ops: seq<Op<Data>>,
                                          known: set<uint16>, s: Settings)
    requires s.capacity == BUFFER_SIZE && OnlyPadding(link.buffer)
    requires forall m <- messages :: Sendable(m, known)
    requires Arrivals(ops) <= Transmit(host, messages) && StaysSmall([], ops)
    requires ReportsIn(link.polls) == Taken(Perform([], ops).takes)
    ensures Marked(Perform([], ops).left, false) == []
    ensures Delivers(ReadMessages(link, n, host, known, s), host, messages, |ReportsIn(link.polls)|)
  {
    hide ReadMessages, Perform, Transmit, ReportsIn, Delivers, Sendable, StaysSmall;
    TakenFirst(ops);
    assert ReportsIn(link.polls) <= Arrivals(ops);
    RoundTrip(link, n, host, messages, known, s);
  }

  /** One message of at most 1986 bytes always fits the queue: under every interleaving of
      arrivals and takes no report is dropped, and the read returns the message only when
      all its reports were taken, waits only when one is missing, and otherwise can only
      be broken off by the device or the clock, which calm polls rule out. */
  lemma {:induction false} MessageArrives(link: Link, host: Host, m: Message, ops: seq<Op<Data>>, known: set<uint16>,
                                          s: Settings)
    requires s.capacity == BUFFER_SIZE && OnlyPadding(link.buffer) && Sendable(m, known)
    requires Arrivals(ops) <= Chunks(Frame(host, m))
    requires ReportsIn(link.polls) == Taken(Perform([], ops).takes)
    ensures Marked(Perform([], ops).left, false) == []
    ensures OneDelivered(ReadMessage(link, host, known, s), ReportsIn(link.polls), host, m)
    ensures Calm(link.polls, link.now, s) ==>
              (ReadMessage(link, host, known, s).Ok? <==> ReportsIn(link.polls) == Chunks(Frame(host, m)))
  {
    hide ReadMessage, Frame, Chunks, Perform, ReportsIn, Calm;
    MessageFitsQueue(host, m);
    FewArrivalsKept(ops);
    assert ReportsIn(link.polls) <= Chunks(Frame(host, m));
    assert Transmit(host, [m]) == Chunks(Frame(host, m)) by {
      assert [m][1..] == [];
      assert Transmit(host, []) == [];
    }
    OneMessage(link, host, [m], known, s);
    if Calm(link.polls, link.now, s) {
      MessageCalm(link, host, known, s, link.now);
    }
  }

  // ---- Messages through the threads ----

  /** The reports of which none was dropped are the ones delivered, as far as they go. */
  lemma UndroppedFirst(queue: seq<Data>, left: seq<(Data, bool)>, arrived: seq<Data>, discarded: seq<Data>)
    requires arrived == Items(left) + queue + discarded && Marked(left, false) == []
    ensures Marked(left, true) <= arrived
  {
    UndroppedItems(left);
    assert arrived == Items(left) + (queue + discarded);
  }

  /** In every run of the read thread, its callbacks, a reader and a close: when the
      completed transfers bring the beginning of some messages' reports and none is
      dropped, as when there are at most 32, then the reports that reads returned make
      exactly those messages. */
  lemma {:induction false} ThreadsDeliver(first: ReaderThread.State, actions: seq<ReaderThread.Action>, link: Link,
                                          n: nat, host: Host, messages: seq<Message>, known: set<uint16>, s: Settings)
    requires ReaderThread.Init(first) && ReaderThread.RunTo(first, actions).Some?
    requires ReaderAnswers.Arriving(actions, None) <= Transmit(host, messages)
    requires || |ReaderAnswers.Arriving(actions, None)| <= CAPACITY
             || Marked(ReaderThread.RunTo(first, actions).value.left, false) == []
    requires s.capacity == BUFFER_SIZE && OnlyPadding(link.buffer)
    requires forall m <- messages :: Sendable(m, known)
    requires ReportsIn(link.polls) == ReaderAnswers.ReportsOf(ReaderAnswers.Returned(first, actions))
    ensures Marked(ReaderThread.RunTo(first, actions).value.left, false) == []
    ensures Delivers(ReadMessages(link, n, host, known, s), host, messages, |ReportsIn(link.polls)|)
  {
    hide ReadMessages, Perform, Transmit, ReportsIn, Delivers, Sendable, StaysSmall,
      ReaderThread.RunTo, ReaderThread.Init,
      ReaderAnswers.Returned, ReaderAnswers.ReportsOf, ReaderAnswers.Arriving, Marked;
    var state := ReaderThread.RunTo(first, actions).value;
    ReaderAnswers.RunAnswers(first, actions);
    assert ReaderThread.Reachable(state);
    ReaderThread.ThreadsPerform(state);
    var ops :| ReaderThread.Matches(state, ops);
    if |state.arrived| <= CAPACITY {
      FewArrivalsKept(ops);
    }
    ReaderThread.ReportsConserved(state);
    UndroppedFirst(state.queue, state.left, state.arrived, state.discarded);
    RoundTrip(link, n, host, messages, known, s);
  }

  // ---- From one channel to the other ----

  /** Writing messages one after the other, up to the first reported error. */
  function SendMessages(host: Host, taken: seq<Report>, messages: seq<Message>, results: seq<WriteResult>): Sent
    decreases |messages|
  {
    if messages == [] then Sent(taken, results, true)
    else
      var first := SendOnto(taken, Chunks(Frame(host, messages[0])), results);
      if first.ok then SendMessages(host, first.delivered, messages[1..], first.results) else first
  }

  /** While no call fails with -1, what is delivered is the beginning of the reports, and
      all of them when no error is raised. */
  lemma {:induction false} FirstSent(reports: seq<Report>, results: seq<WriteResult>)
    requires -1 !in results
    ensures var sent := Send(reports, results);
            sent.delivered <= reports && (sent.ok ==> sent.delivered == reports) && -1 !in sent.results
    decreases |reports|
  {
    if reports != [] {
      FirstSent(reports[1..], if results == [] then [] else results[1..]);
      assert reports == [reports[0]] + reports[1..];
    }
  }

  lemma {:induction false} AllSent(host: Host, taken: seq<Report>, messages: seq<Message>, results: seq<WriteResult>)
    requires -1 !in results
    ensures var sent := SendMessages(host, taken, messages, results);
            && sent.delivered <= taken + Transmit(host, messages)
            && (sent.ok ==> sent.delivered == taken + Transmit(host, messages))
    decreases |messages|
  {
    if messages != [] {
      hide Frame, Chunks, Send;
      var reports := Chunks(Frame(host, messages[0]));
      FirstSent(reports, results);
      var sent := Send(reports, results);
      assert taken + reports + Transmit(host, messages[1..]) == taken + (reports + Transmit(host, messages[1..]));
      if sent.ok {
        AllSent(host, taken + reports, messages[1..], sent.results);
      } else {
        assert taken + sent.delivered <= taken + reports;
      }
    } else {
      assert taken + [] == taken;
    }
  }

  /** What one side writes is what the other side reads: the same messages in the same
      order, whether or not a short write ends the writing early, whatever part of the
      reports has come and whatever other polls come between, up to the first read that
      is broken off or has to wait. */
  lemma {:induction false} WrittenIsRead(host: Host, messages: seq<Message>, results: seq<WriteResult>, link: Link,
                                         n: nat, known: set<uint16>, s: Settings)
    requires forall m <- messages :: Sendable(m, known)
    requires -1 !in results
    requires s.capacity == BUFFER_SIZE && OnlyPadding(link.buffer)
    requires ReportsIn(link.polls) <= SendMessages(host, [], messages, results).delivered
    ensures SendMessages(host, [], messages, results).ok ==>
              SendMessages(host, [], messages, results).delivered == Transmit(host, messages)
    ensures Delivers(ReadMessages(link, n, host, known, s), host, messages, |ReportsIn(link.polls)|)
  {
    hide ReadMessages, SendMessages, Delivers, ReportsIn, Sendable, Transmit;
    AllSent(host, [], messages, results);
    assert [] + Transmit(host, messages) == Transmit(host, messages);
    RoundTrip(link, n, host, messages, known, s);
  }
}
