/** Messages written one after the other, cut into reports, and read back: what each read
    returns for every trace of polls that brings those reports. */
module Delivery {
  import opened Bytes
  import opened Reports
  import opened Framing

  ghost predicate Sendable(m: Message, known: set<uint16>) {
    m.kind in known && |m.payload| <= SAFE_LENGTH
  }

  /** The buffer holds nothing but the padding of a report already used. */
  predicate OnlyPadding(buffer: seq<byte>) {
    |buffer| < REPORT_DATA && buffer == Zeros(|buffer|)
  }

  function Cost(host: Host, m: Message): nat {
    |Chunks(Frame(host, m))|
  }

  // ---- Counting reports ----

  lemma {:induction false} TransmitWhole(host: Host, messages: seq<Message>)
    ensures forall r <- Transmit(host, messages) :: |r| == REPORT_SIZE && r[0] == REPORT_DATA
  {
    if messages != [] {
      ChunksSize(Frame(host, messages[0]));
      TransmitWhole(host, messages[1..]);
    }
  }

  lemma {:induction false} WholePayloads(rs: seq<Report>)
    requires forall r <- rs :: |r| == REPORT_SIZE && r[0] == REPORT_DATA
    ensures |Payloads(rs)| == REPORT_DATA * |rs|
  {
    if rs != [] {
      assert |Accepted(rs[0])| == REPORT_DATA;
      WholePayloads(rs[1..]);
    }
  }

  /** At most 62 bytes carry over from one successful read to the next. */
  lemma ReadCarry(link: Link, need: nat, s: Settings)
    requires need + REPORT_DATA - 1 <= s.capacity && |link.buffer| < REPORT_DATA
    ensures var r := Read(link, need, s); r.Ok? ==> |r.link.buffer| < REPORT_DATA
  {
    FillFits(link, need, link.now, s);
  }

  lemma {:induction false} SkipCarry(link: Link, s: Settings)
    requires s.capacity == BUFFER_SIZE && |link.buffer| < REPORT_DATA
    ensures var r := SkipToMagic(link, s); r.Ok? ==> |r.link.buffer| < REPORT_DATA
    decreases |link.polls|, |link.buffer|
  {
    hide Follows, Reports.Fill;
    ReadCarry(link, 1, s);
    var r := Read(link, 1, s);
    if r.Ok? && r.value[0] != MAGIC {
      SkipCarry(r.link, s);
    }
  }

  lemma {:induction false} MessageCarry(link: Link, host: Host, known: set<uint16>, s: Settings)
    requires s.capacity == BUFFER_SIZE && |link.buffer| < REPORT_DATA
    ensures var r := ReadMessage(link, host, known, s);
            r.Ok? && |r.value.payload| <= SAFE_LENGTH ==> |r.link.buffer| < REPORT_DATA
  {
    hide GetHeader, Reports.Fill, Reports.Read, SkipToMagic;
    SkipCarry(link, s);
    var l0 := SkipToMagic(link, s).link;
    if SkipToMagic(link, s).Ok? {
      ReadCarry(l0, 1, s);
      var l1 := Read(l0, 1, s).link;
      if Read(l0, 1, s).Ok? {
        ReadCarry(l1, 6, s);
        if ReadHeader(link, host, s).Ok? {
          var n := ReadHeader(link, host, s).value.length;
          if n <= SAFE_LENGTH {
            ReadCarry(Read(l1, 6, s).link, n, s);
          }
        }
      }
    }
  }

  /** Polls already used hold the reports that are no longer to come. */
  lemma ReportsLeft(later: Link, link: Link)
    requires Follows(later, link)
    ensures var left := ReportsIn(later.polls); var all := ReportsIn(link.polls);
            |left| <= |all| && left == all[|all| - |left|..]
  {
    var k := |link.polls| - |later.polls|;
    ReportsInSplit(link.polls[..k], link.polls[k..]);
    assert link.polls == link.polls[..k] + link.polls[k..];
  }

  // ---- A frame cut short ----

  lemma AlignNone()
    ensures Align([]) == None
  {
  }

  lemma HeaderStarts(host: Host, h: Header)
    ensures PutHeader(host, h)[0] == MAGIC && PutHeader(host, h)[1] == MAGIC
  {
  }

  /** A frame cut short is not yet a message. */
  lemma {:induction false} PartialFrame(prefix: seq<byte>, host: Host, m: Message, k: nat, known: set<uint16>)
    requires MAGIC !in prefix && |m.payload| <= SAFE_LENGTH && k < |Frame(host, m)|
    ensures Parse(prefix + Frame(host, m)[..k], host, known) == Short
    ensures SafeLength(prefix + Frame(host, m)[..k], host)
  {
    hide GetHeader, PutHeader, Align;
    var frame, h := Frame(host, m), Header(m.kind, |m.payload|);
    AlignSkips(prefix, frame[..k]);
    if k == 0 {
      AlignNone();
    } else {
      AlignAtMagic(frame[..k]) by { assert PutHeader(host, h)[0] == MAGIC by { HeaderStarts(host, h); } }
      HeaderStarts(host, h);
      if 8 <= k {
        HeaderParses([], host, h, m.payload[..k - 8]);
        assert [] + (PutHeader(host, h) + m.payload[..k - 8]) == frame[..k];
      }
    }
  }

  /** Fewer reports than a message has carry a proper prefix of its frame. */
  lemma TakenShort(host: Host, m: Message, n: nat)
    requires n < |Chunks(Frame(host, m))|
    ensures var frame := Frame(host, m); var some := Payloads(Chunks(frame)[..n]);
            |some| < |frame| && some == frame[..|some|]
  {
    hide Frame, Chunks, Padding;
    var frame := Frame(host, m);
    var reports := Chunks(frame);
    ChunksSize(frame);
    ChunksRoundTrip(frame);
    assert reports == reports[..n] + reports[n..];
    PayloadsSplit(reports[..n], reports[n..]);
    WholePayloads(reports[..n]);
    WholePayloads(reports[n..]);
    var some := Payloads(reports[..n]);
    assert some == (frame + Zeros(Padding(|frame|)))[..|some|];
  }

  // ---- One message ----

  /** The read returns the message and leaves exactly the padding of its last report and
      the reports behind it; or it breaks off; or it waits, and reports are missing. */
  predicate OneDelivered(r: Result<Message>, reports: seq<Report>, host: Host, m: Message) {
    match r
    case Ok(got, left) =>
      && got == m && Cost(host, m) <= |reports|
      && left.buffer == Zeros(Padding(|Frame(host, m)|))
      && ReportsIn(left.polls) == reports[Cost(host, m)..]
    case Err(fault, _) => Breaks(fault) || (fault.Pending? && |reports| < Cost(host, m))
  }

  lemma {:induction false} WholeMessage(link: Link, host: Host, m: Message, more: seq<Report>, known: set<uint16>,
                                        s: Settings)
    requires s.capacity == BUFFER_SIZE && OnlyPadding(link.buffer) && Sendable(m, known)
    requires ReportsIn(link.polls) == Chunks(Frame(host, m)) + more
    requires forall r <- more :: |r| == REPORT_SIZE && r[0] == REPORT_DATA
    ensures OneDelivered(ReadMessage(link, host, known, s), ReportsIn(link.polls), host, m)
  {
    hide Parse, ReadMessage, Frame, Chunks, Payloads, ReportsIn, SafeLength, Padding;
    var frame := Frame(host, m);
    var reports := Chunks(frame);
    var padding := Zeros(Padding(|frame|));
    var tail := padding + Payloads(more);
    assert Stream(link) == link.buffer + frame + tail by {
      PayloadsSplit(reports, more);
      ChunksRoundTrip(frame);
    }
    FrameParses(link.buffer, host, m, tail, known);
    ReadIsParse(link, host, known, s);
    MessageCarry(link, host, known, s);
    var r := ReadMessage(link, host, known, s);
    if r.Ok? {
      var left := ReportsIn(r.link.polls);
      ReportsLeft(r.link, link);
      ChunksSize(frame);
      WholePayloads(left);
      WholePayloads(more);
      assert |r.link.buffer| + REPORT_DATA * |left| == |padding| + REPORT_DATA * |more|;
      assert |left| == |more|;
      assert left == (reports + more)[|reports|..] == more;
      assert r.link.buffer == Stream(r.link)[..|padding|] == padding;
    }
  }

  lemma {:induction false} PartMessage(link: Link, host: Host, m: Message, n: nat, known: set<uint16>, s: Settings)
    requires s.capacity == BUFFER_SIZE && OnlyPadding(link.buffer) && Sendable(m, known)
    requires n < Cost(host, m) && ReportsIn(link.polls) == Chunks(Frame(host, m))[..n]
    ensures OneDelivered(ReadMessage(link, host, known, s), ReportsIn(link.polls), host, m)
  {
    hide Parse, ReadMessage, Frame, Chunks, Payloads, ReportsIn, SafeLength, Padding;
    TakenShort(host, m, n);
    PartialFrame(link.buffer, host, m, |Payloads(ReportsIn(link.polls))|, known);
    ReadIsParse(link, host, known, s);
  }

  /** Whatever part of the reports of some messages arrives, with whatever empty or failed
      polls at whatever times: the next read returns the first message, exactly, unless
      the device or the clock breaks it off or a report is still missing. */
  lemma {:induction false} OneMessage(link: Link, host: Host, messages: seq<Message>, known: set<uint16>, s: Settings)
    requires s.capacity == BUFFER_SIZE && OnlyPadding(link.buffer)
    requires messages != [] && Sendable(messages[0], known)
    requires ReportsIn(link.polls) <= Transmit(host, messages)
    ensures OneDelivered(ReadMessage(link, host, known, s), ReportsIn(link.polls), host, messages[0])
  {
    hide ReadMessage, Frame, Chunks, ReportsIn, OneDelivered;
    var all, n := ReportsIn(link.polls), Cost(host, messages[0]);
    if n <= |all| {
      TransmitWhole(host, messages);
      assert forall r <- all[n..] :: r in Transmit(host, messages);
      assert all[..n] == Chunks(Frame(host, messages[0]));
      assert all == all[..n] + all[n..];
      WholeMessage(link, host, messages[0], all[n..], known, s);
    } else {
      assert all == Chunks(Frame(host, messages[0]))[..|all|];
      PartMessage(link, host, messages[0], |all|, known, s);
    }
  }

  // ---- Many messages ----

  /** The results of reading n times in a row. */
  function ReadMessages(link: Link, n: nat, host: Host, known: set<uint16>, s: Settings): (rs: seq<Result<Message>>)
    ensures |rs| == n
    decreases n
  {
    if n == 0 then []
    else
      hide *;
      var r := ReadMessage(link, host, known, s);
      [r] + ReadMessages(r.link, n - 1, host, known, s)
  }

  /** Up to the first read that fails, read i returns message i and leaves exactly its
      padding. The first failing one was broken off, or it waits: for another message, or
      for a report of this one that is not among the `reports` first ones. */
  predicate Delivers(rs: seq<Result<Message>>, host: Host, messages: seq<Message>, reports: nat)
    decreases |rs|
  {
    rs == [] ||
    match rs[0]
    case Ok(m, left) =>
      && messages != [] && m == messages[0]
      && left.buffer == Zeros(Padding(|Frame(host, m)|))
      && Cost(host, m) <= reports
      && Delivers(rs[1..], host, messages[1..], reports - Cost(host, m))
    case Err(fault, _) => Breaks(fault) || (fault.Pending? && (messages == [] || reports < Cost(host, messages[0])))
  }

  lemma {:induction false} AlignZeros(n: nat)
    ensures Align(Zeros(n)).None?
  {
    if n > 0 {
      assert Zeros(n)[1..] == Zeros(n - 1);
      AlignZeros(n - 1);
    }
  }

  lemma {:induction false} NoMessage(link: Link, host: Host, known: set<uint16>, s: Settings)
    requires s.capacity == BUFFER_SIZE && OnlyPadding(link.buffer) && ReportsIn(link.polls) == []
    ensures var r := ReadMessage(link, host, known, s); r.Err? && (Breaks(r.fault) || r.fault.Pending?)
  {
    hide ReadMessage;
    assert Stream(link) == Zeros(|link.buffer|);
    AlignZeros(|link.buffer|);
    ReadIsParse(link, host, known, s);
  }

  /** Whatever messages are written, and whatever part of their reports has arrived in
      whatever trace: reading returns exactly those messages, in order, with exactly the
      padding left after each, up to the first read that breaks off or has to wait. */
  lemma {:induction false} RoundTrip(link: Link, n: nat, host: Host, messages: seq<Message>, known: set<uint16>,
                                     s: Settings)
    requires s.capacity == BUFFER_SIZE && OnlyPadding(link.buffer)
    requires forall m <- messages :: Sendable(m, known)
    requires ReportsIn(link.polls) <= Transmit(host, messages)
    ensures Delivers(ReadMessages(link, n, host, known, s), host, messages, |ReportsIn(link.polls)|)
    decreases n
  {
    hide ReadMessage, Frame, Chunks, Padding, ReportsIn;
    if n > 0 {
      var r := ReadMessage(link, host, known, s);
      var rs := ReadMessages(r.link, n - 1, host, known, s);
      assert ([r] + rs)[1..] == rs;
      if messages == [] {
        NoMessage(link, host, known, s);
      } else {
        OneMessage(link, host, messages, known, s);
        if r.Ok? {
          var used := Cost(host, messages[0]);
          assert ReportsIn(link.polls)[used..] <= Transmit(host, messages)[used..] == Transmit(host, messages[1..]);
          RoundTrip(r.link, n - 1, host, messages[1..], known, s);
        }
      }
    }
  }

  // ---- Reads that nothing breaks off ----

  /** No failed poll and, with the timeout on, no empty one that ends a call that started
      at `since` or later. */
  predicate Calm(polls: seq<Poll>, since: int, s: Settings) {
    forall p <- polls ::
      && !p.Broken?
      && since <= p.at
      && (p.Quiet? && s.timeout ==> p.at <= since + s.seconds && !p.stop)
  }

  lemma {:induction false} FillCalm(link: Link, need: nat, start: int, s: Settings, since: int)
    requires Calm(link.polls, since, s) && since <= start
    ensures var r := Fill(link, need, start, s); !(r.Err? && Breaks(r.fault))
    decreases |link.polls|
  {
    hide Follows;
    if |link.buffer| < need && link.polls != [] {
      var p := link.polls[0];
      assert p in link.polls && forall q <- link.polls[1..] :: q in link.polls;
      var rest := link.(polls := link.polls[1..], now := p.at);
      FillCalm(if p.Arrived? then rest.(buffer := link.buffer + Accepted(p.report)) else rest, need, start, s, since);
    }
  }

  lemma CalmLater(later: Link, link: Link, s: Settings, since: int)
    requires Calm(link.polls, since, s) && since <= link.now && Follows(later, link)
    ensures Calm(later.polls, since, s) && since <= later.now
  {
    assert forall p <- later.polls :: p in link.polls;
    assert |later.polls| < |link.polls| ==> link.polls[|link.polls| - |later.polls| - 1] in link.polls;
  }

  lemma ReadCalm(link: Link, need: nat, s: Settings, since: int)
    requires Calm(link.polls, since, s) && since <= link.now
    ensures var r := Read(link, need, s);
            !(r.Err? && Breaks(r.fault)) && Calm(r.link.polls, since, s) && since <= r.link.now
  {
    hide Fill;
    FillCalm(link, need, link.now, s, since);
    CalmLater(Read(link, need, s).link, link, s, since);
  }

  lemma {:induction false} SkipCalm(link: Link, s: Settings, since: int)
    requires Calm(link.polls, since, s) && since <= link.now
    ensures var r := SkipToMagic(link, s);
            !(r.Err? && Breaks(r.fault)) && Calm(r.link.polls, since, s) && since <= r.link.now
    decreases |link.polls|, |link.buffer|
  {
    hide Follows, Reports.Fill;
    ReadCalm(link, 1, s, since);
    var r := Read(link, 1, s);
    if r.Ok? && r.value[0] != MAGIC {
      SkipCalm(r.link, s, since);
    }
  }

  /** A read is not broken off when its polls are calm. */
  lemma {:induction false} MessageCalm(link: Link, host: Host, known: set<uint16>, s: Settings, since: int)
    requires Calm(link.polls, since, s) && since <= link.now
    ensures var r := ReadMessage(link, host, known, s); !(r.Err? && Breaks(r.fault))
  {
    hide Fill, Read, SkipToMagic, Follows, GetHeader, Calm;
    SkipCalm(link, s, since);
    if SkipToMagic(link, s).Ok? {
      var l0 := SkipToMagic(link, s).link;
      ReadCalm(l0, 1, s, since);
      if Read(l0, 1, s).Ok? {
        ReadCalm(Read(l0, 1, s).link, 6, s, since);
        var h := ReadHeader(link, host, s);
        if h.Ok? {
          ReadCalm(h.link, h.value.length, s, since);
        }
      }
    }
  }

  /** One window of polls for each message: it ends with the message's last report, and is
      calm counted from the end of the window before. */
  ghost predicate OnTime(windows: seq<seq<Poll>>, now: int, host: Host, messages: seq<Message>, s: Settings)
    decreases |messages|
  {
    if messages == [] then windows == []
    else
      && windows != []
      && var w := windows[0];
      && w != [] && w[|w| - 1].Arrived?
      && ReportsIn(w) == Chunks(Frame(host, messages[0]))
      && Calm(w, now, s)
      && OnTime(windows[1..], w[|w| - 1].at, host, messages[1..], s)
  }

  function Joined(windows: seq<seq<Poll>>): seq<Poll> {
    if windows == [] then [] else windows[0] + Joined(windows[1..])
  }

  lemma {:induction false} LastReportCounts(polls: seq<Poll>)
    ensures polls != [] && polls[|polls| - 1].Arrived? ==> ReportsIn(polls) != []
  {
    if 1 < |polls| {
      LastReportCounts(polls[1..]);
    }
  }

  /** A calm window is used up exactly, whatever polls come behind it. */
  lemma {:induction false} OneWindow(link: Link, w: seq<Poll>, behind: seq<Poll>, host: Host, m: Message,
                                     known: set<uint16>, s: Settings)
    requires s.capacity == BUFFER_SIZE && OnlyPadding(link.buffer) && Sendable(m, known)
    requires link.polls == w + behind && w != [] && w[|w| - 1].Arrived?
    requires ReportsIn(w) == Chunks(Frame(host, m)) && Calm(w, link.now, s)
    ensures ReadMessage(link, host, known, s)
         == Ok(m, Link(Zeros(Padding(|Frame(host, m)|)), behind, w[|w| - 1].at))
  {
    hide ReadMessage, Frame, Chunks, ReportsIn, Padding;
    var first := link.(polls := w);
    var r := ReadMessage(first, host, known, s);
    assert Transmit(host, [m]) == Chunks(Frame(host, m)) by {
      assert Transmit(host, []) == [];
      assert [m][1..] == [];
    }
    OneMessage(first, host, [m], known, s);
    MessageCalm(first, host, known, s, link.now);
    LastReportCounts(r.link.polls);
    assert More(first, behind) == link;
    MessageMore(first, behind, host, known, s);
    assert [] + behind == behind;
  }

  /** Every read returns its message. */
  ghost predicate AllDelivered(rs: seq<Result<Message>>, host: Host, messages: seq<Message>) {
    && |rs| == |messages|
    && forall i :: 0 <= i < |rs| ==>
         rs[i].Ok? && rs[i].value == messages[i] && rs[i].link.buffer == Zeros(Padding(|Frame(host, messages[i])|))
  }

  lemma NoneDelivered(host: Host)
    ensures AllDelivered([], host, [])
  {
  }

  lemma AllDeliveredFirst(r: Result<Message>, rs: seq<Result<Message>>, host: Host, messages: seq<Message>)
    requires messages != [] && AllDelivered(rs, host, messages[1..])
    requires r.Ok? && r.value == messages[0] && r.link.buffer == Zeros(Padding(|Frame(host, messages[0])|))
    ensures AllDelivered([r] + rs, host, messages)
  {
    hide Frame, Padding;
  }

  /** When each message's reports come in time, counted from the message before, every
      message is returned, whatever comes behind the last of them. */
  lemma {:induction false} RoundTripOnTime(link: Link, windows: seq<seq<Poll>>, behind: seq<Poll>, host: Host,
                                           messages: seq<Message>, known: set<uint16>, s: Settings)
    requires s.capacity == BUFFER_SIZE && OnlyPadding(link.buffer)
    requires forall m <- messages :: Sendable(m, known)
    requires OnTime(windows, link.now, host, messages, s) && link.polls == Joined(windows) + behind
    ensures AllDelivered(ReadMessages(link, |messages|, host, known, s), host, messages)
    decreases |messages|
  {
    hide ReadMessage, Frame, Chunks, Padding, ReportsIn, Calm, AllDelivered, Sendable;
    if messages == [] {
      assert AllDelivered([], host, []) by { NoneDelivered(host); }
    } else {
      var w, rest := windows[0], Joined(windows[1..]) + behind;
      assert link.polls == w + rest;
      OneWindow(link, w, rest, host, messages[0], known, s);
      var r := ReadMessage(link, host, known, s);
      RoundTripOnTime(r.link, windows[1..], behind, host, messages[1..], known, s);
      AllDeliveredFirst(r, ReadMessages(r.link, |messages| - 1, host, known, s), host, messages);
    }
  }

  // ---- Frames cut into reports in any other way ----

  /** The frames of the messages, with nothing between them. */
  function Frames(host: Host, messages: seq<Message>): seq<byte> {
    if messages == [] then [] else Frame(host, messages[0]) + Frames(host, messages[1..])
  }

  /** Up to the first read that fails, read i returns message i and leaves all the bytes
      behind its frame. The first failing one was broken off, or it waits: for another
      message, or for bytes of this one that are not among the `bytes` first ones. */
  predicate DeliversBytes(rs: seq<Result<Message>>, host: Host, messages: seq<Message>, bytes: nat)
    decreases |rs|
  {
    rs == [] ||
    match rs[0]
    case Ok(m, left) =>
      && messages != [] && m == messages[0]
      && |Frame(host, m)| <= bytes && |Stream(left)| == bytes - |Frame(host, m)|
      && DeliversBytes(rs[1..], host, messages[1..], bytes - |Frame(host, m)|)
    case Err(fault, _) => Breaks(fault) || (fault.Pending? && (messages == [] || bytes < |Frame(host, messages[0])|))
  }

  lemma {:induction false} OneFromStream(link: Link, host: Host, messages: seq<Message>, known: set<uint16>,
                                         s: Settings)
    requires s.capacity == BUFFER_SIZE && messages != [] && Sendable(messages[0], known)
    requires Stream(link) <= Frames(host, messages)
    ensures var r, n := ReadMessage(link, host, known, s), |Frame(host, messages[0])|;
            if r.Ok? then r.value == messages[0] && n <= |Stream(link)| && Stream(r.link) == Stream(link)[n..]
            else Breaks(r.fault) || (r.fault.Pending? && |Stream(link)| < n)
  {
    hide ReadMessage, Parse, Frame, SafeLength, Stream;
    var frame, stream := Frame(host, messages[0]), Stream(link);
    ReadIsParse(link, host, known, s);
    if |frame| <= |stream| {
      assert stream == [] + frame + stream[|frame|..];
      FrameParses([], host, messages[0], stream[|frame|..], known);
    } else {
      assert stream == [] + frame[..|stream|];
      PartialFrame([], host, messages[0], |stream|, known);
    }
  }

  /** Whatever part of the frames of some messages a link has to offer, however it was cut
      into reports and buffered, and in whatever trace: reading returns exactly those
      messages, in order, up to the first read that breaks off or has to wait. */
  lemma {:induction false} StreamRoundTrip(link: Link, n: nat, host: Host, messages: seq<Message>, known: set<uint16>,
                                           s: Settings)
    requires s.capacity == BUFFER_SIZE && forall m <- messages :: Sendable(m, known)
    requires Stream(link) <= Frames(host, messages)
    ensures DeliversBytes(ReadMessages(link, n, host, known, s), host, messages, |Stream(link)|)
    decreases n
  {
    hide ReadMessage, Frame, Stream;
    if n > 0 {
      var r := ReadMessage(link, host, known, s);
      var rs := ReadMessages(r.link, n - 1, host, known, s);
      assert ([r] + rs)[1..] == rs;
      if messages == [] {
        NoBytes(link, host, known, s);
      } else {
        OneFromStream(link, host, messages, known, s);
        if r.Ok? {
          var used := |Frame(host, messages[0])|;
          assert Stream(link)[used..] <= Frames(host, messages)[used..] == Frames(host, messages[1..]);
          StreamRoundTrip(r.link, n - 1, host, messages[1..], known, s);
        }
      }
    }
  }

  lemma {:induction false} NoBytes(link: Link, host: Host, known: set<uint16>, s: Settings)
    requires s.capacity == BUFFER_SIZE && Stream(link) == []
    ensures var r := ReadMessage(link, host, known, s); r.Err? && (Breaks(r.fault) || r.fault.Pending?)
  {
    hide ReadMessage;
    ReadIsParse(link, host, known, s);
  }

  /** In particular for reports that carry pieces of any size with fillers of any content,
      as long as each announces the length of its piece. */
  lemma {:induction false} AnyCutting(link: Link, n: nat, host: Host, messages: seq<Message>, pieces: seq<Piece>,
                                      known: set<uint16>, s: Settings)
    requires s.capacity == BUFFER_SIZE && forall m <- messages :: Sendable(m, known)
    requires forall piece <- pieces :: Fits(piece)
    requires link.buffer == [] && ReportsIn(link.polls) == Cut(pieces) && Glued(pieces) <= Frames(host, messages)
    ensures DeliversBytes(ReadMessages(link, n, host, known, s), host, messages, |Glued(pieces)|)
  {
    hide ReadMessages, Frames, DeliversBytes, Sendable;
    CutRoundTrip(pieces);
    assert Stream(link) == Glued(pieces);
    StreamRoundTrip(link, n, host, messages, known, s);
  }

  // ---- The plainest case ----

  /** Reports that all arrive at once. */
  function Prompt(rs: seq<Report>): seq<Poll> {
    if rs == [] then [] else [Arrived(rs[0], 0)] + Prompt(rs[1..])
  }

  lemma {:induction false} PromptReports(rs: seq<Report>)
    ensures |Prompt(rs)| == |rs| && ReportsIn(Prompt(rs)) == rs
    ensures forall p <- Prompt(rs) :: p.Arrived? && p.at == 0
  {
    if rs != [] {
      PromptReports(rs[1..]);
      assert Prompt(rs)[1..] == Prompt(rs[1..]);
      assert rs == [rs[0]] + rs[1..];
    }
  }

  lemma {:induction false} PromptSplit(a: seq<Report>, b: seq<Report>)
    ensures Prompt(a + b) == Prompt(a) + Prompt(b)
  {
    if a == [] {
      assert a + b == b;
    } else {
      assert (a + b)[1..] == a[1..] + b && (a + b)[0] == a[0];
      PromptSplit(a[1..], b);
    }
  }

  function PromptWindows(host: Host, messages: seq<Message>): seq<seq<Poll>> {
    if messages == [] then [] else [Prompt(Chunks(Frame(host, messages[0])))] + PromptWindows(host, messages[1..])
  }

  lemma {:induction false} PromptOnTime(host: Host, messages: seq<Message>, s: Settings)
    ensures OnTime(PromptWindows(host, messages), 0, host, messages, s)
    ensures Joined(PromptWindows(host, messages)) == Prompt(Transmit(host, messages))
  {
    hide Frame, Calm, ReportsIn, Chunks;
    if messages != [] {
      var reports := Chunks(Frame(host, messages[0]));
      var w := Prompt(reports);
      ChunksSize(Frame(host, messages[0]));
      FrameLength(host, messages[0]);
      PromptReports(reports);
      assert w[|w| - 1] in w;
      assert Calm(w, 0, s) by { PromptCalm(w, s); }
      PromptOnTime(host, messages[1..], s);
      PromptSplit(reports, Transmit(host, messages[1..]));
      assert PromptWindows(host, messages)[1..] == PromptWindows(host, messages[1..]);
    }
  }

  lemma FrameLength(host: Host, m: Message)
    ensures |Frame(host, m)| == 8 + |m.payload|
  {
  }

  lemma PromptCalm(polls: seq<Poll>, s: Settings)
    requires forall p <- polls :: p.Arrived? && p.at == 0
    ensures Calm(polls, 0, s)
  {
  }

  /** A link that brings all reports at once delivers every message, on either host. */
  lemma {:induction false} PromptDelivery(host: Host, messages: seq<Message>, known: set<uint16>, s: Settings)
    requires s.capacity == BUFFER_SIZE
    requires forall m <- messages :: Sendable(m, known)
    ensures var link := Link([], Prompt(Transmit(host, messages)), 0);
            && ReportsIn(link.polls) == Transmit(host, messages)
            && AllDelivered(ReadMessages(link, |messages|, host, known, s), host, messages)
  {
    hide Transmit, OnTime, Joined, AllDelivered, Prompt, Sendable, PromptWindows, ReadMessages, ReportsIn;
    var link := Link([], Prompt(Transmit(host, messages)), 0);
    PromptReports(Transmit(host, messages));
    PromptOnTime(host, messages, s);
    assert link.polls == Joined(PromptWindows(host, messages)) + [];
    RoundTripOnTime(link, PromptWindows(host, messages), [], host, messages, known, s);
  }
}
