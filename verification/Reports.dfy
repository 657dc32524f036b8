/** HID reports and the reassembly of a byte stream out of them, on values. The
    imperative counterpart is module HidBuffer. */
module Reports {
  import opened Bytes

  const REPORT_SIZE := 64
  const REPORT_DATA := 63

  /** What one call of hid_read_timeout can store in the 64-byte chunk. */
  type Report = s: seq<byte> | 1 <= |s| <= REPORT_SIZE witness [0]

  // ---- Cutting a byte string into reports ----

  function MakeReport(data: seq<byte>): Report
    requires |data| <= REPORT_DATA
  {
    [63] + data + Zeros(REPORT_DATA - |data|)
  }

  function Chunks(bytes: seq<byte>): seq<Report> {
    if bytes == [] then []
    else
      var n := Min(REPORT_DATA, |bytes|);
      [MakeReport(bytes[..n])] + Chunks(bytes[n..])
  }

  lemma ChunksFirst(bytes: seq<byte>)
    requires bytes != []
    ensures var n := Min(REPORT_DATA, |bytes|);
            |Chunks(bytes)| > 0 && Chunks(bytes)[0] == MakeReport(bytes[..n])
                && Chunks(bytes)[1..] == Chunks(bytes[n..])
  {
  }

  lemma ChunksNone()
    ensures Chunks([]) == []
  {
  }

  /** Zero bytes that fill up the last report of an n-byte string. */
  function Padding(n: nat): (p: nat)
    ensures p < REPORT_DATA && (n + p) % REPORT_DATA == 0
  {
    (REPORT_DATA - n % REPORT_DATA) % REPORT_DATA
  }

  /** The bytes the reader takes out of a report: the first byte counts the rest,
      and no more is taken than actually arrived. */
  function Accepted(r: Report): (s: seq<byte>)
    ensures |s| <= REPORT_DATA
  {
    r[1..Min(|r|, r[0] as int + 1)]
  }

  /** The count is obeyed as far as bytes arrived: what is taken is the front of what is
      behind the first byte, as long as announced or as long as there is. */
  lemma AcceptedFront(r: Report)
    ensures Accepted(r) <= r[1..]
    ensures |Accepted(r)| == r[0] as int || (|r| - 1 < r[0] as int && Accepted(r) == r[1..])
  {
  }

  /** A piece of the byte stream, and what fills up the report that carries it. */
  datatype Piece = Piece(data: seq<byte>, filler: seq<byte>)

  predicate Fits(piece: Piece) {
    |piece.data| + |piece.filler| <= REPORT_DATA
  }

  function Counted(piece: Piece): Report
    requires Fits(piece)
  {
    [|piece.data|] + piece.data + piece.filler
  }

  /** Reports that cut a byte stream in any other way. */
  function Cut(pieces: seq<Piece>): seq<Report>
    requires forall piece <- pieces :: Fits(piece)
  {
    if pieces == [] then [] else [Counted(pieces[0])] + Cut(pieces[1..])
  }

  function Glued(pieces: seq<Piece>): seq<byte> {
    if pieces == [] then [] else pieces[0].data + Glued(pieces[1..])
  }

  function Payloads(rs: seq<Report>): seq<byte> {
    if rs == [] then [] else Accepted(rs[0]) + Payloads(rs[1..])
  }

  /** However a byte stream is cut into reports, and whatever fills them up, what a reader
      accepts from them is the stream. */
  lemma {:induction false} CutRoundTrip(pieces: seq<Piece>)
    requires forall piece <- pieces :: Fits(piece)
    ensures Payloads(Cut(pieces)) == Glued(pieces)
  {
    if pieces != [] {
      assert pieces[0] in pieces && forall piece <- pieces[1..] :: piece in pieces;
      var r := Counted(pieces[0]);
      assert Accepted(r) == pieces[0].data;
      assert ([r] + Cut(pieces[1..]))[1..] == Cut(pieces[1..]);
      CutRoundTrip(pieces[1..]);
    }
  }

  lemma {:induction false} PayloadsSplit(a: seq<Report>, b: seq<Report>)
    ensures Payloads(a + b) == Payloads(a) + Payloads(b)
  {
    if a == [] {
      assert a + b == b;
    } else {
      assert (a + b)[1..] == a[1..] + b;
      PayloadsSplit(a[1..], b);
    }
  }

  lemma MakeReportAccepted(data: seq<byte>)
    requires |data| <= REPORT_DATA
    ensures Accepted(MakeReport(data)) == data + Zeros(REPORT_DATA - |data|)
  {
  }

  lemma PaddingStep(n: nat)
    ensures n >= REPORT_DATA ==> Padding(n) == Padding(n - REPORT_DATA)
    ensures 0 < n < REPORT_DATA ==> Padding(n) == REPORT_DATA - n
    ensures Padding(0) == 0
  {
  }

  lemma PaddedSplit(bytes: seq<byte>, n: nat)
    requires bytes != [] && n == Min(REPORT_DATA, |bytes|)
    ensures bytes[..n] + Zeros(REPORT_DATA - n) + (bytes[n..] + Zeros(Padding(|bytes| - n)))
         == bytes + Zeros(Padding(|bytes|))
  {
    PaddingStep(|bytes|);
    if n == REPORT_DATA {
      assert bytes == bytes[..n] + bytes[n..];
    } else {
      PaddingStep(0);
      assert bytes[..n] == bytes && bytes[n..] == [];
    }
  }

  /** Reading back the reports of a byte string gives the string and its padding. */
  lemma {:induction false} ChunksRoundTrip(bytes: seq<byte>)
    ensures Payloads(Chunks(bytes)) == bytes + Zeros(Padding(|bytes|))
  {
    if bytes == [] {
      PaddingStep(0);
    } else {
      var n := Min(REPORT_DATA, |bytes|);
      var head, tail := MakeReport(bytes[..n]), Chunks(bytes[n..]);
      MakeReportAccepted(bytes[..n]);
      ChunksRoundTrip(bytes[n..]);
      assert ([head] + tail)[1..] == tail;
      PaddedSplit(bytes, n);
    }
  }

  /** The reports are whole, and there are just enough of them. */
  lemma {:induction false} ChunksSize(bytes: seq<byte>)
    ensures |Chunks(bytes)| * REPORT_DATA == |bytes| + Padding(|bytes|)
    ensures forall r <- Chunks(bytes) :: |r| == REPORT_SIZE && r[0] == REPORT_DATA
  {
    PaddingStep(|bytes|);
    if bytes != [] {
      var n := Min(REPORT_DATA, |bytes|);
      ChunksSize(bytes[n..]);
      PaddingStep(0);
    }
  }

  // ---- The device as a trace, and filling the buffer from it ----

  /** Result of one poll of the device, with the wall clock afterwards. `stop` says
      that the polling thread was asked to terminate. */
  datatype Poll =
    | Arrived(report: Report, at: int)
    | Quiet(at: int, stop: bool)
    | Broken(at: int)

  /** Buffered bytes, the polls still to come, and the clock. */
  datatype Link = Link(buffer: seq<byte>, polls: seq<Poll>, now: int)

  datatype Settings = Settings(timeout: bool, seconds: int, capacity: nat)

  /** Pending: every poll is used up and the call is still polling.
      Overrun: a byte would be stored past the end of the buffer array. */
  datatype Fault = TimedOut | Interrupted | ReadFailed | Pending | Overrun | BadMagic | TooLong | UnknownType

  /** The faults of the device and of the clock; the others come from the bytes. */
  predicate Breaks(fault: Fault) {
    fault.TimedOut? || fault.Interrupted? || fault.ReadFailed?
  }

  datatype Result<+T> = Ok(value: T, link: Link) | Err(fault: Fault, link: Link)

  /** `later` has used up some of the polls of `link`, and those only; its clock is that
      of the last of them. */
  predicate Follows(later: Link, link: Link) {
    && |later.polls| <= |link.polls|
    && var used := |link.polls| - |later.polls|;
    && later.polls == link.polls[used..]
    && later.now == if used == 0 then link.now else link.polls[used - 1].at
  }

  lemma FollowsTransitively(last: Link, mid: Link, first: Link)
    requires Follows(last, mid) && Follows(mid, first)
    ensures Follows(last, first)
  {
  }

  /** One turn of the filling loop. */
  function PollOnce(link: Link, start: int, s: Settings): (r: Result<()>)
    requires link.polls != []
    ensures r.link.polls == link.polls[1..]
  {
    var rest := link.(polls := link.polls[1..], now := link.polls[0].at);
    match link.polls[0]
    case Arrived(report, _) =>
      var more := link.buffer + Accepted(report);
      if s.capacity < |more| then Err(Overrun, rest.(buffer := more[..s.capacity])) else Ok((), rest.(buffer := more))
    case Quiet(at, stop) =>
      if s.timeout && at - start > s.seconds then Err(TimedOut, rest)
      else if s.timeout && stop then Err(Interrupted, rest)
      else Ok((), rest)
    case Broken(_) => Err(ReadFailed, rest)
  }

  /** Buffers reports until `need` bytes are there. */
  function Fill(link: Link, need: nat, start: int, s: Settings): (r: Result<()>)
    ensures Follows(r.link, link)
    ensures r.Ok? ==> need <= |r.link.buffer|
    ensures r.Ok? && |r.link.polls| == |link.polls| ==> r.link == link
    decreases |link.polls|
  {
    if need <= |link.buffer| then Ok((), link)
    else if link.polls == [] then Err(Pending, link)
    else
      match PollOnce(link, start, s)
      case Err(fault, left) => Err(fault, left)
      case Ok(_, next) => Fill(next, need, start, s)
  }

  /** Takes `need` bytes off the front of the buffer, filling it first. */
  function Read(link: Link, need: nat, s: Settings): (r: Result<seq<byte>>)
    ensures Follows(r.link, link) && |r.link.polls| <= |link.polls|
    ensures r.Ok? ==> |r.value| == need
    ensures r.Ok? && |r.link.polls| == |link.polls| ==>
              need <= |link.buffer| && r.link == link.(buffer := link.buffer[need..])
  {
    match Fill(link, need, link.now, s)
    case Ok(_, full) => Ok(full.buffer[..need], full.(buffer := full.buffer[need..]))
    case Err(fault, left) => Err(fault, left)
  }

  // ---- Conservation of the stream ----

  function ReportsIn(polls: seq<Poll>): seq<Report> {
    if polls == [] then []
    else (if polls[0].Arrived? then [polls[0].report] else []) + ReportsIn(polls[1..])
  }

  lemma {:induction false} ReportsInSplit(a: seq<Poll>, b: seq<Poll>)
    ensures ReportsIn(a + b) == ReportsIn(a) + ReportsIn(b)
  {
    if a == [] {
      assert a + b == b;
    } else {
      assert (a + b)[1..] == a[1..] + b;
      ReportsInSplit(a[1..], b);
    }
  }

  /** Every byte not yet handed to a caller: what is buffered, then what will arrive. */
  function Stream(link: Link): seq<byte> {
    link.buffer + Payloads(ReportsIn(link.polls))
  }

  lemma StreamStep(link: Link)
    requires link.polls != []
    ensures Stream(link) == match link.polls[0]
                            case Arrived(report, _) =>
                              link.buffer + Accepted(report) + Payloads(ReportsIn(link.polls[1..]))
                            case _ => link.buffer + Payloads(ReportsIn(link.polls[1..]))
  {
    var rest := ReportsIn(link.polls[1..]);
    if link.polls[0].Arrived? {
      var report := link.polls[0].report;
      assert ([report] + rest)[1..] == rest;
      assert link.buffer + (Accepted(report) + Payloads(rest)) == link.buffer + Accepted(report) + Payloads(rest);
    } else {
      assert [] + rest == rest;
    }
  }

  lemma {:induction false} FillConserves(link: Link, need: nat, start: int, s: Settings)
    ensures var r := Fill(link, need, start, s);
            && (!(r.Err? && r.fault.Overrun?) ==> Stream(r.link) == Stream(link))
            && (r.Err? && !r.fault.Overrun? ==> |r.link.buffer| < need)
            && (r.Err? && r.fault.Pending? ==> r.link.polls == [])
    decreases |link.polls|
  {
    hide Follows;
    if |link.buffer| < need && link.polls != [] {
      StreamStep(link);
      var rest := link.(polls := link.polls[1..], now := link.polls[0].at);
      match link.polls[0]
      case Arrived(report, _) =>
        FillConserves(rest.(buffer := link.buffer + Accepted(report)), need, start, s);
      case Quiet(_, _) => FillConserves(rest, need, start, s);
      case Broken(_) =>
    }
  }

  /** One call: the bytes returned followed by what is left are what there was, also
      when the call fails; a failed call keeps fewer bytes than were asked for, and one
      still polling has seen every byte there is, and they are too few. */
  lemma ReadConserves(link: Link, need: nat, s: Settings)
    ensures match Read(link, need, s)
            case Ok(bytes, left) => |bytes| == need && bytes + Stream(left) == Stream(link)
            case Err(fault, left) =>
              && (!fault.Overrun? ==> Stream(left) == Stream(link) && |left.buffer| < need)
              && (fault.Pending? ==> |Stream(link)| < need)
  {
    FillConserves(link, need, link.now, s);
    var full := Fill(link, need, link.now, s).link;
    if Read(link, need, s).Ok? {
      assert full.buffer == full.buffer[..need] + full.buffer[need..];
    }
  }

  /** A successful call returns the front of the stream. */
  lemma ReadTakesFront(link: Link, need: nat, s: Settings)
    ensures var r := Read(link, need, s);
            r.Ok? ==>
              && need <= |Stream(link)| && r.value == Stream(link)[..need]
              && Stream(r.link) == Stream(link)[need..]
  {
    ReadConserves(link, need, s);
  }

  /** A run of read calls: the bytes each returned (none when it failed) and the end state. */
  function Run(link: Link, requests: seq<(nat, Settings)>): (seq<byte>, Link)
    decreases |requests|
  {
    if requests == [] then ([], link)
    else
      match Read(link, requests[0].0, requests[0].1)
      case Ok(bytes, next) => var (later, end) := Run(next, requests[1..]); (bytes + later, end)
      case Err(_, next) => Run(next, requests[1..])
  }

  /** A poll that ends a call with the timeout on that started at the given time. */
  predicate EndsCall(p: Poll, start: int, s: Settings) {
    p.Broken? || (p.Quiet? && (p.at - start > s.seconds || p.stop))
  }

  lemma {:induction false} FillReturns(link: Link, need: nat, start: int, s: Settings)
    requires s.timeout && exists p <- link.polls :: EndsCall(p, start, s)
    ensures var r := Fill(link, need, start, s); !(r.Err? && r.fault.Pending?)
    decreases |link.polls|
  {
    hide Follows;
    if |link.buffer| < need && PollOnce(link, start, s).Ok? {
      assert forall p <- link.polls :: p == link.polls[0] || p in link.polls[1..];
      FillReturns(PollOnce(link, start, s).link, need, start, s);
    }
  }

  /** With the timeout on, a call comes back as soon as a poll fails or finds the clock
      past the patience, however many reports arrive before: it does not wait forever. */
  lemma TimedReadReturns(link: Link, need: nat, s: Settings)
    requires s.timeout && exists p <- link.polls :: EndsCall(p, link.now, s)
    ensures var r := Read(link, need, s); !(r.Err? && r.fault.Pending?)
  {
    FillReturns(link, need, link.now, s);
  }

  /** The polls give no call of the channel a reason to end, when calls start at a time
      up to `last` or on a later report: no poll fails and, with the timeout on, no empty
      one is asked to stop or comes too long after `last` and the reports before it. */
  predicate KeepsWaiting(polls: seq<Poll>, last: int, s: Settings) {
    polls == [] ||
    match polls[0]
    case Arrived(_, at) => KeepsWaiting(polls[1..], Max(last, at), s)
    case Quiet(at, stop) => (s.timeout ==> !stop && at - last <= s.seconds) && KeepsWaiting(polls[1..], last, s)
    case Broken(_) => false
  }

  /** The latest time at which a call can have started. */
  function LatestStart(polls: seq<Poll>, last: int): int {
    if polls == [] then last
    else LatestStart(polls[1..], if polls[0].Arrived? then Max(last, polls[0].at) else last)
  }

  /** The poll fails or, with the timeout on, finds the thread asked to stop or the clock
      past the limit for every call that can have started before it. */
  predicate EndsWait(polls: seq<Poll>, now: int, i: nat, s: Settings)
    requires i < |polls|
  {
    EndsCall(polls[i], LatestStart(polls[..i], now), s) && (s.timeout || polls[i].Broken?)
  }

  lemma {:induction false} EndedWait(polls: seq<Poll>, last: int, i: nat, s: Settings)
    requires i < |polls| && EndsWait(polls, last, i, s)
    ensures !KeepsWaiting(polls, last, s)
  {
    if i > 0 {
      assert polls[..i][1..] == polls[1..][..i - 1];
      EndedWait(polls[1..], if polls[0].Arrived? then Max(last, polls[0].at) else last, i - 1, s);
    }
  }

  /** What a call leaves of the wait: `later` bounds the starts of the calls after it. */
  predicate Waits(left: Link, later: int, link: Link, last: int, s: Settings) {
    left.now <= later && (KeepsWaiting(left.polls, later, s) ==> KeepsWaiting(link.polls, last, s))
  }

  lemma {:induction false} FillWaits(link: Link, need: nat, start: int, s: Settings, last: int) returns (later: int)
    requires start <= last && (need <= |link.buffer| ==> link.now <= last)
    ensures var r := Fill(link, need, start, s);
            if r.Ok? then Waits(r.link, later, link, last, s)
            else r.fault.Pending? ==> KeepsWaiting(link.polls, last, s)
    decreases |link.polls|
  {
    hide Follows;
    later := last;
    if |link.buffer| < need && link.polls != [] {
      var rest := link.(polls := link.polls[1..], now := link.polls[0].at);
      match link.polls[0]
      case Arrived(report, at) =>
        later := FillWaits(rest.(buffer := link.buffer + Accepted(report)), need, start, s, Max(last, at));
      case Quiet(_, _) => later := FillWaits(rest, need, start, s, last);
      case Broken(_) =>
    }
  }

  lemma ReadWaits(link: Link, need: nat, s: Settings, last: int) returns (later: int)
    requires link.now <= last
    ensures var r := Read(link, need, s);
            if r.Ok? then Waits(r.link, later, link, last, s)
            else r.fault.Pending? ==> KeepsWaiting(link.polls, last, s)
  {
    later := FillWaits(link, need, link.now, s, last);
  }

  /** A call breaks off only for a reason that its polls give. */
  predicate Explained(fault: Fault, polls: seq<Poll>, s: Settings) {
    match fault
    case TimedOut => s.timeout && exists p <- polls :: p.Quiet?
    case Interrupted => s.timeout && exists p <- polls :: p.Quiet? && p.stop
    case ReadFailed => exists p <- polls :: p.Broken?
    case _ => true
  }

  lemma {:induction false} FillBreaks(link: Link, need: nat, start: int, s: Settings)
    ensures var r := Fill(link, need, start, s);
            r.Err? ==> r.fault !in {BadMagic, TooLong, UnknownType} && Explained(r.fault, link.polls, s)
    decreases |link.polls|
  {
    hide Follows;
    if |link.buffer| < need && link.polls != [] {
      assert link.polls[0] in link.polls && forall p <- link.polls[1..] :: p in link.polls;
      var rest := link.(polls := link.polls[1..], now := link.polls[0].at);
      match link.polls[0]
      case Arrived(report, _) => FillBreaks(rest.(buffer := link.buffer + Accepted(report)), need, start, s);
      case Quiet(_, _) => FillBreaks(rest, need, start, s);
      case Broken(_) =>
    }
  }

  // ---- Which poll ends a call, and how ----

  /** The poll ends a call that started at the given time and still needs bytes. */
  predicate Ends(p: Poll, start: int, s: Settings) {
    p.Broken? || (p.Quiet? && s.timeout && (p.at - start > s.seconds || p.stop))
  }

  /** The fault is the one the poll calls for: a failed poll, an empty one past the limit,
      or one in time whose thread was asked to stop. */
  predicate Fitting(fault: Fault, p: Poll, start: int, s: Settings) {
    && (fault.ReadFailed? <==> p.Broken?)
    && (fault.TimedOut? <==> p.Quiet? && s.timeout && p.at - start > s.seconds)
    && (fault.Interrupted? <==> p.Quiet? && s.timeout && p.at - start <= s.seconds && p.stop)
  }

  /** The bytes that have come when the first i polls are used. */
  function Received(link: Link, i: nat): seq<byte>
    requires i <= |link.polls|
  {
    link.buffer + Payloads(ReportsIn(link.polls[..i]))
  }

  lemma ReceivedFirst(link: Link, i: nat)
    requires 0 < i <= |link.polls|
    ensures var p, rest := link.polls[0], link.(polls := link.polls[1..], now := link.polls[0].at);
            Received(link, i) ==
            Received(if p.Arrived? then rest.(buffer := link.buffer + Accepted(p.report)) else rest, i - 1)
  {
    var some := link.polls[..i];
    assert some[1..] == link.polls[1..][..i - 1];
    StreamStep(link.(polls := some));
  }

  lemma {:induction false} FillEnds(link: Link, need: nat, start: int, s: Settings, i: nat)
    requires i < |link.polls| && Ends(link.polls[i], start, s)
    requires forall j :: 0 <= j < i ==> !Ends(link.polls[j], start, s)
    requires |Received(link, i)| < need && need + REPORT_DATA - 1 <= s.capacity
    ensures var r := Fill(link, need, start, s);
            && r.Err? && Fitting(r.fault, link.polls[i], start, s)
            && r.link == Link(Received(link, i), link.polls[i + 1..], link.polls[i].at)
    decreases i
  {
    hide Follows;
    if i == 0 {
      assert Received(link, 0) == link.buffer;
    } else {
      ReceivedFirst(link, i);
      ReceivedGrows(link, 1, i);
      var p := link.polls[0];
      var rest := link.(polls := link.polls[1..], now := p.at);
      var next := if p.Arrived? then rest.(buffer := link.buffer + Accepted(p.report)) else rest;
      assert forall j :: 0 <= j < i - 1 ==> next.polls[j] == link.polls[j + 1];
      assert !Ends(link.polls[0], start, s);
      ReceivedGrows(link, 0, i);
      assert |link.buffer| <= |Received(link, i)|;
      assert PollOnce(link, start, s) == Ok((), next);
      assert next.polls[i - 1 + 1..] == link.polls[i + 1..];
      FillEnds(next, need, start, s, i - 1);
    }
  }

  lemma ReceivedGrows(link: Link, i: nat, j: nat)
    requires i <= j <= |link.polls|
    ensures |link.buffer| <= |Received(link, i)| <= |Received(link, j)|
  {
    assert link.polls[..j] == link.polls[..i] + link.polls[i..j];
    ReportsInSplit(link.polls[..i], link.polls[i..j]);
    PayloadsSplit(ReportsIn(link.polls[..i]), ReportsIn(link.polls[i..j]));
  }

  /** The first poll that ends a call, while bytes are missing, ends it: with the fault it
      calls for, all bytes received so far kept, and the polls behind it unused. */
  lemma ReadEnds(link: Link, need: nat, s: Settings, i: nat)
    requires i < |link.polls| && Ends(link.polls[i], link.now, s)
    requires forall j :: 0 <= j < i ==> !Ends(link.polls[j], link.now, s)
    requires |Received(link, i)| < need && need + REPORT_DATA - 1 <= s.capacity
    ensures var r := Read(link, need, s);
            && r.Err? && Fitting(r.fault, link.polls[i], link.now, s)
            && r.link == Link(Received(link, i), link.polls[i + 1..], link.polls[i].at)
  {
    FillEnds(link, need, link.now, s, i);
  }

  /** Poll i is the first that ends the call, with the fault it calls for and while bytes
      are missing. */
  predicate BrokeAt(link: Link, i: int, need: nat, start: int, s: Settings, fault: Fault) {
    && 0 <= i < |link.polls| && Ends(link.polls[i], start, s) && Fitting(fault, link.polls[i], start, s)
    && (forall j :: 0 <= j < i ==> !Ends(link.polls[j], start, s))
    && |Received(link, i)| < need
  }

  lemma {:induction false} FillBroke(link: Link, need: nat, start: int, s: Settings)
    ensures var r := Fill(link, need, start, s);
            r.Err? && Breaks(r.fault) ==> BrokeAt(link, |link.polls| - |r.link.polls| - 1, need, start, s, r.fault)
    decreases |link.polls|
  {
    hide Follows;
    if |link.buffer| < need && link.polls != [] {
      var p := link.polls[0];
      var rest := link.(polls := link.polls[1..], now := p.at);
      var next := if p.Arrived? then rest.(buffer := link.buffer + Accepted(p.report)) else rest;
      var r := Fill(link, need, start, s);
      assert Received(link, 0) == link.buffer;
      if PollOnce(link, start, s).Ok? {
        FillBroke(next, need, start, s);
        if r.Err? && Breaks(r.fault) {
          var i := |link.polls| - |r.link.polls| - 1;
          ReceivedFirst(link, i);
          forall j | 0 <= j < i ensures !Ends(link.polls[j], start, s) {
            assert j > 0 ==> link.polls[j] == next.polls[j - 1];
          }
        }
      }
    }
  }

  /** And nothing else does: a call that breaks off has used exactly the polls up to the
      first that ends it, and bytes were missing then. */
  lemma ReadBroke(link: Link, need: nat, s: Settings)
    ensures var r := Read(link, need, s);
            r.Err? && Breaks(r.fault) ==> BrokeAt(link, |link.polls| - |r.link.polls| - 1, need, link.now, s, r.fault)
  {
    hide Fill, BrokeAt, Follows;
    FillBroke(link, need, link.now, s);
  }

  // ---- How the next poll ends a call that is still polling ----

  /** The poll ends, with the given fault, every call that started between lo and hi. */
  predicate EndsAs(p: Poll, lo: int, hi: int, s: Settings, fault: Fault) {
    match fault
    case ReadFailed => p.Broken?
    case TimedOut => p.Quiet? && s.timeout && p.at - hi > s.seconds
    case Interrupted => p.Quiet? && s.timeout && p.at - lo <= s.seconds && p.stop
    case _ => false
  }

  /** Calls can start only between lo and hi: now, or on a report. */
  predicate Starts(link: Link, lo: int, hi: int) {
    lo <= link.now <= hi && StartsIn(link.polls, lo, hi)
  }

  predicate StartsIn(polls: seq<Poll>, lo: int, hi: int) {
    forall p <- polls :: p.Arrived? ==> lo <= p.at <= hi
  }

  lemma {:induction false} FillEndsAs(link: Link, p: Poll, behind: seq<Poll>, need: nat, start: int, s: Settings,
                                      lo: int, hi: int, fault: Fault)
    requires lo <= start <= hi && EndsAs(p, lo, hi, s, fault)
    ensures var r := Fill(link, need, start, s);
            r.Err? && r.fault.Pending? ==>
              Fill(More(link, [p] + behind), need, start, s) == Err(fault, Link(r.link.buffer, behind, p.at))
    decreases |link.polls|
  {
    hide Follows;
    var longer := More(link, [p] + behind);
    if |link.buffer| < need {
      if link.polls == [] {
        assert longer.polls == [p] + behind && longer.polls[1..] == behind;
      } else {
        assert longer.polls[1..] == link.polls[1..] + ([p] + behind);
        var rest := link.(polls := link.polls[1..], now := link.polls[0].at);
        match link.polls[0]
        case Arrived(report, _) =>
          FillEndsAs(rest.(buffer := link.buffer + Accepted(report)), p, behind, need, start, s, lo, hi, fault);
        case Quiet(_, _) => FillEndsAs(rest, p, behind, need, start, s, lo, hi, fault);
        case Broken(_) =>
      }
    }
  }

  lemma ReadEndsAs(link: Link, p: Poll, behind: seq<Poll>, need: nat, s: Settings, lo: int, hi: int, fault: Fault)
    requires Starts(link, lo, hi) && EndsAs(p, lo, hi, s, fault)
    ensures var r := Read(link, need, s);
            r.Err? && r.fault.Pending? ==>
              Read(More(link, [p] + behind), need, s) == Err(fault, Link(r.link.buffer, behind, p.at))
  {
    FillEndsAs(link, p, behind, need, link.now, s, lo, hi, fault);
  }

  lemma {:induction false} FillStarts(link: Link, need: nat, start: int, s: Settings, lo: int, hi: int)
    requires StartsIn(link.polls, lo, hi) && (need <= |link.buffer| ==> lo <= link.now <= hi)
    ensures var r := Fill(link, need, start, s); r.Ok? ==> Starts(r.link, lo, hi)
    decreases |link.polls|
  {
    hide Follows;
    if |link.buffer| < need && link.polls != [] {
      assert link.polls[0] in link.polls && forall p <- link.polls[1..] :: p in link.polls;
      var rest := link.(polls := link.polls[1..], now := link.polls[0].at);
      match link.polls[0]
      case Arrived(report, _) =>
        FillStarts(rest.(buffer := link.buffer + Accepted(report)), need, start, s, lo, hi);
      case Quiet(_, _) => FillStarts(rest, need, start, s, lo, hi);
      case Broken(_) =>
    }
  }

  lemma ReadStarts(link: Link, need: nat, s: Settings, lo: int, hi: int)
    requires Starts(link, lo, hi)
    ensures var r := Read(link, need, s); r.Ok? ==> Starts(r.link, lo, hi)
  {
    FillStarts(link, need, link.now, s, lo, hi);
  }

  // ---- A call depends only on the polls it uses ----

  function More(link: Link, extra: seq<Poll>): Link {
    link.(polls := link.polls + extra)
  }

  function Resumed<T>(r: Result<T>, extra: seq<Poll>): Result<T> {
    match r
    case Ok(value, left) => Ok(value, More(left, extra))
    case Err(fault, left) => Err(fault, More(left, extra))
  }

  lemma {:induction false} FillMore(link: Link, extra: seq<Poll>, need: nat, start: int, s: Settings)
    ensures var r := Fill(link, need, start, s);
            !(r.Err? && r.fault.Pending?) ==> Fill(More(link, extra), need, start, s) == Resumed(r, extra)
    decreases |link.polls|
  {
    hide Follows;
    if |link.buffer| < need && link.polls != [] {
      assert (link.polls + extra)[1..] == link.polls[1..] + extra;
      var rest := link.(polls := link.polls[1..], now := link.polls[0].at);
      match link.polls[0]
      case Arrived(report, _) => FillMore(rest.(buffer := link.buffer + Accepted(report)), extra, need, start, s);
      case Quiet(_, _) => FillMore(rest, extra, need, start, s);
      case Broken(_) =>
    }
  }

  lemma ReadMore(link: Link, extra: seq<Poll>, need: nat, s: Settings)
    ensures var r := Read(link, need, s);
            !(r.Err? && r.fault.Pending?) ==> Read(More(link, extra), need, s) == Resumed(r, extra)
  {
    FillMore(link, extra, need, link.now, s);
  }

  // ---- Occupancy of the array ----

  lemma {:induction false} FillFits(link: Link, need: nat, start: int, s: Settings)
    requires need + REPORT_DATA - 1 <= s.capacity
    ensures var r := Fill(link, need, start, s);
            && !(r.Err? && r.fault.Overrun?)
            && (|r.link.buffer| == |link.buffer| || |r.link.buffer| <= need + REPORT_DATA - 1)
    decreases |link.polls|
  {
    hide Follows;
    if |link.buffer| < need && link.polls != [] {
      var rest := link.(polls := link.polls[1..], now := link.polls[0].at);
      match link.polls[0]
      case Arrived(report, _) =>
        FillFits(rest.(buffer := link.buffer + Accepted(report)), need, start, s);
      case Quiet(_, _) => FillFits(rest, need, start, s);
      case Broken(_) =>
    }
  }

  /** No run of reads of at most L bytes stores past an array of L + 62 bytes, its
      length stays within L + 62, and the whole stream is conserved. */
  lemma {:induction false} RunConserves(link: Link, requests: seq<(nat, Settings)>, longest: nat)
    requires forall q <- requests :: q.0 <= longest && longest + REPORT_DATA - 1 <= q.1.capacity
    requires |link.buffer| <= longest + REPORT_DATA - 1
    ensures var (returned, end) := Run(link, requests);
            returned + Stream(end) == Stream(link) && |end.buffer| <= longest + REPORT_DATA - 1
    decreases |requests|
  {
    if requests != [] {
      var (need, s) := requests[0];
      assert requests[0] in requests;
      ReadConserves(link, need, s);
      FillFits(link, need, link.now, s);
      var r := Read(link, need, s);
      RunConserves(r.link, requests[1..], longest);
      if r.Ok? {
        var (later, end) := Run(r.link, requests[1..]);
        assert r.value + (later + Stream(end)) == (r.value + later) + Stream(end);
      }
    }
  }

  /** Reports of one byte each, then a full one. */
  function Trickle(n: nat): seq<Poll> {
    if n == 0 then [Arrived(MakeReport(Zeros(REPORT_DATA)), 0)]
    else [Arrived([1, 0], 0)] + Trickle(n - 1)
  }

  lemma {:induction false} TrickleOverruns(link: Link, n: nat, s: Settings)
    requires link.polls == Trickle(n) && |link.buffer| + n + REPORT_DATA > s.capacity
    ensures var r := Fill(link, |link.buffer| + n + 1, 0, s); r.Err? && r.fault.Overrun?
    decreases n
  {
    hide Follows;
    if n == 0 {
      MakeReportAccepted(Zeros(REPORT_DATA));
    } else {
      var more := link.buffer + Accepted([1, 0]);
      assert |more| == |link.buffer| + 1;
      if |more| <= s.capacity {
        TrickleOverruns(Link(more, Trickle(n - 1), 0), n - 1, s);
      }
    }
  }

  ghost predicate NeverOverruns(longest: nat, capacity: nat) {
    forall polls, now, need: nat, s: Settings | need <= longest && s.capacity == capacity ::
      var r := Read(Link([], polls, now), need, s); !(r.Err? && r.fault.Overrun?)
  }

  /** Requests of up to `longest` bytes are safe for an array of `capacity` bytes exactly
      when a further 62 bytes fit; for 2048 bytes the limit is 1986. */
  lemma SafeLimit(longest: nat, capacity: nat)
    requires 0 < longest
    ensures NeverOverruns(longest, capacity) <==> longest + REPORT_DATA - 1 <= capacity
  {
    if longest + REPORT_DATA - 1 <= capacity {
      forall polls, now, need: nat, s: Settings | need <= longest && s.capacity == capacity
        ensures var r := Read(Link([], polls, now), need, s); !(r.Err? && r.fault.Overrun?)
      {
        FillFits(Link([], polls, now), need, now, s);
      }
    } else {
      var s := Settings(true, 15, capacity);
      var link := Link([], Trickle(longest - 1), 0);
      TrickleOverruns(link, longest - 1, s);
      var r := Read(link, longest, s);
      assert r.Err? && r.fault.Overrun?;
    }
  }
}
