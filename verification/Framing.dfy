/** Message frames on the wire: printing, parsing out of a device link, and the proof
    that what is written is what is read. */
module Framing {
  import opened Bytes
  import opened Reports

  const MAGIC: byte := 35 // '#'
  const BUFFER_SIZE := 2048
  const SAFE_LENGTH := 1986

  datatype Message = Message(kind: uint16, payload: seq<byte>)
  datatype Header = Header(kind: uint16, length: uint32)

  function PutHeader(host: Host, h: Header): (s: seq<byte>)
    ensures |s| == 8
  {
    [MAGIC, MAGIC] + StoreShort(host, h.kind) + StoreLong(host, h.length)
  }

  function Frame(host: Host, m: Message): seq<byte> {
    PutHeader(host, Header(m.kind, |m.payload| % 0x1_0000_0000)) + m.payload
  }

  /** Every report that writing the messages one after the other produces. */
  function Transmit(host: Host, messages: seq<Message>): seq<Report> {
    if messages == [] then [] else Chunks(Frame(host, messages[0])) + Transmit(host, messages[1..])
  }

  /** Every byte of a frame: two number signs, the type and the length, high bytes first
      on a little-endian host and low bytes first on a big-endian one, and the payload. */
  lemma FrameBytes(host: Host, m: Message)
    requires |m.payload| < 0x1_0000_0000
    ensures var n := |m.payload|; var frame := Frame(host, m);
            && |frame| == 8 + n && frame[8..] == m.payload
            && frame[0] == '#' as int && frame[1] == '#' as int
            && frame[2..4] == (if host.LittleEndian? then [m.kind / 0x100, m.kind % 0x100]
                               else [m.kind % 0x100, m.kind / 0x100])
            && frame[4..8] == (if host.LittleEndian?
                               then [n / 0x100_0000, n / 0x1_0000 % 0x100, n / 0x100 % 0x100, n % 0x100]
                               else [n % 0x100, n / 0x100 % 0x100, n / 0x1_0000 % 0x100, n / 0x100_0000])
  {
    hide StoreShort, StoreLong;
    ShortRoundTrip(host, m.kind);
    LongRoundTrip(host, |m.payload|);
    var frame := Frame(host, m);
    assert frame[2..4] == StoreShort(host, m.kind) && frame[4..8] == StoreLong(host, |m.payload|);
  }

  // ---- The channel's read, on values ----

  function SkipToMagic(link: Link, s: Settings): (r: Result<()>)
    ensures Follows(r.link, link)
    decreases |link.polls|, |link.buffer|
  {
    hide Follows, Fill;
    match Read(link, 1, s)
    case Err(fault, left) => Err(fault, left)
    case Ok(b, left) =>
      if b[0] == MAGIC then Ok((), left)
      else
        var r := SkipToMagic(left, s);
        FollowsTransitively(r.link, left, link);
        r
  }

  function GetHeader(host: Host, s: seq<byte>): Header
    requires |s| == 6
  {
    Header(LoadShort(host, s[..2]), LoadLong(host, s[2..]))
  }

  function ReadHeader(link: Link, host: Host, s: Settings): (r: Result<Header>)
    ensures Follows(r.link, link)
  {
    hide Follows, GetHeader;
    match SkipToMagic(link, s)
    case Err(fault, left) => Err(fault, left)
    case Ok(_, l0) =>
      FollowsTransitively(Read(l0, 1, s).link, l0, link);
      match Read(l0, 1, s)
      case Err(fault, left) => Err(fault, left)
      case Ok(second, l1) =>
        if second[0] != MAGIC then Err(BadMagic, l1)
        else
          FollowsTransitively(Read(l1, 6, s).link, l1, link);
          match Read(l1, 6, s)
          case Err(fault, left) => Err(fault, left)
          case Ok(rest, l2) => Ok(GetHeader(host, rest), l2)
  }

  /** `known` holds the type numbers that have a name and a message class. */
  function ReadMessage(link: Link, host: Host, known: set<uint16>, s: Settings): (r: Result<Message>)
    ensures Follows(r.link, link)
  {
    hide Follows, ReadHeader;
    match ReadHeader(link, host, s)
    case Err(fault, left) => Err(fault, left)
    case Ok(h, l0) =>
      FollowsTransitively(Read(l0, h.length, s).link, l0, link);
      if BUFFER_SIZE < h.length then Err(TooLong, l0)
      else
        match Read(l0, h.length, s)
        case Err(fault, left) => Err(fault, left)
        case Ok(payload, l1) =>
          if h.kind !in known then Err(UnknownType, l1) else Ok(Message(h.kind, payload), l1)
  }

  // ---- The same, as a parser of the byte stream ----

  datatype Parsed = Got(message: Message, rest: seq<byte>) | Refused(fault: Fault, rest: seq<byte>) | Short

  /** What follows the first magic byte. */
  function Align(stream: seq<byte>): Option<seq<byte>> {
    if stream == [] then None
    else if stream[0] == MAGIC then Some(stream[1..])
    else Align(stream[1..])
  }

  function ParseAligned(tail: seq<byte>, host: Host, known: set<uint16>): Parsed {
    if tail == [] then Short
    else if tail[0] != MAGIC then Refused(BadMagic, tail[1..])
    else if |tail| < 7 then Short
    else
      var h := GetHeader(host, tail[1..7]);
      if BUFFER_SIZE < h.length then Refused(TooLong, tail[7..])
      else if |tail| < 7 + h.length then Short
      else if h.kind !in known then Refused(UnknownType, tail[7 + h.length..])
      else Got(Message(h.kind, tail[7..7 + h.length]), tail[7 + h.length..])
  }

  function Parse(stream: seq<byte>, host: Host, known: set<uint16>): Parsed {
    match Align(stream)
    case None => Short
    case Some(tail) => ParseAligned(tail, host, known)
  }

  /** The next frame does not announce a length that passes the size test and yet may
      not fit the array. */
  predicate SafeLength(stream: seq<byte>, host: Host) {
    match Align(stream)
    case None => true
    case Some(tail) =>
      |tail| < 7 || tail[0] != MAGIC ||
      var n := GetHeader(host, tail[1..7]).length; n <= SAFE_LENGTH || BUFFER_SIZE < n
  }

  // ---- Reading any link is parsing its stream ----

  predicate Suffix(later: seq<byte>, stream: seq<byte>) {
    |later| <= |stream| && later == stream[|stream| - |later|..]
  }

  lemma SuffixOfSuffix(last: seq<byte>, mid: seq<byte>, first: seq<byte>)
    requires Suffix(last, mid) && Suffix(mid, first)
    ensures Suffix(last, first)
  {
  }

  /** One inner read as a step of a parser: it takes the front of the stream, waits only
      when the stream is too short, and leaves the stream alone when it breaks. */
  lemma ReadSteps(link: Link, need: nat, s: Settings)
    ensures match Read(link, need, s)
            case Ok(bytes, left) =>
              need <= |Stream(link)| && bytes == Stream(link)[..need] && Stream(left) == Stream(link)[need..]
                  && Suffix(Stream(left), Stream(link))
            case Err(fault, left) =>
              && (fault.Pending? ==> |Stream(link)| < need)
              && (fault.Pending? || Breaks(fault) || (fault.Overrun? && s.capacity < need + REPORT_DATA - 1))
              && (Breaks(fault) ==> Stream(left) == Stream(link))
  {
    hide Fill, Stream, Follows;
    ReadConserves(link, need, s);
    ReadTakesFront(link, need, s);
    FillBreaks(link, need, link.now, s);
    if need + REPORT_DATA - 1 <= s.capacity {
      FillFits(link, need, link.now, s);
    }
  }

  lemma {:induction false} SkipIsAlign(link: Link, s: Settings)
    ensures match SkipToMagic(link, s)
            case Ok(_, left) => Align(Stream(link)) == Some(Stream(left)) && Suffix(Stream(left), Stream(link))
            case Err(fault, left) =>
              && (fault.Pending? ==> Align(Stream(link)) == None)
              && (fault.Pending? || Breaks(fault) || (fault.Overrun? && s.capacity < REPORT_DATA))
              && (Breaks(fault) ==> Suffix(Stream(left), Stream(link)))
    decreases |link.polls|, |link.buffer|
  {
    hide Fill, Stream;
    ReadSteps(link, 1, s);
    var r := Read(link, 1, s);
    if r.Ok? && r.value[0] != MAGIC {
      SkipIsAlign(r.link, s);
    }
  }

  /** The next frame announces `h`. */
  predicate Announces(stream: seq<byte>, host: Host, h: Header) {
    match Align(stream)
    case None => false
    case Some(tail) => 7 <= |tail| && tail[0] == MAGIC && GetHeader(host, tail[1..7]) == h
  }

  predicate HeaderOutcome(r: Result<Header>, stream: seq<byte>, host: Host, s: Settings) {
    match r
    case Ok(h, left) => Announces(stream, host, h) && Stream(left) == Align(stream).value[7..]
    case Err(fault, left) =>
      match fault
      case BadMagic =>
        var a := Align(stream);
        a.Some? && a.value != [] && a.value[0] != MAGIC && Stream(left) == a.value[1..]
      case Pending =>
        var a := Align(stream);
        a.Some? ==> a.value == [] || (a.value[0] == MAGIC && |a.value| < 7)
      case Overrun => s.capacity < 6 + REPORT_DATA - 1
      case _ => Breaks(fault) && Suffix(Stream(left), stream)
  }

  lemma {:induction false} HeaderIsParsed(link: Link, host: Host, s: Settings)
    ensures HeaderOutcome(ReadHeader(link, host, s), Stream(link), host, s)
    ensures ReadHeader(link, host, s).Ok? ==> Suffix(Stream(ReadHeader(link, host, s).link), Stream(link))
  {
    hide GetHeader, Fill, Read, SkipToMagic, Align, Stream, Follows;
    SkipIsAlign(link, s);
    var l0 := SkipToMagic(link, s).link;
    if SkipToMagic(link, s).Ok? {
      var tail := Stream(l0);
      ReadSteps(l0, 1, s);
      var l1 := Read(l0, 1, s).link;
      if Read(l0, 1, s).Ok? && tail[0] == MAGIC {
        ReadSteps(l1, 6, s);
        SuffixOfSuffix(Stream(l1), tail, Stream(link));
        if 7 <= |tail| {
          assert tail[1..][..6] == tail[1..7];
          assert tail[1..][6..] == tail[7..];
        }
      }
    }
  }

  predicate ReadOutcome(r: Result<Message>, stream: seq<byte>, host: Host, known: set<uint16>, s: Settings) {
    match r
    case Ok(m, left) => Parse(stream, host, known) == Got(m, Stream(left))
    case Err(fault, left) =>
      match fault
      case Pending => Parse(stream, host, known) == Short
      case Overrun => s.capacity == BUFFER_SIZE ==> !SafeLength(stream, host)
      case _ =>
        if Breaks(fault) then Suffix(Stream(left), stream)
        else Parse(stream, host, known) == Refused(fault, Stream(left))
  }

  /** Reading from any link is parsing its byte stream: how the bytes were cut into
      reports, when they came and what was left in the buffer before make no difference
      to a message that is returned or refused, a call that keeps waiting has a stream
      that is too short, and one that breaks off has only taken bytes from the front. */
  lemma {:induction false} ReadIsParse(link: Link, host: Host, known: set<uint16>, s: Settings)
    ensures ReadOutcome(ReadMessage(link, host, known, s), Stream(link), host, known, s)
  {
    hide GetHeader, Fill, Read, ReadHeader, Align, Stream, Follows;
    HeaderIsParsed(link, host, s);
    var h := ReadHeader(link, host, s);
    if h.Ok? && h.value.length <= BUFFER_SIZE {
      var tail, n := Align(Stream(link)).value, h.value.length;
      ReadSteps(h.link, n, s);
      var r := Read(h.link, n, s);
      assert 7 + n <= |tail| ==> tail[7..][..n] == tail[7..7 + n] && tail[7..][n..] == tail[7 + n..];
    }
  }

  // ---- The size test against the array ----

  ghost predicate LengthFits(n: uint32, host: Host, known: set<uint16>) {
    forall link, kind, s: Settings | s.capacity == BUFFER_SIZE && Announces(Stream(link), host, Header(kind, n)) ::
      var r := ReadMessage(link, host, known, s); !(r.Err? && r.fault.Overrun?)
  }

  /** A header alone in a short report, and then the payload in the worst way. */
  function HeaderThenTrickle(host: Host, n: uint32): Link
    requires 0 < n
  {
    Link([], [Arrived([8] + PutHeader(host, Header(0, n)), 0)] + Trickle(n - 1), 0)
  }

  /** Reading what is buffered already, and reading from a first report. */
  lemma ReadBuffered(link: Link, need: nat, s: Settings)
    requires need <= |link.buffer|
    ensures Read(link, need, s) == Ok(link.buffer[..need], link.(buffer := link.buffer[need..]))
  {
  }

  lemma ReadFirst(report: Report, after: seq<Poll>, need: nat, s: Settings)
    requires 0 < need <= |Accepted(report)| <= s.capacity
    ensures Read(Link([], [Arrived(report, 0)] + after, 0), need, s)
         == Ok(Accepted(report)[..need], Link(Accepted(report)[need..], after, 0))
  {
    hide Follows, Accepted;
    var link := Link([], [Arrived(report, 0)] + after, 0);
    assert link.polls[1..] == after && [] + Accepted(report) == Accepted(report);
    assert PollOnce(link, 0, s) == Ok((), Link(Accepted(report), after, 0));
    assert Fill(Link(Accepted(report), after, 0), need, 0, s) == Ok((), Link(Accepted(report), after, 0));
  }

  lemma WitnessAnnounces(host: Host, n: uint32)
    requires 0 < n
    ensures Announces(Stream(HeaderThenTrickle(host, n)), host, Header(0, n))
  {
    hide GetHeader, Trickle, PutHeader, Align;
    var link, bytes, after := HeaderThenTrickle(host, n), PutHeader(host, Header(0, n)), Trickle(n - 1);
    assert link.polls[1..] == after;
    StreamStep(link);
    assert Accepted([8] + bytes) == bytes;
    var rest := Payloads(ReportsIn(after));
    assert Stream(link) == [] + (bytes + rest);
    HeaderParses([], host, Header(0, n), rest);
  }

  lemma WitnessHeader(host: Host, n: uint32, s: Settings)
    requires 0 < n && s.capacity == BUFFER_SIZE
    ensures ReadHeader(HeaderThenTrickle(host, n), host, s) == Ok(Header(0, n), Link([], Trickle(n - 1), 0))
  {
    hide GetHeader, Trickle, PutHeader, Read, Fill, Follows;
    var bytes, after := PutHeader(host, Header(0, n)), Trickle(n - 1);
    assert bytes[0] == MAGIC && bytes[1] == MAGIC && GetHeader(host, bytes[2..]) == Header(0, n) by {
      HeaderBytes(host, Header(0, n));
    }
    var report: Report := [8] + bytes;
    assert Accepted(report) == bytes;
    ReadFirst(report, after, 1, s);
    ReadBuffered(Link(bytes[1..], after, 0), 1, s);
    assert bytes[1..][1..] == bytes[2..] && bytes[2..][..6] == bytes[2..] && bytes[2..][6..] == [];
    ReadBuffered(Link(bytes[2..], after, 0), 6, s);
  }

  lemma HeaderBytes(host: Host, h: Header)
    ensures PutHeader(host, h)[0] == MAGIC && PutHeader(host, h)[1] == MAGIC
    ensures GetHeader(host, PutHeader(host, h)[2..]) == h
  {
    hide LoadLong, LoadShort, StoreLong, StoreShort;
    var tail := PutHeader(host, h)[2..];
    assert tail == StoreShort(host, h.kind) + StoreLong(host, h.length);
    ShortRoundTrip(host, h.kind);
    LongRoundTrip(host, h.length);
  }

  lemma WitnessOverruns(n: uint32, host: Host, known: set<uint16>, s: Settings)
    requires SAFE_LENGTH < n <= BUFFER_SIZE && s.capacity == BUFFER_SIZE
    ensures var r := ReadMessage(HeaderThenTrickle(host, n), host, known, s); r.Err? && r.fault.Overrun?
  {
    hide ReadHeader, Fill, HeaderThenTrickle, Trickle, Stream, Announces;
    WitnessHeader(host, n, s);
    TrickleOverruns(Link([], Trickle(n - 1), 0), n - 1, s);
  }

  /** The announced lengths with which no link can make a read store past the array are
      exactly those of at most 1986 bytes and those that the size test refuses. */
  lemma LengthLimit(n: uint32, host: Host, known: set<uint16>)
    ensures LengthFits(n, host, known) <==> n <= SAFE_LENGTH || BUFFER_SIZE < n
  {
    hide ReadMessage, HeaderThenTrickle, Stream, Parse, Announces, SafeLength;
    if n <= SAFE_LENGTH || BUFFER_SIZE < n {
      forall link, kind, s: Settings | s.capacity == BUFFER_SIZE && Announces(Stream(link), host, Header(kind, n))
        ensures var r := ReadMessage(link, host, known, s); !(r.Err? && r.fault.Overrun?)
      {
        ReadIsParse(link, host, known, s);
        AnnouncedFits(Stream(link), host, Header(kind, n));
      }
    } else {
      var s := Settings(false, 15, BUFFER_SIZE);
      var link := HeaderThenTrickle(host, n);
      WitnessAnnounces(host, n);
      WitnessOverruns(n, host, known, s);
      assert Announces(Stream(link), host, Header(0, n));
      var r := ReadMessage(link, host, known, s);
      assert r.Err? && r.fault.Overrun?;
    }
  }

  lemma AnnouncedFits(stream: seq<byte>, host: Host, h: Header)
    requires Announces(stream, host, h) && (h.length <= SAFE_LENGTH || BUFFER_SIZE < h.length)
    ensures SafeLength(stream, host)
  {
  }

  // ---- When a read comes back ----

  lemma {:induction false} SkipWaits(link: Link, s: Settings, last: int) returns (later: int)
    requires link.now <= last
    ensures var r := SkipToMagic(link, s);
            if r.Ok? then Waits(r.link, later, link, last, s)
            else r.fault.Pending? ==> KeepsWaiting(link.polls, last, s)
    decreases |link.polls|, |link.buffer|
  {
    later := ReadWaits(link, 1, s, last);
    var r := Read(link, 1, s);
    if r.Ok? && r.value[0] != MAGIC {
      later := SkipWaits(r.link, s, later);
    }
  }

  lemma {:induction false} MessageWaits(link: Link, host: Host, known: set<uint16>, s: Settings)
    ensures var r := ReadMessage(link, host, known, s);
            r.Err? && r.fault.Pending? ==> KeepsWaiting(link.polls, link.now, s)
  {
    hide Fill, Read, SkipToMagic, KeepsWaiting, Follows, GetHeader;
    var t0 := SkipWaits(link, s, link.now);
    if SkipToMagic(link, s).Ok? {
      var l0 := SkipToMagic(link, s).link;
      var t1 := ReadWaits(l0, 1, s, t0);
      if Read(l0, 1, s).Ok? {
        var l1 := Read(l0, 1, s).link;
        var t2 := ReadWaits(l1, 6, s, t1);
        var h := ReadHeader(link, host, s);
        if h.Ok? {
          var _ := ReadWaits(h.link, h.value.length, s, t2);
        }
      }
    }
  }

  /** A read of a message comes back when some poll fails or, with the timeout on, an
      empty poll finds the thread asked to stop or the clock past the limit counted from
      the start and from every report before: it does not wait through such a poll. */
  lemma MessageReturns(link: Link, host: Host, known: set<uint16>, s: Settings, i: nat)
    requires i < |link.polls| && EndsWait(link.polls, link.now, i, s)
    ensures var r := ReadMessage(link, host, known, s); !(r.Err? && r.fault.Pending?)
  {
    MessageWaits(link, host, known, s);
    EndedWait(link.polls, link.now, i, s);
  }

  lemma ExplainedEarlier(fault: Fault, later: Link, link: Link, s: Settings)
    requires Follows(later, link) && Explained(fault, later.polls, s)
    ensures Explained(fault, link.polls, s)
  {
    assert forall p <- later.polls :: p in link.polls;
  }

  lemma BreaksMeetPolls(link: Link, later: Link, need: nat, s: Settings)
    requires Follows(later, link)
    ensures var r := Read(later, need, s); r.Err? ==> Explained(r.fault, link.polls, s)
  {
    hide Explained, Follows;
    FillBreaks(later, need, later.now, s);
    var r := Read(later, need, s);
    if r.Err? {
      ExplainedEarlier(r.fault, later, link, s);
    }
  }

  lemma FollowsItself(link: Link)
    ensures Follows(link, link)
  {
  }

  lemma {:induction false} SkipBreaks(link: Link, s: Settings)
    ensures var r := SkipToMagic(link, s); r.Err? ==> Explained(r.fault, link.polls, s)
    decreases |link.polls|, |link.buffer|
  {
    hide Explained, Follows, Fill;
    FollowsItself(link);
    BreaksMeetPolls(link, link, 1, s);
    var r := Read(link, 1, s);
    if r.Ok? && r.value[0] != MAGIC {
      SkipBreaks(r.link, s);
      if SkipToMagic(r.link, s).Err? {
        ExplainedEarlier(SkipToMagic(r.link, s).fault, r.link, link, s);
      }
    }
  }

  /** A read of a message breaks off only for a reason that its polls give. */
  lemma {:induction false} MessageBreaks(link: Link, host: Host, known: set<uint16>, s: Settings)
    ensures var r := ReadMessage(link, host, known, s);
            r.Err? ==> Explained(r.fault, link.polls, s)
  {
    hide Fill, Read, SkipToMagic, Follows, GetHeader;
    SkipBreaks(link, s);
    if SkipToMagic(link, s).Ok? {
      var l0 := SkipToMagic(link, s).link;
      BreaksMeetPolls(link, l0, 1, s);
      if Read(l0, 1, s).Ok? {
        var l1 := Read(l0, 1, s).link;
        FollowsTransitively(l1, l0, link);
        BreaksMeetPolls(link, l1, 6, s);
        var h := ReadHeader(link, host, s);
        if h.Ok? {
          BreaksMeetPolls(link, h.link, h.value.length, s);
        }
      }
    }
  }

  lemma {:induction false} WaitsThrough(polls: seq<Poll>, last: int, s: Settings)
    requires !s.timeout
    ensures KeepsWaiting(polls, last, s) <==> forall p <- polls :: !p.Broken?
  {
    if polls != [] {
      assert forall p <- polls :: p == polls[0] || p in polls[1..];
      assert polls[0] in polls && forall p <- polls[1..] :: p in polls;
      WaitsThrough(polls[1..], if polls[0].Arrived? then Max(last, polls[0].at) else last, s);
    }
  }

  /** With the timeout off a read keeps waiting exactly when the bytes there are make no
      whole frame and no poll fails, however long the device stays silent. */
  lemma UntimedWaitIff(link: Link, host: Host, known: set<uint16>, s: Settings)
    requires !s.timeout && s.capacity == BUFFER_SIZE && SafeLength(Stream(link), host)
    ensures var r := ReadMessage(link, host, known, s);
            r.Err? && r.fault.Pending? <==>
                Parse(Stream(link), host, known) == Short && forall p <- link.polls :: !p.Broken?
  {
    hide Parse, ReadMessage, SafeLength;
    ReadIsParse(link, host, known, s);
    MessageWaits(link, host, known, s);
    MessageBreaks(link, host, known, s);
    WaitsThrough(link.polls, link.now, s);
  }

  // ---- A read depends only on the polls it uses ----

  lemma {:induction false} SkipMore(link: Link, extra: seq<Poll>, s: Settings)
    ensures var r := SkipToMagic(link, s);
            !(r.Err? && r.fault.Pending?) ==> SkipToMagic(More(link, extra), s) == Resumed(r, extra)
    decreases |link.polls|, |link.buffer|
  {
    ReadMore(link, extra, 1, s);
    var r := Read(link, 1, s);
    if r.Ok? && r.value[0] != MAGIC {
      SkipMore(r.link, extra, s);
    }
  }

  lemma {:induction false} MessageMore(link: Link, extra: seq<Poll>, host: Host, known: set<uint16>, s: Settings)
    ensures var r := ReadMessage(link, host, known, s);
            !(r.Err? && r.fault.Pending?) ==> ReadMessage(More(link, extra), host, known, s) == Resumed(r, extra)
  {
    hide Fill, Read, SkipToMagic, Follows, GetHeader, More;
    SkipMore(link, extra, s);
    if SkipToMagic(link, s).Ok? {
      var l0 := SkipToMagic(link, s).link;
      ReadMore(l0, extra, 1, s);
      if Read(l0, 1, s).Ok? {
        var l1 := Read(l0, 1, s).link;
        ReadMore(l1, extra, 6, s);
        var h := ReadHeader(link, host, s);
        if h.Ok? {
          ReadMore(h.link, extra, h.value.length, s);
        }
      }
    }
  }

  // ---- How the next poll ends a read that is still waiting ----

  lemma {:induction false} SkipStarts(link: Link, s: Settings, lo: int, hi: int)
    requires Starts(link, lo, hi)
    ensures var r := SkipToMagic(link, s); r.Ok? ==> Starts(r.link, lo, hi)
    decreases |link.polls|, |link.buffer|
  {
    hide Fill, Follows, Starts;
    ReadStarts(link, 1, s, lo, hi);
    var r := Read(link, 1, s);
    if r.Ok? && r.value[0] != MAGIC {
      SkipStarts(r.link, s, lo, hi);
    }
  }

  lemma {:induction false} SkipEndsAs(link: Link, p: Poll, behind: seq<Poll>, s: Settings, lo: int, hi: int,
                                      fault: Fault)
    requires Starts(link, lo, hi) && EndsAs(p, lo, hi, s, fault)
    ensures var r := SkipToMagic(link, s);
            r.Err? && r.fault.Pending? ==>
              SkipToMagic(More(link, [p] + behind), s) == Err(fault, Link(r.link.buffer, behind, p.at))
    decreases |link.polls|, |link.buffer|
  {
    hide Fill, Read, Follows, Starts, EndsAs, More;
    ReadEndsAs(link, p, behind, 1, s, lo, hi, fault);
    ReadMore(link, [p] + behind, 1, s);
    ReadStarts(link, 1, s, lo, hi);
    var r := Read(link, 1, s);
    if r.Ok? && r.value[0] != MAGIC {
      ReadShrinks(link, s);
      SkipEndsAs(r.link, p, behind, s, lo, hi, fault);
    }
  }

  lemma ReadShrinks(link: Link, s: Settings)
    ensures var r := Read(link, 1, s);
            r.Ok? ==>
              || |r.link.polls| < |link.polls|
              || (|r.link.polls| == |link.polls| && |r.link.buffer| < |link.buffer|)
  {
    hide Fill, Follows;
  }

  /** A read that is still waiting is ended by the next poll in the way the poll calls for:
      a failed one, an empty one past the limit, or one in time with the thread asked to
      stop; the polls behind it are unused. */
  lemma {:induction false} MessageEndsAs(link: Link, p: Poll, behind: seq<Poll>, host: Host, known: set<uint16>,
                                         s: Settings, lo: int, hi: int, fault: Fault)
    requires Starts(link, lo, hi) && EndsAs(p, lo, hi, s, fault)
    ensures var r := ReadMessage(link, host, known, s);
            r.Err? && r.fault.Pending? ==>
              ReadMessage(More(link, [p] + behind), host, known, s) == Err(fault, Link(r.link.buffer, behind, p.at))
  {
    hide Fill, Read, SkipToMagic, Follows, GetHeader, More, Starts, EndsAs;
    var extra := [p] + behind;
    SkipEndsAs(link, p, behind, s, lo, hi, fault);
    SkipMore(link, extra, s);
    SkipStarts(link, s, lo, hi);
    if SkipToMagic(link, s).Ok? {
      var l0 := SkipToMagic(link, s).link;
      ReadEndsAs(l0, p, behind, 1, s, lo, hi, fault);
      ReadMore(l0, extra, 1, s);
      ReadStarts(l0, 1, s, lo, hi);
      if Read(l0, 1, s).Ok? {
        var l1 := Read(l0, 1, s).link;
        ReadEndsAs(l1, p, behind, 6, s, lo, hi, fault);
        ReadMore(l1, extra, 6, s);
        ReadStarts(l1, 6, s, lo, hi);
        var h := ReadHeader(link, host, s);
        if h.Ok? {
          ReadEndsAs(h.link, p, behind, h.value.length, s, lo, hi, fault);
          ReadMore(h.link, extra, h.value.length, s);
        }
      }
    }
  }

  // ---- Resynchronisation and alignment ----

  lemma {:induction false} AlignSkips(prefix: seq<byte>, stream: seq<byte>)
    requires MAGIC !in prefix
    ensures Align(prefix + stream) == Align(stream)
  {
    if prefix == [] {
      assert prefix + stream == stream;
    } else {
      assert (prefix + stream)[1..] == prefix[1..] + stream;
      AlignSkips(prefix[1..], stream);
    }
  }

  lemma AlignAtMagic(stream: seq<byte>)
    requires stream != [] && stream[0] == MAGIC
    ensures Align(stream) == Some(stream[1..])
  {
  }

  /** The header survives the trip, after any bytes without a magic character. */
  lemma HeaderParses(prefix: seq<byte>, host: Host, h: Header, rest: seq<byte>)
    requires MAGIC !in prefix
    ensures var a := Align(prefix + (PutHeader(host, h) + rest));
            && a.Some? && |a.value| == 7 + |rest|
            && a.value[0] == MAGIC && GetHeader(host, a.value[1..7]) == h && a.value[7..] == rest
  {
    hide LoadLong, LoadShort, Align;
    var stream := PutHeader(host, h) + rest;
    AlignSkips(prefix, stream);
    var tail := stream[1..];
    assert Align(stream) == Some(tail) by { AlignAtMagic(stream); }
    assert tail == [MAGIC] + StoreShort(host, h.kind) + StoreLong(host, h.length) + rest;
    assert tail[1..7] == StoreShort(host, h.kind) + StoreLong(host, h.length);
    ShortRoundTrip(host, h.kind);
    LongRoundTrip(host, h.length);
  }

  lemma {:induction false} FrameAligned(prefix: seq<byte>, host: Host, m: Message, rest: seq<byte>)
    requires MAGIC !in prefix && |m.payload| <= BUFFER_SIZE
    ensures var a, n := Align(prefix + Frame(host, m) + rest), |m.payload|;
            && a.Some? && |a.value| == 7 + n + |rest|
            && a.value[0] == MAGIC && GetHeader(host, a.value[1..7]) == Header(m.kind, n)
            && a.value[7..7 + n] == m.payload && a.value[7 + n..] == rest
  {
    hide GetHeader, PutHeader, Align;
    var h := Header(m.kind, |m.payload|);
    HeaderParses(prefix, host, h, m.payload + rest);
    assert prefix + Frame(host, m) + rest == prefix + (PutHeader(host, h) + (m.payload + rest));
    var tail := Align(prefix + Frame(host, m) + rest).value;
    assert tail[7..7 + h.length] == tail[7..][..h.length] == m.payload;
    assert tail[7 + h.length..] == tail[7..][h.length..] == rest;
  }

  /** A frame after junk is read exactly; one of unknown type is consumed whole, so the
      next read starts on a frame boundary. */
  lemma {:induction false} FrameParses(prefix: seq<byte>, host: Host, m: Message, rest: seq<byte>, known: set<uint16>)
    requires MAGIC !in prefix && |m.payload| <= BUFFER_SIZE
    ensures Parse(prefix + Frame(host, m) + rest, host, known)
         == if m.kind in known then Got(m, rest) else Refused(UnknownType, rest)
    ensures |m.payload| <= SAFE_LENGTH ==> SafeLength(prefix + Frame(host, m) + rest, host)
  {
    hide GetHeader, Frame, Align;
    FrameAligned(prefix, host, m, rest);
  }

  /** A length that fails the size test costs the junk and the eight header bytes only. */
  lemma OversizeParses(prefix: seq<byte>, host: Host, h: Header, rest: seq<byte>, known: set<uint16>)
    requires MAGIC !in prefix && BUFFER_SIZE < h.length
    ensures Parse(prefix + (PutHeader(host, h) + rest), host, known) == Refused(TooLong, rest)
  {
    hide GetHeader, PutHeader, Align;
    HeaderParses(prefix, host, h, rest);
  }

  /** A lone magic character is consumed with the byte after it. */
  lemma BrokenMagicParses(prefix: seq<byte>, b: byte, rest: seq<byte>, host: Host, known: set<uint16>)
    requires MAGIC !in prefix && b != MAGIC
    ensures Parse(prefix + ([MAGIC, b] + rest), host, known) == Refused(BadMagic, rest)
  {
    AlignSkips(prefix, [MAGIC, b] + rest);
    assert ([MAGIC, b] + rest)[1..] == [b] + rest;
  }

}
