/** The receive buffer and the channel of devices.cpp, changed in place, proved against
    the functions of Reports, Sending and Framing. */
module HidBuffer {
  import opened Bytes
  import opened Reports
  import opened Sending
  import opened Framing

  /** An open device: a script of the polls and write results still to come, and the
      reports it has taken. */
  class HidDevice {
    var polls: seq<Poll>
    var now: int
    var results: seq<WriteResult>
    var taken: seq<Report>
    var stop: bool // the polling thread has been asked to terminate

    constructor (polls: seq<Poll>, now: int, results: seq<WriteResult>)
      ensures this.polls == polls && this.now == now && this.results == results && taken == []
    {
      this.polls, this.now, this.results, this.taken := polls, now, results, [];
      stop := false;
    }

    method ReadTimeout(chunk: array<byte>) returns (res: int)
      requires polls != [] && chunk.Length == REPORT_SIZE
      modifies this`polls, this`now, this`stop, chunk
      ensures polls == old(polls)[1..] && now == old(polls)[0].at
      ensures match old(polls)[0]
              case Arrived(report, _) => res == |report| && chunk[..res] == report
              case Quiet(_, asked) => res == 0 && stop == asked
              case Broken(_) => res == -1
    {
      var poll := polls[0];
      polls, now := polls[1..], poll.at;
      match poll
      case Arrived(report, _) =>
        forall i | 0 <= i < |report| { chunk[i] := report[i]; }
        res := |report|;
      case Quiet(_, asked) => res, stop := 0, asked;
      case Broken(_) => res := -1;
    }

    method Write(chunk: array<byte>) returns (res: WriteResult)
      requires chunk.Length == REPORT_SIZE
      modifies this`results, this`taken
      ensures res == if old(results) == [] then REPORT_SIZE else old(results)[0]
      ensures results == if old(results) == [] then [] else old(results)[1..]
      ensures taken == old(taken) + if res == REPORT_SIZE then [chunk[..]] else []
    {
      res := if results == [] then REPORT_SIZE else results[0];
      results := if results == [] then [] else results[1..];
      if res == REPORT_SIZE {
        taken := taken + [chunk[..]];
      }
    }
  }

  class HIDBuffer {
    const buffer: array<byte>
    var bufferLength: nat
    const readTimeout: int

    ghost predicate Valid()
      reads this
    {
      buffer.Length == BUFFER_SIZE && bufferLength <= BUFFER_SIZE
    }

    ghost function LinkTo(dev: HidDevice): Link
      requires Valid()
      reads this, buffer, dev
    {
      Link(buffer[..bufferLength], dev.polls, dev.now)
    }

    ghost function With(timeout: bool): Settings {
      Settings(timeout, readTimeout, BUFFER_SIZE)
    }

    constructor (readTimeout: int := 15)
      ensures Valid() && fresh(buffer) && bufferLength == 0 && this.readTimeout == readTimeout
    {
      buffer := new byte[BUFFER_SIZE](_ => 0);
      bufferLength := 0;
      this.readTimeout := readTimeout;
    }

    /** Appends the accepted part of a received chunk. */
    method Store(chunk: array<byte>, res: int, ghost report: Report) returns (overrun: bool)
      requires Valid() && chunk.Length == REPORT_SIZE && chunk != buffer && res == |report| && chunk[..res] == report
      modifies this`bufferLength, buffer
      ensures Valid()
      ensures var more := old(buffer[..bufferLength]) + Accepted(report);
              && overrun == (BUFFER_SIZE < |more|)
              && buffer[..bufferLength] == if overrun then more[..BUFFER_SIZE] else more
    {
      ghost var before := buffer[..bufferLength];
      var chlen := Min(res, chunk[0] as int + 1);
      ghost var more := before + Accepted(report);
      assert forall k :: 1 <= k < chlen ==> chunk[k] == Accepted(report)[k - 1];
      var i := 1;
      while i < chlen
        invariant 1 <= i <= chlen
        invariant bufferLength == |before| + i - 1 <= BUFFER_SIZE
        invariant buffer[..bufferLength] == more[..bufferLength]
      {
        if bufferLength == BUFFER_SIZE {
          return true;
        }
        buffer[bufferLength] := chunk[i];
        i, bufferLength := i + 1, bufferLength + 1;
      }
      return false;
    }

    /** One turn of the filling loop. */
    method Poll(dev: HidDevice, start: int, timeout: bool) returns (fault: Option<Fault>)
      requires Valid() && dev.polls != []
      modifies this`bufferLength, buffer, dev`polls, dev`now, dev`stop
      ensures Valid()
      ensures match PollOnce(old(LinkTo(dev)), start, With(timeout))
              case Ok(_, link) => fault == None && LinkTo(dev) == link
              case Err(f, link) => fault == Some(f) && LinkTo(dev) == link
    {
      ghost var poll := dev.polls[0];
      var chunk := new byte[REPORT_SIZE];
      var res := dev.ReadTimeout(chunk);
      if res > 0 {
        var overrun := Store(chunk, res, poll.report);
        return if overrun then Some(Overrun) else None;
      } else if res == 0 && timeout {
        if dev.now - start > readTimeout {
          return Some(TimedOut);
        }
        return if dev.stop then Some(Interrupted) else None;
      } else if res < 0 {
        return Some(ReadFailed);
      }
      return None;
    }

    /** Reads `length` bytes from the device into `bytes`. */
    method Read(dev: HidDevice, bytes: array<byte>, length: nat, timeout: bool) returns (fault: Option<Fault>)
      requires Valid() && length <= bytes.Length && bytes != buffer
      modifies this`bufferLength, buffer, bytes, dev`polls, dev`now, dev`stop
      ensures Valid()
      ensures match Reports.Read(old(LinkTo(dev)), length, With(timeout))
              case Ok(got, link) =>
                fault == None && LinkTo(dev) == link && bytes[..] == got + old(bytes[length..])
              case Err(f, link) =>
                fault == Some(f) && LinkTo(dev) == link && bytes[..] == old(bytes[..])
    {
      hide PollOnce, Follows;
      var start := dev.now;
      ghost var first := Fill(LinkTo(dev), length, start, With(timeout));
      while bufferLength < length
        invariant Valid() && bytes[..] == old(bytes[..])
        invariant Fill(LinkTo(dev), length, start, With(timeout)) == first
        decreases |dev.polls|
      {
        if dev.polls == [] {
          return Some(Pending);
        }
        fault := Poll(dev, start, timeout);
        if fault.Some? {
          return fault;
        }
      }
      TakeFront(bytes, length);
      return None;
    }

    /** Copies the first bytes out and shifts the rest down in place. */
    method TakeFront(bytes: array<byte>, length: nat)
      requires Valid() && length <= bufferLength && length <= bytes.Length && bytes != buffer
      modifies this`bufferLength, buffer, bytes
      ensures Valid()
      ensures bytes[..] == old(buffer[..length]) + old(bytes[length..])
      ensures buffer[..bufferLength] == old(buffer[..bufferLength])[length..]
    {
      CopyOut(bytes, length);
      ShiftDown(length);
    }

    method CopyOut(bytes: array<byte>, length: nat)
      requires Valid() && length <= bufferLength && length <= bytes.Length && bytes != buffer
      modifies bytes
      ensures bytes[..] == buffer[..length] + old(bytes[length..])
    {
      var i := 0;
      while i < length
        invariant 0 <= i <= length
        invariant bytes[..i] == buffer[..i] && bytes[i..] == old(bytes[i..])
      {
        bytes[i] := buffer[i];
        i := i + 1;
      }
    }

    method ShiftDown(length: nat)
      requires Valid() && length <= bufferLength
      modifies this`bufferLength, buffer
      ensures Valid()
      ensures buffer[..bufferLength] == old(buffer[..bufferLength])[length..]
    {
      var i := length;
      while i < bufferLength
        invariant length <= i <= bufferLength == old(bufferLength)
        invariant forall k :: length <= k < i ==> buffer[k - length] == old(buffer[k])
        invariant forall k :: i <= k < bufferLength ==> buffer[k] == old(buffer[k])
      {
        buffer[i - length] := buffer[i];
        i := i + 1;
      }
      bufferLength := bufferLength - length;
    }

    /** Sends the next report's worth of `bytes`, from i on. */
    method WriteChunk(dev: HidDevice, bytes: array<byte>, i: nat, length: nat) returns (res: WriteResult)
      requires i < length <= bytes.Length
      modifies dev`results, dev`taken
      ensures res == if old(dev.results) == [] then REPORT_SIZE else old(dev.results)[0]
      ensures dev.results == if old(dev.results) == [] then [] else old(dev.results)[1..]
      ensures var report := MakeReport(bytes[i..i + Min(REPORT_DATA, length - i)]);
              dev.taken == old(dev.taken) + if res == REPORT_SIZE then [report] else []
    {
      var chunk := new byte[REPORT_SIZE](_ => 0);
      var n := Min(REPORT_SIZE - 1, length - i);
      chunk[0] := REPORT_SIZE - 1;
      forall k | 0 <= k < n { chunk[1 + k] := bytes[i + k]; }
      assert chunk[..] == MakeReport(bytes[i..i + n]);
      res := dev.Write(chunk);
    }

    /** Sends `bytes` in zero-padded reports. */
    method Write(dev: HidDevice, bytes: array<byte>, length: nat) returns (ok: bool)
      requires length <= bytes.Length
      modifies dev`results, dev`taken
      ensures Sent(dev.taken, dev.results, ok) == SendOnto(old(dev.taken), Chunks(bytes[..length]), old(dev.results))
    {
      hide Chunks, MakeReport, SendOnto;
      ghost var all := SendOnto(dev.taken, Chunks(bytes[..length]), dev.results);
      var i := 0;
      while i < length
        invariant 0 <= i
        invariant SendOnto(dev.taken, Chunks(bytes[Min(i, length)..length]), dev.results) == all
      {
        ghost var tail := bytes[i..length];
        ChunksFirst(tail);
        SendOntoFirst(dev.taken, Chunks(tail), dev.results);
        assert tail[..Min(REPORT_DATA, |tail|)] == bytes[i..i + Min(REPORT_DATA, length - i)];
        assert bytes[Min(i + REPORT_DATA, length)..length] == tail[Min(REPORT_DATA, |tail|)..];
        var res := WriteChunk(dev, bytes, i, length);
        if AsSize(res) < REPORT_SIZE {
          return false;
        }
        i := i + (REPORT_SIZE - 1);
      }
      assert bytes[Min(i, length)..length] == [];
      ChunksNone();
      SendOntoNone(dev.taken, dev.results);
      return true;
    }
  }

  /** A channel borrows a buffer and owns a device. */
  class DeviceChannel {
    const buffer: HIDBuffer
    const device: HidDevice
    const host: Host
    const known: set<uint16>

    constructor (buffer: HIDBuffer, device: HidDevice, host: Host, known: set<uint16>)
      ensures this.buffer == buffer && this.device == device && this.host == host && this.known == known
    {
      this.buffer, this.device, this.host, this.known := buffer, device, host, known;
    }

    ghost predicate Valid()
      reads this, buffer
    {
      buffer.Valid()
    }

    ghost function View(): Link
      requires Valid()
      reads this, buffer, buffer.buffer, device
    {
      buffer.LinkTo(device)
    }

    method Read(timeout: bool) returns (m: Option<Message>, fault: Option<Fault>)
      requires Valid()
      modifies buffer`bufferLength, buffer.buffer, device`polls, device`now, device`stop
      ensures Valid()
      ensures match ReadMessage(old(View()), host, known, buffer.With(timeout))
              case Ok(message, link) => m == Some(message) && fault == None && View() == link
              case Err(f, link) => m == None && fault == Some(f) && View() == link
    {
      hide Framing.ReadHeader, Fill, Reports.Read, Follows;
      var header;
      header, fault := ReadHeader(timeout);
      if fault.Some? {
        return None, fault;
      }
      if header.length > BUFFER_SIZE {
        return None, Some(TooLong);
      }
      var msgbuf := new byte[header.length](_ => 0);
      fault := buffer.Read(device, msgbuf, header.length, timeout);
      if fault.Some? {
        return None, fault;
      }
      if header.kind !in known {
        return None, Some(UnknownType);
      }
      assert msgbuf[..] == msgbuf[..header.length];
      return Some(Message(header.kind, msgbuf[..])), None;
    }

    /** Drops bytes up to and including the first magic character. */
    method AlignToMagic(header: array<byte>, timeout: bool) returns (fault: Option<Fault>)
      requires Valid() && 1 <= header.Length && header != buffer.buffer
      modifies buffer`bufferLength, buffer.buffer, device`polls, device`now, device`stop, header
      ensures Valid()
      ensures match SkipToMagic(old(View()), buffer.With(timeout))
              case Ok(_, link) => fault == None && View() == link
              case Err(f, link) => fault == Some(f) && View() == link
    {
      hide Fill, Reports.Read, Follows;
      ghost var s := buffer.With(timeout);
      ghost var first := SkipToMagic(View(), s);
      fault := buffer.Read(device, header, 1, timeout);
      if fault.Some? {
        return;
      }
      while header[0] != MAGIC
        invariant Valid() && fault == None
        invariant first == if header[0] == MAGIC then Ok((), View()) else SkipToMagic(View(), s)
        decreases |device.polls|, buffer.bufferLength
      {
        ghost var before := View();
        fault := buffer.Read(device, header, 1, timeout);
        if fault.Some? {
          return;
        }
        assert View() == Reports.Read(before, 1, s).link;
      }
    }

    method ReadHeader(timeout: bool) returns (h: Header, fault: Option<Fault>)
      requires Valid()
      modifies buffer`bufferLength, buffer.buffer, device`polls, device`now, device`stop
      ensures Valid()
      ensures match Framing.ReadHeader(old(View()), host, buffer.With(timeout))
              case Ok(got, link) => h == got && fault == None && View() == link
              case Err(f, link) => fault == Some(f) && View() == link
    {
      hide GetHeader, Fill, Reports.Read, SkipToMagic, Follows;
      h := Header(0, 0);
      var header := new byte[6](_ => 0);
      fault := AlignToMagic(header, timeout);
      if fault.Some? {
        return;
      }
      fault := buffer.Read(device, header, 1, timeout);
      if fault.Some? {
        return;
      }
      if header[0] != MAGIC {
        return h, Some(BadMagic);
      }
      ghost var l1 := View();
      assert header[6..] == [];
      fault := buffer.Read(device, header, 6, timeout);
      if fault.Some? {
        return;
      }
      assert header[..] == Reports.Read(l1, 6, buffer.With(timeout)).value;
      h := GetHeader(host, header[..]);
    }

    method StoreHeader(buf: array<byte>, h: Header)
      requires 8 <= buf.Length
      modifies buf
      ensures buf[..8] == PutHeader(host, h) && buf[8..] == old(buf[8..])
    {
      hide Htons, Htonl;
      buf[0], buf[1] := MAGIC, MAGIC;
      var kind := Htons(host, h.kind);
      buf[3], buf[2] := kind / 0x100, kind % 0x100;
      var length := Htonl(host, h.length);
      buf[7] := length / 0x100_0000;
      buf[6] := length / 0x1_0000 % 0x100;
      buf[5] := length / 0x100 % 0x100;
      buf[4] := length % 0x100;
    }

    method Write(m: Message) returns (ok: bool)
      modifies device`results, device`taken
      ensures Sent(device.taken, device.results, ok)
           == SendOnto(old(device.taken), Chunks(Frame(host, m)), old(device.results))
    {
      hide Chunks, SendOnto, PutHeader;
      var size := |m.payload|;
      var buf := new byte[2 + 2 + 4 + size](_ => 0);
      StoreHeader(buf, Header(m.kind, size % 0x1_0000_0000));
      ghost var header := buf[..8];
      forall k | 0 <= k < size { buf[8 + k] := m.payload[k]; }
      assert buf[..8] == header && buf[8..] == m.payload;
      assert buf[..buf.Length] == buf[..8] + buf[8..] == Frame(host, m);
      ok := buffer.Write(device, buf, buf.Length);
    }
  }
}
