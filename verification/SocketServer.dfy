// aesdsocket.c: the part of handle_client_connection that holds file_lock,
// and write_buffer, on top of an open device file.
module SocketServer {
  import opened Lines
  import opened DeviceSpec
  import opened AesdDevice
  import opened ServerSpec

  // A client's socket. The script says how many bytes each coming write takes,
  // possibly none, a negative number being an error; when it is used up,
  // writes are taken whole.
  class Socket {
    var sent: string
    var script: seq<int>

    constructor (script: seq<int>)
      ensures sent == "" && this.script == script
    {
      this.sent, this.script := "", script;
    }

    ghost predicate NoErrors()
      reads this
    {
      forall i :: 0 <= i < |script| ==> script[i] >= 0
    }

    method Write(buf: string) returns (ret: int)
      requires buf != ""
      modifies this
      ensures ret == -1 || 0 <= ret <= |buf|
      ensures ret <= 0 ==> |script| < |old(script)|
      ensures sent == old(sent) + if ret < 0 then "" else buf[..ret]
      ensures old(NoErrors()) ==> ret >= 0 && NoErrors()
    {
      var n := |buf|;
      if script != [] {
        n := if script[0] < n then script[0] else n;
        script := script[1..];
      }
      if n < 0 {
        return -1;
      }
      sent := sent + buf[..n];
      ret := n;
    }
  }

  datatype Fd = SocketFd(socket: Socket) | DeviceFd(file: OpenFile, faults: Faults)

  function Footprint(fd: Fd): set<object> {
    match fd
    case SocketFd(s) => {s}
    case DeviceFd(f, _) => {f, f.dev, f.dev.ring, f.dev.ring.entry, f.dev.heap}
  }

  // write(2).
  method SysWrite(fd: Fd, buf: string) returns (ret: int)
    requires buf != "" && (fd.DeviceFd? ==> fd.file.dev.Valid())
    modifies Footprint(fd)
    ensures fd.SocketFd? ==>
              && (ret == -1 || 0 <= ret <= |buf|)
              && (ret <= 0 ==> |fd.socket.script| < |old(fd.socket.script)|)
              && fd.socket.sent == old(fd.socket.sent) + (if ret < 0 then "" else buf[..ret])
              && (old(fd.socket.NoErrors()) ==> ret >= 0 && fd.socket.NoErrors())
    ensures fd.DeviceFd? ==>
              && fd.file.dev.Valid()
              && fd.file.dev.Abstract() == Write(old(fd.file.dev.Abstract()), buf, fd.faults).history
              && ret == Write(old(fd.file.dev.Abstract()), buf, fd.faults).ret
              && fd.file.fPos == old(fd.file.fPos) + if ret < 0 then 0 else |buf|
  {
    match fd
    case SocketFd(s) => ret := s.Write(buf);
    case DeviceFd(f, faults) => ret := f.Write(buf, faults);
  }

  // Writes until everything is taken or a write fails; a write that takes
  // nothing is tried again. On a socket what has been delivered is always a
  // prefix of the buffer; the device takes a write whole or not at all, and is
  // not called for an empty buffer.
  method WriteBuffer(fd: Fd, buffer: string) returns (ok: bool)
    requires fd.DeviceFd? ==> fd.file.dev.Valid()
    modifies Footprint(fd)
    ensures fd.SocketFd? ==>
              && old(fd.socket.sent) <= fd.socket.sent <= old(fd.socket.sent) + buffer
              && (ok ==> fd.socket.sent == old(fd.socket.sent) + buffer)
              && (old(fd.socket.NoErrors()) ==> ok && fd.socket.NoErrors())
    ensures fd.DeviceFd? ==>
              && fd.file.dev.Valid()
              && fd.file.fPos == old(fd.file.fPos) + (if ok then |buffer| else 0)
              && (buffer == "" ==> ok && fd.file.dev.Abstract() == old(fd.file.dev.Abstract()))
              && (buffer != "" ==>
                    && fd.file.dev.Abstract() == Write(old(fd.file.dev.Abstract()), buffer, fd.faults).history
                    && ok == Succeeds(old(fd.file.dev.Abstract()), buffer, fd.faults))
  {
    hide Split, Device.Valid, Device.Abstract;
    var bytesWritten: nat := 0;
    while bytesWritten < |buffer|
      invariant bytesWritten <= |buffer|
      invariant fd.SocketFd? ==> fd.socket.sent == old(fd.socket.sent) + buffer[..bytesWritten]
      invariant fd.SocketFd? && old(fd.socket.NoErrors()) ==> fd.socket.NoErrors()
      invariant fd.DeviceFd? ==> fd.file.dev.Valid() && fd.file.fPos == old(fd.file.fPos) + bytesWritten
      invariant fd.DeviceFd? && bytesWritten == 0 ==> fd.file.dev.Abstract() == old(fd.file.dev.Abstract())
      invariant fd.DeviceFd? && bytesWritten > 0 ==>
                  && bytesWritten == |buffer|
                  && Succeeds(old(fd.file.dev.Abstract()), buffer, fd.faults)
                  && fd.file.dev.Abstract() == Write(old(fd.file.dev.Abstract()), buffer, fd.faults).history
      decreases |buffer| - bytesWritten, if fd.SocketFd? then |fd.socket.script| else 0
    {
      var rest := buffer[bytesWritten..];
      assert bytesWritten == 0 ==> rest == buffer;
      var ret := SysWrite(fd, rest);
      if ret < 0 {
        return false;
      }
      assert fd.SocketFd? ==> buffer[..bytesWritten] + rest[..ret] == buffer[..bytesWritten + ret];
      bytesWritten := bytesWritten + ret;
    }
    assert buffer[..|buffer|] == buffer;
    return true;
  }

  const SEEK_SET := 0
  const OUT_BUFFER := 1024
  const IN_BUFFER := 1024

  // The one thing asked of fixed_size_llseek: SEEK_SET 0 gives 0.
  ghost predicate RewindHelper(lseek: LseekHelper) {
    forall p, n :: lseek(p, 0, SEEK_SET, n) == 0
  }

  // How the handling of one chunk ends.
  datatype Status = Served | SeekRefused | SendFailed

  // A send failed in the m-th exchange of a log: the device holds what the
  // first m lines left, and the client got m - 1 replies and part of the next.
  ghost predicate Stopped(h: History, log: seq<Exchange>, m: nat, now: History, before: string, sent: string)
  {
    && 0 < m <= |log|
    && now == Replay(h, log[..m])
    && before + Replies(log[..m - 1]) <= sent <= before + Replies(log[..m])
  }

  class Server {
    const file: OpenFile        // the one open file all connections share
    const scan: Scanner         // sscanf
    const lseek: LseekHelper    // fixed_size_llseek
    var fileLock: bool

    ghost predicate Valid()
      reads file, file.dev, file.dev.ring, file.dev.ring.entry, file.dev.heap
    {
      file.dev.Valid() && file.fPos >= 0 && RewindHelper(lseek)
    }

    // The state that file_lock protects.
    ghost function Now(): State
      requires file.fPos >= 0
      reads file, file.dev, file.dev.ring, file.dev.heap
    {
      State(file.dev.Abstract(), file.fPos)
    }

    // main opens whatever device there is, at position 0.
    constructor (dev: Device, scan: Scanner, lseek: LseekHelper)
      requires dev.Valid() && RewindHelper(lseek)
      ensures Valid() && !fileLock && fresh(file)
      ensures file.dev == dev && this.scan == scan && this.lseek == lseek
      ensures Now() == State(dev.Abstract(), 0)
    {
      file := new OpenFile(dev);
      this.scan, this.lseek, fileLock := scan, lseek, false;
    }

    // read from the device, write to the socket, until a read returns nothing.
    method Drain(conn: Socket) returns (ok: bool)
      requires Valid()
      modifies conn, file, file.dev`locked
      ensures Valid() && file.dev.Abstract() == old(file.dev.Abstract())
      ensures var rest := DropFrom(file.dev.Abstract().Bytes(), old(file.fPos));
              && old(conn.sent) <= conn.sent <= old(conn.sent) + rest
              && (ok ==> conn.sent == old(conn.sent) + rest)
      ensures ok ==> file.fPos == Drained(file.dev.Abstract(), old(file.fPos))
      ensures old(conn.NoErrors()) ==> ok && conn.NoErrors()
    {
      hide Device.Valid, Device.Abstract, History.Bytes, DropFrom, Drained, RewindHelper, SentSoFar;
      ghost var start := file.fPos;
      ghost var reply := DropFrom(file.dev.Abstract().Bytes(), start);
      ghost var sent := conn.sent;
      LengthFrom(file.dev.Abstract(), start);
      SentNothing(sent, reply);
      while true
        invariant Valid() && file.dev.Abstract() == old(file.dev.Abstract())
        invariant start <= file.fPos <= start + |reply|
        invariant SentSoFar(sent, reply, file.fPos - start, conn.sent)
        invariant old(conn.NoErrors()) ==> conn.NoErrors()
        decreases start + |reply| - file.fPos
      {
        ghost var done, before := file.fPos - start, conn.sent;
        var outBuffer, n := ReadNext(start);
        if n <= 0 {
          SentAll(sent, reply, before);
          return true;
        }
        ok := WriteBuffer(SocketFd(conn), outBuffer);
        SentMore(sent, reply, done, before, outBuffer, conn.sent);
        if !ok {
          return false;
        }
      }
    }

    // One read of the device: the next bytes of what is left from start on,
    // nothing exactly when all of it has been read.
    method ReadNext(ghost start: nat) returns (outBuffer: string, n: int)
      requires Valid()
      requires start <= file.fPos <= start + |DropFrom(file.dev.Abstract().Bytes(), start)|
      modifies file, file.dev`locked
      ensures Valid() && file.dev.Abstract() == old(file.dev.Abstract())
      ensures n == |outBuffer| && file.fPos == old(file.fPos) + n
      ensures var reply := DropFrom(file.dev.Abstract().Bytes(), start);
              && (n == 0 <==> old(file.fPos) == start + |reply|)
              && file.fPos <= start + |reply|
              && reply[..old(file.fPos) - start] + outBuffer == reply[..file.fPos - start]
    {
      hide Device.Valid, Device.Abstract, Flat, LastN, Locate, DeviceSpec.Read;
      ghost var w, bytes := file.dev.Abstract().Window(), file.dev.Abstract().Bytes();
      ghost var pos: nat := file.fPos;
      if pos < |bytes| {
        ReadInside(w, pos, OUT_BUFFER);
      } else {
        ReadAtEnd(w, pos, OUT_BUFFER);
      }
      outBuffer, n := file.Read(OUT_BUFFER, false, false);
      if n > 0 {
        ReadOn(bytes, start, pos, n);
      } else {
        assert outBuffer == "";
      }
    }

    // One line: seek or write, rewind, drain.
    method Answer(conn: Socket, line: string, rest: string, tagged: bool, faults: Faults) returns (status: Status)
      requires Valid()
      requires line != "" && tagged == (TAG <= line)
      modifies conn, Footprint(DeviceFd(file, faults))
      ensures Valid()
      ensures var s := ServeLine(old(Now()), line, rest, scan, faults);
              && file.dev.Abstract() == s.state.history
              && (status == SeekRefused <==> s.exchange.outcome == Closed)
              && old(conn.sent) <= conn.sent <= old(conn.sent) + s.exchange.reply
              && (status != SendFailed ==> Now() == s.state && conn.sent == old(conn.sent) + s.exchange.reply)
      ensures old(conn.NoErrors()) ==> status != SendFailed && conn.NoErrors()
    {
      hide Device.Valid, Device.Abstract, Flat, Split, LastN, LineSize, LineStart;
      if tagged {
        match scan(rest) {
          case None =>
          case Some(to) =>
            var ret := file.AdjustFileOffset(to.cmd, to.off, false);
            if ret < 0 {
              return SeekRefused;
            }
        }
      } else {
        var written := WriteBuffer(DeviceFd(file, faults), line);
        var pos := file.Llseek(0, SEEK_SET, lseek, false);
        FromTheStart(file.dev.Abstract().Bytes());
      }
      var ok := Drain(conn);
      status := if ok then Served else SendFailed;
    }

    // One segment of the buffer s, whose C string is text.
    method HandleSegment(conn: Socket, s: string, prev: nat, length: nat, faults: Faults,
                         ghost end: nat, ghost text: string)
      returns (status: Status)
      requires Valid()
      requires text == CString(s) && |text| <= end < |s| && s[end] == '\0'
      requires prev + length <= |text| && IsLine(text[prev..prev + length])
      modifies conn, Footprint(DeviceFd(file, faults))
      ensures Valid()
      ensures var st := ServeLine(old(Now()), text[prev..prev + length], text[prev..], scan, faults);
              && file.dev.Abstract() == st.state.history
              && (status == SeekRefused <==> st.exchange.outcome == Closed)
              && old(conn.sent) <= conn.sent <= old(conn.sent) + st.exchange.reply
              && (status != SendFailed ==> Now() == st.state && conn.sent == old(conn.sent) + st.exchange.reply)
      ensures old(conn.NoErrors()) ==> status != SendFailed && conn.NoErrors()
    {
      hide Device.Valid, Device.Abstract, ServeLine, IndexOf, CString, SameStart;
      TextFrom(s, text, prev, end);
      SameSegment(s, text, prev, length);
      TagTest(s, prev, length, end);
      var tagged := SameStart(s, prev, TAG, if length < |TAG| then length else |TAG|, end);
      status := Answer(conn, s[prev..prev + length], CString(s[prev..]), tagged, faults);
    }

    // The loop over the segments of the buffer s, whose C string is text. When
    // a send fails, m is the number of the exchange it happens in.
    method ServeText(conn: Socket, s: string, faults: nat -> Faults, ghost end: nat, ghost text: string)
      returns (status: Status, ghost m: nat)
      requires Valid()
      requires text == CString(s) && |text| <= end < |s| && s[end] == '\0'
      modifies conn, Footprint(DeviceFd(file, NO_FAULTS))
      ensures Valid()
      ensures var all := Serve(old(Now()), text, scan, faults, 0);
              if status == SendFailed then
                Stopped(old(file.dev.Abstract()), all.log, m, file.dev.Abstract(), old(conn.sent), conn.sent)
              else
                && Now() == all.state && conn.sent == old(conn.sent) + Replies(all.log)
                && (status == SeekRefused <==> Rejected(all.log))
      ensures old(conn.NoErrors()) ==> status != SendFailed && conn.NoErrors()
    {
      hide Device.Valid, Device.Abstract, Reached, Serve, ServeLine, Replies, Rejected, Replay;
      hide CString, FirstNewline, IsLine, IndexOf, StrChr;
      m := 0;
      ghost var st := Now();
      ghost var log: seq<Exchange> := [];
      var prev: nat, k: nat := 0, 0;
      TextFrom(s, text, 0, end);
      Begin(st, text, scan, faults, conn.sent);
      var newline := StrChr(s, prev, '\n', end);
      while newline.Some?
        invariant Valid() && prev <= |text| && newline == FirstNewline(text, prev)
        invariant k == |log| && Reached(st, text, scan, faults, log, Now(), prev)
        invariant conn.sent == old(conn.sent) + Replies(log)
        invariant old(conn.NoErrors()) ==> conn.NoErrors()
        decreases |text| - prev
      {
        m := k + 1;
        var length := newline.value - prev + 1;
        Round(st, text, scan, faults, log, Now(), prev, old(conn.sent));
        ghost var x := ServeLine(Now(), text[prev..prev + length], text[prev..], scan, faults(k)).exchange;
        status := HandleSegment(conn, s, prev, length, faults(k), end, text);
        if status != Served {
          return;
        }
        log := log + [x];
        prev, k := newline.value + 1, k + 1;
        TextFrom(s, text, prev, end);
        newline := StrChr(s, prev, '\n', end);
      }
      Ended(st, text, scan, faults, log, Now(), prev);
      status := Served;
    }

    // The critical section for inBytesRead bytes received into inBuffer. A
    // failed send returns without releasing file_lock.
    method HandleChunk(conn: Socket, inBuffer: array<char>, inBytesRead: nat, faults: nat -> Faults)
      returns (status: Status, ghost m: nat)
      requires Valid() && !fileLock
      requires inBuffer.Length == IN_BUFFER && inBytesRead < IN_BUFFER
      modifies this`fileLock, inBuffer, conn, Footprint(DeviceFd(file, NO_FAULTS))
      ensures Valid() && (fileLock <==> status == SendFailed)
      ensures var all := Serve(old(Now()), CString(old(inBuffer[..inBytesRead])), scan, faults, 0);
              if status == SendFailed then
                Stopped(old(file.dev.Abstract()), all.log, m, file.dev.Abstract(), old(conn.sent), conn.sent)
              else
                && Now() == all.state && conn.sent == old(conn.sent) + Replies(all.log)
                && (status == SeekRefused <==> Rejected(all.log))
      ensures old(conn.NoErrors()) ==> status != SendFailed && conn.NoErrors()
    {
      hide Device.Valid, Device.Abstract, Serve, Replies, CString, Rejected, Stopped;
      ghost var chunk := inBuffer[..inBytesRead];
      fileLock := true;
      inBuffer[inBytesRead] := '\0';
      var s := inBuffer[..];
      assert s[..inBytesRead] == chunk;
      ReceivedText(s, chunk, inBytesRead);
      status, m := ServeText(conn, s, faults, inBytesRead, CString(chunk));
      if status != SendFailed {
        fileLock := false;
      }
    }
  }

  // Connections are separate objects.
  ghost predicate Separate(conns: seq<Socket>) {
    forall i, j :: 0 <= i < j < |conns| ==> conns[i] != conns[j]
  }

  // No send fails.
  ghost predicate AllHealthy(conns: seq<Socket>)
    reads conns
  {
    forall i :: 0 <= i < |conns| ==> conns[i].NoErrors()
  }

  // One chunk, unless the client's connection has been closed.
  method HandleEvent(server: Server, conns: seq<Socket>, e: Event, closed: set<nat>, ghost w: World)
    returns (closed': set<nat>, ghost m: nat)
    requires server.Valid() && !server.fileLock && Separate(conns)
    requires server.Now() == w.state && closed == w.closed
    requires e.client < |conns| && |e.chunk| < IN_BUFFER
    modifies server`fileLock, conns, Footprint(DeviceFd(server.file, NO_FAULTS))
    ensures server.Valid()
    ensures old(AllHealthy(conns)) ==> !server.fileLock && AllHealthy(conns)
    ensures !server.fileLock ==>
              && server.Now() == RunOne(w, e, server.scan).state && closed' == RunOne(w, e, server.scan).closed
              && forall c :: 0 <= c < |conns| ==>
                   conns[c].sent == old(conns[c].sent) + ReplyIn(w, e, server.scan, c)
    ensures server.fileLock ==>
              && e.client !in w.closed
              && Stopped(w.state.history, ServeEvent(w, e, server.scan).log, m,
                         server.file.dev.Abstract(), old(conns[e.client].sent), conns[e.client].sent)
              && forall c :: 0 <= c < |conns| && c != e.client ==> conns[c].sent == old(conns[c].sent)
  {
    hide Server.Valid, Device.Abstract, Serve, CString, Replies, Rejected, Stopped;
    closed', m := closed, 0;
    if e.client !in closed {
      var inBuffer := new char[IN_BUFFER](i => if 0 <= i < |e.chunk| then e.chunk[i] else '\0');
      assert inBuffer[..|e.chunk|] == e.chunk;
      var status;
      status, m := server.HandleChunk(conns[e.client], inBuffer, |e.chunk|, e.faults);
      if status == SeekRefused {
        closed' := closed + {e.client};
      }
    }
  }

  // Everything up to n events has been served.
  ghost predicate ServedSoFar(w: World, before: seq<string>, now: seq<string>) {
    && |w.log| == |w.from| && |now| == |before|
    && forall c :: 0 <= c < |now| ==> now[c] == before[c] + RepliesTo(w.log, w.from, c)
  }

  lemma ServedNothing(st: State, before: seq<string>)
    ensures ServedSoFar(World(st, [], [], {}), before, before)
  {
  }

  lemma ServedOneMore(w: World, e: Event, scan: Scanner, before: seq<string>, mid: seq<string>, now: seq<string>)
    requires ServedSoFar(w, before, mid) && |now| == |mid|
    requires forall c :: 0 <= c < |now| ==> now[c] == mid[c] + ReplyIn(w, e, scan, c)
    ensures ServedSoFar(RunOne(w, e, scan), before, now)
  {
    hide RunOne, ReplyIn, RepliesTo;
    var w' := RunOne(w, e, scan);
    forall c | 0 <= c < |now|
      ensures |w'.log| == |w'.from| && now[c] == before[c] + RepliesTo(w'.log, w'.from, c)
    {
      RunOneReplies(w, e, scan, c);
      Assoc(before[c], RepliesTo(w.log, w.from, c), ReplyIn(w, e, scan, c));
    }
    assert |w'.log| == |w'.from|;
  }

  // Only client k has been sent anything since.
  lemma ServedButOne(w: World, before: seq<string>, mid: seq<string>, now: seq<string>, k: nat)
    requires ServedSoFar(w, before, mid) && |now| == |mid| && k < |now|
    requires forall c :: 0 <= c < |now| && c != k ==> now[c] == mid[c]
    ensures |w.log| == |w.from| && |before| == |now|
    ensures mid[k] == before[k] + RepliesTo(w.log, w.from, k)
    ensures ServedSoFar(w, before, now[k := before[k] + RepliesTo(w.log, w.from, k)])
  {
  }

  ghost function SentBy(conns: seq<Socket>): (r: seq<string>)
    reads conns
    ensures |r| == |conns|
  {
    seq(|conns|, i requires 0 <= i < |conns| reads conns => conns[i].sent)
  }

  // Any number of connections, each handing in chunks as its thread gets
  // file_lock. While no send fails the device and every socket end up as Run
  // says. A failing send keeps file_lock, so the run stops there, in the m-th
  // exchange of event n: the device holds what the lines up to that one left,
  // its client got part of that reply, and every other client what the events
  // before gave it.
  method Interleave(server: Server, conns: seq<Socket>, events: seq<Event>) returns (ghost n: nat, ghost m: nat)
    requires server.Valid() && !server.fileLock && Separate(conns)
    requires forall i :: 0 <= i < |events| ==> events[i].client < |conns| && |events[i].chunk| < IN_BUFFER
    modifies server`fileLock, conns, Footprint(DeviceFd(server.file, NO_FAULTS))
    ensures server.Valid() && n <= |events|
    ensures server.fileLock <==> n < |events|
    ensures old(AllHealthy(conns)) ==> !server.fileLock
    ensures !server.fileLock ==>
              && server.Now() == Run(old(server.Now()), events, server.scan).state
              && ServedSoFar(Run(old(server.Now()), events, server.scan), old(SentBy(conns)), SentBy(conns))
    ensures server.fileLock ==>
              var w, e := Run(old(server.Now()), events[..n], server.scan), events[n];
              var before, sent := old(SentBy(conns)), SentBy(conns);
              && e.client !in w.closed
              && Stopped(w.state.history, ServeEvent(w, e, server.scan).log, m, server.file.dev.Abstract(),
                         before[e.client] + RepliesTo(w.log, w.from, e.client), sent[e.client])
              && ServedSoFar(w, before, sent[e.client := before[e.client] + RepliesTo(w.log, w.from, e.client)])
  {
    hide Device.Valid, Device.Abstract, RewindHelper, RunOne, ReplyIn, Stopped, Serve, RepliesTo, ServedSoFar, AllHealthy;
    ghost var st, before := server.Now(), SentBy(conns);
    var closed: set<nat> := {};
    var i := 0;
    m := 0;
    ServedNothing(st, before);
    while i < |events|
      invariant 0 <= i <= |events|
      invariant server.Valid() && !server.fileLock
      invariant server.Now() == Run(st, events[..i], server.scan).state
      invariant closed == Run(st, events[..i], server.scan).closed
      invariant old(AllHealthy(conns)) ==> AllHealthy(conns)
      invariant ServedSoFar(Run(st, events[..i], server.scan), before, SentBy(conns))
    {
      var e := events[i];
      ghost var w, mid := Run(st, events[..i], server.scan), SentBy(conns);
      assert events[..i + 1][..i] == events[..i];
      closed, m := HandleEvent(server, conns, e, closed, w);
      if server.fileLock {
        n := i;
        ServedButOne(w, before, mid, SentBy(conns), e.client);
        return;
      }
      ServedOneMore(w, e, server.scan, before, mid, SentBy(conns));
      i := i + 1;
    }
    n := |events|;
    assert events[..|events|] == events;
  }

  // What is still to come after a position of the text.
  ghost function FirstNewline(text: string, prev: nat): Option<nat>
    requires prev <= |text|
  {
    var k := IndexOf(text[prev..], '\n');
    if k < |text| - prev then Some(prev + k) else None
  }

  // The loop over the segments has answered log, is in state cur, and has the
  // text from prev on before it.
  ghost predicate Reached(st: State, text: string, scan: Scanner, faults: nat -> Faults,
                          log: seq<Exchange>, cur: State, prev: nat)
  {
    && prev <= |text| && !Rejected(log)
    && Serve(st, text, scan, faults, 0) == Append(log, Serve(cur, text[prev..], scan, faults, |log|))
    && cur.history == Replay(st.history, log)
  }

  ghost function Append(log: seq<Exchange>, s: Session): Session {
    s.(log := log + s.log)
  }

  lemma Begin(st: State, text: string, scan: Scanner, faults: nat -> Faults, sent: string)
    ensures Reached(st, text, scan, faults, [], st, 0)
    ensures sent == sent + Replies([])
  {
    assert text[0..] == text;
  }

  lemma Ended(st: State, text: string, scan: Scanner, faults: nat -> Faults, log: seq<Exchange>, cur: State, prev: nat)
    requires prev <= |text| && FirstNewline(text, prev).None?
    requires Reached(st, text, scan, faults, log, cur, prev)
    ensures Serve(st, text, scan, faults, 0) == Session(cur, log) && !Rejected(log)
  {
    assert log + [] == log;
  }

  // One round: what the next segment does, seen from the whole text.
  lemma Round(st: State, text: string, scan: Scanner, faults: nat -> Faults,
              log: seq<Exchange>, cur: State, prev: nat, sent: string)
    requires prev <= |text| && FirstNewline(text, prev).Some?
    requires Reached(st, text, scan, faults, log, cur, prev)
    ensures var n, all := FirstNewline(text, prev).value - prev + 1, Serve(st, text, scan, faults, 0);
            && n > 0 && prev + n <= |text| && IsLine(text[prev..prev + n])
            && var s := ServeLine(cur, text[prev..prev + n], text[prev..], scan, faults(|log|));
               var r := sent + Replies(log);
               && r + s.exchange.reply == sent + Replies(log + [s.exchange])
               && (s.exchange.outcome == Closed ==> all == Session(s.state, log + [s.exchange]) && Rejected(all.log))
               && (s.exchange.outcome != Closed ==>
                     Reached(st, text, scan, faults, log + [s.exchange], s.state, prev + n))
               && |log| < |all.log| && all.log[..|log|] == log && all.log[..|log| + 1] == log + [s.exchange]
               && Replay(st.history, log + [s.exchange]) == s.state.history
  {
    hide ServeLine, Split, Serve, IsLine, Replay, Replies;
    var n, all := FirstNewline(text, prev).value - prev + 1, Serve(st, text, scan, faults, 0);
    SplitHead(text[prev..]);
    SliceOfDrop(text, prev, n);
    ServeUnfold(cur, text[prev..], scan, faults, |log|);
    var s := ServeLine(cur, text[prev..prev + n], text[prev..], scan, faults(|log|));
    var x := s.exchange;
    var r := if x.outcome == Closed then [] else Serve(s.state, text[prev + n..], scan, faults, |log| + 1).log;
    LogSplit(log, x, r);
    RepliesSnoc(sent, log, x);
    ReplayServed(cur, text[prev..prev + n], text[prev..], scan, faults(|log|));
    ReplaySnoc(st.history, log, x);
  }

  lemma LogSplit(log: seq<Exchange>, x: Exchange, r: seq<Exchange>)
    ensures log + ([x] + r) == (log + [x]) + r
    ensures (log + ([x] + r))[..|log|] == log && (log + ([x] + r))[..|log| + 1] == log + [x]
    ensures [x] + [] == [x] && (log + [x]) + [] == log + [x]
  {
  }

  lemma RepliesSnoc(sent: string, log: seq<Exchange>, x: Exchange)
    ensures (sent + Replies(log)) + x.reply == sent + Replies(log + [x])
  {
    RepliesAppend(log, [x]);
    assert [x][1..] == [];
    assert Replies([x]) == x.reply + "";
    Assoc(sent, Replies(log), x.reply);
  }

  lemma {:induction false} ReplayServed(st: State, line: string, rest: string, scan: Scanner, f: Faults)
    ensures var s := ServeLine(st, line, rest, scan, f);
            Replay(st.history, [s.exchange]) == s.state.history
  {
    hide Write, Seek, Drained;
    var x := ServeLine(st, line, rest, scan, f).exchange;
    assert [x][..0] == [];
  }

  lemma ReplaySnoc(h: History, log: seq<Exchange>, x: Exchange)
    ensures Replay(h, log + [x]) == Replay(Replay(h, log), [x])
  {
    hide Write;
    assert [x][..0] == [];
    assert (log + [x])[..|log|] == log;
  }

  lemma FromTheStart(s: string)
    ensures DropFrom(s, 0) == s
  {
  }

  lemma IndexOfDrop(s: string, c: char, from: nat)
    requires from <= IndexOf(s, c)
    ensures IndexOf(s[from..], c) == IndexOf(s, c) - from
  {
  }

  // The buffer with its NUL in place holds the text of the chunk.
  lemma ReceivedText(s: string, chunk: string, end: nat)
    requires end < |s| && s[..end] == chunk && s[end] == '\0'
    ensures CString(s) == CString(chunk) && |CString(s)| <= end
  {
    var i, j := IndexOf(s, '\0'), IndexOf(chunk, '\0');
    assert forall k :: 0 <= k < end ==> s[k] == chunk[k];
    assert i == j;
  }

  lemma CStringDrop(s: string, from: nat)
    requires from <= |CString(s)|
    ensures CString(s[from..]) == CString(s)[from..]
  {
    IndexOfDrop(s, '\0', from);
  }

  // Searching the buffer from a position is searching the text from there.
  lemma TextFrom(s: string, text: string, from: nat, end: nat)
    requires from <= |text| <= end < |s| && s[end] == '\0' && text == CString(s)
    ensures CString(s[from..]) == text[from..]
    ensures StrChr(s, from, '\n', end) == FirstNewline(text, from)
  {
    hide StrChr, CString, IndexOf;
    CStringDrop(s, from);
    StrChrIsIndexOf(s, from, end);
  }

  lemma SameSegment(s: string, text: string, from: nat, n: nat)
    requires text == CString(s) && from + n <= |text|
    ensures |text| <= |s| && s[from..from + n] == text[from..from + n]
  {
  }

  lemma ReadOn(s: string, start: nat, pos: nat, n: nat)
    requires start <= pos && pos + n <= |s|
    ensures DropFrom(s, start)[..pos - start] + s[pos..pos + n] == DropFrom(s, start)[..pos + n - start]
  {
  }

  lemma LengthFrom(h: History, start: nat)
    ensures start + |DropFrom(h.Bytes(), start)| == Drained(h, start)
  {
  }

  // The first done bytes of the reply have been sent after what was sent before.
  ghost predicate SentSoFar(sent: string, reply: string, done: nat, now: string) {
    done <= |reply| && now == sent + reply[..done]
  }

  lemma SentNothing(sent: string, reply: string)
    ensures SentSoFar(sent, reply, 0, sent)
  {
  }

  lemma SentAll(sent: string, reply: string, now: string)
    requires SentSoFar(sent, reply, |reply|, now)
    ensures now == sent + reply && sent <= now
  {
  }

  lemma SentMore(sent: string, reply: string, done: nat, before: string, out: string, now: string)
    requires SentSoFar(sent, reply, done, before)
    requires done + |out| <= |reply| && reply[..done] + out == reply[..done + |out|]
    requires before <= now <= before + out
    ensures sent <= now <= sent + reply
    ensures now == before + out ==> SentSoFar(sent, reply, done + |out|, now)
  {
    Assoc(sent, reply[..done], out);
    assert sent + reply[..done + |out|] <= sent + reply;
  }
}
