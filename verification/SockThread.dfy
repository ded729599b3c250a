/** One client session (server/sock_thread.c): read a line, append it or seek, send the device's contents back. */
module SockThread {
  import opened Sequences
  import opened CommandLog
  import opened DeviceState
  import opened CharDevice
  import opened LineReader
  import opened LineWrites
  import opened ControlLine
  import opened ThreadList

  // ----- What a session does to the log and what it answers

  /** The log after the session with this line has held the mutex. */
  function AfterLine(log: Log, line: seq<byte>): Log {
    if ParseCtrl(line).Some? then log else Accept(log, line)
  }

  /** What a session sends once its line is on the device: the contents, or those from the position it asks for. */
  function Answer(log: Log, line: seq<byte>): seq<byte> {
    match ParseCtrl(line)
    case None => Contents(log)
    case Some(seekTo) => SeekAnswer(log, seekTo)
  }

  /** What a session sends that takes the mutex with this log. */
  function Response(log: Log, line: seq<byte>): seq<byte> {
    Answer(AfterLine(log, line), line)
  }

  function SeekAnswer(log: Log, seekTo: SeekTo): seq<byte> {
    match SeekTarget(log.commands, seekTo.writeCmd, seekTo.writeCmdOffset)
    case None => []
    case Some(pos) =>
      SeekLandsInside(log.commands, seekTo.writeCmd, seekTo.writeCmdOffset, 1);
      Contents(log)[pos..]
  }

  predicate EndsWith(s: seq<byte>, tail: seq<byte>) {
    |s| >= |tail| && s[|s| - |tail|..] == tail
  }

  /** A client that sends a normal line gets back the at most ten newest commands, its own last: the line
      ends the response, after any bytes still pending when the session took the mutex. */
  lemma NormalLineResponse(log: Log, line: seq<byte>)
    requires ParseCtrl(line).None? && EndsLine(line)
    ensures AfterLine(log, line) == Log(log.commands + [log.pending + line], [])
    ensures Response(log, line) == Flatten(Newest(log.commands + [log.pending + line]))
    ensures EndsWith(Response(log, line), line)
  {
    var commands := log.commands + [log.pending + line];
    var w := Newest(commands);
    assert w[|w| - 1] == log.pending + line;
    assert w == w[..|w| - 1] + [log.pending + line];
    FlattenSnoc(w[..|w| - 1], log.pending + line);
  }

  /** A line that is not ended commits nothing: the client gets back what was stored before. */
  lemma UnfinishedLineResponse(log: Log, line: seq<byte>)
    requires ParseCtrl(line).None? && !EndsLine(log.pending + line)
    ensures AfterLine(log, line) == Log(log.commands, log.pending + line)
    ensures Response(log, line) == Flatten(Newest(log.commands))
  {
  }

  /** The answer to a request, whatever the state of the ring: nothing unless the slot of that number is long enough,
      else the end of the contents, as long as the rest of that slot and the slots after it together. */
  lemma SeekAnswerLength(log: Log, line: seq<byte>, x: nat, y: nat)
    requires ParseCtrl(line) == Some(SeekTo(x, y))
    ensures var slots, r := Slots(log.commands, []), Response(log, line);
      if x < SLOTS && y < |slots[x]|
      then EndsWith(Contents(log), r) && |r| == Sum(Sizes(slots)[x..]) - y
      else r == []
  {
    if SeekTarget(log.commands, x, y).Some? {
      SeekLandsInside(log.commands, x, y, 1);
      LeftAfterSeek(log.commands, x, y);
    }
  }

  /** While the oldest command is in slot 0, a client that asks for byte y of command x gets back exactly the contents
      from there, and nothing if there is no such byte. */
  lemma SeekSelectsResponse(log: Log, x: nat, y: nat)
    requires OldestSlot(|log.commands|) == 0 && x < 0x8000_0000 && y < 0x8000_0000
    ensures var w := Newest(log.commands);
      Response(log, PrintCtrl(x, y)) ==
        if x < |w| && y < |w[x]| then w[x][y..] + Flatten(w[x + 1..]) else []
  {
    ParseInvertsPrint(x, y);
    SeekReadRoundTrip(log.commands, x, y);
  }

  /** An accepted seek answers with at least one byte: the rest of the contents from the position it names. */
  lemma SeekResponse(log: Log, line: seq<byte>)
    requires ParseCtrl(line).Some?
    ensures var SeekTo(x, y) := ParseCtrl(line).value;
      && AfterLine(log, line) == log
      && (Response(log, line) == [] <==> SeekTarget(log.commands, x, y).None?)
      && EndsWith(Contents(log), Response(log, line))
  {
    var SeekTo(x, y) := ParseCtrl(line).value;
    if SeekTarget(log.commands, x, y).Some? {
      SeekLandsInside(log.commands, x, y, 1);
    }
  }

  /** The device writes a session makes: those of its line, or none for a control line. */
  predicate SessionWrites(line: seq<byte>, ws: seq<WriteEvent>) {
    if ParseCtrl(line).Some? then ws == [] else Appended(line, ws)
  }

  /** If none of them fails, the session does what it would have done with a single write. */
  lemma SessionWithoutFailure(s: State, line: seq<byte>, ws: seq<WriteEvent>)
    requires Sound(s) && IsLine(line) && SessionWrites(line, ws) && AllSucceed(ws)
    ensures Run(s, ws) == s.(log := AfterLine(s.log, line)) && Sound(Run(s, ws))
    ensures Answer(Run(s, ws).log, line) == Response(s.log, line)
  {
    if ParseCtrl(line).None? {
      WholeIffAllSucceed(line, ws);
      AcceptedIffWhole(s, line, ws);
    } else {
      assert Run(s, []) == s;
    }
  }

  // ----- stdio over the device

  /** The device is well formed, no bytes are lost and no complete command is waiting. */
  ghost predicate Healthy(dev: Device)
    reads dev, dev.buffer, dev.buffer.entry, dev.mem
  {
    dev.Valid() && Sound(dev.state)
  }

  /** One device write of at least one byte. */
  method WriteBytes(dev: Device, f: OpenFile, part: seq<byte>, env: Env) returns (ok: bool, ghost e: WriteEvent)
    requires dev.Valid() && part != []
    modifies dev, dev.buffer, dev.buffer.entry, dev.mem, f
    ensures dev.Valid() && e.chunk == part && e.env == env && dev.state == WriteStep(old(dev.state), e)
    ensures ok == Succeeds(e)
  {
    var r;
    r, e := dev.Write(f, part, env);
    ok := r.Count?;
  }

  /** fwrite and the write-back when the file is closed: the line goes out in the device writes `io` cuts it into,
      up to the first that fails. */
  method WriteOut(dev: Device, f: OpenFile, line: seq<byte>, io: Io)
    returns (bytesWritten: nat, ghost ws: seq<WriteEvent>)
    requires dev.Valid()
    modifies dev, dev.buffer, dev.buffer.entry, dev.mem, f
    ensures dev.Valid() && dev.state == Run(old(dev.state), ws)
    ensures Over(io, line, ws)
    ensures bytesWritten <= |line| && (bytesWritten < |line| <==> Cut(line, ws))
  {
    ghost var s := dev.state;
    var rest, parts := line, 0;
    ws := [];
    ProgressStarts(io, line);
    while rest != []
      invariant dev.Valid() && dev.state == Run(s, ws)
      invariant InProgress(io, line, ws, rest) && parts == |ws| && |rest| <= |line|
      decreases |rest|
    {
      var n := PartSize(io, parts, |rest|);
      var ok, e := WriteBytes(dev, f, rest[..n], io.envs(parts));
      RunSnoc(s, ws, e);
      ProgressStep(io, line, ws, rest, n, e);
      ws := ws + [e];
      if !ok {
        return |line| - |rest|, ws;
      }
      rest := rest[n..];
      parts := parts + 1;
    }
    ProgressEnds(io, line, ws);
    WholeIffAllSucceed(line, ws);
    return |line|, ws;
  }

  /** append_to_file reports success whatever happens.  The device has taken the whole line if and only if none of
      the device writes it is cut into fails, and otherwise what was written before the failure, less what that
      lost. */
  method AppendToFile(dev: Device, f: OpenFile, line: seq<byte>, io: Io) returns (ok: bool, ghost ws: seq<WriteEvent>)
    requires dev.Valid()
    modifies dev, dev.buffer, dev.buffer.entry, dev.mem, f
    ensures ok && dev.Valid() && dev.state == Run(old(dev.state), ws)
    ensures Over(io, line, ws)
    ensures |Stream(dev.state.log)| == |Stream(old(dev.state.log))| + |line| <==> GoesThrough(io, 0, line)
    ensures Sound(old(dev.state)) && IsLine(line) ==>
      (dev.state.log == Accept(old(dev.state.log), line) <==> GoesThrough(io, 0, line))
  {
    var bytesWritten;
    bytesWritten, ws := WriteOut(dev, f, line, io);
    AcceptedIffWhole(old(dev.state), line, ws);
    // A short count is reported on the terminal, and that is all.
    return true, ws;
  }

  /** True is returned although nothing was written: the one device write of "a\n" is interrupted. */
  method LostLineExample() returns (ok: bool, dev: Device)
    ensures ok && dev.Valid() && dev.state == INITIAL
  {
    dev := new Device();
    var f := new OpenFile();
    var line: seq<byte> := [97, NEWLINE];
    ghost var ws;
    ok, ws := AppendToFile(dev, f, line, Io(_ => 2, _ => Env(false, true, true)));
    InterruptedWritesDoNothing(INITIAL, ws);
  }

  lemma {:induction false} InterruptedWritesDoNothing(s: State, ws: seq<WriteEvent>)
    requires forall i :: 0 <= i < |ws| ==> !ws[i].env.lock
    ensures Run(s, ws) == s
    decreases |ws|
  {
    if ws != [] {
      InterruptedWritesDoNothing(WriteStep(s, ws[0]), ws[1..]);
    }
  }

  lemma SplitAhead(ahead: seq<byte>, rest: seq<byte>, i: nat)
    requires i <= |ahead|
    ensures ahead + rest == ahead[..i] + (ahead[i..] + rest)
  {
  }

  /** What one read takes off the device is added behind what was read ahead. */
  lemma ReadMovesAhead(log: Log, ahead: seq<byte>, pos: nat, count: nat, bytes: seq<byte>)
    requires pos <= |Contents(log)| && count > 0 && bytes == ReadPiece(Newest(log.commands), pos, count)
    ensures pos + |bytes| <= |Contents(log)|
    ensures (ahead + bytes) + Contents(log)[pos + |bytes|..] == ahead + Contents(log)[pos..]
    ensures bytes == [] ==> pos == |Contents(log)| && ahead + bytes == ahead
  {
    var all := Contents(log);
    PieceIsContiguous(Newest(log.commands), pos, count);
    assert all[pos..] == bytes + all[pos + |bytes|..];
    Associative(ahead, bytes, all[pos + |bytes|..]);
  }

  /** A newline read ahead ends the line. */
  lemma LineEndsWithin(ahead: seq<byte>, rest: seq<byte>, n: nat)
    requires 0 < n <= |ahead| && NoNewlineBefore(ahead, n - 1) && ahead[n - 1] == NEWLINE
    ensures LineOf(ahead + rest) == ahead[..n]
  {
    LineEndsAt(ahead + rest, n - 1);
    assert (ahead + rest)[..n] == ahead[..n];
  }

  /** With nothing left on the device the line is all that was read ahead. */
  lemma LineIsAll(ahead: seq<byte>, rest: seq<byte>)
    requires rest == [] && NoNewlineBefore(ahead, |ahead|)
    ensures LineOf(ahead + rest) == ahead[..|ahead|]
  {
    assert ahead + rest == ahead;
    NoNewlineLine(ahead);
  }

  /** Looks for the end of the line from `from` on: `n` is how long the line is, or all there is. */
  method ScanLine(s: seq<byte>, from: nat) returns (found: bool, n: nat)
    requires NoNewlineBefore(s, from)
    ensures found ==> 0 < n <= |s| && NoNewlineBefore(s, n - 1) && s[n - 1] == NEWLINE
    ensures !found ==> n == |s| && NoNewlineBefore(s, n)
  {
    n := from;
    while n < |s|
      invariant NoNewlineBefore(s, n)
    {
      n := n + 1;
      if s[n - 1] == NEWLINE {
        return true, n;
      }
    }
    return false, n;
  }

  /** A file being read through stdio: bytes already read ahead, then the device from the file position. */
  class ReadStream {
    const dev: Device
    const f: OpenFile
    var ahead: seq<byte>

    constructor (dev: Device, f: OpenFile)
      ensures this.dev == dev && this.f == f && ahead == []
    {
      this.dev, this.f, ahead := dev, f, [];
    }

    ghost predicate Valid()
      reads this, f, dev, dev.buffer, dev.buffer.entry, dev.mem
    {
      dev.Valid() && f.fPos <= |Contents(dev.state.log)|
    }

    /** The bytes still to be delivered. */
    ghost function Rest(): seq<byte>
      requires Valid()
      reads this, f, dev, dev.buffer, dev.buffer.entry, dev.mem
    {
      ahead + Contents(dev.state.log)[f.fPos..]
    }

    /** One device read of any positive size; false at the end of the device. */
    method Fill() returns (more: bool)
      requires Valid()
      modifies this, f
      ensures Valid() && Rest() == old(Rest()) && old(ahead) <= ahead
      ensures more ==> f.fPos > old(f.fPos)
      ensures !more ==> f.fPos == |Contents(dev.state.log)| && ahead == old(ahead)
    {
      var count :| count > 0;
      ghost var pos := f.fPos;
      var r, bytes := dev.Read(f, count, NO_FAILURE);
      ReadMovesAhead(dev.state.log, ahead, pos, count, bytes);
      more := bytes != [];
      ahead := ahead + bytes;
    }

    /** Reads ahead until there is a newline or nothing more; returns how much of that is the next line. */
    method FindLine() returns (n: nat)
      requires Valid()
      modifies this, f
      ensures Valid() && Rest() == old(Rest())
      ensures n <= |ahead| && ahead[..n] == LineOf(Rest())
    {
      n := 0;
      while true
        invariant Valid() && Rest() == old(Rest())
        invariant NoNewlineBefore(ahead, n)
        decreases |Contents(dev.state.log)| - f.fPos
      {
        var found;
        found, n := ScanLine(ahead, n);
        if found {
          LineEndsWithin(ahead, Contents(dev.state.log)[f.fPos..], n);
          return;
        }
        var more := Fill();
        if !more {
          LineIsAll(ahead, Contents(dev.state.log)[f.fPos..]);
          return;
        }
      }
    }

    /** getline: through the next newline, or whatever is left; nothing at the end. */
    method Getline() returns (line: seq<byte>)
      requires Valid()
      modifies this, f
      ensures Valid() && line == LineOf(old(Rest())) && old(Rest()) == line + Rest()
      ensures line == [] <==> old(Rest()) == []
    {
      var n := FindLine();
      line := ahead[..n];
      SplitAhead(ahead, Contents(dev.state.log)[f.fPos..], n);
      ahead := ahead[n..];
    }
  }

  /** send_file: whatever the read sizes and however few bytes each send takes, the client receives exactly
      the contents from the file position to the end. */
  method SendFile(dev: Device, f: OpenFile, sock: Socket)
    requires dev.Valid() && f.fPos <= |Contents(dev.state.log)| && sock.isOpen
    modifies f, sock`sent
    ensures sock.sent == old(sock.sent) + Contents(dev.state.log)[old(f.fPos)..]
  {
    var file := new ReadStream(dev, f);
    assert file.Rest() == Contents(dev.state.log)[f.fPos..];
    SendStream(file, sock);
  }

  /** The outer loop: line by line until getline finds nothing. */
  method SendStream(file: ReadStream, sock: Socket)
    requires file.Valid() && sock.isOpen
    modifies file, file.f, sock`sent
    ensures sock.sent == old(sock.sent) + old(file.Rest())
  {
    ghost var all := file.Rest();
    var line := file.Getline();
    Associative(sock.sent, line, file.Rest());
    while line != []
      invariant file.Valid()
      invariant sock.sent + line + file.Rest() == old(sock.sent) + all
      invariant line == [] ==> file.Rest() == []
      decreases |file.Rest()| + |line|
    {
      SendAll(line, sock);
      line := file.Getline();
      Associative(sock.sent, line, file.Rest());
    }
  }

  /** The inner loop: a line goes out in as many sends as it takes. */
  method SendAll(line: seq<byte>, sock: Socket)
    requires sock.isOpen
    modifies sock`sent
    ensures sock.sent == old(sock.sent) + line
  {
    var bytesLeft, offset := |line|, 0;
    while bytesLeft > 0
      invariant bytesLeft + offset == |line| && bytesLeft >= 0 && offset >= 0
      invariant sock.sent == old(sock.sent) + line[..offset]
    {
      var bytesSent := sock.Send(line[offset..]);
      assert line[..offset] + line[offset..][..bytesSent] == line[..offset + bytesSent];
      bytesLeft := bytesLeft - bytesSent;
      offset := offset + bytesSent;
    }
    assert line[..offset] == line;
  }

  // ----- The session

  datatype SessionResult = Served(line: seq<byte>) | ReadFailed | Undefined

  /** What a session with this line does between taking and giving back the mutex: its writes, all of them exactly
      if none of them fails, and whatever they did to the device the answer from what is then on it. */
  ghost predicate Serves(line: seq<byte>, io: Io, ws: seq<WriteEvent>, before: State, after: State,
                         sentBefore: seq<byte>, sentAfter: seq<byte>)
  {
    match after
    case State(log, _, _) =>
      && (if ParseCtrl(line).Some? then ws == [] else Over(io, line, ws))
      && after == Run(before, ws)
      && sentAfter == sentBefore + Answer(log, line)
  }

  /** The session does not meet a failure: it sends a control line, or its writes go through. */
  predicate Unhindered(line: seq<byte>, io: Io) {
    ParseCtrl(line).Some? || GoesThrough(io, 0, line)
  }

  /** On a sound device a session moves the log by `AfterLine` if and only if it is not hindered, and then the
      client receives `Response`. */
  lemma ServesAsExpected(line: seq<byte>, io: Io, ws: seq<WriteEvent>, before: State, after: State,
                         sentBefore: seq<byte>, sentAfter: seq<byte>)
    requires Serves(line, io, ws, before, after, sentBefore, sentAfter) && Sound(before) && IsLine(line)
    ensures after.log == AfterLine(before.log, line) <==> Unhindered(line, io)
    ensures Unhindered(line, io) ==> Sound(after) && sentAfter == sentBefore + Response(before.log, line)
  {
    if ParseCtrl(line).None? {
      WholeIffAllSucceed(line, ws);
      AcceptedIffWhole(before, line, ws);
    }
    if Unhindered(line, io) {
      SessionWithoutFailure(before, line, ws);
    }
  }

  /** From mutex to mutex. */
  method ServeLine(line: array<byte>, size: nat, dev: Device, sock: Socket, io: Io)
    returns (ghost ws: seq<WriteEvent>)
    requires size <= line.Length && dev.Valid() && sock.isOpen
    modifies line, dev, dev.buffer, dev.buffer.entry, dev.mem, sock`sent
    ensures dev.Valid()
    ensures Serves(old(line[..size]), io, ws, old(dev.state), dev.state, old(sock.sent), sock.sent)
  {
    ghost var text := line[..size];
    var seekTo := ParseCtrlLine(line, size);
    ws := [];
    if seekTo.None? {
      assert line[..size] == text;
      ws := AppendAndSend(line[..size], dev, sock, io);
    } else {
      SeekAndSend(seekTo.value, dev, sock);
      assert Run(dev.state, []) == dev.state;
    }
  }

  /** Reopening at the start and sending everything. */
  method SendContents(dev: Device, sock: Socket)
    requires dev.Valid() && sock.isOpen
    modifies sock`sent
    ensures sock.sent == old(sock.sent) + Contents(dev.state.log)
  {
    var f := new OpenFile();
    SendFile(dev, f, sock);
    assert Contents(dev.state.log)[0..] == Contents(dev.state.log);
  }

  /** Appending a normal line, and the answer: whatever became of the line, as the append reports success. */
  method AppendAndSend(line: seq<byte>, dev: Device, sock: Socket, io: Io) returns (ghost ws: seq<WriteEvent>)
    requires dev.Valid() && sock.isOpen && ParseCtrl(line).None?
    modifies dev, dev.buffer, dev.buffer.entry, dev.mem, sock`sent
    ensures dev.Valid()
    ensures Serves(line, io, ws, old(dev.state), dev.state, old(sock.sent), sock.sent)
  {
    var f := new OpenFile();
    var ok;
    ok, ws := AppendToFile(dev, f, line, io);
    if ok {
      SendContents(dev, sock);
    }
  }

  /** Reopening at the start, the seek request, and the answer if it is accepted. */
  method SeekAndSend(seekTo: SeekTo, dev: Device, sock: Socket)
    requires dev.Valid() && sock.isOpen
    modifies sock`sent
    ensures sock.sent == old(sock.sent) + SeekAnswer(dev.state.log, seekTo)
  {
    var f := new OpenFile();
    var r := dev.AdjustFileOffset(f, seekTo.writeCmd, seekTo.writeCmdOffset, NO_FAILURE);
    if SeekTarget(dev.state.log.commands, seekTo.writeCmd, seekTo.writeCmdOffset).Some? {
      SeekLandsInside(dev.state.log.commands, seekTo.writeCmd, seekTo.writeCmdOffset, 1);
    }
    if r == Count(0) {
      SendFile(dev, f, sock);
    }
  }

  /** Closing the socket named in the thread's record, which the main thread may free once the flag is up. */
  method CloseSocketOf(args: ThreadArgs, sock: Socket)
    requires sock.isOpen && !args.finished
    modifies sock`isOpen
    ensures !sock.isOpen
  {
    sock.Close();
  }

  /** The last acts of the thread: the socket is closed, and only then the flag is raised. */
  method Finish(sock: Socket, args: ThreadArgs)
    requires sock.isOpen && !args.finished
    modifies sock`isOpen, args`finished
    ensures !sock.isOpen && args.finished
  {
    CloseSocketOf(args, sock);
    args.finished := true;
  }

  /** From mutex to the end of the thread. */
  method ServeAndFinish(line: array<byte>, size: nat, ghost text: seq<byte>, args: ThreadArgs,
                        dev: Device, sock: Socket, io: Io)
    returns (ghost ws: seq<WriteEvent>)
    requires size <= line.Length && text == line[..size]
    requires dev.Valid() && sock.isOpen && !args.finished
    modifies line, dev, dev.buffer, dev.buffer.entry, dev.mem, sock`sent, sock`isOpen, args`finished
    ensures dev.Valid() && !sock.isOpen && args.finished
    ensures Serves(text, io, ws, old(dev.state), dev.state, old(sock.sent), sock.sent)
  {
    ws := ServeLine(line, size, dev, sock, io);
    Finish(sock, args);
  }

  /** Receiving the line touches neither the device nor what was sent. */
  method ReceiveLine(sock: Socket, mem: UserMemory, dev: Device) returns (got: ReadResult)
    requires sock.isOpen && !sock.failed && !mem.failed && dev.Valid()
    modifies sock`incoming, sock`failed, mem
    ensures dev.Valid() && dev.state == old(dev.state)
    ensures got.Failed? <==> sock.failed || mem.failed
    ensures !got.Failed? ==> (got.Overflowed? <==> NoNewlineBefore(old(sock.incoming), MAX_BUFSIZE))
    ensures got.Line? ==>
      && fresh(got.buf) && got.size <= got.buf.Length
      && got.buf[..got.size] == LineOf(old(sock.incoming)) && IsLine(LineOf(old(sock.incoming)))
  {
    LineOfIsLine(sock.incoming);
    got := ReadlineFromSocket(sock, mem);
  }

  /** The whole thread: however the line arrives, whatever the device writes meet and however the answer is taken,
      the session acts on the first line of what the client sends, and on nothing if receiving fails; it closes its
      socket, once, and raises its flag. */
  method SockThreadFunc(args: ThreadArgs, sock: Socket, mem: UserMemory, dev: Device, io: Io)
    returns (r: SessionResult, ghost ws: seq<WriteEvent>)
    requires sock.isOpen && !sock.failed && !mem.failed && !args.finished && dev.Valid()
    modifies sock, args`finished, mem, dev, dev.buffer, dev.buffer.entry, dev.mem
    ensures dev.Valid()
    ensures r.ReadFailed? <==> sock.failed || mem.failed
    ensures !r.ReadFailed? ==> (r.Undefined? <==> NoNewlineBefore(old(sock.incoming), MAX_BUFSIZE))
    ensures !r.Undefined? ==> !sock.isOpen && args.finished
    ensures r.Served? ==>
      && r.line == LineOf(old(sock.incoming)) && IsLine(r.line)
      && Serves(r.line, io, ws, old(dev.state), dev.state, old(sock.sent), sock.sent)
    ensures !r.Served? ==> dev.state == old(dev.state) && sock.sent == old(sock.sent)
  {
    ws := [];
    var got := ReceiveLine(sock, mem, dev);
    match got
    case Failed =>
      Finish(sock, args);
      r := ReadFailed;
    case Overflowed =>
      r := Undefined;
    case Line(buf, size) =>
      var line := buf[..size];
      ws := ServeAndFinish(buf, size, line, args, dev, sock, io);
      r := Served(line);
  }
}
