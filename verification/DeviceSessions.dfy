/**
 The interleaved sessions on the real device: every step of `Sessions` that touches the device is one call of the
 driver, on the file of the thread that takes the step.
 */
module DeviceSessions {
  import opened Sequences
  import opened CommandLog
  import opened DeviceState
  import opened CharDevice
  import opened ControlLine
  import opened LineWrites
  import opened SockThread
  import Sessions

  /** What the threads and the mutex are at, and what each client has received. */
  datatype Threads = Threads(holder: Option<Sessions.Tid>, phases: seq<Sessions.Phase>, sent: seq<seq<byte>>)

  /** Device, files and threads are in the state `s`. */
  ghost predicate Carries(dev: Device, files: seq<OpenFile>, th: Threads, s: Sessions.State)
    reads dev, dev.buffer, dev.buffer.entry, dev.mem, files
  {
    match s
    case State(dev', holder, phases, sent, _, _) =>
      && dev.Valid() && dev.state == dev'
      && th == Threads(holder, phases, sent)
      && FilesAt(files, phases)
  }

  /** The file of each thread that is reading is at its position. */
  ghost predicate FilesAt(files: seq<OpenFile>, phases: seq<Sessions.Phase>)
    reads files
  {
    && |files| == |phases|
    && Distinct(files)
    && (forall t :: 0 <= t < |files| && phases[t].Streaming? ==> files[t].fPos == phases[t].pos)
  }

  /** The same step, except for what memory happens to hold when a write is made. */
  ghost predicate SameRequest(a: Sessions.Step, b: Sessions.Step) {
    if a.Write? then b.Write? && b.t == a.t && b.e.chunk == a.e.chunk && b.e.env == a.e.env else b == a
  }

  /** A step of the thread with this line, phase and file: the phase it goes on in is computed from what the driver
      answers, and is the one `StepPhase` says. */
  method Perform(line: seq<byte>, step: Sessions.Step, dev: Device, p: Sessions.Phase, f: OpenFile)
    returns (phase: Sessions.Phase, file: OpenFile, ghost taken: Sessions.Step)
    requires dev.Valid() && Sessions.OwnStep(p, step) && (p.Streaming? ==> f.fPos == p.pos)
    modifies dev, dev.buffer, dev.buffer.entry, dev.mem, f
    ensures SameRequest(step, taken) && Sessions.OwnStep(p, taken)
    ensures phase == Sessions.StepPhase(old(dev.state).log, line, p, taken)
    ensures dev.Valid() && dev.state == Sessions.StepDev(old(dev.state), taken)
    ensures phase.Streaming? ==> file.fPos == phase.pos
    ensures file == f || fresh(file)
  {
    phase, file, taken := p, f, step;
    match step
    case Abort(_) => phase := Sessions.Aborted;
    case Lock(_) => phase := Sessions.FirstPhase(line);
    case Write(t, e) =>
      ghost var e';
      phase, e' := WriteNext(dev, f, p, e.chunk, e.env);
      taken := Sessions.Write(t, e');
    case Reopen(_) =>
      file := new OpenFile();
      phase := Sessions.Streaming(0, [], false);
    case Seek(_) =>
      phase, file := AskSeek(line, dev);
    case Read(_, count) =>
      phase := ReadNext(dev, f, p, count);
    case Send(_, n) => phase := p.(outgoing := p.outgoing[n..]);
    case Unlock(_) => phase := Sessions.Done;
  }

  /** One write: a failure ends the append. */
  method WriteNext(dev: Device, f: OpenFile, p: Sessions.Phase, part: seq<byte>, env: Env)
    returns (phase: Sessions.Phase, ghost e: WriteEvent)
    requires dev.Valid() && p.Appending? && part != [] && part <= p.rest
    modifies dev, dev.buffer, dev.buffer.entry, dev.mem, f
    ensures e.chunk == part && e.env == env && phase == Sessions.WritePhase(p, e)
    ensures dev.Valid() && dev.state == WriteStep(old(dev.state), e)
  {
    var ok;
    ok, e := WriteBytes(dev, f, part, env);
    phase := if ok then Sessions.Appending(p.rest[|part|..]) else Sessions.Broken;
  }

  /** The file is reopened and the request of the control line made. */
  method AskSeek(line: seq<byte>, dev: Device) returns (phase: Sessions.Phase, f: OpenFile)
    requires dev.Valid()
    ensures phase == Sessions.SeekPhase(dev.state.log, line)
    ensures fresh(f) && (phase.Streaming? ==> f.fPos == phase.pos)
  {
    f := new OpenFile();
    phase := Sessions.Leaving;
    var seekTo := ParseCtrl(line);
    if seekTo.Some? {
      var r := dev.AdjustFileOffset(f, seekTo.value.writeCmd, seekTo.value.writeCmdOffset, NO_FAILURE);
      if r == Count(0) {
        phase := Sessions.Streaming(f.fPos, [], false);
      }
    }
  }

  /** One read: the end has been reached when nothing comes back. */
  method ReadNext(dev: Device, f: OpenFile, p: Sessions.Phase, count: nat) returns (phase: Sessions.Phase)
    requires dev.Valid() && p.Streaming? && f.fPos == p.pos
    modifies f
    ensures phase == Sessions.ReadPhase(dev.state.log, p, count)
    ensures phase.Streaming? && f.fPos == phase.pos
  {
    var r, bytes := dev.Read(f, count, NO_FAILURE);
    phase := if bytes == [] then p.(eof := true) else p.(pos := f.fPos, outgoing := p.outgoing + bytes);
  }

  /** As many files as there are threads. */
  method OpenFiles(n: nat) returns (files: seq<OpenFile>)
    ensures |files| == n && forall t :: 0 <= t < n ==> fresh(files[t])
    ensures Distinct(files)
  {
    files := [];
    while |files| < n
      invariant |files| <= n && forall t :: 0 <= t < |files| ==> fresh(files[t])
      invariant Distinct(files)
    {
      var f := new OpenFile();
      files := files + [f];
    }
  }

  /** One step of a run. */
  method Advance(lines: seq<seq<byte>>, ghost s: Sessions.State, step: Sessions.Step,
                 dev: Device, th: Threads, files: seq<OpenFile>)
    returns (th': Threads, files': seq<OpenFile>, ghost taken: Sessions.Step)
    requires |lines| == |th.phases| == |th.sent| && Carries(dev, files, th, s) && Sessions.Enabled(s, step)
    modifies dev, dev.buffer, dev.buffer.entry, dev.mem, files
    ensures SameRequest(step, taken) && Sessions.Enabled(s, taken)
    ensures |th'.phases| == |th'.sent| == |lines| && Carries(dev, files', th', Sessions.Next(lines, s, taken))
    ensures forall t :: 0 <= t < |files'| ==> files'[t] in files || fresh(files'[t])
  {
    var t, p := step.t, th.phases[step.t];
    var phase, file;
    phase, file, taken := Perform(lines[t], step, dev, p, files[t]);
    var got := th.sent[t] + Sessions.StepSent(p, step);
    th' := Threads(Sessions.StepHolder(th.holder, step), th.phases[t := phase], th.sent[t := got]);
    files' := files[t := file];
  }

  /** Each request that may be taken when its turn comes is taken, and the others are passed over. */
  ghost predicate TakesAll(lines: seq<seq<byte>>, s: Sessions.State, requests: seq<Sessions.Step>,
                           taken: seq<Sessions.Step>)
    requires |lines| == |s.phases|
    decreases |requests|
  {
    if |requests| == 0 then |taken| == 0
    else if Sessions.Enabled(s, requests[0]) then
      && |taken| > 0 && SameRequest(requests[0], taken[0]) && Sessions.Enabled(s, taken[0])
      && TakesAll(lines, Sessions.Next(lines, s, taken[0]), requests[1..], taken[1..])
    else TakesAll(lines, s, requests[1..], taken)
  }

  /** Every request may be taken when its turn comes. */
  ghost predicate NoneInVain(lines: seq<seq<byte>>, s: Sessions.State, requests: seq<Sessions.Step>,
                             taken: seq<Sessions.Step>)
    requires |lines| == |s.phases|
    decreases |requests|
  {
    |requests| > 0 ==>
      && Sessions.Enabled(s, requests[0])
      && (|taken| > 0 && Sessions.Enabled(s, taken[0]) ==>
            NoneInVain(lines, Sessions.Next(lines, s, taken[0]), requests[1..], taken[1..]))
  }

  /** Then the steps taken are exactly those asked for. */
  lemma {:induction false} TakenAsAsked(lines: seq<seq<byte>>, s: Sessions.State, requests: seq<Sessions.Step>,
                                        taken: seq<Sessions.Step>)
    requires |lines| == |s.phases|
    requires TakesAll(lines, s, requests, taken) && NoneInVain(lines, s, requests, taken)
    ensures |taken| == |requests|
    ensures forall i :: 0 <= i < |requests| ==> SameRequest(requests[i], taken[i])
    decreases |requests|
  {
    if |requests| > 0 {
      TakenAsAsked(lines, Sessions.Next(lines, s, taken[0]), requests[1..], taken[1..]);
      forall i | 0 <= i < |requests|
        ensures SameRequest(requests[i], taken[i])
      {
        if i > 0 {
          assert SameRequest(requests[1..][i - 1], taken[1..][i - 1]);
        }
      }
    }
  }

  /** The requests one after another. */
  method PerformAll(lines: seq<seq<byte>>, ghost s: Sessions.State, requests: seq<Sessions.Step>,
                    dev: Device, th0: Threads, files: seq<OpenFile>)
    returns (th: Threads, ghost taken: seq<Sessions.Step>)
    requires |lines| == |th0.phases| == |th0.sent| == |s.writes| && Carries(dev, files, th0, s)
    modifies dev, dev.buffer, dev.buffer.entry, dev.mem, files
    ensures |s.phases| == |lines| && TakesAll(lines, s, requests, taken)
    ensures Sessions.CanRun(lines, s, taken) && th == ThreadsOf(Sessions.After(lines, s, taken))
    ensures dev.Valid() && dev.state == Sessions.After(lines, s, taken).dev
    decreases |requests|
  {
    if |requests| == 0 {
      return th0, [];
    }
    var step := requests[0];
    if step.t < |lines| && Sessions.MayStep(th0.holder, th0.phases[step.t], step) {
      ghost var first, rest;
      var th1, files1;
      th1, files1, first := Advance(lines, s, step, dev, th0, files);
      th, rest := PerformAll(lines, Sessions.Next(lines, s, first), requests[1..], dev, th1, files1);
      taken := [first] + rest;
      assert taken[1..] == rest;
    } else {
      th, taken := PerformAll(lines, s, requests[1..], dev, th0, files);
    }
  }

  ghost function ThreadsOf(s: Sessions.State): Threads {
    Threads(s.holder, s.phases, s.sent)
  }

  /** The client of a finished session has received the answer from the device as the sessions before it, one after
      another, and then its own writes leave it. */
  ghost predicate ReceivedInTurn(lines: seq<seq<byte>>, dev0: State, s: Sessions.State, sent: seq<seq<byte>>,
                                 t: Sessions.Tid)
  {
    exists i :: 0 <= i < |s.order| && s.order[i] == t < |lines| && t < |sent| && t < |s.writes|
      && SessionWrites(lines[t], s.writes[t])
      && sent[t] == Answer(Run(Sessions.SerialDev(s.writes, dev0, s.order[..i]), s.writes[t]).log, lines[t])
  }

  /** Any number of sessions on the driver, in any interleaving and with any failing writes: the steps asked for are
      taken whenever they may be, device and threads end up in the state these lead to, the device as the sessions'
      writes, one session after another in mutex order, make it, and every client whose session has finished has
      received the answer that belongs to its turn. */
  method RunSessions(lines: seq<seq<byte>>, requests: seq<Sessions.Step>, dev: Device)
    returns (th: Threads, ghost taken: seq<Sessions.Step>, ghost s: Sessions.State)
    requires dev.Valid()
    modifies dev, dev.buffer, dev.buffer.entry, dev.mem
    ensures TakesAll(lines, Sessions.Start(lines, old(dev.state)), requests, taken)
    ensures Sessions.CanRun(lines, Sessions.Start(lines, old(dev.state)), taken)
    ensures s == Sessions.After(lines, Sessions.Start(lines, old(dev.state)), taken)
    ensures dev.Valid() && dev.state == s.dev && th == ThreadsOf(s)
    ensures dev.state == Run(old(dev.state), Sessions.WritesOf(s.writes, s.order))
    ensures forall t :: 0 <= t < |th.phases| && th.phases[t].Done? ==>
      ReceivedInTurn(lines, old(dev.state), s, th.sent, t)
    ensures Sessions.NothingFailed(lines, old(dev.state), s) ==>
      Stream(dev.state.log) == Stream(old(dev.state).log)
        + Flatten(Sessions.NormalLines(lines, Sessions.Completed(s))) + Sessions.HolderWrote(s)
  {
    ghost var dev0 := dev.state;
    var files := OpenFiles(|lines|);
    th := Threads(None, seq(|lines|, _ => Sessions.Ready), seq(|lines|, _ => []));
    th, taken := PerformAll(lines, Sessions.Start(lines, dev0), requests, dev, th, files);
    s := Sessions.After(lines, Sessions.Start(lines, dev0), taken);
    RunFacts(lines, dev0, taken, s);
  }

  /** What is proved of every reachable state. */
  lemma RunFacts(lines: seq<seq<byte>>, dev0: State, taken: seq<Sessions.Step>, s: Sessions.State)
    requires Sessions.CanRun(lines, Sessions.Start(lines, dev0), taken)
    requires s == Sessions.After(lines, Sessions.Start(lines, dev0), taken)
    ensures Sessions.Reachable(lines, dev0, s)
    ensures s.dev == Run(dev0, Sessions.WritesOf(s.writes, s.order))
    ensures forall t :: 0 <= t < |s.phases| && s.phases[t].Done? ==> ReceivedInTurn(lines, dev0, s, s.sent, t)
    ensures Sessions.NothingFailed(lines, dev0, s) ==>
      Stream(s.dev.log) == Stream(dev0.log)
        + Flatten(Sessions.NormalLines(lines, Sessions.Completed(s))) + Sessions.HolderWrote(s)
  {
    assert Sessions.Reachable(lines, dev0, s);
    Sessions.SerialisableWhateverFails(lines, dev0, s);
    forall t | 0 <= t < |s.phases| && s.phases[t].Done?
      ensures ReceivedInTurn(lines, dev0, s, s.sent, t)
    {
      var i := Sessions.FinishedSessionAnswered(lines, dev0, s, t);
    }
    if Sessions.NothingFailed(lines, dev0, s) {
      Sessions.Serialisability(lines, dev0, s);
    }
  }
}
