/**
 All sessions at once: any number of client threads, interleaved step by step, over one device and one mutex.

 Each thread has received its line.  It takes the mutex, writes a normal line in any number of device writes,
 of which the first that fails is the last, or asks for a seek, reads the device in pieces of any size and sends
 what it read in parts of any size, and gives the mutex back.  A device call is one step, because the driver has
 its own lock.
 */
module Sessions {
  import opened Sequences
  import opened CommandLog
  import opened ControlLine
  import opened LineWrites
  import opened SockThread
  import DeviceState

  type Tid = nat

  type Dev = DeviceState.State

  type WriteEvent = DeviceState.WriteEvent

  datatype Phase =
    | Ready                                                // line received, mutex not taken yet
    | Aborted                                              // failed before the mutex: receive or open
    | Appending(rest: seq<byte>)                           // what is still to be written
    | Broken                                               // a write failed, and the session goes on
    | Seeking                                              // reopened for reading, seek not asked yet
    | Streaming(pos: nat, outgoing: seq<byte>, eof: bool)  // read position, read but not sent, end seen
    | Leaving                                              // the seek was refused: nothing is sent
    | Done

  /** `sent` is what each client has received; `order` lists the threads by when they took the mutex; `writes` are
      the device writes each has made. */
  datatype State = State(dev: Dev, holder: Option<Tid>, phases: seq<Phase>, sent: seq<seq<byte>>, order: seq<Tid>,
                         writes: seq<seq<WriteEvent>>)

  datatype Step =
    | Abort(t: Tid) | Lock(t: Tid) | Write(t: Tid, e: WriteEvent) | Reopen(t: Tid) | Seek(t: Tid)
    | Read(t: Tid, count: nat) | Send(t: Tid, n: nat) | Unlock(t: Tid)

  function Start(lines: seq<seq<byte>>, dev: Dev): State {
    State(dev, None, seq(|lines|, _ => Ready), seq(|lines|, _ => []), [], seq(|lines|, _ => []))
  }

  /** What a thread in this phase may do next. */
  predicate OwnStep(p: Phase, step: Step) {
    match step
    case Abort(_) => p.Ready?
    case Lock(_) => p.Ready?
    case Write(_, e) => p.Appending? && e.chunk != [] && e.chunk <= p.rest
    case Reopen(_) => p == Appending([]) || p.Broken?
    case Seek(_) => p.Seeking?
    case Read(_, count) => p.Streaming? && !p.eof && count > 0
    case Send(_, n) => p.Streaming? && 1 <= n <= |p.outgoing|
    case Unlock(_) => p.Leaving? || (p.Streaming? && p.eof && p.outgoing == [])
  }

  /** Only taking the mutex looks at who holds it. */
  predicate MayStep(holder: Option<Tid>, p: Phase, step: Step) {
    OwnStep(p, step) && (step.Lock? ==> holder.None?)
  }

  predicate Enabled(s: State, step: Step) {
    step.t < |s.phases| == |s.sent| == |s.writes| && MayStep(s.holder, s.phases[step.t], step)
  }

  /** What the thread does next once it holds the mutex. */
  function FirstPhase(line: seq<byte>): Phase {
    if ParseCtrl(line).Some? then Seeking else Appending(line)
  }

  function SeekPhase(log: Log, line: seq<byte>): Phase {
    match ParseCtrl(line)
    case None => Leaving
    case Some(seekTo) =>
      match SeekTarget(log.commands, seekTo.writeCmd, seekTo.writeCmdOffset)
      case None => Leaving
      case Some(pos) => Streaming(pos, [], false)
  }

  function ReadPhase(log: Log, p: Phase, count: nat): Phase
    requires p.Streaming?
  {
    var piece := ReadPiece(Newest(log.commands), p.pos, count);
    if piece == [] then p.(eof := true) else p.(pos := p.pos + |piece|, outgoing := p.outgoing + piece)
  }

  function WritePhase(p: Phase, e: WriteEvent): Phase
    requires p.Appending? && e.chunk <= p.rest
  {
    if DeviceState.Succeeds(e) then Appending(p.rest[|e.chunk|..]) else Broken
  }

  /** The phase a step leads its thread to. */
  function StepPhase(log: Log, line: seq<byte>, p: Phase, step: Step): Phase
    requires OwnStep(p, step)
  {
    match step
    case Abort(_) => Aborted
    case Lock(_) => FirstPhase(line)
    case Write(_, e) => WritePhase(p, e)
    case Reopen(_) => Streaming(0, [], false)
    case Seek(_) => SeekPhase(log, line)
    case Read(_, count) => ReadPhase(log, p, count)
    case Send(_, n) => p.(outgoing := p.outgoing[n..])
    case Unlock(_) => Done
  }

  function StepDev(dev: Dev, step: Step): Dev {
    if step.Write? then DeviceState.WriteStep(dev, step.e) else dev
  }

  function StepWrites(step: Step): seq<WriteEvent> {
    if step.Write? then [step.e] else []
  }

  function StepSent(p: Phase, step: Step): seq<byte>
    requires OwnStep(p, step)
  {
    if step.Send? then p.outgoing[..step.n] else []
  }

  function StepHolder(holder: Option<Tid>, step: Step): Option<Tid> {
    match step
    case Lock(t) => Some(t)
    case Unlock(_) => None
    case _ => holder
  }

  function Next(lines: seq<seq<byte>>, s: State, step: Step): State
    requires Enabled(s, step) && |lines| == |s.phases|
  {
    var t, p := step.t, s.phases[step.t];
    State(StepDev(s.dev, step), StepHolder(s.holder, step),
          s.phases[t := StepPhase(s.dev.log, lines[t], p, step)], s.sent[t := s.sent[t] + StepSent(p, step)],
          if step.Lock? then s.order + [t] else s.order, s.writes[t := s.writes[t] + StepWrites(step)])
  }

  // ----- Runs

  /** `steps` can be taken one after another from `s`. */
  predicate CanRun(lines: seq<seq<byte>>, s: State, steps: seq<Step>)
    requires |lines| == |s.phases|
    decreases |steps|
  {
    |steps| == 0 || (Enabled(s, steps[0]) && CanRun(lines, Next(lines, s, steps[0]), steps[1..]))
  }

  function After(lines: seq<seq<byte>>, s: State, steps: seq<Step>): State
    requires |lines| == |s.phases| && CanRun(lines, s, steps)
    decreases |steps|
  {
    if |steps| == 0 then s else After(lines, Next(lines, s, steps[0]), steps[1..])
  }

  lemma {:induction false} RunsJoin(lines: seq<seq<byte>>, s: State, a: seq<Step>, b: seq<Step>)
    requires |lines| == |s.phases| && CanRun(lines, s, a)
    ensures |After(lines, s, a).phases| == |lines|
    ensures CanRun(lines, After(lines, s, a), b) ==>
      CanRun(lines, s, a + b) && After(lines, s, a + b) == After(lines, After(lines, s, a), b)
    decreases |a|
  {
    if |a| == 0 {
      assert a + b == b;
    } else {
      RunsJoin(lines, Next(lines, s, a[0]), a[1..], b);
      assert (a + b)[1..] == a[1..] + b;
    }
  }

  /** One step before a run. */
  lemma RunStarts(lines: seq<seq<byte>>, s: State, step: Step, rest: seq<Step>)
    requires |lines| == |s.phases| && Enabled(s, step) && CanRun(lines, Next(lines, s, step), rest)
    ensures CanRun(lines, s, [step] + rest)
    ensures After(lines, s, [step] + rest) == After(lines, Next(lines, s, step), rest)
  {
    assert ([step] + rest)[1..] == rest;
  }

  /** Some run of the sessions leads from the start with device `dev0` to `s`. */
  ghost predicate Reachable(lines: seq<seq<byte>>, dev0: Dev, s: State) {
    exists steps :: CanRun(lines, Start(lines, dev0), steps) && After(lines, Start(lines, dev0), steps) == s
  }

  // ----- The serial execution every run is equivalent to

  /** The device writes of these threads, one thread after another. */
  function WritesOf(writes: seq<seq<WriteEvent>>, order: seq<Tid>): seq<WriteEvent> {
    if order == [] then []
    else
      var n := |order| - 1;
      WritesOf(writes, order[..n]) + if order[n] < |writes| then writes[order[n]] else []
  }

  /** The device after whole sessions, one at a time, in this order. */
  function SerialDev(writes: seq<seq<WriteEvent>>, dev0: Dev, order: seq<Tid>): Dev {
    DeviceState.Run(dev0, WritesOf(writes, order))
  }

  lemma SerialDevStep(writes: seq<seq<WriteEvent>>, dev0: Dev, order: seq<Tid>, t: Tid)
    requires t < |writes|
    ensures SerialDev(writes, dev0, order + [t]) == DeviceState.Run(SerialDev(writes, dev0, order), writes[t])
  {
    assert (order + [t])[..|order|] == order;
    DeviceState.RunConcat(dev0, WritesOf(writes, order), writes[t]);
  }

  lemma {:induction false} WritesOfFrame(a: seq<seq<WriteEvent>>, b: seq<seq<WriteEvent>>, order: seq<Tid>)
    requires |a| == |b| && forall i :: 0 <= i < |order| && order[i] < |a| ==> a[order[i]] == b[order[i]]
    ensures WritesOf(a, order) == WritesOf(b, order)
  {
    if order != [] {
      WritesOfFrame(a, b, order[..|order| - 1]);
    }
  }

  // ----- The invariant

  predicate InSection(p: Phase) {
    p.Appending? || p.Broken? || p.Seeking? || p.Streaming? || p.Leaving?
  }

  /** The holder's progress: `base` is the device when it took the mutex. */
  predicate Progress(dev: Dev, base: Dev, line: seq<byte>, ws: seq<WriteEvent>, p: Phase, sent: seq<byte>) {
    dev == DeviceState.Run(base, ws) &&
    match p
    case Appending(rest) => ParseCtrl(line).None? && sent == [] && UpTo(line, ws, rest)
    case Broken => ParseCtrl(line).None? && sent == [] && Cut(line, ws)
    case Seeking => ParseCtrl(line).Some? && sent == [] && ws == []
    case Streaming(pos, outgoing, eof) =>
      && SessionWrites(line, ws)
      && pos <= |Contents(dev.log)| && (eof ==> pos == |Contents(dev.log)|)
      && sent + outgoing + Contents(dev.log)[pos..] == Answer(dev.log, line)
    case Leaving => SessionWrites(line, ws) && sent == Answer(dev.log, line)
    case _ => false
  }

  /** The thread at place `i` of the order has been answered as if the sessions had run one at a time. */
  predicate Answered(lines: seq<seq<byte>>, dev0: Dev, s: State, i: nat)
    requires i < |s.order|
  {
    var t := s.order[i];
    && t < |lines| && t < |s.phases| && t < |s.sent| && t < |s.writes|
    && s.phases[t].Done?
    && SessionWrites(lines[t], s.writes[t])
    && s.sent[t] == Answer(DeviceState.Run(SerialDev(s.writes, dev0, s.order[..i]), s.writes[t]).log, lines[t])
  }

  ghost predicate OrderOk(s: State) {
    && Distinct(s.order)
    && (forall i :: 0 <= i < |s.order| ==> s.order[i] < |s.phases|)
    && (forall t :: 0 <= t < |s.phases| ==> (t in s.order <==> !s.phases[t].Ready? && !s.phases[t].Aborted?))
  }

  /** The sessions that have left, and the one that is in. */
  predicate SectionOk(lines: seq<seq<byte>>, dev0: Dev, s: State)
    requires |s.phases| == |s.sent| == |s.writes| == |lines|
  {
    match s.holder
    case None =>
      && s.dev == SerialDev(s.writes, dev0, s.order)
      && (forall i :: 0 <= i < |s.order| ==> Answered(lines, dev0, s, i))
    case Some(t) =>
      var n := |s.order| - 1;
      && n >= 0 && t == s.order[n] && t < |lines|
      && Progress(s.dev, SerialDev(s.writes, dev0, s.order[..n]), lines[t], s.writes[t], s.phases[t], s.sent[t])
      && (forall i :: 0 <= i < n ==> Answered(lines, dev0, s, i))
  }

  ghost predicate Inv(lines: seq<seq<byte>>, dev0: Dev, s: State) {
    match s
    case State(_, holder, phases, sent, _, writes) =>
      && |phases| == |sent| == |writes| == |lines|
      && OrderOk(s)
      && (forall t :: 0 <= t < |phases| ==> InSection(phases[t]) ==> holder == Some(t))
      && (forall t :: 0 <= t < |phases| ==> phases[t].Ready? ==> sent[t] == [] && writes[t] == [])
      && SectionOk(lines, dev0, s)
  }

  lemma InvStart(lines: seq<seq<byte>>, dev0: Dev)
    ensures Inv(lines, dev0, Start(lines, dev0))
  {
  }

  // ----- What each step of the holder does to its progress

  /** The device the holder found. */
  function Base(dev0: Dev, s: State): Dev {
    if |s.order| == 0 then dev0 else SerialDev(s.writes, dev0, s.order[..|s.order| - 1])
  }

  lemma WriteProgress(dev: Dev, base: Dev, line: seq<byte>, ws: seq<WriteEvent>, p: Phase, e: WriteEvent)
    requires Progress(dev, base, line, ws, p, []) && p.Appending? && e.chunk != [] && e.chunk <= p.rest
    ensures Progress(DeviceState.WriteStep(dev, e), base, line, ws + [e], WritePhase(p, e), [])
  {
    DeviceState.RunSnoc(base, ws, e);
    WriteNextPart(line, ws, p.rest, e);
  }

  lemma ReopenProgress(dev: Dev, base: Dev, line: seq<byte>, ws: seq<WriteEvent>, p: Phase)
    requires Progress(dev, base, line, ws, p, []) && (p == Appending([]) || p.Broken?)
    ensures Progress(dev, base, line, ws, Streaming(0, [], false), [])
  {
    assert [] + [] + Contents(dev.log)[0..] == Contents(dev.log);
  }

  lemma SeekProgress(dev: Dev, base: Dev, line: seq<byte>, ws: seq<WriteEvent>)
    requires Progress(dev, base, line, ws, Seeking, [])
    ensures Progress(dev, base, line, ws, SeekPhase(dev.log, line), [])
    ensures InSection(SeekPhase(dev.log, line))
  {
    var SeekTo(x, y) := ParseCtrl(line).value;
    match SeekTarget(dev.log.commands, x, y)
    case None =>
    case Some(pos) =>
      SeekLandsInside(dev.log.commands, x, y, 1);
      assert [] + [] + Contents(dev.log)[pos..] == Contents(dev.log)[pos..];
  }

  lemma ReadProgress(dev: Dev, base: Dev, line: seq<byte>, ws: seq<WriteEvent>, p: Phase, sent: seq<byte>, count: nat)
    requires Progress(dev, base, line, ws, p, sent) && p.Streaming? && count > 0
    ensures Progress(dev, base, line, ws, ReadPhase(dev.log, p, count), sent)
  {
    var pos, piece := p.pos, ReadPiece(Newest(dev.log.commands), p.pos, count);
    PieceIsContiguous(Newest(dev.log.commands), pos, count);
    PieceMoves(Contents(dev.log), pos, piece, sent, p.outgoing);
  }

  /** A piece read moves from what is to be read to what is to be sent. */
  lemma PieceMoves(all: seq<byte>, pos: nat, piece: seq<byte>, sent: seq<byte>, outgoing: seq<byte>)
    requires StretchAt(all, pos, piece)
    ensures sent + outgoing + all[pos..] == sent + (outgoing + piece) + all[pos + |piece|..]
  {
    assert all[pos..] == piece + all[pos + |piece|..];
    Associative(sent, outgoing, piece);
    Associative(sent + outgoing, piece, all[pos + |piece|..]);
  }

  lemma SendProgress(dev: Dev, base: Dev, line: seq<byte>, ws: seq<WriteEvent>, p: Phase, sent: seq<byte>, n: nat)
    requires Progress(dev, base, line, ws, p, sent) && p.Streaming? && n <= |p.outgoing|
    ensures Progress(dev, base, line, ws, p.(outgoing := p.outgoing[n..]), sent + p.outgoing[..n])
  {
    assert sent + p.outgoing == sent + p.outgoing[..n] + p.outgoing[n..];
  }

  lemma FinishedProgress(dev: Dev, base: Dev, line: seq<byte>, ws: seq<WriteEvent>, p: Phase, sent: seq<byte>)
    requires Progress(dev, base, line, ws, p, sent)
    requires p.Leaving? || (p.Streaming? && p.eof && p.outgoing == [])
    ensures SessionWrites(line, ws) && dev == DeviceState.Run(base, ws) && sent == Answer(dev.log, line)
  {
    assert p.Streaming? ==> sent + [] + [] == sent;
  }

  /** Any step of the holder but giving the mutex back. */
  lemma ProgressStep(dev: Dev, base: Dev, line: seq<byte>, ws: seq<WriteEvent>, p: Phase, sent: seq<byte>, step: Step)
    requires Progress(dev, base, line, ws, p, sent) && OwnStep(p, step) && !step.Unlock?
    ensures var q := StepPhase(dev.log, line, p, step);
      InSection(q) && Progress(StepDev(dev, step), base, line, ws + StepWrites(step), q, sent + StepSent(p, step))
  {
    assert ws + [] == ws && sent + [] == sent;
    match step
    case Write(_, e) => WriteProgress(dev, base, line, ws, p, e);
    case Reopen(_) => ReopenProgress(dev, base, line, ws, p);
    case Seek(_) => SeekProgress(dev, base, line, ws);
    case Read(_, count) => ReadProgress(dev, base, line, ws, p, sent, count);
    case Send(_, n) => SendProgress(dev, base, line, ws, p, sent, n);
    case _ =>
  }

  // ----- The invariant holds along every run

  /** An answer is not touched by what others do. */
  lemma AnsweredFrame(lines: seq<seq<byte>>, dev0: Dev, s: State, after: State, i: nat)
    requires i < |s.order| && Answered(lines, dev0, s, i)
    requires s.order <= after.order && |after.phases| == |s.phases| && |after.sent| == |s.sent|
    requires |after.writes| == |s.writes|
    requires var t := s.order[i];
      after.phases[t] == s.phases[t] && after.sent[t] == s.sent[t] && after.writes[t] == s.writes[t]
    requires WritesOf(after.writes, s.order[..i]) == WritesOf(s.writes, s.order[..i])
    ensures Answered(lines, dev0, after, i)
  {
    assert after.order[..i] == s.order[..i];
  }

  /** The holder's own entries may change without touching the answers of the sessions before it. */
  lemma OthersStayAnswered(lines: seq<seq<byte>>, dev0: Dev, s: State, after: State, i: nat)
    requires OrderOk(s) && i + 1 < |s.order| && Answered(lines, dev0, s, i)
    requires var t := s.order[|s.order| - 1];
      && t < |s.phases| == |s.sent| == |s.writes| && |after.phases| == |s.phases|
      && after.order == s.order && after.phases == s.phases[t := after.phases[t]]
      && |after.sent| == |s.sent| && after.sent == s.sent[t := after.sent[t]]
      && |after.writes| == |s.writes| && after.writes == s.writes[t := after.writes[t]]
    ensures Answered(lines, dev0, after, i)
  {
    var before := s.order[..i];
    assert s.order[i] != s.order[|s.order| - 1];
    assert forall j :: 0 <= j < i ==> before[j] == s.order[j] != s.order[|s.order| - 1];
    WritesOfFrame(after.writes, s.writes, before);
    AnsweredFrame(lines, dev0, s, after, i);
  }

  /** A change to the holder alone leaves the sessions before it as they were. */
  lemma HolderStep(lines: seq<seq<byte>>, dev0: Dev, s: State, t: Tid, dev: Dev, p: Phase, sent: seq<byte>,
                   ws: seq<WriteEvent>)
    requires Inv(lines, dev0, s) && s.holder == Some(t) && t < |lines|
    requires InSection(p) && Progress(dev, Base(dev0, s), lines[t], ws, p, sent)
    ensures Inv(lines, dev0, State(dev, s.holder, s.phases[t := p], s.sent[t := sent], s.order, s.writes[t := ws]))
  {
    var after := State(dev, s.holder, s.phases[t := p], s.sent[t := sent], s.order, s.writes[t := ws]);
    assert OrderOk(after);
    BaseStays(dev0, s, after.writes, t);
    forall i | 0 <= i < |s.order| - 1
      ensures Answered(lines, dev0, after, i)
    {
      OthersStayAnswered(lines, dev0, s, after, i);
    }
    assert SectionOk(lines, dev0, after);
  }

  /** What the holder found does not depend on its own writes. */
  lemma BaseStays(dev0: Dev, s: State, writes: seq<seq<WriteEvent>>, t: Tid)
    requires OrderOk(s) && |s.order| > 0 && t == s.order[|s.order| - 1]
    requires t < |s.writes| == |writes| && writes == s.writes[t := writes[t]]
    ensures SerialDev(writes, dev0, s.order[..|s.order| - 1]) == Base(dev0, s)
  {
    var before := s.order[..|s.order| - 1];
    assert forall j :: 0 <= j < |before| ==> before[j] == s.order[j] != t;
    WritesOfFrame(writes, s.writes, before);
  }

  lemma NothingAdded<T>(parts: seq<seq<T>>, t: nat)
    requires t < |parts|
    ensures parts[t := parts[t] + []] == parts
  {
    assert parts[t] + [] == parts[t];
  }

  lemma AbortChanges(lines: seq<seq<byte>>, s: State, t: Tid)
    requires Enabled(s, Abort(t)) && |lines| == |s.phases|
    ensures Next(lines, s, Abort(t)) == s.(phases := s.phases[t := Aborted])
  {
    NothingAdded(s.sent, t);
    NothingAdded(s.writes, t);
  }

  lemma AbortStep(lines: seq<seq<byte>>, dev0: Dev, s: State, t: Tid)
    requires Inv(lines, dev0, s) && Enabled(s, Abort(t))
    ensures Inv(lines, dev0, Next(lines, s, Abort(t)))
  {
    var after := s.(phases := s.phases[t := Aborted]);
    AbortChanges(lines, s, t);
    assert OrderOk(after);
    forall i | 0 <= i < |s.order| && Answered(lines, dev0, s, i)
      ensures Answered(lines, dev0, after, i)
    {
      assert s.order[i] != t;
      AnsweredFrame(lines, dev0, s, after, i);
    }
    assert SectionOk(lines, dev0, after);
  }

  lemma LockChanges(lines: seq<seq<byte>>, s: State, t: Tid)
    requires Enabled(s, Lock(t)) && |lines| == |s.phases|
    ensures Next(lines, s, Lock(t)) ==
      s.(holder := Some(t), phases := s.phases[t := FirstPhase(lines[t])], order := s.order + [t])
  {
    NothingAdded(s.sent, t);
    NothingAdded(s.writes, t);
  }

  lemma LockStep(lines: seq<seq<byte>>, dev0: Dev, s: State, t: Tid)
    requires Inv(lines, dev0, s) && Enabled(s, Lock(t))
    ensures Inv(lines, dev0, Next(lines, s, Lock(t)))
  {
    var after := s.(holder := Some(t), phases := s.phases[t := FirstPhase(lines[t])], order := s.order + [t]);
    LockChanges(lines, s, t);
    assert after.order[..|s.order|] == s.order;
    assert OrderOk(after);
    LockProgress(s.dev, lines[t]);
    forall i | 0 <= i < |s.order|
      ensures Answered(lines, dev0, after, i)
    {
      assert Answered(lines, dev0, s, i);
      AnsweredFrame(lines, dev0, s, after, i);
    }
    assert SectionOk(lines, dev0, after);
  }

  lemma LockProgress(dev: Dev, line: seq<byte>)
    ensures Progress(dev, dev, line, [], FirstPhase(line), [])
  {
    WritesNothingYet(line);
  }

  /** A thread in the section is the holder, the last to have taken the mutex, and its progress is right. */
  lemma HolderFacts(lines: seq<seq<byte>>, dev0: Dev, s: State, t: Tid)
    requires Inv(lines, dev0, s) && t < |s.phases| && InSection(s.phases[t])
    ensures s.holder == Some(t) && |s.phases| == |s.sent| == |s.writes| == |lines|
    ensures |s.order| > 0 && s.order[|s.order| - 1] == t
    ensures Progress(s.dev, Base(dev0, s), lines[t], s.writes[t], s.phases[t], s.sent[t])
  {
  }

  lemma UnlockAnswers(lines: seq<seq<byte>>, dev0: Dev, s: State, t: Tid)
    requires Inv(lines, dev0, s) && Enabled(s, Unlock(t))
    ensures |s.order| > 0 && t < |lines| && t < |s.writes| && t < |s.sent| && SessionWrites(lines[t], s.writes[t])
    ensures s.sent[t] == Answer(DeviceState.Run(Base(dev0, s), s.writes[t]).log, lines[t])
  {
    HolderFacts(lines, dev0, s, t);
    FinishedProgress(s.dev, Base(dev0, s), lines[t], s.writes[t], s.phases[t], s.sent[t]);
  }

  lemma UnlockChanges(lines: seq<seq<byte>>, s: State, t: Tid)
    requires Enabled(s, Unlock(t)) && |lines| == |s.phases|
    ensures Next(lines, s, Unlock(t)) == s.(holder := None, phases := s.phases[t := Done])
  {
    NothingAdded(s.sent, t);
    NothingAdded(s.writes, t);
  }

  /** Everyone in the order but the thread that is leaving was answered before. */
  lemma UnlockOthers(lines: seq<seq<byte>>, dev0: Dev, s: State, t: Tid, after: State, i: nat)
    requires Inv(lines, dev0, s) && Enabled(s, Unlock(t)) && i < |s.order| - 1
    requires after == s.(holder := None, phases := s.phases[t := Done])
    ensures Answered(lines, dev0, after, i)
  {
    HolderFacts(lines, dev0, s, t);
    assert Answered(lines, dev0, s, i);
    AnsweredFrame(lines, dev0, s, after, i);
  }

  /** The thread that is leaving has been answered. */
  lemma UnlockLast(lines: seq<seq<byte>>, dev0: Dev, s: State, t: Tid, after: State, i: nat)
    requires Inv(lines, dev0, s) && Enabled(s, Unlock(t)) && i + 1 == |s.order|
    requires after == s.(holder := None, phases := s.phases[t := Done])
    ensures Answered(lines, dev0, after, i)
  {
    HolderFacts(lines, dev0, s, t);
    UnlockAnswers(lines, dev0, s, t);
  }

  lemma UnlockStep(lines: seq<seq<byte>>, dev0: Dev, s: State, t: Tid)
    requires Inv(lines, dev0, s) && Enabled(s, Unlock(t))
    ensures Inv(lines, dev0, Next(lines, s, Unlock(t)))
  {
    var after := s.(holder := None, phases := s.phases[t := Done]);
    UnlockChanges(lines, s, t);
    HolderFacts(lines, dev0, s, t);
    DevIsSerial(lines, dev0, s);
    assert OrderOk(after);
    forall i | 0 <= i < |s.order|
      ensures Answered(lines, dev0, after, i)
    {
      if i + 1 < |s.order| {
        UnlockOthers(lines, dev0, s, t, after, i);
      } else {
        UnlockLast(lines, dev0, s, t, after, i);
      }
    }
    assert SectionOk(lines, dev0, after);
  }

  /** A step of the holder that keeps the mutex. */
  lemma InnerStep(lines: seq<seq<byte>>, dev0: Dev, s: State, step: Step)
    requires Inv(lines, dev0, s) && Enabled(s, step)
    requires !step.Abort? && !step.Lock? && !step.Unlock?
    ensures Inv(lines, dev0, Next(lines, s, step))
  {
    var t := step.t;
    var p := s.phases[t];
    HolderFacts(lines, dev0, s, t);
    ProgressStep(s.dev, Base(dev0, s), lines[t], s.writes[t], p, s.sent[t], step);
    HolderStep(lines, dev0, s, t, StepDev(s.dev, step), StepPhase(s.dev.log, lines[t], p, step),
               s.sent[t] + StepSent(p, step), s.writes[t] + StepWrites(step));
  }

  /** Every step of every thread, failing writes included, keeps the invariant. */
  lemma InvStep(lines: seq<seq<byte>>, dev0: Dev, s: State, step: Step)
    requires Inv(lines, dev0, s) && Enabled(s, step)
    ensures Inv(lines, dev0, Next(lines, s, step))
  {
    match step
    case Abort(t) => AbortStep(lines, dev0, s, t);
    case Lock(t) => LockStep(lines, dev0, s, t);
    case Unlock(t) => UnlockStep(lines, dev0, s, t);
    case _ => InnerStep(lines, dev0, s, step);
  }

  lemma {:induction false} InvRun(lines: seq<seq<byte>>, dev0: Dev, s: State, steps: seq<Step>)
    requires Inv(lines, dev0, s) && CanRun(lines, s, steps)
    ensures Inv(lines, dev0, After(lines, s, steps))
    decreases |steps|
  {
    if |steps| > 0 {
      InvStep(lines, dev0, s, steps[0]);
      InvRun(lines, dev0, Next(lines, s, steps[0]), steps[1..]);
    }
  }

  // ----- What holds in every reachable state

  lemma ReachableInv(lines: seq<seq<byte>>, dev0: Dev, s: State)
    requires Reachable(lines, dev0, s)
    ensures Inv(lines, dev0, s)
  {
    var steps :| CanRun(lines, Start(lines, dev0), steps) && After(lines, Start(lines, dev0), steps) == s;
    InvStart(lines, dev0);
    InvRun(lines, dev0, Start(lines, dev0), steps);
  }

  /** At most one thread is between taking and giving back the mutex, though no step but taking it checks. */
  lemma MutualExclusion(lines: seq<seq<byte>>, dev0: Dev, s: State, t: Tid, u: Tid)
    requires Reachable(lines, dev0, s)
    requires t < |s.phases| && u < |s.phases| && InSection(s.phases[t]) && InSection(s.phases[u])
    ensures t == u
  {
    ReachableInv(lines, dev0, s);
    HolderFacts(lines, dev0, s, t);
    HolderFacts(lines, dev0, s, u);
  }

  /** A write of one byte that succeeds. */
  function OneByte(b: byte): WriteEvent {
    DeviceState.WriteEvent([b], DeviceState.NO_FAILURE, _ => 0, 0)
  }

  /** While a thread still has something to do, some thread can take a step. */
  lemma NoDeadlock(lines: seq<seq<byte>>, dev0: Dev, s: State, t: Tid) returns (step: Step)
    requires Reachable(lines, dev0, s)
    requires t < |s.phases| && !s.phases[t].Done? && !s.phases[t].Aborted?
    ensures Enabled(s, step)
    ensures s.holder.Some? ==> step.t == s.holder.value
  {
    ReachableInv(lines, dev0, s);
    match s.holder
    case None =>
      assert s.phases[t].Ready?;
      step := Lock(t);
    case Some(h) =>
      match s.phases[h]
      case Appending(rest) => step := if rest == [] then Reopen(h) else Write(h, OneByte(rest[0]));
      case Broken => step := Reopen(h);
      case Seeking => step := Seek(h);
      case Streaming(_, outgoing, eof) =>
        step := if outgoing != [] then Send(h, 1) else if eof then Unlock(h) else Read(h, 1);
      case Leaving => step := Unlock(h);
      case _ =>
  }

  /** The holder is the last to have taken the mutex, and still inside. */
  lemma HolderInside(lines: seq<seq<byte>>, dev0: Dev, s: State, h: Tid)
    requires Reachable(lines, dev0, s) && s.holder == Some(h)
    ensures |s.order| > 0 && s.order[|s.order| - 1] == h < |s.phases| && InSection(s.phases[h])
  {
    ReachableInv(lines, dev0, s);
  }

  /** A run that cannot go on has served or given up every client. */
  lemma StuckMeansServed(lines: seq<seq<byte>>, dev0: Dev, s: State)
    requires Reachable(lines, dev0, s)
    requires forall step :: !Enabled(s, step)
    ensures forall t :: 0 <= t < |s.phases| ==> s.phases[t].Done? || s.phases[t].Aborted?
    ensures s.holder.None?
  {
    forall t | 0 <= t < |s.phases|
      ensures s.phases[t].Done? || s.phases[t].Aborted?
    {
      if !s.phases[t].Done? && !s.phases[t].Aborted? {
        var step := NoDeadlock(lines, dev0, s, t);
      }
    }
    if s.holder.Some? {
      HolderInside(lines, dev0, s, s.holder.value);
    }
  }

  // ----- Every run ends

  /** What a thread in this phase may still add to the device. */
  function Unwritten(line: seq<byte>, p: Phase): nat {
    match p
    case Ready => |line|
    case Appending(rest) => |rest|
    case _ => 0
  }

  /** At most how many steps a thread in this phase still takes if the device never holds more than `m` bytes. */
  function Work(m: nat, line: seq<byte>, p: Phase): nat {
    match p
    case Ready => |line| + 2 * m + 5
    case Appending(rest) => |rest| + 2 * m + 4
    case Broken => 2 * m + 4
    case Seeking => 2 * m + 4
    case Streaming(pos, outgoing, eof) =>
      (if pos <= m then 2 * (m - pos) else 0) + |outgoing| + (if eof then 1 else 2)
    case Leaving => 1
    case _ => 0
  }

  function AllUnwritten(lines: seq<seq<byte>>, phases: seq<Phase>): (ns: seq<nat>)
    requires |lines| == |phases|
    ensures |ns| == |lines|
  {
    seq(|lines|, t requires 0 <= t < |lines| => Unwritten(lines[t], phases[t]))
  }

  function AllWork(lines: seq<seq<byte>>, m: nat, phases: seq<Phase>): (ns: seq<nat>)
    requires |lines| == |phases|
    ensures |ns| == |lines|
  {
    seq(|lines|, t requires 0 <= t < |lines| => Work(m, lines[t], phases[t]))
  }

  /** The device will never have accepted more than `m` bytes, and nobody reads beyond that. */
  predicate Fits(lines: seq<seq<byte>>, m: nat, s: State) {
    && |lines| == |s.phases|
    && |Stream(s.dev.log)| + Sum(AllUnwritten(lines, s.phases)) <= m
    && forall t :: 0 <= t < |s.phases| && s.phases[t].Streaming? ==> s.phases[t].pos <= m
  }

  lemma ContentsFit(log: Log)
    ensures |Contents(log)| <= |Stream(log)|
  {
    if |log.commands| > SLOTS {
      var older := log.commands[..|log.commands| - SLOTS];
      assert log.commands == older + Newest(log.commands);
      FlattenConcat(older, Newest(log.commands));
    }
  }

  /** One step takes one unit of its thread's work and hides no byte. */
  lemma StepWork(dev: Dev, m: nat, line: seq<byte>, p: Phase, step: Step)
    requires OwnStep(p, step) && |Stream(dev.log)| <= m && (p.Streaming? ==> p.pos <= m)
    ensures var q := StepPhase(dev.log, line, p, step);
      && Work(m, line, q) < Work(m, line, p)
      && |Stream(StepDev(dev, step).log)| + Unwritten(line, q) <= |Stream(dev.log)| + Unwritten(line, p)
      && (q.Streaming? ==> q.pos <= m)
  {
    match step
    case Write(_, e) => DeviceState.WriteStepStreamLength(dev, e);
    case Seek(_) => SeekWork(dev.log, m, line);
    case Read(_, count) => ReadWork(dev.log, m, line, p, count);
    case _ =>
  }

  lemma SeekWork(log: Log, m: nat, line: seq<byte>)
    requires |Stream(log)| <= m
    ensures var q := SeekPhase(log, line);
      Work(m, line, q) < Work(m, line, Seeking) && Unwritten(line, q) == 0 && (q.Streaming? ==> q.pos <= m)
  {
    if SeekPhase(log, line).Streaming? {
      var SeekTo(x, y) := ParseCtrl(line).value;
      SeekLandsInside(log.commands, x, y, 1);
      ContentsFit(log);
    }
  }

  lemma ReadWork(log: Log, m: nat, line: seq<byte>, p: Phase, count: nat)
    requires |Stream(log)| <= m && p.Streaming? && !p.eof && p.pos <= m
    ensures var q := ReadPhase(log, p, count);
      q.Streaming? && Work(m, line, q) < Work(m, line, p) && q.pos <= m
  {
    PieceIsContiguous(Newest(log.commands), p.pos, count);
    ContentsFit(log);
  }

  lemma StepShrinksWork(lines: seq<seq<byte>>, m: nat, s: State, step: Step)
    requires Fits(lines, m, s) && Enabled(s, step)
    ensures Fits(lines, m, Next(lines, s, step))
    ensures Sum(AllWork(lines, m, Next(lines, s, step).phases)) < Sum(AllWork(lines, m, s.phases))
  {
    var line, p := lines[step.t], s.phases[step.t];
    StepWork(s.dev, m, line, p, step);
    OnePhaseChanges(lines, m, s.phases, step.t, StepPhase(s.dev.log, line, p, step));
  }

  /** The sums when one thread changes its phase. */
  lemma OnePhaseChanges(lines: seq<seq<byte>>, m: nat, phases: seq<Phase>, t: Tid, q: Phase)
    requires |lines| == |phases| && t < |phases|
    ensures var after, p, line := phases[t := q], phases[t], lines[t];
      && Sum(AllWork(lines, m, after)) + Work(m, line, p) == Sum(AllWork(lines, m, phases)) + Work(m, line, q)
      && Sum(AllUnwritten(lines, after)) + Unwritten(line, p) == Sum(AllUnwritten(lines, phases)) + Unwritten(line, q)
  {
    var after, work, unwritten := phases[t := q], Work(m, lines[t], q), Unwritten(lines[t], q);
    SumUpdate(AllWork(lines, m, phases), t, work);
    assert AllWork(lines, m, after) == AllWork(lines, m, phases)[t := work];
    SumUpdate(AllUnwritten(lines, phases), t, unwritten);
    assert AllUnwritten(lines, after) == AllUnwritten(lines, phases)[t := unwritten];
  }

  lemma {:induction false} RunShrinksWork(lines: seq<seq<byte>>, m: nat, s: State, steps: seq<Step>)
    requires Fits(lines, m, s) && CanRun(lines, s, steps)
    ensures |steps| <= Sum(AllWork(lines, m, s.phases))
    decreases |steps|
  {
    if |steps| > 0 {
      StepShrinksWork(lines, m, s, steps[0]);
      RunShrinksWork(lines, m, Next(lines, s, steps[0]), steps[1..]);
    }
  }

  /** All bytes the device can ever have accepted. */
  function Volume(lines: seq<seq<byte>>, dev0: Dev): nat {
    |Stream(dev0.log)| + Sum(Sizes(lines))
  }

  lemma {:induction false} StartWork(lines: seq<seq<byte>>, m: nat, phases: seq<Phase>)
    requires |lines| == |phases| && forall t :: 0 <= t < |phases| ==> phases[t].Ready?
    ensures Sum(AllWork(lines, m, phases)) == Sum(Sizes(lines)) + |lines| * (2 * m + 5)
    ensures AllUnwritten(lines, phases) == Sizes(lines)
  {
    if lines != [] {
      StartWork(lines[1..], m, phases[1..]);
      assert AllWork(lines, m, phases)[1..] == AllWork(lines[1..], m, phases[1..]);
      assert Sizes(lines)[1..] == Sizes(lines[1..]);
      assert |lines| * (2 * m + 5) == |lines[1..]| * (2 * m + 5) + (2 * m + 5);
    }
  }

  lemma StartFits(lines: seq<seq<byte>>, dev0: Dev)
    ensures Fits(lines, Volume(lines, dev0), Start(lines, dev0))
  {
    StartWork(lines, 0, Start(lines, dev0).phases);
  }

  /** Every run ends: there is a bound on its steps that depends only on the lines and on what the device held. */
  lemma RunsEnd(lines: seq<seq<byte>>, dev0: Dev, steps: seq<Step>)
    requires CanRun(lines, Start(lines, dev0), steps)
    ensures |steps| <= Sum(Sizes(lines)) + |lines| * (2 * Volume(lines, dev0) + 5)
  {
    var m, s := Volume(lines, dev0), Start(lines, dev0);
    StartFits(lines, dev0);
    RunShrinksWork(lines, m, s, steps);
    StartWork(lines, m, s.phases);
  }

  // ----- Serialisability, whatever fails

  /** The threads that have given the mutex back, in the order in which they took it. */
  function Completed(s: State): seq<Tid> {
    if s.holder.Some? && |s.order| > 0 then s.order[..|s.order| - 1] else s.order
  }

  /** The writes of a session under way: a control line makes none, a normal line is written up to some point. */
  predicate WritesSoFar(line: seq<byte>, ws: seq<WriteEvent>) {
    && DeviceState.AcceptedBytes(ws) <= line
    && (if ParseCtrl(line).Some? then ws == []
        else Cut(line, ws) || UpTo(line, ws, line[|DeviceState.AcceptedBytes(ws)|..]))
  }

  lemma SessionWritesSoFar(line: seq<byte>, ws: seq<WriteEvent>)
    requires SessionWrites(line, ws)
    ensures WritesSoFar(line, ws)
  {
    if ParseCtrl(line).None? {
      WholeIffAllSucceed(line, ws);
    }
  }

  lemma ProgressWritesSoFar(dev: Dev, base: Dev, line: seq<byte>, ws: seq<WriteEvent>, p: Phase, sent: seq<byte>)
    requires Progress(dev, base, line, ws, p, sent)
    ensures WritesSoFar(line, ws)
  {
    match p
    case Appending(rest) =>
      UpToPrefix(line, ws, rest);
      assert line[|DeviceState.AcceptedBytes(ws)|..] == rest;
    case Broken => CutIsPartial(line, ws);
    case Seeking =>
    case _ => SessionWritesSoFar(line, ws);
  }

  lemma CompletedWrites(lines: seq<seq<byte>>, dev0: Dev, s: State, t: Tid)
    requires Inv(lines, dev0, s) && t in Completed(s)
    ensures t < |lines| && t < |s.writes| && SessionWrites(lines[t], s.writes[t])
  {
    var i :| 0 <= i < |Completed(s)| && Completed(s)[i] == t;
    assert Answered(lines, dev0, s, i);
  }

  lemma HolderWrites(lines: seq<seq<byte>>, dev0: Dev, s: State, t: Tid)
    requires Inv(lines, dev0, s) && s.holder == Some(t)
    ensures t < |lines| && t < |s.writes| && s.order == Completed(s) + [t] && WritesSoFar(lines[t], s.writes[t])
    ensures s.dev == DeviceState.Run(SerialDev(s.writes, dev0, Completed(s)), s.writes[t])
  {
    assert s.order == Completed(s) + [t];
    ProgressWritesSoFar(s.dev, SerialDev(s.writes, dev0, Completed(s)), lines[t], s.writes[t], s.phases[t], s.sent[t]);
  }

  lemma DevIsSerial(lines: seq<seq<byte>>, dev0: Dev, s: State)
    requires Inv(lines, dev0, s)
    ensures s.dev == DeviceState.Run(dev0, WritesOf(s.writes, s.order))
  {
    match s.holder
    case None =>
    case Some(t) =>
      HolderWrites(lines, dev0, s, t);
      SerialDevStep(s.writes, dev0, Completed(s), t);
  }

  /** Serialisability with failing writes: in every reachable state the device is what the writes of the sessions,
      one session after another in the order in which they took the mutex, make of it.  Each completed session wrote
      its line to the end or to the write that failed, the holder some part of it; a control line wrote nothing. */
  lemma SerialisableWhateverFails(lines: seq<seq<byte>>, dev0: Dev, s: State)
    requires Reachable(lines, dev0, s)
    ensures |s.writes| == |lines| && s.dev == DeviceState.Run(dev0, WritesOf(s.writes, s.order))
    ensures forall t :: t in Completed(s) ==> t < |lines| && SessionWrites(lines[t], s.writes[t])
    ensures match s.holder
      case None => Completed(s) == s.order
      case Some(t) => t < |lines| && s.order == Completed(s) + [t] && WritesSoFar(lines[t], s.writes[t])
  {
    ReachableInv(lines, dev0, s);
    DevIsSerial(lines, dev0, s);
    forall t | t in Completed(s)
      ensures t < |lines| && t < |s.writes| && SessionWrites(lines[t], s.writes[t])
    {
      CompletedWrites(lines, dev0, s, t);
    }
    match s.holder
    case None =>
    case Some(t) => HolderWrites(lines, dev0, s, t);
  }

  /** What each of these threads got onto the device. */
  function Contributions(writes: seq<seq<WriteEvent>>, order: seq<Tid>): (parts: seq<seq<byte>>)
    ensures |parts| == |order|
  {
    seq(|order|, i requires 0 <= i < |order| =>
      if order[i] < |writes| then DeviceState.AcceptedBytes(writes[order[i]]) else [])
  }

  lemma {:induction false} ContributionsJoin(writes: seq<seq<WriteEvent>>, order: seq<Tid>)
    ensures DeviceState.AcceptedBytes(WritesOf(writes, order)) == Flatten(Contributions(writes, order))
  {
    if order == [] {
      assert Contributions(writes, order) == [];
    } else {
      var n := |order| - 1;
      var before := order[..n];
      var last := if order[n] < |writes| then writes[order[n]] else [];
      var part := DeviceState.AcceptedBytes(last);
      ContributionsJoin(writes, before);
      DeviceState.AcceptedBytesConcat(WritesOf(writes, before), last);
      ContributionsSnoc(writes, order, before, part);
      FlattenSnoc(Contributions(writes, before), part);
    }
  }

  lemma ContributionsSnoc(writes: seq<seq<WriteEvent>>, order: seq<Tid>, before: seq<Tid>, part: seq<byte>)
    requires order != [] && before == order[..|order| - 1]
    requires var t := order[|order| - 1];
      part == DeviceState.AcceptedBytes(if t < |writes| then writes[t] else [])
    ensures Contributions(writes, order) == Contributions(writes, before) + [part]
  {
    assert DeviceState.AcceptedBytes([]) == [];
  }

  /** The session at place `i` wrote a prefix of its line: nothing of a control line, and once it is over the whole
      of a normal one if and only if no write failed. */
  predicate Contributes(lines: seq<seq<byte>>, s: State, i: nat)
    requires i < |s.order|
  {
    var t, part := s.order[i], Contributions(s.writes, s.order)[i];
    && t < |lines| == |s.writes| && part <= lines[t]
    && (ParseCtrl(lines[t]).Some? ==> part == [])
    && (ParseCtrl(lines[t]).None? && i < |Completed(s)| ==> (part == lines[t] <==> AllSucceed(s.writes[t])))
  }

  lemma PlaceContributes(lines: seq<seq<byte>>, dev0: Dev, s: State, i: nat)
    requires Inv(lines, dev0, s) && i < |s.order|
    ensures Contributes(lines, s, i)
  {
    var t := s.order[i];
    if i < |Completed(s)| {
      assert t == Completed(s)[i];
      CompletedWrites(lines, dev0, s, t);
      SessionWritesSoFar(lines[t], s.writes[t]);
      if ParseCtrl(lines[t]).None? {
        WholeIffAllSucceed(lines[t], s.writes[t]);
      }
    } else {
      HolderWrites(lines, dev0, s, t);
    }
  }

  /** If nothing is lost, failing writes only shorten what a session contributes: the bytes on the device are, in
      mutex order, one prefix of each normal line, the whole of it where no write failed, and nothing of a control
      line. */
  lemma EachContributesAPrefix(lines: seq<seq<byte>>, dev0: Dev, s: State)
    requires Reachable(lines, dev0, s)
    requires dev0.intact && !DeviceState.SomeWriteSpoils(dev0, WritesOf(s.writes, s.order))
    ensures Stream(s.dev.log) == Stream(dev0.log) + Flatten(Contributions(s.writes, s.order))
    ensures forall i :: 0 <= i < |s.order| ==> Contributes(lines, s, i)
  {
    ReachableInv(lines, dev0, s);
    DevIsSerial(lines, dev0, s);
    var ws := WritesOf(s.writes, s.order);
    DeviceState.UnspoiltRun(dev0, ws);
    AcceptAllStream(dev0.log, DeviceState.Accepted(ws));
    ContributionsJoin(s.writes, s.order);
    forall i | 0 <= i < |s.order|
      ensures Contributes(lines, s, i)
    {
      PlaceContributes(lines, dev0, s, i);
    }
  }

  /** Response content: a finished session was answered as if the sessions before it in the order had run alone,
      one after another, and then its own writes. */
  lemma FinishedSessionAnswered(lines: seq<seq<byte>>, dev0: Dev, s: State, t: Tid) returns (i: nat)
    requires Reachable(lines, dev0, s)
    requires t < |s.phases| && s.phases[t].Done?
    ensures i < |s.order| && s.order[i] == t < |lines| && t < |s.sent| && t < |s.writes|
    ensures SessionWrites(lines[t], s.writes[t])
    ensures s.sent[t] == Answer(DeviceState.Run(SerialDev(s.writes, dev0, s.order[..i]), s.writes[t]).log, lines[t])
  {
    ReachableInv(lines, dev0, s);
    i := DoneIsAnswered(lines, dev0, s, t);
  }

  lemma DoneIsAnswered(lines: seq<seq<byte>>, dev0: Dev, s: State, t: Tid) returns (i: nat)
    requires Inv(lines, dev0, s) && t < |s.phases| && s.phases[t].Done?
    ensures i < |s.order| && s.order[i] == t && Answered(lines, dev0, s, i)
  {
    assert t in s.order;
    i :| 0 <= i < |s.order| && s.order[i] == t;
  }

  /** A finished control session was answered from the device as it was at its turn: with the contents from byte y of
      command x on while the oldest command is in slot 0, and else with the end of the contents that is as long as the
      rest of slot x and the slots after it; with nothing if there is no such byte. */
  lemma SeekSessionReceives(lines: seq<seq<byte>>, dev0: Dev, s: State, t: Tid, x: nat, y: nat) returns (i: nat)
    requires Reachable(lines, dev0, s)
    requires t < |s.phases| && t < |lines| && s.phases[t].Done?
    requires x < 0x8000_0000 && y < 0x8000_0000 && lines[t] == PrintCtrl(x, y)
    ensures i < |s.order| && s.order[i] == t < |s.sent|
    ensures var log := SerialDev(s.writes, dev0, s.order[..i]).log;
      var w, slots := Newest(log.commands), Slots(log.commands, []);
      && (OldestSlot(|log.commands|) == 0 ==>
            s.sent[t] == if x < |w| && y < |w[x]| then w[x][y..] + Flatten(w[x + 1..]) else [])
      && (if x < SLOTS && y < |slots[x]|
          then EndsWith(Contents(log), s.sent[t]) && |s.sent[t]| == Sum(Sizes(slots)[x..]) - y
          else s.sent[t] == [])
  {
    i := FinishedSessionAnswered(lines, dev0, s, t);
    var dev := SerialDev(s.writes, dev0, s.order[..i]);
    ParseInvertsPrint(x, y);
    assert DeviceState.Run(dev, []) == dev;
    SeekAnswerLength(dev.log, lines[t], x, y);
    if OldestSlot(|dev.log.commands|) == 0 {
      SeekSelectsResponse(dev.log, x, y);
    }
  }

  // ----- The converse: every serial execution is a run

  /** Device writes by which a thread gets through `rest` of its line, or to the write that fails. */
  predicate Appends(rest: seq<byte>, ws: seq<WriteEvent>)
    decreases |ws|
  {
    if |ws| == 0 then rest == []
    else
      && ws[0].chunk != [] && ws[0].chunk <= rest
      && if DeviceState.Succeeds(ws[0]) then Appends(rest[|ws[0].chunk|..], ws[1..]) else |ws| == 1
  }

  lemma {:induction false} AppendedAppends(rest: seq<byte>, ws: seq<WriteEvent>)
    requires Appended(rest, ws)
    ensures Appends(rest, ws)
    decreases |ws|
  {
    if |ws| == 0 {
    } else if |ws| == 1 && !DeviceState.Succeeds(ws[0]) {
      FirstOfCut(rest, ws);
    } else {
      FirstOfAppended(rest, ws);
      AppendedAppends(rest[|ws[0].chunk|..], ws[1..]);
    }
  }

  lemma FirstOfCut(rest: seq<byte>, ws: seq<WriteEvent>)
    requires Appended(rest, ws) && |ws| == 1 && !DeviceState.Succeeds(ws[0])
    ensures ws[0].chunk != [] && ws[0].chunk <= rest
  {
    assert ws[..0] == [];
    assert DeviceState.AcceptedBytes([]) == [];
    assert [] + ws[0].chunk == ws[0].chunk;
  }

  /** The first of several writes, or of one that succeeds. */
  lemma FirstOfAppended(rest: seq<byte>, ws: seq<WriteEvent>)
    requires Appended(rest, ws) && |ws| > 0 && (|ws| > 1 || DeviceState.Succeeds(ws[0]))
    ensures DeviceState.Succeeds(ws[0]) && ws[0].chunk != [] && ws[0].chunk <= rest
    ensures Appended(rest[|ws[0].chunk|..], ws[1..])
  {
    if Whole(rest, ws) {
      UpToTail(rest, ws, []);
    } else {
      var n := |ws| - 1;
      var front := ws[..n];
      assert front[0] == ws[0] && AllSucceed(front);
      UpToTail(rest, front, rest[|DeviceState.AcceptedBytes(front)|..]);
      CutTail(rest, ws);
    }
  }

  lemma UpToTail(line: seq<byte>, ws: seq<WriteEvent>, rest: seq<byte>)
    requires UpTo(line, ws, rest) && |ws| > 0
    ensures ws[0].chunk <= line && UpTo(line[|ws[0].chunk|..], ws[1..], rest)
    ensures DeviceState.AcceptedBytes(ws) == ws[0].chunk + DeviceState.AcceptedBytes(ws[1..])
  {
    var chunk, later := ws[0].chunk, DeviceState.AcceptedBytes(ws[1..]);
    DeviceState.FlattenAccepted(ws, []);
    Associative(chunk, later, rest);
    assert line == chunk + (later + rest);
  }

  lemma CutTail(line: seq<byte>, ws: seq<WriteEvent>)
    requires Cut(line, ws) && |ws| > 1
    ensures ws[0].chunk <= line && Cut(line[|ws[0].chunk|..], ws[1..])
  {
    var n := |ws| - 1;
    var front, last := ws[..n], ws[n].chunk;
    var rest := line[|DeviceState.AcceptedBytes(front)|..];
    UpToTail(line, front, rest);
    assert ws[1..][..n - 1] == front[1..];
    var chunk, later := ws[0].chunk, DeviceState.AcceptedBytes(front[1..]);
    assert chunk + later + last <= line;
    assert later + last <= line[|chunk|..];
    assert line[|chunk|..][|later|..] == rest;
  }

  /** The state with other entries for one thread, and another device. */
  function At(s: State, t: Tid, dev: Dev, p: Phase, sent: seq<byte>, ws: seq<WriteEvent>): State
    requires t < |s.phases| == |s.sent| == |s.writes|
  {
    State(dev, s.holder, s.phases[t := p], s.sent[t := sent], s.order, s.writes[t := ws])
  }

  lemma AtTwice(s: State, t: Tid, dev1: Dev, p1: Phase, sent1: seq<byte>, ws1: seq<WriteEvent>,
                dev: Dev, p: Phase, sent: seq<byte>, ws: seq<WriteEvent>)
    requires t < |s.phases| == |s.sent| == |s.writes|
    ensures At(At(s, t, dev1, p1, sent1, ws1), t, dev, p, sent, ws) == At(s, t, dev, p, sent, ws)
  {
  }

  /** The state in which the thread has left, having received `got`. */
  function Left(s: State, t: Tid, dev: Dev, got: seq<byte>, ws: seq<WriteEvent>): State
    requires t < |s.phases| == |s.sent| == |s.writes|
  {
    At(s, t, dev, Done, got, ws).(holder := None)
  }

  lemma LeftAfter(s: State, t: Tid, dev1: Dev, p1: Phase, sent1: seq<byte>, ws1: seq<WriteEvent>,
                  dev: Dev, got: seq<byte>, ws: seq<WriteEvent>)
    requires t < |s.phases| == |s.sent| == |s.writes|
    ensures Left(At(s, t, dev1, p1, sent1, ws1), t, dev, got, ws) == Left(s, t, dev, got, ws)
  {
    AtTwice(s, t, dev1, p1, sent1, ws1, dev, Done, got, ws);
  }

  /** `steps` lead from `s` to `after`. */
  ghost predicate Leads(lines: seq<seq<byte>>, s: State, steps: seq<Step>, after: State) {
    |lines| == |s.phases| && CanRun(lines, s, steps) && After(lines, s, steps) == after
  }

  lemma LeadsOn(lines: seq<seq<byte>>, s: State, step: Step, next: State, rest: seq<Step>, after: State)
    requires |lines| == |s.phases| && Enabled(s, step) && next == Next(lines, s, step)
    requires Leads(lines, next, rest, after)
    ensures Leads(lines, s, [step] + rest, after)
  {
    RunStarts(lines, s, step, rest);
  }

  lemma LeadsNowhere(lines: seq<seq<byte>>, s: State)
    requires |lines| == |s.phases|
    ensures Leads(lines, s, [], s)
  {
  }

  lemma LeadsFarther(lines: seq<seq<byte>>, s: State, a: seq<Step>, mid: State, b: seq<Step>, after: State)
    requires Leads(lines, s, a, mid) && Leads(lines, mid, b, after)
    ensures Leads(lines, s, a + b, after)
  {
    RunsJoin(lines, s, a, b);
  }

  lemma StepAt(lines: seq<seq<byte>>, s: State, step: Step)
    requires Enabled(s, step) && |lines| == |s.phases| && !step.Lock? && !step.Unlock?
    ensures var t := step.t; var p := s.phases[t];
      Next(lines, s, step) == At(s, t, StepDev(s.dev, step), StepPhase(s.dev.log, lines[t], p, step),
                                 s.sent[t] + StepSent(p, step), s.writes[t] + StepWrites(step))
  {
  }

  /** The writes and the reopening, from the phase in which `rest` of the line is still to be written. */
  lemma {:induction false} AppendRun(lines: seq<seq<byte>>, s: State, t: Tid, ws: seq<WriteEvent>)
    returns (steps: seq<Step>)
    requires t < |lines| == |s.phases| == |s.sent| == |s.writes|
    requires s.phases[t].Appending? && Appends(s.phases[t].rest, ws)
    ensures Leads(lines, s, steps,
      At(s, t, DeviceState.Run(s.dev, ws), Streaming(0, [], false), s.sent[t], s.writes[t] + ws))
    decreases |ws|, 0
  {
    if |ws| == 0 {
      steps := ReopenRun(lines, s, t);
      assert s.writes[t] + ws == s.writes[t];
    } else {
      var e, later := ws[0], ws[1..];
      var step := Write(t, e);
      StepAt(lines, s, step);
      var dev1, p1, sent1, ws1 :=
        DeviceState.WriteStep(s.dev, e), WritePhase(s.phases[t], e), s.sent[t] + [], s.writes[t] + [e];
      var next := At(s, t, dev1, p1, sent1, ws1);
      var rest := WroteRun(lines, next, t, later, DeviceState.Succeeds(e));
      assert s.writes[t] + ws == ws1 + later && sent1 == s.sent[t];
      AtTwice(s, t, dev1, p1, sent1, ws1,
              DeviceState.Run(s.dev, ws), Streaming(0, [], false), s.sent[t], s.writes[t] + ws);
      LeadsOn(lines, s, step, next, rest,
              At(s, t, DeviceState.Run(s.dev, ws), Streaming(0, [], false), s.sent[t], s.writes[t] + ws));
      steps := [step] + rest;
    }
  }

  /** What follows a write: more writes, or the reopening. */
  lemma {:induction false} WroteRun(lines: seq<seq<byte>>, s: State, t: Tid, ws: seq<WriteEvent>, ok: bool)
    returns (steps: seq<Step>)
    requires t < |lines| == |s.phases| == |s.sent| == |s.writes|
    requires if ok then s.phases[t].Appending? && Appends(s.phases[t].rest, ws) else s.phases[t].Broken? && |ws| == 0
    ensures Leads(lines, s, steps,
      At(s, t, DeviceState.Run(s.dev, ws), Streaming(0, [], false), s.sent[t], s.writes[t] + ws))
    decreases |ws|, 1
  {
    if ok {
      steps := AppendRun(lines, s, t, ws);
    } else {
      steps := ReopenRun(lines, s, t);
      assert s.writes[t] + ws == s.writes[t];
    }
  }

  lemma ReopenRun(lines: seq<seq<byte>>, s: State, t: Tid) returns (steps: seq<Step>)
    requires t < |lines| == |s.phases| == |s.sent| == |s.writes|
    requires s.phases[t] == Appending([]) || s.phases[t].Broken?
    ensures Leads(lines, s, steps, At(s, t, s.dev, Streaming(0, [], false), s.sent[t], s.writes[t]))
  {
    var step := Reopen(t);
    StepAt(lines, s, step);
    assert s.sent[t] + [] == s.sent[t] && s.writes[t] + [] == s.writes[t];
    LeadsNowhere(lines, Next(lines, s, step));
    LeadsOn(lines, s, step, Next(lines, s, step), [], Next(lines, s, step));
    steps := [step] + [];
  }

  lemma UnlockRun(lines: seq<seq<byte>>, s: State, t: Tid) returns (steps: seq<Step>)
    requires t < |lines| == |s.phases| == |s.sent| == |s.writes| && OwnStep(s.phases[t], Unlock(t))
    ensures Leads(lines, s, steps, Left(s, t, s.dev, s.sent[t], s.writes[t]))
  {
    var step := Unlock(t);
    assert s.sent[t] + [] == s.sent[t] && s.writes[t] + [] == s.writes[t];
    LeadsNowhere(lines, Next(lines, s, step));
    LeadsOn(lines, s, step, Next(lines, s, step), [], Next(lines, s, step));
    steps := [step] + [];
  }

  /** Reading to the end and sending everything, in reads of `count` bytes and sends of at most `n`. */
  lemma {:induction false} DrainRun(lines: seq<seq<byte>>, s: State, t: Tid, count: nat, n: nat, got: seq<byte>)
    returns (steps: seq<Step>)
    requires t < |lines| == |s.phases| == |s.sent| == |s.writes| && count > 0 && n > 0
    requires s.phases[t].Streaming? && s.phases[t].pos <= |Contents(s.dev.log)|
    requires s.phases[t].eof ==> s.phases[t].pos == |Contents(s.dev.log)|
    requires got == s.sent[t] + s.phases[t].outgoing + Contents(s.dev.log)[s.phases[t].pos..]
    ensures Leads(lines, s, steps, Left(s, t, s.dev, got, s.writes[t]))
    decreases |Contents(s.dev.log)| - s.phases[t].pos, |s.phases[t].outgoing|, !s.phases[t].eof
  {
    var p, all := s.phases[t], Contents(s.dev.log);
    if p.outgoing == [] && p.eof {
      assert got == s.sent[t];
      steps := UnlockRun(lines, s, t);
    } else {
      var step, q, sent1 := DrainStep(s.dev.log, lines[t], p, s.sent[t], t, count, n, got);
      StepAt(lines, s, step);
      assert s.writes[t] + [] == s.writes[t];
      var next := At(s, t, s.dev, q, sent1, s.writes[t]);
      var rest := DrainRun(lines, next, t, count, n, got);
      LeftAfter(s, t, s.dev, q, sent1, s.writes[t], s.dev, got, s.writes[t]);
      LeadsOn(lines, s, step, next, rest, Left(s, t, s.dev, got, s.writes[t]));
      steps := [step] + rest;
    }
  }

  /** A send while something is waiting, else a read: either keeps what the client will have received. */
  lemma DrainStep(log: Log, line: seq<byte>, p: Phase, sent: seq<byte>, t: Tid, count: nat, n: nat, got: seq<byte>)
    returns (step: Step, q: Phase, sent1: seq<byte>)
    requires p.Streaming? && p.pos <= |Contents(log)| && count > 0 && n > 0 && (p.outgoing != [] || !p.eof)
    requires p.eof ==> p.pos == |Contents(log)|
    requires got == sent + p.outgoing + Contents(log)[p.pos..]
    ensures step.t == t && OwnStep(p, step) && (step.Send? || step.Read?)
    ensures step.Read? ==> step.count == count
    ensures q == StepPhase(log, line, p, step) && sent1 == sent + StepSent(p, step)
    ensures q.Streaming? && p.pos <= q.pos <= |Contents(log)| && (q.eof ==> q.pos == |Contents(log)|)
    ensures got == sent1 + q.outgoing + Contents(log)[q.pos..]
    ensures q.pos > p.pos || (q.pos == p.pos && |q.outgoing| < |p.outgoing|)
      || (q.pos == p.pos && |q.outgoing| == |p.outgoing| && q.eof && !p.eof)
  {
    var all := Contents(log);
    if p.outgoing != [] {
      var m := if n < |p.outgoing| then n else |p.outgoing|;
      step := Send(t, m);
      q, sent1 := p.(outgoing := p.outgoing[m..]), sent + p.outgoing[..m];
      assert sent + p.outgoing == sent1 + q.outgoing;
    } else {
      var pos := p.pos;
      step := Read(t, count);
      q, sent1 := ReadPhase(log, p, count), sent + [];
      PieceIsContiguous(Newest(log.commands), pos, count);
      PieceMoves(all, pos, ReadPiece(Newest(log.commands), pos, count), sent, p.outgoing);
      assert sent1 == sent;
    }
  }

  /** From taking the mutex on: the line in these writes, or the seek, and then everything there is to send. */
  lemma SectionRun(lines: seq<seq<byte>>, s: State, t: Tid, ws: seq<WriteEvent>, count: nat, n: nat)
    returns (steps: seq<Step>)
    requires t < |lines| == |s.phases| == |s.sent| == |s.writes| && count > 0 && n > 0
    requires s.phases[t] == FirstPhase(lines[t]) && s.sent[t] == [] && s.writes[t] == []
    requires SessionWrites(lines[t], ws)
    ensures var dev := DeviceState.Run(s.dev, ws);
      Leads(lines, s, steps, Left(s, t, dev, Answer(dev.log, lines[t]), ws))
  {
    var line := lines[t];
    if ParseCtrl(line).None? {
      AppendedAppends(line, ws);
      var first := AppendRun(lines, s, t, ws);
      var dev := DeviceState.Run(s.dev, ws);
      assert [] + ws == ws;
      var mid := At(s, t, dev, Streaming(0, [], false), [], ws);
      assert [] + [] + Contents(dev.log)[0..] == Answer(dev.log, line);
      var rest := DrainRun(lines, mid, t, count, n, Answer(dev.log, line));
      LeftAfter(s, t, dev, Streaming(0, [], false), [], ws, dev, Answer(dev.log, line), ws);
      LeadsFarther(lines, s, first, mid, rest, Left(s, t, dev, Answer(dev.log, line), ws));
      steps := first + rest;
    } else {
      assert DeviceState.Run(s.dev, ws) == s.dev;
      steps := SeekRun(lines, s, t, count, n);
    }
  }

  lemma SeekRun(lines: seq<seq<byte>>, s: State, t: Tid, count: nat, n: nat) returns (steps: seq<Step>)
    requires t < |lines| == |s.phases| == |s.sent| == |s.writes| && count > 0 && n > 0
    requires s.phases[t].Seeking? && ParseCtrl(lines[t]).Some? && s.sent[t] == [] && s.writes[t] == []
    ensures Leads(lines, s, steps, Left(s, t, s.dev, Answer(s.dev.log, lines[t]), []))
  {
    var line, step := lines[t], Seek(t);
    var q := SeekPhase(s.dev.log, line);
    StepAt(lines, s, step);
    var next := At(s, t, s.dev, q, [], []);
    assert s.sent[t] + [] == [] && s.writes[t] + [] == [];
    var rest;
    if q.Streaming? {
      var SeekTo(x, y) := ParseCtrl(line).value;
      SeekLandsInside(s.dev.log.commands, x, y, 1);
      assert [] + [] + Contents(s.dev.log)[q.pos..] == Answer(s.dev.log, line);
      rest := DrainRun(lines, next, t, count, n, Answer(s.dev.log, line));
    } else {
      rest := UnlockRun(lines, next, t);
    }
    LeftAfter(s, t, s.dev, q, [], [], s.dev, Answer(s.dev.log, line), []);
    LeadsOn(lines, s, step, next, rest, Left(s, t, s.dev, Answer(s.dev.log, line), []));
    steps := [step] + rest;
  }

  /** Whenever the mutex is free a session that has not started can run from beginning to end: with any division of
      its line into device writes, any of which may be the first to fail, and any sizes of reads and sends. */
  lemma SessionCanRun(lines: seq<seq<byte>>, s: State, t: Tid, ws: seq<WriteEvent>, count: nat, n: nat)
    returns (steps: seq<Step>)
    requires t < |lines| == |s.phases| == |s.sent| == |s.writes| && count > 0 && n > 0
    requires s.holder.None? && s.phases[t].Ready? && s.sent[t] == [] && s.writes[t] == []
    requires SessionWrites(lines[t], ws)
    ensures var dev := DeviceState.Run(s.dev, ws);
      Leads(lines, s, steps, Left(s, t, dev, Answer(dev.log, lines[t]), ws).(order := s.order + [t]))
  {
    var locked := s.(holder := Some(t), phases := s.phases[t := FirstPhase(lines[t])], order := s.order + [t]);
    LockChanges(lines, s, t);
    var rest := SectionRun(lines, locked, t, ws, count, n);
    var dev := DeviceState.Run(s.dev, ws);
    LeadsOn(lines, s, Lock(t), locked, rest, Left(locked, t, dev, Answer(dev.log, lines[t]), ws));
    steps := [Lock(t)] + rest;
    assert s.phases[t := FirstPhase(lines[t])][t := Done] == s.phases[t := Done];
  }

  /** A session that has not taken the mutex can be given up at any time, whoever holds it, and leaves no trace. */
  lemma SessionCanBeGivenUp(lines: seq<seq<byte>>, s: State, t: Tid)
    requires t < |lines| == |s.phases| == |s.sent| == |s.writes| && s.phases[t].Ready?
    ensures Leads(lines, s, [Abort(t)], s.(phases := s.phases[t := Aborted]))
  {
    var next := s.(phases := s.phases[t := Aborted]);
    AbortChanges(lines, s, t);
    LeadsNowhere(lines, next);
    LeadsOn(lines, s, Abort(t), next, [], next);
    assert [Abort(t)] + [] == [Abort(t)];
  }

  /** These sessions, in this order, have left with these device writes, and no other has started. */
  ghost predicate SerialOutcome(lines: seq<seq<byte>>, dev0: Dev, order: seq<Tid>, writes: seq<seq<WriteEvent>>,
                                s: State)
  {
    match s
    case State(dev, holder, phases, sent, order', writes') =>
      && dev == SerialDev(writes, dev0, order) && holder.None?
      && |phases| == |sent| == |lines| && order' == order && writes' == writes
      && (forall t :: 0 <= t < |phases| ==> phases[t] == if t in order then Done else Ready)
      && (forall t :: 0 <= t < |sent| && t !in order ==> sent[t] == [])
  }

  /** Different sessions in some order, each with device writes a session may make; the others make none. */
  ghost predicate MaySerially(lines: seq<seq<byte>>, order: seq<Tid>, writes: seq<seq<WriteEvent>>) {
    && |writes| == |lines| && Distinct(order)
    && (forall i :: 0 <= i < |order| ==> order[i] < |lines| && SessionWrites(lines[order[i]], writes[order[i]]))
    && (forall t :: 0 <= t < |writes| && t !in order ==> |writes[t]| == 0)
  }

  /** All but the last session. */
  lemma OneSessionFewer(lines: seq<seq<byte>>, order: seq<Tid>, writes: seq<seq<WriteEvent>>,
                        before: seq<Tid>, t: Tid, fewer: seq<seq<WriteEvent>>)
    requires MaySerially(lines, order, writes) && order == before + [t]
    requires t < |writes| && fewer == writes[t := []]
    ensures MaySerially(lines, before, fewer) && t !in before && SessionWrites(lines[t], writes[t])
  {
    assert order[|before|] == t;
    forall i | 0 <= i < |before|
      ensures before[i] == order[i] != t
    {
    }
    forall u | 0 <= u < |fewer| && u !in before
      ensures |fewer[u]| == 0
    {
      assert u != t ==> u !in order;
    }
  }

  lemma OneSessionMore(lines: seq<seq<byte>>, dev0: Dev, before: seq<Tid>, t: Tid, fewer: seq<seq<WriteEvent>>,
                       writes: seq<seq<WriteEvent>>, mid: State, s: State)
    requires SerialOutcome(lines, dev0, before, fewer, mid) && t < |lines| == |writes| == |fewer| && t !in before
    requires fewer == writes[t := []]
    requires var dev := DeviceState.Run(mid.dev, writes[t]);
      s == Left(mid, t, dev, Answer(dev.log, lines[t]), writes[t]).(order := mid.order + [t])
    ensures SerialOutcome(lines, dev0, before + [t], writes, s)
  {
    WritesOfFrame(fewer, writes, before);
    SerialDevStep(writes, dev0, before, t);
    assert fewer[t := writes[t]] == writes;
    assert forall u :: u in before + [t] <==> u in before || u == t;
  }

  /** The converse of serialisability: any sessions in any order, each with any device writes a session may make, are
      the outcome of a run. */
  lemma {:induction false} SerialIsARun(lines: seq<seq<byte>>, dev0: Dev, order: seq<Tid>,
                                        writes: seq<seq<WriteEvent>>, count: nat, n: nat)
    returns (steps: seq<Step>, s: State)
    requires MaySerially(lines, order, writes) && count > 0 && n > 0
    ensures Leads(lines, Start(lines, dev0), steps, s)
    ensures SerialOutcome(lines, dev0, order, writes, s)
    decreases |order|
  {
    if order == [] {
      steps, s := [], Start(lines, dev0);
      LeadsNowhere(lines, s);
      assert s.writes == writes;
      assert DeviceState.Run(dev0, []) == dev0;
    } else {
      var before, t := order[..|order| - 1], order[|order| - 1];
      var fewer := writes[t := []];
      assert order == before + [t];
      OneSessionFewer(lines, order, writes, before, t, fewer);
      var first, mid := SerialIsARun(lines, dev0, before, fewer, count, n);
      steps, s := SerialGoesOn(lines, dev0, before, t, fewer, writes, count, n, first, mid);
    }
  }

  lemma SerialGoesOn(lines: seq<seq<byte>>, dev0: Dev, before: seq<Tid>, t: Tid, fewer: seq<seq<WriteEvent>>,
                     writes: seq<seq<WriteEvent>>, count: nat, n: nat, first: seq<Step>, mid: State)
    returns (steps: seq<Step>, s: State)
    requires count > 0 && n > 0 && t < |lines| == |writes| == |fewer| && t !in before
    requires fewer == writes[t := []] && SessionWrites(lines[t], writes[t])
    requires Leads(lines, Start(lines, dev0), first, mid) && SerialOutcome(lines, dev0, before, fewer, mid)
    ensures Leads(lines, Start(lines, dev0), steps, s)
    ensures SerialOutcome(lines, dev0, before + [t], writes, s)
  {
    var rest := SessionCanRun(lines, mid, t, writes[t], count, n);
    var dev := DeviceState.Run(mid.dev, writes[t]);
    s := Left(mid, t, dev, Answer(dev.log, lines[t]), writes[t]).(order := mid.order + [t]);
    LeadsFarther(lines, Start(lines, dev0), first, mid, rest, s);
    steps := first + rest;
    OneSessionMore(lines, dev0, before, t, fewer, writes, mid, s);
  }

  // ----- Serialisability when no write fails

  /** The log after whole sessions, one at a time, in this order. */
  function Serial(lines: seq<seq<byte>>, log: Log, order: seq<Tid>): Log {
    if order == [] then log
    else
      var n := |order| - 1;
      var before := Serial(lines, log, order[..n]);
      if order[n] < |lines| then AfterLine(before, lines[order[n]]) else before
  }

  /** The lines appended by these sessions, control lines left out. */
  function NormalLines(lines: seq<seq<byte>>, order: seq<Tid>): seq<seq<byte>> {
    if order == [] then []
    else
      var n := |order| - 1;
      NormalLines(lines, order[..n]) +
        if order[n] < |lines| && ParseCtrl(lines[order[n]]).None? then [lines[order[n]]] else []
  }

  predicate AllLines(lines: seq<seq<byte>>) {
    forall t :: 0 <= t < |lines| ==> IsLine(lines[t])
  }

  lemma {:induction false} SerialPending(lines: seq<seq<byte>>, log: Log, order: seq<Tid>)
    requires !EndsLine(log.pending)
    ensures !EndsLine(Serial(lines, log, order).pending)
  {
    if order != [] {
      SerialPending(lines, log, order[..|order| - 1]);
    }
  }

  lemma SerialStep(lines: seq<seq<byte>>, log: Log, order: seq<Tid>, t: Tid)
    requires t < |lines|
    ensures Serial(lines, log, order + [t]) == AfterLine(Serial(lines, log, order), lines[t])
  {
    assert (order + [t])[..|order|] == order;
  }

  /** The device starts sound, each client sends one line, and no device write has failed. */
  predicate NothingFailed(lines: seq<seq<byte>>, dev0: Dev, s: State) {
    && AllLines(lines) && Sound(dev0)
    && forall t :: 0 <= t < |s.writes| ==> AllSucceed(s.writes[t])
  }

  /** This session has made all its writes and none failed. */
  predicate ServedWhole(lines: seq<seq<byte>>, writes: seq<seq<WriteEvent>>, t: Tid) {
    t < |lines| && t < |writes| && SessionWrites(lines[t], writes[t]) && AllSucceed(writes[t])
  }

  /** Without failures whole sessions move the log as if each line had been written at once. */
  lemma {:induction false} SerialDevIsSerial(lines: seq<seq<byte>>, dev0: Dev, writes: seq<seq<WriteEvent>>,
                                             order: seq<Tid>)
    requires AllLines(lines) && Sound(dev0) && |writes| == |lines|
    requires forall i :: 0 <= i < |order| ==> ServedWhole(lines, writes, order[i])
    ensures SerialDev(writes, dev0, order) == dev0.(log := Serial(lines, dev0.log, order))
    ensures Sound(SerialDev(writes, dev0, order))
  {
    if order == [] {
      assert DeviceState.Run(dev0, []) == dev0;
    } else {
      var before, t := order[..|order| - 1], order[|order| - 1];
      assert order == before + [t];
      forall i | 0 <= i < |before|
        ensures ServedWhole(lines, writes, before[i])
      {
        assert before[i] == order[i];
      }
      assert ServedWhole(lines, writes, order[|order| - 1]);
      SerialDevIsSerial(lines, dev0, writes, before);
      SerialDevStep(writes, dev0, before, t);
      SerialStep(lines, dev0.log, before, t);
      SessionWithoutFailure(SerialDev(writes, dev0, before), lines[t], writes[t]);
    }
  }

  /** What the holder has written so far. */
  function HolderWrote(s: State): seq<byte> {
    match s.holder
    case None => []
    case Some(t) => if t < |s.writes| then DeviceState.AcceptedBytes(s.writes[t]) else []
  }

  lemma CompletedIsSerial(lines: seq<seq<byte>>, dev0: Dev, s: State)
    requires Reachable(lines, dev0, s) && NothingFailed(lines, dev0, s)
    ensures SerialDev(s.writes, dev0, Completed(s)) == dev0.(log := Serial(lines, dev0.log, Completed(s)))
    ensures Sound(SerialDev(s.writes, dev0, Completed(s)))
  {
    SerialisableWhateverFails(lines, dev0, s);
    forall i | 0 <= i < |Completed(s)|
      ensures ServedWhole(lines, s.writes, Completed(s)[i])
    {
      assert Completed(s)[i] in Completed(s);
    }
    SerialDevIsSerial(lines, dev0, s.writes, Completed(s));
  }

  /** A sound device after the writes of a session under way. */
  lemma SoFarIsOneWrite(base: Dev, line: seq<byte>, ws: seq<WriteEvent>)
    requires Sound(base) && IsLine(line) && WritesSoFar(line, ws) && AllSucceed(ws)
    ensures DeviceState.Run(base, ws).log == Accept(base.log, DeviceState.AcceptedBytes(ws))
  {
    if ParseCtrl(line).Some? {
      assert base.log.pending + [] == base.log.pending;
    } else {
      RunIsOneWrite(base, line, ws, line[|DeviceState.AcceptedBytes(ws)|..]);
    }
  }

  /** The log is that of the completed sessions one at a time, and then the part the holder has written. */
  lemma LogIsSerial(lines: seq<seq<byte>>, dev0: Dev, s: State)
    requires Reachable(lines, dev0, s) && NothingFailed(lines, dev0, s)
    ensures s.dev.log == Accept(Serial(lines, dev0.log, Completed(s)), HolderWrote(s))
    ensures match s.holder
      case None => HolderWrote(s) == [] && Completed(s) == s.order
      case Some(t) => t < |lines| && HolderWrote(s) <= lines[t] && s.order == Completed(s) + [t]
  {
    SerialisableWhateverFails(lines, dev0, s);
    CompletedIsSerial(lines, dev0, s);
    var base := SerialDev(s.writes, dev0, Completed(s));
    match s.holder
    case None => assert base.log.pending + [] == base.log.pending;
    case Some(t) =>
      SerialDevStep(s.writes, dev0, Completed(s), t);
      SoFarIsOneWrite(base, lines[t], s.writes[t]);
  }

  lemma {:induction false} SerialStream(lines: seq<seq<byte>>, log: Log, order: seq<Tid>)
    ensures Stream(Serial(lines, log, order)) == Stream(log) + Flatten(NormalLines(lines, order))
  {
    if order == [] {
      assert Stream(log) + [] == Stream(log);
    } else {
      var n := |order| - 1;
      SerialStream(lines, log, order[..n]);
      if order[n] < |lines| && ParseCtrl(lines[order[n]]).None? {
        var line, before := lines[order[n]], NormalLines(lines, order[..n]);
        AcceptStream(Serial(lines, log, order[..n]), line);
        FlattenSnoc(before, line);
        Associative(Stream(log), Flatten(before), line);
      } else {
        assert NormalLines(lines, order) == NormalLines(lines, order[..n]);
      }
    }
  }

  /** Serialisability: if no write fails, in every reachable state the bytes the device accepted are the normal lines
      in the order in which their threads took the mutex, and then a prefix of the current holder's line. */
  lemma Serialisability(lines: seq<seq<byte>>, dev0: Dev, s: State)
    requires Reachable(lines, dev0, s) && NothingFailed(lines, dev0, s)
    ensures Stream(s.dev.log) == Stream(dev0.log) + Flatten(NormalLines(lines, Completed(s))) + HolderWrote(s)
    ensures match s.holder
      case None => Completed(s) == s.order && HolderWrote(s) == []
      case Some(t) => t < |lines| && HolderWrote(s) <= lines[t] && s.order == Completed(s) + [t]
  {
    LogIsSerial(lines, dev0, s);
    AcceptStream(Serial(lines, dev0.log, Completed(s)), HolderWrote(s));
    SerialStream(lines, dev0.log, Completed(s));
  }

  /** Every client that sends a normal line ends it before closing. */
  predicate NormalLinesComplete(lines: seq<seq<byte>>) {
    forall t :: 0 <= t < |lines| && ParseCtrl(lines[t]).None? ==> EndsLine(lines[t])
  }

  lemma {:induction false} SerialCommands(lines: seq<seq<byte>>, log: Log, order: seq<Tid>)
    requires NormalLinesComplete(lines) && log.pending == []
    ensures Serial(lines, log, order) == Log(log.commands + NormalLines(lines, order), [])
  {
    if order == [] {
      assert log.commands + [] == log.commands;
    } else {
      var n := |order| - 1;
      SerialCommands(lines, log, order[..n]);
      var before := NormalLines(lines, order[..n]);
      if order[n] < |lines| && ParseCtrl(lines[order[n]]).None? {
        var line := lines[order[n]];
        assert [] + line == line;
        assert log.commands + before + [line] == log.commands + (before + [line]);
      } else {
        assert NormalLines(lines, order) == before;
      }
    }
  }

  /** If every normal line is complete and no write fails, the committed commands are exactly those lines, one each,
      in mutex order; the holder's line becomes a command with its last byte and not before. */
  lemma CommandsAreTheLines(lines: seq<seq<byte>>, dev0: Dev, s: State)
    requires Reachable(lines, dev0, s) && NothingFailed(lines, dev0, s)
    requires NormalLinesComplete(lines) && dev0.log.pending == []
    ensures var before, wrote := dev0.log.commands + NormalLines(lines, Completed(s)), HolderWrote(s);
      s.dev.log == if EndsLine(wrote) then Log(before + [wrote], []) else Log(before, wrote)
    ensures EndsLine(HolderWrote(s)) ==>
      s.holder.Some? && s.holder.value < |lines| && HolderWrote(s) == lines[s.holder.value]
  {
    LogIsSerial(lines, dev0, s);
    SerialCommands(lines, dev0.log, Completed(s));
    AcceptFromEmpty(dev0.log.commands + NormalLines(lines, Completed(s)), HolderWrote(s));
    if EndsLine(HolderWrote(s)) {
      PrefixWithNewline(lines[s.holder.value], HolderWrote(s));
    }
  }

  lemma AcceptFromEmpty(commands: seq<seq<byte>>, text: seq<byte>)
    ensures Accept(Log(commands, []), text) ==
      if EndsLine(text) then Log(commands + [text], []) else Log(commands, text)
  {
    assert [] + text == text;
  }

  lemma PrefixWithNewline(line: seq<byte>, prefix: seq<byte>)
    requires IsLine(line) && prefix <= line && EndsLine(prefix)
    ensures prefix == line
  {
    assert line[|prefix| - 1] == NEWLINE;
    assert line[..|prefix|] == prefix;
  }

  /** If no write fails a finished session received `Response`. */
  lemma FinishedSessionReceives(lines: seq<seq<byte>>, dev0: Dev, s: State, t: Tid) returns (i: nat)
    requires Reachable(lines, dev0, s) && NothingFailed(lines, dev0, s)
    requires t < |s.phases| && s.phases[t].Done?
    ensures i < |s.order| && s.order[i] == t < |lines| && t < |s.sent|
    ensures s.sent[t] == Response(Serial(lines, dev0.log, s.order[..i]), lines[t])
  {
    i := FinishedSessionAnswered(lines, dev0, s, t);
    SerialisableWhateverFails(lines, dev0, s);
    PlaceOfFinished(lines, dev0, s, i);
    var before := s.order[..i];
    forall j | 0 <= j < |before|
      ensures ServedWhole(lines, s.writes, before[j])
    {
      assert before[j] == Completed(s)[j] && Completed(s)[j] in Completed(s);
    }
    SerialDevIsSerial(lines, dev0, s.writes, before);
    SessionWithoutFailure(SerialDev(s.writes, dev0, before), lines[t], s.writes[t]);
  }

  /** A finished thread is among the completed ones. */
  lemma PlaceOfFinished(lines: seq<seq<byte>>, dev0: Dev, s: State, i: nat)
    requires Reachable(lines, dev0, s) && i < |s.order|
    requires s.order[i] < |s.phases| && s.phases[s.order[i]].Done?
    ensures i < |Completed(s)| && s.order[..i] == Completed(s)[..i]
  {
    match s.holder
    case None =>
    case Some(h) =>
      HolderInside(lines, dev0, s, h);
      PrefixOfPrefix(s.order, |s.order| - 1, i);
  }

  lemma PrefixOfPrefix<T>(s: seq<T>, n: nat, i: nat)
    requires i <= n <= |s|
    ensures s[..n][..i] == s[..i]
  {
  }

  /** For a complete normal line that is: exactly the at most ten newest of the commands stored before and the
      lines of the sessions before it and its own, its own line last. */
  lemma NormalSessionReceives(lines: seq<seq<byte>>, dev0: Dev, s: State, t: Tid) returns (i: nat)
    requires Reachable(lines, dev0, s) && NothingFailed(lines, dev0, s)
    requires NormalLinesComplete(lines) && dev0.log.pending == []
    requires t < |s.phases| && t < |lines| && s.phases[t].Done? && ParseCtrl(lines[t]).None?
    ensures i < |s.order| && s.order[i] == t < |s.sent|
    ensures s.sent[t] == Flatten(Newest(dev0.log.commands + NormalLines(lines, s.order[..i]) + [lines[t]]))
    ensures EndsWith(s.sent[t], lines[t])
  {
    i := FinishedSessionReceives(lines, dev0, s, t);
    SerialNormalResponse(lines, dev0.log, s.order[..i], lines[t]);
  }

  lemma SerialNormalResponse(lines: seq<seq<byte>>, log0: Log, before: seq<Tid>, line: seq<byte>)
    requires NormalLinesComplete(lines) && log0.pending == []
    requires ParseCtrl(line).None? && EndsLine(line)
    ensures var r := Response(Serial(lines, log0, before), line);
      && r == Flatten(Newest(log0.commands + NormalLines(lines, before) + [line]))
      && EndsWith(r, line)
  {
    SerialCommands(lines, log0, before);
    NormalResponseFrom(log0.commands + NormalLines(lines, before), line);
  }

  lemma NormalResponseFrom(commands: seq<seq<byte>>, line: seq<byte>)
    requires ParseCtrl(line).None? && EndsLine(line)
    ensures var r := Response(Log(commands, []), line);
      r == Flatten(Newest(commands + [line])) && EndsWith(r, line)
  {
    NormalLineResponse(Log(commands, []), line);
    assert [] + line == line;
  }
}
