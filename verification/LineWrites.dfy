/**
 Writing one line to the device (server/main.c): the library cuts it into device writes, and the first that fails
 ends it.
 */
module LineWrites {
  import opened Sequences
  import opened CommandLog
  import opened DeviceState

  // ----- What the device writes of a line are

  predicate AllSucceed(ws: seq<WriteEvent>) {
    forall i :: 0 <= i < |ws| ==> Succeeds(ws[i])
  }

  /** Successful writes of nonempty parts have left `rest` of the line. */
  predicate UpTo(line: seq<byte>, ws: seq<WriteEvent>, rest: seq<byte>) {
    && AllSucceed(ws)
    && (forall i :: 0 <= i < |ws| ==> ws[i].chunk != [])
    && line == AcceptedBytes(ws) + rest
  }

  /** The whole line was written. */
  predicate Whole(line: seq<byte>, ws: seq<WriteEvent>) {
    UpTo(line, ws, [])
  }

  /** A part of the line could not be written, and nothing was tried after it. */
  predicate Cut(line: seq<byte>, ws: seq<WriteEvent>) {
    && |ws| > 0
    && var n := |ws| - 1;
    && !Succeeds(ws[n]) && ws[n].chunk != []
    && AcceptedBytes(ws[..n]) + ws[n].chunk <= line
    && UpTo(line, ws[..n], line[|AcceptedBytes(ws[..n])|..])
  }

  lemma WritesNothingYet(line: seq<byte>)
    ensures UpTo(line, [], line)
  {
    assert AcceptedBytes([]) + line == line;
  }

  /** One more write of a nonempty part. */
  lemma WriteNextPart(line: seq<byte>, ws: seq<WriteEvent>, rest: seq<byte>, e: WriteEvent)
    requires UpTo(line, ws, rest) && e.chunk != [] && e.chunk <= rest
    ensures Succeeds(e) ==> UpTo(line, ws + [e], rest[|e.chunk|..])
    ensures !Succeeds(e) ==> Cut(line, ws + [e])
  {
    var n := |e.chunk|;
    assert rest == rest[..n] + rest[n..];
    if Succeeds(e) {
      AcceptedBytesSnoc(ws, e);
      Associative(AcceptedBytes(ws), e.chunk, rest[n..]);
    } else {
      assert (ws + [e])[..|ws|] == ws;
      UpToPrefix(line, ws, rest);
      assert line[|AcceptedBytes(ws)|..] == rest;
      assert AcceptedBytes(ws) + e.chunk == line[..|AcceptedBytes(ws)| + n];
    }
  }

  lemma UpToPrefix(line: seq<byte>, ws: seq<WriteEvent>, rest: seq<byte>)
    requires UpTo(line, ws, rest)
    ensures AcceptedBytes(ws) <= line && |AcceptedBytes(ws)| == |line| - |rest|
    ensures rest == [] ==> AcceptedBytes(ws) == line
  {
  }

  /** A line that was cut has been accepted only in part. */
  lemma CutIsPartial(line: seq<byte>, ws: seq<WriteEvent>)
    requires Cut(line, ws)
    ensures AcceptedBytes(ws) <= line && |AcceptedBytes(ws)| < |line|
    ensures !AllSucceed(ws)
  {
    var n := |ws| - 1;
    assert ws == ws[..n] + [ws[n]];
    AcceptedBytesSnoc(ws[..n], ws[n]);
    assert AcceptedBytes(ws) == AcceptedBytes(ws[..n]);
  }

  /** The line went to its end or to the write that failed. */
  predicate Appended(line: seq<byte>, ws: seq<WriteEvent>) {
    Whole(line, ws) || Cut(line, ws)
  }

  lemma WholeIffAllSucceed(line: seq<byte>, ws: seq<WriteEvent>)
    requires Appended(line, ws)
    ensures Whole(line, ws) <==> AllSucceed(ws)
    ensures Whole(line, ws) <==> AcceptedBytes(ws) == line
    ensures AcceptedBytes(ws) <= line
  {
    if Cut(line, ws) {
      CutIsPartial(line, ws);
    } else {
      UpToPrefix(line, ws, []);
    }
  }

  // ----- What they do to the device

  /** No bytes are lost and no complete command is waiting. */
  predicate Sound(s: State) {
    s.intact && !EndsLine(s.log.pending)
  }

  lemma {:induction false} SuccessfulRun(s: State, ws: seq<WriteEvent>)
    requires Sound(s) && AllSucceed(ws) && forall i :: 0 <= i < |ws| ==> ws[i].chunk != []
    ensures Run(s, ws) == s.(log := AcceptAll(s.log, Accepted(ws)))
    ensures Sound(Run(s, ws))
    decreases |ws|
  {
    if ws != [] {
      SuccessfulRun(WriteStep(s, ws[0]), ws[1..]);
      AcceptAllCons(s.log, ws[0].chunk, Accepted(ws[1..]));
    }
  }

  /** However the line is cut into writes, the device ends up as if what was written had been written at once. */
  lemma RunIsOneWrite(s: State, line: seq<byte>, ws: seq<WriteEvent>, rest: seq<byte>)
    requires Sound(s) && IsLine(line) && UpTo(line, ws, rest)
    ensures Run(s, ws) == s.(log := Accept(s.log, AcceptedBytes(ws))) && Sound(Run(s, ws))
  {
    SuccessfulRun(s, ws);
    assert IsLine(AcceptedBytes(ws)) by {
      assert forall i :: 0 <= i < |AcceptedBytes(ws)| ==> AcceptedBytes(ws)[i] == line[i];
    }
    ChunkingIsInvisible(s.log, Accepted(ws));
  }

  /** The device has the line if and only if all of it was written. */
  lemma AcceptedIffWhole(s: State, line: seq<byte>, ws: seq<WriteEvent>)
    requires Appended(line, ws)
    ensures |Stream(Run(s, ws).log)| == |Stream(s.log)| + |line| <==> Whole(line, ws)
    ensures Sound(s) && IsLine(line) ==> (Run(s, ws).log == Accept(s.log, line) <==> Whole(line, ws))
    ensures Sound(s) && IsLine(line) && Whole(line, ws) ==>
      Run(s, ws) == s.(log := Accept(s.log, line)) && Sound(Run(s, ws))
  {
    WholeIffAllSucceed(line, ws);
    RunStreamLength(s, ws);
    AcceptStream(s.log, line);
    if Sound(s) && IsLine(line) && Whole(line, ws) {
      RunIsOneWrite(s, line, ws, []);
    }
  }

  // ----- How the library cuts a line, and what each write meets

  /** Write number `i` takes `cuts(i)` bytes, or all that are left if that is none or too many; it meets
      `envs(i)`. */
  datatype Io = Io(cuts: nat -> nat, envs: nat -> Env)

  function PartSize(io: Io, i: nat, left: nat): (n: nat)
    requires left > 0
    ensures 0 < n <= left
  {
    if 0 < io.cuts(i) <= left then io.cuts(i) else left
  }

  /** How many device writes `left` bytes take, the first being number `i`. */
  function WriteCount(io: Io, i: nat, left: nat): nat
    decreases left
  {
    if left == 0 then 0 else 1 + WriteCount(io, i + 1, left - PartSize(io, i, left))
  }

  /** None of the writes of `rest`, the first being number `i`, fails. */
  predicate GoesThrough(io: Io, i: nat, rest: seq<byte>)
    decreases |rest|
  {
    rest == [] || (io.envs(i) == NO_FAILURE && GoesThrough(io, i + 1, rest[PartSize(io, i, |rest|)..]))
  }

  /** That is: each of the writes the line is cut into meets no failure. */
  lemma {:induction false} GoesThroughIff(io: Io, i: nat, rest: seq<byte>)
    ensures GoesThrough(io, i, rest)
      <==> forall j :: i <= j < i + WriteCount(io, i, |rest|) ==> io.envs(j) == NO_FAILURE
    decreases |rest|
  {
    if rest != [] {
      GoesThroughIff(io, i + 1, rest[PartSize(io, i, |rest|)..]);
    }
  }

  /** Writing has come to `rest`: what was written, what it met, and that what decides is still to come. */
  predicate InProgress(io: Io, line: seq<byte>, ws: seq<WriteEvent>, rest: seq<byte>) {
    && UpTo(line, ws, rest)
    && MeetsEnvs(io, ws) && CutAsGiven(io, line, ws)
    && GoesThrough(io, 0, line) == GoesThrough(io, |ws|, rest)
  }

  /** Writing is over. */
  predicate Over(io: Io, line: seq<byte>, ws: seq<WriteEvent>) {
    && Appended(line, ws)
    && MeetsEnvs(io, ws) && CutAsGiven(io, line, ws)
    && (Whole(line, ws) <==> GoesThrough(io, 0, line))
  }

  predicate MeetsEnvs(io: Io, ws: seq<WriteEvent>) {
    forall i :: 0 <= i < |ws| ==> ws[i].env == io.envs(i)
  }

  /** Each write is of as many bytes as `io` says, or of all that are left of the line. */
  predicate CutAsGiven(io: Io, line: seq<byte>, ws: seq<WriteEvent>) {
    forall i :: 0 <= i < |ws| ==>
      var left := |line| - |AcceptedBytes(ws[..i])|;
      |ws[i].chunk| == if 0 < io.cuts(i) <= left then io.cuts(i) else left
  }

  lemma CutAsGivenSnoc(io: Io, line: seq<byte>, ws: seq<WriteEvent>, left: nat, e: WriteEvent)
    requires CutAsGiven(io, line, ws) && |line| == |AcceptedBytes(ws)| + left
    requires |e.chunk| == if 0 < io.cuts(|ws|) <= left then io.cuts(|ws|) else left
    ensures CutAsGiven(io, line, ws + [e])
  {
    var all := ws + [e];
    forall i | 0 <= i < |all|
      ensures var before := |line| - |AcceptedBytes(all[..i])|;
        |all[i].chunk| == if 0 < io.cuts(i) <= before then io.cuts(i) else before
    {
      assert all[..i] == ws[..i];
      assert ws[..|ws|] == ws;
    }
  }

  lemma ProgressStarts(io: Io, line: seq<byte>)
    ensures InProgress(io, line, [], line)
  {
    WritesNothingYet(line);
  }

  lemma MeetsEnvsSnoc(io: Io, ws: seq<WriteEvent>, e: WriteEvent)
    requires MeetsEnvs(io, ws) && e.env == io.envs(|ws|)
    ensures MeetsEnvs(io, ws + [e])
  {
  }

  /** What decides after a write is that write and what decides after it. */
  lemma GoesOn(io: Io, i: nat, rest: seq<byte>, n: nat, later: seq<byte>)
    requires rest != [] && n == PartSize(io, i, |rest|) && later == rest[n..]
    ensures GoesThrough(io, i, rest) == (io.envs(i) == NO_FAILURE && GoesThrough(io, i + 1, later))
  {
  }

  lemma ProgressStep(io: Io, line: seq<byte>, ws: seq<WriteEvent>, rest: seq<byte>, n: nat, e: WriteEvent)
    requires InProgress(io, line, ws, rest) && rest != [] && n == PartSize(io, |ws|, |rest|)
    requires e.chunk == rest[..n] && e.env == io.envs(|ws|)
    ensures Succeeds(e) ==> InProgress(io, line, ws + [e], rest[n..])
    ensures !Succeeds(e) ==> Over(io, line, ws + [e])
  {
    var all, left, later := ws + [e], |rest|, rest[n..];
    WriteNextPart(line, ws, rest, e);
    UpToPrefix(line, ws, rest);
    CutAsGivenSnoc(io, line, ws, left, e);
    MeetsEnvsSnoc(io, ws, e);
    GoesOn(io, |ws|, rest, n, later);
    if !Succeeds(e) {
      CutIsPartial(line, all);
    }
  }

  lemma ProgressEnds(io: Io, line: seq<byte>, ws: seq<WriteEvent>)
    requires InProgress(io, line, ws, [])
    ensures Over(io, line, ws)
  {
  }
}
