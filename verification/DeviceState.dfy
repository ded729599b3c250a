/**
 The device as its callers see it, including what failed kernel calls do to it.

 A write can be interrupted while waiting for the lock, fail to get memory, or fault while copying.  Two
 of these lose something: resizing the pending buffer overwrites the only pointer to it before the result
 is checked, and a fault on a fresh buffer leaves a pointer nobody will ever free.  A write of no bytes
 while nothing is pending decides on a byte that is not the device's.
 */
module DeviceState {
  import opened Sequences
  import opened CommandLog

  /** Which kernel calls succeed this time: taking the mutex, allocating, copying from or to user space. */
  datatype Env = Env(lock: bool, alloc: bool, copy: bool)

  const NO_FAILURE := Env(true, true, true)

  /** `intact` is false while the pending bytes are lost (their count is still kept); `leaks` counts the
      buffers that are live but unreachable. */
  datatype State = State(log: Log, intact: bool, leaks: nat)

  const INITIAL := State(EMPTY_LOG, true, 0)

  /** One call of write.  `garbage` is what a fresh buffer happens to hold where the pending bytes were lost,
      `before` the byte that happens to lie in front of the buffer. */
  datatype WriteEvent = WriteEvent(chunk: seq<byte>, env: Env, garbage: nat -> byte, before: byte)

  predicate Succeeds(e: WriteEvent) {
    e.env.lock && e.env.alloc && e.env.copy
  }

  /** The pending bytes found in the resized buffer. */
  function Kept(s: State, e: WriteEvent): (kept: seq<byte>)
    ensures |kept| == |s.log.pending|
  {
    if s.intact then s.log.pending
    else seq(|s.log.pending|, i requires 0 <= i => e.garbage(i))
  }

  /** The write that looks in front of its buffer for the last byte written: there is none. */
  predicate LooksBefore(s: State, e: WriteEvent) {
    Succeeds(e) && e.chunk == [] && s.log.pending == []
  }

  /** What such a write does: a newline there commits an empty command; anything else leaves a buffer that no
      size accounts for. */
  function EmptyWrite(s: State, before: byte): State {
    if before == NEWLINE then s.(log := Log(s.log.commands + [[]], [])) else s.(leaks := s.leaks + 1)
  }

  function WriteStep(s: State, e: WriteEvent): State {
    if !e.env.lock then s
    else if s.log.pending == [] then
      if !e.env.alloc then s
      else if !e.env.copy then s.(leaks := s.leaks + 1)
      else if e.chunk == [] then EmptyWrite(s, e.before)
      else s.(log := Accept(s.log, e.chunk))
    else if !e.env.alloc then
      s.(intact := false, leaks := if s.intact then s.leaks + 1 else s.leaks)
    else
      var kept := s.log.(pending := Kept(s, e));
      State(if e.env.copy then Accept(kept, e.chunk) else kept, true, s.leaks)
  }

  function Run(s: State, events: seq<WriteEvent>): State
    decreases |events|
  {
    if events == [] then s else Run(WriteStep(s, events[0]), events[1..])
  }

  /** The chunks of the writes that reported success, in order. */
  function Accepted(events: seq<WriteEvent>): seq<seq<byte>> {
    if events == [] then []
    else if Succeeds(events[0]) then [events[0].chunk] + Accepted(events[1..])
    else Accepted(events[1..])
  }

  lemma {:induction false} RunConcat(s: State, a: seq<WriteEvent>, b: seq<WriteEvent>)
    ensures Run(s, a + b) == Run(Run(s, a), b)
    decreases |a|
  {
    if a == [] {
      assert a + b == b;
    } else {
      RunConcat(WriteStep(s, a[0]), a[1..], b);
      assert (a + b)[1..] == a[1..] + b;
    }
  }

  lemma RunSnoc(s: State, events: seq<WriteEvent>, e: WriteEvent)
    ensures Run(s, events + [e]) == WriteStep(Run(s, events), e)
  {
    RunConcat(s, events, [e]);
    assert [e][1..] == [];
    assert Run(WriteStep(Run(s, events), e), []) == WriteStep(Run(s, events), e);
  }

  lemma {:induction false} AcceptedConcat(a: seq<WriteEvent>, b: seq<WriteEvent>)
    ensures Accepted(a + b) == Accepted(a) + Accepted(b)
    decreases |a|
  {
    if a == [] {
      assert a + b == b;
    } else {
      AcceptedConcat(a[1..], b);
      assert (a + b)[1..] == a[1..] + b;
    }
  }

  lemma AcceptedSnoc(events: seq<WriteEvent>, e: WriteEvent)
    ensures Accepted(events + [e]) == Accepted(events) + if Succeeds(e) then [e.chunk] else []
  {
    AcceptedConcat(events, [e]);
    assert [e][1..] == [];
    assert Accepted([e]) == if Succeeds(e) then [e.chunk] else [];
  }

  /** The bytes of the writes that reported success. */
  function AcceptedBytes(events: seq<WriteEvent>): seq<byte> {
    Flatten(Accepted(events))
  }

  lemma AcceptedBytesConcat(a: seq<WriteEvent>, b: seq<WriteEvent>)
    ensures AcceptedBytes(a + b) == AcceptedBytes(a) + AcceptedBytes(b)
  {
    AcceptedConcat(a, b);
    FlattenConcat(Accepted(a), Accepted(b));
  }

  lemma AcceptedBytesSnoc(events: seq<WriteEvent>, e: WriteEvent)
    ensures AcceptedBytes(events + [e]) == AcceptedBytes(events) + Sent(e)
  {
    AcceptedSnoc(events, e);
    if Succeeds(e) {
      FlattenSnoc(Accepted(events), e.chunk);
    } else {
      assert Accepted(events) + [] == Accepted(events);
    }
  }

  /** However much is lost or replaced, the device has taken as many bytes as were reported written. */
  lemma {:induction false} RunStreamLength(s: State, events: seq<WriteEvent>)
    ensures |Stream(Run(s, events).log)| == |Stream(s.log)| + |AcceptedBytes(events)|
    decreases |events|
  {
    if events != [] {
      WriteStepStreamLength(s, events[0]);
      RunStreamLength(WriteStep(s, events[0]), events[1..]);
      FlattenAccepted(events, []);
    }
  }

  lemma WriteStepStreamLength(s: State, e: WriteEvent)
    ensures |Stream(WriteStep(s, e).log)| == |Stream(s.log)| + |Sent(e)|
  {
    if LooksBefore(s, e) {
      EmptyCommandStream(s.log);
    } else if Succeeds(e) {
      AcceptStream(s.log.(pending := Kept(s, e)), e.chunk);
      assert s.log.pending == [] ==> s.log.(pending := Kept(s, e)) == s.log;
    }
  }

  // ----- Memory: exactly which writes leak

  predicate Leaks(s: State, e: WriteEvent) {
    || (LooksBefore(s, e) && e.before != NEWLINE)
    || (e.env.lock && if s.log.pending == [] then e.env.alloc && !e.env.copy else !e.env.alloc && s.intact)
  }

  predicate SomeWriteLeaks(s: State, events: seq<WriteEvent>)
    decreases |events|
  {
    events != [] && (Leaks(s, events[0]) || SomeWriteLeaks(WriteStep(s, events[0]), events[1..]))
  }

  /** A run leaves nothing unreachable if and only if no write faulted while copying into a fresh buffer, none
      failed to resize a buffer it still held, and none wrote nothing into a fresh buffer and found no newline
      in front of it. */
  lemma {:induction false} NothingLeaksIff(s: State, events: seq<WriteEvent>)
    ensures Run(s, events).leaks >= s.leaks
    ensures Run(s, events).leaks == s.leaks <==> !SomeWriteLeaks(s, events)
    decreases |events|
  {
    if events != [] {
      NothingLeaksIff(WriteStep(s, events[0]), events[1..]);
    }
  }

  // ----- Content: exactly when the commands are what was written

  /** The write that loses the pending bytes: they are non-empty and the buffer cannot be resized. */
  predicate Tears(s: State, e: WriteEvent) {
    e.env.lock && s.log.pending != [] && !e.env.alloc
  }

  predicate SomeWriteSpoils(s: State, events: seq<WriteEvent>)
    decreases |events|
  {
    && events != []
    && (Tears(s, events[0]) || LooksBefore(s, events[0]) || SomeWriteSpoils(WriteStep(s, events[0]), events[1..]))
  }

  /** Nothing is lost and the log is that of the successful writes alone. */
  predicate Faithful(s: State, events: seq<WriteEvent>) {
    s.intact && s.log == AcceptAll(EMPTY_LOG, Accepted(events))
  }

  /** The same calls with the same outcomes; what memory happens to hold may differ. */
  predicate SameButMemory(a: seq<WriteEvent>, b: seq<WriteEvent>) {
    |a| == |b| && forall i :: 0 <= i < |a| ==> a[i].chunk == b[i].chunk && a[i].env == b[i].env
  }

  lemma {:induction false} AcceptAllCons(log: Log, x: seq<byte>, chunks: seq<seq<byte>>)
    ensures AcceptAll(Accept(log, x), chunks) == AcceptAll(log, [x] + chunks)
  {
    var all := [x] + chunks;
    if chunks == [] {
      assert all[..0] == [];
    } else {
      AcceptAllCons(log, x, chunks[..|chunks| - 1]);
      assert all[..|all| - 1] == [x] + chunks[..|chunks| - 1];
    }
  }

  /** While nothing spoils the run the failed writes leave no trace: the log is that of the successful ones. */
  lemma {:induction false} UnspoiltRun(s: State, events: seq<WriteEvent>)
    requires s.intact && !SomeWriteSpoils(s, events)
    ensures Run(s, events).intact
    ensures Run(s, events).log == AcceptAll(s.log, Accepted(events))
    decreases |events|
  {
    if events != [] {
      var e := events[0];
      UnspoiltRun(WriteStep(s, e), events[1..]);
      if Succeeds(e) {
        AcceptAllCons(s.log, e.chunk, Accepted(events[1..]));
      }
    }
  }

  lemma {:induction false} MemoryUnusedUntilSpoilt(s: State, a: seq<WriteEvent>, b: seq<WriteEvent>)
    requires s.intact && SameButMemory(a, b)
    ensures SomeWriteSpoils(s, a) == SomeWriteSpoils(s, b)
    decreases |a|
  {
    if a != [] && !Tears(s, a[0]) && !LooksBefore(s, a[0]) {
      MemoryUnusedUntilSpoilt(WriteStep(s, a[0]), a[1..], b[1..]);
    }
  }

  /** The chunk of a write if it reported success. */
  function Sent(e: WriteEvent): seq<byte> {
    if Succeeds(e) then e.chunk else []
  }

  /** A write that finds the pending bytes as they were adds to the stream what it reports as written. */
  lemma WriteStepStream(s: State, e: WriteEvent)
    requires Kept(s, e) == s.log.pending
    ensures Stream(WriteStep(s, e).log) == Stream(s.log) + Sent(e)
  {
    if LooksBefore(s, e) {
      EmptyCommandStream(s.log);
    } else if Succeeds(e) {
      AcceptStream(s.log, e.chunk);
    } else {
      assert Stream(s.log) + [] == Stream(s.log);
    }
  }

  lemma EmptyCommandStream(log: Log)
    requires log.pending == []
    ensures Stream(Log(log.commands + [[]], [])) == Stream(log) + [] == Stream(log)
  {
    FlattenSnoc(log.commands, []);
  }

  lemma FlattenAccepted(events: seq<WriteEvent>, written: seq<byte>)
    requires events != []
    ensures Flatten(Accepted(events)) == Sent(events[0]) + Flatten(Accepted(events[1..]))
    ensures written + Flatten(Accepted(events)) == (written + Sent(events[0])) + Flatten(Accepted(events[1..]))
  {
    Associative(written, Sent(events[0]), Flatten(Accepted(events[1..])));
  }

  /** Byte `q` of the accepted stream is not the byte that was written there. */
  predicate WrongAt(s: State, written: seq<byte>, q: nat) {
    |Stream(s.log)| == |written| && q < |written| && Stream(s.log)[q] != written[q]
  }

  function Recall(bytes: seq<byte>): nat -> byte {
    (i: nat) => if i < |bytes| then bytes[i] else 0
  }

  /** A wrong byte can stay wrong: any memory lost later may come back as it was. */
  lemma {:induction false} WrongByteCanStay(s: State, written: seq<byte>, q: nat, events: seq<WriteEvent>)
    returns (other: seq<WriteEvent>)
    requires WrongAt(s, written, q)
    ensures SameButMemory(events, other)
    ensures WrongAt(Run(s, other), written + Flatten(Accepted(other)), q)
    decreases |events|
  {
    if events == [] {
      other := [];
      assert written + [] == written;
    } else {
      var e := events[0].(garbage := Recall(s.log.pending));
      assert Kept(s, e) == s.log.pending;
      WriteStepStream(s, e);
      var rest := WrongByteCanStay(WriteStep(s, e), written + Sent(e), q, events[1..]);
      other := [e] + rest;
      assert other[1..] == rest;
      FlattenAccepted(other, written);
    }
  }

  /** The log is not the one of these bytes: something is lost, something else was accepted, or an empty
      command was committed. */
  predicate Differs(s: State, written: seq<byte>) {
    !s.intact || Stream(s.log) != written || [] in s.log.commands
  }

  /** After a tear some memory contents make the result wrong. */
  lemma {:induction false} TornBytesCanBeWrong(s: State, events: seq<WriteEvent>)
    returns (other: seq<WriteEvent>)
    requires !s.intact && s.log.pending != []
    ensures SameButMemory(events, other)
    ensures Differs(Run(s, other), Stream(s.log) + Flatten(Accepted(other)))
    decreases |events|
  {
    if events == [] {
      other := [];
    } else {
      var p := s.log.pending;
      var e := events[0].(garbage := (i: nat) => if i < |p| && p[i] == 0 then 1 else 0);
      var rest;
      if !e.env.lock || !e.env.alloc {
        assert WriteStep(s, e) == s;
        rest := TornBytesCanBeWrong(s, events[1..]);
      } else {
        var q := RecalledWrong(s, e);
        rest := WrongByteCanStay(WriteStep(s, e), Stream(s.log) + Sent(e), q, events[1..]);
      }
      other := [e] + rest;
      assert other[1..] == rest;
      FlattenAccepted(other, Stream(s.log));
    }
  }

  /** Finding another byte where the first pending byte was lost makes the stream wrong there. */
  lemma RecalledWrong(s: State, e: WriteEvent) returns (q: nat)
    requires !s.intact && s.log.pending != [] && e.env.lock && e.env.alloc
    requires Kept(s, e)[0] != s.log.pending[0]
    ensures WrongAt(WriteStep(s, e), Stream(s.log) + Sent(e), q)
  {
    q := |Flatten(s.log.commands)|;
    var kept := s.log.(pending := Kept(s, e));
    AcceptStream(kept, e.chunk);
    assert Stream(WriteStep(s, e).log) == Stream(kept) + Sent(e);
  }

  lemma {:induction false} CommandsStay(s: State, events: seq<WriteEvent>)
    ensures s.log.commands <= Run(s, events).log.commands
    decreases |events|
  {
    if events != [] {
      CommandsStay(WriteStep(s, events[0]), events[1..]);
    }
  }

  lemma {:induction false} SpoilingCanBeSeen(s: State, events: seq<WriteEvent>)
    returns (other: seq<WriteEvent>)
    requires s.intact && SomeWriteSpoils(s, events)
    ensures SameButMemory(events, other)
    ensures Differs(Run(s, other), Stream(s.log) + Flatten(Accepted(other)))
    decreases |events|
  {
    var e := events[0].(before := NEWLINE);
    var next := WriteStep(s, e);
    var rest;
    if Tears(s, e) {
      rest := TornBytesCanBeWrong(next, events[1..]);
    } else if LooksBefore(s, e) {
      rest := events[1..];
      CommandsStay(next, rest);
      assert next.log.commands[|s.log.commands|] == [];
    } else {
      rest := SpoilingCanBeSeen(next, events[1..]);
      WriteStepStream(s, e);
    }
    other := [e] + rest;
    assert other[1..] == rest;
    FlattenAccepted(other, Stream(s.log));
  }

  /** A log of successful writes has no empty command. */
  lemma {:induction false} NoEmptyCommand(chunks: seq<seq<byte>>)
    ensures [] !in AcceptAll(EMPTY_LOG, chunks).commands
  {
    if chunks != [] {
      NoEmptyCommand(chunks[..|chunks| - 1]);
    }
  }

  /** Exactly when a run of writes, failures included, yields the commands that were written whatever the
      memory happens to hold: if and only if no resize failed while bytes were pending and no write of no bytes
      went through while none were. */
  lemma FaithfulIff(events: seq<WriteEvent>)
    ensures (forall other :: SameButMemory(events, other) ==> Faithful(Run(INITIAL, other), other))
            <==> !SomeWriteSpoils(INITIAL, events)
  {
    if SomeWriteSpoils(INITIAL, events) {
      var other := SpoilingCanBeSeen(INITIAL, events);
      AcceptAllStream(EMPTY_LOG, Accepted(other));
      NoEmptyCommand(Accepted(other));
      assert !Faithful(Run(INITIAL, other), other);
    } else {
      forall other | SameButMemory(events, other)
        ensures Faithful(Run(INITIAL, other), other)
      {
        MemoryUnusedUntilSpoilt(INITIAL, events, other);
        UnspoiltRun(INITIAL, other);
      }
    }
  }

  /** A torn run: "a" is written, the next write cannot resize, and the newline that follows commits a
      command whose first byte was never written. */
  lemma TornRunExample()
    ensures var z := (_: nat) => 122 as byte;
      var events := [WriteEvent([97], NO_FAILURE, z, 0), WriteEvent([98], Env(true, false, true), z, 0),
                     WriteEvent([NEWLINE], NO_FAILURE, z, 0)];
      Run(INITIAL, events) == State(Log([[122, NEWLINE]], []), true, 1)
  {
    var z := (_: nat) => 122 as byte;
    var e1, e2, e3 := WriteEvent([97], NO_FAILURE, z, 0), WriteEvent([98], Env(true, false, true), z, 0),
      WriteEvent([NEWLINE], NO_FAILURE, z, 0);
    var s1 := WriteStep(INITIAL, e1);
    var s2 := WriteStep(s1, e2);
    assert s1 == State(Log([], [97]), true, 0) by {
      assert [] + [97 as byte] == [97];
    }
    assert s2 == State(Log([], [97]), false, 1);
    assert Kept(s2, e3) == [122];
    var s3 := WriteStep(s2, e3);
    assert s3 == State(Log([[122, NEWLINE]], []), true, 1) by {
      assert [122 as byte] + [NEWLINE] == [122, NEWLINE];
    }
    assert [e1, e2, e3][1..] == [e2, e3] && [e2, e3][1..] == [e3] && [e3][1..] == [];
    assert Run(s3, []) == s3;
    assert Run(s2, [e3]) == s3;
    assert Run(s1, [e2, e3]) == s3;
  }

  /** A write of no bytes to the idle device: the byte in front of the new buffer decides whether the log gains
      an empty command or a buffer is lost. */
  lemma EmptyWriteExample(z: nat -> byte, before: byte)
    ensures Run(INITIAL, [WriteEvent([], NO_FAILURE, z, before)]) ==
      if before == NEWLINE then State(Log([[]], []), true, 0) else State(EMPTY_LOG, true, 1)
  {
    var e := WriteEvent([], NO_FAILURE, z, before);
    assert [e][1..] == [];
    assert Run(WriteStep(INITIAL, e), []) == WriteStep(INITIAL, e);
  }
}
