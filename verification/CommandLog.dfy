/**
 The command log: what the character device is for, with no slots, offsets or allocations.

 A log is the list of all commands ever committed and the bytes of the command being assembled.  The
 device keeps only the newest ten commands; readers see them concatenated.
 */
module CommandLog {
  import opened Sequences

  const SLOTS: nat := 10

  datatype Log = Log(commands: seq<seq<byte>>, pending: seq<byte>)

  const EMPTY_LOG := Log([], [])

  /** One successful write. */
  function Accept(log: Log, chunk: seq<byte>): Log {
    var text := log.pending + chunk;
    if EndsLine(text) then Log(log.commands + [text], []) else Log(log.commands, text)
  }

  /** A run of successful writes, in the order in which they took the device lock. */
  function AcceptAll(log: Log, chunks: seq<seq<byte>>): Log {
    if chunks == [] then log
    else Accept(AcceptAll(log, chunks[..|chunks| - 1]), chunks[|chunks| - 1])
  }

  /** Every byte the log was ever given, in order. */
  function Stream(log: Log): seq<byte> {
    Flatten(log.commands) + log.pending
  }

  // ----- Segmentation: where a run of writes is cut into commands

  lemma {:induction false} AcceptAllStream(log: Log, chunks: seq<seq<byte>>)
    ensures Stream(AcceptAll(log, chunks)) == Stream(log) + Flatten(chunks)
    ensures !EndsLine(log.pending) ==> !EndsLine(AcceptAll(log, chunks).pending)
  {
    if chunks == [] {
      assert Stream(log) + Flatten(chunks) == Stream(log);
    } else {
      var n := |chunks| - 1;
      var before := AcceptAll(log, chunks[..n]);
      AcceptAllStream(log, chunks[..n]);
      AcceptStream(before, chunks[n]);
      assert chunks == chunks[..n] + [chunks[n]];
      FlattenSnoc(chunks[..n], chunks[n]);
    }
  }

  lemma AcceptStream(log: Log, chunk: seq<byte>)
    ensures Stream(Accept(log, chunk)) == Stream(log) + chunk
  {
    FlattenSnoc(log.commands, log.pending + chunk);
  }

  /** A run of writes of which the last, and no other, ends in a newline. */
  predicate MakesOneCommand(group: seq<seq<byte>>) {
    && |group| > 0
    && EndsLine(group[|group| - 1])
    && NoneEndsLine(group[..|group| - 1])
  }

  predicate NoneEndsLine(group: seq<seq<byte>>) {
    forall i :: 0 <= i < |group| ==> !EndsLine(group[i])
  }

  function Joined(groups: seq<seq<seq<byte>>>): seq<seq<byte>> {
    seq(|groups|, i requires 0 <= i < |groups| => Flatten(groups[i]))
  }

  /** Segmentation: a run of writes is cut exactly after each write whose last byte is a newline; the joined
      groups are the commands, and the writes after the last cut are the pending bytes. */
  lemma {:induction false} Segmentation(chunks: seq<seq<byte>>)
    returns (groups: seq<seq<seq<byte>>>, rest: seq<seq<byte>>)
    ensures chunks == Flatten(groups) + rest
    ensures forall g :: 0 <= g < |groups| ==> MakesOneCommand(groups[g])
    ensures NoneEndsLine(rest)
    ensures AcceptAll(EMPTY_LOG, chunks) == Log(Joined(groups), Flatten(rest))
  {
    if chunks == [] {
      groups, rest := [], [];
    } else {
      var n := |chunks| - 1;
      groups, rest := Segmentation(chunks[..n]);
      assert chunks == chunks[..n] + [chunks[n]];
      groups, rest := SegmentationStep(groups, rest, chunks[n]);
    }
  }

  lemma SegmentationStep(before: seq<seq<seq<byte>>>, open: seq<seq<byte>>, chunk: seq<byte>)
    returns (groups: seq<seq<seq<byte>>>, rest: seq<seq<byte>>)
    requires forall g :: 0 <= g < |before| ==> MakesOneCommand(before[g])
    requires NoneEndsLine(open)
    ensures Flatten(before) + open + [chunk] == Flatten(groups) + rest
    ensures forall g :: 0 <= g < |groups| ==> MakesOneCommand(groups[g])
    ensures NoneEndsLine(rest)
    ensures Accept(Log(Joined(before), Flatten(open)), chunk) == Log(Joined(groups), Flatten(rest))
  {
    var group := open + [chunk];
    if EndsLine(chunk) {
      groups, rest := before + [group], [];
      FlattenSnoc(before, group);
      assert MakesOneCommand(group) by {
        assert group[..|group| - 1] == open;
      }
      assert Flatten(before) + open + [chunk] == Flatten(before) + group;
    } else {
      groups, rest := before, group;
    }
    SegmentationAccept(before, open, chunk);
  }

  lemma SegmentationAccept(before: seq<seq<seq<byte>>>, open: seq<seq<byte>>, chunk: seq<byte>)
    requires NoneEndsLine(open)
    ensures var group := open + [chunk];
      Accept(Log(Joined(before), Flatten(open)), chunk) ==
        if EndsLine(chunk) then Log(Joined(before + [group]), []) else Log(Joined(before), Flatten(group))
  {
    NoneEndsLineJoined(open);
    FlattenSnoc(open, chunk);
    assert Joined(before + [open + [chunk]]) == Joined(before) + [Flatten(open + [chunk])];
  }

  lemma {:induction false} NoneEndsLineJoined(group: seq<seq<byte>>)
    requires NoneEndsLine(group)
    ensures !EndsLine(Flatten(group))
  {
    if group != [] {
      NoneEndsLineJoined(group[1..]);
    }
  }

  /** A string whose only newline, if any, is its last byte: what the line reader delivers. */
  predicate IsLine(s: seq<byte>) {
    forall i :: 0 <= i < |s| - 1 ==> s[i] != NEWLINE
  }

  /** However a line is split into writes, the device ends up as if it had been written at once; and until
      its last byte is written no command is committed. */
  lemma {:induction false} ChunkingIsInvisible(log: Log, chunks: seq<seq<byte>>)
    requires !EndsLine(log.pending)
    requires IsLine(Flatten(chunks))
    ensures AcceptAll(log, chunks) == Accept(log, Flatten(chunks))
  {
    if chunks == [] {
      assert log.pending + [] == log.pending;
    } else {
      var n := |chunks| - 1;
      var front, last := Flatten(chunks[..n]), chunks[n];
      assert chunks == chunks[..n] + [last];
      FlattenSnoc(chunks[..n], last);
      assert IsLine(front) by {
        assert forall i :: 0 <= i < |front| ==> front[i] == Flatten(chunks)[i];
      }
      ChunkingIsInvisible(log, chunks[..n]);
      AcceptInParts(log, front, last);
    }
  }

  lemma AcceptInParts(log: Log, a: seq<byte>, b: seq<byte>)
    requires !EndsLine(log.pending)
    requires IsLine(a + b)
    ensures Accept(Accept(log, a), b) == Accept(log, a + b)
  {
    assert log.pending + (a + b) == (log.pending + a) + b;
    if EndsLine(log.pending + a) {
      assert a != [];
      assert (a + b)[|a| - 1] == NEWLINE;
      assert b == [];
      assert a + b == a;
    }
  }

  // ----- What the ring keeps

  /** The commands still stored, oldest first. */
  function Newest<T>(history: seq<T>): (window: seq<T>)
    ensures |window| <= SLOTS
  {
    if |history| <= SLOTS then history else history[|history| - SLOTS..]
  }

  /** That is the last ten, or all while there are fewer. */
  lemma NewestAreTheLastTen<T>(history: seq<T>)
    ensures |Newest(history)| == if |history| < 10 then |history| else 10
    ensures Newest(history) == history[|history| - |Newest(history)|..]
  {
  }

  /** The bytes a reader sees. */
  function Contents(log: Log): seq<byte> {
    Flatten(Newest(log.commands))
  }

  /** Slot numbers wrap around after the last of the `SLOTS` slots. */
  function Wrap(i: nat): (slot: nat)
    ensures slot < SLOTS
    ensures i < SLOTS ==> slot == i
    ensures SLOTS <= i < 2 * SLOTS ==> slot == i - SLOTS
  {
    i % 10
  }

  /** After `n` commands, slot `i` holds the newest command whose number is congruent to `i`; a negative
      number means the slot was never used. */
  function SlotIndex(n: nat, i: nat): (k: int)
    requires i < SLOTS
    ensures n - SLOTS <= k < n
  {
    if i < Wrap(n) then n - Wrap(n) + i else n - Wrap(n) + i - SLOTS
  }

  /** The ten slots in physical order after the elements of `history` were stored one after another, each in
      the slot after the previous one, modulo ten; slots never used hold `empty`. */
  function Slots<T>(history: seq<T>, empty: T): (slots: seq<T>)
    ensures |slots| == SLOTS
  {
    if history == [] then seq(SLOTS, _ => empty)
    else
      var n := |history| - 1;
      Slots(history[..n], empty)[Wrap(n) := history[n]]
  }

  /** The slot of the oldest stored command after `n` commands. */
  function OldestSlot(n: nat): (o: nat)
    ensures o < SLOTS
  {
    if n < SLOTS then 0 else Wrap(n)
  }

  lemma SlotIndexStep(n: nat, i: nat)
    requires i < SLOTS
    ensures SlotIndex(n + 1, i) == if i == Wrap(n) then n as int else SlotIndex(n, i)
    ensures i == Wrap(n) ==> SlotIndex(n, i) == n - SLOTS
  {
  }

  lemma {:induction false} SlotContents<T>(history: seq<T>, empty: T, i: nat)
    requires i < SLOTS
    ensures Slots(history, empty)[i] ==
      if SlotIndex(|history|, i) < 0 then empty else history[SlotIndex(|history|, i)]
  {
    if history != [] {
      SlotIndexStep(|history| - 1, i);
      SlotContents(history[..|history| - 1], empty, i);
    }
  }

  lemma SlotsStep<T>(history: seq<T>, x: T, empty: T)
    ensures Slots(history + [x], empty) == Slots(history, empty)[Wrap(|history|) := x]
  {
    assert (history + [x])[..|history|] == history;
  }

  lemma SlotOfWalk(n: nat, k: nat)
    requires k < if n < SLOTS then n else SLOTS
    ensures SlotIndex(n, Wrap(OldestSlot(n) + k)) == if n < SLOTS then k as int else n - SLOTS + k
  {
  }

  /** Walking the slots from the oldest one, modulo ten, visits the newest commands oldest first. */
  lemma WalkIsOldestFirst<T>(history: seq<T>, empty: T, k: nat)
    requires k < |Newest(history)|
    ensures Slots(history, empty)[Wrap(OldestSlot(|history|) + k)] == Newest(history)[k]
  {
    SlotOfWalk(|history|, k);
    SlotContents(history, empty, Wrap(OldestSlot(|history|) + k));
  }

  /** Before the ring has filled up, the slots in physical order are the commands and then unused slots. */
  lemma SlotsBeforeFull<T>(history: seq<T>, empty: T)
    requires |history| < SLOTS
    ensures Slots(history, empty) == history + seq(SLOTS - |history|, _ => empty)
  {
    forall i | 0 <= i < SLOTS
      ensures Slots(history, empty)[i] == (history + seq(SLOTS - |history|, _ => empty))[i]
    {
      SlotContents(history, empty, i);
    }
  }

  /** Afterwards they are the newest commands, rotated by the slot of the oldest. */
  lemma SlotsAreARotation<T>(history: seq<T>, empty: T)
    requires |history| >= SLOTS
    ensures var w, o := Newest(history), OldestSlot(|history|);
      Slots(history, empty) == w[SLOTS - o..] + w[..SLOTS - o]
  {
    var slots, w, o := RotatedSlots(history, empty);
    Rotated(slots, w, o);
  }

  lemma RotatedSlots<T>(history: seq<T>, empty: T) returns (slots: seq<T>, w: seq<T>, o: nat)
    requires |history| >= SLOTS
    ensures slots == Slots(history, empty) && w == Newest(history) && o == OldestSlot(|history|)
    ensures forall i :: 0 <= i < SLOTS ==> slots[i] == if i < o then w[SLOTS - o + i] else w[i - o]
  {
    slots, w, o := Slots(history, empty), Newest(history), OldestSlot(|history|);
    forall i | 0 <= i < SLOTS
      ensures slots[i] == if i < o then w[SLOTS - o + i] else w[i - o]
    {
      RotatedSlot(history, empty, i);
    }
  }

  lemma Rotated<T>(slots: seq<T>, w: seq<T>, o: nat)
    requires |slots| == |w| == SLOTS && o < SLOTS
    requires forall i :: 0 <= i < SLOTS ==> slots[i] == if i < o then w[SLOTS - o + i] else w[i - o]
    ensures slots == w[SLOTS - o..] + w[..SLOTS - o]
  {
  }

  lemma RotatedSlot<T>(history: seq<T>, empty: T, i: nat)
    requires |history| >= SLOTS && i < SLOTS
    ensures var w, o := Newest(history), OldestSlot(|history|);
      Slots(history, empty)[i] == if i < o then w[SLOTS - o + i] else w[i - o]
  {
    SlotContents(history, empty, i);
  }

  /** The physical size (all ten slots) is the logical size, rotated or partly filled. */
  lemma SlotSizesSum(commands: seq<seq<byte>>)
    ensures Sum(Sizes(Slots(commands, []))) == |Flatten(Newest(commands))|
  {
    var w, o := Newest(commands), OldestSlot(|commands|);
    if |commands| >= SLOTS {
      SlotsAreARotation(commands, []);
      ConcatSizes(w[SLOTS - o..], w[..SLOTS - o]);
      ConcatSizes(w[..SLOTS - o], w[SLOTS - o..]);
      assert w == w[..SLOTS - o] + w[SLOTS - o..];
    } else {
      SlotsBeforeFull(commands, []);
      var rest: seq<seq<byte>> := seq(SLOTS - |commands|, _ => []);
      ConcatSizes(w, rest);
      SumZeros(Sizes(rest));
    }
    SizesSum(w);
  }

  lemma ConcatSizes(a: seq<seq<byte>>, b: seq<seq<byte>>)
    ensures Sum(Sizes(a + b)) == Sum(Sizes(a)) + Sum(Sizes(b))
  {
    assert Sizes(a + b) == Sizes(a) + Sizes(b);
    SumConcat(Sizes(a), Sizes(b));
  }

  // ----- Positions

  /** The part and the byte within it that hold offset `off` of the concatenation of parts of these sizes. */
  function Locate(sizes: seq<nat>, off: nat): Option<(nat, nat)> {
    if sizes == [] then None
    else if off < sizes[0] then Some((0, off))
    else match Locate(sizes[1..], off - sizes[0])
      case None => None
      case Some((k, b)) => Some((k + 1, b))
  }

  /** Looking up (sum of the sizes before part `k`) + `b` gives back part `k` and byte `b`. */
  lemma {:induction false} LocateInvertsPosition(sizes: seq<nat>, k: nat, b: nat)
    requires k < |sizes| && b < sizes[k]
    ensures Locate(sizes, Sum(sizes[..k]) + b) == Some((k, b))
  {
    if k > 0 {
      LocateInvertsPosition(sizes[1..], k - 1, b);
      assert sizes[..k][1..] == sizes[1..][..k - 1];
      assert Sum(sizes[..k]) == sizes[0] + Sum(sizes[1..][..k - 1]);
    }
  }

  /** Conversely every offset below the total has a part and byte whose position it is; at or beyond the
      total there is none. */
  lemma {:induction false} PositionInvertsLocate(sizes: seq<nat>, off: nat)
    ensures Locate(sizes, off).None? <==> off >= Sum(sizes)
    ensures match Locate(sizes, off)
      case None => true
      case Some((k, b)) => k < |sizes| && b < sizes[k] && off == Sum(sizes[..k]) + b
  {
    if sizes != [] && off >= sizes[0] {
      PositionInvertsLocate(sizes[1..], off - sizes[0]);
      match Locate(sizes, off)
      case None =>
      case Some((k, b)) =>
        assert sizes[..k][1..] == sizes[1..][..k - 1];
        assert Sum(sizes[..k]) == sizes[0] + Sum(sizes[1..][..k - 1]);
    }
  }

  /** The located byte is the byte of the concatenation at that offset. */
  lemma LocatedByte(parts: seq<seq<byte>>, off: nat)
    ensures Locate(Sizes(parts), off).None? <==> off >= |Flatten(parts)|
    ensures match Locate(Sizes(parts), off)
      case None => true
      case Some((k, b)) =>
        && k < |parts| && b < |parts[k]| && off < |Flatten(parts)|
        && Flatten(parts)[off] == parts[k][b]
        && off == |Flatten(parts[..k])| + b
        && StretchAt(Flatten(parts), off - b, parts[k])
  {
    PositionInvertsLocate(Sizes(parts), off);
    SizesSum(parts);
    match Locate(Sizes(parts), off)
    case None =>
    case Some((k, b)) =>
      SizesPrefix(parts, k);
      FlattenAt(parts, k);
  }

  // ----- Reading

  /** Up to `count` bytes of one part, from byte `b` on. */
  function PartFrom(part: seq<byte>, b: nat, count: nat): seq<byte>
    requires b <= |part|
  {
    if count > |part| - b then part[b..] else part[b..b + count]
  }

  /** What one read of up to `count` bytes at position `pos` delivers: at most the rest of one command. */
  function ReadPiece(parts: seq<seq<byte>>, pos: nat, count: nat): seq<byte> {
    match Locate(Sizes(parts), pos)
    case None => []
    case Some((k, b)) =>
      LocatedByte(parts, pos);
      PartFrom(parts[k], b, count)
  }

  lemma SliceOfSlice(s: seq<byte>, from: nat, to: nat, lo: nat, hi: nat)
    requires from <= to <= |s| && lo <= hi <= to - from
    ensures s[from..to][lo..hi] == s[from + lo..from + hi]
  {
    var a, b := s[from..to][lo..hi], s[from + lo..from + hi];
    forall i | 0 <= i < |a| ensures a[i] == b[i] {
      assert a[i] == s[from..to][lo + i];
    }
  }

  /** `piece` is the stretch of `all` that starts at `pos`. */
  predicate StretchAt(all: seq<byte>, pos: nat, piece: seq<byte>) {
    pos + |piece| <= |all| && all[pos..pos + |piece|] == piece
  }

  lemma StretchesJoin(all: seq<byte>, pos: nat, a: seq<byte>, b: seq<byte>)
    requires StretchAt(all, pos, a) && StretchAt(all, pos + |a|, b)
    ensures StretchAt(all, pos, a + b)
  {
    assert all[pos..pos + |a + b|] == all[pos..pos + |a|] + all[pos + |a|..pos + |a + b|];
  }

  /** A piece is the next stretch of the concatenation, and is empty only at the end or for a zero count. */
  lemma PieceIsContiguous(parts: seq<seq<byte>>, pos: nat, count: nat)
    ensures |ReadPiece(parts, pos, count)| <= count
    ensures ReadPiece(parts, pos, count) == [] <==> pos >= |Flatten(parts)| || count == 0
    ensures pos <= |Flatten(parts)| ==> StretchAt(Flatten(parts), pos, ReadPiece(parts, pos, count))
  {
    LocatedByte(parts, pos);
    match Locate(Sizes(parts), pos)
    case None =>
    case Some((k, b)) =>
      var start := pos - b;
      PartStretch(Flatten(parts), start, parts[k], b, pos, count);
  }

  lemma PartStretch(all: seq<byte>, start: nat, part: seq<byte>, b: nat, pos: nat, count: nat)
    requires StretchAt(all, start, part) && b < |part| && pos == start + b
    ensures StretchAt(all, pos, PartFrom(part, b, count))
    ensures |PartFrom(part, b, count)| <= count && (PartFrom(part, b, count) == [] <==> count == 0)
  {
    SliceOfSlice(all, start, start + |part|, b, if count > |part| - b then |part| else b + count);
  }

  /** A read at byte `b` of command `k` delivers as much as is asked for of the rest of that command. */
  lemma ReadIsTrimmedToTheCommand(parts: seq<seq<byte>>, k: nat, b: nat, count: nat)
    requires k < |parts| && b < |parts[k]|
    ensures ReadPiece(parts, |Flatten(parts[..k])| + b, count) ==
      if count < |parts[k]| - b then parts[k][b..b + count] else parts[k][b..]
  {
    SizesPrefix(parts, k);
    LocateInvertsPosition(Sizes(parts), k, b);
  }

  /** The bytes delivered by successive reads with the given counts. */
  function ReadRun(parts: seq<seq<byte>>, pos: nat, counts: seq<nat>): seq<byte>
    decreases |counts|
  {
    if counts == [] then []
    else
      var piece := ReadPiece(parts, pos, counts[0]);
      piece + ReadRun(parts, pos + |piece|, counts[1..])
  }

  /** Read loop: whatever the positive counts, the pieces join up to a contiguous stretch of the contents,
      and as many reads as there are bytes left always reach the end. */
  lemma {:induction false} ReadLoop(parts: seq<seq<byte>>, pos: nat, counts: seq<nat>)
    requires forall i :: 0 <= i < |counts| ==> counts[i] > 0
    requires pos <= |Flatten(parts)|
    ensures StretchAt(Flatten(parts), pos, ReadRun(parts, pos, counts))
    ensures |counts| >= |Flatten(parts)| - pos ==> ReadRun(parts, pos, counts) == Flatten(parts)[pos..]
    decreases |counts|
  {
    if counts != [] {
      var piece, tail := FirstPiece(parts, pos, counts);
      ReadLoop(parts, pos + |piece|, counts[1..]);
      OneMoreRead(Flatten(parts), pos, piece, tail, |counts|);
    }
  }

  lemma FirstPiece(parts: seq<seq<byte>>, pos: nat, counts: seq<nat>) returns (piece: seq<byte>, tail: seq<byte>)
    requires counts != [] && counts[0] > 0 && pos <= |Flatten(parts)|
    ensures tail == ReadRun(parts, pos + |piece|, counts[1..])
    ensures ReadRun(parts, pos, counts) == piece + tail
    ensures StretchAt(Flatten(parts), pos, piece) && (piece == [] ==> pos == |Flatten(parts)|)
  {
    piece, tail := ReadRunSplits(parts, pos, counts);
    PieceIsContiguous(parts, pos, counts[0]);
  }

  lemma ReadRunSplits(parts: seq<seq<byte>>, pos: nat, counts: seq<nat>) returns (piece: seq<byte>, tail: seq<byte>)
    requires counts != []
    ensures piece == ReadPiece(parts, pos, counts[0])
    ensures tail == ReadRun(parts, pos + |piece|, counts[1..])
    ensures ReadRun(parts, pos, counts) == piece + tail
  {
    piece := ReadPiece(parts, pos, counts[0]);
    tail := ReadRun(parts, pos + |piece|, counts[1..]);
  }

  /** One read before a run of `n - 1` reads. */
  lemma OneMoreRead(all: seq<byte>, pos: nat, piece: seq<byte>, tail: seq<byte>, n: nat)
    requires pos <= |all| && n > 0
    requires StretchAt(all, pos, piece) && (piece == [] ==> pos == |all|)
    requires StretchAt(all, pos + |piece|, tail)
    requires n - 1 >= |all| - pos - |piece| ==> tail == all[pos + |piece|..]
    ensures StretchAt(all, pos, piece + tail)
    ensures n >= |all| - pos ==> piece + tail == all[pos..]
  {
    StretchesJoin(all, pos, piece, tail);
    assert all[pos..] == all[pos..pos + |piece|] + all[pos + |piece|..];
  }

  // ----- Seeking to byte `y` of command `x`

  /** Where the seek request lands: it counts slots in physical order. */
  function SeekTarget(commands: seq<seq<byte>>, x: nat, y: nat): Option<nat> {
    var slots := Slots(commands, []);
    if x < SLOTS && y < |slots[x]| then Some(Sum(Sizes(slots)[..x]) + y) else None
  }

  /** Where byte `y` of the `x`-th stored command is for a reader. */
  function CommandPosition(commands: seq<seq<byte>>, x: nat, y: nat): Option<nat> {
    var w := Newest(commands);
    if x < |w| && y < |w[x]| then Some(|Flatten(w[..x])| + y) else None
  }

  /** Every accepted seek lands strictly below the end, wrapped or not, so the next positive read delivers
      at least one byte. */
  lemma SeekLandsInside(commands: seq<seq<byte>>, x: nat, y: nat, count: nat)
    requires SeekTarget(commands, x, y).Some? && count > 0
    ensures SeekTarget(commands, x, y).value < |Flatten(Newest(commands))|
    ensures ReadPiece(Newest(commands), SeekTarget(commands, x, y).value, count) != []
  {
    SlotSizesSum(commands);
    SumPrefix(Sizes(Slots(commands, [])), x);
    PieceIsContiguous(Newest(commands), SeekTarget(commands, x, y).value, count);
  }

  /** From where an accepted seek lands there is as much left to read as is in the named slot from that byte on and
      in the slots after it. */
  lemma LeftAfterSeek(commands: seq<seq<byte>>, x: nat, y: nat)
    requires SeekTarget(commands, x, y).Some?
    ensures |Flatten(Newest(commands))| - SeekTarget(commands, x, y).value ==
      Sum(Sizes(Slots(commands, []))[x..]) - y
  {
    var sizes := Sizes(Slots(commands, []));
    SlotSizesSum(commands);
    assert sizes == sizes[..x] + sizes[x..];
    SumConcat(sizes[..x], sizes[x..]);
  }

  /** The stored command sizes read in physical order and in logical order are the same list. */
  predicate SizesUnmovedByRotation(commands: seq<seq<byte>>) {
    forall x :: 0 <= x < |Newest(commands)| ==> |Slots(commands, [])[x]| == |Newest(commands)[x]|
  }

  lemma SeekSelectsWhenUnmoved(commands: seq<seq<byte>>, x: nat, y: nat)
    requires SizesUnmovedByRotation(commands)
    ensures SeekTarget(commands, x, y) == CommandPosition(commands, x, y)
  {
    var w, slots := Newest(commands), Slots(commands, []);
    if x < |w| {
      assert Sizes(slots)[..x] == Sizes(w)[..x];
      SizesPrefix(w, x);
    } else if x < SLOTS {
      SlotContents(commands, [], x);
    }
  }

  predicate SeekSelectsTheNamedCommand(commands: seq<seq<byte>>, x: nat, y: nat) {
    SeekTarget(commands, x, y) == CommandPosition(commands, x, y)
  }

  /** Exactly when seeking works: every seek request selects the command it names if and only if rotating
      the ring does not change its list of command sizes. */
  lemma SeekSelectsTheNamedCommandIff(commands: seq<seq<byte>>)
    ensures (forall x: nat, y: nat :: SeekSelectsTheNamedCommand(commands, x, y))
            <==> SizesUnmovedByRotation(commands)
  {
    var w, slots := Newest(commands), Slots(commands, []);
    if SizesUnmovedByRotation(commands) {
      forall x: nat, y: nat
        ensures SeekSelectsTheNamedCommand(commands, x, y)
      {
        SeekSelectsWhenUnmoved(commands, x, y);
      }
    } else {
      var x :| 0 <= x < |w| && |slots[x]| != |w[x]|;
      var y := if |slots[x]| < |w[x]| then |slots[x]| else |w[x]|;
      assert SeekTarget(commands, x, y).None? != CommandPosition(commands, x, y).None?;
      assert !SeekSelectsTheNamedCommand(commands, x, y);
    }
  }

  /** Exactly when one request is answered rightly.  A request for a stored byte: if and only if the slot of
      that number is long enough and the slots before it are as long, together, as the commands before it.  Any
      other request: if and only if the slot has no such byte either. */
  lemma ThisSeekIsRightIff(commands: seq<seq<byte>>, x: nat, y: nat)
    ensures var slots, w := Slots(commands, []), Newest(commands);
      SeekSelectsTheNamedCommand(commands, x, y) <==>
        if x < |w| && y < |w[x]| then y < |slots[x]| && Sum(Sizes(slots)[..x]) == Sum(Sizes(w)[..x])
        else x >= SLOTS || y >= |slots[x]|
  {
    if x < |Newest(commands)| {
      SizesPrefix(Newest(commands), x);
    }
  }

  /** A read at `pos` starts at byte `b` of part `k`, and reading to the end delivers the parts from there. */
  predicate ReadsFrom(parts: seq<seq<byte>>, pos: nat, k: nat, b: nat) {
    && k < |parts| && b < |parts[k]|
    && Locate(Sizes(parts), pos) == Some((k, b))
    && pos <= |Flatten(parts)|
    && Flatten(parts)[pos..] == parts[k][b..] + Flatten(parts[k + 1..])
  }

  /** Seek/read round trip: while the oldest command is in slot 0, a seek to (x, y) succeeds exactly when
      command x is stored and y is below its size, and reading from there starts at byte y of command x. */
  lemma SeekReadRoundTrip(commands: seq<seq<byte>>, x: nat, y: nat)
    requires OldestSlot(|commands|) == 0
    ensures SeekTarget(commands, x, y).Some? <==> x < |Newest(commands)| && y < |Newest(commands)[x]|
    ensures match SeekTarget(commands, x, y)
      case None => true
      case Some(pos) => ReadsFrom(Newest(commands), pos, x, y)
  {
    assert SeekTarget(commands, x, y) == CommandPosition(commands, x, y) by {
      UnwrappedIsUnmoved(commands);
      SeekSelectsWhenUnmoved(commands, x, y);
    }
    var w := Newest(commands);
    if x < |w| && y < |w[x]| {
      var pos := |Flatten(w[..x])| + y;
      assert CommandPosition(commands, x, y) == Some(pos);
      assert ReadsFrom(w, pos, x, y) by {
        PositionSplits(w, x, y);
      }
    }
  }

  lemma UnwrappedIsUnmoved(commands: seq<seq<byte>>)
    requires OldestSlot(|commands|) == 0
    ensures SizesUnmovedByRotation(commands)
  {
    forall i | 0 <= i < |Newest(commands)|
      ensures |Slots(commands, [])[i]| == |Newest(commands)[i]|
    {
      WalkIsOldestFirst(commands, [], i);
    }
  }

  lemma PositionSplits(parts: seq<seq<byte>>, k: nat, b: nat)
    requires k < |parts| && b < |parts[k]|
    ensures ReadsFrom(parts, |Flatten(parts[..k])| + b, k, b)
  {
    SizesPrefix(parts, k);
    LocateInvertsPosition(Sizes(parts), k, b);
    FlattenAt(parts, k);
    var before, after := Flatten(parts[..k]), Flatten(parts[k + 1..]);
    assert (before + parts[k] + after)[|before| + b..] == parts[k][b..] + after;
  }

  /** A wrapped ring where it does not: after the eleven commands "\n", "a\n", "\n", ..., "\n" a seek to byte 1 of
      the oldest command is refused although that command has two bytes. */
  lemma WrappedSeekCounterexample()
    ensures var commands := [[NEWLINE], [97, NEWLINE]] + seq(9, _ => [NEWLINE]);
      && CommandPosition(commands, 0, 1) == Some(1)
      && SeekTarget(commands, 0, 1) == None
  {
    var commands: seq<seq<byte>> := [[NEWLINE], [97, NEWLINE]] + seq(9, _ => [NEWLINE]);
    assert Newest(commands)[0] == [97, NEWLINE];
    SlotContents(commands, [], 0);
    assert Slots(commands, [])[0] == [NEWLINE];
    assert Newest(commands)[..0] == [];
  }
}
