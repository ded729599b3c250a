/** The character device (aesd-char-driver/main.c): writes, reads and seeks over the ring and its buffers. */
module CharDevice {
  import opened Sequences
  import opened CommandLog
  import opened DeviceState
  import opened Ring
  import opened KernelMemory

  /** The debug build, the one configured, allocates one byte more for a terminator. */
  const DEBUG_BYTE: nat := 1

  /** What a file operation returns: a byte count, position or zero, or one of the error codes used.
      `BeforeBuffer` is a write that returns zero after looking at the byte in front of its buffer, which is
      undefined. */
  datatype Outcome = Count(n: nat) | Restart | NoMemory | Fault | Invalid | BeforeBuffer

  datatype Whence = SeekSet | SeekCur | SeekEnd

  class OpenFile {
    var fPos: nat

    constructor ()
      ensures fPos == 0
    {
      fPos := 0;
    }
  }

  /** The kernel's fixed_size_llseek: positions from 0 to `size` inclusive are accepted, and asking for the
      current position with offset zero always succeeds. */
  method FixedSizeLlseek(f: OpenFile, off: int, whence: Whence, size: nat) returns (r: Outcome)
    modifies f
    ensures var target := match whence
        case SeekSet => off
        case SeekCur => old(f.fPos) + off
        case SeekEnd => size + off;
      if 0 <= target <= size || (whence.SeekCur? && off == 0)
      then r == Count(target) && f.fPos == target
      else r == Invalid && f.fPos == old(f.fPos)
  {
    var target := off;
    if whence.SeekCur? {
      if off == 0 {
        return Count(f.fPos);
      }
      target := f.fPos + off;
    } else if whence.SeekEnd? {
      target := size + off;
    }
    if target < 0 || target > size {
      return Invalid;
    }
    f.fPos := target;
    return Count(target);
  }

  // ----- Ownership: who holds each live allocation

  /** The one pointer that holds a live allocation; `Nobody` when the last one was overwritten. */
  datatype Owner = Slot(i: nat) | Assembling | Nobody

  type Owners = map<Ptr, Owner>

  /** Every live allocation has exactly one owner, and every pointer in use owns what it points to: a slot
      its non-null pointer, the command being assembled its buffer while its size is not zero. */
  ghost predicate Owned(live: set<Ptr>, owners: Owners, leaked: set<Ptr>, entries: seq<Entry>, ptr: Ptr, size: nat) {
    && NULL !in live
    && live == owners.Keys
    && (forall i :: 0 <= i < |entries| && entries[i].buffptr != NULL ==>
          entries[i].buffptr in owners && owners[entries[i].buffptr] == Slot(i))
    && (size > 0 && ptr != NULL ==> ptr in owners && owners[ptr] == Assembling)
    && (forall p :: p in owners ==>
          match owners[p]
          case Slot(i) => i < |entries| && entries[i].buffptr == p
          case Assembling => size > 0 && ptr == p
          case Nobody => p in leaked)
    && (forall p :: p in leaked ==> p in owners && owners[p] == Nobody)
  }

  ghost function SlotBuffers(entries: seq<Entry>): set<Ptr> {
    set i | 0 <= i < |entries| && entries[i].buffptr != NULL :: entries[i].buffptr
  }

  ghost function PendingBuffer(ptr: Ptr, size: nat): set<Ptr> {
    if size > 0 && ptr != NULL then {ptr} else {}
  }

  /** What single ownership means: live memory is exactly the slot buffers, the pending buffer and the
      leaked ones, and all of these are distinct. */
  lemma LiveMemoryIsPartitioned(live: set<Ptr>, owners: Owners, leaked: set<Ptr>,
                                entries: seq<Entry>, ptr: Ptr, size: nat)
    requires Owned(live, owners, leaked, entries, ptr, size)
    ensures live == SlotBuffers(entries) + PendingBuffer(ptr, size) + leaked
    ensures SlotBuffers(entries) !! PendingBuffer(ptr, size) !! leaked
    ensures forall i, j :: 0 <= i < j < |entries| && entries[i].buffptr != NULL ==>
              entries[i].buffptr != entries[j].buffptr
  {
    forall p | p in live
      ensures p in SlotBuffers(entries) + PendingBuffer(ptr, size) + leaked
    {
      if owners[p].Slot? {
        assert entries[owners[p].i].buffptr == p;
      }
    }
  }

  /** Moving the pending buffer into a slot and freeing the buffer that was there. */
  lemma OwnedCommit(live: set<Ptr>, owners: Owners, leaked: set<Ptr>,
                    entries: seq<Entry>, ptr: Ptr, size: nat, slot: nat)
    returns (after: Owners)
    requires Owned(live, owners, leaked, entries, ptr, size)
    requires slot < |entries| && size > 0 && ptr != NULL
    ensures after == (owners - {entries[slot].buffptr})[ptr := Slot(slot)]
    ensures Owned(live - {entries[slot].buffptr}, after, leaked, entries[slot := Entry(ptr, size)], NULL, 0)
    ensures entries[slot].buffptr == NULL || entries[slot].buffptr in live
  {
    after := (owners - {entries[slot].buffptr})[ptr := Slot(slot)];
  }

  /** Moving a fresh buffer into a slot while nothing is pending. */
  lemma OwnedFreshCommit(live: set<Ptr>, owners: Owners, leaked: set<Ptr>,
                         entries: seq<Entry>, ptr: Ptr, q: Ptr, slot: nat)
    returns (after: Owners)
    requires Owned(live, owners, leaked, entries, ptr, 0)
    requires slot < |entries| && q != NULL && q !in live
    ensures after == (owners - {entries[slot].buffptr})[q := Slot(slot)]
    ensures Owned(live + {q} - {entries[slot].buffptr}, after, leaked, entries[slot := Entry(q, 0)], NULL, 0)
    ensures entries[slot].buffptr == NULL || entries[slot].buffptr in live
  {
    after := (owners - {entries[slot].buffptr})[q := Slot(slot)];
  }

  // ----- Contents: what the live allocations hold

  /** An entry holds exactly the bytes `text` in live memory; an unused one holds none. */
  ghost predicate EntryHolds(e: Entry, text: seq<byte>, heap: Heap) {
    && e.size == |text|
    && (e.buffptr == NULL ==> text == [])
    && (e.buffptr != NULL ==> e.buffptr in heap && text <= heap[e.buffptr])
  }

  ghost predicate EntriesHold(entries: seq<Entry>, texts: seq<seq<byte>>, heap: Heap) {
    |entries| == |texts| && forall i :: 0 <= i < |entries| ==> EntryHolds(entries[i], texts[i], heap)
  }

  lemma EntriesHoldUpdate(entries: seq<Entry>, texts: seq<seq<byte>>, i: nat, e: Entry, text: seq<byte>, heap: Heap)
    requires i < |entries| && EntriesHold(entries, texts, heap)
    requires EntryHolds(e, text, heap) && e.buffptr != NULL && e.buffptr != entries[i].buffptr
    requires forall j :: 0 <= j < |entries| && j != i && entries[j].buffptr != NULL ==>
               entries[j].buffptr != entries[i].buffptr
    ensures EntriesHold(entries[i := e], texts[i := text], heap - {entries[i].buffptr})
  {
    var p := entries[i].buffptr;
    var entries', texts' := entries[i := e], texts[i := text];
    forall j | 0 <= j < |entries|
      ensures EntryHolds(entries'[j], texts'[j], heap - {p})
    {
      assert EntryHolds(entries[j], texts[j], heap);
    }
  }

  /** Memory that no slot points to may change without the slots noticing. */
  lemma EntriesHoldFrame(entries: seq<Entry>, texts: seq<seq<byte>>, heap: Heap, after: Heap)
    requires EntriesHold(entries, texts, heap)
    requires forall i :: 0 <= i < |entries| && entries[i].buffptr in heap ==>
               entries[i].buffptr in after && after[entries[i].buffptr] == heap[entries[i].buffptr]
    ensures EntriesHold(entries, texts, after)
  {
    forall j | 0 <= j < |entries|
      ensures EntryHolds(entries[j], texts[j], after)
    {
      assert EntryHolds(entries[j], texts[j], heap);
    }
  }

  ghost predicate PendingHolds(ptr: Ptr, size: nat, heap: Heap, s: State) {
    && size == |s.log.pending|
    && (size == 0 ==> s.intact)
    && (size > 0 ==> (s.intact <==> ptr != NULL))
    && (size > 0 && ptr != NULL ==> EntryHolds(Entry(ptr, size), s.log.pending, heap))
  }

  /** The device's slots, pending buffer and memory, with the owner of each live allocation. */
  datatype Fields = Fields(entries: seq<Entry>, ptr: Ptr, size: nat, heap: Heap, owners: Owners, leaked: set<Ptr>)

  /** The device's fields and memory stand for the state `s`. */
  ghost predicate Represents(f: Fields, s: State) {
    match f
    case Fields(entries, ptr, size, heap, owners, leaked) =>
      && Owned(heap.Keys, owners, leaked, entries, ptr, size)
      && |leaked| == s.leaks
      && PendingHolds(ptr, size, heap, s)
      && EntriesHold(entries, Slots(s.log.commands, []), heap)
  }

  // ----- What one write does to the fields

  /** The buffer given up when the pending buffer is replaced. */
  function Released(f: Fields): Ptr {
    if f.size > 0 then f.ptr else NULL
  }

  /** The fields once buffer `q`, new or resized, holds all the text assembled so far. */
  function AssembledFields(f: Fields, q: Ptr, size: nat, heap: Heap): Fields {
    Fields(f.entries, q, size, heap, (f.owners - {Released(f)})[q := Assembling], f.leaked)
  }

  lemma RepresentsAssembled(f: Fields, s: State, q: Ptr, bytes: seq<byte>, text: seq<byte>, heap: Heap)
    requires Represents(f, s)
    requires q != NULL && (q !in f.heap || (f.size > 0 && q == f.ptr))
    requires heap == (f.heap - {Released(f)})[q := bytes]
    requires text != [] && text <= bytes
    ensures Represents(AssembledFields(f, q, |text|, heap), State(s.log.(pending := text), true, s.leaks))
  {
    assert heap.Keys == f.heap.Keys - {Released(f)} + {q};
    SlotsElsewhere(f, s, Released(f), q);
    EntriesHoldFrame(f.entries, Slots(s.log.commands, []), f.heap, heap);
  }

  /** No slot points to the pending buffer or to an address that is not live. */
  lemma SlotsElsewhere(f: Fields, s: State, p: Ptr, q: Ptr)
    requires Represents(f, s) && p == Released(f)
    requires q !in f.heap || (f.size > 0 && q == f.ptr)
    ensures forall i :: 0 <= i < |f.entries| && f.entries[i].buffptr != NULL ==>
              f.entries[i].buffptr != p && f.entries[i].buffptr != q
  {
  }

  lemma PendingFacts(f: Fields, s: State)
    requires Represents(f, s)
    ensures f.size == |s.log.pending| && (f.size == 0 ==> s.intact)
    ensures f.size > 0 && f.ptr != NULL ==>
      && f.ptr in f.heap && s.intact && f.size <= |f.heap[f.ptr]| && f.heap[f.ptr][..f.size] == s.log.pending
    ensures f.size > 0 && f.ptr == NULL ==> !s.intact
    ensures Released(f) == NULL ==> f.heap - {Released(f)} == f.heap
  {
  }

  /** The fields when nothing could be allocated: a buffer that could not be resized is lost. */
  function NoMemoryFields(f: Fields): Fields {
    var p := Released(f);
    Fields(f.entries, NULL, f.size, f.heap, if p == NULL then f.owners else f.owners[p := Nobody],
           if p == NULL then f.leaked else f.leaked + {p})
  }

  /** The state when nothing could be allocated. */
  function NoMemoryState(s: State): State {
    var lost := s.log.pending != [] && s.intact;
    State(s.log, s.intact && !lost, if lost then s.leaks + 1 else s.leaks)
  }

  lemma WriteStepNoMemory(s: State, e: WriteEvent)
    requires e.env.lock && !e.env.alloc
    ensures WriteStep(s, e) == NoMemoryState(s)
  {
  }

  lemma RepresentsNoMemory(f: Fields, s: State)
    requires Represents(f, s)
    ensures Represents(NoMemoryFields(f), NoMemoryState(s))
  {
    var p, owners := Released(f), NoMemoryFields(f).owners;
    if p != NULL {
      assert owners.Keys == f.owners.Keys;
    }
  }

  /** The fields when copying into the fresh buffer `q` faulted: nothing will ever free it. */
  function FaultFields(f: Fields, q: Ptr, heap: Heap): Fields {
    f.(ptr := q, heap := heap, owners := f.owners[q := Nobody], leaked := f.leaked + {q})
  }

  lemma RepresentsFault(f: Fields, s: State, q: Ptr, bytes: seq<byte>)
    requires Represents(f, s) && f.size == 0
    requires q != NULL && q !in f.heap
    ensures Represents(FaultFields(f, q, f.heap[q := bytes]), s.(leaks := s.leaks + 1))
  {
    EntriesHoldFrame(f.entries, Slots(s.log.commands, []), f.heap, f.heap[q := bytes]);
  }

  /** The state after the assembled command has been moved to the log. */
  function Committed(s: State): State {
    s.(log := Log(s.log.commands + [s.log.pending], []))
  }

  /** The fields after the pending buffer has moved to a slot and the buffer that was there was freed. */
  function CommitFields(f: Fields, slot: nat): Fields
    requires slot < |f.entries|
  {
    Fields(f.entries[slot := Entry(f.ptr, f.size)], NULL, 0, f.heap - {f.entries[slot].buffptr},
           (f.owners - {f.entries[slot].buffptr})[f.ptr := Slot(slot)], f.leaked)
  }

  lemma RepresentsCommit(f: Fields, slot: nat, s: State)
    requires Represents(f, s)
    requires f.size > 0 && f.ptr != NULL && slot == Wrap(|s.log.commands|)
    ensures slot < |f.entries|
    ensures Represents(CommitFields(f, slot), Committed(s))
    ensures f.entries[slot].buffptr != NULL ==> f.entries[slot].buffptr in f.heap
    ensures f.entries[slot].buffptr == NULL ==> f.heap - {NULL} == f.heap
  {
    var old' := f.entries[slot].buffptr;
    var after := OwnedCommit(f.heap.Keys, f.owners, f.leaked, f.entries, f.ptr, f.size, slot);
    assert (f.heap - {old'}).Keys == f.heap.Keys - {old'};
    CommitEntries(f, slot, s);
  }

  lemma CommitEntries(f: Fields, slot: nat, s: State)
    requires Represents(f, s)
    requires f.size > 0 && f.ptr != NULL && slot == Wrap(|s.log.commands|) && slot < |f.entries|
    ensures EntriesHold(f.entries[slot := Entry(f.ptr, f.size)], Slots(s.log.commands + [s.log.pending], []),
                        f.heap - {f.entries[slot].buffptr})
  {
    EntriesHoldUpdate(f.entries, Slots(s.log.commands, []), slot, Entry(f.ptr, f.size), s.log.pending, f.heap);
    SlotsStep(s.log.commands, s.log.pending, []);
  }

  /** The fields after the fresh buffer `q` has moved to a slot as an empty command. */
  function EmptyCommitFields(f: Fields, q: Ptr, heap: Heap, slot: nat): Fields
    requires slot < |f.entries|
  {
    Fields(f.entries[slot := Entry(q, 0)], NULL, 0, heap - {f.entries[slot].buffptr},
           (f.owners - {f.entries[slot].buffptr})[q := Slot(slot)], f.leaked)
  }

  lemma RepresentsEmptyCommit(f: Fields, s: State, q: Ptr, bytes: seq<byte>, slot: nat)
    requires Represents(f, s) && f.size == 0
    requires q != NULL && q !in f.heap && slot == Wrap(|s.log.commands|)
    ensures slot < |f.entries|
    ensures Represents(EmptyCommitFields(f, q, f.heap[q := bytes], slot), EmptyWrite(s, NEWLINE))
    ensures f.entries[slot].buffptr != NULL ==> f.entries[slot].buffptr in f.heap[q := bytes]
  {
    var old', heap := f.entries[slot].buffptr, f.heap[q := bytes];
    var after := OwnedFreshCommit(f.heap.Keys, f.owners, f.leaked, f.entries, f.ptr, q, slot);
    assert (heap - {old'}).Keys == f.heap.Keys + {q} - {old'};
    EmptyCommitEntries(f, s, q, bytes, slot);
  }

  lemma EmptyCommitEntries(f: Fields, s: State, q: Ptr, bytes: seq<byte>, slot: nat)
    requires Represents(f, s)
    requires q != NULL && q !in f.heap && slot == Wrap(|s.log.commands|) && slot < |f.entries|
    ensures EntriesHold(f.entries[slot := Entry(q, 0)], Slots(s.log.commands + [[]], []),
                        f.heap[q := bytes] - {f.entries[slot].buffptr})
  {
    var heap := f.heap[q := bytes];
    EntriesHoldFrame(f.entries, Slots(s.log.commands, []), f.heap, heap);
    EntriesHoldUpdate(f.entries, Slots(s.log.commands, []), slot, Entry(q, 0), [], heap);
    SlotsStep(s.log.commands, [], []);
  }

  /** Once the text is assembled nothing more has to be written to decide about it. */
  lemma AcceptAssembled(log: Log, kept: seq<byte>, chunk: seq<byte>, text: seq<byte>)
    requires text == kept + chunk
    ensures Accept(log.(pending := text), []) == Accept(log.(pending := kept), chunk)
  {
    assert text + [] == text;
  }

  /** The last byte of the assembled text decides whether it is a command. */
  lemma LastByteDecides(s: State, bytes: seq<byte>, last: seq<byte>)
    requires s.log.pending != [] && s.log.pending <= bytes
    requires var n := |s.log.pending|; last == bytes[n - 1..n]
    ensures s.(log := Accept(s.log, [])) == if last[0] == NEWLINE then Committed(s) else s
  {
    assert s.log.pending + [] == s.log.pending;
  }

  // ----- What reading needs to know about the fields

  lemma SlotSizes(f: Fields, s: State)
    requires Represents(f, s)
    ensures |f.entries| == SLOTS
    ensures forall i :: 0 <= i < SLOTS ==> f.entries[i].size == Sizes(Slots(s.log.commands, []))[i]
  {
    forall i | 0 <= i < SLOTS
      ensures f.entries[i].size == Sizes(Slots(s.log.commands, []))[i]
    {
      assert EntryHolds(f.entries[i], Slots(s.log.commands, [])[i], f.heap);
    }
  }

  /** The entries a walk of the ring finds hold the newest commands, oldest first. */
  lemma NewestHold(history: seq<Entry>, f: Fields, s: State)
    requires f.entries == Slots(history, UNUSED) && |history| == |s.log.commands|
    requires Represents(f, s)
    ensures EntriesHold(Newest(history), Newest(s.log.commands), f.heap)
    ensures EntrySizes(Newest(history)) == Sizes(Newest(s.log.commands))
  {
    NewestEntriesHold(history, s.log.commands, f.heap);
  }

  lemma NewestEntriesHold(history: seq<Entry>, commands: seq<seq<byte>>, heap: Heap)
    requires |history| == |commands| && EntriesHold(Slots(history, UNUSED), Slots(commands, []), heap)
    ensures EntriesHold(Newest(history), Newest(commands), heap)
  {
    var ws, cs := Newest(history), Newest(commands);
    forall k | 0 <= k < |ws|
      ensures EntryHolds(ws[k], cs[k], heap)
    {
      NewestEntryHolds(history, commands, heap, k);
    }
  }

  lemma NewestEntryHolds(history: seq<Entry>, commands: seq<seq<byte>>, heap: Heap, k: nat)
    requires |history| == |commands| && EntriesHold(Slots(history, UNUSED), Slots(commands, []), heap)
    requires k < |Newest(history)|
    ensures EntryHolds(Newest(history)[k], Newest(commands)[k], heap)
  {
    var slot := Wrap(OldestSlot(|history|) + k);
    EntryAt(Slots(history, UNUSED), Slots(commands, []), heap, slot);
    WalkAt(history, UNUSED, k, slot);
    WalkAt(commands, [], k, slot);
  }

  /** The `k`-th newest element is in this slot. */
  lemma WalkAt<T>(history: seq<T>, empty: T, k: nat, slot: nat)
    requires k < |Newest(history)| && slot == Wrap(OldestSlot(|history|) + k)
    ensures Slots(history, empty)[slot] == Newest(history)[k]
  {
    WalkIsOldestFirst(history, empty, k);
  }

  lemma EntryAt(entries: seq<Entry>, texts: seq<seq<byte>>, heap: Heap, slot: nat)
    requires EntriesHold(entries, texts, heap) && slot < |entries|
    ensures EntryHolds(entries[slot], texts[slot], heap)
  {
  }

  /** What the ring's lookup finds is the entry that holds the command at that position. */
  lemma FoundEntryHolds(history: seq<Entry>, f: Fields, s: State, pos: nat, outOffs: nat, found: Option<(nat, nat)>)
    requires f.entries == Slots(history, UNUSED) && |history| == |s.log.commands|
    requires Represents(f, s)
    requires match Locate(EntrySizes(Newest(history)), pos)
      case None => found == None
      case Some((k, b)) =>
        && k < |Newest(history)| && found == Some((Wrap(outOffs + k), b))
        && f.entries[Wrap(outOffs + k)] == Newest(history)[k]
    ensures match Locate(Sizes(Newest(s.log.commands)), pos)
      case None => found == None
      case Some((k, b)) =>
        && found.Some? && found.value.0 < |f.entries| && found.value.1 == b && k < |Newest(s.log.commands)|
        && EntryHolds(f.entries[found.value.0], Newest(s.log.commands)[k], f.heap)
  {
    NewestHold(history, f, s);
    match Locate(Sizes(Newest(s.log.commands)), pos)
    case None =>
    case Some((k, b)) => EntryAt(Newest(history), Newest(s.log.commands), f.heap, k);
  }

  /** Bytes loaded from the entry that holds the located command are the piece a read delivers. */
  lemma PieceOfEntry(e: Entry, parts: seq<seq<byte>>, heap: Heap, pos: nat, count: nat, offset: nat, n: nat)
    requires match Locate(Sizes(parts), pos)
      case None => false
      case Some((k, b)) => k < |parts| && offset == b < |parts[k]| && EntryHolds(e, parts[k], heap)
    requires n == if count > e.size - offset then e.size - offset else count
    ensures e.buffptr in heap && offset + n <= |heap[e.buffptr]|
    ensures heap[e.buffptr][offset..offset + n] == ReadPiece(parts, pos, count)
  {
    var (k, b) := Locate(Sizes(parts), pos).value;
    var text, whole := parts[k], heap[e.buffptr];
    assert whole[..|text|] == text;
    SliceOfSlice(whole, 0, |text|, b, b + n);
    assert whole[b..b + n] == text[b..b + n];
  }

  /** The slots own what they point to, and besides them only leaked buffers are live. */
  ghost predicate SlotsOwn(heap: Heap, owners: Owners, entries: seq<Entry>) {
    && |entries| == SLOTS
    && (forall p :: p in heap <==> p in owners && (owners[p] == Nobody || owners[p].Slot?))
    && (forall p :: p in owners && owners[p].Slot? ==> owners[p].i < SLOTS && entries[owners[p].i].buffptr == p)
    && (forall i :: 0 <= i < SLOTS && entries[i].buffptr != NULL ==>
          entries[i].buffptr in owners && owners[entries[i].buffptr] == Slot(i))
  }

  /** What is left when the pending buffer has been freed. */
  lemma WithoutPending(f: Fields, s: State)
    requires Represents(f, s)
    ensures Released(f) == NULL || Released(f) in f.heap
    ensures SlotsOwn(f.heap - {Released(f)}, f.owners, f.entries)
    ensures |f.leaked| == s.leaks
  {
  }

  /** The buffers nobody owns are the leaked ones. */
  lemma NobodysAreLeaked(f: Fields, s: State, heap: Heap)
    requires Represents(f, s)
    requires forall p :: p in heap <==> p in f.owners && f.owners[p] == Nobody
    ensures heap.Keys == f.leaked
    ensures heap == map[] <==> s.leaks == 0
  {
    assert heap.Keys == f.leaked;
    assert heap == map[] <==> heap.Keys == {};
  }

  class Device {
    const buffer: CircularBuffer
    const mem: Allocator
    var tmpBuffPtr: Ptr
    var tmpBuffSize: nat

    /** What the concrete fields stand for, and who owns each live buffer. */
    ghost var state: State
    ghost var owners: Owners
    ghost var leaked: set<Ptr>

    ghost function Concrete(): Fields
      reads this, buffer, buffer.entry, mem
    {
      Fields(buffer.entry[..], tmpBuffPtr, tmpBuffSize, mem.heap, owners, leaked)
    }

    ghost predicate Valid()
      reads this, buffer, buffer.entry, mem
    {
      match state
      case State(log, _, _) =>
        && buffer.Valid() && mem.Valid()
        && |buffer.history| == |log.commands|
        && Represents(Concrete(), state)
    }

    constructor ()
      ensures Valid() && state == INITIAL && leaked == {} && mem.heap == map[]
      ensures fresh(buffer) && fresh(buffer.entry) && fresh(mem)
    {
      buffer := new CircularBuffer();
      mem := new Allocator();
      tmpBuffPtr, tmpBuffSize := NULL, 0;
      state, owners, leaked := INITIAL, map[], {};
    }

    /** Stores the assembled command in the ring and frees the buffer it pushes out. */
    method PushCommand()
      requires buffer.Valid() && mem.Valid()
      requires buffer.entry[buffer.inOffs].buffptr != NULL ==> buffer.entry[buffer.inOffs].buffptr in mem.heap
      modifies this`tmpBuffPtr, this`tmpBuffSize, buffer, buffer.entry, mem
      ensures buffer.Valid() && mem.Valid() && |buffer.history| == old(|buffer.history|) + 1
      ensures buffer.entry[..] == old(buffer.entry[..][buffer.inOffs := Entry(tmpBuffPtr, tmpBuffSize)])
      ensures mem.heap == old(mem.heap) - {old(buffer.entry[buffer.inOffs].buffptr)}
      ensures old(buffer.entry[..])[old(buffer.inOffs)] ==
        if old(buffer.full) then Newest(old(buffer.history))[0] else UNUSED
      ensures tmpBuffSize == 0 && tmpBuffPtr == NULL
    {
      HoldsStep(buffer.entry[..], buffer.inOffs, buffer.outOffs, buffer.full, buffer.history, UNUSED);
      var oldBuffPtr := buffer.AddEntry(Entry(tmpBuffPtr, tmpBuffSize));
      if oldBuffPtr != NULL {
        mem.Kfree(oldBuffPtr);
      } else {
        assert mem.heap == mem.heap - {NULL};
      }
      tmpBuffSize := 0;
      tmpBuffPtr := NULL;
    }

    /** A completed command moves to the log; the buffer freed, if any, is the oldest stored command's. */
    method CommitPending()
      requires Valid() && tmpBuffSize > 0 && tmpBuffPtr != NULL
      modifies this, buffer, buffer.entry, mem
      ensures Valid()
      ensures state == Committed(old(state)) && leaked == old(leaked)
      ensures mem.heap == old(mem.heap) -
        {if old(buffer.full) then Newest(old(buffer.history))[0].buffptr else NULL}
    {
      ghost var before, slot := Concrete(), buffer.inOffs;
      RepresentsCommit(before, slot, state);
      PushCommand();
      state := Committed(state);
      owners := CommitFields(before, slot).owners;
    }

    /** Allocates the first buffer of a command, or resizes the buffer of a command under way. */
    method GrowPending(count: nat, granted: bool)
      requires mem.Valid()
      requires tmpBuffSize > 0 && tmpBuffPtr != NULL ==> tmpBuffPtr in mem.heap && tmpBuffSize <= |mem.heap[tmpBuffPtr]|
      modifies this`tmpBuffPtr, mem
      ensures mem.Valid()
      ensures !granted ==> tmpBuffPtr == NULL && mem.heap == old(mem.heap)
      ensures granted ==>
        && tmpBuffPtr != NULL
        && (tmpBuffPtr !in old(mem.heap) || (tmpBuffSize > 0 && tmpBuffPtr == old(tmpBuffPtr)))
        && tmpBuffPtr in mem.heap && |mem.heap[tmpBuffPtr]| == tmpBuffSize + count + DEBUG_BYTE
        && mem.heap == (old(mem.heap) - {Released(old(Concrete()))})[tmpBuffPtr := mem.heap[tmpBuffPtr]]
      ensures granted && tmpBuffSize > 0 && old(tmpBuffPtr) != NULL ==>
        mem.heap[tmpBuffPtr][..tmpBuffSize] == old(mem.heap[tmpBuffPtr])[..tmpBuffSize]
    {
      if tmpBuffSize == 0 {
        tmpBuffPtr := mem.Kzalloc(count + DEBUG_BYTE, granted);
        assert old(mem.heap) - {NULL} == old(mem.heap);
      } else {
        tmpBuffPtr := mem.KreallocArray(tmpBuffPtr, tmpBuffSize + count + DEBUG_BYTE, granted);
      }
    }

    /** Copies the chunk behind the pending bytes, and the debug build's terminator behind the chunk. */
    method AppendChunk(chunk: seq<byte>)
      requires mem.Valid() && tmpBuffPtr in mem.heap
      requires |mem.heap[tmpBuffPtr]| == tmpBuffSize + |chunk| + DEBUG_BYTE
      modifies this`tmpBuffSize, mem
      ensures mem.Valid()
      ensures tmpBuffSize == old(tmpBuffSize) + |chunk|
      ensures tmpBuffPtr in mem.heap && mem.heap == old(mem.heap)[tmpBuffPtr := mem.heap[tmpBuffPtr]]
      ensures mem.heap[tmpBuffPtr] == old(mem.heap[tmpBuffPtr])[..old(tmpBuffSize)] + chunk + [0]
    {
      mem.Store(tmpBuffPtr, tmpBuffSize, chunk);
      tmpBuffSize := tmpBuffSize + |chunk|;
      mem.Store(tmpBuffPtr, tmpBuffSize, [0]);
    }

    /** The fields are those of `f`, except that the pending buffer and the memory may have changed. */
    ghost predicate SlotsOf(f: Fields, s: State)
      reads this, buffer, buffer.entry, mem
    {
      && buffer.Valid() && mem.Valid()
      && |buffer.history| == |s.log.commands|
      && buffer.entry[..] == f.entries
      && Represents(f, s)
    }

    /** Nothing was allocated. */
    ghost method SettleNoMemory(f: Fields, s: State)
      requires SlotsOf(f, s)
      requires tmpBuffPtr == NULL && tmpBuffSize == f.size && mem.heap == f.heap
      modifies this`state, this`owners, this`leaked
      ensures Valid() && state == NoMemoryState(s)
    {
      RepresentsNoMemory(f, s);
      var after := NoMemoryFields(f);
      state, owners, leaked := NoMemoryState(s), after.owners, after.leaked;
      assert Concrete() == after;
    }

    /** Copying into the fresh buffer faulted. */
    ghost method SettleFault(f: Fields, s: State, bytes: seq<byte>)
      requires SlotsOf(f, s) && f.size == 0
      requires tmpBuffPtr != NULL && tmpBuffPtr !in f.heap
      requires tmpBuffSize == f.size && mem.heap == f.heap[tmpBuffPtr := bytes]
      modifies this`state, this`owners, this`leaked
      ensures Valid() && state == s.(leaks := s.leaks + 1)
    {
      RepresentsFault(f, s, tmpBuffPtr, bytes);
      var after := FaultFields(f, tmpBuffPtr, mem.heap);
      state, owners, leaked := s.(leaks := s.leaks + 1), after.owners, after.leaked;
      assert Concrete() == after;
    }

    /** The pending buffer holds `text`. */
    ghost method SettleAssembled(f: Fields, s: State, bytes: seq<byte>, text: seq<byte>)
      requires SlotsOf(f, s)
      requires tmpBuffPtr != NULL && (tmpBuffPtr !in f.heap || (f.size > 0 && tmpBuffPtr == f.ptr))
      requires mem.heap == (f.heap - {Released(f)})[tmpBuffPtr := bytes]
      requires text != [] && text <= bytes && tmpBuffSize == |text|
      modifies this`state, this`owners, this`leaked
      ensures Valid() && state == State(s.log.(pending := text), true, s.leaks)
      ensures tmpBuffPtr in mem.heap && mem.heap[tmpBuffPtr] == bytes
    {
      RepresentsAssembled(f, s, tmpBuffPtr, bytes, text, mem.heap);
      var after := AssembledFields(f, tmpBuffPtr, tmpBuffSize, mem.heap);
      state, owners, leaked := State(s.log.(pending := text), true, s.leaks), after.owners, after.leaked;
      assert Concrete() == after;
    }

    /** The assembled text becomes a command if its last byte is a newline. */
    method CommitIfComplete()
      requires Valid() && tmpBuffSize > 0 && tmpBuffPtr in mem.heap && state.intact
      requires state.log.pending <= mem.heap[tmpBuffPtr]
      modifies this, buffer, buffer.entry, mem
      ensures Valid()
      ensures state == old(state).(log := Accept(old(state.log), []))
    {
      var last := mem.Load(tmpBuffPtr, tmpBuffSize - 1, 1);
      LastByteDecides(state, mem.heap[tmpBuffPtr], last);
      if last[0] == NEWLINE {
        CommitPending();
      }
    }

    /** The pending buffer has room: the chunk is appended and the text committed if complete. */
    method FinishWrite(chunk: seq<byte>, ghost f: Fields, ghost s: State, ghost kept: seq<byte>)
      requires SlotsOf(f, s) && tmpBuffSize == f.size == |kept|
      requires tmpBuffPtr in mem.heap && (tmpBuffPtr !in f.heap || (f.size > 0 && tmpBuffPtr == f.ptr))
      requires mem.heap == (f.heap - {Released(f)})[tmpBuffPtr := mem.heap[tmpBuffPtr]]
      requires |mem.heap[tmpBuffPtr]| == tmpBuffSize + |chunk| + DEBUG_BYTE && kept <= mem.heap[tmpBuffPtr]
      requires |chunk| > 0 || tmpBuffSize > 0
      modifies this, buffer, buffer.entry, mem
      ensures Valid()
      ensures state == State(Accept(s.log.(pending := kept), chunk), true, s.leaks)
    {
      ghost var text := kept + chunk;
      assert mem.heap[tmpBuffPtr][..tmpBuffSize] == kept;
      AppendChunk(chunk);
      SettleAssembled(f, s, mem.heap[tmpBuffPtr], text);
      AcceptAssembled(s.log, kept, chunk, text);
      CommitIfComplete();
    }

    /** The fresh buffer has been given a slot as an empty command. */
    ghost method SettleEmptyCommit(f: Fields, s: State, q: Ptr, bytes: seq<byte>, slot: nat)
      requires Represents(f, s) && f.size == 0 && q != NULL && q !in f.heap
      requires slot == Wrap(|s.log.commands|) && slot < |f.entries|
      requires buffer.Valid() && mem.Valid() && |buffer.history| == |s.log.commands| + 1
      requires buffer.entry[..] == f.entries[slot := Entry(q, 0)]
      requires mem.heap == f.heap[q := bytes] - {f.entries[slot].buffptr}
      requires tmpBuffSize == 0 && tmpBuffPtr == NULL && leaked == f.leaked
      modifies this`state, this`owners
      ensures Valid() && state == EmptyWrite(s, NEWLINE)
    {
      RepresentsEmptyCommit(f, s, q, bytes, slot);
      var after := EmptyCommitFields(f, q, f.heap[q := bytes], slot);
      state, owners := EmptyWrite(s, NEWLINE), after.owners;
      assert Concrete() == after;
    }

    /** The fresh buffer becomes an empty command. */
    method CommitEmpty(ghost f: Fields, ghost s: State, ghost bytes: seq<byte>)
      requires SlotsOf(f, s) && f.size == tmpBuffSize == 0 && leaked == f.leaked
      requires tmpBuffPtr != NULL && tmpBuffPtr !in f.heap && mem.heap == f.heap[tmpBuffPtr := bytes]
      modifies this, buffer, buffer.entry, mem
      ensures Valid() && state == EmptyWrite(s, NEWLINE)
    {
      ghost var q, slot := tmpBuffPtr, buffer.inOffs;
      RepresentsEmptyCommit(f, s, q, bytes, slot);
      PushCommand();
      SettleEmptyCommit(f, s, q, bytes, slot);
    }

    /** Nothing was copied behind nothing: the last byte looked for lies in front of the fresh buffer, and
        whatever memory holds there decides. */
    method FinishEmptyWrite(ghost f: Fields, ghost s: State) returns (before: byte)
      requires SlotsOf(f, s) && tmpBuffSize == f.size == 0 && leaked == f.leaked
      requires tmpBuffPtr in mem.heap && tmpBuffPtr !in f.heap
      requires mem.heap == f.heap[tmpBuffPtr := mem.heap[tmpBuffPtr]] && |mem.heap[tmpBuffPtr]| == DEBUG_BYTE
      modifies this, buffer, buffer.entry, mem
      ensures Valid() && state == EmptyWrite(s, before)
    {
      AppendChunk([]);
      ghost var bytes := mem.heap[tmpBuffPtr];
      before := *;
      if before == NEWLINE {
        CommitEmpty(f, s, bytes);
      } else {
        SettleFault(f, s, bytes);
      }
    }

    /** The part of a write done under the lock. */
    method WriteLocked(chunk: seq<byte>, env: Env) returns (r: Outcome, ghost e: WriteEvent)
      requires Valid() && env.lock
      modifies this, buffer, buffer.entry, mem
      ensures Valid()
      ensures e.chunk == chunk && e.env == env && state == WriteStep(old(state), e)
      ensures r == if !env.alloc then NoMemory else if !env.copy then Fault
                   else if chunk == [] && old(tmpBuffSize) == 0 then BeforeBuffer else Count(|chunk|)
    {
      e := WriteEvent(chunk, env, _ => 0, 0);
      ghost var before, s := Concrete(), state;
      PendingFacts(before, s);
      GrowPending(|chunk|, env.alloc);
      if tmpBuffPtr == NULL {
        SettleNoMemory(before, s);
        WriteStepNoMemory(s, e);
        return NoMemory, e;
      }
      ghost var bytes := mem.heap[tmpBuffPtr];
      ghost var kept := bytes[..tmpBuffSize];
      e := e.(garbage := Recall(kept));
      assert Kept(s, e) == kept;
      if env.copy {
        if tmpBuffSize + |chunk| == 0 {
          var found := FinishEmptyWrite(before, s);
          return BeforeBuffer, e.(before := found);
        }
        FinishWrite(chunk, before, s, kept);
        return Count(|chunk|), e;
      }
      if tmpBuffSize == 0 {
        SettleFault(before, s, bytes);
      } else {
        SettleAssembled(before, s, bytes, kept);
      }
      return Fault, e;
    }

    /** One write.  Whatever fails, the device ends up as `WriteStep` says, and only a success moves the
        file position.  A write of no bytes looks in front of its buffer exactly when nothing is pending and
        nothing fails. */
    method Write(f: OpenFile, chunk: seq<byte>, env: Env) returns (r: Outcome, ghost e: WriteEvent)
      requires Valid()
      modifies this, f, buffer, buffer.entry, mem
      ensures Valid()
      ensures e.chunk == chunk && e.env == env && state == WriteStep(old(state), e)
      ensures r.BeforeBuffer? <==> env.lock && env.alloc && env.copy && chunk == [] && old(tmpBuffSize) == 0
      ensures !r.BeforeBuffer? ==>
        r == if !env.lock then Restart else if !env.alloc then NoMemory else if !env.copy then Fault
             else Count(|chunk|)
      ensures f.fPos == old(f.fPos) + if r.Count? then |chunk| else 0
    {
      if !env.lock {
        return Restart, WriteEvent(chunk, env, _ => 0, 0);
      }
      r, e := WriteLocked(chunk, env);
      if r.Count? {
        f.fPos := f.fPos + |chunk|;
      }
    }

    /** The stored entry that holds the byte at a position, and the offset within it. */
    method FindEntry(pos: nat) returns (found: Option<(Entry, nat)>)
      requires Valid()
      ensures match Locate(Sizes(Newest(state.log.commands)), pos)
        case None => found == None
        case Some((k, b)) =>
          && found.Some? && found.value.1 == b && k < |Newest(state.log.commands)|
          && EntryHolds(found.value.0, Newest(state.log.commands)[k], mem.heap)
    {
      var slot := buffer.FindEntryOffsetForFpos(pos);
      FoundEntryHolds(buffer.history, Concrete(), state, pos, buffer.outOffs, slot);
      if slot.None? {
        return None;
      }
      return Some((buffer.entry[slot.value.0], slot.value.1));
    }

    /** The piece of the contents at a position; nothing is returned when copying out faults. */
    method ReadAt(pos: nat, count: nat, copy: bool) returns (bytes: Option<seq<byte>>)
      requires Valid()
      ensures bytes == if pos < |Contents(state.log)| && !copy then None
                       else Some(ReadPiece(Newest(state.log.commands), pos, count))
    {
      LocatedByte(Newest(state.log.commands), pos);
      var found := FindEntry(pos);
      if found.None? {
        return Some([]);
      }
      var (entry, offset) := found.value;
      var n := count;
      if n > entry.size - offset {
        n := entry.size - offset;
      }
      if !copy {
        return None;
      }
      PieceOfEntry(entry, Newest(state.log.commands), mem.heap, pos, count, offset, n);
      var piece := mem.Load(entry.buffptr, offset, n);
      return Some(piece);
    }

    /** One read: the next piece of the contents from the file position, at most the rest of one command. */
    method Read(f: OpenFile, count: nat, env: Env) returns (r: Outcome, bytes: seq<byte>)
      requires Valid()
      modifies f
      ensures var piece := ReadPiece(Newest(state.log.commands), old(f.fPos), count);
        if !env.lock then r == Restart && bytes == [] && f.fPos == old(f.fPos)
        else if old(f.fPos) < |Contents(state.log)| && !env.copy then r == Fault && bytes == [] && f.fPos == old(f.fPos)
        else r == Count(|piece|) && bytes == piece && f.fPos == old(f.fPos) + |piece|
    {
      if !env.lock {
        return Restart, [];
      }
      var piece := ReadAt(f.fPos, count, env.copy);
      if piece.None? {
        return Fault, [];
      }
      bytes := piece.value;
      f.fPos := f.fPos + |bytes|;
      return Count(|bytes|), bytes;
    }

    /** The sum of the sizes of the ten slots in physical order is what a reader can read. */
    method GetBufferSize() returns (size: nat)
      requires Valid()
      ensures size == |Contents(state.log)|
    {
      ghost var sizes := Sizes(Slots(state.log.commands, []));
      SlotSizes(Concrete(), state);
      SlotSizesSum(state.log.commands);
      var i := 0;
      size := 0;
      while i < SLOTS
        invariant 0 <= i <= SLOTS && size == Sum(sizes[..i])
      {
        SumPrefix(sizes, i);
        assert buffer.entry[..][i].size == sizes[i];
        size := size + buffer.entry[i].size;
        i := i + 1;
      }
      assert sizes[..i] == sizes;
    }

    method Llseek(f: OpenFile, off: int, whence: Whence, env: Env) returns (r: Outcome)
      requires Valid()
      modifies f
      ensures !env.lock ==> r == Restart && f.fPos == old(f.fPos)
      ensures env.lock ==>
        var size := |Contents(state.log)|;
        var target := match whence
          case SeekSet => off
          case SeekCur => old(f.fPos) + off
          case SeekEnd => size + off;
        if 0 <= target <= size || (whence.SeekCur? && off == 0)
        then r == Count(target) && f.fPos == target
        else r == Invalid && f.fPos == old(f.fPos)
    {
      if !env.lock {
        return Restart;
      }
      var size := GetBufferSize();
      r := FixedSizeLlseek(f, off, whence, size);
    }

    /** The sizes of the slots before this one. */
    method SizeBefore(writeCmd: nat) returns (offset: nat)
      requires Valid() && writeCmd < SLOTS
      ensures offset == Sum(Sizes(Slots(state.log.commands, []))[..writeCmd])
    {
      ghost var sizes := Sizes(Slots(state.log.commands, []));
      SlotSizes(Concrete(), state);
      var i := 0;
      offset := 0;
      while i < writeCmd
        invariant 0 <= i <= writeCmd && offset == Sum(sizes[..i])
      {
        SumPrefix(sizes, i);
        assert buffer.entry[..][i].size == sizes[i];
        offset := offset + buffer.entry[i].size;
        i := i + 1;
      }
    }

    /** The seek request: to byte `writeCmdOffset` of slot `writeCmd`. */
    method AdjustFileOffset(f: OpenFile, writeCmd: nat, writeCmdOffset: nat, env: Env) returns (r: Outcome)
      requires Valid()
      modifies f
      ensures writeCmd >= SLOTS ==> r == Invalid && f.fPos == old(f.fPos)
      ensures writeCmd < SLOTS && !env.lock ==> r == Restart && f.fPos == old(f.fPos)
      ensures writeCmd < SLOTS && env.lock ==>
        match SeekTarget(state.log.commands, writeCmd, writeCmdOffset)
        case None => r == Invalid && f.fPos == old(f.fPos)
        case Some(pos) => r == Count(0) && f.fPos == pos
    {
      if writeCmd >= SLOTS {
        return Invalid;
      }
      if !env.lock {
        return Restart;
      }
      ghost var sizes := Sizes(Slots(state.log.commands, []));
      SlotSizes(Concrete(), state);
      assert buffer.entry[..][writeCmd].size == sizes[writeCmd];
      if writeCmdOffset >= buffer.entry[writeCmd].size {
        return Invalid;
      }
      var size := GetBufferSize();
      var offset := SizeBefore(writeCmd);
      offset := offset + writeCmdOffset;
      SeekLandsInside(state.log.commands, writeCmd, writeCmdOffset, 1);
      r := FixedSizeLlseek(f, offset, SeekSet, size);
      if r.Count? {
        r := Count(0);
      }
    }

    /** Frees what the slots point to. */
    method FreeSlots(ghost owners: Owners)
      requires mem.Valid() && SlotsOwn(mem.heap, owners, buffer.entry[..])
      modifies mem
      ensures forall p :: p in mem.heap <==> p in owners && owners[p] == Nobody
    {
      ghost var entries := buffer.entry[..];
      var i := 0;
      while i < SLOTS
        invariant 0 <= i <= SLOTS && mem.Valid()
        invariant forall p :: p in mem.heap <==>
                    p in owners && (owners[p] == Nobody || (owners[p].Slot? && owners[p].i >= i))
      {
        assert buffer.entry[i] == entries[i];
        if buffer.entry[i].buffptr != NULL {
          mem.Kfree(buffer.entry[i].buffptr);
        }
        i := i + 1;
      }
    }

    /** Module exit frees every buffer the device still points to, each once; what was leaked stays. */
    method Cleanup()
      requires Valid()
      modifies mem
      ensures mem.heap.Keys == leaked
      ensures mem.heap == map[] <==> state.leaks == 0
    {
      ghost var f := Concrete();
      WithoutPending(f, state);
      if tmpBuffSize > 0 {
        mem.Kfree(tmpBuffPtr);
      }
      assert f.heap - {NULL} == f.heap;
      FreeSlots(owners);
      NobodysAreLeaked(f, state, mem.heap);
    }
  }

  // ----- The device from loading to unloading

  /** A write asked for, and what it meets. */
  datatype Call = Call(chunk: seq<byte>, env: Env)

  /** These calls, with what memory happened to hold. */
  predicate Made(calls: seq<Call>, events: seq<WriteEvent>) {
    && |events| == |calls|
    && forall i :: 0 <= i < |calls| ==> events[i].chunk == calls[i].chunk && events[i].env == calls[i].env
  }

  /** Any writes, one after another. */
  method RunWrites(dev: Device, f: OpenFile, calls: seq<Call>) returns (ghost events: seq<WriteEvent>)
    requires dev.Valid()
    modifies dev, f, dev.buffer, dev.buffer.entry, dev.mem
    ensures dev.Valid() && Made(calls, events)
    ensures dev.state == Run(old(dev.state), events)
  {
    ghost var s := dev.state;
    events := [];
    var i := 0;
    while i < |calls|
      invariant 0 <= i <= |calls| && dev.Valid()
      invariant Made(calls[..i], events) && dev.state == Run(s, events)
    {
      var r, e := dev.Write(f, calls[i].chunk, calls[i].env);
      RunSnoc(s, events, e);
      events := events + [e];
      i := i + 1;
    }
    assert calls[..i] == calls;
  }

  /** Whatever was written and whatever failed: memory is left behind by unloading exactly if some write leaked,
      and the log was that of the successful writes if none of them spoilt it. */
  method Lifetime(calls: seq<Call>) returns (dev: Device, ghost events: seq<WriteEvent>)
    ensures Made(calls, events) && dev.state == Run(INITIAL, events)
    ensures dev.mem.heap == map[] <==> !SomeWriteLeaks(INITIAL, events)
    ensures !SomeWriteSpoils(INITIAL, events) ==> dev.state.log == AcceptAll(EMPTY_LOG, Accepted(events))
  {
    dev := new Device();
    var f := new OpenFile();
    events := RunWrites(dev, f, calls);
    NothingLeaksIff(INITIAL, events);
    if !SomeWriteSpoils(INITIAL, events) {
      UnspoiltRun(INITIAL, events);
    }
    dev.Cleanup();
  }
}
