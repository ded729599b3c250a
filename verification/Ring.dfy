/** The ten-slot circular buffer (aesd-circular-buffer.c), updated in place. */
module Ring {
  import opened Sequences
  import opened CommandLog
  import opened KernelMemory

  /** A slot: a pointer to allocated bytes and how many of them are used. */
  datatype Entry = Entry(buffptr: Ptr, size: nat)

  const UNUSED := Entry(NULL, 0)

  function EntrySizes(entries: seq<Entry>): (sizes: seq<nat>)
    ensures |sizes| == |entries|
  {
    seq(|entries|, i requires 0 <= i < |entries| => entries[i].size)
  }

  /** Not full: the oldest entry is in slot 0 and slots from `inOffs` on are unused.  Full: reading starts
      where the next entry will go.  `Slots` says which entry each slot holds. */
  ghost predicate Holds(entries: seq<Entry>, inOffs: nat, outOffs: nat, full: bool, history: seq<Entry>) {
    && inOffs == Wrap(|history|)
    && full == (|history| >= SLOTS)
    && outOffs == (if full then inOffs else 0)
    && entries == Slots(history, UNUSED)
  }

  lemma HoldsStep(entries: seq<Entry>, inOffs: nat, outOffs: nat, full: bool, history: seq<Entry>, e: Entry)
    requires Holds(entries, inOffs, outOffs, full, history)
    ensures inOffs < SLOTS
    ensures var wraps := inOffs + 1 == SLOTS;
      var next := if wraps then 0 else inOffs + 1;
      Holds(entries[inOffs := e], next, if wraps || full then next else outOffs, wraps || full, history + [e])
    ensures entries[inOffs] == if full then Newest(history)[0] else UNUSED
  {
    SlotsStep(history, e, UNUSED);
    SlotIndexStep(|history|, inOffs);
    SlotContents(history, UNUSED, inOffs);
  }

  /** Walking from `outOffs`, modulo ten, reads the newest entries oldest first. */
  lemma WalkReadsNewest(entries: seq<Entry>, inOffs: nat, outOffs: nat, full: bool, history: seq<Entry>, k: nat)
    requires Holds(entries, inOffs, outOffs, full, history)
    requires k < if full then SLOTS else inOffs
    ensures |Newest(history)| == if full then SLOTS else inOffs
    ensures entries[Wrap(outOffs + k)] == Newest(history)[k]
  {
    WalkIsOldestFirst(history, UNUSED, k);
  }

  class CircularBuffer {
    const entry: array<Entry>
    var inOffs: nat
    var outOffs: nat
    var full: bool

    /** Every entry ever added since the buffer was last initialised. */
    ghost var history: seq<Entry>

    ghost predicate Valid()
      reads this, entry
    {
      Holds(entry[..], inOffs, outOffs, full, history)
    }

    constructor ()
      ensures Valid() && history == [] && fresh(entry)
    {
      entry := new Entry[SLOTS](_ => UNUSED);
      inOffs, outOffs, full := 0, 0, false;
      history := [];
      new;
      assert entry[..] == Slots([], UNUSED);
    }

    /** Zeroes the whole structure. */
    method Init()
      requires entry.Length == SLOTS
      modifies this, entry
      ensures Valid() && history == []
    {
      forall i | 0 <= i < entry.Length {
        entry[i] := UNUSED;
      }
      inOffs, outOffs, full := 0, 0, false;
      history := [];
      assert entry[..] == Slots([], UNUSED);
    }

    /** Stores an entry in slot `inOffs` and returns the pointer it overwrote: null until the buffer is
        full, the oldest stored entry's from then on. */
    method AddEntry(e: Entry) returns (rptr: Ptr)
      requires Valid()
      modifies this, entry
      ensures Valid()
      ensures history == old(history) + [e]
      ensures old(inOffs) < entry.Length
      ensures entry[..] == old(entry[..])[old(inOffs) := e]
      ensures rptr == old(entry[inOffs].buffptr)
      ensures rptr == if old(full) then Newest(old(history))[0].buffptr else NULL
    {
      HoldsStep(entry[..], inOffs, outOffs, full, history, e);
      rptr := entry[inOffs].buffptr;
      entry[inOffs] := e;
      history := history + [e];
      inOffs := inOffs + 1;
      if inOffs == SLOTS {
        full := true;
        inOffs := 0;
      }
      if full {
        outOffs := inOffs;
      }
    }

    /** The slot and the byte within it for a position in the concatenation of the stored entries, oldest
        first. */
    method FindEntryOffsetForFpos(charOffset: nat) returns (found: Option<(nat, nat)>)
      requires Valid()
      ensures match Locate(EntrySizes(Newest(history)), charOffset)
        case None => found == None
        case Some((k, b)) =>
          && k < |Newest(history)|
          && found == Some((Wrap(outOffs + k), b))
          && entry[..][Wrap(outOffs + k)] == Newest(history)[k]
    {
      var entryCount := if full then SLOTS else inOffs;
      ghost var w, sizes := Newest(history), EntrySizes(Newest(history));
      assert |w| == entryCount;
      var rest: nat := charOffset;
      var i := 0;
      while i < entryCount
        invariant 0 <= i <= entryCount
        invariant charOffset == Sum(sizes[..i]) + rest
      {
        WalkReadsNewest(entry[..], inOffs, outOffs, full, history, i);
        var slot := Wrap(outOffs + i);
        assert entry[..][slot] == w[i];
        if rest < entry[slot].size {
          LocateInvertsPosition(sizes, i, rest);
          return Some((slot, rest));
        }
        SumPrefix(sizes, i);
        rest := rest - entry[slot].size;
        i := i + 1;
      }
      assert sizes[..i] == sizes;
      PositionInvertsLocate(sizes, charOffset);
      return None;
    }
  }
}
