/**
  The AESD character driver's circular history buffer: a ring of
  `capacity` entry slots, a write index `inOffs`, the index of the oldest
  entry `outOffs` and a `full` flag. Locking is the caller's business, so
  every operation here is sequential.
 */
module AesdCircularBuffer {
  import opened BufferEntries

  /** Reduction modulo n of a value below 2n subtracts n at most once. */
  lemma WrapOnce(x: nat, n: nat)
    requires 0 < n && x < 2 * n
    ensures x % n == if x < n then x else x - n
  {
    if x < n {
      assert x == n * 0 + x;
    } else {
      assert x == n * 1 + (x - n);
    }
  }

  /**
    The entries a ring holds, oldest first: when full, the slots from
    outOffs round to the end and back to outOffs; otherwise slots
    0 .. inOffs - 1.
   */
  function RingView(slots: seq<Entry>, inOffs: nat, outOffs: nat, full: bool): seq<Entry>
    requires inOffs <= |slots| && outOffs <= |slots|
  {
    if full then slots[outOffs..] + slots[..outOffs] else slots[..inOffs]
  }

  /** The ring indices satisfy the buffer invariant. */
  predicate IndicesOk(n: nat, inOffs: nat, outOffs: nat, full: bool)
  {
    && inOffs < n && outOffs < n
    && (!full ==> outOffs == 0)
    && (full ==> inOffs == outOffs)
  }

  /** Adding to a ring that is not full appends to its view; the last free slot makes it full. */
  lemma RingViewAddNotFull(slots: seq<Entry>, k: nat, e: Entry)
    requires k < |slots|
    ensures k + 1 < |slots| ==> RingView(slots[k := e], k + 1, 0, false) == RingView(slots, k, 0, false) + [e]
    ensures k + 1 == |slots| ==> RingView(slots[k := e], 0, 0, true) == RingView(slots, k, 0, false) + [e]
  {
    var slots' := slots[k := e];
    assert slots'[..k + 1] == slots[..k] + [e];
    if k + 1 == |slots| {
      assert slots' == slots'[..k + 1];
    }
  }

  /** Adding to a full ring overwrites the oldest entry: the view loses its head and gains e. */
  lemma RingViewAddFull(slots: seq<Entry>, k: nat, e: Entry)
    requires k < |slots|
    ensures k + 1 < |slots| ==> RingView(slots[k := e], k + 1, k + 1, true) == (RingView(slots, k, k, true) + [e])[1..]
    ensures k + 1 == |slots| ==> RingView(slots[k := e], 0, 0, true) == (RingView(slots, k, k, true) + [e])[1..]
  {
    var slots' := slots[k := e];
    var before := RingView(slots, k, k, true);
    assert before == [slots[k]] + slots[k + 1..] + slots[..k];
    if k + 1 == |slots| {
      assert slots' == slots[..k] + [e];
      assert slots[k + 1..] == [];
    } else {
      assert slots'[k + 1..] == slots[k + 1..];
      assert slots'[..k + 1] == slots[..k] + [e];
    }
  }

  /**
    Writing e into slot inOffs and advancing the indices as add_entry does
    keeps the invariant and appends e to the ring's view, dropping the
    oldest entry once n entries are held.
   */
  lemma RingViewAdd(slots: seq<Entry>, inOffs: nat, outOffs: nat, full: bool, e: Entry)
    requires IndicesOk(|slots|, inOffs, outOffs, full)
    ensures var n := |slots|;
      var in' := (inOffs + 1) % n;
      var out' := if full then (outOffs + 1) % n else outOffs;
      var full' := full || in' == out';
      && IndicesOk(n, in', out', full')
      && RingView(slots[inOffs := e], in', out', full') == Keep(RingView(slots, inOffs, outOffs, full) + [e], n)
  {
    WrapOnce(inOffs + 1, |slots|);
    WrapOnce(outOffs + 1, |slots|);
    if full {
      RingViewAddFull(slots, inOffs, e);
    } else {
      RingViewAddNotFull(slots, inOffs, e);
    }
  }

  /** Where a character offset was found: the slot of the entry, and the byte inside it. */
  datatype Found = Found(slot: nat, offset: nat)

  class CircularBuffer {
    /** Number of slots; the indices are 8-bit, hence the bound 255. */
    const capacity: nat
    /** The slots themselves, part of the structure. */
    const entry: array<Entry>
    var inOffs: nat
    var outOffs: nat
    var full: bool

    /** Every entry added since the last Init, oldest first. */
    ghost var Added: seq<Entry>

    /** The storage exists and both indices point into it. */
    ghost predicate Shape()
      reads this
    {
      && 0 < capacity <= 255
      && entry.Length == capacity
      && inOffs < capacity
      && outOffs < capacity
    }

    /**
      The buffer invariant: when not full the valid slots are 0 .. inOffs - 1,
      when full the write index has caught up with the oldest one, and the
      valid entries are the newest `capacity` of everything added.
     */
    ghost predicate Valid()
      reads this, entry
    {
      && Shape()
      && IndicesOk(capacity, inOffs, outOffs, full)
      && ValidEntries() == Keep(Added, capacity)
    }

    /** Number of valid entries. */
    function Count(): nat
      reads this
    {
      if full then capacity else inOffs
    }

    /** The valid entries, oldest first: the ring read from outOffs round to the write index. */
    ghost function ValidEntries(): (r: seq<Entry>)
      reads this, entry
      requires Shape()
      ensures |r| == Count()
    {
      RingView(entry[..], inOffs, outOffs, full)
    }

    /**
      The slot holding the i-th valid entry, counting from the oldest:
      i steps on from outOffs, wrapping round the end of the array once.
     */
    ghost function Slot(i: nat): nat
      reads this
    {
      if outOffs + i < capacity then outOffs + i else outOffs + i - capacity
    }

    /** A position among the valid entries, translated to a slot of the ring. */
    ghost function AtSlot(h: Option<Hit>): Option<Found>
      reads this
    {
      match h
      case None => None
      case Some(Hit(i, o)) => Some(Found(Slot(i), o))
    }

    /**
      The slot the search visits at step idx: the idx-th slot after
      outOffs when the ring is full, slot idx itself otherwise. It holds
      the idx-th valid entry.
     */
    method EntryIndex(idx: nat) returns (k: nat)
      requires Valid()
      requires idx < Count()
      ensures k == Slot(idx) < capacity
      ensures entry[k] == ValidEntries()[idx]
    {
      k := if full then (outOffs + idx) % capacity else idx;
      WrapOnce(outOffs + idx, capacity);
    }

    /** Allocates the storage; its contents are unspecified until Init. */
    constructor (n: nat)
      requires 0 < n <= 255
      ensures capacity == n && entry.Length == n && fresh(entry)
    {
      capacity := n;
      entry := new Entry[n];
    }

    /** Empties the buffer: every slot and every field becomes zero. */
    method Init()
      requires 0 < capacity <= 255 && entry.Length == capacity
      modifies this, entry
      ensures Valid()
      ensures inOffs == 0 && outOffs == 0 && !full
      ensures forall k :: 0 <= k < entry.Length ==> entry[k] == Empty
      ensures Added == [] && ValidEntries() == []
    {
      var i := 0;
      while i < entry.Length
        invariant 0 <= i <= entry.Length
        invariant forall k :: 0 <= k < i ==> entry[k] == Empty
      {
        entry[i] := Empty;
        i := i + 1;
      }
      inOffs, outOffs, full := 0, 0, false;
      Added := [];
    }

    /**
      Stores an entry in slot inOffs, dropping the oldest one when the ring
      is full. `None` stands for a null entry pointer, which changes nothing.
     */
    method AddEntry(addEntry: Option<Entry>)
      requires Valid()
      modifies this, entry
      ensures Valid()
      ensures addEntry.None? ==> unchanged(this) && unchanged(entry)
      ensures addEntry.Some? ==>
        && entry[..] == old(entry[..])[old(inOffs) := addEntry.value]
        && inOffs == (old(inOffs) + 1) % capacity
        && outOffs == (if old(full) then (old(outOffs) + 1) % capacity else old(outOffs))
        && full == (old(full) || inOffs == outOffs)
        && Count() == (if old(Count()) < capacity then old(Count()) + 1 else capacity)
        && Added == old(Added) + [addEntry.value]
        && ValidEntries() == Keep(old(ValidEntries()) + [addEntry.value], capacity)
    {
      if addEntry.None? {
        return;
      }
      var e := addEntry.value;
      ghost var slots := entry[..];
      RingViewAdd(slots, inOffs, outOffs, full, e);
      KeepAppend(Added, e, capacity);
      entry[inOffs] := e;
      if full {
        outOffs := (outOffs + 1) % capacity;
      }
      inOffs := (inOffs + 1) % capacity;
      if inOffs == outOffs {
        full := true;
      }
      Added := Added + [e];
      assert entry[..] == slots[old(inOffs) := e];
    }

    /**
      Maps charOffset, a position in the concatenation of the valid
      entries taken oldest first, to the slot holding that character and
      the byte offset inside it; None when charOffset is past the end.
     */
    method Find(charOffset: nat) returns (r: Option<Found>)
      requires Valid()
      ensures r.None? <==> charOffset >= TotalSize(ValidEntries())
      ensures r.Some? ==>
        && r.value.slot < capacity
        && Usable(entry[r.value.slot])
        && r.value.offset < entry[r.value.slot].size
      ensures r == AtSlot(Locate(ValidEntries(), charOffset))
    {
      ghost var v := ValidEntries();
      var running: nat := 0;
      var count := Count();
      var idx := 0;
      while idx < count
        invariant idx <= count == |v|
        invariant running == TotalSize(v[..idx]) <= charOffset
      {
        var entryIndex := EntryIndex(idx);
        var e := entry[entryIndex];
        TotalSizeStep(v, idx);
        if !e.present || e.size == 0 {
          idx := idx + 1;
          continue;
        }
        if charOffset < running + e.size {
          LocateAt(v, charOffset, idx, running);
          return Some(Found(entryIndex, charOffset - running));
        }
        running := running + e.size;
        idx := idx + 1;
      }
      assert v[..idx] == v;
      LocateNone(v, charOffset);
      return None;
    }
  }

  /** Holds the value behind a `size_t *` out-parameter. */
  class SizeCell {
    var value: nat

    constructor (v: nat)
      ensures value == v
    {
      value := v;
    }
  }

  /**
    The driver's entry point for the offset search: null buffer or null
    out-pointer give None; otherwise the search of CircularBuffer.Find,
    whose byte offset is written to the out-pointer only when found.
    The result is the slot of the entry found.
   */
  method FindEntryOffsetForFpos(buffer: CircularBuffer?, charOffset: nat, entryOffsetByteRtn: SizeCell?)
    returns (r: Option<nat>)
    requires buffer != null ==> buffer.Valid()
    modifies entryOffsetByteRtn
    ensures buffer == null || entryOffsetByteRtn == null ==> r.None?
    ensures r.None? && entryOffsetByteRtn != null ==> entryOffsetByteRtn.value == old(entryOffsetByteRtn.value)
    ensures buffer != null && entryOffsetByteRtn != null ==>
      && (r.None? <==> charOffset >= TotalSize(buffer.ValidEntries()))
      && (r.Some? ==>
            buffer.AtSlot(Locate(buffer.ValidEntries(), charOffset))
              == Some(Found(r.value, entryOffsetByteRtn.value)))
  {
    if buffer == null || entryOffsetByteRtn == null {
      return None;
    }
    var found := buffer.Find(charOffset);
    match found
    case None =>
      r := None;
    case Some(Found(slot, offset)) =>
      entryOffsetByteRtn.value := offset;
      r := Some(slot);
  }
}
