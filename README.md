# AESD circular buffer, modelled in Dafny

The AESD character driver keeps the most recent writes in a fixed-capacity
ring. The ring has `AESDCHAR_MAX_WRITE_OPERATIONS_SUPPORTED` entry slots.
Each slot holds a buffer pointer and a size. Three fields track the ring:
`in_offs`, where the next entry goes; `out_offs`, the oldest entry; and
`full`. The driver's file position is a character offset into the valid
entries concatenated oldest first. `aesd_circular_buffer_find_entry_offset_for_fpos`
maps such an offset to the entry holding it and the byte inside that entry.

The project has two modules:

- `BufferEntries` (`buffer_entries.dfy`) is the pure specification.
  - An `Entry` is an abstract pair: is the pointer non-null, and the size.
  - `TotalSize` is the length of the concatenation.
  - `Locate` is a reference definition of the offset search.
  - `Holds` says what it means for an entry and a byte to hold character `c`.
  - `Keep` gives the newest `n` entries of a history.
- `AesdCircularBuffer` (`aesd_circular_buffer.dfy`) is the driver's structure.
  - `CircularBuffer` is a class. Its `entry` array and its fields `inOffs`,
    `outOffs` and `full` are updated in place.
  - Its methods are `Init` (`aesd_circular_buffer_init`), `AddEntry`
    (`aesd_circular_buffer_add_entry`) and `Find`, the search loop of
    `aesd_circular_buffer_find_entry_offset_for_fpos`. `EntryIndex` computes
    the slot that loop visits at each step.
  - `FindEntryOffsetForFpos` models the C entry point itself. It adds the
    null-pointer guards and the `size_t *` out-parameter, modelled as a
    `SizeCell` object.
  - The ghost field `Added` records every entry added since `Init`.

The buffer invariant `Valid()` holds four things:
- both indices lie below the capacity;
- not full implies `outOffs == 0`;
- full implies `inOffs == outOffs`;
- the valid entries, read from `outOffs` round the ring, are exactly the
  newest `capacity` entries of `Added`.

`Init` establishes the invariant and `AddEntry` preserves it. `Find` depends
on it: when the ring is not full, the search uses slot `idx` directly.

The capacity comes from `aesd-circular-buffer.h`, which is not part of this
model. It is a constant of each buffer object, `capacity`, with
`0 < capacity <= 255` because the source keeps the indices in `uint8_t`.
Below that bound the source's `(uint8_t)` casts never truncate.

## Model

| member | source | states |
|---|---|---|
| AesdCircularBuffer.CircularBuffer.Init | aesd-char-driver/aesd-circular-buffer.c:93-96 | Zeroing the structure leaves both indices 0, `full` false and every slot empty (null pointer, size 0). No entries are valid and the invariant holds. |
| AesdCircularBuffer.CircularBuffer.AddEntry | aesd-char-driver/aesd-circular-buffer.c:69-89 | A null entry pointer changes nothing. Otherwise: the entry is written into the old `in_offs` slot and every other slot is unchanged; `in_offs` advances by one modulo the capacity; `out_offs` advances by one only if the ring was full; `full` becomes true exactly when `in_offs` meets `out_offs` and stays true once set; the count of valid entries grows by one until it saturates at the capacity; the valid entries become the old ones plus the new entry, oldest dropped when over capacity; the invariant is preserved. |
| AesdCircularBuffer.RingViewAdd | aesd-char-driver/aesd-circular-buffer.c:74-88 | For any ring satisfying the index invariant, the slot write and index updates of add_entry keep the invariant. They also turn the ring's oldest-first view into the newest `n` of the old view plus the new entry. |
| AesdCircularBuffer.RingViewAddNotFull | aesd-char-driver/aesd-circular-buffer.c:75-88 | Adding to a ring that is not full appends the entry to the view. Filling the last free slot makes the whole array the view. |
| AesdCircularBuffer.RingViewAddFull | aesd-char-driver/aesd-circular-buffer.c:75-83 | Adding to a full ring overwrites the oldest entry. The view loses its first element and gains the new entry at the end. |
| BufferEntries.KeepAppend | aesd-char-driver/aesd-circular-buffer.c:63-65 | Keeping the newest `n` entries after every add equals keeping the newest `n` of the whole history. So the ring always holds the last `capacity` entries ever added. |
| BufferEntries.Keep | aesd-char-driver/aesd-circular-buffer.c:63-65 | The retained history is never longer than the capacity or the history. Its length is the capacity, or the whole history when that is shorter. |
| BufferEntries.KeepIsSuffix | aesd-char-driver/aesd-circular-buffer.c:63-65 | The retained entries are the last entries of the history, in the order they were added. |
| AesdCircularBuffer.CircularBuffer.ValidEntries | aesd-char-driver/aesd-circular-buffer.c:39-40 | The number of valid entries is `full ? capacity : in_offs`. |
| AesdCircularBuffer.CircularBuffer.EntryIndex | aesd-char-driver/aesd-circular-buffer.c:43-47 | The slot the search visits at step `idx` is `(out_offs + idx) % N` when full and `idx` otherwise. It lies in range, equals `out_offs + idx` wrapped once round the ring, and holds the `idx`-th valid entry counted from the oldest. |
| AesdCircularBuffer.CircularBuffer.Find | aesd-char-driver/aesd-circular-buffer.c:32-60 | The search returns nothing exactly when the offset is at least the total size of the valid entries. A returned slot lies in range, has a non-null pointer and a non-zero size, and the returned byte offset is below that size. The result is the position `Locate` gives, translated to a ring slot. |
| AesdCircularBuffer.FindEntryOffsetForFpos | aesd-char-driver/aesd-circular-buffer.c:29-61 | A null buffer or a null out-pointer gives NULL. Otherwise the result is NULL exactly when the offset is past the stored data; the out-value is written only on success, with the byte offset of the found slot. The buffer is never modified. |
| BufferEntries.LocateSound | aesd-char-driver/aesd-circular-buffer.c:49-55 | A found position is a usable entry among the valid ones. Its byte offset is below that entry's size and equals `char_offset` minus the total size of the earlier non-empty entries. |
| BufferEntries.LocateComplete | aesd-char-driver/aesd-circular-buffer.c:21-25 | Any entry and byte that hold character `char_offset` of the concatenation is the answer the search gives, so the answer is unique. |
| BufferEntries.LocateNone | aesd-char-driver/aesd-circular-buffer.c:26-27 | The search finds nothing if and only if `char_offset` is at least the total size of the valid entries. |
| BufferEntries.LocateAt | aesd-char-driver/aesd-circular-buffer.c:52-54 | When the earlier entries hold `running <= char_offset` bytes and `char_offset < running + size` for the current usable entry, that entry with byte `char_offset - running` is the search's answer, and the offset lies inside the stored data. |
| BufferEntries.TotalSizeAppend | aesd-char-driver/aesd-circular-buffer.c:52-57 | The running total over a concatenation of entry lists is the sum of the totals. Only non-null, non-empty entries contribute. |
| BufferEntries.Weight | aesd-char-driver/aesd-circular-buffer.c:49-50 | An entry contributes bytes exactly when its pointer is non-null and its size non-zero. It never contributes more than its size. |

## Left out

- The bytes behind `buffptr`, memory ownership and the `memset` byte layout. An entry is modelled as a pair: is the pointer non-null, and the size. Only those two are inspected.
- AesdCircularBuffer.CircularBuffer.AddEntry: the `buffer == NULL` guard of add_entry is not modelled, because a method's receiver is never null. The `add_entry == NULL` guard is modelled as `None`.
- AesdCircularBuffer.CircularBuffer.AddEntry: requires the buffer invariant, which `Init` establishes. The C code checks nothing, and on a structure with out-of-range indices it would index outside the array.
- AesdCircularBuffer.CircularBuffer.Find: requires the buffer invariant, as AddEntry does.
- AesdCircularBuffer.CircularBuffer.EntryIndex: requires the buffer invariant, as Find does. It is the index expression of the search loop, written as a method of its own.
- AesdCircularBuffer.CircularBuffer.constructor: allocates the slot array with unspecified contents. It stands for the driver allocating the structure, which is not part of this model; `Init` then zeroes it.
- `size_t` wrap-around of `running + entry->size` is not modelled. Sizes and offsets are unbounded naturals.
- Locking is the caller's job and is not modelled; all operations are sequential.
- `aesd-circular-buffer.h` (the capacity constant and the struct layout) is not part of this model. The capacity is a per-object constant bounded by 255.
- server/aesdsocket.c (sockets, signals, daemonisation, file I/O, syslog) is not modelled. Neither are examples/threading/threading.c (pthreads and timing) and finder-app/writer.c (a file-write wrapper). They are operating-system and I/O plumbing with no sequential algorithm to verify.
