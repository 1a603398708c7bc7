# AESD character driver: circular buffer of write commands

This project models the core of the AESD character driver (`aesdchar`) in Dafny and
proves properties of that model.

The device keeps the last `N` write commands in a fixed ring of slots. A write command
is the bytes written up to and including a write that holds a newline. Readers see the
ring as one flat byte stream, oldest command first, and address it by file position.

- `aesd_circular_buffer.dfy`, module `AesdCircularBuffer`, models
  `aesd-char-driver/aesd-circular-buffer.c`.
  - The ring is the class `CircularBuffer`. It holds an `array<Entry>` of `N = 10`
    slots (`AESDCHAR_MAX_WRITE_OPERATIONS_SUPPORTED`) and the fields `inOffs`,
    `outOffs` and `full`.
  - A ghost `History` records every entry added since init. `Live()`, the entries the
    ring holds oldest first, is the last `N` of them.
  - The invariant `RingHolds` ties the slots and indices to `History`:
    - `inOffs` counts the adds modulo `N`.
    - `outOffs` stays 0 until the ring first fills. After that it equals `inOffs`.
    - Walking from `outOffs` over all `N` slots, one meets the live entries, oldest
      first, and then only the zero entries that init left.
  - This last fact is what makes `find` correct, even though it never looks at `full`
    or `in_offs`.
  - Pure functions on entry sequences give the meaning of the operations:
    - `TotalSize`: the length of the stream.
    - `Stream`: the concatenated bytes.
    - `Locate`: a reference definition of the offset translation.
    - `LastN`: which entries are kept.
- `aesd_char.dfy`, module `AesdChar`, models the read and write paths of
  `aesd-char-driver/main.c`.
  - The class `AesdDevice` holds the ring and the write accumulator: `finalBuffptr`
    and `finalCount`, the global `final_buffptr` and the static `final_count`.
  - `Read` maps a file position to at most one entry's worth of bytes.
  - `Write` accumulates chunks until a chunk holds a newline. Then it adds the whole
    accumulation as one entry and releases the entry that the add evicts.
  - The device invariant `Accounted` says that no byte handed to `aesd_write` is lost
    or repeated: the commands added, end to end, followed by the accumulator, are
    exactly the bytes received.

Each driver operation is atomic in the model. The mutex is not modelled.

Points where the model follows the code as written:

- Bytes after the newline stay in the record. A write chunk that holds a newline
  becomes part of the record whole, including any bytes after the newline. Nothing is
  carried over to the next record (main.c:148-151, 160-162).
- An allocation failure keeps the bytes. When the allocation of the new entry fails,
  the chunk has already been appended to the accumulator. `final_count` keeps it and
  the call returns `-ENOMEM` (main.c:148-157). The bytes are then committed by the
  next write that holds a newline.
- The code has no `total_size`, `nth_record`, `clear` or command-addressed seek
  operation. None is modelled. `TotalSize` exists only as a specification function.

## Model

| member | source | states |
|---|---|---|
| `AesdCircularBuffer.TotalSizeConcat` | aesd-char-driver/aesd-circular-buffer.c:34-51 | The running total of sizes is additive: the total size of two runs of slots is the sum of their totals. |
| `AesdCircularBuffer.LocateSound` | aesd-char-driver/aesd-circular-buffer.c:18-56 | The offset translation finds an entry exactly when the offset is below the total size of all entries; otherwise it returns nothing ("not enough data is written"). When it finds entry `k` at offset `o`, then `o < size` of that entry and the offset equals the sizes of the entries before it plus `o`. |
| `AesdCircularBuffer.LocateExact` | aesd-char-driver/aesd-circular-buffer.c:34-52 | Conversely, every byte position inside entry `k` is found in entry `k`, at its offset within it. The translation is one-to-one. |
| `AesdCircularBuffer.BlankTail` | aesd-char-driver/aesd-circular-buffer.c:38-54 | Zero-size, never-written slots after the live entries change neither the total size nor where any offset is found. Walking all `N` slots therefore gives the same answer as walking only the live entries. |
| `AesdCircularBuffer.StreamLength` | aesd-char-driver/aesd-circular-buffer.c:18-27 | For well-formed entries, the concatenated byte stream is exactly as long as the total size. |
| `AesdCircularBuffer.StreamSlice` | aesd-char-driver/aesd-circular-buffer.c:18-27 | The entry and offset that the translation finds address the concatenated stream. The next `n` bytes of that entry, as long as they stay inside it, are the stream's bytes from the given offset on. |
| `AesdCircularBuffer.LastNAppend` | aesd-char-driver/aesd-circular-buffer.c:58-92 | One more add keeps all earlier entries while fewer than `N` were added. At capacity, the oldest kept entry gives way to the new one. `min(k, N)` entries are kept after `k` adds. |
| `AesdCircularBuffer.RotateAt` | aesd-char-driver/aesd-circular-buffer.c:35-50 | The `k`-th slot walked from `out_offs` is slot `(out_offs + k) mod N`. |
| `AesdCircularBuffer.AddKeepsRing` | aesd-char-driver/aesd-circular-buffer.c:65-93 | Writing slot `in_offs`, advancing `in_offs`, advancing `out_offs` when full, and setting `full` once the two meet keeps the ring invariant. Walking from `out_offs`, one meets the last `min(k, N)` entries added, oldest first, and then only size-0 slots; `full` holds exactly when `N` or more entries were added. |
| `AesdCircularBuffer.CircularBuffer.Init` | aesd-char-driver/aesd-circular-buffer.c:95-100 | After init, `in_offs == out_offs == 0` and `full` is false. Every slot is the zero entry: NULL `buffptr`, size 0. The ring holds nothing. |
| `AesdCircularBuffer.CircularBuffer.AddEntry` | aesd-char-driver/aesd-circular-buffer.c:58-93 | The new entry is stored at the old `in_offs` and no other slot changes. `in_offs` advances by one mod `N`. `out_offs` advances by one mod `N` only if the ring was full. `full` becomes true when `in_offs == out_offs` and is never cleared. The result is the old oldest entry's `buffptr` if the ring was full, NULL otherwise. The live entries become the old ones plus the new entry, minus the oldest when full. |
| `AesdCircularBuffer.CircularBuffer.FindEntryOffsetForFpos` | aesd-char-driver/aesd-circular-buffer.c:18-56 | The result is NULL exactly when `char_offset` is at least the total size of the live entries; then the caller's `*entry_offset_byte_rtn` is left as it was. Otherwise it is the slot that the reference translation names, walking from `out_offs`, with the offset within that entry, and the offset is below the entry's size. |
| `AesdChar.AccumulateKeeps` | aesd-char-driver/main.c:137-146 | Appending a chunk without a newline to the accumulator keeps every received byte accounted for. |
| `AesdChar.CommitKeeps` | aesd-char-driver/main.c:148-166 | Turning the accumulator plus a chunk that holds a newline into one entry, and emptying the accumulator, keeps every received byte accounted for. The new entry holds a newline and is well formed. |
| `AesdChar.AesdDevice.Init` | aesd-char-driver/main.c:222-226 | The device starts with an initialised, empty ring, an empty accumulator, and nothing received. |
| `AesdChar.AesdDevice.Read` | aesd-char-driver/main.c:59-104 | If no entry holds `*f_pos`, it returns 0 and leaves `*f_pos` unchanged. Otherwise it returns `min(count, size - entry_offset)` bytes of that one entry, starting at `entry_offset`. Those bytes are the flat stream's bytes from `*f_pos` on. `*f_pos` advances by exactly the count returned. The result is 0 only when `count` is 0 or the position is past the data. |
| `AesdChar.AesdDevice.Write` | aesd-char-driver/main.c:109-183 | Every chunk is appended to the accumulator. A chunk without a newline returns `count`, grows `final_count` by `count`, and leaves the ring untouched. A chunk with a newline adds one entry whose bytes are the accumulator plus the whole chunk, with size `final_count`. It then returns that total, resets `final_count` to 0, and releases the evicted entry's bytes (if any), which the ring no longer holds. If allocating the entry fails, it returns `-ENOMEM`, the bytes stay accumulated, and the ring is untouched. |

## Left out

- The NULL checks on `buffer`, `add_entry`, `entry_offset_byte_rtn` and `filp` are not modelled. Dafny references cannot be null, so these early returns (aesd-circular-buffer.c:31-33, 68-70; main.c:66-70) have no counterpart.
- The mutex is not modelled. Each read and write is one atomic step, so concurrent writers that interleave on the shared accumulator are not modelled. Two source defects around the lock are also outside the model:
  - the ignored result of `mutex_lock_interruptible` (main.c:72, 165);
  - the read path returning without unlocking when `copy_to_user` fails (main.c:89-93).
- `copy_to_user` and `copy_from_user` always succeed in the model. Their failure paths are left out.
- Allocation failures are left out except one: the allocation of the new entry (main.c:153-157), which `Write` takes as the parameter `entryAllocOk`. Left out are:
  - the failure of the temporary buffer (main.c:118-123);
  - a NULL `final_buffptr` (main.c:125-130);
  - `krealloc` failures;
  - the unchecked allocation of the entry's bytes (main.c:161).
- The `struct aesd_buffer_entry` that `aesd_write` allocates is copied into the ring and never freed (main.c:153, 166). This leak is not modelled, because the model has no allocator.
- `kfree` is modelled only as the ghost out-parameter `freed` of `Write`.
- The newline test is modelled as "some byte among the `count` bytes received is `'\n'`". The source calls `strchr` on a buffer that is not NUL-terminated. That call can read past `count` bytes, and it stops at a NUL byte that comes before the newline. Neither effect is modelled.
- Sizes, offsets and `final_count` are unbounded naturals. The model leaves out `size_t` overflow of `cumulative_offset` and `final_count`, and a negative `loff_t` file position.
- `aesd_write` never reads or moves `*f_pos`, so `Write` takes no position.
- `N` is fixed at 10 (`AESDCHAR_MAX_WRITE_OPERATIONS_SUPPORTED` in the reference system). The header that defines it is not part of this model.
- `CircularBuffer.Init` models init on freshly allocated memory, as the driver uses it (allocate, then zero the struct).
- The first contents of the 4-byte `final_buffptr` allocation are never read, and the model sets them to zero.
- These parts of the driver are not modelled, because they are kernel registration with no logic of their own:
  - `aesd_open` and `aesd_release`;
  - `aesd_setup_cdev`;
  - the rest of `aesd_init_module`;
  - `aesd_cleanup_module`, including freeing the live entries with `AESD_CIRCULAR_BUFFER_FOREACH`.
- These other programs are not modelled, because they are I/O and thread wrappers with no state of the core:
  - `server/aesdsocket.c`, the socket server;
  - `examples/systemcalls/systemcalls.c`;
  - `examples/threading/threading.c`;
  - `finder-app/writer.c`.
