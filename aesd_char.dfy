/** The read and write paths of the AESD character driver (aesd-char-driver/main.c)
    over the single global circular buffer of write commands. */
module AesdChar {
  import opened AesdCircularBuffer

  /** '\n', the byte that ends a write command. */
  const NEWLINE: Byte := 10

  /** The kernel's ENOMEM error number; aesd_write returns its negation. */
  const ENOMEM: int := 12

  /** Whether a received chunk holds a newline (the strchr test of aesd_write). */
  predicate HasNewline(chunk: seq<Byte>) {
    NEWLINE in chunk
  }

  /** What the driver keeps of the bytes `received` by aesd_write: the commands in
      `history` are well formed and each holds a newline, and they, end to end,
      followed by the accumulator `acc`, are exactly the bytes received. */
  ghost predicate Accounted(history: seq<Entry>, acc: seq<Byte>, received: seq<Byte>) {
    AllWellFormed(history) &&
    (forall i :: 0 <= i < |history| ==> HasNewline(Bytes(history[i]))) &&
    Stream(history) + acc == received
  }

  /** A chunk without a newline only grows the accumulator: nothing is lost. */
  lemma AccumulateKeeps(history: seq<Entry>, acc: seq<Byte>, received: seq<Byte>, buf: seq<Byte>)
    requires Accounted(history, acc, received)
    ensures Accounted(history, acc + buf, received + buf)
  {
  }

  /** A chunk with a newline turns accumulator and chunk into one command: still
      nothing lost, and the new command holds the chunk's newline. */
  lemma CommitKeeps(history: seq<Entry>, acc: seq<Byte>, received: seq<Byte>, buf: seq<Byte>)
    requires Accounted(history, acc, received) && HasNewline(buf)
    ensures var command := acc + buf;
            Accounted(history + [Entry(Some(command), |command|)], [], received + buf)
  {
    var command := acc + buf;
    var added := Entry(Some(command), |command|);
    StreamConcat(history, [added]);
    assert Stream([added]) == command + Stream([]);
    assert buf == command[|acc|..];
    assert HasNewline(Bytes(added));
    assert (history + [added])[|history|] == added;
  }

  /** struct aesd_dev with the write accumulator of main.c: the global final_buffptr
      and the static final_count of aesd_write, of which the first final_count bytes
      are the part of a command received so far. */
  class AesdDevice {
    var buffer: CircularBuffer
    var finalBuffptr: seq<Byte>
    var finalCount: nat
    /** Every byte handed to aesd_write so far, in order. */
    ghost var Received: seq<Byte>

    /** The bytes of the command being assembled. */
    ghost function Accumulated(): seq<Byte>
      reads this
      requires finalCount <= |finalBuffptr|
    {
      finalBuffptr[..finalCount]
    }

    /** The device's invariant: a valid ring, every command ever added well formed and
        holding a newline, and no received byte lost or repeated: the commands added,
        end to end, followed by the accumulator, are exactly what was received. */
    ghost predicate Valid()
      reads this, buffer, buffer.entry
    {
      buffer.Valid() &&
      finalCount <= |finalBuffptr| &&
      Accounted(buffer.History, Accumulated(), Received)
    }

    /** The part of aesd_init_module that sets up the buffer and the accumulator: an
        initialised ring and a 4-byte final_buffptr whose contents are never read. */
    constructor Init()
      ensures Valid() && fresh(buffer) && fresh(buffer.entry)
      ensures buffer.History == [] && finalCount == 0 && Received == []
    {
      buffer := new CircularBuffer.Init();
      finalBuffptr := [0, 0, 0, 0];
      finalCount := 0;
      Received := [];
    }

    /** aesd_read: serve at most one entry's worth of bytes from file position fPos.
        Returns the byte count, the bytes copied to the user, and the new *f_pos. */
    method Read(fPos: nat, count: nat) returns (retval: nat, data: seq<Byte>, newFPos: nat)
      requires Valid()
      ensures newFPos == fPos + retval && |data| == retval && retval <= count
      ensures match Locate(buffer.Live(), fPos)
              case None => retval == 0
              case Some((k, o)) =>
                k < |buffer.Live()| && o < buffer.Live()[k].size &&
                retval == Min(count, buffer.Live()[k].size - o) &&
                data == Bytes(buffer.Live()[k])[o..o + retval]
      ensures retval > 0 ==> fPos + retval <= |Stream(buffer.Live())| &&
                             data == Stream(buffer.Live())[fPos..fPos + retval]
      ensures retval == 0 <==> count == 0 || fPos >= TotalSize(buffer.Live())
    {
      ghost var live := buffer.Live();
      LastNWellFormed(buffer.History, N);
      LocateSound(live, fPos);
      StreamLength(live);

      var entryOffset: nat := 0;
      var readEntry, off := buffer.FindEntryOffsetForFpos(fPos, entryOffset);
      entryOffset := off;
      if readEntry.None? {
        return 0, [], fPos;
      }
      ghost var (k, o) := Locate(live, fPos).value;
      var e := buffer.entry[readEntry.value];

      var bytesToRead := e.size - entryOffset;
      if bytesToRead < count {
      } else {
        bytesToRead := count;
      }
      // copy_to_user
      data := e.buffptr.value[entryOffset..entryOffset + bytesToRead];
      newFPos := fPos + bytesToRead;
      retval := bytesToRead;
      StreamSlice(live, fPos, k, o, retval);
    }

    /** aesd_write: append the chunk to the accumulator; once a chunk holds a newline,
        the whole accumulator (chunk included, bytes after the newline too) becomes one
        new entry, the entry it evicts (`freed`) is released, and the accumulator
        starts over. `entryAllocOk` is whether kmalloc of the new entry succeeds. */
    method Write(buf: seq<Byte>, entryAllocOk: bool) returns (retval: int, ghost freed: Option<seq<Byte>>)
      requires Valid()
      modifies this, buffer, buffer.entry
      ensures Valid() && buffer == old(buffer) && buffer.entry == old(buffer.entry)
      ensures Received == old(Received) + buf
      ensures !(HasNewline(buf) && entryAllocOk) ==>
                finalCount == old(finalCount) + |buf| &&
                Accumulated() == old(Accumulated()) + buf &&
                unchanged(buffer) && unchanged(buffer.entry) && freed == None
      ensures !HasNewline(buf) ==> retval == |buf|
      ensures HasNewline(buf) && !entryAllocOk ==> retval == -ENOMEM
      ensures HasNewline(buf) && entryAllocOk ==>
                var command := old(Accumulated()) + buf;
                var added := Entry(Some(command), |command|);
                retval == |command| && finalCount == 0 &&
                buffer.History == old(buffer.History) + [added] &&
                buffer.Live() == (if old(buffer.full) then old(buffer.Live())[1..]
                                  else old(buffer.Live())) + [added] &&
                freed == (if old(buffer.full) then old(buffer.Live())[0].buffptr else None)
    {
      freed := None;
      ghost var acc := Accumulated();
      if !HasNewline(buf) {
        // krealloc to final_count + count, then memcpy the chunk after the old bytes
        finalBuffptr := finalBuffptr[..finalCount] + buf;
        finalCount := finalCount + |buf|;
        Received := Received + buf;
        assert Accumulated() == acc + buf;
        AccumulateKeeps(buffer.History, acc, old(Received), buf);
        retval := |buf|;
        return;
      }

      finalBuffptr := finalBuffptr[..finalCount] + buf;
      finalCount := finalCount + |buf|;
      Received := Received + buf;
      assert Accumulated() == acc + buf == finalBuffptr;

      if !entryAllocOk {
        AccumulateKeeps(buffer.History, acc, old(Received), buf);
        retval := -ENOMEM;
      } else {
        CommitKeeps(buffer.History, acc, old(Received), buf);
        var writeEntry := Entry(Some(finalBuffptr[..finalCount]), finalCount);
        var overwrittenBuffptr := buffer.AddEntry(writeEntry);
        // kfree of the evicted command's bytes
        freed := overwrittenBuffptr;
        retval := finalCount;
        finalCount := 0;
        assert Accumulated() == [];
      }
    }
  }
}
