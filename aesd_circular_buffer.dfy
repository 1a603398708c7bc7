/** The circular buffer of aesd-char-driver/aesd-circular-buffer.c: a fixed ring of
    the last N write commands, read as one flat byte stream, oldest command first. */
module AesdCircularBuffer {

  type Byte = bv8

  datatype Option<T> = None | Some(value: T)

  /** AESDCHAR_MAX_WRITE_OPERATIONS_SUPPORTED, the number of slots in the ring. */
  const N: nat := 10

  /** struct aesd_buffer_entry: the command's bytes (None for a NULL buffptr) and its size. */
  datatype Entry = Entry(buffptr: Option<seq<Byte>>, size: nat)

  /** The all-zero entry that aesd_circular_buffer_init leaves in every slot. */
  const Empty: Entry := Entry(None, 0)

  /** An entry whose buffptr holds exactly `size` bytes, as every entry the driver adds. */
  predicate WellFormed(e: Entry) {
    e.buffptr.Some? && |e.buffptr.value| == e.size
  }

  predicate AllWellFormed(es: seq<Entry>) {
    forall i :: 0 <= i < |es| ==> WellFormed(es[i])
  }

  /** The bytes an entry points to; none for a NULL buffptr. */
  function Bytes(e: Entry): seq<Byte> {
    match e.buffptr
    case None => []
    case Some(b) => b
  }

  /** `n` never-written slots. */
  function Blank(n: nat): seq<Entry> {
    seq(n, _ => Empty)
  }

  function Min(a: nat, b: nat): nat {
    if a <= b then a else b
  }

  // ---------------------------------------------------------------------------
  // The flat byte stream and the offset translation, on sequences of entries
  // ---------------------------------------------------------------------------

  /** The sum of the sizes of `es`: the length of the stream they make up. */
  function TotalSize(es: seq<Entry>): nat {
    if es == [] then 0 else es[0].size + TotalSize(es[1..])
  }

  /** The bytes of `es`, end to end, oldest first. */
  function Stream(es: seq<Entry>): seq<Byte> {
    if es == [] then [] else Bytes(es[0]) + Stream(es[1..])
  }

  /** Reference definition of the offset translation: the first entry of `es` whose
      byte range [before, before + size) contains `offset`, where `before` is the total
      size of the entries ahead of it, paired with `offset - before`. */
  function Locate(es: seq<Entry>, offset: nat): Option<(nat, nat)> {
    if es == [] then None
    else if offset < es[0].size then Some((0, offset))
    else match Locate(es[1..], offset - es[0].size)
      case None => None
      case Some((k, o)) => Some((k + 1, o))
  }

  /** The entries the ring keeps out of the history `h` of added entries: the last
      `cap` of them, oldest first. */
  function LastN(h: seq<Entry>, cap: nat): seq<Entry> {
    if |h| <= cap then h else h[|h| - cap..]
  }

  lemma {:induction false} TotalSizeConcat(a: seq<Entry>, b: seq<Entry>)
    ensures TotalSize(a + b) == TotalSize(a) + TotalSize(b)
  {
    if a == [] {
      assert a + b == b;
    } else {
      assert (a + b)[1..] == a[1..] + b;
      TotalSizeConcat(a[1..], b);
    }
  }

  /** Extending a prefix by one entry adds that entry's size. */
  lemma TotalSizePrefix(es: seq<Entry>, i: nat)
    requires i < |es|
    ensures TotalSize(es[..i + 1]) == TotalSize(es[..i]) + es[i].size
  {
    assert es[..i + 1] == es[..i] + [es[i]];
    TotalSizeConcat(es[..i], [es[i]]);
    assert [es[i]][1..] == [];
  }

  /** Locate finds an entry exactly when the offset lies inside the stream, and what it
      finds is an entry holding the offset, with the sizes ahead of it adding up. */
  lemma {:induction false} LocateSound(es: seq<Entry>, offset: nat)
    ensures Locate(es, offset).None? <==> offset >= TotalSize(es)
    ensures Locate(es, offset).Some? ==>
              var (k, o) := Locate(es, offset).value;
              k < |es| && o < es[k].size && offset == TotalSize(es[..k]) + o
  {
    if es == [] {
    } else if offset < es[0].size {
      assert es[..0] == [];
    } else {
      LocateSound(es[1..], offset - es[0].size);
      match Locate(es[1..], offset - es[0].size)
      case None =>
      case Some((k, o)) =>
        assert es[..k + 1][1..] == es[1..][..k];
    }
  }

  /** Conversely, any position inside an entry is found there: the translation is
      one-to-one between stream offsets and (entry, offset within entry) pairs. */
  lemma {:induction false} LocateExact(es: seq<Entry>, k: nat, o: nat)
    requires k < |es| && o < es[k].size
    ensures Locate(es, TotalSize(es[..k]) + o) == Some((k, o))
  {
    if k == 0 {
      assert es[..0] == [];
    } else {
      assert es[..k][1..] == es[1..][..k - 1];
      LocateExact(es[1..], k - 1, o);
    }
  }

  lemma {:induction false} BlankSize(n: nat)
    ensures TotalSize(Blank(n)) == 0
  {
    if n > 0 {
      assert Blank(n)[1..] == Blank(n - 1);
      BlankSize(n - 1);
    }
  }

  /** Never-written slots (size 0) after the live entries change neither the stream's
      length nor where any offset is found. */
  lemma BlankTail(es: seq<Entry>, n: nat, offset: nat)
    ensures TotalSize(es + Blank(n)) == TotalSize(es)
    ensures Locate(es + Blank(n), offset) == Locate(es, offset)
  {
    BlankSize(n);
    TotalSizeConcat(es, Blank(n));
    LocateSound(es, offset);
    LocateSound(es + Blank(n), offset);
    if Locate(es, offset).Some? {
      var (k, o) := Locate(es, offset).value;
      assert (es + Blank(n))[..k] == es[..k];
      LocateExact(es + Blank(n), k, o);
    }
  }

  lemma {:induction false} StreamConcat(a: seq<Entry>, b: seq<Entry>)
    ensures Stream(a + b) == Stream(a) + Stream(b)
  {
    if a == [] {
      assert a + b == b;
    } else {
      assert (a + b)[1..] == a[1..] + b;
      StreamConcat(a[1..], b);
    }
  }

  /** For well-formed entries the stream is exactly TotalSize bytes long. */
  lemma {:induction false} StreamLength(es: seq<Entry>)
    requires AllWellFormed(es)
    ensures |Stream(es)| == TotalSize(es)
  {
    if es != [] {
      StreamLength(es[1..]);
    }
  }

  /** Reading `n` bytes of the entry Locate finds, from the offset it finds, reads the
      stream itself from `offset` on. */
  lemma StreamSlice(es: seq<Entry>, offset: nat, k: nat, o: nat, n: nat)
    requires AllWellFormed(es)
    requires Locate(es, offset) == Some((k, o)) && k < |es| && o + n <= es[k].size
    ensures offset + n <= |Stream(es)|
    ensures Stream(es)[offset..offset + n] == Bytes(es[k])[o..o + n]
  {
    LocateSound(es, offset);
    assert es == es[..k] + [es[k]] + es[k + 1..];
    StreamConcat(es[..k] + [es[k]], es[k + 1..]);
    StreamConcat(es[..k], [es[k]]);
    assert Stream([es[k]]) == Bytes(es[k]) + Stream([]);
    StreamLength(es[..k]);
    StreamLength(es);
  }

  /** One more add: below capacity the new entry is kept beside all earlier ones; at
      capacity the oldest kept entry gives way to it. */
  lemma LastNAppend(h: seq<Entry>, e: Entry, cap: nat)
    requires cap > 0
    ensures LastN(h + [e], cap) ==
              if |h| < cap then h + [e] else LastN(h, cap)[1..] + [e]
    ensures |LastN(h + [e], cap)| == Min(|h| + 1, cap)
  {
    if |h| >= cap {
      assert (h + [e])[|h| + 1 - cap..] == h[|h| - cap..][1..] + [e];
    }
  }

  /** The entries kept are among those added, so they are well formed if those are. */
  lemma LastNWellFormed(h: seq<Entry>, cap: nat)
    requires AllWellFormed(h)
    ensures AllWellFormed(LastN(h, cap))
  {
    if |h| > cap {
      forall i | 0 <= i < cap ensures WellFormed(LastN(h, cap)[i]) {
        assert LastN(h, cap)[i] == h[|h| - cap + i];
      }
    }
  }

  // ---------------------------------------------------------------------------
  // The ring's slots, walked from out_offs
  // ---------------------------------------------------------------------------

  /** The slots `s` in the order find walks them: from `start` to the end, then from
      the front back up to `start`. */
  function Rotate(s: seq<Entry>, start: nat): seq<Entry>
    requires start <= |s|
  {
    s[start..] + s[..start]
  }

  lemma RotateAt(s: seq<Entry>, start: nat, k: nat)
    requires |s| == N && start < N && k < N
    ensures Rotate(s, start)[k] == s[(start + k) % N]
  {
    if start + k >= N {
      assert (start + k) % N == start + k - N;
    }
  }

  lemma StepIndex(a: nat)
    ensures (a % N + 1) % N == (a + 1) % N
  {
  }

  /** How the slots, in_offs, out_offs and full of a ring relate to the history `h` of
      entries added since init: in_offs counts the adds modulo N; out_offs stays 0
      until the ring first fills and then follows in_offs; walking from out_offs one
      meets the last N entries added, oldest first, and then only slots that init
      zeroed and nothing has written since. */
  ghost predicate RingHolds(s: seq<Entry>, inOffs: nat, outOffs: nat, full: bool, h: seq<Entry>) {
    |s| == N && inOffs < N && outOffs < N &&
    full == (|h| >= N) &&
    inOffs == |h| % N &&
    outOffs == (if full then inOffs else 0) &&
    Rotate(s, outOffs) == LastN(h, N) + Blank(N - |LastN(h, N)|)
  }

  /** aesd_circular_buffer_add_entry keeps the relation: write slot in_offs, advance
      in_offs, advance out_offs when full, and set full once they meet. */
  lemma AddKeepsRing(s: seq<Entry>, inOffs: nat, outOffs: nat, full: bool, h: seq<Entry>, e: Entry)
    requires RingHolds(s, inOffs, outOffs, full, h)
    ensures var inOffs' := (inOffs + 1) % N;
            var outOffs' := if full then (outOffs + 1) % N else outOffs;
            RingHolds(s[inOffs := e], inOffs', outOffs', full || inOffs' == outOffs', h + [e])
  {
    var s' := s[inOffs := e];
    LastNAppend(h, e, N);
    if full {
      var live := LastN(h, N);
      assert |live| == N && Rotate(s, inOffs) == live;
      assert live[1..] == s[inOffs + 1..] + s[..inOffs];
      if inOffs + 1 < N {
        assert s'[inOffs + 1..] == s[inOffs + 1..];
        assert s'[..inOffs + 1] == s[..inOffs] + [e];
        assert Rotate(s', inOffs + 1) == live[1..] + [e];
      } else {
        assert s' == s[..inOffs] + [e];
        assert Rotate(s', 0) == s';
      }
    } else {
      assert s == Rotate(s, 0) == h + Blank(N - |h|);
      assert s' == h + [e] + Blank(N - |h| - 1);
      assert Rotate(s', 0) == s';
    }
  }

  // ---------------------------------------------------------------------------
  // struct aesd_circular_buffer
  // ---------------------------------------------------------------------------

  class CircularBuffer {
    var entry: array<Entry>
    /** Where the next entry goes. */
    var inOffs: nat
    /** The oldest entry, where reading starts. */
    var outOffs: nat
    var full: bool
    /** Every entry added since init, oldest first. */
    ghost var History: seq<Entry>

    /** The entries the ring holds, oldest first. */
    ghost function Live(): seq<Entry>
      reads this
    {
      LastN(History, N)
    }

    /** The slot `k` places after out_offs, wrapping around: the order find walks. */
    function WalkIndex(k: nat): nat
      reads this
    {
      (outOffs + k) % N
    }

    ghost predicate Valid()
      reads this, entry
    {
      entry.Length == N && RingHolds(entry[..], inOffs, outOffs, full, History)
    }

    /** aesd_circular_buffer_init on a freshly allocated buffer: everything zero. */
    constructor Init()
      ensures Valid() && fresh(entry)
      ensures inOffs == 0 && outOffs == 0 && !full
      ensures forall i :: 0 <= i < entry.Length ==> entry[i] == Empty
      ensures History == [] && Live() == []
    {
      entry := new Entry[N](_ => Empty);
      inOffs, outOffs, full := 0, 0, false;
      History := [];
      new;
      assert Rotate(entry[..], 0) == entry[..] == Blank(N);
    }

    /** aesd_circular_buffer_add_entry: store the entry at in_offs; when the ring was
        full, the oldest entry is overwritten and its buffptr handed back to the
        caller, who owns it from then on. */
    method AddEntry(addEntry: Entry) returns (buffptrRemoved: Option<seq<Byte>>)
      requires Valid()
      modifies this, entry
      ensures Valid() && entry == old(entry)
      ensures History == old(History) + [addEntry]
      ensures entry[..] == old(entry[..])[old(inOffs) := addEntry]
      ensures inOffs == (old(inOffs) + 1) % N
      ensures outOffs == if old(full) then (old(outOffs) + 1) % N else old(outOffs)
      ensures full == (old(full) || inOffs == outOffs)
      ensures buffptrRemoved == if old(full) then old(entry[outOffs].buffptr) else None
      ensures old(full) ==> buffptrRemoved == old(Live())[0].buffptr
      ensures Live() == if old(full) then old(Live())[1..] + [addEntry]
                        else old(Live()) + [addEntry]
    {
      ghost var s := entry[..];
      AddKeepsRing(s, inOffs, outOffs, full, History, addEntry);
      LastNAppend(History, addEntry, N);
      if full {
        assert Rotate(s, outOffs)[0] == s[outOffs];
      }

      buffptrRemoved := None;
      if full {
        buffptrRemoved := entry[outOffs].buffptr;
      }
      entry[inOffs] := addEntry;
      inOffs := (inOffs + 1) % N;
      if full {
        outOffs := (outOffs + 1) % N;
      }
      if inOffs == outOffs {
        full := true;
      }
      History := History + [addEntry];
      assert entry[..] == s[old(inOffs) := addEntry];
    }

    /** aesd_circular_buffer_find_entry_offset_for_fpos: walk all N slots from out_offs
        with a running total of sizes. `found` is the index of the slot (the returned
        pointer), and `entryOffset` is what ends up in *entry_offset_byte_rtn, which
        keeps the caller's `entryOffsetByteRtn` when nothing is found. */
    method FindEntryOffsetForFpos(charOffset: nat, entryOffsetByteRtn: nat)
      returns (found: Option<nat>, entryOffset: nat)
      requires Valid()
      ensures match Locate(Live(), charOffset)
              case None => found == None && entryOffset == entryOffsetByteRtn
              case Some((k, o)) =>
                found == Some(WalkIndex(k)) && entryOffset == o &&
                k < |Live()| && entry[WalkIndex(k)] == Live()[k]
      ensures found.None? <==> charOffset >= TotalSize(Live())
      ensures found.Some? ==> found.value < N && entryOffset < entry[found.value].size
    {
      ghost var live := Live();
      ghost var w := Rotate(entry[..], outOffs);
      BlankTail(live, N - |live|, charOffset);
      LocateSound(live, charOffset);

      var cumulativeOffset: nat := 0;
      var currentEntryIndex := outOffs;
      var i := 0;
      while i < N
        invariant 0 <= i <= N
        invariant currentEntryIndex == WalkIndex(i)
        invariant cumulativeOffset == TotalSize(w[..i])
        invariant charOffset >= cumulativeOffset
      {
        RotateAt(entry[..], outOffs, i);
        var currentEntry := entry[currentEntryIndex];
        if charOffset < cumulativeOffset + currentEntry.size {
          entryOffset := charOffset - cumulativeOffset;
          found := Some(currentEntryIndex);
          LocateExact(w, i, entryOffset);
          return;
        }
        TotalSizePrefix(w, i);
        StepIndex(outOffs + i);
        cumulativeOffset := cumulativeOffset + currentEntry.size;
        currentEntryIndex := (currentEntryIndex + 1) % N;
        i := i + 1;
      }
      assert w[..N] == w;
      found, entryOffset := None, entryOffsetByteRtn;
    }
  }
}
