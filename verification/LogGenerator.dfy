/** The writing side of the shared log memory. */
module LogGenerator {
  import opened Arithmetic
  import opened Bytes
  import opened Sequences
  import opened LogBlocks
  import opened LogWindow
  import opened LogMemory

  /** The lock at the start of the shared memory. */
  class InterprocessMutex {
    var held: bool

    constructor ()
      ensures !held
    {
      held := false;
    }

    method TryLock() returns (ok: bool)
      modifies this
      ensures ok == !old(held) && held
    {
      ok := !held;
      held := true;
    }

    /** Blocks until the lock is free, so it is free when the call goes through. */
    method Lock()
      requires !held
      modifies this
      ensures held
    {
      held := true;
    }

    method Unlock()
      requires held
      modifies this
      ensures !held
    {
      held := false;
    }
  }

  /** Every block of the ring but the one at `cur` is as `ring` says. */
  ghost predicate HoldsBut(mem: seq<byte>, ring: seq<Piece>, cur: nat)
    requires |ring| * BLOCK <= |mem|
  {
    forall j :: 0 <= j < |ring| && j != cur ==> BlockHolds(Block(mem, j), ring[j])
  }

  /** Memory while entry `e` is written from block `start` on: its first `k` blocks are in place,
      block `k` at `cur` has its header, and its data is still to be stored unless `bytes` is 0. */
  ghost predicate Writing(mem: seq<byte>, ring: seq<Piece>, start: nat, e: Entry, k: nat, cur: nat,
                          rest: seq<byte>, bytes: nat)
    requires start < |ring| && |ring| * BLOCK <= |mem|
  {
    && k < e.Size()
    && cur == (start + k) % |ring|
    && SlackIsZero(mem, |ring|)
    && HoldsBut(mem, Put(ring, start, Pieces(e)[..k]), cur)
    && HeaderHolds(Block(mem, cur), Piece(e, k))
    && (bytes > 0 ==> e.data[..ChunkStart(k)] + rest == e.data && bytes == |Chunk(e.data, k)|)
    && (bytes == 0 ==> k == e.Size() - 1 && BlockHolds(Block(mem, cur), Piece(e, k)))
  }

  lemma SlackKept(mem: seq<byte>, mem': seq<byte>, j: nat, n: nat)
    requires n * BLOCK <= |mem| && SlackIsZero(mem, n) && SameOutside(mem, mem', j, n)
    ensures SlackIsZero(mem', n)
  {
    forall i | n * BLOCK <= i < |mem'| ensures mem'[i] == 0 {
      assert mem'[i] == mem'[n * BLOCK..][i - n * BLOCK] == mem[n * BLOCK..][i - n * BLOCK] == mem[i];
    }
  }

  lemma WritingStarts(mem: seq<byte>, mem': seq<byte>, ring: seq<Piece>, start: nat, e: Entry)
    requires start < |ring| && |ring| * BLOCK <= |mem|
    requires Represents(mem, ring) && SlackIsZero(mem, |ring|) && SameOutside(mem, mem', start, |ring|)
    requires HeaderHolds(Block(mem', start), Piece(e, 0))
    ensures Writing(mem', ring, start, e, 0, start, e.data, Min(|e.data|, FIRST))
  {
    RemainderIsUnique(start, |ring|, 0, start);
    SlackKept(mem, mem', start, |ring|);
    BlocksCoverData(|e.data|, 0);
    assert Put(ring, start, Pieces(e)[..0]) == ring;
    assert e.data[..0] + e.data == e.data;
    assert |e.data| == 0 ==> Chunk(e.data, 0) == [];
  }

  lemma DataStored(b: seq<byte>, p: Piece)
    requires |b| == BLOCK && p.Piece? && p.WellFormed() && HeaderHolds(b, p)
    ensures DataOffset(p.k) + |Chunk(p.entry.data, p.k)| <= BLOCK
    ensures BlockHolds(Splice(b, DataOffset(p.k), Chunk(p.entry.data, p.k)), p)
  {
    ChunkFits(p.entry.data, p.k);
    var off := DataOffset(p.k);
    var b' := Splice(b, off, Chunk(p.entry.data, p.k));
    SpliceSlices(b, off, Chunk(p.entry.data, p.k));
    assert forall i :: 0 <= i < off ==> b'[i] == b'[..off][i] == b[..off][i] == b[i];
    assert HeaderHolds(b', p);
  }

  lemma RestHoldsChunk(data: seq<byte>, k: nat, rest: seq<byte>, bytes: nat)
    requires k < NumBlocks(|data|) && data[..Min(|data|, ChunkStart(k))] + rest == data
    requires ChunkStart(k) <= |data| && bytes == |Chunk(data, k)|
    ensures bytes <= |rest| && rest[..bytes] == Chunk(data, k)
    ensures ChunkStart(k) + bytes == ChunkEnd(|data|, k)
    ensures data[..ChunkStart(k) + bytes] + rest[bytes..] == data
    ensures k + 1 < NumBlocks(|data|) <==> rest[bytes..] != []
    ensures k + 1 < NumBlocks(|data|) ==>
              ChunkStart(k) + bytes == ChunkStart(k + 1) && |Chunk(data, k + 1)| == Min(|rest[bytes..]|, OTHER)
  {
    BlocksCoverData(|data|, k);
    BlocksCoverData(|data|, k + 1);
    RestMoves(data, ChunkStart(k), rest, bytes);
  }

  lemma RestMoves(data: seq<byte>, a: nat, rest: seq<byte>, bytes: nat)
    requires a <= |data| && data[..a] + rest == data && a + bytes <= |data|
    ensures rest[..bytes] == data[a..a + bytes] && data[..a + bytes] + rest[bytes..] == data
  {
    assert rest == (data[..a] + rest)[a..];
    SubSlice(data, a, |data|, 0, bytes);
    SubSlice(data, a, |data|, bytes, |data| - a);
  }

  lemma ReadyToStore(mem: seq<byte>, ring: seq<Piece>, start: nat, e: Entry, k: nat, cur: nat,
                     rest: seq<byte>, bytes: nat)
    requires start < |ring| && |ring| * BLOCK <= |mem|
    requires Writing(mem, ring, start, e, k, cur, rest, bytes) && bytes > 0
    ensures cur < |ring| && bytes <= |rest|
    ensures rest[..bytes] == Chunk(e.data, k) && DataOffset(k) + bytes <= BLOCK
    ensures k + 1 < e.Size() <==> rest[bytes..] != []
    ensures k + 1 < e.Size() ==>
              && e.data[..ChunkStart(k + 1)] + rest[bytes..] == e.data
              && |Chunk(e.data, k + 1)| == Min(|rest[bytes..]|, OTHER)
  {
    BlocksCoverData(|e.data|, k);
    RestHoldsChunk(e.data, k, rest, bytes);
    ChunkFits(e.data, k);
  }

  /** Storing the last chunk completes the entry. */
  lemma WritingEnds(mem: seq<byte>, mem': seq<byte>, ring: seq<Piece>, start: nat, e: Entry, k: nat, cur: nat,
                    rest: seq<byte>, bytes: nat)
    requires start < |ring| && |ring| * BLOCK <= |mem| && |mem| == |mem'|
    requires Writing(mem, ring, start, e, k, cur, rest, bytes) && bytes > 0
    requires SameOutside(mem, mem', cur, |ring|)
    requires Block(mem', cur) == Splice(Block(mem, cur), DataOffset(k), Chunk(e.data, k))
    requires k + 1 == e.Size()
    ensures Writing(mem', ring, start, e, k, cur, [], 0)
  {
    DataStored(Block(mem, cur), Piece(e, k));
    SlackKept(mem, mem', cur, |ring|);
    var r := Put(ring, start, Pieces(e)[..k]);
    forall j | 0 <= j < |r| && j != cur ensures BlockHolds(Block(mem', j), r[j]) {
      assert Block(mem, j) == Block(mem', j);
    }
  }

  /** Storing a chunk that is not the last, and the zero header of the next block. */
  lemma WritingSteps(mem: seq<byte>, mem': seq<byte>, mem'': seq<byte>, ring: seq<Piece>, start: nat, e: Entry,
                     k: nat, cur: nat, rest: seq<byte>, bytes: nat)
    requires start < |ring| && |ring| * BLOCK <= |mem| && |mem| == |mem'| == |mem''|
    requires Writing(mem, ring, start, e, k, cur, rest, bytes) && bytes > 0 && bytes <= |rest|
    requires SameOutside(mem, mem', cur, |ring|)
    requires Block(mem', cur) == Splice(Block(mem, cur), DataOffset(k), Chunk(e.data, k))
    requires SameOutside(mem', mem'', Next(cur, |ring|), |ring|)
    requires Block(mem'', Next(cur, |ring|))[..CONT] == Encode(0, CONT)
    requires k + 1 < e.Size()
    requires e.data[..ChunkStart(k + 1)] + rest[bytes..] == e.data
    ensures Writing(mem'', ring, start, e, k + 1, Next(cur, |ring|), rest[bytes..], |Chunk(e.data, k + 1)|)
  {
    var n := |ring|;
    var next := Next(cur, n);
    DataStored(Block(mem, cur), Piece(e, k));
    SlackKept(mem, mem', cur, n);
    SlackKept(mem', mem'', next, n);
    AdvanceOne(start, k, n);
    var r, ps := Put(ring, start, Pieces(e)[..k]), Pieces(e)[..k + 1];
    assert ps[..k] == Pieces(e)[..k];
    var r' := Put(ring, start, ps);
    PutLast(ring, start, ps, cur);
    forall j | 0 <= j < n && j != next ensures BlockHolds(Block(mem'', j), r'[j]) {
      assert Block(mem'', j) == Block(mem', j);
      if j != cur {
        assert Block(mem', j) == Block(mem, j);
      }
    }
    BlocksCoverData(|e.data|, k + 1);
  }

  lemma WritingDone(mem: seq<byte>, ring: seq<Piece>, start: nat, e: Entry, k: nat, cur: nat, rest: seq<byte>)
    requires start < |ring| && |ring| * BLOCK <= |mem|
    requires Writing(mem, ring, start, e, k, cur, rest, 0)
    ensures Represents(mem, Put(ring, start, Pieces(e))) && SlackIsZero(mem, |ring|)
  {
    assert Pieces(e)[..k] == Pieces(e)[..|Pieces(e)| - 1];
    assert Put(ring, start, Pieces(e)) == Put(ring, start, Pieces(e)[..k])[cur := Piece(e, k)];
  }

  /** Zeroed memory is the log of the empty history. */
  lemma BlankLog(mem: seq<byte>, n: nat)
    requires 0 < n && n * BLOCK <= |mem| && forall i :: 0 <= i < |mem| ==> mem[i] == 0
    ensures Represents(mem, RingAfter([], n)) && SlackIsZero(mem, n) && Cursor([], n) == 0
  {
    BlankIsRepresented(mem, n);
    RemainderIsUnique(0, n, 0, 0);
  }

  class Generator {
    const mutex: InterprocessMutex
    const shm: array<byte>
    const numLogEntries: nat
    var currentLogEntry: nat
    /** The entries whose write was not dropped, in write order. */
    ghost var history: seq<Entry>

    ghost predicate Valid()
      reads this, shm
    {
      && numLogEntries > 0 && numLogEntries * BLOCK <= shm.Length
      && currentLogEntry == Cursor(history, numLogEntries)
      && Represents(shm[..], RingAfter(history, numLogEntries))
      && SlackIsZero(shm[..], numLogEntries)
    }

    /** `size` is the size of the shared memory without its lock. */
    constructor (size: nat)
      requires size >= BLOCK
      ensures Valid() && fresh(shm) && fresh(mutex) && !mutex.held
      ensures shm.Length == size && numLogEntries == size / BLOCK && history == []
    {
      mutex := new InterprocessMutex();
      shm := new byte[size](_ => 0);
      numLogEntries := size / BLOCK;
      currentLogEntry := 0;
      history := [];
      new;
      BlankLog(shm[..], numLogEntries);
    }

    /** Stores `s` at offset `off` of block `j`. */
    method Store(j: nat, off: nat, s: seq<byte>)
      requires numLogEntries * BLOCK <= shm.Length && j < numLogEntries && off + |s| <= BLOCK
      modifies shm
      ensures SameOutside(old(shm[..]), shm[..], j, numLogEntries)
      ensures Block(shm[..], j) == Splice(old(Block(shm[..], j)), off, s)
    {
      SpliceInBlock(shm[..], numLogEntries, j, off, s);
      CopyBytes(s, shm, j * BLOCK + off);
    }

    /** Marks block `j` as one that is no head. */
    method MarkContinuation(j: nat)
      requires numLogEntries * BLOCK <= shm.Length && j < numLogEntries
      modifies shm
      ensures SameOutside(old(shm[..]), shm[..], j, numLogEntries)
      ensures Block(shm[..], j)[..CONT] == Encode(0, CONT)
    {
      SpliceSlices(Block(shm[..], j), 0, Encode(0, CONT));
      Store(j, 0, Encode(0, CONT));
    }

    method StoreHead(j: nat, ghost e: Entry, num: nat, tag: seq<byte>, level: seq<byte>, stamp: TimeStamp)
      requires numLogEntries * BLOCK <= shm.Length && j < numLogEntries
      requires num == e.Size() && e.tag == tag && e.level == level && e.stamp == stamp
      modifies shm
      ensures SameOutside(old(shm[..]), shm[..], j, numLogEntries)
      ensures HeaderHolds(Block(shm[..], j), Piece(e, 0))
    {
      Store(j, 0, Encode(num % WORD, CONT));
      Store(j, SEC, EncodeSigned(stamp.sec));
      Store(j, USEC, EncodeSigned(stamp.usec));
      Store(j, TAG, StrN(tag, 16));
      Store(j, LEVEL, StrN(level, 8));
    }

    /** One round of the copy loop: stores the data of the current block and, if more is left,
        moves on to the next block and marks it as a continuation. */
    method StoreChunk(cur: nat, rest: seq<byte>, bytes: nat, dataOff: nat,
                      ghost ring: seq<Piece>, ghost start: nat, ghost e: Entry, ghost k: nat)
      returns (cur': nat, rest': seq<byte>, bytes': nat, dataOff': nat, ghost k': nat)
      requires start < numLogEntries == |ring| && numLogEntries * BLOCK <= shm.Length
      requires bytes > 0 && dataOff == DataOffset(k)
      requires Writing(shm[..], ring, start, e, k, cur, rest, bytes)
      modifies shm
      ensures bytes <= |rest| && rest' == rest[bytes..] && dataOff' == DataOffset(k')
      ensures Writing(shm[..], ring, start, e, k', cur', rest', bytes')
    {
      ghost var before := shm[..];
      ReadyToStore(before, ring, start, e, k, cur, rest, bytes);
      Store(cur, dataOff, rest[..bytes]);
      ghost var stored := shm[..];
      cur', dataOff', k' := cur, dataOff, k;
      rest' := rest[bytes..];
      bytes' := Min(|rest'|, OTHER);
      if bytes' > 0 {
        cur' := (cur + 1) % numLogEntries;
        MarkContinuation(cur');
        dataOff' := CONT;
        WritingSteps(before, stored, shm[..], ring, start, e, k, cur, rest, bytes);
        k' := k + 1;
      } else {
        WritingEnds(before, stored, ring, start, e, k, cur, rest, bytes);
      }
    }

    /** Lays an entry's blocks round the ring from block `start` on. */
    method StoreEntry(start: nat, num: nat, buf: seq<byte>, tag: seq<byte>, level: seq<byte>, stamp: TimeStamp,
                      ghost ring: seq<Piece>)
      requires start < numLogEntries == |ring| && numLogEntries * BLOCK <= shm.Length
      requires num == NumBlocks(|buf|)
      requires Represents(shm[..], ring) && SlackIsZero(shm[..], numLogEntries)
      modifies shm
      ensures Represents(shm[..], Put(ring, start, Pieces(Entry(buf, stamp, tag, level))))
      ensures SlackIsZero(shm[..], numLogEntries)
    {
      ghost var e := Entry(buf, stamp, tag, level);
      var cur: nat := start;
      StoreHead(cur, e, num, tag, level, stamp);
      WritingStarts(old(shm[..]), shm[..], ring, start, e);
      ghost var k := 0;
      var rest := buf;
      var dataOff := HEAD;
      var bytesToWrite: nat := Min(|rest|, FIRST);
      while bytesToWrite > 0
        invariant dataOff == DataOffset(k)
        invariant Writing(shm[..], ring, start, e, k, cur, rest, bytesToWrite)
        decreases bytesToWrite > 0, |rest|
      {
        cur, rest, bytesToWrite, dataOff, k :=
          StoreChunk(cur, rest, bytesToWrite, dataOff, ring, start, e, k);
      }
      WritingDone(shm[..], ring, start, e, k, cur, rest);
    }

    /** Writes an entry of one or more blocks, or drops it when the lock is taken. */
    method DoWriteData(buf: seq<byte>, tag: seq<byte>, level: seq<byte>, stamp: TimeStamp)
      requires Valid()
      modifies this, shm, mutex
      ensures Valid()
      ensures mutex.held == old(mutex.held)
      ensures old(mutex.held) ==>
                history == old(history) && currentLogEntry == old(currentLogEntry) && shm[..] == old(shm[..])
      ensures !old(mutex.held) ==> history == old(history) + [Entry(buf, stamp, tag, level)]
    {
      var ok := mutex.TryLock();
      if !ok {
        return;
      }
      var num := 1 + if |buf| > FIRST then CeilDivide(|buf| - FIRST, OTHER) else 0;
      var start := currentLogEntry;
      currentLogEntry := (currentLogEntry + num) % numLogEntries;
      StoreEntry(start, num, buf, tag, level, stamp, RingAfter(history, numLogEntries));
      mutex.Unlock();
      ghost var e := Entry(buf, stamp, tag, level);
      CursorAdvances(history, e, numLogEntries);
      history := history + [e];
      assert Front(history) == old(history) && Last(history) == e;
    }

    /** Logs a message: the text goes out with its terminating NUL. */
    method WriteData(text: seq<byte>, tag: seq<byte>, level: seq<byte>, stamp: TimeStamp)
      requires Valid()
      modifies this, shm, mutex
      ensures Valid()
      ensures mutex.held == old(mutex.held)
      ensures old(mutex.held) ==>
                history == old(history) && currentLogEntry == old(currentLogEntry) && shm[..] == old(shm[..])
      ensures !old(mutex.held) ==> history == old(history) + [Entry(text + [0], stamp, tag, level)]
    {
      DoWriteData(text + [0], tag, level, stamp);
    }
  }
}
