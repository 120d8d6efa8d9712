/** How a log entry is cut into the fixed-size blocks of the log memory. */
module LogBlocks {
  import opened Bytes

  /** Geometry of a block where `unsigned int` has 4 bytes and `time_t` and `microseconds` have 8. */
  const BLOCK := 512
  const HEAD := 48
  const CONT := 4
  const FIRST := BLOCK - HEAD
  const OTHER := BLOCK - CONT
  const WORD := 0x1_0000_0000

  datatype TimeStamp = TimeStamp(sec: int, usec: int) {
    predicate After(other: TimeStamp) {
      sec > other.sec || (sec == other.sec && usec > other.usec)
    }

    predicate Representable() {
      -0x8000_0000_0000_0000 <= sec < 0x8000_0000_0000_0000 &&
      -0x8000_0000_0000_0000 <= usec < 0x8000_0000_0000_0000
    }
  }

  datatype Entry = Entry(data: seq<byte>, stamp: TimeStamp, tag: seq<byte>, level: seq<byte>) {
    /** What a logger hands over: NUL-terminated text and names that fit their fields. */
    predicate Printable() {
      && |data| > 0 && data[|data| - 1] == 0 && 0 !in data[..|data| - 1]
      && |tag| < 16 && 0 !in tag
      && |level| < 8 && 0 !in level
      && stamp.Representable()
    }

    function Text(): seq<byte>
      requires |data| > 0
    {
      data[..|data| - 1]
    }

    function Size(): (n: nat)
      ensures n > 0
    {
      NumBlocks(|data|)
    }
  }

  function CeilDivide(a: nat, b: nat): nat
    requires b > 0
  {
    (a + b - 1) / b
  }

  function NumBlocks(len: nat): (n: nat)
    ensures n > 0
  {
    1 + if len > FIRST then CeilDivide(len - FIRST, OTHER) else 0
  }

  /** Where the data of block `k` of an entry begins in the entry's data. */
  function ChunkStart(k: nat): nat {
    if k == 0 then 0 else FIRST + (k - 1) * OTHER
  }

  function Min(a: int, b: int): int {
    if a <= b then a else b
  }

  function ChunkEnd(len: nat, k: nat): nat {
    Min(len, ChunkStart(k + 1))
  }

  /** The computed number of blocks is exactly the number of nonempty chunks (an entry
      without data still takes its head block). */
  lemma BlocksCoverData(len: nat, k: nat)
    ensures k < NumBlocks(len) <==> k == 0 || ChunkStart(k) < len
    ensures k < NumBlocks(len) ==> ChunkStart(k) <= ChunkEnd(len, k)
    ensures k + 1 < NumBlocks(len) ==> ChunkEnd(len, k) == ChunkStart(k + 1)
    ensures k + 1 == NumBlocks(len) ==> ChunkEnd(len, k) == len
  {
  }

  function Chunk(data: seq<byte>, k: nat): (c: seq<byte>)
    requires k < NumBlocks(|data|)
  {
    BlocksCoverData(|data|, k);
    data[ChunkStart(k)..ChunkEnd(|data|, k)]
  }

  function DataOffset(k: nat): nat {
    if k == 0 then HEAD else CONT
  }

  lemma ChunkFits(data: seq<byte>, k: nat)
    requires k < NumBlocks(|data|)
    ensures DataOffset(k) + |Chunk(data, k)| <= BLOCK
    ensures k + 1 < NumBlocks(|data|) ==> DataOffset(k) + |Chunk(data, k)| == BLOCK
  {
    BlocksCoverData(|data|, k);
  }

  /** The data carried by the first `k` blocks. */
  function Carried(data: seq<byte>, k: nat): seq<byte>
    requires k <= NumBlocks(|data|)
  {
    if k == 0 then [] else Carried(data, k - 1) + Chunk(data, k - 1)
  }

  lemma {:induction false} CarriedIsPrefix(data: seq<byte>, k: nat)
    requires k <= NumBlocks(|data|)
    ensures Carried(data, k) == data[..Min(|data|, ChunkStart(k))]
  {
    if k > 0 {
      CarriedIsPrefix(data, k - 1);
      BlocksCoverData(|data|, k - 1);
      var a, b := ChunkStart(k - 1), ChunkEnd(|data|, k - 1);
      assert data[..b] == data[..a] + data[a..b];
    }
  }

  /** Joining the chunks of all blocks gives the data back. */
  lemma {:induction false} ChunksJoinToData(data: seq<byte>)
    ensures Carried(data, NumBlocks(|data|)) == data
  {
    var n := NumBlocks(|data|);
    CarriedIsPrefix(data, n);
    BlocksCoverData(|data|, n);
    assert data[..|data|] == data;
  }
}
