/** The bytes of the log memory: block layout, and what it means for memory to hold a ring. */
module LogMemory {
  import opened Arithmetic
  import opened Bytes
  import opened Sequences
  import opened LogBlocks
  import opened LogWindow

  /** Offsets of the fields of a head block's header. */
  const SEC := 8
  const USEC := 16
  const TAG := 24
  const LEVEL := 40

  function EncodeSigned(x: int): (s: seq<byte>)
    ensures |s| == 8
  {
    Encode(x % 0x1_0000_0000_0000_0000, 8)
  }

  function DecodeSigned(s: seq<byte>): int {
    var d := Decode(s);
    if d >= 0x8000_0000_0000_0000 then d - 0x1_0000_0000_0000_0000 else d
  }

  lemma SizeOfLong()
    ensures Capacity(8) == 0x1_0000_0000_0000_0000
  {
    assert Capacity(2) == 0x1_0000;
    assert Capacity(4) == 0x1_0000_0000;
    assert Capacity(6) == 0x1_0000_0000_0000;
  }

  lemma SignedRoundTrip(x: int)
    requires -0x8000_0000_0000_0000 <= x < 0x8000_0000_0000_0000
    ensures DecodeSigned(EncodeSigned(x)) == x
  {
    var u := x % 0x1_0000_0000_0000_0000;
    assert u == if x < 0 then x + 0x1_0000_0000_0000_0000 else x;
    SizeOfLong();
    DecodeEncode(u, 8);
    RemainderIsUnique(u, Capacity(8), 0, u);
  }

  function Block(mem: seq<byte>, j: nat): (b: seq<byte>)
    requires (j + 1) * BLOCK <= |mem|
    ensures |b| == BLOCK
  {
    mem[j * BLOCK..(j + 1) * BLOCK]
  }

  /** The header of block `b` is the one written for piece `p`. */
  ghost predicate HeaderHolds(b: seq<byte>, p: Piece)
    requires |b| == BLOCK
  {
    && b[..CONT] == Encode(p.HeaderWord(), CONT)
    && (p.IsHead() ==>
          && b[SEC..USEC] == EncodeSigned(p.entry.stamp.sec)
          && b[USEC..TAG] == EncodeSigned(p.entry.stamp.usec)
          && b[TAG..LEVEL] == StrN(p.entry.tag, 16)
          && b[LEVEL..HEAD] == StrN(p.entry.level, 8))
  }

  ghost predicate DataHolds(b: seq<byte>, p: Piece)
    requires |b| == BLOCK && p.WellFormed()
  {
    p.Piece? ==>
      var c := Chunk(p.entry.data, p.k);
      ChunkFits(p.entry.data, p.k);
      b[DataOffset(p.k)..DataOffset(p.k) + |c|] == c
  }

  /** Block `b` holds `p`; whatever the block's data area holds behind `p`'s data is stale. */
  ghost predicate BlockHolds(b: seq<byte>, p: Piece)
    requires |b| == BLOCK
  {
    p.WellFormed() && HeaderHolds(b, p) && DataHolds(b, p)
  }

  ghost predicate Represents(mem: seq<byte>, ring: seq<Piece>)
    requires |ring| * BLOCK <= |mem|
  {
    forall j :: 0 <= j < |ring| ==> BlockHolds(Block(mem, j), ring[j])
  }

  /** Memory behind the last block is still as the generator zeroed it. */
  ghost predicate SlackIsZero(mem: seq<byte>, n: nat) {
    forall i :: n * BLOCK <= i < |mem| ==> mem[i] == 0
  }

  ghost predicate SameOutside(m: seq<byte>, m': seq<byte>, j: nat, n: nat)
    requires n * BLOCK <= |m|
  {
    && |m| == |m'|
    && (forall i :: 0 <= i < n && i != j ==> Block(m, i) == Block(m', i))
    && m[n * BLOCK..] == m'[n * BLOCK..]
  }

  lemma SpliceInBlock(m: seq<byte>, n: nat, j: nat, off: nat, s: seq<byte>)
    requires n * BLOCK <= |m| && j < n && off + |s| <= BLOCK
    ensures var m' := Splice(m, j * BLOCK + off, s);
            SameOutside(m, m', j, n) && Block(m', j) == Splice(Block(m, j), off, s)
  {
    var lo, hi := j * BLOCK + off, j * BLOCK + off + |s|;
    var m' := Splice(m, lo, s);
    SpliceSlices(m, lo, s);
    SpliceOfSlice(m, j * BLOCK, (j + 1) * BLOCK, off, s);
    SameBetween(m, m', lo, hi, n * BLOCK, |m|);
    forall i | 0 <= i < n && i != j ensures Block(m, i) == Block(m', i) {
      SameBetween(m, m', lo, hi, i * BLOCK, (i + 1) * BLOCK);
    }
  }

  lemma SpliceOfSlice(m: seq<byte>, a: nat, b: nat, off: nat, s: seq<byte>)
    requires a + off + |s| <= b <= |m|
    ensures Splice(m, a + off, s)[a..b] == Splice(m[a..b], off, s)
  {
  }

  /** Memories that agree before `lo` and from `hi` on agree on all ranges there. */
  lemma SameBetween(m: seq<byte>, m': seq<byte>, lo: nat, hi: nat, a: nat, b: nat)
    requires |m| == |m'| && lo <= hi <= |m| && m[..lo] == m'[..lo] && m[hi..] == m'[hi..]
    requires a <= b <= |m| && (b <= lo || hi <= a)
    ensures m[a..b] == m'[a..b]
  {
    if b <= lo {
      SubSlice(m, 0, lo, a, b);
      SubSlice(m', 0, lo, a, b);
    } else {
      SubSlice(m, hi, |m|, a - hi, b - hi);
      SubSlice(m', hi, |m|, a - hi, b - hi);
    }
  }

  lemma BlankIsRepresented(mem: seq<byte>, n: nat)
    requires n * BLOCK <= |mem| && forall i :: 0 <= i < |mem| ==> mem[i] == 0
    ensures Represents(mem, Blank(n))
  {
    forall j | 0 <= j < n ensures BlockHolds(Block(mem, j), Blank(n)[j]) {
      EncodeZero(CONT);
      assert Block(mem, j)[..CONT] == Zeros(CONT);
    }
  }
}
