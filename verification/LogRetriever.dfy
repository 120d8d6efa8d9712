/** The reading side of the shared log memory. */
module LogRetriever {
  import opened Arithmetic
  import opened Bytes
  import opened LogBlocks
  import opened Sequences
  import opened LogWindow
  import opened LogOrder
  import opened LogMemory
  import opened LogGenerator

  const NEWLINE: byte := 10
  const SEPARATOR: seq<byte> := [58, 32]
  /** "Empty log!" and a newline. */
  const EMPTY_LOG: seq<byte> := [69, 109, 112, 116, 121, 32, 108, 111, 103, 33, 10]

  /** What to show of the log. `timeText` stands for the formatting of time stamps. */
  datatype OutputCommand = OutputCommand(
    excludeTags: seq<seq<byte>>,
    excludeLevels: seq<seq<byte>>,
    showTag: bool,
    showTimeStamp: bool,
    showLogLevel: bool,
    timeText: TimeStamp -> seq<byte>)
  {
    predicate Shows(e: Entry) {
      e.tag !in excludeTags && e.level !in excludeLevels
    }

    function Prefix(stamp: TimeStamp, tag: seq<byte>, level: seq<byte>): seq<byte> {
      (if showTimeStamp then timeText(stamp) + SEPARATOR else [])
      + (if showTag then tag + SEPARATOR else [])
      + (if showLogLevel then level + SEPARATOR else [])
    }

    function Line(e: Entry): seq<byte>
      requires e.Printable()
    {
      Prefix(e.stamp, e.tag, e.level) + e.Text() + [NEWLINE]
    }

    /** Those of the first `n` entries that are not excluded, each on its line, in the order given. */
    function RenderTo(es: seq<Entry>, n: nat): seq<byte>
      requires AllPrintable(es) && n <= |es|
    {
      if n == 0 then [] else RenderTo(es, n - 1) + if Shows(es[n - 1]) then Line(es[n - 1]) else []
    }

    function Render(es: seq<Entry>): seq<byte>
      requires AllPrintable(es)
    {
      RenderTo(es, |es|)
    }

    /** What reading a log of `n` blocks prints: all survivors from the one that is read first on,
        round to the one before it. */
    function LogText(history: seq<Entry>, n: nat): seq<byte>
      requires n > 0 && AllPrintable(Survivors(history, n))
    {
      var s := Survivors(history, n);
      if s == [] then EMPTY_LOG else Render(Rotation(s, ReadStart(history, n)))
    }
  }

  ghost predicate AllPrintable(es: seq<Entry>) {
    forall e <- es :: e.Printable()
  }

  // ----- reading one block -----

  function ReadWord(mem: seq<byte>, j: nat): nat
    requires (j + 1) * BLOCK <= |mem|
  {
    Decode(Block(mem, j)[..CONT])
  }

  function ReadStamp(mem: seq<byte>, j: nat): TimeStamp
    requires (j + 1) * BLOCK <= |mem|
  {
    var b := Block(mem, j);
    TimeStamp(DecodeSigned(b[SEC..USEC]), DecodeSigned(b[USEC..TAG]))
  }

  lemma SizeOfWord()
    ensures Capacity(CONT) == WORD
  {
    assert Capacity(2) == 0x1_0000;
  }

  /** The block count read is the entry's size for a head that fits the ring, 0 for anything else. */
  lemma WordRead(mem: seq<byte>, j: nat, p: Piece)
    requires (j + 1) * BLOCK <= |mem| && BlockHolds(Block(mem, j), p)
    ensures ReadWord(mem, j) == if p.IsHead() then p.entry.Size() % WORD else 0
  {
    SizeOfWord();
    DecodeEncode(p.HeaderWord(), CONT);
    RemainderIsUnique(p.HeaderWord(), WORD, 0, p.HeaderWord());
  }

  lemma StampRead(mem: seq<byte>, j: nat, p: Piece)
    requires (j + 1) * BLOCK <= |mem| && BlockHolds(Block(mem, j), p)
    requires p.IsHead() && p.entry.stamp.Representable()
    ensures ReadStamp(mem, j) == p.entry.stamp
  {
    SignedRoundTrip(p.entry.stamp.sec);
    SignedRoundTrip(p.entry.stamp.usec);
  }

  /** A name field is read back whole: it is shorter than its field, so a NUL ends it. */
  lemma FieldRead(mem: seq<byte>, j: nat, off: nat, width: nat, name: seq<byte>)
    requires (j + 1) * BLOCK <= |mem| && off + width <= BLOCK
    requires Block(mem, j)[off..off + width] == StrN(name, width)
    requires |name| < width && 0 !in name
    ensures CString(mem, j * BLOCK + off) == name
  {
    var a, b := j * BLOCK, (j + 1) * BLOCK;
    assert b - a == BLOCK && Block(mem, j) == mem[a..b];
    FieldIn(mem, a, b, off, width, name);
  }

  lemma FieldIn(mem: seq<byte>, a: nat, b: nat, off: nat, width: nat, name: seq<byte>)
    requires a <= b <= |mem| && off + width <= b - a && mem[a..b][off..off + width] == StrN(name, width)
    requires |name| < width && 0 !in name
    ensures CString(mem, a + off) == name
  {
    SubSlice(mem, a, b, off, off + width);
    NamePadded(name, width, StrN(name, width));
    NameRead(mem, a + off, width, StrN(name, width), name);
  }

  lemma NamePadded(name: seq<byte>, width: nat, field: seq<byte>)
    requires |name| < width && field == StrN(name, width)
    ensures |field| == width && field[..|name|] == name && field[|name|] == 0
  {
  }

  lemma NameRead(mem: seq<byte>, at: nat, width: nat, field: seq<byte>, name: seq<byte>)
    requires at + width <= |mem| && mem[at..at + width] == field && |name| < |field| && 0 !in name
    requires field[..|name|] == name && field[|name|] == 0
    ensures CString(mem, at) == name
  {
    SubSlice(mem, at, at + width, 0, |name|);
    assert mem[at + |name|] == mem[at..at + width][|name|];
    CStringStopsAt(mem, at, at + |name|);
  }

  /** What terminates a block that carries no NUL: the zero header of the next block or the slack. */
  ghost predicate Terminated(mem: seq<byte>, n: nat, j: nat)
    requires n * BLOCK <= |mem| && j < n
  {
    (j + 1) * BLOCK < |mem| && mem[(j + 1) * BLOCK] == 0
  }

  lemma NextHeaderTerminates(mem: seq<byte>, ring: seq<Piece>, j: nat)
    requires |ring| * BLOCK <= |mem| && Represents(mem, ring) && SlackIsZero(mem, |ring|)
    requires j < |ring| && if j + 1 < |ring| then !ring[j + 1].IsHead() else |ring| * BLOCK < |mem|
    ensures Terminated(mem, |ring|, j)
  {
    if j + 1 < |ring| {
      var b := Block(mem, j + 1);
      EncodeZero(CONT);
      assert BlockHolds(b, ring[j + 1]);
      assert mem[(j + 1) * BLOCK] == b[0] == b[..CONT][0];
    }
  }

  function TextBefore(e: Entry, k: nat): seq<byte>
    requires |e.data| > 0
  {
    e.Text()[..Min(|e.Text()|, ChunkStart(k))]
  }

  lemma ChunkInMemory(mem: seq<byte>, j: nat, e: Entry, k: nat)
    requires (j + 1) * BLOCK <= |mem| && k < e.Size()
    requires BlockHolds(Block(mem, j), Piece(e, k))
    ensures var at, c := j * BLOCK + DataOffset(k), Chunk(e.data, k);
            && at + |c| <= (j + 1) * BLOCK && mem[at..at + |c|] == c
            && (k + 1 < e.Size() ==> at + |c| == (j + 1) * BLOCK)
  {
    var c := Chunk(e.data, k);
    ChunkFits(e.data, k);
    var at := j * BLOCK + DataOffset(k);
    SubSlice(mem, j * BLOCK, (j + 1) * BLOCK, DataOffset(k), DataOffset(k) + |c|);
  }

  lemma FullChunkHasNoNul(e: Entry, k: nat)
    requires e.Printable() && k + 1 < e.Size()
    ensures 0 !in Chunk(e.data, k)
    ensures TextBefore(e, k) + Chunk(e.data, k) == TextBefore(e, k + 1)
  {
    BlocksCoverData(|e.data|, k);
    BlocksCoverData(|e.data|, k + 1);
    SubSlice(e.data, 0, |e.data| - 1, ChunkStart(k), ChunkStart(k + 1));
    JoinPrefix(e.Text(), ChunkStart(k), ChunkStart(k + 1));
  }

  /** A full block carries no NUL; the print stops at the terminator behind it. */
  lemma FullBlockRead(mem: seq<byte>, n: nat, j: nat, e: Entry, k: nat)
    requires n * BLOCK <= |mem| && j < n && e.Printable() && k + 1 < e.Size()
    requires BlockHolds(Block(mem, j), Piece(e, k)) && Terminated(mem, n, j)
    ensures TextBefore(e, k) + CString(mem, j * BLOCK + DataOffset(k)) == TextBefore(e, k + 1)
  {
    ChunkInMemory(mem, j, e, k);
    FullChunkHasNoNul(e, k);
    var c, at := Chunk(e.data, k), j * BLOCK + DataOffset(k);
    CStringStopsAt(mem, at, at + |c|);
  }

  lemma TerminatedRead(mem: seq<byte>, at: nat, t: seq<byte>, s: seq<byte>)
    requires s == t + [0] && at + |s| <= |mem| && mem[at..at + |s|] == s && 0 !in t
    ensures CString(mem, at) == t
  {
    assert s[|t|] == 0 && |s| == |t| + 1;
    SubSlice(mem, at, at + |s|, 0, |t|);
    assert mem[at + |t|] == mem[at..at + |s|][|t|];
    CStringStopsAt(mem, at, at + |t|);
  }

  lemma LastChunk(e: Entry, k: nat)
    requires e.Printable() && k + 1 == e.Size()
    ensures ChunkStart(k) <= |e.Text()|
    ensures var t := e.Text()[ChunkStart(k)..];
            0 !in t && Chunk(e.data, k) == t + [0] && TextBefore(e, k) + t == TextBefore(e, k + 1)
  {
    BlocksCoverData(|e.data|, k);
    var a, l := ChunkStart(k), |e.Text()|;
    SubSlice(e.data, 0, l, a, l);
    JoinSlices(e.data, a, l, l + 1);
    JoinPrefix(e.Text(), a, l);
  }

  /** The last block carries the NUL the text was handed over with. */
  lemma LastBlockRead(mem: seq<byte>, n: nat, j: nat, e: Entry, k: nat)
    requires n * BLOCK <= |mem| && j < n && e.Printable() && k + 1 == e.Size()
    requires BlockHolds(Block(mem, j), Piece(e, k))
    ensures TextBefore(e, k) + CString(mem, j * BLOCK + DataOffset(k)) == TextBefore(e, k + 1)
  {
    ChunkInMemory(mem, j, e, k);
    LastChunk(e, k);
    TerminatedRead(mem, j * BLOCK + DataOffset(k), e.Text()[ChunkStart(k)..], Chunk(e.data, k));
  }

  /** Streaming a block as a C string prints exactly its share of the text. */
  lemma TextRead(mem: seq<byte>, n: nat, j: nat, e: Entry, k: nat)
    requires n * BLOCK <= |mem| && j < n && e.Printable() && k < e.Size()
    requires BlockHolds(Block(mem, j), Piece(e, k))
    requires k + 1 < e.Size() ==> Terminated(mem, n, j)
    ensures TextBefore(e, k) + CString(mem, j * BLOCK + DataOffset(k)) == TextBefore(e, k + 1)
  {
    if k + 1 < e.Size() {
      FullBlockRead(mem, n, j, e, k);
    } else {
      LastBlockRead(mem, n, j, e, k);
    }
  }

  /** There is a NUL at or behind `off`, so a print from there stays inside the buffer. */
  ghost predicate StaysInside(mem: seq<byte>, off: nat) {
    exists i :: off <= i < |mem| && mem[i] == 0
  }

  lemma FullBlockAtEndOverruns(mem: seq<byte>, j: nat, e: Entry, k: nat)
    requires |mem| == (j + 1) * BLOCK && BlockHolds(Block(mem, j), Piece(e, k))
    requires e.Printable() && k + 1 < e.Size()
    ensures !StaysInside(mem, j * BLOCK + DataOffset(k))
  {
    ChunkInMemory(mem, j, e, k);
    FullChunkHasNoNul(e, k);
    var at, c := j * BLOCK + DataOffset(k), Chunk(e.data, k);
    forall i | at <= i < |mem| ensures mem[i] != 0 {
      assert mem[i] == mem[at..at + |c|][i - at] && c[i - at] in c;
    }
  }

  lemma LastBlockStays(mem: seq<byte>, j: nat, e: Entry, k: nat)
    requires (j + 1) * BLOCK <= |mem| && BlockHolds(Block(mem, j), Piece(e, k))
    requires e.Printable() && k + 1 == e.Size()
    ensures StaysInside(mem, j * BLOCK + DataOffset(k))
  {
    ChunkInMemory(mem, j, e, k);
    LastChunk(e, k);
    var at, c := j * BLOCK + DataOffset(k), Chunk(e.data, k);
    assert mem[at + |c| - 1] == mem[at..at + |c|][|c| - 1] == 0;
  }

  /** Printing a block stays inside the copied memory unless the block is a full one at the very
      end of a memory without slack. */
  lemma PrintStaysInside(mem: seq<byte>, ring: seq<Piece>, j: nat)
    requires |ring| * BLOCK <= |mem| && Represents(mem, ring) && SlackIsZero(mem, |ring|)
    requires j < |ring| && ring[j].Piece? && ring[j].entry.Printable()
    requires j + 1 < |ring| && ring[j].k + 1 < ring[j].entry.Size() ==> !ring[j + 1].IsHead()
    ensures StaysInside(mem, j * BLOCK + DataOffset(ring[j].k)) <==>
            ring[j].k + 1 == ring[j].entry.Size() || j + 1 < |ring| || |mem| > |ring| * BLOCK
  {
    var e, k := ring[j].entry, ring[j].k;
    assert BlockHolds(Block(mem, j), ring[j]);
    if k + 1 == e.Size() {
      LastBlockStays(mem, j, e, k);
    } else if j + 1 < |ring| || |mem| > |ring| * BLOCK {
      NextHeaderTerminates(mem, ring, j);
    } else {
      FullBlockAtEndOverruns(mem, j, e, k);
    }
  }

  lemma WholeText(e: Entry)
    requires e.Printable()
    ensures TextBefore(e, e.Size()) == e.Text()
  {
    BlocksCoverData(|e.data|, e.Size());
  }

  // ----- the retriever -----

  /** The bytes a reader finds in memory the generator keeps. */
  ghost predicate Readable(mem: seq<byte>, ring: seq<Piece>) {
    && |ring| < WORD && |ring| * BLOCK < |mem|
    && Represents(mem, ring) && SlackIsZero(mem, |ring|)
    && (forall j :: 0 <= j < |ring| && ring[j].IsHead() ==>
          ring[j].entry.Printable() && ring[j].entry.Size() <= |ring|)
  }

  lemma WordTells(mem: seq<byte>, ring: seq<Piece>, j: nat)
    requires Readable(mem, ring) && j < |ring|
    ensures ReadWord(mem, j) == if ring[j].IsHead() then ring[j].entry.Size() else 0
  {
    WordRead(mem, j, ring[j]);
    if ring[j].IsHead() {
      RemainderIsUnique(ring[j].entry.Size(), WORD, 0, ring[j].entry.Size());
    }
  }

  lemma BlockIsTerminated(mem: seq<byte>, ring: seq<Piece>, at: nat, k: nat)
    requires Readable(mem, ring) && WholeEntryAt(ring, at) && k < ring[at].entry.Size()
    ensures k + 1 < ring[at].entry.Size() ==> Terminated(mem, |ring|, Wrap(at + k, |ring|))
  {
    if k + 1 < ring[at].entry.Size() {
      var j := Wrap(at + k, |ring|);
      RingEntryAt(ring, at, k + 1);
      NextHeaderTerminates(mem, ring, j);
    }
  }

  /** Block `k` of the entry whose head is block `at` prints its share of the text. */
  lemma BlockRead(mem: seq<byte>, ring: seq<Piece>, at: nat, k: nat)
    requires Readable(mem, ring) && WholeEntryAt(ring, at) && k < ring[at].entry.Size()
    ensures Wrap(at + k, |ring|) < |ring|
    ensures var e := ring[at].entry;
            TextBefore(e, k) + CString(mem, Wrap(at + k, |ring|) * BLOCK + DataOffset(k)) == TextBefore(e, k + 1)
  {
    var j := Wrap(at + k, |ring|);
    RingEntryAt(ring, at, k);
    BlockIsTerminated(mem, ring, at, k);
    BlockOf(mem, ring, j);
    TextRead(mem, |ring|, j, ring[at].entry, k);
  }

  lemma BlockOf(mem: seq<byte>, ring: seq<Piece>, j: nat)
    requires |ring| * BLOCK <= |mem| && Represents(mem, ring) && j < |ring|
    ensures BlockHolds(Block(mem, j), ring[j])
  {
  }

  /** Block by block, what is printed behind the head `at` adds up to the text of `e`. */
  ghost predicate BlocksSpell(mem: seq<byte>, n: nat, at: nat, e: Entry)
    requires |e.data| > 0
  {
    forall k :: 0 < k < e.Size() ==>
      TextBefore(e, k) + CString(mem, Wrap(at + k, n) * BLOCK + CONT) == TextBefore(e, k + 1)
  }

  function LineBefore(prefix: seq<byte>, e: Entry, k: nat): seq<byte>
    requires |e.data| > 0
  {
    prefix + TextBefore(e, k)
  }

  lemma ContinuationRead(mem: seq<byte>, n: nat, at: nat, e: Entry, k: nat, prefix: seq<byte>)
    requires at < n && |e.data| > 0 && BlocksSpell(mem, n, at, e) && 0 < k < e.Size() <= n
    ensures var cur := Wrap(at + k, n);
            && LineBefore(prefix, e, k) + CString(mem, cur * BLOCK + CONT) == LineBefore(prefix, e, k + 1)
            && (cur + 1) % n == Wrap(at + k + 1, n)
  {
    WrapNext(at + k, n);
    ConcatIsAssociative(prefix, TextBefore(e, k), CString(mem, Wrap(at + k, n) * BLOCK + CONT));
  }

  lemma HeadRead(mem: seq<byte>, ring: seq<Piece>, at: nat)
    requires Readable(mem, ring) && WholeEntryAt(ring, at)
    ensures var e := ring[at].entry;
            && ReadWord(mem, at) == e.Size() && ReadStamp(mem, at) == e.stamp
            && CString(mem, at * BLOCK + TAG) == e.tag && CString(mem, at * BLOCK + LEVEL) == e.level
            && CString(mem, at * BLOCK + HEAD) == TextBefore(e, 1)
            && BlocksSpell(mem, |ring|, at, e)
  {
    var e := ring[at].entry;
    forall k | 0 < k < e.Size()
      ensures TextBefore(e, k) + CString(mem, Wrap(at + k, |ring|) * BLOCK + CONT) == TextBefore(e, k + 1)
    {
      BlockRead(mem, ring, at, k);
    }
    BlockOf(mem, ring, at);
    WordTells(mem, ring, at);
    StampRead(mem, at, ring[at]);
    NamesRead(mem, at, ring[at]);
    BlockRead(mem, ring, at, 0);
    assert TextBefore(e, 0) == [];
  }

  lemma NamesRead(mem: seq<byte>, j: nat, p: Piece)
    requires (j + 1) * BLOCK <= |mem| && BlockHolds(Block(mem, j), p) && p.IsHead() && p.entry.Printable()
    ensures CString(mem, j * BLOCK + TAG) == p.entry.tag && CString(mem, j * BLOCK + LEVEL) == p.entry.level
  {
    FieldRead(mem, j, TAG, 16, p.entry.tag);
    FieldRead(mem, j, LEVEL, 8, p.entry.level);
  }

  /** What a scan of the first `n` blocks has found. */
  ghost predicate Scanned(ring: seq<Piece>, n: nat, found: bool, first: nat)
    requires n <= |ring|
  {
    && (found <==> exists j :: 0 <= j < n && ring[j].IsHead())
    && (found ==> OldestHead(ring, n, first))
  }

  lemma ScanStep(ring: seq<Piece>, n: nat, found: bool, first: nat)
    requires n < |ring| && Scanned(ring, n, found, first)
    ensures var better := ring[n].IsHead() &&
                          (!found || ring[first].entry.stamp.After(ring[n].entry.stamp));
            Scanned(ring, n + 1, found || better, if better then n else first)
  {
  }

  lemma BlockTells(mem: seq<byte>, ring: seq<Piece>, j: nat)
    requires Readable(mem, ring) && j < |ring|
    ensures ReadWord(mem, j) > 0 <==> ring[j].IsHead()
    ensures ring[j].IsHead() ==> ReadStamp(mem, j) == ring[j].entry.stamp
  {
    WordTells(mem, ring, j);
    if ring[j].IsHead() {
      StampRead(mem, j, ring[j]);
    }
  }

  lemma SkipBlock(u: seq<Piece>, p: nat)
    requires p < |u| && !u[p].IsHead()
    ensures Heads(u[..p + 1]) == Heads(u[..p])
  {
    assert u[..p + 1] == u[..p] + [u[p]];
    HeadsOfConcat(u[..p], [u[p]]);
  }

  lemma TakeEntry(u: seq<Piece>, p: nat)
    requires p < |u| && u[p].IsHead() && EntryAt(u, p)
    ensures Heads(u[..p + u[p].entry.Size()]) == Heads(u[..p]) + [u[p].entry]
    ensures u[p].entry in Heads(u)
  {
    var e := u[p].entry;
    JoinPrefix(u, p, p + e.Size());
    HeadsOfConcat(u[..p], Pieces(e));
    HeadsOfPieces(e);
    HeadIsListed(u, p);
  }

  /** The walk from `first` has gone over `p` blocks and stands at `cur`. */
  ghost predicate Walked(params: OutputCommand, ring: seq<Piece>, first: nat, p: nat, cur: nat, output: seq<byte>) {
    && first < |ring| && p <= |ring| && cur == Wrap(first + p, |ring|)
    && AllPrintable(Heads(Unroll(ring, first)[..p]))
    && output == params.Render(Heads(Unroll(ring, first)[..p]))
  }

  lemma WalkStarts(params: OutputCommand, ring: seq<Piece>, first: nat)
    requires first < |ring|
    ensures Walked(params, ring, first, 0, first, [])
  {
  }

  lemma WalkSkips(params: OutputCommand, ring: seq<Piece>, first: nat, p: nat, cur: nat, output: seq<byte>)
    requires Walked(params, ring, first, p, cur, output) && p < |ring|
    requires !ring[cur].IsHead()
    ensures Walked(params, ring, first, p + 1, (cur + 1) % |ring|, output)
  {
    WrapNext(first + p, |ring|);
    SkipBlock(Unroll(ring, first), p);
  }

  lemma RenderAppend(params: OutputCommand, es: seq<Entry>, e: Entry)
    requires AllPrintable(es) && e.Printable()
    ensures AllPrintable(es + [e])
    ensures params.Render(es + [e]) == params.Render(es) + if params.Shows(e) then params.Line(e) else []
  {
    RenderOfFront(params, es, [e], |es|);
  }

  lemma {:induction false} RenderOfFront(params: OutputCommand, es: seq<Entry>, more: seq<Entry>, n: nat)
    requires AllPrintable(es) && AllPrintable(es + more) && n <= |es|
    ensures params.RenderTo(es + more, n) == params.RenderTo(es, n)
  {
    if n > 0 {
      RenderOfFront(params, es, more, n - 1);
    }
  }

  lemma FirstMeans(history: seq<Entry>, n: nat, first: nat)
    requires n > 0 && Survivors(history, n) != [] && first == ReadStart(history, n)
    ensures var s := Survivors(history, n);
            forall i :: 0 <= i < |s| && i != first ==>
              || s[first].stamp.sec < s[i].stamp.sec
              || (s[first].stamp.sec == s[i].stamp.sec && s[first].stamp.usec < s[i].stamp.usec)
              || (s[first].stamp.sec == s[i].stamp.sec && s[first].stamp.usec == s[i].stamp.usec
                  && HeadPlace(history, n, first) < HeadPlace(history, n, i))
  {
    ReadStartIsFirst(history, n);
  }

  /** Where the first survivor has the smallest time stamp, all survivors are printed in write order. */
  lemma InWriteOrder(params: OutputCommand, history: seq<Entry>, n: nat)
    requires n > 0 && AllPrintable(Survivors(history, n))
    ensures var s := Survivors(history, n);
            s != [] && (forall i :: 1 <= i < |s| ==>
                          || s[0].stamp.sec < s[i].stamp.sec
                          || (s[0].stamp.sec == s[i].stamp.sec && s[0].stamp.usec < s[i].stamp.usec)) ==>
            params.LogText(history, n) == params.Render(s)
  {
    var s := Survivors(history, n);
    if s != [] && forall i :: 1 <= i < |s| ==>
         || s[0].stamp.sec < s[i].stamp.sec
         || (s[0].stamp.sec == s[i].stamp.sec && s[0].stamp.usec < s[i].stamp.usec) {
      var r := ReadStart(history, n);
      FirstMeans(history, n, r);
      assert Rotation(s, 0) == s;
    }
  }

  lemma WalkTakes(params: OutputCommand, ring: seq<Piece>, first: nat, p: nat, cur: nat, output: seq<byte>)
    requires Walked(params, ring, first, p, cur, output) && p < |ring|
    requires Complete(Unroll(ring, first)) && AllPrintable(Heads(Unroll(ring, first)))
    requires ring[cur].IsHead()
    ensures WholeEntryAt(ring, cur)
    ensures var e := ring[cur].entry;
            && e.Printable() && p + e.Size() <= |ring|
            && Walked(params, ring, first, p + e.Size(), Wrap(cur + e.Size(), |ring|),
                      output + if params.Shows(e) then params.Line(e) else [])
  {
    var u, e := Unroll(ring, first), ring[cur].entry;
    UnrollAt(ring, first, p);
    EntryFromView(ring, first, p);
    TakeEntry(u, p);
    RenderAppend(params, Heads(u[..p]), e);
  }

  lemma WalkEnds(params: OutputCommand, ring: seq<Piece>, first: nat, p: nat, cur: nat, output: seq<byte>)
    requires Walked(params, ring, first, p, cur, output) && p >= |ring|
    requires AllPrintable(Heads(Unroll(ring, first)))
    ensures output == params.Render(Heads(Unroll(ring, first)))
  {
    assert Unroll(ring, first)[..p] == Unroll(ring, first);
  }

  lemma LogIsReadable(mem: seq<byte>, history: seq<Entry>, n: nat)
    requires 0 < n < WORD && n * BLOCK < |mem|
    requires Represents(mem, RingAfter(history, n)) && SlackIsZero(mem, n)
    requires AllPrintable(Survivors(history, n))
    ensures Readable(mem, RingAfter(history, n))
  {
    RingHeads(history, n);
  }

  class Retriever {
    const mutex: InterprocessMutex
    const shm: array<byte>
    const numLogEntries: nat

    constructor (mutex: InterprocessMutex, shm: array<byte>)
      ensures this.mutex == mutex && this.shm == shm && numLogEntries == shm.Length / BLOCK
    {
      this.mutex := mutex;
      this.shm := shm;
      this.numLogEntries := shm.Length / BLOCK;
    }

    /** The head with the smallest time stamp, the first in memory among equals. */
    method FindFirst(temp: seq<byte>, ghost ring: seq<Piece>) returns (found: bool, first: nat)
      requires |ring| == numLogEntries && Readable(temp, ring)
      ensures Scanned(ring, |ring|, found, first)
      ensures found <==> exists j :: 0 <= j < |ring| && ring[j].IsHead()
      ensures found ==> first < |ring| && ring[first].IsHead() && forall j :: 0 <= j < |ring| && ring[j].IsHead() ==>
                || ring[first].entry.stamp.sec < ring[j].entry.stamp.sec
                || (ring[first].entry.stamp.sec == ring[j].entry.stamp.sec
                    && ring[first].entry.stamp.usec < ring[j].entry.stamp.usec)
                || (ring[first].entry.stamp == ring[j].entry.stamp && first <= j)
    {
      found, first := false, 0;
      var firstStamp := TimeStamp(0, 0);
      for i := 0 to numLogEntries
        invariant Scanned(ring, i, found, first)
        invariant found ==> firstStamp == ring[first].entry.stamp
      {
        found, first, firstStamp := ScanBlock(temp, i, found, first, firstStamp, ring);
      }
    }

    method ScanBlock(temp: seq<byte>, i: nat, found: bool, first: nat, firstStamp: TimeStamp, ghost ring: seq<Piece>)
      returns (found': bool, first': nat, firstStamp': TimeStamp)
      requires Readable(temp, ring) && i < |ring| && Scanned(ring, i, found, first)
      requires found ==> firstStamp == ring[first].entry.stamp
      ensures Scanned(ring, i + 1, found', first')
      ensures found' ==> firstStamp' == ring[first'].entry.stamp
    {
      BlockTells(temp, ring, i);
      ScanStep(ring, i, found, first);
      found', first', firstStamp' := found, first, firstStamp;
      if ReadWord(temp, i) > 0 {
        if !found || firstStamp.After(ReadStamp(temp, i)) {
          firstStamp' := ReadStamp(temp, i);
          found' := true;
          first' := i;
        }
      }
    }

    /** Prints the data of the blocks behind the head `at`. */
    method PrintContinuation(temp: seq<byte>, at: nat, blocks: nat, shouldPrint: bool, sofar: seq<byte>,
                             ghost e: Entry, ghost prefix: seq<byte>)
      returns (output: seq<byte>, cur: nat)
      requires at < numLogEntries && numLogEntries * BLOCK <= |temp|
      requires e.Printable() && blocks == e.Size() <= numLogEntries && BlocksSpell(temp, numLogEntries, at, e)
      requires sofar == if shouldPrint then prefix + TextBefore(e, 1) else []
      ensures output == if shouldPrint then prefix + e.Text() else []
      ensures cur == Wrap(at + blocks, numLogEntries)
    {
      output := sofar;
      cur := (at + 1) % numLogEntries;
      WrapNext(at, numLogEntries);
      for i := 0 to blocks - 1
        invariant cur == Wrap(at + i + 1, numLogEntries)
        invariant output == if shouldPrint then LineBefore(prefix, e, i + 1) else []
      {
        output, cur := PrintBlock(temp, cur, shouldPrint, output, at, i + 1, e, prefix);
      }
      WholeText(e);
    }

    /** Prints block `k` of the entry and goes on to the next. */
    method PrintBlock(temp: seq<byte>, cur: nat, shouldPrint: bool, sofar: seq<byte>, ghost at: nat, ghost k: nat,
                      ghost e: Entry, ghost prefix: seq<byte>)
      returns (output: seq<byte>, next: nat)
      requires at < numLogEntries && numLogEntries * BLOCK <= |temp| && cur == Wrap(at + k, numLogEntries)
      requires e.Printable() && 0 < k < e.Size() <= numLogEntries && BlocksSpell(temp, numLogEntries, at, e)
      requires sofar == if shouldPrint then LineBefore(prefix, e, k) else []
      ensures output == if shouldPrint then LineBefore(prefix, e, k + 1) else []
      ensures next == Wrap(at + k + 1, numLogEntries)
    {
      ContinuationRead(temp, numLogEntries, at, e, k, prefix);
      output := sofar;
      if shouldPrint {
        output := output + CString(temp, cur * BLOCK + CONT);
      }
      next := (cur + 1) % numLogEntries;
    }

    /** Prints the entry whose head is block `at`, unless it is excluded. */
    method PrintEntry(temp: seq<byte>, params: OutputCommand, at: nat, ghost ring: seq<Piece>)
      returns (output: seq<byte>, blocks: nat, next: nat)
      requires |ring| == numLogEntries && Readable(temp, ring)
      requires WholeEntryAt(ring, at)
      ensures var e := ring[at].entry;
              blocks == e.Size() && output == if params.Shows(e) then params.Line(e) else []
      ensures blocks <= numLogEntries && next == Wrap(at + blocks, numLogEntries)
    {
      ghost var e := ring[at].entry;
      HeadRead(temp, ring, at);
      var stamp := ReadStamp(temp, at);
      var tag := CString(temp, at * BLOCK + TAG);
      var level := CString(temp, at * BLOCK + LEVEL);
      blocks := ReadWord(temp, at);
      var shouldPrint := tag !in params.excludeTags && level !in params.excludeLevels;
      output := [];
      if shouldPrint {
        output := params.Prefix(stamp, tag, level) + CString(temp, at * BLOCK + HEAD);
      }
      output, next := PrintContinuation(temp, at, blocks, shouldPrint, output, e,
                                        params.Prefix(e.stamp, e.tag, e.level));
      if shouldPrint {
        output := output + [NEWLINE];
      }
    }

    /** Goes on from block `cur`: over a continuation block, or past the entry that starts there. */
    method StepOver(temp: seq<byte>, params: OutputCommand, cur: nat, sofar: seq<byte>,
                    ghost ring: seq<Piece>, ghost first: nat, ghost p: nat)
      returns (output: seq<byte>, next: nat, blocks: nat)
      requires |ring| == numLogEntries && Readable(temp, ring)
      requires first < |ring| && Complete(Unroll(ring, first)) && AllPrintable(Heads(Unroll(ring, first)))
      requires Walked(params, ring, first, p, cur, sofar) && p < |ring|
      ensures blocks > 0 && Walked(params, ring, first, p + blocks, next, output)
    {
      BlockTells(temp, ring, cur);
      if ReadWord(temp, cur) == 0 {
        WalkSkips(params, ring, first, p, cur, sofar);
        output, next, blocks := sofar, (cur + 1) % numLogEntries, 1;
      } else {
        WalkTakes(params, ring, first, p, cur, sofar);
        var line;
        line, blocks, next := PrintEntry(temp, params, cur, ring);
        output := sofar + line;
      }
    }

    /** Walks once round the ring from the head `first`, printing every entry it meets. */
    method Walk(temp: seq<byte>, params: OutputCommand, first: nat, ghost ring: seq<Piece>)
      returns (output: seq<byte>)
      requires |ring| == numLogEntries && Readable(temp, ring)
      requires first < |ring| && Complete(Unroll(ring, first))
      requires AllPrintable(Heads(Unroll(ring, first)))
      ensures output == params.Render(Heads(Unroll(ring, first)))
    {
      output := [];
      var cur: nat := first;
      var processed: nat := 0;
      WalkStarts(params, ring, first);
      while processed < numLogEntries
        invariant Walked(params, ring, first, processed, cur, output)
      {
        var blocks;
        output, cur, blocks := StepOver(temp, params, cur, output, ring, first, processed);
        processed := processed + blocks;
      }
      WalkEnds(params, ring, first, processed, cur, output);
    }

    /** Copies the log under the lock and prints it. */
    method GetLog(params: OutputCommand, ghost gen: Generator) returns (output: seq<byte>)
      requires gen.Valid() && gen.shm == shm && gen.numLogEntries == numLogEntries
      requires numLogEntries < WORD && numLogEntries * BLOCK < shm.Length
      requires AllPrintable(Survivors(gen.history, numLogEntries))
      requires !mutex.held
      modifies mutex
      ensures mutex.held == old(mutex.held)
      ensures output == params.LogText(gen.history, numLogEntries)
      ensures var s := Survivors(gen.history, numLogEntries);
              s != [] && (forall i :: 1 <= i < |s| ==>
                            || s[0].stamp.sec < s[i].stamp.sec
                            || (s[0].stamp.sec == s[i].stamp.sec && s[0].stamp.usec < s[i].stamp.usec)) ==>
              output == params.Render(s)
      ensures Survivors(gen.history, numLogEntries) == [] ==>
                output == [69, 109, 112, 116, 121, 32, 108, 111, 103, 33, 10]
    {
      mutex.Lock();
      var temp := shm[..];
      mutex.Unlock();
      InWriteOrder(params, gen.history, numLogEntries);
      output := PrintCopy(temp, params, gen.history);
    }

    /** Prints a copy of the log as it was after the entries of `history`. */
    method PrintCopy(temp: seq<byte>, params: OutputCommand, ghost history: seq<Entry>) returns (output: seq<byte>)
      requires 0 < numLogEntries < WORD && numLogEntries * BLOCK < |temp|
      requires Represents(temp, RingAfter(history, numLogEntries)) && SlackIsZero(temp, numLogEntries)
      requires AllPrintable(Survivors(history, numLogEntries))
      ensures output == params.LogText(history, numLogEntries)
    {
      ghost var n := numLogEntries;
      ghost var ring := RingAfter(history, n);
      LogIsReadable(temp, history, n);
      var found, first := FindFirst(temp, ring);
      if !found {
        RingHeads(history, n);
        return EMPTY_LOG;
      }
      ReadingOrder(history, n, first);
      output := Walk(temp, params, first, ring);
    }
  }
}
