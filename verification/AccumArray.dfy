/** Arrays of accumulators, as the operational process writes and serializes them. */
module AccumArray {
  import opened Bytes
  import opened Sequences
  import opened IndexCodec
  import opened StatCell
  import opened StatArray
  import opened Accumulator

  function SharedSize(fs: seq<Feature>): nat {
    FeatureBytes(fs) + CONTROL_WORD
  }

  /** The elements have the same features, and `texts` are their summaries. */
  ghost predicate Tell(elems: seq<AccumOp>, fs: seq<Feature>, texts: seq<seq<byte>>)
    reads elems
  {
    |texts| == |elems|
    && forall k :: 0 <= k < |elems| ==> elems[k].features == fs && texts[k] == Summary(fs, elems[k].acc)
  }

  /** `m` with the texts laid over it at the addresses, one after the other. */
  function Stored(m: seq<byte>, addrs: seq<nat>, texts: seq<seq<byte>>): (r: seq<byte>)
    requires |addrs| == |texts|
    ensures |r| == |m|
  {
    if addrs == [] then m
    else Overlay(Stored(m, addrs[..|addrs| - 1], texts[..|texts| - 1]), addrs[|addrs| - 1], texts[|texts| - 1])
  }

  lemma {:induction false} StoredConcat(m: seq<byte>, a: seq<nat>, s: seq<seq<byte>>, b: seq<nat>, t: seq<seq<byte>>)
    requires |a| == |s| && |b| == |t|
    ensures Stored(Stored(m, a, s), b, t) == Stored(m, a + b, s + t)
    decreases |b|
  {
    if b == [] {
      assert a + b == a && s + t == s;
    } else {
      FrontOfConcat(a, b);
      FrontOfConcat(s, t);
      StoredConcat(m, a, s, b[..|b| - 1], t[..|t| - 1]);
    }
  }

  /** Bytes apart from everything stored keep their values. */
  lemma {:induction false} StoredLeavesRest(m: seq<byte>, addrs: seq<nat>, texts: seq<seq<byte>>, width: nat,
                                            i: nat, n: nat)
    requires |addrs| == |texts| && forall k :: 0 <= k < |addrs| ==> |texts[k]| == width && addrs[k] + width <= |m|
    requires forall k :: 0 <= k < |addrs| ==> Apart(i, n, addrs[k], width)
    ensures Slice(Stored(m, addrs, texts), i, n) == Slice(m, i, n)
    decreases |addrs|
  {
    if addrs != [] {
      var last := |addrs| - 1;
      StoredLeavesRest(m, addrs[..last], texts[..last], width, i, n);
      assert Apart(i, n, addrs[last], width);
      SliceOfOverlay(Stored(m, addrs[..last], texts[..last]), addrs[last], texts[last], i, n);
    }
  }

  /** Every text can be read back where it was stored. */
  lemma {:induction false} StoredReadsBack(m: seq<byte>, addrs: seq<nat>, texts: seq<seq<byte>>, width: nat, k: nat)
    requires |addrs| == |texts| && k < |addrs| && Spaced(addrs, width, |m|)
    requires forall j :: 0 <= j < |addrs| ==> |texts[j]| == width
    ensures Slice(Stored(m, addrs, texts), addrs[k], width) == texts[k]
    decreases |addrs|
  {
    var last := |addrs| - 1;
    var before := Stored(m, addrs[..last], texts[..last]);
    if k < last {
      StoredReadsBack(m, addrs[..last], texts[..last], width, k);
      SliceOfOverlay(before, addrs[last], texts[last], addrs[k], width);
    } else {
      SliceOverlaid(before, addrs[last], texts[last]);
    }
  }

  /** Serializing an array puts every element's summary of `f` bytes at the front of its cell and
      leaves every control word alone. */
  lemma SerializedCells(m: seq<byte>, at: nat, n: nat, f: nat, size: nat, texts: seq<seq<byte>>, k: nat)
    requires |texts| == n && k < n && forall j :: 0 <= j < n ==> |texts[j]| == f
    requires size == f + CONTROL_WORD && at + n * size <= |m|
    ensures var r, cell := Stored(m, Addresses(at, n, size), texts), at + k * size;
            && Slice(r, cell, f) == texts[k]
            && Slice(r, cell + f, CONTROL_WORD) == Slice(m, cell + f, CONTROL_WORD)
  {
    var addrs := Addresses(at, n, size);
    AddressesAreSpaced(at, n, size, |m|);
    FrontsAreSpaced(addrs, size, f, |m|);
    StoredReadsBack(m, addrs, texts, f, k);
    WordsAreApart(addrs, f, |m|, k);
    StoredLeavesRest(m, addrs, texts, f, addrs[k] + f, CONTROL_WORD);
  }

  lemma FrontsAreSpaced(addrs: seq<nat>, size: nat, f: nat, len: nat)
    requires Spaced(addrs, size, len) && f <= size
    ensures Spaced(addrs, f, len)
  {
  }

  lemma WordsAreApart(addrs: seq<nat>, f: nat, len: nat, k: nat)
    requires Spaced(addrs, f + CONTROL_WORD, len) && k < |addrs|
    ensures forall j :: 0 <= j < |addrs| ==> Apart(addrs[k] + f, CONTROL_WORD, addrs[j], f)
  {
  }

  // ----- serializing -----

  /** An array that holds accumulators or, if it has more dimensions, arrays; the elements are those
      of all the arrays in row-major order. */
  method SerializeArray(mem: array<byte>, at: nat, dims: seq<nat>, fs: seq<Feature>, size: nat, elems: seq<AccumOp>,
                        ghost texts: seq<seq<byte>>)
    requires dims != [] && |elems| == Count(dims) && Tell(elems, fs, texts)
    requires size == SharedSize(fs) && at + |elems| * size <= mem.Length
    modifies mem
    ensures mem[..] == Stored(old(mem[..]), Addresses(at, |elems|, size), texts)
    decreases |dims|, 2
  {
    if |dims| == 1 {
      assert dims[1..] == [] && Count(dims) == dims[0];
      SerializeElements(mem, at, fs, size, elems, texts);
    } else {
      SerializeArrays(mem, at, dims, fs, size, elems, texts);
    }
  }

  method SerializeElements(mem: array<byte>, at: nat, fs: seq<Feature>, size: nat, elems: seq<AccumOp>,
                           ghost texts: seq<seq<byte>>)
    requires Tell(elems, fs, texts) && size == SharedSize(fs) && at + |elems| * size <= mem.Length
    modifies mem
    ensures mem[..] == Stored(old(mem[..]), Addresses(at, |elems|, size), texts)
  {
    ghost var before := mem[..];
    for i := 0 to |elems|
      invariant Tell(elems, fs, texts) && SerializedUpTo(mem[..], before, at, i, size, texts)
    {
      ElementEnds(i, |elems|, size);
      NextAddress(at, i, size);
      assert texts[..i + 1][..i] == texts[..i];
      elems[i].Serialize(mem, at + i * size);
    }
    assert texts[..|elems|] == texts;
  }

  /** Where embedded array `i` of `c` elements begins. */
  function ChildAt(at: nat, i: nat, c: nat, size: nat): nat {
    at + i * (c * size)
  }

  method SerializeArrays(mem: array<byte>, at: nat, dims: seq<nat>, fs: seq<Feature>, size: nat, elems: seq<AccumOp>,
                         ghost texts: seq<seq<byte>>)
    requires |dims| > 1 && |elems| == Count(dims) && Tell(elems, fs, texts)
    requires size == SharedSize(fs) && at + |elems| * size <= mem.Length
    modifies mem
    ensures mem[..] == Stored(old(mem[..]), Addresses(at, |elems|, size), texts)
    decreases |dims|, 1
  {
    var c, lo: nat := Count(dims[1..]), 0;
    ghost var before := mem[..];
    for i := 0 to dims[0]
      invariant lo == i * c
      invariant lo <= |elems| && SerializedUpTo(mem[..], before, at, lo, size, texts)
    {
      SerializeChild(mem, at, dims, i, c, lo, fs, size, elems, texts, before);
      lo := lo + c;
    }
    assert texts[..|elems|] == texts;
  }

  /** Embedded array `i`, whose elements are the `c` from `lo` on. */
  method SerializeChild(mem: array<byte>, at: nat, dims: seq<nat>, i: nat, c: nat, lo: nat, fs: seq<Feature>, size: nat,
                        elems: seq<AccumOp>, ghost texts: seq<seq<byte>>, ghost before: seq<byte>)
    requires |dims| > 1 && c == Count(dims[1..]) && |elems| == dims[0] * c && Tell(elems, fs, texts)
    requires size == SharedSize(fs) && at + |elems| * size <= mem.Length
    requires i < dims[0] && lo == i * c && SerializedUpTo(mem[..], before, at, lo, size, texts)
    modifies mem
    ensures lo + c == (i + 1) * c && lo + c <= |elems|
    ensures SerializedUpTo(mem[..], before, at, lo + c, size, texts)
    decreases |dims|, 0
  {
    var child := ChildAt(at, i, c, size);
    ChildFits(at, i, dims[0], c, size, lo, child, |elems|);
    NextPart(before, at, lo, child, c, size, texts);
    SerializeArray(mem, child, dims[1..], fs, size, elems[lo..lo + c], texts[lo..lo + c]);
  }

  /** The first `n` elements are stored. */
  ghost predicate SerializedUpTo(m: seq<byte>, before: seq<byte>, at: nat, n: nat, size: nat, texts: seq<seq<byte>>) {
    n <= |texts| && m == Stored(before, Addresses(at, n, size), texts[..n])
  }

  lemma NextPart(before: seq<byte>, at: nat, lo: nat, child: nat, c: nat, size: nat, texts: seq<seq<byte>>)
    requires lo + c <= |texts|
    requires Addresses(at, lo + c, size) == Addresses(at, lo, size) + Addresses(child, c, size)
    ensures SerializedUpTo(Stored(Stored(before, Addresses(at, lo, size), texts[..lo]),
                                  Addresses(child, c, size), texts[lo..lo + c]),
                           before, at, lo + c, size, texts)
  {
    StoredConcat(before, Addresses(at, lo, size), texts[..lo], Addresses(child, c, size), texts[lo..lo + c]);
    JoinPrefix(texts, lo, lo + c);
  }

  lemma ChildPlace(at: nat, i: nat, n: nat, c: nat, size: nat, lo: nat, child: nat, total: nat)
    requires i < n && lo == i * c && child == ChildAt(at, i, c, size) && total == n * c
    ensures child == at + lo * size && child + c * size <= at + total * size && lo + c <= total
    ensures lo + c == (i + 1) * c
  {
    NestedOffset(at, i, n, c, 0, size, child, lo);
    assert 0 * size == 0;
    ElementEnds(i, n, c);
  }

  lemma ChildFits(at: nat, i: nat, n: nat, c: nat, size: nat, lo: nat, child: nat, total: nat)
    requires i < n && lo == i * c && child == ChildAt(at, i, c, size) && total == n * c
    ensures lo + c <= total && lo + c == (i + 1) * c && child + c * size <= at + total * size
    ensures Addresses(at, lo + c, size) == Addresses(at, lo, size) + Addresses(child, c, size)
  {
    ChildPlace(at, i, n, c, size, lo, child, total);
    AddressesSplit(at, lo, c, size);
  }

  // ----- writing -----

  /** What a write makes of accumulator and memory: with the control word at `wordAt` set, earlier
      samples go and the word is zeroed. */
  ghost predicate SampleAdded(before: seq<byte>, after: seq<byte>, wordAt: nat, acc: seq<int>, acc': seq<int>,
                              sample: int)
  {
    var flagged := Decode(Slice(before, wordAt, CONTROL_WORD)) != 0;
    && acc' == (if flagged then [] else acc) + [sample]
    && after == if flagged then Overlay(before, wordAt, Zeros(CONTROL_WORD)) else before
  }

  /** A write to accumulator `i` of a row. */
  method WriteRow(mem: array<byte>, at: nat, i: nat, fs: seq<Feature>, elems: seq<AccumOp>, sample: int,
                  ghost wordAt: nat)
    requires i < |elems| && elems[i].features == fs
    requires wordAt == ElementAt(at, i, SharedSize(fs)) + FeatureBytes(fs) && wordAt + CONTROL_WORD <= mem.Length
    modifies mem, elems[i]
    ensures SampleAdded(old(mem[..]), mem[..], wordAt, old(elems[i].acc), elems[i].acc, sample)
  {
    elems[i].Write(mem, ElementAt(at, i, SharedSize(fs)), sample);
  }

  /** A write goes down the arrays, one index each, to accumulator `k` and its control word. */
  method WriteElement(mem: array<byte>, at: nat, dims: seq<nat>, args: seq<int>, fs: seq<Feature>, size: nat,
                      elems: seq<AccumOp>, ghost k: nat, ghost wordAt: nat)
    requires |elems| == Count(dims) && forall i :: 0 <= i < |elems| ==> elems[i].features == fs
    requires size == SharedSize(fs) && at + |elems| * size <= mem.Length
    requires dims != [] && Given(dims, args)
    requires k < |elems| && k == CellIndex(dims, Indices(dims, args)) && wordAt == at + k * size + FeatureBytes(fs)
    modifies mem, elems[k]
    ensures SampleAdded(old(mem[..]), mem[..], wordAt, old(elems[k].acc), elems[k].acc, ValueIn(dims, args))
    decreases |dims|
  {
    if |dims| == 1 {
      var idx, value := EatIndices(args);
      ElementOfRow(at, dims, args, size);
      IndexOfRow(dims, args);
      WriteRow(mem, at, idx, fs, elems, value, wordAt);
    } else {
      GivenBelow(dims, args);
      var i: nat, c := args[0], Count(dims[1..]);
      CellIndexBound(dims[1..], Indices(dims[1..], args[1..]));
      var lo, below := i * c, ChildAt(at, i, c, size);
      WriteFits(at, i, dims[0], c, size, lo, below, k, |elems|);
      WriteElement(mem, below, dims[1..], args[1..], fs, size, elems[lo..lo + c], k - lo, wordAt);
    }
  }

  lemma IndexOfRow(dims: seq<nat>, args: seq<int>)
    requires |dims| == 1 && Given(dims, args)
    ensures CellIndex(dims, Indices(dims, args)) == args[0] < Count(dims) == dims[0]
  {
    var path := Indices(dims, args);
    assert dims[1..] == [] && path[1..] == [];
  }

  lemma WriteFits(at: nat, i: nat, n: nat, c: nat, size: nat, lo: nat, below: nat, k: nat, total: nat)
    requires i < n && lo == i * c && below == ChildAt(at, i, c, size) && lo <= k && total == n * c
    ensures lo + c <= total && below + c * size <= at + total * size
    ensures below + (k - lo) * size == at + k * size
  {
    ChildPlace(at, i, n, c, size, lo, below, total);
    assert lo * size + (k - lo) * size == k * size;
  }

  /** A write to an accumulator, or to one of arrays of them. */
  method WriteAccumulator(mem: array<byte>, at: nat, dims: seq<nat>, args: seq<int>, fs: seq<Feature>, size: nat,
                          elems: seq<AccumOp>, ghost k: nat, ghost wordAt: nat)
    requires |elems| == Count(dims) && forall i :: 0 <= i < |elems| ==> elems[i].features == fs
    requires size == SharedSize(fs) && at + |elems| * size <= mem.Length
    requires Given(dims, args) && (dims == [] ==> |args| == 1)
    requires k < |elems| && k == CellIndex(dims, Indices(dims, args)) && wordAt == at + k * size + FeatureBytes(fs)
    modifies mem, elems[k]
    ensures SampleAdded(old(mem[..]), mem[..], wordAt, old(elems[k].acc), elems[k].acc, ValueIn(dims, args))
  {
    if dims == [] {
      SingleCell(at, dims, args, size);
      assert k == 0;
      assert 0 * size == 0;
      WriteRow(mem, at, 0, fs, elems, args[0], wordAt);
    } else {
      WriteElement(mem, at, dims, args, fs, size, elems, k, wordAt);
    }
  }
}
