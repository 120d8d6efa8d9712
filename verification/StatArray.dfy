/** Nested arrays of statistics in shared memory. */
module StatArray {
  import opened Arithmetic
  import opened Bytes
  import opened Sequences
  import opened Text
  import opened IndexCodec
  import opened StatCell

  /** What the array needs to know of the stats it holds: the size of their shared type and what
      dumping, clearing and describing one amounts to. */
  datatype Repr = Repr(
    size: nat,
    show: seq<byte> -> string,
    clear: seq<byte> -> seq<byte>,
    title: Option<seq<byte> -> string>,
    typeTitle: string)
  {
    ghost predicate KeepsSize() {
      forall cell :: |cell| == size ==> |clear(cell)| == size
    }

    function TitleOr(before: string, cell: seq<byte>): string {
      if title.Some? then title.value(cell) else before
    }
  }

  /** What a command can see and change: memory and the answer being collected. */
  datatype View = View(mem: seq<byte>, entries: seq<string>, title: string)

  /** A dump shows the cell at `at`, a clear clears it, other commands leave it alone. */
  function Visit(v: View, at: nat, repr: Repr, cmd: StatCmd): (r: View)
    ensures |r.mem| == |v.mem|
  {
    var cell := Slice(v.mem, at, repr.size);
    if cmd == DumpStat then View(v.mem, v.entries + [repr.show(cell)], repr.TitleOr(v.title, cell))
    else if cmd == ClearStat then v.(mem := Overlay(v.mem, at, repr.clear(cell)))
    else v
  }

  /** The command on the cells at the given addresses, one after the other. */
  function VisitAll(v: View, addrs: seq<nat>, repr: Repr, cmd: StatCmd): (r: View)
    ensures |r.mem| == |v.mem|
  {
    if addrs == [] then v
    else Visit(VisitAll(v, addrs[..|addrs| - 1], repr, cmd), addrs[|addrs| - 1], repr, cmd)
  }

  lemma {:induction false} VisitConcat(v: View, a: seq<nat>, b: seq<nat>, repr: Repr, cmd: StatCmd)
    ensures VisitAll(VisitAll(v, a, repr, cmd), b, repr, cmd) == VisitAll(v, a + b, repr, cmd)
    decreases |b|
  {
    if b == [] {
      assert a + b == a;
    } else {
      FrontOfConcat(a, b);
      VisitConcat(v, a, b[..|b| - 1], repr, cmd);
    }
  }

  // ----- the addresses a command visits -----

  /** The addresses of `n` elements of `size` bytes each from `at` on. */
  function Addresses(at: nat, n: nat, size: nat): (r: seq<nat>)
    ensures |r| == n
  {
    seq(n, k requires 0 <= k => at + k * size)
  }

  /** The cells of nested arrays at `at`, in the order the nested loops reach them. */
  function Visited(at: nat, dims: seq<nat>, size: nat): seq<nat>
    requires dims != []
    decreases |dims|, 1
  {
    if |dims| == 1 then Addresses(at, dims[0], size)
    else VisitedArrays(at, dims, size, dims[0])
  }

  /** The cells of the first `n` embedded arrays. */
  function VisitedArrays(at: nat, dims: seq<nat>, size: nat, n: nat): seq<nat>
    requires |dims| > 1
    decreases |dims|, 0, n
  {
    if n == 0 then []
    else VisitedArrays(at, dims, size, n - 1)
         + Visited(at + (n - 1) * (Count(dims[1..]) * size), dims[1..], size)
  }

  lemma AddressesSplit(at: nat, a: nat, b: nat, size: nat)
    ensures Addresses(at, a + b, size) == Addresses(at, a, size) + Addresses(at + a * size, b, size)
  {
    forall k | a <= k < a + b ensures at + k * size == at + a * size + (k - a) * size {
      assert k * size == a * size + (k - a) * size;
    }
  }

  /** The nested loops reach the cells one after the other, as they lie in memory. */
  lemma {:induction false} VisitedIsFlat(at: nat, dims: seq<nat>, size: nat)
    requires dims != []
    ensures Visited(at, dims, size) == Addresses(at, Count(dims), size)
    decreases |dims|, 1
  {
    if |dims| == 1 {
      assert dims[1..] == [] && Count(dims) == dims[0];
    } else {
      VisitedArraysAreFlat(at, dims, size, dims[0]);
    }
  }

  lemma {:induction false} VisitedArraysAreFlat(at: nat, dims: seq<nat>, size: nat, n: nat)
    requires |dims| > 1
    ensures VisitedArrays(at, dims, size, n) == Addresses(at, n * Count(dims[1..]), size)
    decreases |dims|, 0, n
  {
    if n > 0 {
      var c := Count(dims[1..]);
      VisitedArraysAreFlat(at, dims, size, n - 1);
      VisitedIsFlat(at + (n - 1) * (c * size), dims[1..], size);
      OneArrayMore(at, n - 1, c, size);
    }
  }

  lemma OneArrayMore(at: nat, n: nat, c: nat, size: nat)
    ensures Addresses(at, n * c, size) + Addresses(at + n * (c * size), c, size) == Addresses(at, (n + 1) * c, size)
  {
    ProductIsAssociative(n, c, size);
    assert n * c + c == (n + 1) * c;
    AddressesSplit(at, n * c, c, size);
  }

  // ----- what a dump and a clear amount to -----

  /** The cells of `size` bytes at the given addresses. */
  function Cells(m: seq<byte>, addrs: seq<nat>, size: nat): (cs: seq<seq<byte>>)
    ensures |cs| == |addrs|
  {
    if addrs == [] then []
    else Cells(m, addrs[..|addrs| - 1], size) + [Slice(m, addrs[|addrs| - 1], size)]
  }

  function ShownAll(repr: Repr, cells: seq<seq<byte>>): (r: seq<string>)
    ensures |r| == |cells| && forall k :: 0 <= k < |cells| ==> r[k] == repr.show(cells[k])
  {
    seq(|cells|, k requires 0 <= k < |cells| => repr.show(cells[k]))
  }

  lemma {:induction false} CellAt(m: seq<byte>, addrs: seq<nat>, size: nat, k: nat)
    requires k < |addrs|
    ensures Cells(m, addrs, size)[k] == Slice(m, addrs[k], size)
    decreases |addrs|
  {
    if k < |addrs| - 1 {
      CellAt(m, addrs[..|addrs| - 1], size, k);
    }
  }

  /** A dump changes no memory and shows every cell, in order; the title is the last cell's. */
  lemma {:induction false} DumpShowsAll(v: View, addrs: seq<nat>, repr: Repr)
    ensures var r := VisitAll(v, addrs, repr, DumpStat);
            && r.mem == v.mem
            && r.entries == v.entries + ShownAll(repr, Cells(v.mem, addrs, repr.size))
            && r.title == if addrs == [] then v.title
                          else repr.TitleOr(v.title, Slice(v.mem, addrs[|addrs| - 1], repr.size))
    decreases |addrs|
  {
    if addrs != [] {
      var front := addrs[..|addrs| - 1];
      DumpShowsAll(v, front, repr);
      assert ShownAll(repr, Cells(v.mem, addrs, repr.size)) ==
             ShownAll(repr, Cells(v.mem, front, repr.size)) + [repr.show(Slice(v.mem, addrs[|addrs| - 1], repr.size))];
    }
  }

  /** The dump of at least one element. */
  lemma DumpOfElements(mem: seq<byte>, addrs: seq<nat>, repr: Repr, size: nat, k: nat, cell: seq<byte>,
                       last: seq<byte>)
    requires k < |addrs| && size == repr.size
    requires cell == Slice(mem, addrs[k], size) && last == Slice(mem, addrs[|addrs| - 1], size)
    ensures var r := VisitAll(View(mem, [], ""), addrs, repr, DumpStat);
            |r.entries| == |addrs| && r.entries[k] == repr.show(cell) && r.title == repr.TitleOr("", last)
  {
    DumpShowsAll(View(mem, [], ""), addrs, repr);
    CellAt(mem, addrs, size, k);
  }

  /** The cells lie in memory `len` bytes long, each behind the one before. */
  ghost predicate Spaced(addrs: seq<nat>, size: nat, len: nat) {
    && (forall k :: 0 <= k < |addrs| ==> addrs[k] + size <= len)
    && (forall j, k :: 0 <= j < k < |addrs| ==> addrs[j] + size <= addrs[k])
  }

  lemma {:induction false} ClearSaysNothing(v: View, addrs: seq<nat>, repr: Repr)
    ensures var r := VisitAll(v, addrs, repr, ClearStat); r.entries == v.entries && r.title == v.title
    decreases |addrs|
  {
    if addrs != [] {
      ClearSaysNothing(v, addrs[..|addrs| - 1], repr);
    }
  }

  /** A clear touches no bytes outside the cells. */
  lemma {:induction false} ClearLeavesRest(v: View, addrs: seq<nat>, repr: Repr, i: nat, n: nat)
    requires repr.KeepsSize() && Spaced(addrs, repr.size, |v.mem|)
    requires forall k :: 0 <= k < |addrs| ==> Apart(i, n, addrs[k], repr.size)
    ensures Slice(VisitAll(v, addrs, repr, ClearStat).mem, i, n) == Slice(v.mem, i, n)
    decreases |addrs|
  {
    if addrs != [] {
      var front, last := addrs[..|addrs| - 1], addrs[|addrs| - 1];
      var w := VisitAll(v, front, repr, ClearStat);
      ClearLeavesRest(v, front, repr, i, n);
      assert Apart(i, n, last, repr.size);
      SliceOfOverlay(w.mem, last, repr.clear(Slice(w.mem, last, repr.size)), i, n);
    }
  }

  /** A clear clears every cell, once. */
  lemma {:induction false} ClearClearsAll(v: View, addrs: seq<nat>, repr: Repr, k: nat)
    requires repr.KeepsSize() && Spaced(addrs, repr.size, |v.mem|) && k < |addrs|
    ensures Slice(VisitAll(v, addrs, repr, ClearStat).mem, addrs[k], repr.size) ==
            repr.clear(Slice(v.mem, addrs[k], repr.size))
    decreases |addrs|
  {
    var front, last, z := addrs[..|addrs| - 1], addrs[|addrs| - 1], repr.size;
    var w := VisitAll(v, front, repr, ClearStat);
    SpacedFront(addrs, z, |v.mem|);
    if k < |front| {
      ClearClearsAll(v, front, repr, k);
      ClearElsewhere(w, last, repr, addrs[k]);
    } else {
      ClearLeavesRest(v, front, repr, last, z);
      ClearHere(w, last, repr);
    }
  }

  lemma SpacedFront(addrs: seq<nat>, size: nat, len: nat)
    requires addrs != [] && Spaced(addrs, size, len)
    ensures var front, last := addrs[..|addrs| - 1], addrs[|addrs| - 1];
            && Spaced(front, size, len) && last + size <= len
            && (forall k :: 0 <= k < |front| ==> addrs[k] + size <= last && Apart(last, size, front[k], size))
  {
  }

  lemma ClearHere(w: View, at: nat, repr: Repr)
    requires repr.KeepsSize() && at + repr.size <= |w.mem|
    ensures Slice(Visit(w, at, repr, ClearStat).mem, at, repr.size) == repr.clear(Slice(w.mem, at, repr.size))
  {
    SliceOverlaid(w.mem, at, repr.clear(Slice(w.mem, at, repr.size)));
  }

  lemma ClearElsewhere(w: View, at: nat, repr: Repr, i: nat)
    requires repr.KeepsSize() && at + repr.size <= |w.mem| && i + repr.size <= at
    ensures Slice(Visit(w, at, repr, ClearStat).mem, i, repr.size) == Slice(w.mem, i, repr.size)
  {
    SliceOfOverlay(w.mem, at, repr.clear(Slice(w.mem, at, repr.size)), i, repr.size);
  }

  predicate Apart(i: nat, n: nat, at: nat, size: nat) {
    i + n <= at || at + size <= i
  }

  lemma AddressesAreSpaced(at: nat, n: nat, size: nat, len: nat)
    requires at + n * size <= len
    ensures Spaced(Addresses(at, n, size), size, len)
  {
    forall k | 0 <= k < n ensures at + k * size + size <= len {
      ElementEnds(k, n, size);
    }
    forall j, k | 0 <= j < k < n ensures at + j * size + size <= at + k * size {
      ElementEnds(j, k, size);
    }
  }

  lemma ElementEnds(k: nat, n: nat, size: nat)
    requires k < n
    ensures k * size + size <= n * size
  {
    ProductGrows(size, k + 1, n);
    assert size * (k + 1) == k * size + size && size * n == n * size;
  }

  // ----- commands -----

  /** The sizes a command leaves behind `dimensionSizes`: an array of size 0 hides those inside it. */
  function Pushed(cmd: StatCmd, dims: seq<nat>): seq<nat>
    requires dims != []
  {
    if |dims| == 1 || (dims[0] == 0 && cmd != PrintStatType) then dims[..1]
    else dims[..1] + Pushed(cmd, dims[1..])
  }

  /** The full list of sizes comes out exactly when only the innermost size may be 0. */
  lemma {:induction false} PushedIsAllSizes(cmd: StatCmd, dims: seq<nat>)
    requires dims != []
    ensures Pushed(cmd, dims) == dims <==> cmd == PrintStatType || Positive(dims[..|dims| - 1])
    ensures |Pushed(cmd, dims)| <= |dims|
  {
    if |dims| > 1 {
      PushedIsAllSizes(cmd, dims[1..]);
      assert dims == dims[..1] + dims[1..];
      assert dims[1..][..|dims[1..]| - 1] == dims[..|dims| - 1][1..];
      if dims[0] == 0 && cmd != PrintStatType {
        assert |Pushed(cmd, dims)| == 1;
      } else if Pushed(cmd, dims) == dims {
        assert Pushed(cmd, dims)[1..] == Pushed(cmd, dims[1..]);
      } else {
        assert Pushed(cmd, dims[1..]) != dims[1..];
      }
      assert Positive(dims[..|dims| - 1]) <==> dims[0] > 0 && Positive(dims[..|dims| - 1][1..]) by {
        var f := dims[..|dims| - 1];
        assert f[0] == dims[0] && forall i :: 1 <= i < |f| ==> f[i] == f[1..][i - 1];
      }
    }
  }

  /** An array pushes its own size, and then whatever its first element pushes. */
  lemma PushedStep(before: seq<nat>, cmd: StatCmd, dims: seq<nat>)
    requires dims != []
    ensures before + Pushed(cmd, dims) == before + [dims[0]] +
            if |dims| == 1 || (dims[0] == 0 && cmd != PrintStatType) then [] else Pushed(cmd, dims[1..])
  {
    assert dims[..1] == [dims[0]];
  }

  function ArrayTitle(dims: seq<nat>, repr: Repr): string {
    if dims == [] then repr.typeTitle
    else "STAT_ARRAY [" + ArrayTitle(dims[1..], repr) + "] size = " + NumText(dims[0])
  }

  /** The description of nested arrays: an opening for each dimension, the description of an element, and
      then the sizes, the innermost first. */
  lemma {:induction false} ArrayTitleMeans(dims: seq<nat>, repr: Repr, before: seq<string>, sizes: seq<string>)
    requires |before| == |sizes| == |dims| && forall i :: 0 <= i < |dims| ==> before[i] == "STAT_ARRAY ["
    requires forall i :: 0 <= i < |dims| ==> sizes[i] == "] size = " + NumText(dims[|dims| - 1 - i])
    ensures ArrayTitle(dims, repr) == Flat(before, |dims|) + repr.typeTitle + Flat(sizes, |dims|)
    decreases |dims|
  {
    if dims != [] {
      var n := |dims| - 1;
      ArrayTitleMeans(dims[1..], repr, before[1..], sizes[..n]);
      FlatOfTail(before, n);
      FlatOfPrefix(sizes, n);
      assert sizes[n] == "] size = " + NumText(dims[0]);
      WrapTitle("STAT_ARRAY [", Flat(before[1..], n), repr.typeTitle, Flat(sizes, n), "] size = ", NumText(dims[0]));
    }
  }

  lemma WrapTitle(opening: string, a: string, title: string, b: string, closing: string, size: string)
    ensures opening + (a + title + b) + closing + size == opening + a + title + (b + (closing + size))
  {
  }

  ghost function ViewOf(mem: array<byte>, out: StatCmdOutput): View
    reads mem, out
  {
    View(mem[..], out.entries, out.entryTitle)
  }

  /** A single stat. */
  method DoLeafCommand(mem: array<byte>, at: nat, repr: Repr, cmd: StatCmd, out: StatCmdOutput)
    requires repr.KeepsSize() && at + repr.size <= mem.Length
    modifies mem, out
    ensures out.dimensionSizes == old(out.dimensionSizes)
    ensures cmd != PrintStatType ==> ViewOf(mem, out) == Visit(old(ViewOf(mem, out)), at, repr, cmd)
    ensures cmd == PrintStatType ==> ViewOf(mem, out) == old(ViewOf(mem, out)).(title := repr.typeTitle)
  {
    var cell := mem[at..at + repr.size];
    assert cell == Slice(mem[..], at, repr.size);
    if cmd == DumpStat {
      out.entryTitle := repr.TitleOr(out.entryTitle, cell);
      out.entries := out.entries + [repr.show(cell)];
    } else if cmd == PrintStatType {
      out.entryTitle := repr.typeTitle;
    } else if cmd == ClearStat {
      CopyBytes(repr.clear(cell), mem, at);
    }
  }

  /** The command of an array that holds stats or, if it has more dimensions, arrays. */
  method DoStatCommand(mem: array<byte>, at: nat, dims: seq<nat>, repr: Repr, cmd: StatCmd, out: StatCmdOutput)
    requires repr.KeepsSize()
    requires dims != [] && at + Count(dims) * repr.size <= mem.Length
    requires cmd == PrintStatType ==> Positive(dims)
    modifies mem, out
    ensures out.dimensionSizes == old(out.dimensionSizes) + Pushed(cmd, dims)
    ensures cmd != PrintStatType ==>
              ViewOf(mem, out) == VisitAll(old(ViewOf(mem, out)), Visited(at, dims, repr.size), repr, cmd)
    ensures cmd == PrintStatType ==> ViewOf(mem, out) == old(ViewOf(mem, out)).(title := ArrayTitle(dims, repr))
    decreases |dims|, 2
  {
    PushedStep(out.dimensionSizes, cmd, dims);
    out.dimensionSizes := out.dimensionSizes + [dims[0]];
    if cmd == PrintStatType {
      DescribeFirst(mem, at, dims, repr, out);
      out.entryTitle := "STAT_ARRAY [" + out.entryTitle + "] size = " + NumText(dims[0]);
    } else if |dims| == 1 {
      assert dims[1..] == [] && Count(dims) == dims[0];
      DoElements(mem, at, dims[0], repr, cmd, out);
    } else {
      DoArrays(mem, at, dims, repr, cmd, out);
    }
  }

  /** The description of an array starts with that of its first element. */
  method DescribeFirst(mem: array<byte>, at: nat, dims: seq<nat>, repr: Repr, out: StatCmdOutput)
    requires repr.KeepsSize() && Positive(dims)
    requires dims != [] && at + Count(dims) * repr.size <= mem.Length
    modifies mem, out
    ensures out.dimensionSizes == old(out.dimensionSizes) + if |dims| == 1 then [] else Pushed(PrintStatType, dims[1..])
    ensures ViewOf(mem, out) == old(ViewOf(mem, out)).(title := ArrayTitle(dims[1..], repr))
    decreases |dims|, 0
  {
    FirstElement(dims, repr.size);
    if |dims| == 1 {
      DoLeafCommand(mem, at, repr, PrintStatType, out);
    } else {
      DoStatCommand(mem, at, dims[1..], repr, PrintStatType, out);
    }
  }

  lemma FirstElement(dims: seq<nat>, size: nat)
    requires dims != [] && Positive(dims)
    ensures Count(dims[1..]) * size <= Count(dims) * size
    ensures |dims| == 1 ==> size <= Count(dims) * size
    ensures Positive(dims[1..])
  {
    var c := Count(dims[1..]);
    ProductGrows(c, 1, dims[0]);
    assert c * dims[0] == Count(dims);
    ProductGrows(size, c, Count(dims));
    assert size * c == c * size && size * Count(dims) == Count(dims) * size;
  }

  method DoElements(mem: array<byte>, at: nat, n: nat, repr: Repr, cmd: StatCmd, out: StatCmdOutput)
    requires repr.KeepsSize() && at + n * repr.size <= mem.Length
    requires cmd != PrintStatType
    modifies mem, out
    ensures out.dimensionSizes == old(out.dimensionSizes)
    ensures ViewOf(mem, out) == VisitAll(old(ViewOf(mem, out)), Addresses(at, n, repr.size), repr, cmd)
  {
    for i := 0 to n
      invariant out.dimensionSizes == old(out.dimensionSizes)
      invariant ViewOf(mem, out) == VisitAll(old(ViewOf(mem, out)), Addresses(at, i, repr.size), repr, cmd)
    {
      ElementEnds(i, n, repr.size);
      NextAddress(at, i, repr.size);
      DoLeafCommand(mem, at + i * repr.size, repr, cmd, out);
    }
  }

  lemma NextVisit(v: View, at: nat, n: nat, size: nat, addr: nat, repr: Repr, cmd: StatCmd)
    requires addr == at + n * size
    ensures VisitAll(v, Addresses(at, n + 1, size), repr, cmd) ==
            Visit(VisitAll(v, Addresses(at, n, size), repr, cmd), addr, repr, cmd)
  {
    NextAddress(at, n, size);
  }

  lemma NextAddress(at: nat, i: nat, size: nat)
    ensures var r := Addresses(at, i + 1, size);
            r[..|r| - 1] == Addresses(at, i, size) && r[|r| - 1] == at + i * size
  {
  }

  /** The loop over embedded arrays, which collects the inner sizes from the first of them. */
  method DoArrays(mem: array<byte>, at: nat, dims: seq<nat>, repr: Repr, cmd: StatCmd, out: StatCmdOutput)
    requires repr.KeepsSize() && |dims| > 1 && at + Count(dims) * repr.size <= mem.Length
    requires cmd != PrintStatType
    modifies mem, out
    ensures out.dimensionSizes ==
            if dims[0] == 0 then old(out.dimensionSizes) else old(out.dimensionSizes) + Pushed(cmd, dims[1..])
    ensures ViewOf(mem, out) == VisitAll(old(ViewOf(mem, out)), Visited(at, dims, repr.size), repr, cmd)
    decreases |dims|, 1
  {
    var dimSizes := out.dimensionSizes;
    var n, stride := dims[0], Count(dims[1..]) * repr.size;
    ghost var v0 := ViewOf(mem, out);
    for i := 0 to n
      invariant i == 0 ==> out.dimensionSizes == dimSizes == old(out.dimensionSizes)
      invariant i > 0 ==> out.dimensionSizes == [] && dimSizes == old(out.dimensionSizes) + Pushed(cmd, dims[1..])
      invariant ViewOf(mem, out) == VisitAll(v0, VisitedArrays(at, dims, repr.size, i), repr, cmd)
    {
      DoChild(mem, at, at + i * stride, dims, i, repr, cmd, out, v0);
      if i == 0 {
        dimSizes := out.dimensionSizes;
      }
      out.dimensionSizes := [];
    }
    out.dimensionSizes := dimSizes;
  }

  /** Embedded array `i`, at `child`. */
  method DoChild(mem: array<byte>, at: nat, child: nat, dims: seq<nat>, i: nat, repr: Repr, cmd: StatCmd,
                 out: StatCmdOutput, ghost v0: View)
    requires repr.KeepsSize() && |dims| > 1 && at + Count(dims) * repr.size <= mem.Length
    requires cmd != PrintStatType && i < dims[0] && child == at + i * (Count(dims[1..]) * repr.size)
    requires ViewOf(mem, out) == VisitAll(v0, VisitedArrays(at, dims, repr.size, i), repr, cmd)
    modifies mem, out
    ensures out.dimensionSizes == old(out.dimensionSizes) + Pushed(cmd, dims[1..])
    ensures ViewOf(mem, out) == VisitAll(v0, VisitedArrays(at, dims, repr.size, i + 1), repr, cmd)
    decreases |dims|, 0
  {
    ArrayStep(at, dims, repr.size, i, child);
    VisitConcat(v0, VisitedArrays(at, dims, repr.size, i), Visited(child, dims[1..], repr.size), repr, cmd);
    DoStatCommand(mem, child, dims[1..], repr, cmd, out);
  }

  lemma ArrayStep(at: nat, dims: seq<nat>, size: nat, i: nat, child: nat)
    requires |dims| > 1 && i < dims[0] && child == at + i * (Count(dims[1..]) * size)
    ensures child + Count(dims[1..]) * size <= at + Count(dims) * size
    ensures VisitedArrays(at, dims, size, i + 1) ==
            VisitedArrays(at, dims, size, i) + Visited(child, dims[1..], size)
  {
    ElementEnds(i, dims[0], Count(dims[1..]) * size);
    ProductIsAssociative(dims[0], Count(dims[1..]), size);
  }

  // ----- writes -----

  /** The arguments of a write: an index in range for each dimension and, behind them, at least one
      more. */
  predicate Given(dims: seq<nat>, args: seq<int>) {
    |args| > |dims| && forall i :: 0 <= i < |dims| ==> 0 <= args[i] < dims[i]
  }

  /** The indices that count. */
  function Indices(dims: seq<nat>, args: seq<int>): (path: seq<nat>)
    requires Given(dims, args)
    ensures InBounds(path, dims)
  {
    seq(|dims|, i requires 0 <= i < |dims| => args[i])
  }

  /** The value of a write: a single stat takes the first argument and ignores what follows, arrays
      take the last one and ignore what comes between indices and value. */
  function ValueIn(dims: seq<nat>, args: seq<int>): int
    requires |args| > |dims|
  {
    if dims == [] then args[0] else args[|args| - 1]
  }

  /** The arguments without superfluous ones: the indices that count and the last argument. */
  function Trimmed(dims: seq<nat>, args: seq<int>): seq<int>
    requires |args| > |dims|
  {
    args[..|dims|] + [args[|args| - 1]]
  }

  /** Superfluous indices lead to the same cell with the same value, except that a single stat takes
      the first of them for its value. */
  lemma SuperfluousIndices(dims: seq<nat>, args: seq<int>)
    requires Given(dims, args)
    ensures Given(dims, Trimmed(dims, args)) && Indices(dims, Trimmed(dims, args)) == Indices(dims, args)
    ensures ValueIn(dims, Trimmed(dims, args)) == args[|args| - 1]
    ensures ValueIn(dims, args) == ValueIn(dims, Trimmed(dims, args)) <==> dims != [] || args[0] == args[|args| - 1]
  {
  }

  /** The byte address of the cell a path leads to. */
  function CellAddress(at: nat, dims: seq<nat>, path: seq<nat>, width: nat): nat
    requires |path| == |dims|
  {
    at + CellIndex(dims, path) * width
  }

  lemma {:induction false} CellLiesWithin(at: nat, dims: seq<nat>, path: seq<nat>, width: nat)
    requires InBounds(path, dims)
    ensures at <= CellAddress(at, dims, path, width)
    ensures CellAddress(at, dims, path, width) + width <= at + Count(dims) * width
  {
    CellIndexBound(dims, path);
    ElementEnds(CellIndex(dims, path), Count(dims), width);
  }

  lemma NestedOffset(at: nat, i: nat, n: nat, c: nat, e: nat, width: nat, below: nat, index: nat)
    requires i < n && below == at + i * (c * width) && index == i * c + e
    ensures below + e * width == at + index * width
    ensures below + c * width <= at + n * c * width
  {
    ElementEnds(i, n, c * width);
    ProductIsAssociative(n, c, width);
    ProductIsAssociative(i, c, width);
    assert index * width == i * c * width + e * width;
  }

  /** What an embedded array is given: the arguments behind the first index. */
  lemma GivenBelow(dims: seq<nat>, args: seq<int>)
    requires |dims| > 1 && Given(dims, args)
    ensures 0 <= args[0] < dims[0] && Given(dims[1..], args[1..])
    ensures Indices(dims, args)[0] == args[0] && Indices(dims[1..], args[1..]) == Indices(dims, args)[1..]
    ensures ValueIn(dims[1..], args[1..]) == ValueIn(dims, args)
  {
    assert forall i :: 0 <= i < |dims| - 1 ==> args[1..][i] == args[i + 1] && dims[1..][i] == dims[i + 1];
  }

  /** Where element `i` of elements of `size` bytes lies. */
  function ElementAt(at: nat, i: int, size: nat): nat
    requires i >= 0
  {
    at + i * size
  }

  /** Going one array down keeps the address that the rest of the indices leads to. */
  lemma AddressBelow(at: nat, dims: seq<nat>, args: seq<int>, width: nat)
    requires |dims| > 1 && Given(dims, args)
    ensures Given(dims[1..], args[1..])
    ensures var below := ElementAt(at, args[0], Count(dims[1..]) * width);
            && CellAddress(below, dims[1..], Indices(dims[1..], args[1..]), width) ==
               CellAddress(at, dims, Indices(dims, args), width)
            && below + Count(dims[1..]) * width <= at + Count(dims) * width
  {
    GivenBelow(dims, args);
    var path, c := Indices(dims, args), Count(dims[1..]);
    var below, e, index := ElementAt(at, args[0], c * width), CellIndex(dims[1..], path[1..]), CellIndex(dims, path);
    NestedOffset(at, path[0], dims[0], c, e, width, below, index);
    assert CellAddress(below, dims[1..], path[1..], width) == below + e * width;
  }

  /** The element and the value an array of stats makes of its arguments: indices between the first
      and the value are eaten one by one. */
  method EatIndices(args: seq<int>) returns (idx: int, value: int)
    requires |args| >= 2
    ensures idx == args[0] && value == args[|args| - 1]
    decreases |args|
  {
    if |args| == 2 {
      idx, value := args[0], args[1];
    } else {
      idx, value := EatIndices([args[0]] + args[2..]);
    }
  }

  /** Memory after a value was written to the cell at `addr`. */
  function WrittenTo(mem: seq<byte>, addr: nat, policy: Policy, width: nat, value: int): seq<byte> {
    Overlay(mem, addr, Written(policy, Slice(mem, addr, width), value))
  }

  /** A single stat stores its first argument. */
  method WriteCell(mem: array<byte>, at: nat, args: seq<int>, policy: Policy, width: nat)
    requires |args| > 0 && at + width <= mem.Length
    modifies mem
    ensures mem[..] == WrittenTo(old(mem[..]), at, policy, width, args[0])
  {
    var cell := mem[at..at + width];
    assert cell == Slice(mem[..], at, width);
    CopyBytes(Written(policy, cell, args[0]), mem, at);
  }

  /** A write goes down the arrays, one index each, to the stat it changes. */
  method WriteArray(mem: array<byte>, at: nat, dims: seq<nat>, args: seq<int>, policy: Policy, width: nat,
                    ghost addr: nat)
    requires dims != [] && Given(dims, args) && at + Count(dims) * width <= mem.Length
    requires addr == CellAddress(at, dims, Indices(dims, args), width)
    modifies mem
    ensures mem[..] == WrittenTo(old(mem[..]), addr, policy, width, ValueIn(dims, args))
    decreases |dims|
  {
    if |dims| == 1 {
      var idx, value := EatIndices(args);
      ElementOfRow(at, dims, args, width);
      WriteCell(mem, ElementAt(at, idx, width), [value], policy, width);
    } else {
      GivenBelow(dims, args);
      AddressBelow(at, dims, args, width);
      var below := ElementAt(at, args[0], Count(dims[1..]) * width);
      WriteArray(mem, below, dims[1..], args[1..], policy, width, addr);
    }
  }

  /** A write to a statistic, of whatever depth. */
  method Write(mem: array<byte>, at: nat, dims: seq<nat>, args: seq<int>, policy: Policy, width: nat)
    requires Given(dims, args) && at + Count(dims) * width <= mem.Length
    modifies mem
    ensures mem[..] == WrittenTo(old(mem[..]), CellAddress(at, dims, Indices(dims, args), width), policy, width,
                                 ValueIn(dims, args))
  {
    ghost var addr := CellAddress(at, dims, Indices(dims, args), width);
    if dims == [] {
      SingleCell(at, dims, args, width);
      WriteCell(mem, at, args, policy, width);
    } else {
      WriteArray(mem, at, dims, args, policy, width, addr);
    }
  }

  lemma SingleCell(at: nat, dims: seq<nat>, args: seq<int>, width: nat)
    requires dims == [] && Given(dims, args)
    ensures CellAddress(at, dims, Indices(dims, args), width) == at && Count(dims) * width == width
  {
    assert Indices(dims, args) == [] && CellIndex([], []) == 0 && Count([]) == 1;
    assert 0 * width == 0 && 1 * width == width;
  }

  lemma ElementOfRow(at: nat, dims: seq<nat>, args: seq<int>, width: nat)
    requires |dims| == 1 && Given(dims, args)
    ensures CellAddress(at, dims, Indices(dims, args), width) == ElementAt(at, args[0], width)
    ensures ElementAt(at, args[0], width) + width <= at + Count(dims) * width
  {
    var path := Indices(dims, args);
    assert dims[1..] == [] && path[1..] == [];
    assert Count(dims) == dims[0] && CellIndex(dims, path) == path[0];
    ElementEnds(args[0], dims[0], width);
  }

  // ----- the stats of the library as array elements -----

  function ReprOf(stat: Stat): Repr {
    Repr(CellSize(stat), cell => Shown(stat, cell), cell => Cleared(stat, cell),
         if stat.Accum? then Some(cell => Titles(stat.features, Words(stat.features, cell))) else None,
         TypeTitle(stat))
  }

  lemma ReprKeepsSize(stat: Stat)
    ensures ReprOf(stat).KeepsSize()
  {
  }
}
