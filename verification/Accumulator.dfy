/** Accumulators: samples collected by the operational process, and their summary in shared memory. */
module Accumulator {
  import opened Arithmetic
  import opened Bytes
  import opened Sequences
  import opened Text
  import opened StatCell
  import opened StatArray

  /** A feature as the handlers for counts, means and the like make it: 0 without samples, and its name
      for a title. */
  function Common(name: string, width: nat, extract: seq<int> -> nat, show: nat -> string): Feature {
    Feature(name, width, (samples: seq<int>) => if |samples| > 0 then extract(samples) else 0, show, _ => name)
  }

  /** The title is the name, whatever the word. */
  ghost predicate Named(f: Feature) {
    forall w: nat :: f.title(w) == f.name
  }

  lemma CommonIsNamed(name: string, width: nat, extract: seq<int> -> nat, show: nat -> string)
    ensures var f := Common(name, width, extract, show);
            && Named(f) && f.name == name && f.width == width && f.show == show
            && (forall samples :: f.extract(samples) == if samples == [] then 0 else extract(samples))
  {
  }

  /** Named features are titled by their names, whatever lies in memory. */
  lemma {:induction false} NamedTitles(fs: seq<Feature>, ws: seq<nat>, n: nat)
    requires n <= |fs| == |ws| && forall i :: 0 <= i < |fs| ==> Named(fs[i])
    ensures TitlesTo(fs, ws, n) == NamesTo(fs, n)
  {
    if n > 0 {
      NamedTitles(fs, ws, n - 1);
    }
  }

  /** The bytes the values of the first `n` features take in shared memory, in the features' order. */
  function SummaryTo(fs: seq<Feature>, samples: seq<int>, n: nat): (s: seq<byte>)
    requires n <= |fs|
    ensures |s| == FeatureOffset(fs, n)
  {
    if n == 0 then [] else SummaryTo(fs, samples, n - 1) + Encode(fs[n - 1].extract(samples), fs[n - 1].width)
  }

  function Summary(fs: seq<Feature>, samples: seq<int>): (s: seq<byte>)
    ensures |s| == FeatureBytes(fs)
  {
    SummaryTo(fs, samples, |fs|)
  }

  function SampleWord(f: Feature, samples: seq<int>): nat {
    f.extract(samples) % Capacity(f.width)
  }

  /** The features' values for the samples, as far as their types can hold them. */
  function SampleWords(fs: seq<Feature>, samples: seq<int>): (ws: seq<nat>)
    ensures |ws| == |fs| && forall i :: 0 <= i < |fs| ==> ws[i] == SampleWord(fs[i], samples)
  {
    seq(|fs|, i requires 0 <= i < |fs| => SampleWord(fs[i], samples))
  }

  /** The front of a cell whose accumulator was last serialized with these samples, or never. */
  function Served(fs: seq<Feature>, served: Option<seq<int>>): (s: seq<byte>)
    ensures |s| == FeatureBytes(fs)
  {
    match served
    case None => Zeros(FeatureBytes(fs))
    case Some(samples) => Summary(fs, samples)
  }

  function ServedWords(fs: seq<Feature>, served: Option<seq<int>>): (ws: seq<nat>)
    ensures |ws| == |fs|
  {
    match served
    case None => ZeroWords(|fs|)
    case Some(samples) => SampleWords(fs, samples)
  }

  // ----- what a dump shows -----

  lemma {:induction false} OffsetsGrow(fs: seq<Feature>, i: nat, n: nat)
    requires i <= n <= |fs|
    ensures FeatureOffset(fs, i) <= FeatureOffset(fs, n)
    decreases n
  {
    if i < n {
      OffsetsGrow(fs, i, n - 1);
    }
  }

  lemma FeatureWithin(fs: seq<Feature>, i: nat, off: nat, width: nat)
    requires i < |fs| && off == FeatureOffset(fs, i) && width == fs[i].width
    ensures FeatureOffset(fs, i + 1) == off + width <= FeatureBytes(fs)
  {
    OffsetsGrow(fs, i + 1, |fs|);
  }

  lemma SliceBetween(a: seq<byte>, b: seq<byte>, rest: seq<byte>)
    ensures Slice(a + (b + rest), |a|, |b|) == b
  {
  }

  /** Every feature's value lies in the summary at its offset. */
  lemma {:induction false} SummaryAt(fs: seq<Feature>, samples: seq<int>, n: nat, i: nat, rest: seq<byte>, off: nat)
    requires i < n <= |fs| && off == FeatureOffset(fs, i)
    ensures Slice(SummaryTo(fs, samples, n) + rest, off, fs[i].width) == Encode(fs[i].extract(samples), fs[i].width)
    decreases n
  {
    var last := fs[n - 1];
    var front, end := SummaryTo(fs, samples, n - 1), Encode(last.extract(samples), last.width);
    ConcatIsAssociative(front, end, rest);
    if i < n - 1 {
      SummaryAt(fs, samples, n - 1, i, end + rest, off);
    } else {
      SliceBetween(front, end, rest);
    }
  }

  lemma WordsOfSummary(fs: seq<Feature>, samples: seq<int>, rest: seq<byte>, cell: seq<byte>)
    requires cell == Summary(fs, samples) + rest
    ensures Words(fs, cell) == SampleWords(fs, samples)
  {
    forall i | 0 <= i < |fs| ensures WordIn(fs, cell, i) == SampleWord(fs[i], samples) {
      SummaryAt(fs, samples, |fs|, i, rest, FeatureOffset(fs, i));
      DecodeEncode(fs[i].extract(samples), fs[i].width);
    }
  }

  lemma ZeroDecodes(n: nat)
    ensures Decode(Zeros(n)) == 0
  {
    EncodeZero(n);
    DecodeEncode(0, n);
    RemainderIsUnique(0, Capacity(n), 0, 0);
  }

  lemma SliceOfZeros(n: nat, rest: seq<byte>, off: nat, w: nat)
    requires off + w <= n
    ensures Slice(Zeros(n) + rest, off, w) == Zeros(w)
  {
  }

  lemma WordsOfZeros(fs: seq<Feature>, n: nat, rest: seq<byte>, cell: seq<byte>)
    requires n == FeatureBytes(fs) && cell == Zeros(n) + rest
    ensures Words(fs, cell) == ZeroWords(|fs|)
  {
    forall i | 0 <= i < |fs| ensures WordIn(fs, cell, i) == 0 {
      FeatureWithin(fs, i, FeatureOffset(fs, i), fs[i].width);
      SliceOfZeros(n, rest, FeatureOffset(fs, i), fs[i].width);
      ZeroDecodes(fs[i].width);
    }
  }

  /** The words read from a cell are those of the samples it was served with, zero if there were none
      yet. */
  lemma WordsOfServed(fs: seq<Feature>, served: Option<seq<int>>, rest: seq<byte>, cell: seq<byte>)
    requires cell == Served(fs, served) + rest
    ensures Words(fs, cell) == ServedWords(fs, served)
  {
    match served
    case None => WordsOfZeros(fs, FeatureBytes(fs), rest, cell);
    case Some(samples) => WordsOfSummary(fs, samples, rest, cell);
  }

  lemma TakeDrop(a: seq<byte>, b: seq<byte>)
    ensures Take(a + b, |a|) == a && Drop(a + b, |a|) == b
  {
  }

  /** A cell that begins with the summary, `n` bytes long, and ends with the control word. */
  predicate CellIs(n: nat, summary: seq<byte>, flagged: bool, cell: seq<byte>) {
    |cell| == n + CONTROL_WORD && cell[..n] == summary && (Decode(cell[n..]) != 0 <==> flagged)
  }

  /** The entry of such a cell shows zeros or the features of the samples served, depending on its
      control word; its title is that of the samples either way. */
  lemma CellShows(fs: seq<Feature>, served: Option<seq<int>>, flagged: bool, cell: seq<byte>)
    requires CellIs(FeatureBytes(fs), Served(fs, served), flagged, cell)
    ensures Shown(Accum(fs), cell) == Texts(fs, if flagged then ZeroWords(|fs|) else ServedWords(fs, served))
    ensures Titles(fs, Words(fs, cell)) == Titles(fs, ServedWords(fs, served))
  {
    var word := cell[FeatureBytes(fs)..];
    assert cell == Served(fs, served) + word;
    TakeDrop(Served(fs, served), word);
    WordsOfServed(fs, served, word, cell);
  }

  /** A part of the entry, of the title and of the description for each feature. */
  lemma {:induction false} FeaturesInOrder(fs: seq<Feature>, ws: seq<nat>, n: nat, entry: seq<string>,
                                           title: seq<string>, names: seq<string>)
    requires n <= |fs| == |ws| == |entry| == |title| == |names|
    requires forall i :: 0 <= i < |fs| ==> entry[i] == fs[i].show(ws[i]) + " "
    requires forall i :: 0 <= i < |fs| ==> title[i] == " " + fs[i].title(ws[i])
    requires forall i :: 0 <= i < |fs| ==> names[i] == " " + fs[i].name
    ensures TextsTo(fs, ws, n) == Flat(entry, n)
    ensures TitlesTo(fs, ws, n) == Flat(title, n)
    ensures NamesTo(fs, n) == Flat(names, n)
  {
    if n > 0 {
      FeaturesInOrder(fs, ws, n - 1, entry, title, names);
    }
  }

  lemma PartsOfFeatures(fs: seq<Feature>, ws: seq<nat>)
    returns (entry: seq<string>, title: seq<string>, names: seq<string>)
    requires |ws| == |fs|
    ensures |entry| == |title| == |names| == |fs|
    ensures forall i :: 0 <= i < |fs| ==> entry[i] == fs[i].show(ws[i]) + " "
    ensures forall i :: 0 <= i < |fs| ==> title[i] == " " + fs[i].title(ws[i])
    ensures forall i :: 0 <= i < |fs| ==> names[i] == " " + fs[i].name
    ensures Texts(fs, ws) == Flat(entry, |fs|) && Titles(fs, ws) == Flat(title, |fs|)
    ensures FeatureNames(fs) == Flat(names, |fs|)
  {
    entry := seq(|fs|, i requires 0 <= i < |fs| => fs[i].show(ws[i]) + " ");
    title := seq(|fs|, i requires 0 <= i < |fs| => " " + fs[i].title(ws[i]));
    names := seq(|fs|, i requires 0 <= i < |fs| => " " + fs[i].name);
    FeaturesInOrder(fs, ws, |fs|, entry, title, names);
  }

  /** Entry, title and description of an accumulator list the features in the same order, that of their
      words in the cell. The entry shows each feature's word, or 0 while the control word is set, and a
      space; the title has a space and then the title of the feature's word, whatever the control word; the
      description has their names. */
  lemma EntryAndTitle(fs: seq<Feature>, cell: seq<byte>)
    returns (entry: seq<string>, title: seq<string>, names: seq<string>)
    ensures |entry| == |title| == |names| == |fs|
    ensures Shown(Accum(fs), cell) == Flat(entry, |fs|) && TitleIn(Accum(fs), cell) == Flat(title, |fs|)
    ensures TypeTitle(Accum(fs)) == "Accumulator:" + Flat(names, |fs|)
    ensures forall i :: 0 <= i < |fs| ==>
              entry[i] == fs[i].show(if ControlWord(fs, cell) == 0 then WordIn(fs, cell, i) else 0) + " "
    ensures forall i :: 0 <= i < |fs| ==> title[i] == " " + fs[i].title(WordIn(fs, cell, i))
    ensures forall i :: 0 <= i < |fs| ==> names[i] == " " + fs[i].name
  {
    var words, others := Words(fs, cell), [];
    entry, others, names := PartsOfFeatures(fs, if ControlWord(fs, cell) == 0 then words else ZeroWords(|fs|));
    others, title, names := PartsOfFeatures(fs, words);
  }

  /** A clear sets the control word and leaves the summary alone. */
  lemma ClearSetsWord(fs: seq<Feature>, cell: seq<byte>)
    requires |cell| == CellSize(Accum(fs))
    ensures var n := FeatureBytes(fs);
            var r := Cleared(Accum(fs), cell);
            && |r| == |cell| && r[..n] == cell[..n] && ControlWord(fs, r) == 1
            && Shown(Accum(fs), r) == Texts(fs, ZeroWords(|fs|))
  {
    var n := FeatureBytes(fs);
    TakeDrop(cell[..n], Encode(1, CONTROL_WORD));
    OneWord();
  }

  lemma OneWord()
    ensures Decode(Encode(1, CONTROL_WORD)) == 1
  {
    DecodeEncode(1, CONTROL_WORD);
    assert Capacity(2) == 0x1_0000;
  }

  // ----- the operational side -----

  class AccumOp {
    const features: seq<Feature>
    /** The accumulator set, as the samples it was given since it was last made anew. */
    var acc: seq<int>

    constructor (features: seq<Feature>)
      ensures this.features == features && acc == []
    {
      this.features := features;
      acc := [];
    }

    ghost predicate CellIn(mem: array<byte>, at: nat) {
      at + FeatureBytes(features) + CONTROL_WORD <= mem.Length
    }

    /** The bytes of the control word. */
    ghost function WordAt(mem: array<byte>, at: nat): seq<byte>
      requires CellIn(mem, at)
      reads mem
    {
      var p := at + FeatureBytes(features);
      mem[p..p + CONTROL_WORD]
    }

    /** Adds a sample; if the control word is set, all earlier samples go first and the word is
        zeroed. */
    method Write(mem: array<byte>, at: nat, sample: int)
      requires CellIn(mem, at)
      modifies this`acc, mem
      ensures var flagged := old(Decode(WordAt(mem, at))) != 0;
              && acc == (if flagged then [] else old(acc)) + [sample]
              && Decode(WordAt(mem, at)) == 0
              && mem[..] == if flagged then Splice(old(mem[..]), at + FeatureBytes(features), Zeros(CONTROL_WORD))
                            else old(mem[..])
    {
      var p := at + FeatureBytes(features);
      if Decode(mem[p..p + CONTROL_WORD]) != 0 {
        acc := [];
        EncodeZero(CONTROL_WORD);
        ZeroWord();
        SpliceSlices(mem[..], p, Zeros(CONTROL_WORD));
        CopyBytes(Encode(0, CONTROL_WORD), mem, p);
        assert mem[p..p + CONTROL_WORD] == mem[..][p..p + CONTROL_WORD];
      }
      acc := acc + [sample];
    }

    /** Lays the value of feature `i` into shared memory at `p`. */
    method StoreFeature(mem: array<byte>, p: nat, i: nat, ghost before: seq<byte>, ghost at: nat) returns (next: nat)
      requires i < |features| && Laid(features, acc, before, mem[..], at, p, i)
      modifies mem
      ensures Laid(features, acc, before, mem[..], at, next, i + 1)
    {
      var value := Encode(features[i].extract(acc), features[i].width);
      LaidStep(features, acc, before, mem[..], at, p, i, value);
      CopyBytes(value, mem, p);
      next := p + |value|;
    }

    /** Lays the features' values into shared memory, one behind the other. */
    method Serialize(mem: array<byte>, at: nat)
      requires CellIn(mem, at)
      modifies mem
      ensures mem[..] == Splice(old(mem[..]), at, Summary(features, acc))
      ensures WordAt(mem, at) == old(WordAt(mem, at))
    {
      ghost var before := mem[..];
      var p: nat := at;
      LaidNone(features, acc, before, at);
      for i := 0 to |features|
        invariant Laid(features, acc, before, mem[..], at, p, i)
      {
        p := StoreFeature(mem, p, i, before, at);
      }
      LaidAll(features, acc, before, mem[..], at, p);
    }
  }

  /** The first `i` features are laid into `before` from `at` on, up to `p`. */
  ghost predicate Laid(fs: seq<Feature>, samples: seq<int>, before: seq<byte>, m: seq<byte>, at: nat, p: nat, i: nat) {
    && i <= |fs| && p == at + FeatureOffset(fs, i) <= |before|
    && at + FeatureBytes(fs) + CONTROL_WORD <= |before|
    && m == Splice(before, at, SummaryTo(fs, samples, i))
  }

  lemma LaidNone(fs: seq<Feature>, samples: seq<int>, before: seq<byte>, at: nat)
    requires at + FeatureBytes(fs) + CONTROL_WORD <= |before|
    ensures Laid(fs, samples, before, before, at, at, 0)
  {
    assert Splice(before, at, []) == before;
  }

  lemma LaidStep(fs: seq<Feature>, samples: seq<int>, before: seq<byte>, m: seq<byte>, at: nat, p: nat, i: nat,
                 t: seq<byte>)
    requires Laid(fs, samples, before, m, at, p, i) && i < |fs| && t == Encode(fs[i].extract(samples), fs[i].width)
    ensures p + |t| <= |m| && Laid(fs, samples, before, Splice(m, p, t), at, p + |t|, i + 1)
  {
    FeatureWithin(fs, i, FeatureOffset(fs, i), |t|);
    SpliceGrows(before, at, SummaryTo(fs, samples, i), t);
  }

  lemma LaidAll(fs: seq<Feature>, samples: seq<int>, before: seq<byte>, m: seq<byte>, at: nat, p: nat)
    requires Laid(fs, samples, before, m, at, p, |fs|)
    ensures m == Splice(before, at, Summary(fs, samples))
    ensures var q := at + FeatureBytes(fs); m[q..q + CONTROL_WORD] == before[q..q + CONTROL_WORD]
  {
    var q := at + FeatureBytes(fs);
    SpliceSlices(before, at, Summary(fs, samples));
    SameBehind(before, m, q, CONTROL_WORD);
  }

  lemma SameBehind(a: seq<byte>, b: seq<byte>, q: nat, n: nat)
    requires q + n <= |a| == |b| && a[q..] == b[q..]
    ensures a[q..q + n] == b[q..q + n]
  {
    forall k | q <= k < q + n ensures a[k] == b[k] {
      assert a[k] == a[q..][k - q] && b[k] == b[q..][k - q];
    }
  }

  lemma ZeroWord()
    ensures Decode(Zeros(CONTROL_WORD)) == 0
  {
    EncodeZero(CONTROL_WORD);
    DecodeEncode(0, CONTROL_WORD);
  }

  lemma SpliceGrows(m: seq<byte>, at: nat, a: seq<byte>, b: seq<byte>)
    requires at + |a| + |b| <= |m|
    ensures Splice(Splice(m, at, a), at + |a|, b) == Splice(m, at, a + b)
  {
    var r := Splice(m, at, a);
    assert r[..at + |a|] == m[..at] + a;
    assert r[at + |a| + |b|..] == m[at + |a| + |b|..];
  }

  // ----- the control side -----

  lemma SpliceBehind(m: seq<byte>, at: nat, n: nat, t: seq<byte>)
    requires at + n + |t| <= |m|
    ensures Splice(m, at + n, t) == Splice(m, at, m[at..at + n] + t)
  {
  }

  method ListTitles(fs: seq<Feature>) returns (s: string)
    ensures s == FeatureNames(fs)
  {
    s := "";
    for i := 0 to |fs|
      invariant s == NamesTo(fs, i)
    {
      s := s + (" " + fs[i].name);
    }
  }

  method ReadWord(mem: array<byte>, p: nat, width: nat) returns (w: nat)
    requires p + width <= mem.Length
    ensures w == Decode(Slice(mem[..], p, width))
  {
    assert Slice(mem[..], p, width) == mem[p..p + width];
    w := Decode(mem[p..p + width]);
  }

  /** The cell at `at` in memory. */
  ghost predicate CellAtPlace(m: seq<byte>, at: nat, fs: seq<Feature>, cell: seq<byte>) {
    && at + FeatureBytes(fs) + CONTROL_WORD <= |m|
    && cell == m[at..at + FeatureBytes(fs) + CONTROL_WORD]
  }

  /** The word of feature `i` lies where the reading pointer has come to. */
  lemma FeatureInCell(m: seq<byte>, at: nat, fs: seq<Feature>, i: nat, off: nat, width: nat, cell: seq<byte>)
    requires CellAtPlace(m, at, fs, cell) && i < |fs| && off == FeatureOffset(fs, i) && width == fs[i].width
    ensures at + off + width <= |m| && Words(fs, cell)[i] == Decode(Slice(m, at + off, width))
    ensures FeatureOffset(fs, i + 1) == off + width
  {
    FeatureWithin(fs, i, off, width);
    SliceOfSlice(m, at, |cell|, off, width, cell);
  }

  lemma SliceOfSlice(m: seq<byte>, at: nat, n: nat, off: nat, w: nat, cell: seq<byte>)
    requires at + n <= |m| && cell == m[at..at + n] && off + w <= n
    ensures Slice(cell, off, w) == Slice(m, at + off, w)
  {
    SubSlice(m, at, at + n, off, off + w);
  }

  /** The word of feature `i`, and where the next one lies. */
  method ReadFeature(mem: array<byte>, p: nat, fs: seq<Feature>, i: nat, ghost at: nat, ghost cell: seq<byte>)
    returns (w: nat, next: nat)
    requires i < |fs| && p == at + FeatureOffset(fs, i) && CellAtPlace(mem[..], at, fs, cell)
    ensures w == Words(fs, cell)[i] && next == at + FeatureOffset(fs, i + 1)
  {
    FeatureInCell(mem[..], at, fs, i, p - at, fs[i].width, cell);
    w := ReadWord(mem, p, fs[i].width);
    next := p + fs[i].width;
  }

  /** The titles of the features, whose words are read one after the other. */
  method TitleFeatures(mem: array<byte>, at: nat, fs: seq<Feature>, ghost cell: seq<byte>) returns (title: string)
    requires CellAtPlace(mem[..], at, fs, cell)
    ensures title == Titles(fs, Words(fs, cell))
  {
    title := "";
    var p: nat := at;
    ghost var ws := Words(fs, cell);
    for i := 0 to |fs|
      invariant p == at + FeatureOffset(fs, i)
      invariant title == TitlesTo(fs, ws, i)
    {
      var w;
      w, p := ReadFeature(mem, p, fs, i, at, cell);
      title := title + (" " + fs[i].title(w));
    }
  }

  /** The entries of the features; the control word, at `wordAt`, is looked at again for each of them. */
  method DumpFeatures(mem: array<byte>, at: nat, wordAt: nat, fs: seq<Feature>, ghost cell: seq<byte>,
                      ghost valid: bool)
    returns (entry: string)
    requires CellAtPlace(mem[..], at, fs, cell) && wordAt + CONTROL_WORD <= mem.Length
    requires valid == (Decode(Slice(mem[..], wordAt, CONTROL_WORD)) == 0)
    ensures entry == Texts(fs, if valid then Words(fs, cell) else ZeroWords(|fs|))
  {
    entry := "";
    var p: nat := at;
    ghost var ws := if valid then Words(fs, cell) else ZeroWords(|fs|);
    for i := 0 to |fs|
      invariant p == at + FeatureOffset(fs, i)
      invariant entry == TextsTo(fs, ws, i)
    {
      var word := ReadWord(mem, wordAt, CONTROL_WORD);
      var w;
      w, p := ReadFeature(mem, p, fs, i, at, cell);
      entry := entry + (fs[i].show(if word == 0 then w else 0) + " ");
    }
  }

  lemma DumpOfAccum(v: View, at: nat, fs: seq<Feature>, cell: seq<byte>)
    requires CellAtPlace(v.mem, at, fs, cell)
    ensures Visit(v, at, ReprOf(Accum(fs)), DumpStat) ==
            View(v.mem, v.entries + [Shown(Accum(fs), cell)], Titles(fs, Words(fs, cell)))
  {
    assert cell == Slice(v.mem, at, CellSize(Accum(fs)));
  }

  lemma ClearOfAccum(v: View, at: nat, fs: seq<Feature>, cell: seq<byte>)
    requires CellAtPlace(v.mem, at, fs, cell)
    ensures Visit(v, at, ReprOf(Accum(fs)), ClearStat) == v.(mem := Overlay(v.mem, at, Cleared(Accum(fs), cell)))
  {
    assert cell == Slice(v.mem, at, CellSize(Accum(fs)));
  }

  /** The command of an accumulator, feature by feature. */
  method DoAccumCommand(mem: array<byte>, at: nat, fs: seq<Feature>, cmd: StatCmd, out: StatCmdOutput)
    requires at + CellSize(Accum(fs)) <= mem.Length
    modifies mem, out
    ensures out.dimensionSizes == old(out.dimensionSizes)
    ensures cmd != PrintStatType ==> ViewOf(mem, out) == Visit(old(ViewOf(mem, out)), at, ReprOf(Accum(fs)), cmd)
    ensures cmd == PrintStatType ==> ViewOf(mem, out) == old(ViewOf(mem, out)).(title := TypeTitle(Accum(fs)))
  {
    ghost var cell := mem[..][at..at + FeatureBytes(fs) + CONTROL_WORD];
    if cmd == DumpStat {
      DumpOfAccum(ViewOf(mem, out), at, fs, cell);
      var title, entry := DumpCell(mem, at, fs, cell);
      out.entryTitle := title;
      out.entries := out.entries + [entry];
    } else if cmd == PrintStatType {
      var names := ListTitles(fs);
      out.entryTitle := "Accumulator:" + names;
    } else if cmd == ClearStat {
      ClearOfAccum(ViewOf(mem, out), at, fs, cell);
      ClearCell(mem, at, fs, cell);
    }
  }

  lemma WordOfCell(m: seq<byte>, at: nat, n: nat, cell: seq<byte>)
    requires at + n + CONTROL_WORD <= |m| && cell == m[at..at + n + CONTROL_WORD]
    ensures Slice(m, at + n, CONTROL_WORD) == Drop(cell, n)
  {
    SubSlice(m, at, at + n + CONTROL_WORD, n, n + CONTROL_WORD);
  }

  method DumpCell(mem: array<byte>, at: nat, fs: seq<Feature>, ghost cell: seq<byte>)
    returns (title: string, entry: string)
    requires CellAtPlace(mem[..], at, fs, cell)
    ensures title == Titles(fs, Words(fs, cell)) && entry == Shown(Accum(fs), cell)
  {
    var wordAt := at + FeatureBytes(fs);
    WordOfCell(mem[..], at, FeatureBytes(fs), cell);
    title := TitleFeatures(mem, at, fs, cell);
    entry := DumpFeatures(mem, at, wordAt, fs, cell, ControlWord(fs, cell) == 0);
  }

  /** Sets the control word. */
  method ClearCell(mem: array<byte>, at: nat, fs: seq<Feature>, ghost cell: seq<byte>)
    requires CellAtPlace(mem[..], at, fs, cell)
    modifies mem
    ensures mem[..] == Overlay(old(mem[..]), at, Cleared(Accum(fs), cell))
  {
    var n, one := FeatureBytes(fs), Encode(1, CONTROL_WORD);
    FrontKept(mem[..], at, n, one, cell);
    CopyBytes(one, mem, at + n);
  }

  /** Overwriting the end of a cell is overwriting the whole cell with its front kept. */
  lemma FrontKept(m: seq<byte>, at: nat, n: nat, t: seq<byte>, cell: seq<byte>)
    requires at + n + |t| <= |m| && cell == m[at..at + n + |t|]
    ensures Splice(m, at + n, t) == Overlay(m, at, Take(cell, n) + t)
  {
    SubSlice(m, at, at + n + |t|, 0, n);
    SpliceBehind(m, at, n, t);
  }
}
