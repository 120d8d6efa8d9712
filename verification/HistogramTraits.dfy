/** Histograms as features of accumulators: what is stored of one in shared memory and how it is shown. */
module HistogramTraits {
  import opened Arithmetic
  import opened Bytes
  import opened Sequences
  import opened StatCell
  import opened Histogram

  /** The parameters of a histogram type. */
  datatype Shape = Shape(minimum: real, maximum: real, numBins: nat, isDensity: bool) {
    predicate Ok() {
      numBins > 0 && minimum < maximum
    }
  }

  /** How samples are read, how bounds and values are stored and how such words are shown. */
  datatype Format = Format(
    name: string,
    boundWidth: nat,
    valueWidth: nat,
    sampleOf: int -> real,
    boundWord: real -> nat,
    valueWord: Float -> nat,
    boundText: nat -> string,
    valueText: nat -> string)

  function Reals(f: Format, samples: seq<int>): (xs: seq<real>)
    ensures |xs| == |samples| && forall i :: 0 <= i < |samples| ==> xs[i] == f.sampleOf(samples[i])
  {
    seq(|samples|, i requires 0 <= i < |samples| => f.sampleOf(samples[i]))
  }

  /** What the histogram extracts from the samples, be there any or none. */
  function ResultFor(s: Shape, xs: seq<real>): (r: seq<(real, Float)>)
    requires s.Ok()
    ensures |r| == s.numBins + 2
  {
    var e := Edges(s.minimum, s.maximum, s.numBins);
    Pairs(e, Counts(e, xs), s.isDensity, |xs|)
  }

  // ----- the array of bins in shared memory -----

  /** A word as far as a type of the given width can hold it. */
  function Held(word: nat, width: nat): nat {
    word % Capacity(width)
  }

  function BinBytes(f: Format, bins: seq<(real, Float)>): (s: seq<byte>)
    ensures |s| == |bins| * (f.boundWidth + f.valueWidth)
  {
    if bins == [] then []
    else
      Encode(f.boundWord(bins[0].0), f.boundWidth)
      + (Encode(f.valueWord(bins[0].1), f.valueWidth) + BinBytes(f, bins[1..]))
  }

  function BoundsIn(f: Format, bytes: seq<byte>, n: nat): (ws: seq<nat>)
    ensures |ws| == n
    decreases n
  {
    if n == 0 then []
    else [Decode(Take(bytes, f.boundWidth))] + BoundsIn(f, Drop(Drop(bytes, f.boundWidth), f.valueWidth), n - 1)
  }

  function ValuesIn(f: Format, bytes: seq<byte>, n: nat): (ws: seq<nat>)
    ensures |ws| == n
    decreases n
  {
    if n == 0 then []
    else
      [Decode(Take(Drop(bytes, f.boundWidth), f.valueWidth))]
      + ValuesIn(f, Drop(Drop(bytes, f.boundWidth), f.valueWidth), n - 1)
  }

  lemma BinParts(a: seq<byte>, b: seq<byte>, rest: seq<byte>)
    ensures var s := a + (b + rest);
            Take(s, |a|) == a && Take(Drop(s, |a|), |b|) == b && Drop(Drop(s, |a|), |b|) == rest
  {
    assert Drop(a + (b + rest), |a|) == b + rest;
  }

  /** Every bound and every value can be read back, as far as their types can hold them. */
  lemma {:induction false} BinsReadBack(f: Format, bins: seq<(real, Float)>, i: nat)
    requires i < |bins|
    ensures BoundsIn(f, BinBytes(f, bins), |bins|)[i] == Held(f.boundWord(bins[i].0), f.boundWidth)
    ensures ValuesIn(f, BinBytes(f, bins), |bins|)[i] == Held(f.valueWord(bins[i].1), f.valueWidth)
    decreases |bins|
  {
    var a, b := Encode(f.boundWord(bins[0].0), f.boundWidth), Encode(f.valueWord(bins[0].1), f.valueWidth);
    BinParts(a, b, BinBytes(f, bins[1..]));
    if i == 0 {
      DecodeEncode(f.boundWord(bins[0].0), f.boundWidth);
      DecodeEncode(f.valueWord(bins[0].1), f.valueWidth);
    } else {
      BinsReadBack(f, bins[1..], i - 1);
    }
  }

  // ----- the feature -----

  function ListingTo(ws: seq<nat>, n: nat, text: nat -> string): string
    requires n <= |ws|
  {
    if n == 0 then "" else ListingTo(ws, n - 1, text) + (text(ws[n - 1]) + " ")
  }

  function Listing(ws: seq<nat>, text: nat -> string): string {
    ListingTo(ws, |ws|, text)
  }

  /** Every number's text and a space, in order. */
  lemma ListingMeans(ws: seq<nat>, text: nat -> string, parts: seq<string>)
    requires |parts| == |ws| && forall i :: 0 <= i < |ws| ==> parts[i] == text(ws[i]) + " "
    ensures Listing(ws, text) == Flat(parts, |ws|)
  {
    ListingToMeans(ws, |ws|, text, parts);
  }

  lemma {:induction false} ListingToMeans(ws: seq<nat>, n: nat, text: nat -> string, parts: seq<string>)
    requires n <= |ws| == |parts| && forall i :: 0 <= i < |ws| ==> parts[i] == text(ws[i]) + " "
    ensures ListingTo(ws, n, text) == Flat(parts, n)
  {
    if n > 0 {
      ListingToMeans(ws, n - 1, text, parts);
    }
  }

  /** A histogram's word is its array of bins; unlike other features it has one without samples too,
      and its title lists the bounds found in memory. */
  function HistogramFeature(s: Shape, f: Format): Feature
    requires s.Ok()
  {
    var n := s.numBins + 2;
    var width := n * (f.boundWidth + f.valueWidth);
    Feature(f.name, width,
            (samples: seq<int>) => Decode(BinBytes(f, ResultFor(s, Reals(f, samples)))),
            (word: nat) => Listing(ValuesIn(f, Encode(word, width), n), f.valueText),
            (word: nat) => Listing(BoundsIn(f, Encode(word, width), n), f.boundText))
  }

  function BoundWords(f: Format, bins: seq<(real, Float)>): (ws: seq<nat>)
    ensures |ws| == |bins|
    ensures forall i :: 0 <= i < |bins| ==> ws[i] == Held(f.boundWord(bins[i].0), f.boundWidth)
  {
    if bins == [] then [] else [Held(f.boundWord(bins[0].0), f.boundWidth)] + BoundWords(f, bins[1..])
  }

  function ValueWords(f: Format, bins: seq<(real, Float)>): (ws: seq<nat>)
    ensures |ws| == |bins|
    ensures forall i :: 0 <= i < |bins| ==> ws[i] == Held(f.valueWord(bins[i].1), f.valueWidth)
  {
    if bins == [] then [] else [Held(f.valueWord(bins[0].1), f.valueWidth)] + ValueWords(f, bins[1..])
  }

  lemma StoredWord(s: seq<byte>, width: nat)
    requires |s| == width
    ensures Encode(Decode(s) % Capacity(width), width) == s
  {
    DecodeBound(s);
    EncodeDecode(s);
    RemainderIsUnique(Decode(s), Capacity(width), 0, Decode(s));
  }

  lemma ReadBack(f: Format, bins: seq<(real, Float)>, n: nat)
    requires n == |bins|
    ensures BoundsIn(f, BinBytes(f, bins), n) == BoundWords(f, bins)
    ensures ValuesIn(f, BinBytes(f, bins), n) == ValueWords(f, bins)
  {
    forall i | 0 <= i < n
      ensures BoundsIn(f, BinBytes(f, bins), n)[i] == BoundWords(f, bins)[i]
      ensures ValuesIn(f, BinBytes(f, bins), n)[i] == ValueWords(f, bins)[i]
    {
      BinsReadBack(f, bins, i);
    }
  }

  lemma StoredBinsShow(f: Format, bins: seq<(real, Float)>, n: nat, width: nat, bytes: seq<byte>)
    requires n == |bins| && bytes == BinBytes(f, bins) && width == |bytes|
    ensures var word := Decode(bytes) % Capacity(width);
            && BoundsIn(f, Encode(word, width), n) == BoundWords(f, bins)
            && ValuesIn(f, Encode(word, width), n) == ValueWords(f, bins)
  {
    StoredWord(bytes, width);
    ReadBack(f, bins, n);
  }

  /** A dump of a histogram that was serialized shows the bounds of all bins as its title and their
      counts or shares as its entry, for any samples and without any. */
  lemma HistogramShows(s: Shape, f: Format, samples: seq<int>)
    requires s.Ok()
    ensures var h, bins := HistogramFeature(s, f), ResultFor(s, Reals(f, samples));
            var word := h.extract(samples) % Capacity(h.width);
            && h.title(word) == Listing(BoundWords(f, bins), f.boundText)
            && h.show(word) == Listing(ValueWords(f, bins), f.valueText)
  {
    var h, bins := HistogramFeature(s, f), ResultFor(s, Reals(f, samples));
    StoredBinsShow(f, bins, s.numBins + 2, h.width, BinBytes(f, bins));
  }

  /** The histogram accumulator is such a feature: its word is made from what the accumulator has for
      its result after the samples. */
  lemma HistogramServes(h: HistogramImpl, f: Format, samples: seq<int>)
    requires h.Valid() && h.samples == Reals(f, samples)
    ensures var s := Shape(h.minimum, h.maximum, h.numBins, h.isDensity);
            s.Ok() && HistogramFeature(s, f).extract(samples) == Decode(BinBytes(f, h.ResultOf()))
  {
  }
}
