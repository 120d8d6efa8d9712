/** Histograms over real samples: equally wide bins between two bounds, and one bin on either side. */
module Histogram {

  /** A floating-point result; dividing zero by zero gives no number. */
  datatype Float = Number(value: real) | NotANumber

  // ----- bins -----

  /** The width of the inner bins. */
  function BinSize(minimum: real, maximum: real, numBins: nat): real
    requires numBins > 0
  {
    (maximum - minimum) / (numBins as real)
  }

  /** The lower bound of bin `i`; bin 0 takes what lies below bin 1 and has no bound of its own. */
  function Edge(minimum: real, binSize: real, i: nat): real {
    minimum + (i as real - 1.0) * binSize
  }

  function Edges(minimum: real, maximum: real, numBins: nat): (e: seq<real>)
    requires numBins > 0
    ensures |e| == numBins + 2
  {
    seq(numBins + 2, i requires 0 <= i => Edge(minimum, BinSize(minimum, maximum, numBins), i))
  }

  ghost predicate Increasing(e: seq<real>) {
    forall i, j :: 0 <= i < j < |e| ==> e[i] < e[j]
  }

  lemma ProductOrder(a: real, b: real, size: real)
    requires a < b && size > 0.0
    ensures a * size < b * size
  {
    assert (b - a) * size > 0.0;
  }

  lemma ProductOfQuotient(d: real, n: real)
    requires n > 0.0
    ensures n * (d / n) == d
    ensures d > 0.0 ==> d / n > 0.0
  {
  }

  /** The edges increase strictly, from the minimum at edge 1 to the maximum at the last. */
  lemma EdgesDivideRange(minimum: real, maximum: real, numBins: nat)
    requires numBins > 0 && minimum < maximum
    ensures var e := Edges(minimum, maximum, numBins);
            Increasing(e) && e[1] == minimum && e[numBins + 1] == maximum
  {
    var size := BinSize(minimum, maximum, numBins);
    ProductOfQuotient(maximum - minimum, numBins as real);
    assert (numBins + 1) as real - 1.0 == numBins as real;
    var e := Edges(minimum, maximum, numBins);
    forall i, j | 0 <= i < j < |e| ensures e[i] < e[j] {
      ProductOrder(i as real - 1.0, j as real - 1.0, size);
    }
  }

  /** All bins between the edges are equally wide, a `numBins`-th of the range each. */
  lemma EdgesAreEven(minimum: real, maximum: real, numBins: nat)
    requires numBins > 0
    ensures var e := Edges(minimum, maximum, numBins);
            && e[1] == minimum
            && forall i :: 0 <= i < numBins + 1 ==> e[i + 1] - e[i] == (maximum - minimum) / (numBins as real)
  {
    var size := BinSize(minimum, maximum, numBins);
    forall i | 0 <= i < numBins + 1
      ensures Edge(minimum, size, i + 1) - Edge(minimum, size, i) == size
    {
      OneStep(i as real, size);
    }
  }

  lemma OneStep(x: real, size: real)
    ensures (x + 1.0 - 1.0) * size - (x - 1.0) * size == size
  {
  }

  /** Bin `i` is half open; the first is unbounded below and the last above. */
  predicate InBin(e: seq<real>, i: nat, x: real)
    requires |e| >= 3 && i < |e|
  {
    (i > 0 ==> e[i] <= x) && (i < |e| - 1 ==> x < e[i + 1])
  }

  /** A sample equal to an edge lies in the bin that begins there. */
  lemma EdgeBelongsToUpperBin(e: seq<real>, i: nat, j: nat)
    requires |e| >= 3 && Increasing(e) && 1 <= i < |e| && j < |e|
    ensures InBin(e, j, e[i]) <==> j == i
  {
    assert i < |e| - 1 ==> e[i] < e[i + 1];
    assert j < i ==> e[j + 1] <= e[i];
    assert i < j ==> e[i] < e[j];
  }

  /** Every sample lies in exactly one bin. */
  lemma BinsPartition(e: seq<real>, x: real)
    requires |e| >= 3 && Increasing(e)
    ensures exists i :: 0 <= i < |e| && InBin(e, i, x)
    ensures forall i, j :: 0 <= i < |e| && 0 <= j < |e| && InBin(e, i, x) && InBin(e, j, x) ==> i == j
  {
    var i := SomeBin(e, x, |e| - 1);
    forall i, j | 0 <= i < j < |e| && InBin(e, i, x) ensures !InBin(e, j, x) {
      assert e[i + 1] <= e[j];
    }
  }

  lemma {:induction false} SomeBin(e: seq<real>, x: real, n: nat) returns (i: nat)
    requires |e| >= 3 && n < |e| && (n < |e| - 1 ==> x < e[n + 1])
    ensures i < |e| && InBin(e, i, x)
  {
    i := n;
    if n > 0 && x < e[n] {
      i := SomeBin(e, x, n - 1);
    }
  }

  // ----- counting -----

  /** The number of samples in bin `i`. */
  function CountIn(e: seq<real>, samples: seq<real>, i: nat): nat
    requires |e| >= 3 && i < |e|
  {
    if samples == [] then 0
    else CountIn(e, samples[..|samples| - 1], i) + if InBin(e, i, samples[|samples| - 1]) then 1 else 0
  }

  /** A bin's count is the number of those samples that are not below its lower edge, if it has one, and
      are below its upper edge, if it has one. */
  lemma {:induction false} CountIsNumber(e: seq<real>, samples: seq<real>, i: nat, n: nat)
    requires |e| >= 3 && i < |e| && n <= |samples|
    ensures CountIn(e, samples[..n], i) ==
            |set k: nat | k < n && (i == 0 || e[i] <= samples[k]) && (i == |e| - 1 || samples[k] < e[i + 1])|
    decreases n
  {
    if n > 0 {
      assert samples[..n][..n - 1] == samples[..n - 1];
      CountIsNumber(e, samples, i, n - 1);
      OneSampleMore(e, samples, i, n - 1);
    }
  }

  lemma OneSampleMore(e: seq<real>, samples: seq<real>, i: nat, n: nat)
    requires |e| >= 3 && i < |e| && n < |samples|
    ensures var before, after :=
              set k: nat | k < n && (i == 0 || e[i] <= samples[k]) && (i == |e| - 1 || samples[k] < e[i + 1]),
              set k: nat | k < n + 1 && (i == 0 || e[i] <= samples[k]) && (i == |e| - 1 || samples[k] < e[i + 1]);
            |after| == |before| + if InBin(e, i, samples[n]) then 1 else 0
  {
    var before := set k: nat | k < n && (i == 0 || e[i] <= samples[k]) && (i == |e| - 1 || samples[k] < e[i + 1]);
    var after := set k: nat | k < n + 1 && (i == 0 || e[i] <= samples[k]) && (i == |e| - 1 || samples[k] < e[i + 1]);
    assert after == before + if InBin(e, i, samples[n]) then {n} else {};
  }

  function Counts(e: seq<real>, samples: seq<real>): (c: seq<nat>)
    requires |e| >= 3
    ensures |c| == |e| && forall i :: 0 <= i < |e| ==> c[i] == CountIn(e, samples, i)
  {
    seq(|e|, i requires 0 <= i < |e| => CountIn(e, samples, i))
  }

  function CountSum(c: seq<nat>): nat {
    if c == [] then 0 else CountSum(c[..|c| - 1]) + c[|c| - 1]
  }

  lemma {:induction false} TotalOfUpdate(c: seq<nat>, i: nat)
    requires i < |c|
    ensures CountSum(c[i := c[i] + 1]) == CountSum(c) + 1
    decreases |c|
  {
    var c' := c[i := c[i] + 1];
    var last := |c| - 1;
    if i == last {
      assert c'[..last] == c[..last];
    } else {
      assert c'[..last] == c[..last][i := c[i] + 1];
      TotalOfUpdate(c[..last], i);
    }
  }

  lemma {:induction false} TotalOfZeros(c: seq<nat>)
    requires forall i :: 0 <= i < |c| ==> c[i] == 0
    ensures CountSum(c) == 0
    decreases |c|
  {
    if c != [] {
      TotalOfZeros(c[..|c| - 1]);
    }
  }

  /** One more sample adds one to the bin it lies in. */
  lemma CountsGrow(e: seq<real>, samples: seq<real>, x: real, i: nat)
    requires |e| >= 3 && Increasing(e) && i < |e| && InBin(e, i, x)
    ensures Counts(e, samples + [x]) == Counts(e, samples)[i := CountIn(e, samples, i) + 1]
  {
    BinsPartition(e, x);
    assert (samples + [x])[..|samples|] == samples;
  }

  /** No sample is lost or counted twice. */
  lemma {:induction false} CountsAddUp(e: seq<real>, samples: seq<real>)
    requires |e| >= 3 && Increasing(e)
    ensures CountSum(Counts(e, samples)) == |samples|
    decreases |samples|
  {
    if samples == [] {
      TotalOfZeros(Counts(e, []));
    } else {
      var front, x := samples[..|samples| - 1], samples[|samples| - 1];
      CountsAddUp(e, front);
      BinsPartition(e, x);
      var i :| 0 <= i < |e| && InBin(e, i, x);
      CountsGrow(e, front, x, i);
      assert samples == front + [x];
      TotalOfUpdate(Counts(e, front), i);
    }
  }

  // ----- densities -----

  function Average(n: nat, count: nat): Float {
    if count == 0 then NotANumber else Number(n as real / count as real)
  }

  function SumOf(fs: seq<Float>): real
    requires forall i :: 0 <= i < |fs| ==> fs[i].Number?
  {
    if fs == [] then 0.0 else SumOf(fs[..|fs| - 1]) + fs[|fs| - 1].value
  }

  function Densities(c: seq<nat>, count: nat): (d: seq<Float>)
    ensures |d| == |c| && forall i :: 0 <= i < |c| ==> d[i] == Average(c[i], count)
  {
    seq(|c|, i requires 0 <= i < |c| => Average(c[i], count))
  }

  lemma SumOfQuotients(a: real, b: real, n: real)
    requires n > 0.0
    ensures a / n + b / n == (a + b) / n
  {
  }

  lemma {:induction false} DensitiesSum(c: seq<nat>, count: nat)
    requires count > 0
    ensures SumOf(Densities(c, count)) == CountSum(c) as real / count as real
    decreases |c|
  {
    if c != [] {
      var last := |c| - 1;
      DensitiesSum(c[..last], count);
      assert Densities(c, count)[..last] == Densities(c[..last], count);
      SumOfQuotients(CountSum(c[..last]) as real, c[last] as real, count as real);
    }
  }

  lemma NonNegative(n: nat, count: nat)
    requires count > 0
    ensures n as real / count as real >= 0.0
  {
  }

  /** The share of a bin is its count's part of all samples. */
  lemma SharesAreCounts(e: seq<real>, samples: seq<real>, i: nat)
    requires |e| >= 3 && i < |e| && samples != []
    ensures var share := Densities(Counts(e, samples), |samples|)[i];
            share.Number? && share.value * (|samples| as real) == Counts(e, samples)[i] as real
  {
    ProductOfQuotient(Counts(e, samples)[i] as real, |samples| as real);
  }

  lemma WholeIsOne(n: nat)
    requires n > 0
    ensures n as real / n as real == 1.0
  {
  }

  /** Densities are numbers exactly when there are samples; then none is negative and they sum to 1. */
  lemma DensitiesAreADistribution(e: seq<real>, samples: seq<real>)
    requires |e| >= 3 && Increasing(e)
    ensures var d := Densities(Counts(e, samples), |samples|);
            && ((forall i :: 0 <= i < |d| ==> d[i].Number?) <==> samples != [])
            && (samples != [] ==> (forall i :: 0 <= i < |d| ==> d[i].value >= 0.0) && SumOf(d) == 1.0)
  {
    var c := Counts(e, samples);
    var d := Densities(c, |samples|);
    if samples == [] {
      assert d[0] == NotANumber;
    } else {
      CountsAddUp(e, samples);
      DensitiesSum(c, |samples|);
      WholeIsOne(|samples|);
      forall i | 0 <= i < |d| ensures d[i].Number? && d[i].value >= 0.0 {
        NonNegative(c[i], |samples|);
      }
    }
  }

  /** Every bin's position with its count, or with its share of all samples. */
  function Pairs(e: seq<real>, c: seq<nat>, isDensity: bool, count: nat): (r: seq<(real, Float)>)
    requires |e| == |c|
    ensures |r| == |e|
    ensures forall i :: 0 <= i < |e| ==>
              r[i].0 == e[i] && r[i].1 == if isDensity then Densities(c, count)[i] else Number(c[i] as real)
  {
    seq(|e|, i requires 0 <= i < |e| =>
      (e[i], if isDensity then Average(c[i], count) else Number(c[i] as real)))
  }

  // ----- the accumulator -----

  /** The position of the first edge above `x`, by halving. */
  method UpperBound(e: array<real>, x: real) returns (first: nat)
    requires Increasing(e[..])
    ensures first <= e.Length
    ensures forall i :: 0 <= i < first ==> e[i] <= x
    ensures forall i :: first <= i < e.Length ==> x < e[i]
  {
    first := 0;
    var len: nat := e.Length;
    while len > 0
      invariant first + len <= e.Length
      invariant forall i :: 0 <= i < first ==> e[..][i] <= x
      invariant forall i :: first + len <= i < e.Length ==> x < e[..][i]
    {
      var half := len / 2;
      var middle := first + half;
      assert e[middle] == e[..][middle];
      if x < e[middle] {
        len := half;
      } else {
        first := middle + 1;
        len := len - half - 1;
      }
    }
    assert forall i :: 0 <= i < e.Length ==> e[..][i] == e[i];
  }

  /** The bins' lower bounds. */
  method PlaceBins(minimum: real, maximum: real, numBins: nat) returns (positions: array<real>)
    requires numBins > 0
    ensures fresh(positions) && positions[..] == Edges(minimum, maximum, numBins)
    ensures positions.Length == numBins + 2 && positions[1] == minimum
    ensures forall i :: 0 <= i < numBins + 1 ==>
              positions[i + 1] - positions[i] == (maximum - minimum) / (numBins as real)
  {
    EdgesAreEven(minimum, maximum, numBins);
    var binSize := BinSize(minimum, maximum, numBins);
    positions := new real[numBins + 2](_ => 0.0);
    for i := 0 to numBins + 2
      invariant forall j :: 0 <= j < i ==> positions[j] == Edge(minimum, binSize, j)
    {
      positions[i] := Edge(minimum, binSize, i);
    }
  }

  lemma NothingCounted(e: seq<real>, c: seq<nat>)
    requires |e| == |c| >= 3 && forall i :: 0 <= i < |c| ==> c[i] == 0
    ensures c == Counts(e, [])
  {
  }

  class HistogramImpl {
    const numBins: nat
    const minimum: real
    const maximum: real
    const binSize: real
    const isDensity: bool
    const samplesInBin: array<nat>
    const binPositions: array<real>
    const histogram: array<(real, Float)>
    /** The framework's count of samples. */
    var count: nat
    ghost var samples: seq<real>

    ghost predicate Valid()
      reads this, samplesInBin, binPositions
    {
      && numBins > 0 && minimum < maximum
      && binPositions[..] == Edges(minimum, maximum, numBins) && Increasing(binPositions[..])
      && samplesInBin.Length == histogram.Length == numBins + 2
      && samplesInBin[..] == Counts(binPositions[..], samples)
      && count == |samples|
    }

    constructor (minimum: real, maximum: real, numBins: nat, isDensity: bool)
      requires numBins > 0 && minimum < maximum
      ensures Valid() && samples == [] && this.isDensity == isDensity
      ensures this.minimum == minimum && this.maximum == maximum && this.numBins == numBins
      ensures fresh(samplesInBin) && fresh(binPositions) && fresh(histogram)
    {
      this.numBins, this.minimum, this.maximum, this.isDensity := numBins, minimum, maximum, isDensity;
      binSize := BinSize(minimum, maximum, numBins);
      samplesInBin := new nat[numBins + 2](_ => 0);
      histogram := new (real, Float)[numBins + 2](_ => (0.0, Number(1.0)));
      var positions := PlaceBins(minimum, maximum, numBins);
      binPositions := positions;
      count, samples := 0, [];
      new;
      EdgesDivideRange(minimum, maximum, numBins);
      NothingCounted(binPositions[..], samplesInBin[..]);
    }

    /** The bin of a sample: the outer bins by comparison, the inner ones by search. */
    method FindBin(x: real) returns (i: nat)
      requires Valid()
      ensures i < binPositions.Length && InBin(binPositions[..], i, x)
      ensures forall j :: 1 <= j < binPositions.Length && x == binPositions[j] ==> i == j
    {
      if x < binPositions[1] {
        i := 0;
      } else if x >= binPositions[numBins + 1] {
        i := numBins + 1;
      } else {
        var d := UpperBound(binPositions, x);
        i := d - 1;
      }
    }

    method Add(x: real)
      requires Valid()
      modifies this, samplesInBin
      ensures Valid() && samples == old(samples) + [x]
    {
      var i := FindBin(x);
      CountsGrow(binPositions[..], samples, x, i);
      samplesInBin[i] := samplesInBin[i] + 1;
      count := count + 1;
      samples := samples + [x];
    }

    ghost function ResultOf(): (r: seq<(real, Float)>)
      requires Valid()
      reads this, samplesInBin, binPositions
      ensures |r| == numBins + 2
    {
      Pairs(binPositions[..], samplesInBin[..], isDensity, count)
    }

    method Result()
      requires Valid()
      modifies histogram
      ensures Valid() && histogram[..] == ResultOf()
    {
      for i := 0 to numBins + 2
        invariant Valid() && histogram[..i] == ResultOf()[..i]
      {
        histogram[i] := (binPositions[i], if isDensity then Average(samplesInBin[i], count)
                                          else Number(samplesInBin[i] as real));
        assert histogram[..i + 1] == histogram[..i] + [histogram[i]];
      }
      assert histogram[..] == histogram[..numBins + 2];
    }

    /** Lays the result into the shared array, where bounds are stored as samples and values as the
        histogram's kind of bin. */
    method Serialize<S, B>(shared: array<(S, B)>, toSample: real -> S, toBin: Float -> B)
      requires Valid() && shared.Length == numBins + 2
      modifies histogram, shared
      ensures Valid()
      ensures forall i :: 0 <= i < shared.Length ==> shared[i] == (toSample(ResultOf()[i].0), toBin(ResultOf()[i].1))
    {
      Result();
      var hist := histogram[..];
      for i := 0 to shared.Length
        invariant Valid() && hist == ResultOf()
        invariant forall j :: 0 <= j < i ==> shared[j] == (toSample(hist[j].0), toBin(hist[j].1))
      {
        shared[i] := (toSample(hist[i].0), toBin(hist[i].1));
      }
    }
  }
}
