/** Flat positions of nested arrays and the index paths they stand for. */
module IndexCodec {
  import opened Arithmetic
  import opened Sequences

  /** The number of cells of nested arrays of the given sizes. */
  function Count(dims: seq<nat>): nat {
    if dims == [] then 1 else dims[0] * Count(dims[1..])
  }

  predicate InBounds(path: seq<nat>, dims: seq<nat>) {
    |path| == |dims| && forall i :: 0 <= i < |dims| ==> path[i] < dims[i]
  }

  /** The cell a path leads to, as nested array offsets add up. */
  function CellIndex(dims: seq<nat>, path: seq<nat>): nat
    requires |path| == |dims|
  {
    if dims == [] then 0 else path[0] * Count(dims[1..]) + CellIndex(dims[1..], path[1..])
  }

  /** The path of a position, as the printer divides it out from the last dimension on. */
  function IndexPath(dims: seq<nat>, k: nat): (path: seq<nat>)
    requires forall i :: 0 <= i < |dims| ==> dims[i] > 0
    ensures |path| == |dims|
  {
    if dims == [] then []
    else
      var d := dims[|dims| - 1];
      IndexPath(dims[..|dims| - 1], k / d) + [k % d]
  }

  lemma {:induction false} CountSnoc(dims: seq<nat>, d: nat)
    ensures Count(dims + [d]) == Count(dims) * d
  {
    if dims == [] {
      assert [d][1..] == [] && dims + [d] == [d];
    } else {
      assert (dims + [d])[1..] == dims[1..] + [d];
      CountSnoc(dims[1..], d);
      ProductIsAssociative(dims[0], Count(dims[1..]), d);
    }
  }

  lemma {:induction false} CellIndexSnoc(dims: seq<nat>, d: nat, path: seq<nat>, i: nat)
    requires |path| == |dims|
    ensures CellIndex(dims + [d], path + [i]) == CellIndex(dims, path) * d + i
  {
    if dims == [] {
      assert dims + [d] == [d] && path + [i] == [i] && [d][1..] == [] && [i][1..] == [];
    } else {
      assert (dims + [d])[1..] == dims[1..] + [d] && (path + [i])[1..] == path[1..] + [i];
      CellIndexSnoc(dims[1..], d, path[1..], i);
      CountSnoc(dims[1..], d);
      ProductIsAssociative(path[0], Count(dims[1..]), d);
      assert (path[0] * Count(dims[1..]) + CellIndex(dims[1..], path[1..])) * d
          == path[0] * Count(dims[1..]) * d + CellIndex(dims[1..], path[1..]) * d;
    }
  }

  lemma {:induction false} CellIndexBound(dims: seq<nat>, path: seq<nat>)
    requires InBounds(path, dims)
    ensures CellIndex(dims, path) < Count(dims)
  {
    if dims != [] {
      assert InBounds(path[1..], dims[1..]);
      CellIndexBound(dims[1..], path[1..]);
      var c := Count(dims[1..]);
      ProductGrows(c, path[0] + 1, dims[0]);
      assert c * (path[0] + 1) == path[0] * c + c && c * dims[0] == dims[0] * c;
    }
  }

  predicate Positive(dims: seq<nat>) {
    forall i :: 0 <= i < |dims| ==> dims[i] > 0
  }

  lemma SplitPosition(k: nat, c: nat, d: nat)
    requires d > 0 && k < c * d
    ensures k / d < c && k % d < d && k / d * d + k % d == k
  {
    QuotientIsBelow(k, c, d);
  }

  lemma JoinPosition(q: nat, d: nat, i: nat)
    requires i < d
    ensures (q * d + i) / d == q && (q * d + i) % d == i
  {
    RemainderIsUnique(q * d + i, d, q, i);
  }

  lemma LastIndex(dims: seq<nat>, front: seq<nat>, d: nat, p: seq<nat>, i: nat, path: seq<nat>)
    requires dims == front + [d] && path == p + [i] && InBounds(p, front) && i < d
    ensures InBounds(path, dims) && CellIndex(dims, path) == CellIndex(front, p) * d + i
  {
    CellIndexSnoc(front, d, p, i);
  }

  /** Every flat position is the cell of its decoded path. */
  lemma {:induction false} CellOfIndexPath(dims: seq<nat>, k: nat)
    requires Positive(dims) && k < Count(dims)
    ensures InBounds(IndexPath(dims, k), dims) && CellIndex(dims, IndexPath(dims, k)) == k
    decreases |dims|
  {
    if dims != [] {
      var front, d := dims[..|dims| - 1], dims[|dims| - 1];
      assert dims == front + [d];
      CountSnoc(front, d);
      SplitPosition(k, Count(front), d);
      CellOfIndexPath(front, k / d);
      LastIndex(dims, front, d, IndexPath(front, k / d), k % d, IndexPath(dims, k));
    }
  }

  /** Every path is the decoding of its cell. */
  lemma {:induction false} IndexPathOfCell(dims: seq<nat>, path: seq<nat>)
    requires Positive(dims) && InBounds(path, dims)
    ensures IndexPath(dims, CellIndex(dims, path)) == path
    decreases |dims|
  {
    if dims != [] {
      var front, d := dims[..|dims| - 1], dims[|dims| - 1];
      var p, i := path[..|dims| - 1], path[|dims| - 1];
      assert dims == front + [d] && path == p + [i];
      IndexPathOfCell(front, p);
      CellIndexSnoc(front, d, p, i);
      JoinPosition(CellIndex(front, p), d, i);
    }
  }

  /** The paths of ascending positions ascend: where two of them differ first, the earlier one has the smaller
      index. So the last index runs fastest. */
  lemma {:induction false} IndexPathsAscend(dims: seq<nat>, k: nat, l: nat, p: seq<nat>, q: seq<nat>) returns (i: nat)
    requires Positive(dims) && k < l < Count(dims) && p == IndexPath(dims, k) && q == IndexPath(dims, l)
    ensures i < |dims| && p[..i] == q[..i] && p[i] < q[i]
    decreases |dims|, 0
  {
    var front, d, a, x := LastDimension(dims, k, p);
    var front', d', b, y := LastDimension(dims, l, q);
    SameLast(front, d, front', d');
    RowsAscend(k, l, d, Count(front));
    i := RowPathsAscend(front, a, x, b, y, p, q);
  }

  /** A path's last index and those before it, and the positions they stand for. */
  lemma LastDimension(dims: seq<nat>, k: nat, p: seq<nat>) returns (front: seq<nat>, d: nat, a: nat, x: nat)
    requires dims != [] && Positive(dims) && p == IndexPath(dims, k)
    ensures dims == front + [d] && Positive(front) && d > 0 && Count(dims) == Count(front) * d
    ensures a == k / d && x == k % d && p == IndexPath(front, a) + [x]
  {
    front, d := dims[..|dims| - 1], dims[|dims| - 1];
    assert dims == front + [d];
    CountSnoc(front, d);
    a, x := k / d, k % d;
  }

  lemma SameLast(a: seq<nat>, x: nat, b: seq<nat>, y: nat)
    requires a + [x] == b + [y]
    ensures a == b && x == y
  {
    assert (a + [x])[..|a|] == a && (b + [y])[..|b|] == b;
    assert (a + [x])[|a|] == x && (b + [y])[|b|] == y;
  }

  lemma {:induction false} RowPathsAscend(front: seq<nat>, a: nat, x: nat, b: nat, y: nat, p: seq<nat>, q: seq<nat>)
    returns (i: nat)
    requires Positive(front) && (a < b < Count(front) || (a == b && x < y))
    requires p == IndexPath(front, a) + [x] && q == IndexPath(front, b) + [y]
    ensures i <= |front| && p[..i] == q[..i] && p[i] < q[i]
    decreases |front|, 1
  {
    var p', q' := IndexPath(front, a), IndexPath(front, b);
    i := |front|;
    if a < b {
      i := IndexPathsAscend(front, a, b, p', q');
    }
    FirstDifference(p', q', x, y, i, p, q);
  }

  lemma FirstDifference(p: seq<nat>, q: seq<nat>, x: nat, y: nat, i: nat, r: seq<nat>, s: seq<nat>)
    requires r == p + [x] && s == q + [y] && |p| == |q| && i <= |p| && p[..i] == q[..i]
    requires if i < |p| then p[i] < q[i] else x < y
    ensures r[..i] == s[..i] && r[i] < s[i]
  {
    SliceOfLeft(p, [x], 0, i);
    SliceOfLeft(q, [y], 0, i);
  }

  /** Of two ascending positions in `c` rows of `d`, the later one lies in a later row or in the same. */
  lemma RowsAscend(k: nat, l: nat, d: nat, c: nat)
    requires d > 0 && k < l < c * d
    ensures k / d < l / d < c || (k / d == l / d && k % d < l % d)
  {
    var q, p := l / d, k / d;
    SplitPosition(l, c, d);
    assert l == d * q + l % d && k == d * p + k % d && d * (q + 1) == d * q + d;
    ProductCancels(d, p, q + 1);
  }
}
