/** Status words whose set bits are counted by a statistic with one cell per bit. */
module BitStatus {
  import opened Arithmetic
  import opened Bytes
  import opened IndexCodec
  import opened Sequences
  import opened StatArray
  import opened StatMemory
  import opened StatLog

  /** What a write for bit `b` is given: the indices, the bit and a one. */
  function BitArgs(path: seq<nat>, b: nat): seq<int> {
    path + [b, 1]
  }

  /** One write per set bit among the first `n`. */
  function BitEvents(id: nat, path: seq<nat>, bits: seq<bool>, n: nat): seq<Event>
    requires n <= |bits|
  {
    if n == 0 then []
    else BitEvents(id, path, bits, n - 1) + if bits[n - 1] then [StatMemory.Write(id, BitArgs(path, n - 1))] else []
  }

  method WriteBitStatus(op: Operational, id: nat, path: seq<nat>, bits: seq<bool>)
    requires op.Valid() && forall b: nat :: b < |bits| && bits[b] ==> Writable(op.tree, id, BitArgs(path, b))
    modifies op.shm, op.shm.bytes, AllOf(op.elems)
    ensures op.Valid() && op.shm.events == old(op.shm.events) + BitEvents(id, path, bits, |bits|)
  {
    for i := 0 to |bits|
      invariant op.Valid() && op.shm.events == old(op.shm.events) + BitEvents(id, path, bits, i)
    {
      if bits[i] {
        op.WriteStat(id, BitArgs(path, i));
      }
    }
  }

  /** The path of one of the first `n` bits that is set. */
  predicate IsSetBit(q: seq<nat>, path: seq<nat>, bits: seq<bool>, n: nat)
    requires n <= |bits|
  {
    |q| == |path| + 1 && q[..|path|] == path && q[|path|] < n && bits[q[|path|]]
  }

  lemma PathsDiffer(dims: seq<nat>, p: seq<nat>, q: seq<nat>)
    requires Positive(dims) && InBounds(p, dims) && InBounds(q, dims)
    ensures CellIndex(dims, p) == CellIndex(dims, q) <==> p == q
  {
    IndexPathOfCell(dims, p);
    IndexPathOfCell(dims, q);
  }

  lemma BitOf(path: seq<nat>, q: seq<nat>, c: nat)
    requires |q| == |path| + 1
    ensures path + [c] == q <==> q[..|path|] == path && q[|path|] == c
  {
    assert q == q[..|path|] + [q[|path|]];
  }

  lemma ArgsOfBit(dims: seq<nat>, path: seq<nat>, b: nat)
    requires |dims| == |path| + 1 && InBounds(path + [b], dims)
    ensures Given(dims, BitArgs(path, b)) && Indices(dims, BitArgs(path, b)) == path + [b]
    ensures ValueIn(dims, BitArgs(path, b)) == 1
  {
    var args, p := BitArgs(path, b), path + [b];
    forall i | 0 <= i < |dims| ensures args[i] == p[i] < dims[i] {
    }
  }

  lemma OneWrite(before: seq<Event>, s: Site, path: seq<nat>, b: nat, q: seq<nat>)
    requires s.spec.Some? && Positive(s.spec.value.dims) && |s.spec.value.dims| == |path| + 1
    requires InBounds(path + [b], s.spec.value.dims) && InBounds(q, s.spec.value.dims)
    ensures var k := CellIndex(s.spec.value.dims, q);
            SinceClear(before + [StatMemory.Write(s.id, BitArgs(path, b))], s, k) ==
            SinceClear(before, s, k) + if path + [b] == q then [1] else []
  {
    var e := StatMemory.Write(s.id, BitArgs(path, b));
    assert (before + [e])[..|before|] == before;
    ArgsOfBit(s.spec.value.dims, path, b);
    PathsDiffer(s.spec.value.dims, path + [b], q);
  }

  lemma NextBit(events: seq<Event>, id: nat, path: seq<nat>, bits: seq<bool>, n: nat)
    requires n < |bits|
    ensures var before := events + BitEvents(id, path, bits, n);
            events + BitEvents(id, path, bits, n + 1) ==
            if bits[n] then before + [StatMemory.Write(id, BitArgs(path, n))] else before
  {
    if bits[n] {
      ConcatIsAssociative(events, BitEvents(id, path, bits, n), [StatMemory.Write(id, BitArgs(path, n))]);
    } else {
      assert BitEvents(id, path, bits, n + 1) == BitEvents(id, path, bits, n);
    }
  }

  lemma AtMostOnce(a: seq<int>, x: bool, y: bool)
    requires !x || !y
    ensures a + (if x then [1] else []) + (if y then [1] else []) == a + if x || y then [1] else []
  {
  }

  lemma BitStep(before: seq<Event>, after: seq<Event>, s: Site, path: seq<nat>, isSet: bool, b: nat, q: seq<nat>)
    requires s.spec.Some? && Positive(s.spec.value.dims) && |s.spec.value.dims| == |path| + 1
    requires InBounds(q, s.spec.value.dims) && (isSet ==> InBounds(path + [b], s.spec.value.dims))
    requires after == if isSet then before + [StatMemory.Write(s.id, BitArgs(path, b))] else before
    ensures var k := CellIndex(s.spec.value.dims, q);
            SinceClear(after, s, k) == SinceClear(before, s, k) + if isSet && path + [b] == q then [1] else []
  {
    if isSet {
      OneWrite(before, s, path, b, q);
    }
  }

  /** The cell that bit `bit` picks, or one that no bit picks, after the first `n` bits. */
  lemma {:induction false} BitsReach(events: seq<Event>, s: Site, path: seq<nat>, bits: seq<bool>, n: nat, q: seq<nat>,
                                     bit: nat, picked: bool, after: seq<Event>)
    requires n <= |bits| && s.spec.Some? && |s.spec.value.dims| == |path| + 1
    requires var dims := s.spec.value.dims; Positive(dims) && InBounds(q, dims)
    requires forall b: nat :: b < |bits| && bits[b] ==> InBounds(path + [b], s.spec.value.dims)
    requires bit == q[|path|] && picked == (q[..|path|] == path)
    requires after == events + BitEvents(s.id, path, bits, n)
    ensures var k := CellIndex(s.spec.value.dims, q);
            SinceClear(after, s, k) == SinceClear(events, s, k) + if picked && bit < n && bits[bit] then [1] else []
    decreases n
  {
    var k := CellIndex(s.spec.value.dims, q);
    if n == 0 {
      assert events + [] == events;
    } else {
      var before := events + BitEvents(s.id, path, bits, n - 1);
      BitsReach(events, s, path, bits, n - 1, q, bit, picked, before);
      NextBit(events, s.id, path, bits, n - 1);
      BitOf(path, q, n - 1);
      BitStep(before, after, s, path, bits[n - 1], n - 1, q);
      AtMostOnce(SinceClear(events, s, k), picked && bit < n - 1 && bits[bit], bits[n - 1] && picked && bit == n - 1);
    }
  }

  /** Each set bit adds one to its own cell; no other cell of the statistic changes. */
  lemma BitsAreCounted(events: seq<Event>, s: Site, path: seq<nat>, bits: seq<bool>, n: nat, q: seq<nat>)
    requires n <= |bits| && s.spec.Some? && |s.spec.value.dims| == |path| + 1
    requires var dims := s.spec.value.dims; Positive(dims) && InBounds(q, dims)
    requires forall b: nat :: b < |bits| && bits[b] ==> InBounds(path + [b], s.spec.value.dims)
    ensures var k := CellIndex(s.spec.value.dims, q);
            SinceClear(events + BitEvents(s.id, path, bits, n), s, k) ==
            SinceClear(events, s, k) + if IsSetBit(q, path, bits, n) then [1] else []
  {
    BitsReach(events, s, path, bits, n, q, q[|path|], q[..|path|] == path, events + BitEvents(s.id, path, bits, n));
  }

  /** A counter's value after a status word: one more where the bit is set. */
  lemma {:induction false} BitCount(events: seq<Event>, s: Site, path: seq<nat>, bits: seq<bool>, q: seq<nat>)
    requires s.spec.Some? && s.spec.value.stat.Simple? && s.spec.value.stat.policy.Increment?
    requires var dims := s.spec.value.dims; |dims| == |path| + 1 && Positive(dims) && InBounds(q, dims)
    requires forall b: nat :: b < |bits| && bits[b] ==> InBounds(path + [b], s.spec.value.dims)
    ensures var k := CellIndex(s.spec.value.dims, q);
            var after := Value(events + BitEvents(s.id, path, bits, |bits|), s, k);
            after == (Value(events, s, k) + if IsSetBit(q, path, bits, |bits|) then 1 else 0) % Capacity(s.Width())
  {
    var k, c := CellIndex(s.spec.value.dims, q), Capacity(s.Width());
    var all := events + BitEvents(s.id, path, bits, |bits|);
    BitsAreCounted(events, s, path, bits, |bits|, q);
    ValueIsSumOrLast(events, s, k);
    ValueIsSumOrLast(all, s, k);
    var before := SinceClear(events, s, k);
    OneOrNone(before, SinceClear(all, s, k), IsSetBit(q, path, bits, |bits|), c);
  }

  lemma OneOrNone(before: seq<int>, after: seq<int>, one: bool, c: nat)
    requires c > 0 && after == before + if one then [1] else []
    ensures Sum(after) % c == (Sum(before) % c + if one then 1 else 0) % c
  {
    RemainderOfSum(Sum(before), if one then 1 else 0, c);
    if one {
      assert (before + [1])[..|before|] == before;
    } else {
      assert after == before;
    }
  }

  // ----- a status word for a single counter -----

  /** The numbers of the set bits among the first `n`. */
  function SetNumbers(bits: seq<bool>, n: nat): seq<int>
    requires n <= |bits|
  {
    if n == 0 then [] else SetNumbers(bits, n - 1) + if bits[n - 1] then [n - 1] else []
  }

  lemma OneNumber(before: seq<Event>, after: seq<Event>, s: Site, isSet: bool, b: nat)
    requires s.spec.Some? && s.spec.value.dims == []
    requires after == if isSet then before + [StatMemory.Write(s.id, BitArgs([], b))] else before
    ensures SinceClear(after, s, 0) == SinceClear(before, s, 0) + if isSet then [b] else []
  {
    if isSet {
      var e := StatMemory.Write(s.id, BitArgs([], b));
      assert e.args == [b, 1] && (before + [e])[..|before|] == before;
    }
  }

  /** A single counter is given the bits' numbers, not ones: a single stat stores its first argument. */
  lemma {:induction false} SingleAddsNumbers(events: seq<Event>, s: Site, bits: seq<bool>, n: nat, after: seq<Event>)
    requires n <= |bits| && s.spec.Some? && s.spec.value.stat.Simple? && s.spec.value.dims == []
    requires after == events + BitEvents(s.id, [], bits, n)
    ensures SinceClear(after, s, 0) == SinceClear(events, s, 0) + SetNumbers(bits, n)
    decreases n
  {
    if n == 0 {
      assert events + [] == events;
    } else {
      var before := events + BitEvents(s.id, [], bits, n - 1);
      SingleAddsNumbers(events, s, bits, n - 1, before);
      NextBit(events, s.id, [], bits, n - 1);
      OneNumber(before, after, s, bits[n - 1], n - 1);
      ConcatIsAssociative(SinceClear(events, s, 0), SetNumbers(bits, n - 1), if bits[n - 1] then [n - 1] else []);
    }
  }
}
