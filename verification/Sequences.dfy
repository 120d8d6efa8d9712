/** Facts about slices and concatenations that the solver is slow to find in a larger context. */
module Sequences {

  lemma SubSlice<T>(s: seq<T>, a: nat, b: nat, i: nat, j: nat)
    requires a <= b <= |s| && i <= j <= b - a
    ensures s[a..b][i..j] == s[a + i..a + j]
  {
    forall k | 0 <= k < j - i ensures s[a..b][i..j][k] == s[a + i..a + j][k] {
      assert s[a..b][i + k] == s[a + (i + k)];
    }
  }

  lemma SliceOfLeft<T>(a: seq<T>, b: seq<T>, i: nat, j: nat)
    requires i <= j <= |a|
    ensures (a + b)[i..j] == a[i..j]
  {
  }

  lemma SliceOfRight<T>(a: seq<T>, b: seq<T>, i: nat, j: nat)
    requires |a| <= i <= j <= |a| + |b|
    ensures (a + b)[i..j] == b[i - |a|..j - |a|]
  {
  }

  lemma JoinSlices<T>(s: seq<T>, a: nat, b: nat, c: nat)
    requires a <= b <= c <= |s|
    ensures s[a..b] + s[b..c] == s[a..c]
  {
  }

  lemma JoinPrefix<T>(s: seq<T>, b: nat, c: nat)
    requires b <= c <= |s|
    ensures s[..b] + s[b..c] == s[..c]
  {
  }

  lemma ConcatIsAssociative<T>(a: seq<T>, b: seq<T>, c: seq<T>)
    ensures a + b + c == a + (b + c)
  {
  }

  lemma TailOfConcat<T>(a: seq<T>, b: seq<T>)
    requires a != []
    ensures (a + b)[0] == a[0] && (a + b)[1..] == a[1..] + b
  {
  }

  lemma FrontOfConcat<T>(a: seq<T>, b: seq<T>)
    requires b != []
    ensures (a + b)[|a + b| - 1] == b[|b| - 1] && (a + b)[..|a + b| - 1] == a + b[..|b| - 1]
  {
  }

  lemma HeadAndTail<T>(s: seq<T>)
    requires s != []
    ensures s == [s[0]] + s[1..]
  {
  }

  /** The first `n` parts, one after the other. */
  function Flat<T>(parts: seq<seq<T>>, n: nat): seq<T>
    requires n <= |parts|
  {
    if n == 0 then [] else Flat(parts, n - 1) + parts[n - 1]
  }

  lemma NoPart<T>(before: seq<T>, parts: seq<seq<T>>)
    ensures before + Flat(parts, 0) == before
  {
  }

  lemma {:induction false} FlatOfFront<T>(parts: seq<seq<T>>, more: seq<seq<T>>, n: nat)
    requires n <= |parts|
    ensures Flat(parts + more, n) == Flat(parts, n)
  {
    if n > 0 {
      FlatOfFront(parts, more, n - 1);
    }
  }

  lemma {:induction false} FlatOfPrefix<T>(parts: seq<seq<T>>, n: nat)
    requires n <= |parts|
    ensures Flat(parts[..n], n) == Flat(parts, n)
  {
    FlatOfFront(parts[..n], parts[n..], n);
    assert parts[..n] + parts[n..] == parts;
  }

  lemma {:induction false} FlatOfTail<T>(parts: seq<seq<T>>, n: nat)
    requires n < |parts|
    ensures Flat(parts, n + 1) == parts[0] + Flat(parts[1..], n)
  {
    if n > 0 {
      FlatOfTail(parts, n - 1);
      ConcatIsAssociative(parts[0], Flat(parts[1..], n - 1), parts[n]);
    }
  }

  lemma FlatSnoc<T>(parts: seq<seq<T>>, part: seq<T>)
    ensures Flat(parts + [part], |parts| + 1) == Flat(parts, |parts|) + part
  {
    FlatOfFront(parts, [part], |parts|);
  }

  /** Every part has its place: behind those before it and before those behind it. */
  lemma {:induction false} FlatHasPart<T>(parts: seq<seq<T>>, n: nat, i: nat) returns (after: seq<T>)
    requires i < n <= |parts|
    ensures Flat(parts, n) == Flat(parts, i) + parts[i] + after
    decreases n
  {
    if i == n - 1 {
      after := [];
      assert Flat(parts, i) + parts[i] == Flat(parts, i) + parts[i] + [];
    } else {
      after := FlatHasPart(parts, n - 1, i);
      ConcatIsAssociative(Flat(parts, i) + parts[i], after, parts[n - 1]);
      after := after + parts[n - 1];
    }
  }

  lemma OnePartMore<T>(before: seq<T>, parts: seq<seq<T>>, n: nat)
    requires n < |parts|
    ensures before + Flat(parts, n) + parts[n] == before + Flat(parts, n + 1)
  {
    ConcatIsAssociative(before, Flat(parts, n), parts[n]);
  }
}
