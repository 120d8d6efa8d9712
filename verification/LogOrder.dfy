/** The ring read from one of its heads: which head comes first, and in which order entries come out. */
module LogOrder {
  import opened Arithmetic
  import opened LogBlocks
  import opened Sequences
  import opened LogWindow

  // ----- reading the ring from one of its heads -----

  /** Position `x` of the ring, for positions that have gone round at most once. */
  function Wrap(x: nat, n: nat): nat {
    if x < n then x else x - n
  }

  lemma WrapNext(x: nat, n: nat)
    requires x < 2 * n
    ensures (Wrap(x, n) + 1) % n == if x + 1 < 2 * n then Wrap(x + 1, n) else 0
  {
    NextWraps(Wrap(x, n), n);
  }

  lemma UnrollAt(ring: seq<Piece>, q: nat, i: nat)
    requires q < |ring| && i < |ring|
    ensures Wrap(q + i, |ring|) < |ring| && Unroll(ring, q)[i] == ring[Wrap(q + i, |ring|)]
  {
  }

  /** Every head of the ring is one of the survivors. */
  lemma {:induction false} HeadIsListed(w: seq<Piece>, i: nat)
    requires i < |w| && w[i].IsHead()
    ensures w[i].entry in Heads(w)
  {
    if i > 0 {
      HeadIsListed(w[1..], i - 1);
    }
  }

  lemma {:induction false} ListedHasHead(w: seq<Piece>, e: Entry)
    requires e in Heads(w)
    ensures exists i :: 0 <= i < |w| && w[i].IsHead() && w[i].entry == e
  {
    if w[0].IsHead() && w[0].entry == e {
    } else {
      assert e in Heads(w[1..]);
      ListedHasHead(w[1..], e);
      var i :| 0 <= i < |w[1..]| && w[1..][i].IsHead() && w[1..][i].entry == e;
      assert w[i + 1].IsHead() && w[i + 1].entry == e;
    }
  }

  lemma InsideEntry(w: seq<Piece>, i: nat, p: nat)
    requires i < |w| && w[i].IsHead() && EntryAt(w, i)
    requires i <= p < i + w[i].entry.Size()
    ensures w[p] == Piece(w[i].entry, p - i)
  {
    assert w[p] == w[i..i + w[i].entry.Size()][p - i];
  }

  lemma EntryEndsBefore(w: seq<Piece>, i: nat, p: nat)
    requires i < p < |w| && w[i].IsHead() && w[p].IsHead() && EntryAt(w, i)
    ensures i + w[i].entry.Size() <= p
  {
    if p < i + w[i].entry.Size() {
      InsideEntry(w, i, p);
    }
  }

  lemma RotationIsComplete(w: seq<Piece>, p: nat)
    requires Complete(w) && p < |w| && w[p].IsHead()
    ensures Complete(Unroll(w, p))
  {
    var u := Unroll(w, p);
    forall i | 0 <= i < |u| && u[i].IsHead() ensures EntryAt(u, i) {
      if i < |w| - p {
        EntryBehind(w, p, i);
      } else {
        EntryBefore(w, p, i - (|w| - p));
      }
    }
  }

  lemma EntryBehind(w: seq<Piece>, p: nat, i: nat)
    requires Complete(w) && p + i < |w| && w[p + i].IsHead()
    ensures Unroll(w, p)[i] == w[p + i] && EntryAt(Unroll(w, p), i)
  {
    var m := w[p + i].entry.Size();
    assert EntryAt(w, p + i);
    SliceOfLeft(w[p..], w[..p], i, i + m);
    SubSlice(w, p, |w|, i, i + m);
  }

  lemma EntryBefore(w: seq<Piece>, p: nat, x: nat)
    requires Complete(w) && x < p < |w| && w[x].IsHead() && w[p].IsHead()
    ensures Unroll(w, p)[|w| - p + x] == w[x] && EntryAt(Unroll(w, p), |w| - p + x)
  {
    var m := w[x].entry.Size();
    assert EntryAt(w, x);
    EntryEndsBefore(w, x, p);
    SliceOfRight(w[p..], w[..p], |w| - p + x, |w| - p + x + m);
    SubSlice(w, 0, p, x, x + m);
  }

  /** Reading from a head gives a rotation of the entries. */
  lemma RotationOfHeads(w: seq<Piece>, p: nat)
    requires p < |w| && w[p].IsHead()
    ensures var r := |Heads(w[..p])|;
            && r < |Heads(w)| && Heads(w)[r] == w[p].entry
            && Heads(Unroll(w, p)) == Heads(w)[r..] + Heads(w)[..r]
  {
    HeadsOfConcat(w[..p], w[p..]);
    HeadsOfConcat(w[p..], w[..p]);
    assert w == w[..p] + w[p..];
    assert Heads(w[p..]) == [w[p].entry] + Heads(w[p..][1..]);
  }

  /** The position in the view from cursor `q` of physical block `j`. */
  lemma PositionOf(ring: seq<Piece>, q: nat, j: nat) returns (p: nat)
    requires q < |ring| && j < |ring|
    ensures p < |ring| && Unroll(ring, q)[p] == ring[j]
    ensures Unroll(Unroll(ring, q), p) == Unroll(ring, j)
    ensures j == Wrap(q + p, |ring|)
  {
    p := if j >= q then j - q else |ring| - q + j;
    UnrollTwice(ring, q, p, j);
    UnrollAt(ring, q, p);
  }

  /** Going round from a block of a view is going round from that block of the ring. */
  lemma UnrollTwice(ring: seq<Piece>, q: nat, p: nat, j: nat)
    requires q < |ring| && p < |ring| && j == Wrap(q + p, |ring|)
    ensures Unroll(Unroll(ring, q), p) == Unroll(ring, j)
  {
    var u, n := Unroll(ring, q), |ring|;
    forall i | 0 <= i < n ensures Unroll(u, p)[i] == Unroll(ring, j)[i] {
      UnrollAt(u, p, i);
      UnrollAt(ring, q, Wrap(p + i, n));
      UnrollAt(ring, j, i);
    }
  }

  lemma EntryAtFront(u: seq<Piece>, p: nat)
    requires p < |u| && u[p].IsHead() && EntryAt(u, p)
    ensures Unroll(u, p)[0] == u[p] && EntryAt(Unroll(u, p), 0)
  {
    var m := u[p].entry.Size();
    SliceOfLeft(u[p..], u[..p], 0, m);
    SubSlice(u, p, |u|, 0, m);
  }

  /** Block `at` is a head and the rest of its entry follows it round the ring. */
  ghost predicate WholeEntryAt(ring: seq<Piece>, at: nat) {
    at < |ring| && ring[at].IsHead() && EntryAt(Unroll(ring, at), 0)
  }

  lemma RingEntryAt(ring: seq<Piece>, at: nat, k: nat)
    requires WholeEntryAt(ring, at) && k < ring[at].entry.Size()
    ensures Wrap(at + k, |ring|) < |ring| && ring[Wrap(at + k, |ring|)] == Piece(ring[at].entry, k)
  {
    var u := Unroll(ring, at);
    InsideEntry(u, 0, k);
    UnrollAt(ring, at, k);
  }

  lemma EntryFromView(ring: seq<Piece>, first: nat, p: nat)
    requires first < |ring| && p < |ring| && Complete(Unroll(ring, first)) && Unroll(ring, first)[p].IsHead()
    ensures EntryAt(Unroll(ring, first), p)
    ensures WholeEntryAt(ring, Wrap(first + p, |ring|))
  {
    var u, j := Unroll(ring, first), Wrap(first + p, |ring|);
    UnrollAt(ring, first, p);
    UnrollTwice(ring, first, p, j);
    EntryAtFront(u, p);
  }

  // ----- where the survivors are -----

  /** A block is a head exactly when its entry survives; all survivors have their heads in the ring. */
  lemma RingHeads(history: seq<Entry>, n: nat)
    requires n > 0
    ensures var ring, s := RingAfter(history, n), Survivors(history, n);
            && (forall j :: 0 <= j < n && ring[j].IsHead() ==> ring[j].entry in s && ring[j].entry.Size() <= n)
            && (forall e <- s :: exists j :: 0 <= j < n && ring[j].IsHead() && ring[j].entry == e)
            && (s == [] <==> forall j :: 0 <= j < n ==> !ring[j].IsHead())
  {
    var ring, w, q := RingAfter(history, n), Window(history, n), Cursor(history, n);
    RingUnrollsToWindow(history, n);
    WindowHoldsSurvivors(history, n);
    forall j | 0 <= j < n && ring[j].IsHead() ensures ring[j].entry in Heads(w) && ring[j].entry.Size() <= n {
      var p := PositionOf(ring, q, j);
      HeadIsListed(w, p);
      assert EntryAt(w, p);
    }
    forall e | e in Heads(w) ensures exists j :: 0 <= j < n && ring[j].IsHead() && ring[j].entry == e {
      ListedHasHead(w, e);
      var i :| 0 <= i < |w| && w[i].IsHead() && w[i].entry == e;
      UnrollAt(ring, q, i);
      assert ring[Wrap(q + i, n)].IsHead();
    }
    if Heads(w) != [] {
      assert Heads(w)[0] in Heads(w);
    }
  }

  /** Where the ring has the head block of survivor `i`. */
  function HeadPlace(history: seq<Entry>, n: nat, i: nat): (p: nat)
    requires n > 0 && i < |Survivors(history, n)|
    ensures p < n
  {
    Cursor(history[..|history| - |Survivors(history, n)| + i], n)
  }

  function HeadPlaces(history: seq<Entry>, n: nat): (ps: seq<nat>)
    requires n > 0
    ensures |ps| == |Survivors(history, n)|
    ensures forall i :: 0 <= i < |ps| ==> ps[i] == HeadPlace(history, n, i)
  {
    seq(|Survivors(history, n)|, i requires 0 <= i < |Survivors(history, n)| => HeadPlace(history, n, i))
  }

  /** How far before the cursor survivor `i` begins. */
  function Back(s: seq<Entry>, i: nat): (t: nat)
    requires i <= |s|
  {
    Total(s[i..])
  }

  lemma BackSnoc(s: seq<Entry>, e: Entry, i: nat)
    requires i <= |s|
    ensures Back(s + [e], i) == Back(s, i) + e.Size()
  {
    assert (s + [e])[i..] == s[i..] + [e];
    TotalAppend(s[i..], e);
  }

  lemma {:induction false} BackShrinks(s: seq<Entry>, i: nat, j: nat)
    requires i <= j <= |s|
    ensures i < j ==> Back(s, j) < Back(s, i)
    decreases j - i
  {
    if i < j {
      assert s[i..] == [s[i]] + s[i + 1..];
      TotalSplits([s[i]], s[i + 1..]);
      assert Total([s[i]]) == s[i].Size();
      BackShrinks(s, i + 1, j);
    }
  }

  /** In the window each survivor's head lies as far from the end as the blocks from there on. */
  lemma {:induction false} SurvivorInWindow(history: seq<Entry>, n: nat, i: nat)
    requires i < |Survivors(history, n)|
    ensures var s := Survivors(history, n);
            0 < Back(s, i) <= n && Window(history, n)[n - Back(s, i)] == Piece(s[i], 0)
    decreases |history|
  {
    var e, h := Last(history), Front(history);
    var m := n - e.Size();
    var s := Survivors(h, m);
    BackSnoc(s, e, i);
    if i < |s| {
      SurvivorInWindow(h, m, i);
    } else {
      assert s[i..] == [];
    }
  }

  /** A head of the window is that of the survivor before which as many heads lie. */
  lemma {:induction false} HeadInWindow(history: seq<Entry>, n: nat, p: nat)
    requires p < n && Window(history, n)[p].IsHead()
    ensures var s, r := Survivors(history, n), |Heads(Window(history, n)[..p])|;
            r < |s| && p == n - Back(s, r)
    decreases |history|
  {
    var e, h := Last(history), Front(history);
    assert e.Size() <= n;
    var m := n - e.Size();
    var s, w := Survivors(h, m), Window(h, m);
    if p < m {
      assert Window(history, n)[..p] == w[..p];
      HeadInWindow(h, m, p);
      BackSnoc(s, e, |Heads(w[..p])|);
    } else {
      assert p == m && Window(history, n)[..p] == w;
      WindowHoldsSurvivors(h, m);
      BackSnoc(s, e, |s|);
      assert s[|s|..] == [];
    }
  }

  lemma CursorBefore(a: nat, t: nat, n: nat)
    requires 0 < t <= n
    ensures a % n == Wrap((a + t) % n + n - t, n)
  {
    var r := a % n;
    RemainderOfSum(a, t, n);
    if r + t < n {
      RemainderIsUnique(r + t, n, 0, r + t);
    } else {
      RemainderIsUnique(r + t, n, 1, r + t - n);
    }
  }

  lemma CursorSplits(history: seq<Entry>, m: nat, suffix: seq<Entry>, n: nat)
    requires m <= |history| && history[m..] == suffix && 0 < Total(suffix) <= n
    ensures Cursor(history[..m], n) == Wrap(Cursor(history, n) + n - Total(suffix), n)
  {
    assert history == history[..m] + suffix;
    TotalSplits(history[..m], suffix);
    CursorBefore(Total(history[..m]), Total(suffix), n);
  }

  lemma SurvivorsAreSuffix(history: seq<Entry>, n: nat)
    ensures |Survivors(history, n)| <= |history|
    ensures history[|history| - |Survivors(history, n)|..] == Survivors(history, n)
  {
    SurvivorsIsLongestFittingSuffix(history, n);
  }

  lemma SuffixOfSuffix(history: seq<Entry>, s: seq<Entry>, i: nat)
    requires |s| <= |history| && history[|history| - |s|..] == s && i <= |s|
    ensures history[|history| - |s| + i..] == s[i..]
  {
    SubSlice(history, |history| - |s|, |history|, i, |s|);
  }

  lemma PlaceInView(history: seq<Entry>, n: nat, i: nat)
    requires n > 0 && i < |Survivors(history, n)|
    ensures var t := Back(Survivors(history, n), i);
            0 < t <= n && HeadPlace(history, n, i) == Wrap(Cursor(history, n) + n - t, n)
  {
    SurvivorsAreSuffix(history, n);
    SurvivorInWindow(history, n, i);
    PlaceInSuffix(history, Survivors(history, n), n, i);
  }

  lemma PlaceInSuffix(history: seq<Entry>, s: seq<Entry>, n: nat, i: nat)
    requires |s| <= |history| && history[|history| - |s|..] == s && i <= |s| && 0 < Back(s, i) <= n
    ensures Cursor(history[..|history| - |s| + i], n) == Wrap(Cursor(history, n) + n - Back(s, i), n)
  {
    SuffixOfSuffix(history, s, i);
    CursorSplits(history, |history| - |s| + i, s[i..], n);
  }

  lemma PlacesDiffer(history: seq<Entry>, n: nat, i: nat, j: nat)
    requires n > 0 && i < j < |Survivors(history, n)|
    ensures HeadPlace(history, n, i) != HeadPlace(history, n, j)
  {
    PlaceInView(history, n, i);
    PlaceInView(history, n, j);
    BackShrinks(Survivors(history, n), i, j);
  }

  /** The ring has the head of each survivor at its place. */
  lemma SurvivorInRing(history: seq<Entry>, n: nat, i: nat)
    requires n > 0 && i < |Survivors(history, n)|
    ensures RingAfter(history, n)[HeadPlace(history, n, i)] == Piece(Survivors(history, n)[i], 0)
  {
    PlaceInView(history, n, i);
    SurvivorInWindow(history, n, i);
    RingUnrollsToWindow(history, n);
    UnrollAt(RingAfter(history, n), Cursor(history, n), n - Back(Survivors(history, n), i));
  }

  // ----- which entry is read first -----

  /** Among the first `n` blocks, `first` is the head with the smallest time stamp, and the first
      in memory of those. */
  ghost predicate OldestHead(ring: seq<Piece>, n: nat, first: nat)
    requires n <= |ring|
  {
    && first < n && ring[first].IsHead()
    && forall j :: 0 <= j < n && ring[j].IsHead() ==>
         && !ring[first].entry.stamp.After(ring[j].entry.stamp)
         && (j < first ==> ring[j].entry.stamp.After(ring[first].entry.stamp))
  }

  /** Reading takes the smaller time stamp first, and among equals the head that comes first in
      memory. */
  predicate ReadBefore(a: Entry, p: nat, b: Entry, q: nat) {
    b.stamp.After(a.stamp) || (a.stamp == b.stamp && p < q)
  }

  /** The entry that is read first of those with their heads at the given places. */
  function Earliest(s: seq<Entry>, places: seq<nat>): (r: nat)
    requires |s| == |places| > 0
    ensures r < |s|
  {
    var last := |s| - 1;
    if last == 0 then 0
    else
      var r := Earliest(s[..last], places[..last]);
      if ReadBefore(s[last], places[last], s[r], places[r]) then last else r
  }

  /** The head of entry `r` comes before all others. */
  ghost predicate IsFirst(s: seq<Entry>, places: seq<nat>, r: nat)
    requires |s| == |places| && r < |s|
  {
    forall i :: 0 <= i < |s| && i != r ==> ReadBefore(s[r], places[r], s[i], places[i])
  }

  /** In seconds and microseconds: the smaller time stamp, or the same and the head further up in memory. */
  lemma ReadBeforeMeans(a: Entry, p: nat, b: Entry, q: nat)
    ensures ReadBefore(a, p, b, q) <==>
            || a.stamp.sec < b.stamp.sec
            || (a.stamp.sec == b.stamp.sec && a.stamp.usec < b.stamp.usec)
            || (a.stamp.sec == b.stamp.sec && a.stamp.usec == b.stamp.usec && p < q)
  {
  }

  lemma OthersAreNotFirst(s: seq<Entry>, places: seq<nat>, a: nat, b: nat)
    requires |s| == |places| && a < |s| && b < |s| && a != b && IsFirst(s, places, a)
    ensures !IsFirst(s, places, b)
  {
    assert ReadBefore(s[a], places[a], s[b], places[b]);
    assert !ReadBefore(s[b], places[b], s[a], places[a]);
  }

  lemma {:induction false} EarliestIsFirst(s: seq<Entry>, places: seq<nat>)
    requires |s| == |places| > 0
    requires forall i, j :: 0 <= i < j < |s| ==> places[i] != places[j]
    ensures IsFirst(s, places, Earliest(s, places))
    decreases |s|
  {
    var last := |s| - 1;
    if last > 0 {
      EarliestIsFirst(s[..last], places[..last]);
      var r := Earliest(s[..last], places[..last]);
      assert forall i :: 0 <= i < last ==> s[..last][i] == s[i] && places[..last][i] == places[i];
    }
  }

  /** The survivor that reading the log begins with. */
  function ReadStart(history: seq<Entry>, n: nat): (r: nat)
    requires n > 0 && Survivors(history, n) != []
    ensures r < |Survivors(history, n)|
  {
    Earliest(Survivors(history, n), HeadPlaces(history, n))
  }

  /** Reading begins with survivor `r`: its head comes before all others. */
  ghost predicate StartsWith(history: seq<Entry>, n: nat, r: nat)
    requires n > 0 && r < |Survivors(history, n)|
  {
    IsFirst(Survivors(history, n), HeadPlaces(history, n), r)
  }

  /** Reading begins with the one survivor whose head comes before all others. */
  lemma ReadStartIsFirst(history: seq<Entry>, n: nat)
    requires n > 0 && Survivors(history, n) != []
    ensures StartsWith(history, n, ReadStart(history, n))
    ensures forall r :: 0 <= r < |Survivors(history, n)| && StartsWith(history, n, r) ==> r == ReadStart(history, n)
  {
    var s, places := Survivors(history, n), HeadPlaces(history, n);
    forall i, j | 0 <= i < j < |s| ensures places[i] != places[j] {
      PlacesDiffer(history, n, i, j);
    }
    EarliestIsFirst(s, places);
    var start := ReadStart(history, n);
    forall r | 0 <= r < |s| && r != start ensures !StartsWith(history, n, r) {
      OthersAreNotFirst(s, places, start, r);
    }
  }

  // ----- the order of reading -----

  function Rotation(s: seq<Entry>, r: nat): seq<Entry>
    requires r <= |s|
  {
    s[r..] + s[..r]
  }

  lemma ReadingFrom(history: seq<Entry>, n: nat, first: nat) returns (r: nat)
    requires first < n && RingAfter(history, n)[first].IsHead()
    ensures Complete(Unroll(RingAfter(history, n), first))
    ensures var s := Survivors(history, n);
            && r < |s| && first == HeadPlace(history, n, r)
            && Heads(Unroll(RingAfter(history, n), first)) == Rotation(s, r)
  {
    var w, q := Window(history, n), Cursor(history, n);
    RingUnrollsToWindow(history, n);
    WindowHoldsSurvivors(history, n);
    var p := PositionOf(RingAfter(history, n), q, first);
    RotationIsComplete(w, p);
    RotationOfHeads(w, p);
    HeadInWindow(history, n, p);
    r := |Heads(w[..p])|;
    PlaceInView(history, n, r);
  }

  /** Read from the head that a reader finds first, the log shows all survivors, in write order up to
      the rotation that begins with `ReadStart`. */
  lemma ReadingOrder(history: seq<Entry>, n: nat, first: nat)
    requires n > 0 && OldestHead(RingAfter(history, n), n, first)
    ensures Complete(Unroll(RingAfter(history, n), first))
    ensures var s := Survivors(history, n);
            && s != [] && first == HeadPlace(history, n, ReadStart(history, n))
            && Heads(Unroll(RingAfter(history, n), first)) == Rotation(s, ReadStart(history, n))
            && (forall e <- Rotation(s, ReadStart(history, n)) :: e in s)
  {
    var ring, s := RingAfter(history, n), Survivors(history, n);
    var r := ReadingFrom(history, n, first);
    SurvivorInRing(history, n, r);
    forall i | 0 <= i < |s| && i != r
      ensures ReadBefore(s[r], HeadPlace(history, n, r), s[i], HeadPlace(history, n, i))
    {
      SurvivorInRing(history, n, i);
      PlacesDiffer(history, n, if i < r then i else r, if i < r then r else i);
    }
    ReadStartIsFirst(history, n);
    assert StartsWith(history, n, r);
  }

  /** The first survivor's head comes before all others: for each of them its time stamp is later, or
      the same and its head block further on in memory. */
  ghost predicate InOrder(history: seq<Entry>, n: nat)
    requires n > 0
  {
    var s := Survivors(history, n);
    forall i :: 1 <= i < |s| ==> ReadBefore(s[0], HeadPlace(history, n, 0), s[i], HeadPlace(history, n, i))
  }

  /** In seconds and microseconds: the first survivor has the smallest time stamp, and of those with the
      same its head is the first in memory. */
  lemma InOrderMeans(history: seq<Entry>, n: nat)
    requires n > 0
    ensures var s := Survivors(history, n);
            InOrder(history, n) <==>
            forall i :: 1 <= i < |s| ==>
              || s[0].stamp.sec < s[i].stamp.sec
              || (s[0].stamp.sec == s[i].stamp.sec && s[0].stamp.usec < s[i].stamp.usec)
              || (s[0].stamp.sec == s[i].stamp.sec && s[0].stamp.usec == s[i].stamp.usec
                  && HeadPlace(history, n, 0) < HeadPlace(history, n, i))
  {
  }

  /** For every history, reading starts with the first survivor exactly if its head comes before all
      others. Then it goes in write order, and otherwise it does not unless the entry it starts with
      is a copy of the first one. */
  lemma WriteOrderExactly(history: seq<Entry>, n: nat, first: nat)
    requires n > 0 && OldestHead(RingAfter(history, n), n, first)
    ensures Survivors(history, n) != []
    ensures first == HeadPlace(history, n, 0) <==> InOrder(history, n)
    ensures var s, read := Survivors(history, n), Heads(Unroll(RingAfter(history, n), first));
            && (InOrder(history, n) ==> read == s)
            && (!InOrder(history, n) && s[ReadStart(history, n)] != s[0] ==> read != s)
  {
    ReadingOrder(history, n, first);
    ReadStartIsFirst(history, n);
    var s, r := Survivors(history, n), ReadStart(history, n);
    if r == 0 {
      assert Rotation(s, 0) == s;
    } else {
      PlacesDiffer(history, n, 0, r);
      assert ReadBefore(s[r], HeadPlace(history, n, r), s[0], HeadPlace(history, n, 0));
      assert Rotation(s, r)[0] == s[r];
    }
    assert InOrder(history, n) <==> StartsWith(history, n, 0);
  }

  lemma TwoSurvivors(h: seq<Entry>, a: Entry, b: Entry, n: nat)
    requires a.Size() + b.Size() <= n
    requires h == [] || Last(h).Size() > n - a.Size() - b.Size()
    ensures Survivors(h + [a, b], n) == [a, b]
  {
    var all := h + [a, b];
    assert Front(all) == h + [a] && Last(all) == b;
    assert Front(h + [a]) == h && Last(h + [a]) == a;
    assert Survivors(h, n - b.Size() - a.Size()) == [];
    assert Survivors(h + [a], n - b.Size()) == [] + [a];
    assert Survivors(all, n) == [a] + [b];
  }

  lemma SecondReadFirst(h: seq<Entry>, a: Entry, b: Entry, n: nat, first: nat)
    requires n > 0 && OldestHead(RingAfter(h, n), n, first) && Survivors(h, n) == [a, b]
    requires ReadBefore(b, HeadPlace(h, n, 1), a, HeadPlace(h, n, 0))
    ensures first == HeadPlace(h, n, 1) && Heads(Unroll(RingAfter(h, n), first)) == [b, a]
  {
    ReadingOrder(h, n, first);
    ReadStartIsFirst(h, n);
    assert StartsWith(h, n, 1);
    assert Rotation([a, b], 1) == [b, a];
  }

  /** Time stamps are taken before the lock: when the clock steps back between two writes, the
      later entry is read first. */
  lemma {:induction false} SteppedClockReorders(a: Entry, b: Entry, n: nat, first: nat)
    requires b.stamp.sec < a.stamp.sec || (b.stamp.sec == a.stamp.sec && b.stamp.usec < a.stamp.usec)
    requires a.Size() + b.Size() <= n && first < n
    requires OldestHead(RingAfter([a, b], n), n, first)
    ensures Heads(Unroll(RingAfter([a, b], n), first)) == [b, a]
  {
    var h := [a, b];
    assert [] + [a, b] == h;
    TwoSurvivors([], a, b, n);
    SecondReadFirst(h, a, b, n, first);
  }

  /** Without any step of the clock, two entries with the same time stamp are read in the order of
      their heads in memory: round the end of the ring the later entry is read first. */
  lemma {:induction false} TiedStampsReorder(x: Entry, a: Entry, b: Entry, first: nat)
    requires a.stamp == b.stamp && x.Size() == a.Size() == b.Size() == 1
    requires OldestHead(RingAfter([x, a, b], 2), 2, first)
    ensures first == 0 && Heads(Unroll(RingAfter([x, a, b], 2), first)) == [b, a]
  {
    var h := [x, a, b];
    TiedPlaces(x, a, b);
    SecondReadFirst(h, a, b, 2, first);
  }

  lemma TiedPlaces(x: Entry, a: Entry, b: Entry)
    requires x.Size() == a.Size() == b.Size() == 1
    ensures var h := [x, a, b];
            Survivors(h, 2) == [a, b] && HeadPlace(h, 2, 0) == 1 && HeadPlace(h, 2, 1) == 0
  {
    var h := [x, a, b];
    assert [x] + [a, b] == h;
    TwoSurvivors([x], a, b, 2);
    TotalAppend([], x);
    TotalAppend([x], a);
    assert [] + [x] == [x] == h[..1] && [x] + [a] == h[..2];
  }
}
