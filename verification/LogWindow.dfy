/** The ring of blocks seen from its cursor: the last blocks written, and which entries survive in them. */
module LogWindow {
  import opened Arithmetic
  import opened LogBlocks
  import opened Sequences

  /** What a block of the ring holds: nothing yet, or block `k` of an entry. */
  datatype Piece = Unwritten | Piece(entry: Entry, k: nat) {
    predicate IsHead() {
      Piece? && k == 0
    }

    predicate WellFormed() {
      Piece? ==> k < entry.Size()
    }

    /** The value that is assigned to `numBlocks`, an `unsigned int`. */
    function HeaderWord(): nat {
      if IsHead() then entry.Size() % WORD else 0
    }
  }

  function Pieces(e: Entry): (s: seq<Piece>)
    ensures |s| == e.Size()
  {
    seq(e.Size(), k requires 0 <= k => Piece(e, k))
  }

  function Blank(n: nat): seq<Piece> {
    seq(n, _ => Unwritten)
  }

  function Last(history: seq<Entry>): Entry
    requires history != []
  {
    history[|history| - 1]
  }

  function Front(history: seq<Entry>): seq<Entry>
    requires history != []
  {
    history[..|history| - 1]
  }

  /** The number of blocks of a history of entries. */
  function Total(history: seq<Entry>): nat {
    if history == [] then 0 else Total(Front(history)) + Last(history).Size()
  }

  /** The last `n` blocks written by a history, oldest first, padded with blank blocks. */
  function Window(history: seq<Entry>, n: nat): (w: seq<Piece>)
    ensures |w| == n
    decreases |history|
  {
    if history == [] then Blank(n)
    else
      var e := Last(history);
      if e.Size() <= n then Window(Front(history), n - e.Size()) + Pieces(e)
      else Pieces(e)[e.Size() - n..]
  }

  /** The longest suffix of a history whose blocks fit in `n`. */
  function Survivors(history: seq<Entry>, n: nat): (s: seq<Entry>)
    ensures |s| <= |history|
    decreases |history|
  {
    if history == [] || Last(history).Size() > n then []
    else Survivors(Front(history), n - Last(history).Size()) + [Last(history)]
  }

  /** The entries whose head block is in `w`, in the order of their heads. */
  function Heads(w: seq<Piece>): seq<Entry> {
    if w == [] then []
    else (if w[0].IsHead() then [w[0].entry] else []) + Heads(w[1..])
  }

  /** Every head is followed by all the other blocks of its entry. */
  ghost predicate Complete(w: seq<Piece>) {
    forall i :: 0 <= i < |w| && w[i].IsHead() ==> EntryAt(w, i)
  }

  ghost predicate EntryAt(w: seq<Piece>, i: nat)
    requires i < |w| && w[i].IsHead()
  {
    var e := w[i].entry;
    i + e.Size() <= |w| && w[i..i + e.Size()] == Pieces(e)
  }

  function LastN<T>(s: seq<T>, n: nat): seq<T>
    requires n <= |s|
  {
    s[|s| - n..]
  }

  // ----- the longest fitting suffix -----

  lemma {:induction false} TotalSplits(a: seq<Entry>, b: seq<Entry>)
    ensures Total(a + b) == Total(a) + Total(b)
    decreases |b|
  {
    if b == [] {
      assert a + b == a;
    } else {
      assert Front(a + b) == a + Front(b);
      TotalSplits(a, Front(b));
    }
  }

  lemma TotalAppend(h: seq<Entry>, e: Entry)
    ensures Total(h + [e]) == Total(h) + e.Size()
  {
    assert Front(h + [e]) == h;
  }

  lemma SuffixTotal(history: seq<Entry>, m: nat)
    requires 0 < m <= |history|
    ensures Total(LastN(history, m)) == Total(LastN(Front(history), m - 1)) + Last(history).Size()
  {
    assert LastN(history, m) == LastN(Front(history), m - 1) + [Last(history)];
    TotalAppend(LastN(Front(history), m - 1), Last(history));
  }

  ghost predicate LongestFit(s: seq<Entry>, history: seq<Entry>, n: nat) {
    && |s| <= |history| && s == LastN(history, |s|)
    && Total(s) <= n
    && forall m :: |s| < m <= |history| ==> Total(LastN(history, m)) > n
  }

  lemma LongerSuffixes(history: seq<Entry>, n: nat, least: nat)
    requires history != []
    requires forall m :: least < m <= |Front(history)| ==> Total(LastN(Front(history), m)) + Last(history).Size() > n
    ensures forall m :: least + 1 < m <= |history| ==> Total(LastN(history, m)) > n
  {
    forall m | least + 1 < m <= |history| ensures Total(LastN(history, m)) > n {
      SuffixTotal(history, m);
    }
  }

  lemma LongestFitExtends(s: seq<Entry>, h: seq<Entry>, n: nat, e: Entry)
    requires e.Size() <= n && LongestFit(s, h, n - e.Size())
    ensures LongestFit(s + [e], h + [e], n)
  {
    TotalAppend(s, e);
    assert Front(h + [e]) == h && Last(h + [e]) == e;
    LongerSuffixes(h + [e], n, |s|);
    assert LastN(h + [e], |s| + 1) == LastN(h, |s|) + [e];
  }

  lemma NothingFits(history: seq<Entry>, n: nat)
    requires history != [] && Last(history).Size() > n
    ensures LongestFit([], history, n)
  {
    forall m | 0 < m <= |history| ensures Total(LastN(history, m)) > n {
      SuffixTotal(history, m);
    }
  }

  /** `Survivors` is a suffix that fits, and no longer suffix fits. */
  lemma {:induction false} SurvivorsIsLongestFittingSuffix(history: seq<Entry>, n: nat)
    ensures LongestFit(Survivors(history, n), history, n)
    decreases |history|
  {
    if history != [] {
      var e, h := Last(history), Front(history);
      if e.Size() <= n {
        SurvivorsIsLongestFittingSuffix(h, n - e.Size());
        LongestFitExtends(Survivors(h, n - e.Size()), h, n, e);
        assert history == h + [e];
      } else {
        NothingFits(history, n);
      }
    }
  }

  lemma SizeInBytes(len: nat, n: nat)
    requires n > 0
    ensures NumBlocks(len) > n <==> len > 464 + (n - 1) * 508
  {
    BlocksCoverData(len, n);
  }

  /** An entry longer than the whole ring overwrites its own head: nothing survives. */
  lemma OverlongEntryEmptiesLog(history: seq<Entry>, e: Entry, n: nat)
    requires n > 0
    ensures Survivors(history + [e], n) == [] <==> |e.data| > 464 + (n - 1) * 508
  {
    SizeInBytes(|e.data|, n);
    assert Last(history + [e]) == e;
  }

  // ----- the window -----

  lemma {:induction false} HeadsOfConcat(a: seq<Piece>, b: seq<Piece>)
    ensures Heads(a + b) == Heads(a) + Heads(b)
    decreases |a|
  {
    if a == [] {
      assert a + b == b;
    } else {
      TailOfConcat(a, b);
      HeadsOfConcat(a[1..], b);
      var first := if a[0].IsHead() then [a[0].entry] else [];
      ConcatIsAssociative(first, Heads(a[1..]), Heads(b));
    }
  }

  lemma {:induction false} NoHeads(w: seq<Piece>)
    requires forall i :: 0 <= i < |w| ==> !w[i].IsHead()
    ensures Heads(w) == []
  {
    if w != [] {
      NoHeads(w[1..]);
    }
  }

  lemma HeadsOfPieces(e: Entry)
    ensures Heads(Pieces(e)) == [e]
  {
    var p := Pieces(e);
    NoHeads(p[1..]);
  }

  lemma CompleteConcat(a: seq<Piece>, e: Entry)
    requires Complete(a)
    ensures Complete(a + Pieces(e))
  {
    var w := a + Pieces(e);
    forall i | 0 <= i < |w| && w[i].IsHead() ensures EntryAt(w, i) {
      if i < |a| {
        assert EntryAt(a, i);
        assert w[i..i + w[i].entry.Size()] == a[i..i + w[i].entry.Size()];
      } else {
        assert i == |a|;
        assert w[i..i + e.Size()] == Pieces(e);
      }
    }
  }

  /** The ring invariant: `lead` blocks that are no heads, then complete entries up to the end. */
  ghost predicate RunOfEntries(w: seq<Piece>, lead: nat) {
    && lead <= |w|
    && (forall i :: 0 <= i < lead ==> w[i].HeaderWord() == 0 && !w[i].IsHead())
    && (forall i :: 0 <= i < |w| ==> w[i].WellFormed())
    && Complete(w)
  }

  lemma RunAppend(w: seq<Piece>, lead: nat, e: Entry)
    requires RunOfEntries(w, lead)
    ensures RunOfEntries(w + Pieces(e), lead)
    ensures Heads(w + Pieces(e)) == Heads(w) + [e]
  {
    HeadsOfConcat(w, Pieces(e));
    HeadsOfPieces(e);
    CompleteConcat(w, e);
  }

  lemma BlankRun(n: nat)
    ensures RunOfEntries(Blank(n), n) && Heads(Blank(n)) == []
  {
    NoHeads(Blank(n));
  }

  /** The blocks that survive of an entry whose head is overwritten read as "skip me". */
  lemma LeftoverRun(e: Entry, n: nat)
    requires n < e.Size()
    ensures RunOfEntries(Pieces(e)[e.Size() - n..], n) && Heads(Pieces(e)[e.Size() - n..]) == []
  {
    NoHeads(Pieces(e)[e.Size() - n..]);
  }

  /** The window is a run of blocks that are no heads, followed by exactly the blocks of the
      survivors, each entry whole, in write order. */
  lemma {:induction false} WindowHoldsSurvivors(history: seq<Entry>, n: nat)
    ensures Total(Survivors(history, n)) <= n
    ensures RunOfEntries(Window(history, n), n - Total(Survivors(history, n)))
    ensures Heads(Window(history, n)) == Survivors(history, n)
    decreases |history|
  {
    if history == [] {
      BlankRun(n);
    } else {
      var e, h := Last(history), Front(history);
      if e.Size() <= n {
        var m := n - e.Size();
        assert Window(history, n) == Window(h, m) + Pieces(e);
        assert Survivors(history, n) == Survivors(h, m) + [e];
        WindowHoldsSurvivors(h, m);
        TotalAppend(Survivors(h, m), e);
        RunAppend(Window(h, m), m - Total(Survivors(h, m)), e);
      } else {
        assert Window(history, n) == Pieces(e)[e.Size() - n..];
        LeftoverRun(e, n);
      }
    }
  }

  lemma {:induction false} WindowSuffix(history: seq<Entry>, n: nat, d: nat)
    requires d <= n
    ensures Window(history, n)[d..] == Window(history, n - d)
    decreases |history|
  {
    if history != [] {
      var e, h := Last(history), Front(history);
      if e.Size() <= n - d {
        WindowSuffix(h, n - e.Size(), d);
      }
    }
  }

  lemma LastNOfConcat<T>(a: seq<T>, b: seq<T>, n: nat)
    requires n <= |a| + |b|
    ensures LastN(a + b, n) == if n <= |b| then LastN(b, n) else a[|a| + |b| - n..] + b
  {
  }

  lemma LastNTwice<T>(a: seq<T>, b: seq<T>, c: seq<T>, n: nat)
    requires n <= |a| + |b|
    ensures LastN(LastN(a + b, n) + c, n) == LastN(a + (b + c), n)
  {
    ConcatIsAssociative(a, b, c);
    assert LastN(a + b, n) + c == LastN(a + b + c, n + |c|);
  }

  /** Appending an entry shifts its blocks into the window. */
  lemma WindowAppend(history: seq<Entry>, e: Entry, n: nat)
    ensures Window(history + [e], n) == LastN(Window(history, n) + Pieces(e), n)
  {
    WindowOfSnoc(history, e, n);
    LastNOfConcat(Window(history, n), Pieces(e), n);
    if e.Size() <= n {
      WindowSuffix(history, n, e.Size());
    }
  }

  lemma WindowOfSnoc(history: seq<Entry>, e: Entry, n: nat)
    ensures Window(history + [e], n) ==
            if e.Size() <= n then Window(history, n - e.Size()) + Pieces(e) else Pieces(e)[e.Size() - n..]
  {
    var h := history + [e];
    assert Front(h) == history && Last(h) == e;
  }

  // ----- the ring -----

  /** The ring read from `q` once round. */
  function Unroll(ring: seq<Piece>, q: nat): seq<Piece>
    requires q <= |ring|
  {
    ring[q..] + ring[..q]
  }

  function Next(q: nat, n: nat): (r: nat)
    requires q < n
    ensures r < n
  {
    (q + 1) % n
  }

  lemma NextWraps(q: nat, n: nat)
    requires q < n
    ensures Next(q, n) == if q + 1 == n then 0 else q + 1
  {
    if q + 1 < n {
      RemainderIsUnique(q + 1, n, 0, q + 1);
    } else {
      RemainderIsUnique(q + 1, n, 1, 0);
    }
  }

  lemma AdvanceOne(q: nat, k: nat, n: nat)
    requires n > 0
    ensures Next((q + k) % n, n) == (q + k + 1) % n
  {
    var r := (q + k) % n;
    var d := (q + k) / n;
    assert q + k == n * d + r;
    NextWraps(r, n);
    if r + 1 < n {
      RemainderIsUnique(q + k + 1, n, d, r + 1);
    } else {
      assert n * (d + 1) == n * d + n;
      RemainderIsUnique(q + k + 1, n, d + 1, 0);
    }
  }

  /** The ring after blocks `ps` are written from `q` on, one after the other, round the ring. */
  function Put(ring: seq<Piece>, q: nat, ps: seq<Piece>): (r: seq<Piece>)
    requires q < |ring|
    ensures |r| == |ring|
    decreases |ps|
  {
    if ps == [] then ring
    else Put(ring, q, ps[..|ps| - 1])[(q + |ps| - 1) % |ring| := ps[|ps| - 1]]
  }

  lemma PutStep(ring: seq<Piece>, q: nat, p: Piece)
    requires q < |ring|
    ensures Unroll(ring[q := p], Next(q, |ring|)) == LastN(Unroll(ring, q) + [p], |ring|)
  {
    NextWraps(q, |ring|);
    var r := ring[q := p];
    if q + 1 == |ring| {
      assert Unroll(r, 0) == r;
    }
  }

  lemma PutLast(ring: seq<Piece>, q: nat, ps: seq<Piece>, at: nat)
    requires q < |ring| && ps != [] && at == (q + |ps| - 1) % |ring|
    ensures Put(ring, q, ps) == Put(ring, q, ps[..|ps| - 1])[at := ps[|ps| - 1]]
    ensures (q + |ps|) % |ring| == Next(at, |ring|)
  {
    AdvanceOne(q, |ps| - 1, |ring|);
  }

  /** Writing blocks round the ring shifts them into its unrolled view. */
  lemma {:induction false} PutShifts(ring: seq<Piece>, q: nat, ps: seq<Piece>)
    requires q < |ring|
    ensures Unroll(Put(ring, q, ps), (q + |ps|) % |ring|) == LastN(Unroll(ring, q) + ps, |ring|)
    decreases |ps|
  {
    var n := |ring|;
    if ps == [] {
      RemainderIsUnique(q, n, 0, q);
      assert Unroll(ring, q) + ps == Unroll(ring, q);
    } else {
      var front, p := ps[..|ps| - 1], ps[|ps| - 1];
      var at := (q + |front|) % n;
      PutShifts(ring, q, front);
      PutLast(ring, q, ps, at);
      PutStep(Put(ring, q, front), at, p);
      assert ps == front + [p];
      LastNTwice(Unroll(ring, q), front, [p], n);
    }
  }

  /** The cursor after a history: the blocks it took, modulo the ring. */
  function Cursor(history: seq<Entry>, n: nat): (q: nat)
    requires n > 0
    ensures q < n
  {
    Total(history) % n
  }

  /** The ring a history of whole writes leaves behind, starting from zeroed memory. */
  function RingAfter(history: seq<Entry>, n: nat): (ring: seq<Piece>)
    requires n > 0
    ensures |ring| == n
    decreases |history|
  {
    if history == [] then Blank(n)
    else Put(RingAfter(Front(history), n), Cursor(Front(history), n), Pieces(Last(history)))
  }

  lemma CursorAdvances(history: seq<Entry>, e: Entry, n: nat)
    requires n > 0
    ensures (Cursor(history, n) + e.Size()) % n == Cursor(history + [e], n)
  {
    TotalAppend(history, e);
    RemainderOfSum(Total(history), e.Size(), n);
  }

  /** Unrolled from its cursor, the ring is the window of its history. */
  lemma {:induction false} RingUnrollsToWindow(history: seq<Entry>, n: nat)
    requires n > 0
    ensures Unroll(RingAfter(history, n), Cursor(history, n)) == Window(history, n)
    decreases |history|
  {
    if history == [] {
      assert Unroll(Blank(n), 0) == Blank(n);
    } else {
      var e, h := Last(history), Front(history);
      assert history == h + [e];
      RingUnrollsToWindow(h, n);
      PutShifts(RingAfter(h, n), Cursor(h, n), Pieces(e));
      CursorAdvances(h, e, n);
      WindowAppend(h, e, n);
    }
  }
}
