/** The two processes that share the statistics: one writes them, the other dumps and clears them. */
module StatLog {
  import opened Bytes
  import opened Sequences
  import opened Text
  import opened IndexCodec
  import opened IndexSpec
  import opened StatCell
  import opened StatArray
  import opened Accumulator
  import opened AccumArray
  import opened TagTree
  import opened Layout
  import opened StatMemory
  import opened StatCommands
  import opened Printer

  const INFO: byte := 1

  class SharedMemory {
    const bytes: array<byte>
    /** Everything that was written and cleared, by either process. */
    ghost var events: seq<Event>

    constructor (size: nat)
      ensures fresh(bytes) && bytes.Length == size && events == []
      ensures forall i :: 0 <= i < size ==> bytes[i] == 0
    {
      bytes := new byte[size](_ => 0);
      events := [];
    }
  }

  function SitesOf(tree: Tree<StatSpec>): seq<Site> {
    Sites(TheStats(tree, true))
  }

  function StatBytes(tree: Tree<StatSpec>): nat {
    Offset(TheStats(tree, true), |TheStats(tree, true)|)
  }

  /** The memory is what the events made of it. */
  ghost predicate InStep(tree: Tree<StatSpec>, shm: SharedMemory)
    reads shm, shm.bytes
  {
    StatBytes(tree) <= shm.bytes.Length && Holds(shm.events, shm.bytes[..], SitesOf(tree))
  }

  /** A write that is supported: a statistic, an index in range for each of its dimensions, and a
      value; a single accumulator takes one argument only. */
  predicate Takes(s: Site, args: seq<int>) {
    && s.spec.Some? && Given(s.spec.value.dims, args)
    && (s.spec.value.stat.Accum? && s.spec.value.dims == [] ==> |args| == 1)
  }

  ghost predicate Writable(tree: Tree<StatSpec>, id: nat, args: seq<int>) {
    var ps := SitesOf(tree);
    Known(ps, id) && Takes(ps[IndexOf(ps, id)], args)
  }

  /** Element `k` of an accumulator, or of arrays of accumulators. */
  ghost predicate Serializable(tree: Tree<StatSpec>, id: nat, k: nat) {
    var ps := SitesOf(tree);
    Known(ps, id) && k < NumAccums(ps[IndexOf(ps, id)])
  }

  /** Cell `k` of a statistic. */
  ghost predicate Clearable(tree: Tree<StatSpec>, id: nat, k: nat) {
    var ps := SitesOf(tree);
    Known(ps, id) && k < ps[IndexOf(ps, id)].Cells()
  }

  lemma SitesWithPointers(hs: seq<Handle>, ptrs: seq<nat>, sites: seq<Site>)
    requires |ptrs| == |hs| == |sites| && forall i :: 0 <= i < |hs| ==> ptrs[i] == Offset(hs, i)
    requires forall i :: 0 <= i < |hs| ==> sites[i] == Site(hs[i].id, SpecOf(hs[i]), ptrs[i])
    ensures sites == Sites(hs)
  {
  }

  /** Both processes compute the sites from their own lists. */
  method InitSites(stats: seq<Handle>, logs: seq<Handle>) returns (total: nat, sites: seq<Site>, logPtrs: seq<nat>)
    ensures sites == Sites(stats)
    ensures total == Offset(stats + logs, |stats + logs|)
    ensures |logPtrs| == |logs| && forall i :: 0 <= i < |logs| ==> logPtrs[i] == Offset(stats + logs, |stats| + i)
    ensures Offset(stats + logs, |stats|) == Offset(stats, |stats|)
  {
    var statPtrs;
    total, statPtrs, logPtrs := AssignPlaces(stats, logs);
    OffsetOfPrefix(stats, logs, |stats|);
    sites := seq(|stats|, i requires 0 <= i < |stats| => Site(stats[i].id, SpecOf(stats[i]), statPtrs[i]));
    SitesWithPointers(stats, statPtrs, sites);
  }

  // ----- the accumulators of the operational process -----

  /** The number of accumulators behind a site. */
  function NumAccums(p: Site): nat {
    if p.spec.Some? && p.spec.value.stat.Accum? then p.Cells() else 0
  }

  /** For every site its accumulators in the order of its cells, all of them different objects. */
  ghost predicate Elements(elems: seq<seq<AccumOp>>, ps: seq<Site>) {
    && |elems| == |ps|
    && (forall i :: 0 <= i < |ps| ==> |elems[i]| == NumAccums(ps[i]))
    && (forall i, k :: 0 <= i < |ps| && 0 <= k < |elems[i]| ==> elems[i][k].features == ps[i].spec.value.stat.features)
    && (forall i, k, j, l ::
          0 <= i < |ps| && 0 <= k < |elems[i]| && 0 <= j < |ps| && 0 <= l < |elems[j]| && (i != j || k != l) ==>
            elems[i][k] != elems[j][l])
  }

  ghost function AllOf(elems: seq<seq<AccumOp>>): set<AccumOp> {
    set i, k | 0 <= i < |elems| && 0 <= k < |elems[i]| :: elems[i][k]
  }

  /** Every accumulator holds the samples the events have left in it. */
  ghost predicate AccsMatch(events: seq<Event>, elems: seq<seq<AccumOp>>, ps: seq<Site>)
    requires |elems| == |ps|
    reads AllOf(elems)
  {
    forall i, k :: 0 <= i < |ps| && 0 <= k < |elems[i]| ==> elems[i][k].acc == Accumulated(events, ps[i], k).acc
  }

  method MakeAccums(fs: seq<Feature>, n: nat) returns (row: seq<AccumOp>)
    ensures |row| == n && forall k :: 0 <= k < n ==> fresh(row[k]) && row[k].features == fs && row[k].acc == []
    ensures forall k, l :: 0 <= k < n && 0 <= l < n && k != l ==> row[k] != row[l]
  {
    row := [];
    for i := 0 to n
      invariant |row| == i && forall k :: 0 <= k < i ==> fresh(row[k]) && row[k].features == fs && row[k].acc == []
      invariant forall k, l :: 0 <= k < i && 0 <= l < i && k != l ==> row[k] != row[l]
    {
      var a := new AccumOp(fs);
      row := row + [a];
    }
  }

  method MakeElements(ps: seq<Site>) returns (elems: seq<seq<AccumOp>>)
    ensures Elements(elems, ps)
    ensures forall i, k :: 0 <= i < |ps| && 0 <= k < |elems[i]| ==> fresh(elems[i][k]) && elems[i][k].acc == []
  {
    elems := [];
    for n := 0 to |ps|
      invariant Elements(elems, ps[..n])
      invariant forall i, k :: 0 <= i < n && 0 <= k < |elems[i]| ==> fresh(elems[i][k]) && elems[i][k].acc == []
    {
      var row := MakeAccums(if ps[n].spec.Some? && ps[n].spec.value.stat.Accum? then ps[n].spec.value.stat.features else [],
                            NumAccums(ps[n]));
      elems := elems + [row];
    }
    assert ps[..|ps|] == ps;
  }

  /** One event for each of the first `n` elements of a statistic. */
  function SerializesOf(id: nat, n: nat): seq<Event> {
    if n == 0 then [] else SerializesOf(id, n - 1) + [StatMemory.Serialize(id, n - 1)]
  }

  /** A pass of the serializer, statistic by statistic. */
  function PassOf(ps: seq<Site>): (parts: seq<seq<Event>>)
    ensures |parts| == |ps|
    ensures forall i :: 0 <= i < |ps| ==> parts[i] == SerializesOf(ps[i].id, NumAccums(ps[i]))
  {
    seq(|ps|, i requires 0 <= i < |ps| => SerializesOf(ps[i].id, NumAccums(ps[i])))
  }

  /** An event that is no write to a cell leaves the samples of its accumulator alone. */
  lemma OnlyWritesChangeAcc(events: seq<Event>, e: Event, p: Site, k: nat)
    requires !IsWriteTo(e, p, k)
    ensures Accumulated(events + [e], p, k).acc == Accumulated(events, p, k).acc
  {
    assert (events + [e])[..|events|] == events;
  }

  lemma {:induction false} SerializesKeepAcc(events: seq<Event>, id: nat, n: nat, p: Site, k: nat)
    ensures Accumulated(events + SerializesOf(id, n), p, k).acc == Accumulated(events, p, k).acc
  {
    if n == 0 {
      assert events + [] == events;
    } else {
      var before, e := events + SerializesOf(id, n - 1), StatMemory.Serialize(id, n - 1);
      SerializesKeepAcc(events, id, n - 1, p, k);
      OnlyWritesChangeAcc(before, e, p, k);
      ConcatIsAssociative(events, SerializesOf(id, n - 1), [e]);
    }
  }

  /** The map at cell `k` after its accumulator was serialized, or unchanged. */
  ghost predicate ServedIf(served: bool, before: seq<Event>, after: seq<Event>, p: Site, k: nat) {
    && SinceClear(after, p, k) == SinceClear(before, p, k) && Value(after, p, k) == Value(before, p, k)
    && var a := Accumulated(before, p, k);
       Accumulated(after, p, k) == if served then a.(served := Some(a.acc)) else a
  }

  lemma OneServed(before: seq<Event>, id: nat, n: nat, p: Site, k: nat)
    ensures ServedIf(id == p.id && k == n, before, before + [StatMemory.Serialize(id, n)], p, k)
  {
    assert (before + [StatMemory.Serialize(id, n)])[..|before|] == before;
  }

  lemma {:induction false} SerializesServe(events: seq<Event>, id: nat, n: nat, p: Site, k: nat)
    ensures ServedIf(id == p.id && k < n, events, events + SerializesOf(id, n), p, k)
  {
    if n == 0 {
      assert events + [] == events;
    } else {
      var before := events + SerializesOf(id, n - 1);
      SerializesServe(events, id, n - 1, p, k);
      OneServed(before, id, n - 1, p, k);
      ConcatIsAssociative(events, SerializesOf(id, n - 1), [StatMemory.Serialize(id, n - 1)]);
    }
  }

  /** The first `n` sites of a pass. */
  lemma {:induction false} PassServesUpTo(events: seq<Event>, ps: seq<Site>, size: nat, n: nat, i: nat, k: nat)
    requires Sound(ps, size) && n <= |ps| && i < |ps| && k < ps[i].Cells()
    ensures ServedIf(i < n && k < NumAccums(ps[i]), events, events + Flat(PassOf(ps), n), ps[i], k)
    decreases n
  {
    if n == 0 {
      assert events + [] == events;
    } else {
      var before, id := events + Flat(PassOf(ps), n - 1), ps[n - 1].id;
      PassServesUpTo(events, ps, size, n - 1, i, k);
      assert id == ps[i].id <==> i == n - 1;
      SerializesServe(before, id, NumAccums(ps[n - 1]), ps[i], k);
      ConcatIsAssociative(events, Flat(PassOf(ps), n - 1), PassOf(ps)[n - 1]);
    }
  }

  /** A pass of the serializer shows of every accumulator what it holds, and changes nothing else in the map. */
  lemma PassServesAll(events: seq<Event>, ps: seq<Site>, size: nat, i: nat, k: nat)
    requires Sound(ps, size) && i < |ps| && k < ps[i].Cells()
    ensures var after, p := events + Flat(PassOf(ps), |ps|), ps[i];
            var a := Accumulated(events, p, k);
            && (p.spec.value.stat.Accum? ==> Accumulated(after, p, k) == a.(served := Some(a.acc)))
            && Value(after, p, k) == Value(events, p, k) && SinceClear(after, p, k) == SinceClear(events, p, k)
  {
    PassServesUpTo(events, ps, size, |ps|, i, k);
  }

  lemma StoredNext(m: seq<byte>, base: nat, n: nat, width: nat, texts: seq<seq<byte>>, at: nat, text: seq<byte>)
    requires n < |texts| && at == base + n * width && text == texts[n]
    ensures Stored(m, Addresses(base, n + 1, width), texts[..n + 1]) ==
            Overlay(Stored(m, Addresses(base, n, width), texts[..n]), at, text)
  {
    NextAddress(base, n, width);
    assert texts[..n + 1][..n] == texts[..n];
  }

  /** Storing the summaries of a statistic's accumulators serializes them one by one. */
  lemma {:induction false} SerializesHold(events: seq<Event>, mem: seq<byte>, ps: seq<Site>,
                                          size: nat, i: nat, n: nat, texts: seq<seq<byte>>)
    requires Sound(ps, size) && size <= |mem| && Holds(events, mem, ps)
    requires i < |ps| && n <= |texts| == NumAccums(ps[i])
    requires forall k :: 0 <= k < |texts| ==>
               texts[k] == Summary(ps[i].spec.value.stat.features, Accumulated(events, ps[i], k).acc)
    ensures Holds(events + SerializesOf(ps[i].id, n),
                  Stored(mem, Addresses(ps[i].base, n, ps[i].Width()), texts[..n]), ps)
    decreases n
  {
    if n == 0 {
      assert events + [] == events;
    } else {
      var m := n - 1;
      SerializesHold(events, mem, ps, size, i, m, texts);
      SerializesKeepAcc(events, ps[i].id, m, ps[i], m);
      SerializeNext(events + SerializesOf(ps[i].id, m),
                    Stored(mem, Addresses(ps[i].base, m, ps[i].Width()), texts[..m]), ps, size, i, m, texts[m]);
      StoredNext(mem, ps[i].base, m, ps[i].Width(), texts, ps[i].CellBase(m), texts[m]);
      ConcatIsAssociative(events, SerializesOf(ps[i].id, m), [StatMemory.Serialize(ps[i].id, m)]);
    }
  }

  lemma AllSerialized(events: seq<Event>, mem: seq<byte>, ps: seq<Site>, size: nat, i: nat, n: nat,
                      texts: seq<seq<byte>>, after: seq<byte>)
    requires Sound(ps, size) && size <= |mem| && Holds(events, mem, ps)
    requires i < |ps| && n == |texts| == NumAccums(ps[i])
    requires forall k :: 0 <= k < |texts| ==>
               texts[k] == Summary(ps[i].spec.value.stat.features, Accumulated(events, ps[i], k).acc)
    requires after == Stored(mem, Addresses(ps[i].base, n, ps[i].Width()), texts)
    ensures Holds(events + SerializesOf(ps[i].id, n), after, ps)
  {
    SerializesHold(events, mem, ps, size, i, n, texts);
    assert texts[..n] == texts;
  }

  lemma SerializeNext(events: seq<Event>, mem: seq<byte>, ps: seq<Site>, size: nat, i: nat,
                      k: nat, text: seq<byte>)
    requires Sound(ps, size) && size <= |mem| && Holds(events, mem, ps)
    requires i < |ps| && k < NumAccums(ps[i])
    requires text == Summary(ps[i].spec.value.stat.features, Accumulated(events, ps[i], k).acc)
    ensures Holds(events + [StatMemory.Serialize(ps[i].id, k)], Overlay(mem, ps[i].CellBase(k), text), ps)
  {
    SerializeHolds(events, mem, ps, size, i, k);
  }

  class Operational {
    const tree: Tree<StatSpec>
    const shm: SharedMemory
    const elems: seq<seq<AccumOp>>
    var theStats: seq<Site>
    var logPtrs: seq<nat>

    ghost predicate Valid()
      reads this, shm, shm.bytes, AllOf(elems)
    {
      && TreeOk(tree) && theStats == SitesOf(tree) && InStep(tree, shm)
      && Elements(elems, theStats) && AccsMatch(shm.events, elems, theStats)
    }

    /** Level `b` of log tag `i`. */
    ghost predicate LevelIs(i: nat, b: nat, level: byte)
      reads this, shm.bytes
    {
      i < |logPtrs| && logPtrs[i] + b < shm.bytes.Length && shm.bytes[logPtrs[i] + b] == level
    }

    constructor (tree: Tree<StatSpec>, logTree: Tree<()>)
      requires TreeOk(tree)
      ensures Valid() && fresh(shm) && fresh(shm.bytes) && fresh(AllOf(elems))
      ensures this.tree == tree && shm.events == []
      ensures forall i, b :: 0 <= i < |TheLogs(logTree, true)| && 0 <= b < 4 ==> LevelIs(i, b, 1)
    {
      var stats, logs := TheStats(tree, true), TheLogs(logTree, true);
      var total, sites, ptrs := InitSites(stats, logs);
      var accums := MakeElements(sites);
      this.tree := tree;
      theStats := sites;
      elems := accums;
      logPtrs := ptrs;
      shm := new SharedMemory(total);
      new;
      LogsLieBehind(tree, logTree, ptrs);
      SetLevels(StatBytes(tree), ptrs);
      SitesAreSound(tree, true);
      ZeroMemoryHolds(shm.bytes[..], theStats, StatBytes(tree));
    }

    /** Every logger of every log tag starts at level INFO. */
    method SetLevels(size: nat, ptrs: seq<nat>)
      requires ptrs == logPtrs
      requires forall i :: 0 <= i < |ptrs| ==> size <= ptrs[i] && ptrs[i] + LOGGERS <= shm.bytes.Length
      requires forall i, j :: 0 <= i < j < |ptrs| ==> ptrs[i] + LOGGERS <= ptrs[j]
      modifies shm.bytes
      ensures forall i :: 0 <= i < size && i < shm.bytes.Length ==> shm.bytes[i] == old(shm.bytes[i])
      ensures forall i, b :: 0 <= i < |ptrs| && 0 <= b < LOGGERS ==> LevelIs(i, b, INFO)
    {
      for i := 0 to |ptrs|
        invariant forall k :: 0 <= k < size && k < shm.bytes.Length ==> shm.bytes[k] == old(shm.bytes[k])
        invariant forall j, b :: 0 <= j < i && 0 <= b < LOGGERS ==> LevelIs(j, b, INFO)
      {
        label Before:
        SetSharedPtr(ptrs[i]);
        forall j, b | 0 <= j <= i && 0 <= b < LOGGERS ensures LevelIs(j, b, INFO) {
          if j < i {
            assert old@Before(LevelIs(j, b, INFO));
          }
        }
      }
    }

    /** Sets the levels of one log tag. */
    method SetSharedPtr(at: nat)
      requires at + LOGGERS <= shm.bytes.Length
      modifies shm.bytes
      ensures forall k :: 0 <= k < shm.bytes.Length ==>
                shm.bytes[k] == if at <= k < at + LOGGERS then INFO else old(shm.bytes[k])
    {
      for b := 0 to LOGGERS
        invariant forall k :: 0 <= k < shm.bytes.Length ==>
                    shm.bytes[k] == if at <= k < at + b then INFO else old(shm.bytes[k])
      {
        shm.bytes[at + b] := INFO;
      }
    }

    /** Writes a statistic, or one of an array of them. */
    method WriteStat(id: nat, args: seq<int>)
      requires Valid() && Writable(tree, id, args)
      modifies shm, shm.bytes, AllOf(elems)
      ensures Valid() && shm.events == old(shm.events) + [StatMemory.Write(id, args)]
    {
      var i := IndexOf(theStats, id);
      SitesAreSound(tree, true);
      if theStats[i].spec.value.stat.Simple? {
        WriteSimple(i, args);
      } else {
        WriteAccum(i, args);
      }
    }

    method WriteSimple(i: nat, args: seq<int>)
      requires Valid() && i < |theStats| && Sound(theStats, StatBytes(tree))
      requires theStats[i].spec.Some? && theStats[i].spec.value.stat.Simple? && Given(theStats[i].spec.value.dims, args)
      modifies shm, shm.bytes
      ensures Valid() && shm.events == old(shm.events) + [StatMemory.Write(theStats[i].id, args)]
    {
      var s := theStats[i];
      var spec := s.spec.value;
      assert s.CellBase(s.Cells()) <= StatBytes(tree);
      WriteHolds(shm.events, shm.bytes[..], theStats, StatBytes(tree), i, args);
      StatArray.Write(shm.bytes, s.base, spec.dims, args, spec.stat.policy, spec.stat.width);
      ghost var e := StatMemory.Write(s.id, args);
      OthersKeepSamples(shm.events, e, theStats, StatBytes(tree), i, CellIndex(spec.dims, Indices(spec.dims, args)));
      shm.events := shm.events + [e];
    }

    method WriteAccum(i: nat, args: seq<int>)
      requires Valid() && i < |theStats| && Sound(theStats, StatBytes(tree))
      requires theStats[i].spec.Some? && theStats[i].spec.value.stat.Accum? && Takes(theStats[i], args)
      modifies shm, shm.bytes, AllOf(elems)
      ensures Valid() && shm.events == old(shm.events) + [StatMemory.Write(theStats[i].id, args)]
    {
      var s := theStats[i];
      var spec := s.spec.value;
      var fs := spec.stat.features;
      ghost var k := CellIndex(spec.dims, Indices(spec.dims, args));
      ghost var e := StatMemory.Write(s.id, args);
      CellIndexBound(spec.dims, Indices(spec.dims, args));
      assert s.CellBase(s.Cells()) <= StatBytes(tree);
      ghost var wordAt := WordBase(s, fs, k);
      ghost var before := shm.bytes[..];
      OthersKeepSamples(shm.events, e, theStats, StatBytes(tree), i, k);
      WriteAccumulator(shm.bytes, s.base, spec.dims, args, fs, CellSize(spec.stat), elems[i], k, wordAt);
      AccumWritten(shm.events, before, shm.bytes[..], theStats, StatBytes(tree), i, k, args, wordAt, elems[i][k].acc);
      shm.events := shm.events + [e];
      forall j, l | 0 <= j < |theStats| && 0 <= l < |elems[j]|
        ensures elems[j][l].acc == Accumulated(shm.events, theStats[j], l).acc
      {
        assert j != i || l != k ==> elems[j][l] != elems[i][k];
      }
    }

    /** Serializes one accumulator. */
    method SerializeElement(id: nat, k: nat)
      requires Valid() && Serializable(tree, id, k)
      modifies shm, shm.bytes
      ensures Valid() && shm.events == old(shm.events) + [StatMemory.Serialize(id, k)]
    {
      var i := IndexOf(theStats, id);
      var s := theStats[i];
      SitesAreSound(tree, true);
      CellWithin(theStats, StatBytes(tree), i, k);
      SerializeHolds(shm.events, shm.bytes[..], theStats, StatBytes(tree), i, k);
      elems[i][k].Serialize(shm.bytes, s.CellBase(k));
      ghost var e := StatMemory.Serialize(id, k);
      NoSampleMoves(shm.events, e, theStats);
      shm.events := shm.events + [e];
    }

    /** Serializes all accumulators of a statistic; other statistics need no serialization. */
    method SerializeStat(i: nat)
      requires Valid() && i < |theStats|
      modifies shm, shm.bytes
      ensures Valid()
      ensures shm.events == old(shm.events) + SerializesOf(theStats[i].id, NumAccums(theStats[i]))
    {
      var s := theStats[i];
      if s.spec.Some? && s.spec.value.stat.Accum? {
        SitesAreSound(tree, true);
        SerializeAccums(i);
      } else {
        assert shm.events + [] == shm.events;
      }
    }

    method SerializeAccums(i: nat)
      requires Valid() && i < |theStats| && Sound(theStats, StatBytes(tree))
      requires theStats[i].spec.Some? && theStats[i].spec.value.stat.Accum?
      modifies shm, shm.bytes
      ensures Valid()
      ensures shm.events == old(shm.events) + SerializesOf(theStats[i].id, NumAccums(theStats[i]))
    {
      var s := theStats[i];
      var n := s.Cells();
      ghost var more := SerializesOf(s.id, n);
      ghost var texts := Summaries(shm.events, s, s.spec.value.stat.features, n);
      ghost var before := shm.bytes[..];
      SerializeCells(s, elems[i], texts);
      AllSerialized(shm.events, before, theStats, StatBytes(tree), i, n, texts, shm.bytes[..]);
      SerializesMoveNoSample(shm.events, s.id, n, theStats);
      shm.events := shm.events + more;
    }

    method SerializeCells(s: Site, row: seq<AccumOp>, ghost texts: seq<seq<byte>>)
      requires s.spec.Some? && s.spec.value.stat.Accum? && s.CellBase(s.Cells()) <= shm.bytes.Length
      requires |row| == s.Cells() && Tell(row, s.spec.value.stat.features, texts)
      modifies shm.bytes
      ensures shm.bytes[..] == Stored(old(shm.bytes[..]), StatArray.Addresses(s.base, s.Cells(), s.Width()), texts)
    {
      var spec := s.spec.value;
      if spec.dims == [] {
        SerializeElements(shm.bytes, s.base, spec.stat.features, CellSize(spec.stat), row, texts);
      } else {
        SerializeArray(shm.bytes, s.base, spec.dims, spec.stat.features, CellSize(spec.stat), row, texts);
      }
    }

    /** One round of the serializer thread. */
    method SerializeAll()
      requires Valid()
      modifies shm, shm.bytes
      ensures Valid() && shm.events == old(shm.events) + Flat(PassOf(theStats), |theStats|)
    {
      ghost var before, parts := shm.events, PassOf(theStats);
      NoPart(before, parts);
      for i := 0 to |theStats|
        invariant Valid() && shm.events == before + Flat(parts, i)
      {
        OnePartMore(before, parts, i);
        SerializeStat(i);
      }
    }
  }

  ghost function Summaries(events: seq<Event>, s: Site, fs: seq<Feature>, n: nat)
    : (texts: seq<seq<byte>>)
    ensures |texts| == n
    ensures forall k :: 0 <= k < n ==> texts[k] == Summary(fs, Accumulated(events, s, k).acc)
  {
    seq(n, k requires 0 <= k => Summary(fs, Accumulated(events, s, k).acc))
  }

  /** What a write to an accumulator makes of memory and of the accumulator. */
  lemma AccumWritten(events: seq<Event>, mem: seq<byte>, after: seq<byte>, ps: seq<Site>, size: nat, i: nat, k: nat,
                     args: seq<int>, wordAt: nat, acc': seq<int>)
    requires Sound(ps, size) && size <= |mem| && Holds(events, mem, ps)
    requires i < |ps| && k < ps[i].Cells() && ps[i].spec.value.stat.Accum?
    requires wordAt == WordBase(ps[i], ps[i].spec.value.stat.features, k)
    requires IsWriteTo(StatMemory.Write(ps[i].id, args), ps[i], k)
    requires SampleAdded(mem, after, wordAt, Accumulated(events, ps[i], k).acc, acc',
                         ValueIn(ps[i].spec.value.dims, args))
    ensures var e := StatMemory.Write(ps[i].id, args);
            Holds(events + [e], after, ps) && Accumulated(events + [e], ps[i], k).acc == acc'
  {
    WordInMemory(events, mem, ps, size, i, k);
    AccumWriteHolds(events, mem, ps, size, i, k, args);
    AccumAfterWrite(events, StatMemory.Write(ps[i].id, args), ps[i], k);
  }

  /** The event changes no samples but those of cell `k` of site `i`. */
  lemma OthersKeepSamples(events: seq<Event>, e: Event, ps: seq<Site>, size: nat, i: nat, k: nat)
    requires Sound(ps, size) && i < |ps| && e.Write? && e.id == ps[i].id && IsWriteTo(e, ps[i], k)
    ensures forall j, l: nat :: 0 <= j < |ps| && (j != i || l != k) ==>
              Accumulated(events + [e], ps[j], l).acc == Accumulated(events, ps[j], l).acc
  {
    forall j, l: nat | 0 <= j < |ps| && (j != i || l != k)
      ensures Accumulated(events + [e], ps[j], l).acc == Accumulated(events, ps[j], l).acc
    {
      assert j != i ==> ps[j].id != ps[i].id;
      OnlyWritesChangeAcc(events, e, ps[j], l);
    }
  }

  lemma NoSampleMoves(events: seq<Event>, e: Event, ps: seq<Site>)
    requires !e.Write?
    ensures forall j, l: nat :: 0 <= j < |ps| ==>
              Accumulated(events + [e], ps[j], l).acc == Accumulated(events, ps[j], l).acc
  {
    forall j, l: nat | 0 <= j < |ps|
      ensures Accumulated(events + [e], ps[j], l).acc == Accumulated(events, ps[j], l).acc
    {
      OnlyWritesChangeAcc(events, e, ps[j], l);
    }
  }

  lemma SerializesMoveNoSample(events: seq<Event>, id: nat, n: nat, ps: seq<Site>)
    ensures forall j, l: nat :: 0 <= j < |ps| ==>
              Accumulated(events + SerializesOf(id, n), ps[j], l).acc == Accumulated(events, ps[j], l).acc
  {
    forall j, l: nat | 0 <= j < |ps|
      ensures Accumulated(events + SerializesOf(id, n), ps[j], l).acc == Accumulated(events, ps[j], l).acc
    {
      SerializesKeepAcc(events, id, n, ps[j], l);
    }
  }

  lemma LogSize(logTree: Tree<()>, i: nat)
    requires i < |TheLogs(logTree, true)|
    ensures TheLogs(logTree, true)[i].SharedSize() == LOGGERS
  {
    FlattenReversesPreorder(logTree, [], 0, LogHandle(true), []);
  }

  lemma LogRegion(stats: seq<Handle>, logTree: Tree<()>, i: nat, j: nat)
    requires i < j <= |TheLogs(logTree, true)|
    ensures var all := stats + TheLogs(logTree, true);
            Offset(all, |stats| + i) + LOGGERS <= Offset(all, |stats| + j)
  {
    var logs := TheLogs(logTree, true);
    LogSize(logTree, i);
    assert (stats + logs)[|stats| + i] == logs[i];
    RegionEndsBefore(stats + logs, |stats| + i, |stats| + j);
  }

  lemma LogsLieBehind(tree: Tree<StatSpec>, logTree: Tree<()>, ptrs: seq<nat>)
    requires var stats, logs := TheStats(tree, true), TheLogs(logTree, true);
             |ptrs| == |logs| && forall i :: 0 <= i < |logs| ==> ptrs[i] == Offset(stats + logs, |stats| + i)
    ensures var all := TheStats(tree, true) + TheLogs(logTree, true);
            && StatBytes(tree) <= Offset(all, |all|)
            && (forall i :: 0 <= i < |ptrs| ==> StatBytes(tree) <= ptrs[i] && ptrs[i] + LOGGERS <= Offset(all, |all|))
            && (forall i, j :: 0 <= i < j < |ptrs| ==> ptrs[i] + LOGGERS <= ptrs[j])
  {
    var stats, logs := TheStats(tree, true), TheLogs(logTree, true);
    OffsetOfConcat(stats, logs, |logs|);
    forall i | 0 <= i < |ptrs|
      ensures StatBytes(tree) <= ptrs[i] && ptrs[i] + LOGGERS <= Offset(stats + logs, |stats + logs|)
    {
      OffsetOfConcat(stats, logs, i);
      LogRegion(stats, logTree, i, |logs|);
    }
    forall i, j | 0 <= i < j < |ptrs| ensures ptrs[i] + LOGGERS <= ptrs[j] {
      LogRegion(stats, logTree, i, j);
    }
  }

  /** A tag to display, as a command line names it. */
  datatype TagDesc = TagDesc(path: string, selector: string)

  /** The argument is the path alone, or the path, a colon and the specifiers; what a further colon
      introduces is ignored. */
  ghost predicate Means(arg: string, d: TagDesc) {
    && ':' !in d.path && ':' !in d.selector
    && ((arg == d.path && d.selector == "")
        || (exists rest :: arg == d.path + ":" + d.selector + rest && (rest == "" || rest[0] == ':')))
  }

  lemma PartsMean(arg: string, parts: seq<string>)
    requires parts == Split(arg, ':')
    ensures Means(arg, TagDesc(parts[0], if |parts| > 1 then parts[1] else ""))
  {
    JoinSplit(arg, ':');
    SplitPieces(arg, ':');
    if |parts| == 2 {
      assert arg == parts[0] + ":" + parts[1] + "";
    } else if |parts| > 2 {
      assert parts[1..][1..] == parts[2..];
      var rest := ":" + Join(parts[2..], ':');
      assert arg == parts[0] + ":" + parts[1] + rest;
    }
  }

  /** The tag and the index specifiers of an argument, which a colon separates. */
  method ParseTag(arg: string) returns (d: TagDesc)
    ensures Means(arg, d)
  {
    var parts := Split(arg, ':');
    PartsMean(arg, parts);
    d := TagDesc(parts[0], "");
    if |parts| > 1 {
      d := d.(selector := parts[1]);
    }
  }

  /** For every path the tags it leads to. */
  function Routes(tree: Tree<StatSpec>, descs: seq<TagDesc>): (rs: seq<seq<Node<StatSpec>>>)
    ensures |rs| == |descs| && forall i :: 0 <= i < |descs| ==> rs[i] == Routed(tree, [], 0, descs[i].path)
  {
    seq(|descs|, i requires 0 <= i < |descs| => Routed(tree, [], 0, descs[i].path))
  }

  ghost predicate RoutesKnown(ps: seq<Site>, routes: seq<seq<Node<StatSpec>>>) {
    forall i :: 0 <= i < |routes| ==> AllKnown(ps, routes[i])
  }

  lemma RoutesAreKnown(tree: Tree<StatSpec>, descs: seq<TagDesc>)
    requires TreeOk(tree)
    ensures RoutesKnown(SitesOf(tree), Routes(tree, descs))
  {
    SitesKnowTree(tree, true);
    forall i | 0 <= i < |descs| ensures AllKnown(SitesOf(tree), Routes(tree, descs)[i]) {
      RoutedAreKnown(tree, SitesOf(tree), descs[i].path);
    }
  }

  /** What the printer is given for each of a series of commands to lists of tags. */
  function Answers(mem: seq<byte>, ps: seq<Site>, routes: seq<seq<Node<StatSpec>>>, descs: seq<TagDesc>, cmd: StatCmd)
    : (parts: seq<seq<Display<Answer>>>)
    requires RoutesKnown(ps, routes) && |routes| == |descs|
    ensures |parts| == |routes|
    ensures forall i :: 0 <= i < |parts| ==> parts[i] == DisplaysOf(mem, ps, routes[i], cmd, descs[i].selector)
  {
    seq(|routes|, i requires 0 <= i < |routes| => DisplaysOf(mem, ps, routes[i], cmd, descs[i].selector))
  }

  /** What each of a series of clears amounts to. */
  function Clears(ps: seq<Site>, routes: seq<seq<Node<StatSpec>>>): (parts: seq<seq<Event>>)
    requires RoutesKnown(ps, routes)
    ensures |parts| == |routes| && forall i :: 0 <= i < |parts| ==> parts[i] == NodeClears(ps, routes[i])
  {
    seq(|routes|, i requires 0 <= i < |routes| => NodeClears(ps, routes[i]))
  }

  /** What a controller can see: memory, what happened to it, and the printer's answers. */
  datatype World = World(mem: seq<byte>, events: seq<Event>, stats: seq<Display<Answer>>)

  /** A command to a list of tags: a clear is recorded, anything else adds answers and changes nothing. */
  ghost predicate Moves(w: World, w': World, ps: seq<Site>, nodes: seq<Node<StatSpec>>, selector: string, cmd: StatCmd)
    requires AllKnown(ps, nodes)
  {
    && (cmd == ClearStat ==> w'.events == w.events + NodeClears(ps, nodes))
    && (cmd != ClearStat ==>
          && w'.mem == w.mem && w'.events == w.events
          && w'.stats == w.stats + DisplaysOf(w.mem, ps, nodes, cmd, selector))
  }

  /** The same for the first `n` of a series of commands. */
  ghost predicate Processed(w: World, w': World, ps: seq<Site>, routes: seq<seq<Node<StatSpec>>>, descs: seq<TagDesc>,
                            cmd: StatCmd, n: nat)
    requires RoutesKnown(ps, routes) && n <= |routes| == |descs|
  {
    && (cmd == ClearStat ==> w'.events == w.events + Flat(Clears(ps, routes), n))
    && (cmd != ClearStat ==>
          && w'.mem == w.mem && w'.events == w.events
          && w'.stats == w.stats + Flat(Answers(w.mem, ps, routes, descs, cmd), n))
  }

  lemma NothingProcessed(w: World, ps: seq<Site>, routes: seq<seq<Node<StatSpec>>>, descs: seq<TagDesc>, cmd: StatCmd)
    requires RoutesKnown(ps, routes) && |routes| == |descs|
    ensures Processed(w, w, ps, routes, descs, cmd, 0)
  {
    assert w.events + [] == w.events && w.stats + [] == w.stats;
  }

  lemma MovesOn(w: World, w1: World, w2: World, ps: seq<Site>, routes: seq<seq<Node<StatSpec>>>, descs: seq<TagDesc>,
                cmd: StatCmd, n: nat)
    requires RoutesKnown(ps, routes) && n < |routes| == |descs|
    requires Processed(w, w1, ps, routes, descs, cmd, n) && Moves(w1, w2, ps, routes[n], descs[n].selector, cmd)
    ensures Processed(w, w2, ps, routes, descs, cmd, n + 1)
  {
    if cmd == ClearStat {
      OnePartMore(w.events, Clears(ps, routes), n);
    } else {
      OnePartMore(w.stats, Answers(w.mem, ps, routes, descs, cmd), n);
    }
  }

  class Control {
    const tree: Tree<StatSpec>
    const shm: SharedMemory
    const printer: Printer
    var theStats: seq<Site>

    /** The controller as a command passes through the tags. */
    ghost predicate Ready()
      reads this, shm, printer
    {
      && TreeOk(tree) && theStats == SitesOf(tree) && StatBytes(tree) <= shm.bytes.Length
      && printer.Valid()
    }

    ghost predicate Valid()
      reads this, shm, shm.bytes, printer
    {
      Ready() && InStep(tree, shm)
    }

    ghost function Now(): Sent
      reads this, shm.bytes, printer
    {
      Sent(shm.bytes[..], printer.stats)
    }

    /** Attaches to the memory that an operational process set up for the same tags. */
    constructor (tree: Tree<StatSpec>, logTree: Tree<()>, shm: SharedMemory, ghost op: Operational)
      requires op.Valid() && op.tree == tree && op.shm == shm
      ensures Valid() && fresh(printer) && this.tree == tree && this.shm == shm
      ensures printer.stats == [] && printer.logs == []
    {
      var stats, logs := TheStats(tree, false), TheLogs(logTree, false);
      var _, sites, _ := InitSites(stats, logs);
      SitesAgree(tree);
      this.tree := tree;
      this.shm := shm;
      theStats := sites;
      printer := new Printer();
    }

    /** The command on one tag, and its answer to the printer. */
    method SendCommand(n: Node<StatSpec>, cmd: StatCmd)
      requires Ready() && Known(theStats, n.id)
      modifies shm.bytes, printer
      ensures Ready() && printer.options == old(printer.options) && printer.logs == old(printer.logs)
      ensures Now() == SendTo(old(Now()), theStats, n, cmd, printer.options)
    {
      var s := theStats[IndexOf(theStats, n.id)];
      SitesAreSound(tree, true);
      assert s.CellBase(s.Cells()) <= StatBytes(tree);
      assert s.spec.Some? ==> SpecOk(s.spec.value);
      var out := DoCommand(s, cmd);
      printer.AddStatOutput(InfoOf(n), out);
    }

    method DoCommand(s: Site, cmd: StatCmd) returns (a: Answer)
      requires s.CellBase(s.Cells()) <= shm.bytes.Length
      requires s.spec.Some? ==> Positive(s.spec.value.dims)
      modifies shm.bytes
      ensures shm.bytes[..] == Commanded(old(shm.bytes[..]), s, cmd).mem
      ensures a == AnswerTo(old(shm.bytes[..]), s, cmd)
    {
      var out := new StatCmdOutput();
      if s.spec.Some? {
        var spec := s.spec.value;
        ReprKeepsSize(spec.stat);
        if spec.dims == [] {
          OneAddress(s.base, s.Width());
          VisitOne(ViewOf(shm.bytes, out), s.base, ReprOf(spec.stat), cmd);
          DoLeafCommand(shm.bytes, s.base, ReprOf(spec.stat), cmd, out);
        } else {
          VisitedIsFlat(s.base, spec.dims, s.Width());
          PushedIsAllSizes(cmd, spec.dims);
          DoStatCommand(shm.bytes, s.base, spec.dims, ReprOf(spec.stat), cmd, out);
        }
      }
      a := Answer(out.entryTitle, out.entries, out.dimensionSizes);
    }

    /** The command on a tag and all tags below it. */
    method Go(t: Tree<StatSpec>, above: seq<string>, depth: nat, cmd: StatCmd)
      requires Ready() && AllKnown(theStats, Preorder(t, above, depth))
      modifies shm.bytes, printer
      ensures Ready() && printer.options == old(printer.options) && printer.logs == old(printer.logs)
      ensures Now() == SendAll(old(Now()), theStats, Preorder(t, above, depth), cmd, printer.options)
      decreases t
    {
      var top := Top(t, above, depth);
      ghost var v, ps := Now(), theStats;
      assert Preorder(t, above, depth)[0] == top;
      SendCommand(top, cmd);
      SendOne(v, ps, top, cmd, printer.options);
      if t.Parent? {
        ghost var below := PreorderAll(t.children, above + [t.name], depth + 1);
        KnownParts(ps, [top], below);
        SendAllConcat(v, ps, [top], below, cmd, printer.options);
        GoAll(t.children, above + [t.name], depth + 1, cmd);
      }
    }

    method GoAll(ts: Forest<StatSpec>, above: seq<string>, depth: nat, cmd: StatCmd)
      requires Ready() && AllKnown(theStats, PreorderAll(ts, above, depth))
      modifies shm.bytes, printer
      ensures Ready() && printer.options == old(printer.options) && printer.logs == old(printer.logs)
      ensures Now() == SendAll(old(Now()), theStats, PreorderAll(ts, above, depth), cmd, printer.options)
      decreases ts
    {
      if ts.Cons? {
        ghost var v, ps := Now(), theStats;
        ghost var a, b := Preorder(ts.head, above, depth), PreorderAll(ts.tail, above, depth);
        KnownParts(ps, a, b);
        SendAllConcat(v, ps, a, b, cmd, printer.options);
        Go(ts.head, above, depth, cmd);
        GoAll(ts.tail, above, depth, cmd);
      }
    }

    /** Resolves a dotted path and sends the command to the tags it addresses. */
    method TagCommander(t: Tree<StatSpec>, above: seq<string>, depth: nat, path: string, cmd: StatCmd)
      requires Ready() && AllKnown(theStats, Preorder(t, above, depth))
      modifies shm.bytes, printer
      ensures Ready() && printer.options == old(printer.options) && printer.logs == old(printer.logs)
      ensures AllKnown(theStats, Routed(t, above, depth, path))
      ensures Now() == SendAll(old(Now()), theStats, Routed(t, above, depth, path), cmd, printer.options)
      decreases t
    {
      if t.Leaf? {
        assert Preorder(t, above, depth) == [Top(t, above, depth)];
        if path == t.name || path == "" {
          Go(t, above, depth, cmd);
        }
      } else if path == "" {
        Go(t, above, depth, cmd);
      } else {
        var (head, tail) := GetHeadTail(path);
        if head != t.name {
          return;
        }
        if tail == "" {
          Go(t, above, depth, cmd);
        } else {
          KnownParts(theStats, [Top(t, above, depth)], PreorderAll(t.children, above + [t.name], depth + 1));
          TagCommanderAll(t.children, above + [t.name], depth + 1, tail, cmd);
        }
      }
    }

    method TagCommanderAll(ts: Forest<StatSpec>, above: seq<string>, depth: nat, path: string, cmd: StatCmd)
      requires Ready() && AllKnown(theStats, PreorderAll(ts, above, depth))
      modifies shm.bytes, printer
      ensures Ready() && printer.options == old(printer.options) && printer.logs == old(printer.logs)
      ensures AllKnown(theStats, RoutedAll(ts, above, depth, path))
      ensures Now() == SendAll(old(Now()), theStats, RoutedAll(ts, above, depth, path), cmd, printer.options)
      decreases ts
    {
      if ts.Cons? {
        ghost var v, ps := Now(), theStats;
        KnownParts(ps, Preorder(ts.head, above, depth), PreorderAll(ts.tail, above, depth));
        TagCommander(ts.head, above, depth, path, cmd);
        TagCommanderAll(ts.tail, above, depth, path, cmd);
        SendAllConcat(v, ps, Routed(ts.head, above, depth, path), RoutedAll(ts.tail, above, depth, path), cmd,
                      printer.options);
      }
    }

    /** A command for the tags at a path. */
    method Command(path: string, cmd: StatCmd)
      requires Valid() && IsStatisticCommand(cmd)
      modifies shm, shm.bytes, printer
      ensures Valid() && printer.options == old(printer.options) && printer.logs == old(printer.logs)
      ensures AllKnown(theStats, Routed(tree, [], 0, path))
      ensures Now() == SendAll(old(Now()), theStats, Routed(tree, [], 0, path), cmd, printer.options)
      ensures shm.events == old(shm.events)
                            + if cmd == ClearStat then NodeClears(theStats, Routed(tree, [], 0, path)) else []
      ensures cmd != ClearStat ==>
                && shm.bytes[..] == old(shm.bytes[..])
                && printer.stats == old(printer.stats)
                   + DisplaysOf(shm.bytes[..], theStats, Routed(tree, [], 0, path), cmd, printer.options)
    {
      ghost var v := Now();
      SitesAreSound(tree, true);
      SitesKnowTree(tree, true);
      KnowsAllKnown(theStats, Preorder(tree, [], 0));
      TagCommander(tree, [], 0, path, cmd);
      if cmd == ClearStat {
        ClearHolds(shm.events, v, theStats, StatBytes(tree), Routed(tree, [], 0, path), printer.options);
        shm.events := shm.events + NodeClears(theStats, Routed(tree, [], 0, path));
      } else {
        SendingShows(v, theStats, Routed(tree, [], 0, path), cmd, printer.options);
      }
    }

    /** What a clear does at one cell: a step of a run, between which the other process has its own. */
    method ClearCell(id: nat, k: nat)
      requires Valid() && Clearable(tree, id, k)
      modifies shm, shm.bytes
      ensures Valid() && shm.events == old(shm.events) + [StatMemory.Clear(id, k)]
    {
      var i := IndexOf(theStats, id);
      var s := theStats[i];
      SitesAreSound(tree, true);
      CellWithin(theStats, StatBytes(tree), i, k);
      CellClearHolds(shm.events, shm.bytes[..], theStats, StatBytes(tree), i, k);
      ReprKeepsSize(s.spec.value.stat);
      ghost var v := View(shm.bytes[..], [], "");
      ClearOfCell(v, s.spec.value.stat, ReprOf(s.spec.value.stat), s.CellBase(k));
      var out := new StatCmdOutput();
      DoLeafCommand(shm.bytes, s.CellBase(k), ReprOf(s.spec.value.stat), ClearStat, out);
      shm.events := shm.events + [StatMemory.Clear(id, k)];
    }

    /** A command for one tag named on the command line. */
    method CommandFor(d: TagDesc, cmd: StatCmd)
      requires Valid() && IsStatisticCommand(cmd)
      modifies shm, shm.bytes, printer
      ensures Valid() && printer.logs == old(printer.logs)
      ensures AllKnown(theStats, Routed(tree, [], 0, d.path))
      ensures Moves(old(Seen()), Seen(), theStats, Routed(tree, [], 0, d.path), d.selector, cmd)
    {
      printer.SetPrintOptions(d.selector);
      Command(d.path, cmd);
    }

    ghost function Seen(): World
      reads shm, shm.bytes, printer
    {
      World(shm.bytes[..], shm.events, printer.stats)
    }

    /** A command for several tags, one after the other. */
    method ParseUserCommands(descs: seq<TagDesc>, cmd: StatCmd)
      requires Valid() && IsStatisticCommand(cmd)
      modifies shm, shm.bytes, printer
      ensures Valid() && printer.logs == old(printer.logs)
      ensures RoutesKnown(theStats, Routes(tree, descs))
      ensures Processed(old(Seen()), Seen(), theStats, Routes(tree, descs), descs, cmd, |descs|)
    {
      RoutesAreKnown(tree, descs);
      ghost var before, routes := Seen(), Routes(tree, descs);
      NothingProcessed(before, theStats, routes, descs, cmd);
      for i := 0 to |descs|
        invariant Valid() && printer.logs == old(printer.logs)
        invariant Processed(before, Seen(), theStats, routes, descs, cmd, i)
      {
        CommandNext(descs, i, cmd, before, routes);
      }
    }

    method CommandNext(descs: seq<TagDesc>, i: nat, cmd: StatCmd, ghost before: World,
                       ghost routes: seq<seq<Node<StatSpec>>>)
      requires Valid() && IsStatisticCommand(cmd) && i < |descs|
      requires routes == Routes(tree, descs) && RoutesKnown(theStats, routes)
      requires Processed(before, Seen(), theStats, routes, descs, cmd, i)
      modifies shm, shm.bytes, printer
      ensures Valid() && printer.logs == old(printer.logs)
      ensures Processed(before, Seen(), theStats, routes, descs, cmd, i + 1)
    {
      ghost var now := Seen();
      CommandFor(descs[i], cmd);
      MovesOn(before, now, Seen(), theStats, routes, descs, cmd, i);
    }

    /** Dumps the tags named on the command line. */
    method DumpStats(descs: seq<TagDesc>) returns (lines: seq<string>)
      requires Valid() && printer.stats == [] && forall i :: 0 <= i < |descs| ==> SupportedSelector(descs[i].selector)
      modifies shm, shm.bytes, printer
      ensures Valid() && RoutesKnown(theStats, Routes(tree, descs))
      ensures shm.bytes[..] == old(shm.bytes[..]) && shm.events == old(shm.events)
      ensures var parts := Answers(shm.bytes[..], theStats, Routes(tree, descs), descs, DumpStat);
              var shown := Latest(Flat(parts, |descs|));
              AllDumpable(shown)
              && lines == if shown == [] then [] else ["STAT VALUES:"] + Flat(DumpParts(shown), |shown|)
    {
      ParseUserCommands(descs, DumpStat);
      SitesAreSound(tree, true);
      ghost var routes := Routes(tree, descs);
      ghost var parts := Answers(shm.bytes[..], theStats, routes, descs, DumpStat);
      ghost var all := Flat(parts, |descs|);
      assert printer.stats == all;
      ListedIsLatest(all);
      AnswersAreDumpable(shm.bytes[..], theStats, StatBytes(tree), routes, descs);
      LatestAreDumpable(parts, |descs|);
      lines := printer.PrintDumpStat();
    }
  }

  lemma DisplaysAreDumpable(mem: seq<byte>, ps: seq<Site>, size: nat, nodes: seq<Node<StatSpec>>, selector: string)
    requires Sound(ps, size) && AllKnown(ps, nodes) && SupportedSelector(selector)
    ensures AllDumpable(DisplaysOf(mem, ps, nodes, DumpStat, selector))
  {
    forall i | 0 <= i < |nodes| ensures Dumpable(DisplayOf(mem, ps, nodes[i], DumpStat, selector)) {
      assert Known(ps, nodes[i].id);
    }
  }

  lemma DumpableConcat(a: seq<Display<Answer>>, b: seq<Display<Answer>>)
    requires AllDumpable(a) && AllDumpable(b)
    ensures AllDumpable(a + b)
  {
  }

  lemma AnswersAreDumpable(mem: seq<byte>, ps: seq<Site>, size: nat, routes: seq<seq<Node<StatSpec>>>,
                           descs: seq<TagDesc>)
    requires Sound(ps, size) && RoutesKnown(ps, routes) && |routes| == |descs|
    requires forall i :: 0 <= i < |descs| ==> SupportedSelector(descs[i].selector)
    ensures var parts := Answers(mem, ps, routes, descs, DumpStat);
            forall i :: 0 <= i < |parts| ==> AllDumpable(parts[i])
  {
    forall i | 0 <= i < |routes| ensures AllDumpable(DisplaysOf(mem, ps, routes[i], DumpStat, descs[i].selector)) {
      DisplaysAreDumpable(mem, ps, size, routes[i], descs[i].selector);
    }
  }

  lemma {:induction false} FlatIsDumpable(parts: seq<seq<Display<Answer>>>, n: nat)
    requires n <= |parts| && forall i :: 0 <= i < |parts| ==> AllDumpable(parts[i])
    ensures AllDumpable(Flat(parts, n))
  {
    if n > 0 {
      FlatIsDumpable(parts, n - 1);
      DumpableConcat(Flat(parts, n - 1), parts[n - 1]);
    }
  }

  lemma LatestAreDumpable(parts: seq<seq<Display<Answer>>>, n: nat)
    requires n <= |parts| && forall i :: 0 <= i < |parts| ==> AllDumpable(parts[i])
    ensures AllDumpable(Latest(Flat(parts, n)))
  {
    var all := Flat(parts, n);
    FlatIsDumpable(parts, n);
    forall i | 0 <= i < |Latest(all)| ensures Dumpable(Latest(all)[i]) {
      LatestComeFrom(all, i);
      var j :| 0 <= j < |all| && all[j] == Latest(all)[i];
    }
  }

  lemma KnownParts(ps: seq<Site>, a: seq<Node<StatSpec>>, b: seq<Node<StatSpec>>)
    requires AllKnown(ps, a + b)
    ensures AllKnown(ps, a) && AllKnown(ps, b)
  {
    forall i | 0 <= i < |a| ensures Known(ps, a[i].id) {
      assert (a + b)[i] == a[i];
    }
    forall i | 0 <= i < |b| ensures Known(ps, b[i].id) {
      assert (a + b)[|a| + i] == b[i];
    }
  }

  lemma KnowsAllKnown(ps: seq<Site>, nodes: seq<Node<StatSpec>>)
    requires Knows(ps, nodes)
    ensures AllKnown(ps, nodes)
  {
  }

  lemma OneAddress(base: nat, size: nat)
    ensures StatArray.Addresses(base, 1, size) == [base]
  {
  }

  lemma VisitOne(v: View, at: nat, repr: Repr, cmd: StatCmd)
    ensures VisitAll(v, [at], repr, cmd) == Visit(v, at, repr, cmd)
  {
    assert [at][..0] == [];
  }
}
