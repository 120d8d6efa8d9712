/** The flat shared memory of all statistics as a map from tags and index paths to values. */
module StatMemory {
  import opened Arithmetic
  import opened Bytes
  import opened Sequences
  import opened Text
  import opened IndexCodec
  import opened StatCell
  import opened StatArray
  import opened Accumulator
  import opened TagTree
  import opened Layout

  // ----- the sites of the statistics -----

  /** A tag of the list with its place; parents hold nothing. */
  datatype Site = Site(id: nat, spec: Option<StatSpec>, base: nat) {
    function Cells(): nat {
      if spec.Some? then Count(spec.value.dims) else 0
    }

    function Width(): nat {
      if spec.Some? then CellSize(spec.value.stat) else 0
    }

    function CellBase(k: nat): nat {
      base + k * Width()
    }
  }

  function SpecOf(h: Handle): Option<StatSpec> {
    if h.kind.OpStat? || h.kind.ControlStat? then Some(h.kind.spec) else None
  }

  function SiteAt(hs: seq<Handle>, i: nat): Site
    requires i < |hs|
  {
    Site(hs[i].id, SpecOf(hs[i]), Offset(hs, i))
  }

  function Sites(hs: seq<Handle>): (ps: seq<Site>)
    ensures |ps| == |hs| && forall i :: 0 <= i < |hs| ==> ps[i] == SiteAt(hs, i)
  {
    seq(|hs|, i requires 0 <= i < |hs| => SiteAt(hs, i))
  }

  /** Sites with different tags that lie one behind the other within `size` bytes. */
  ghost predicate Sound(ps: seq<Site>, size: nat) {
    && (forall i, j :: 0 <= i < j < |ps| ==> ps[i].id != ps[j].id)
    && (forall i, j :: 0 <= i < j < |ps| ==> ps[i].CellBase(ps[i].Cells()) <= ps[j].base)
    && (forall i :: 0 <= i < |ps| ==> ps[i].CellBase(ps[i].Cells()) <= size)
    && (forall i :: 0 <= i < |ps| && ps[i].spec.Some? ==> SpecOk(ps[i].spec.value))
  }

  ghost predicate DifferentIds<T>(nodes: seq<Node<T>>) {
    forall i, j :: 0 <= i < j < |nodes| ==> nodes[i].id != nodes[j].id
  }

  /** Arrays of at least one element each, and integer types of up to 8 bytes. */
  predicate SpecOk(spec: StatSpec) {
    && Positive(spec.dims) && (forall i :: 0 <= i < |spec.dims| ==> spec.dims[i] <= SIZE_MAX)
    && (spec.stat.Simple? ==> 0 < spec.stat.width <= 8)
  }

  /** What a tag tree has to be like: plain names, one tag per type, supported statistics. */
  ghost predicate TreeOk(tree: Tree<StatSpec>) {
    && NamesOk(tree)
    && DifferentIds(Preorder(tree, [], 0))
    && forall n <- Preorder(tree, [], 0) :: n.payload.Some? ==> SpecOk(n.payload.value)
  }

  lemma SizeOfSite(hs: seq<Handle>, i: nat)
    requires i < |hs| && (hs[i].kind.OpStat? || hs[i].kind.ControlStat? || hs[i].kind.StatParent?)
    ensures SiteAt(hs, i).CellBase(SiteAt(hs, i).Cells()) == Offset(hs, i) + hs[i].SharedSize()
  {
  }

  ghost predicate IsStat(h: Handle) {
    h.kind.OpStat? || h.kind.ControlStat? || h.kind.StatParent?
  }

  lemma HandlesOfTree(tree: Tree<StatSpec>, isOp: bool, i: nat)
    requires i < |TheStats(tree, isOp)|
    ensures |TheStats(tree, isOp)| == |Preorder(tree, [], 0)|
    ensures var n, h := Preorder(tree, [], 0)[|Preorder(tree, [], 0)| - 1 - i], TheStats(tree, isOp)[i];
            IsStat(h) && h.id == n.id && SpecOf(h) == n.payload
  {
    FlattenReversesPreorder(tree, [], 0, StatHandle(isOp), []);
    NodeHasHandle(tree, isOp, |Preorder(tree, [], 0)| - 1 - i);
  }

  lemma SiteOfTree(tree: Tree<StatSpec>, isOp: bool, i: nat)
    requires TreeOk(tree) && i < |TheStats(tree, isOp)|
    ensures var hs := TheStats(tree, isOp);
            var s := SiteAt(hs, i);
            && s.base == Offset(hs, i) && s.CellBase(s.Cells()) == Offset(hs, i + 1)
            && (s.spec.Some? ==> SpecOk(s.spec.value))
  {
    var hs, nodes := TheStats(tree, isOp), Preorder(tree, [], 0);
    HandlesOfTree(tree, isOp, i);
    SizeOfSite(hs, i);
    assert nodes[|nodes| - 1 - i] in nodes;
  }

  lemma {:induction false} OffsetsGrow(hs: seq<Handle>, i: nat, j: nat)
    requires i <= j <= |hs|
    ensures Offset(hs, i) <= Offset(hs, j)
  {
    if i < j {
      RegionEndsBefore(hs, i, j);
    }
  }

  lemma IdsDiffer(tree: Tree<StatSpec>, isOp: bool, i: nat, j: nat)
    requires TreeOk(tree) && i < j < |TheStats(tree, isOp)|
    ensures TheStats(tree, isOp)[i].id != TheStats(tree, isOp)[j].id
  {
    HandlesOfTree(tree, isOp, i);
    HandlesOfTree(tree, isOp, j);
  }

  /** The sites a tree's list gives out are sound. */
  lemma SitesAreSound(tree: Tree<StatSpec>, isOp: bool)
    requires TreeOk(tree)
    ensures var hs := TheStats(tree, isOp); Sound(Sites(hs), Offset(hs, |hs|))
  {
    var hs := TheStats(tree, isOp);
    var ps := Sites(hs);
    forall i | 0 <= i < |hs|
      ensures ps[i].CellBase(ps[i].Cells()) <= Offset(hs, |hs|) && (ps[i].spec.Some? ==> SpecOk(ps[i].spec.value))
    {
      SiteOfTree(tree, isOp, i);
      OffsetsGrow(hs, i + 1, |hs|);
    }
    forall i, j | 0 <= i < j < |hs| ensures ps[i].id != ps[j].id && ps[i].CellBase(ps[i].Cells()) <= ps[j].base {
      SiteOfTree(tree, isOp, i);
      OffsetsGrow(hs, i + 1, j);
      IdsDiffer(tree, isOp, i, j);
    }
  }

  /** Both builds find the same sites. */
  lemma SitesAgree(tree: Tree<StatSpec>)
    ensures Sites(TheStats(tree, true)) == Sites(TheStats(tree, false))
  {
    StatListsMatch(tree);
    var a, b := TheStats(tree, true), TheStats(tree, false);
    forall i | 0 <= i < |a| ensures SiteAt(a, i) == SiteAt(b, i) {
      HandlesOfTree(tree, true, i);
      HandlesOfTree(tree, false, i);
      SameOffsets(a, b, i);
    }
  }

  // ----- finding a tag -----

  predicate Known(ps: seq<Site>, id: nat) {
    exists i :: 0 <= i < |ps| && ps[i].id == id
  }

  /** The handle of a tag in the list. */
  function IndexOf(ps: seq<Site>, id: nat): (i: nat)
    requires Known(ps, id)
    ensures i < |ps| && ps[i].id == id
  {
    if ps[0].id == id then 0
    else
      assert Known(ps[1..], id) by {
        var i :| 0 <= i < |ps| && ps[i].id == id;
        assert ps[1..][i - 1].id == id;
      }
      1 + IndexOf(ps[1..], id)
  }

  lemma IndexIsUnique(ps: seq<Site>, size: nat, i: nat)
    requires Sound(ps, size) && i < |ps|
    ensures Known(ps, ps[i].id) && IndexOf(ps, ps[i].id) == i
  {
    var j := IndexOf(ps, ps[i].id);
    assert ps[i].id == ps[j].id;
  }

  /** The sites of a tree know its nodes and what they hold. */
  ghost predicate Knows(ps: seq<Site>, nodes: seq<Node<StatSpec>>) {
    forall n <- nodes :: Known(ps, n.id) && ps[IndexOf(ps, n.id)].spec == n.payload
  }

  lemma NodeIsKnown(tree: Tree<StatSpec>, isOp: bool, ps: seq<Site>, p: nat)
    requires p < |Preorder(tree, [], 0)| == |TheStats(tree, isOp)| && ps == Sites(TheStats(tree, isOp))
    requires Sound(ps, Offset(TheStats(tree, isOp), |TheStats(tree, isOp)|))
    ensures var n := Preorder(tree, [], 0)[p]; Known(ps, n.id) && ps[IndexOf(ps, n.id)].spec == n.payload
  {
    var i := |Preorder(tree, [], 0)| - 1 - p;
    HandlesOfTree(tree, isOp, i);
    IndexIsUnique(ps, Offset(TheStats(tree, isOp), |TheStats(tree, isOp)|), i);
  }

  lemma SitesKnowTree(tree: Tree<StatSpec>, isOp: bool)
    requires TreeOk(tree)
    ensures Knows(Sites(TheStats(tree, isOp)), Preorder(tree, [], 0))
  {
    var hs, nodes := TheStats(tree, isOp), Preorder(tree, [], 0);
    var ps := Sites(hs);
    SitesAreSound(tree, isOp);
    FlattenReversesPreorder(tree, [], 0, StatHandle(isOp), []);
    forall n | n in nodes ensures Known(ps, n.id) && ps[IndexOf(ps, n.id)].spec == n.payload {
      var p :| 0 <= p < |nodes| && nodes[p] == n;
      NodeIsKnown(tree, isOp, ps, p);
    }
  }

  // ----- the map -----

  /** What happened to the statistics, one cell at a time: writes, with the arguments given, and
      serializations by the operational process, clears by the controller. */
  datatype Event = Write(id: nat, args: seq<int>) | Serialize(id: nat, k: nat) | Clear(id: nat, k: nat)

  predicate IsWriteTo(e: Event, p: Site, k: nat) {
    && e.Write? && p.spec.Some? && e.id == p.id && Given(p.spec.value.dims, e.args)
    && CellIndex(p.spec.value.dims, Indices(p.spec.value.dims, e.args)) == k
  }

  predicate IsSerializationOf(e: Event, p: Site, k: nat) {
    e.Serialize? && e.id == p.id && e.k == k
  }

  predicate IsClearOf(e: Event, p: Site, k: nat) {
    e.Clear? && e.id == p.id && e.k == k
  }

  /** The word in cell `k` of a simple stat after the events. */
  function Value(events: seq<Event>, p: Site, k: nat): (v: nat)
    ensures v < Capacity(p.Width())
  {
    if events == [] then 0
    else
      var before, e := Value(events[..|events| - 1], p, k), events[|events| - 1];
      if IsWriteTo(e, p, k) && p.spec.value.stat.Simple? then
        WrittenValue(p.spec.value.stat.policy, Capacity(p.Width()), before, ValueIn(p.spec.value.dims, e.args))
      else if IsClearOf(e, p, k) then 0
      else before
  }

  /** The number a cell of a simple stat holds. */
  function Number(events: seq<Event>, p: Site, k: nat): int
    requires p.spec.Some? && p.spec.value.stat.Simple?
  {
    NumberIn(p.spec.value.stat.signed, Capacity(p.Width()), Value(events, p, k))
  }

  /** An accumulator: the samples it holds, whether its control word is set, and the samples that
      were last serialized, if any were. */
  datatype AccumState = AccumState(acc: seq<int>, flagged: bool, served: Option<seq<int>>)

  /** The accumulator of cell `k` after the events. */
  function Accumulated(events: seq<Event>, p: Site, k: nat): AccumState {
    if events == [] then AccumState([], false, None)
    else
      var a, e := Accumulated(events[..|events| - 1], p, k), events[|events| - 1];
      if IsWriteTo(e, p, k) then
        a.(acc := (if a.flagged then [] else a.acc) + [ValueIn(p.spec.value.dims, e.args)], flagged := false)
      else if IsSerializationOf(e, p, k) then a.(served := Some(a.acc))
      else if IsClearOf(e, p, k) then a.(flagged := true)
      else a
  }

  /** The values written to a cell since it was last cleared, in order. */
  function SinceClear(events: seq<Event>, p: Site, k: nat): seq<int> {
    if events == [] then []
    else
      var before, e := SinceClear(events[..|events| - 1], p, k), events[|events| - 1];
      if IsWriteTo(e, p, k) then before + [ValueIn(p.spec.value.dims, e.args)]
      else if IsClearOf(e, p, k) then []
      else before
  }

  function Sum(s: seq<int>): int {
    if s == [] then 0 else Sum(s[..|s| - 1]) + s[|s| - 1]
  }

  /** What a stat is to hold after it was given the values. */
  function Meant(policy: Policy, values: seq<int>): int {
    if policy.Increment? then Sum(values) else if values == [] then 0 else values[|values| - 1]
  }

  /** A counter's word is the sum of what was written since it was last cleared, a status's the last
      value, as far as the stat's type can hold it. */
  lemma {:induction false} ValueIsSumOrLast(events: seq<Event>, p: Site, k: nat)
    requires p.spec.Some? && p.spec.value.stat.Simple?
    ensures Value(events, p, k) == Meant(p.spec.value.stat.policy, SinceClear(events, p, k)) % Capacity(p.Width())
  {
    var c := Capacity(p.Width());
    if events == [] {
      RemainderIsUnique(0, c, 0, 0);
    } else {
      var front, e := events[..|events| - 1], events[|events| - 1];
      ValueIsSumOrLast(front, p, k);
      var s := SinceClear(front, p, k);
      if IsWriteTo(e, p, k) {
        var x := ValueIn(p.spec.value.dims, e.args);
        RemainderOfSum(Sum(s), x, c);
        assert (s + [x])[..|s|] == s;
      } else {
        RemainderIsUnique(0, c, 0, 0);
      }
    }
  }

  /** The number a stat holds is exactly the sum or the last value, of whatever sign, if and only if
      its type can hold that. */
  lemma NumberIsSumOrLast(events: seq<Event>, p: Site, k: nat)
    requires p.spec.Some? && p.spec.value.stat.Simple?
    ensures var stat := p.spec.value.stat;
            var meant := Meant(stat.policy, SinceClear(events, p, k));
            Number(events, p, k) == meant <==>
            if stat.signed then 0 <= Capacity(p.Width()) + 2 * meant < 2 * Capacity(p.Width())
            else 0 <= meant < Capacity(p.Width())
  {
    var stat, c := p.spec.value.stat, Capacity(p.Width());
    var meant := Meant(stat.policy, SinceClear(events, p, k));
    ValueIsSumOrLast(events, p, k);
    NumberIsInRange(stat.signed, c, Value(events, p, k));
    if InRange(stat.signed, c, meant) {
      NumberStored(stat.signed, c, meant);
    }
  }

  predicate EverCleared(events: seq<Event>, p: Site, k: nat) {
    exists i :: 0 <= i < |events| && IsClearOf(events[i], p, k)
  }

  lemma EverClearedSnoc(events: seq<Event>, p: Site, k: nat)
    requires events != []
    ensures EverCleared(events, p, k) <==>
            EverCleared(events[..|events| - 1], p, k) || IsClearOf(events[|events| - 1], p, k)
  {
    var front := events[..|events| - 1];
    if EverCleared(front, p, k) {
      var i :| 0 <= i < |front| && IsClearOf(front[i], p, k);
      assert events[i] == front[i];
    }
  }

  /** The control word is set exactly from a clear until the next write, and apart from that the
      accumulator holds exactly the samples written since the last clear. */
  lemma {:induction false} AccumulatedIsSinceClear(events: seq<Event>, p: Site, k: nat)
    ensures var a, s := Accumulated(events, p, k), SinceClear(events, p, k);
            && (a.flagged <==> EverCleared(events, p, k) && s == [])
            && (!a.flagged ==> a.acc == s)
  {
    if events != [] {
      AccumulatedIsSinceClear(events[..|events| - 1], p, k);
      EverClearedSnoc(events, p, k);
    }
  }

  /** Nothing from before a clear of the cell counts, whatever both processes did in the meantime. */
  lemma {:induction false} ClearForgets(before: seq<Event>, after: seq<Event>, p: Site, k: nat)
    ensures SinceClear(before + [Clear(p.id, k)] + after, p, k) == SinceClear(after, p, k)
    decreases |after|
  {
    var e := Clear(p.id, k);
    if after == [] {
      assert before + [e] + [] == before + [e] && (before + [e])[..|before|] == before;
    } else {
      FrontOfConcat(before + [e], after);
      ClearForgets(before, after[..|after| - 1], p, k);
    }
  }

  // ----- superfluous indices -----

  lemma ValueAfterWrite(events: seq<Event>, p: Site, args: seq<int>, k: nat)
    requires p.spec.Some? && p.spec.value.stat.Simple? && Given(p.spec.value.dims, args)
    ensures var spec := p.spec.value;
            Value(events + [Write(p.id, args)], p, k) ==
            if k == CellIndex(spec.dims, Indices(spec.dims, args))
            then WrittenValue(spec.stat.policy, Capacity(p.Width()), Value(events, p, k), ValueIn(spec.dims, args))
            else Value(events, p, k)
  {
    assert (events + [Write(p.id, args)])[..|events|] == events;
  }

  lemma SameWord(policy: Policy, c: nat, before: nat, x: int, y: int)
    requires c > 0
    ensures WrittenValue(policy, c, before, x) == WrittenValue(policy, c, before, y) <==> x % c == y % c
  {
    if policy.Increment? {
      RemainderOfSum(x, before, c);
      RemainderOfSum(y, before, c);
      SameRemainder(x % c, y % c, before, c);
    }
  }

  /** Superfluous indices make no difference exactly if the statistic is an array, or the first
      argument gives the same word as the value behind it: a single stat stores its first argument. */
  lemma SuperfluousIndicesMatter(events: seq<Event>, p: Site, args: seq<int>, k: nat)
    requires p.spec.Some? && p.spec.value.stat.Simple? && Given(p.spec.value.dims, args)
    ensures var dims, c := p.spec.value.dims, Capacity(p.Width());
            && Given(dims, Trimmed(dims, args))
            && (k == CellIndex(dims, Indices(dims, args)) ==>
                  (Value(events + [Write(p.id, args)], p, k) == Value(events + [Write(p.id, Trimmed(dims, args))], p, k)
                   <==> dims != [] || args[0] % c == args[|args| - 1] % c))
            && (k != CellIndex(dims, Indices(dims, args)) ==>
                  Value(events + [Write(p.id, args)], p, k) == Value(events + [Write(p.id, Trimmed(dims, args))], p, k))
  {
    var spec, c := p.spec.value, Capacity(p.Width());
    var less := Trimmed(spec.dims, args);
    SuperfluousIndices(spec.dims, args);
    ValueAfterWrite(events, p, args, k);
    ValueAfterWrite(events, p, less, k);
    SameWord(spec.stat.policy, c, Value(events, p, k), ValueIn(spec.dims, args), ValueIn(spec.dims, less));
  }

  /** A single counter that is given an index and a value adds the index. */
  lemma SuperfluousIndexIsStored(id: nat, base: nat)
    ensures var s := Site(id, Some(StatSpec(Simple(Increment, 4, true), [])), base);
            Number([Write(id, [7, 1])], s, 0) == 7 && Number([Write(id, [1])], s, 0) == 1
  {
    var s := Site(id, Some(StatSpec(Simple(Increment, 4, true), [])), base);
    FirstValue(s, [7, 1]);
    FirstValue(s, [1]);
  }

  lemma FirstValue(s: Site, args: seq<int>)
    requires s.spec == Some(StatSpec(Simple(Increment, 4, true), [])) && |args| > 0 && 0 <= args[0] < 0x8000_0000
    ensures Number([Write(s.id, args)], s, 0) == args[0]
  {
    assert Capacity(2) == 0x1_0000;
    assert [] + [Write(s.id, args)] == [Write(s.id, args)];
    ValueAfterWrite([], s, args, 0);
    RemainderIsUnique(args[0], 0x1_0000_0000, 0, args[0]);
  }

  // ----- memory -----

  /** The cell holds the summary of what was last serialized, and the control word behind it. */
  predicate AccumHolds(fs: seq<Feature>, a: AccumState, cell: seq<byte>) {
    CellIs(FeatureBytes(fs), Served(fs, a.served), a.flagged, cell)
  }

  predicate CellHolds(events: seq<Event>, mem: seq<byte>, p: Site, k: nat)
    requires p.spec.Some?
  {
    var cell := Slice(mem, p.CellBase(k), p.Width());
    match p.spec.value.stat
    case Simple(_, width, _) => cell == Encode(Value(events, p, k), width)
    case Accum(fs) => AccumHolds(fs, Accumulated(events, p, k), cell)
  }

  lemma AccumCell(events: seq<Event>, mem: seq<byte>, p: Site, k: nat, fs: seq<Feature>, a: AccumState,
                  base: nat, n: nat)
    requires p.spec.Some? && p.spec.value.stat == Accum(fs) && n == FeatureBytes(fs) && base == p.CellBase(k)
    requires a == Accumulated(events, p, k)
    ensures CellHolds(events, mem, p, k) <==>
            CellIs(n, Served(fs, a.served), a.flagged, Slice(mem, base, n + CONTROL_WORD))
  {
  }

  /** Memory holds the map's values. */
  ghost predicate Holds(events: seq<Event>, mem: seq<byte>, ps: seq<Site>) {
    forall i, k: nat :: 0 <= i < |ps| && k < ps[i].Cells() ==> CellHolds(events, mem, ps[i], k)
  }

  lemma CellWithin(ps: seq<Site>, size: nat, i: nat, k: nat)
    requires Sound(ps, size) && i < |ps| && k < ps[i].Cells()
    ensures ps[i].base <= ps[i].CellBase(k)
    ensures ps[i].CellBase(k) + ps[i].Width() <= ps[i].CellBase(ps[i].Cells()) <= size
  {
    ElementEnds(k, ps[i].Cells(), ps[i].Width());
  }

  /** Different cells, of the same or of different tags, share no byte. */
  lemma CellsAreApart(ps: seq<Site>, size: nat, i: nat, k: nat, j: nat, l: nat)
    requires Sound(ps, size) && i < |ps| && k < ps[i].Cells() && j < |ps| && l < ps[j].Cells()
    requires i != j || k != l
    ensures Apart(ps[i].CellBase(k), ps[i].Width(), ps[j].CellBase(l), ps[j].Width())
  {
    CellWithin(ps, size, i, k);
    CellWithin(ps, size, j, l);
    if i == j {
      ElementEnds(if k < l then k else l, if k < l then l else k, ps[i].Width());
    }
  }

  lemma ZeroCellHolds(mem: seq<byte>, p: Site, k: nat)
    requires p.spec.Some? && Slice(mem, p.CellBase(k), p.Width()) == Zeros(p.Width())
    ensures CellHolds([], mem, p, k)
  {
    match p.spec.value.stat
    case Simple(_, width, _) => EncodeZero(width);
    case Accum(fs) =>
      ZeroWord();
      var n := FeatureBytes(fs);
      assert Zeros(n + CONTROL_WORD)[..n] == Zeros(n) && Zeros(n + CONTROL_WORD)[n..] == Zeros(CONTROL_WORD);
  }

  lemma ZeroMemoryHolds(mem: seq<byte>, ps: seq<Site>, size: nat)
    requires Sound(ps, size) && size <= |mem| && forall b :: 0 <= b < size ==> mem[b] == 0
    ensures Holds([], mem, ps)
  {
    forall i, k: nat | 0 <= i < |ps| && k < ps[i].Cells() ensures CellHolds([], mem, ps[i], k) {
      CellWithin(ps, size, i, k);
      assert Slice(mem, ps[i].CellBase(k), ps[i].Width()) == Zeros(ps[i].Width());
      ZeroCellHolds(mem, ps[i], k);
    }
  }

  lemma EncodedValue(v: nat, width: nat)
    requires v < Capacity(width)
    ensures Decode(Encode(v, width)) == v
  {
    DecodeEncode(v, width);
    RemainderIsUnique(v, Capacity(width), 0, v);
  }

  // ----- events that change one cell -----

  /** The event is a write to, or a serialization or clear of, cell `k` of the site. */
  predicate Touches(e: Event, p: Site, k: nat) {
    IsWriteTo(e, p, k) || IsSerializationOf(e, p, k) || IsClearOf(e, p, k)
  }

  /** An event that touches one cell and changes bytes of that cell only keeps the rest of the map. */
  lemma OneCellChanges(events: seq<Event>, e: Event, mem: seq<byte>, ps: seq<Site>, size: nat, i: nat, k: nat, at: nat,
                       t: seq<byte>)
    requires Sound(ps, size) && size <= |mem| && Holds(events, mem, ps)
    requires i < |ps| && k < ps[i].Cells() && Touches(e, ps[i], k)
    requires ps[i].CellBase(k) <= at && at + |t| <= ps[i].CellBase(k) + ps[i].Width()
    requires CellHolds(events + [e], Overlay(mem, at, t), ps[i], k)
    ensures Holds(events + [e], Overlay(mem, at, t), ps)
  {
    CellWithin(ps, size, i, k);
    forall j, l: nat | 0 <= j < |ps| && l < ps[j].Cells()
      ensures CellHolds(events + [e], Overlay(mem, at, t), ps[j], l)
    {
      if j != i || l != k {
        assert CellHolds(events, mem, ps[j], l);
        CellsAreApart(ps, size, j, l, i, k);
        OtherCellHolds(events, e, mem, ps[j], l, ps[i], k, at, t);
      }
    }
  }

  lemma OtherCellHolds(events: seq<Event>, e: Event, mem: seq<byte>, p: Site, l: nat, q: Site, k: nat, at: nat,
                       t: seq<byte>)
    requires p.spec.Some? && CellHolds(events, mem, p, l) && at + |t| <= |mem|
    requires Touches(e, q, k) && (p.id != q.id || (p == q && k != l))
    requires q.CellBase(k) <= at && at + |t| <= q.CellBase(k) + q.Width()
    requires Apart(p.CellBase(l), p.Width(), q.CellBase(k), q.Width())
    ensures CellHolds(events + [e], Overlay(mem, at, t), p, l)
  {
    SliceOfOverlay(mem, at, t, p.CellBase(l), p.Width());
    UntouchedHolds(events, e, mem, Overlay(mem, at, t), p, l);
  }

  lemma UntouchedHolds(events: seq<Event>, e: Event, mem: seq<byte>, mem': seq<byte>, p: Site, k: nat)
    requires p.spec.Some? && CellHolds(events, mem, p, k) && !Touches(e, p, k)
    requires Slice(mem', p.CellBase(k), p.Width()) == Slice(mem, p.CellBase(k), p.Width())
    ensures CellHolds(events + [e], mem', p, k)
  {
    assert (events + [e])[..|events|] == events;
  }

  /** A write at a cell changes the map at that tag and path only. */
  lemma WriteHolds(events: seq<Event>, mem: seq<byte>, ps: seq<Site>, size: nat, i: nat, args: seq<int>)
    requires Sound(ps, size) && size <= |mem| && Holds(events, mem, ps) && i < |ps|
    requires ps[i].spec.Some? && ps[i].spec.value.stat.Simple? && Given(ps[i].spec.value.dims, args)
    ensures var spec, w := ps[i].spec.value, ps[i].Width();
            var at := CellAddress(ps[i].base, spec.dims, Indices(spec.dims, args), w);
            Holds(events + [Write(ps[i].id, args)],
                  WrittenTo(mem, at, spec.stat.policy, w, ValueIn(spec.dims, args)), ps)
  {
    var spec, w := ps[i].spec.value, ps[i].Width();
    var k := CellIndex(spec.dims, Indices(spec.dims, args));
    CellIndexBound(spec.dims, Indices(spec.dims, args));
    var at := ps[i].CellBase(k);
    CellWithin(ps, size, i, k);
    var t := Written(spec.stat.policy, Slice(mem, at, w), ValueIn(spec.dims, args));
    assert CellHolds(events, mem, ps[i], k);
    EncodedValue(Value(events, ps[i], k), w);
    ValueAfterWrite(events, ps[i], args, k);
    SliceOverlaid(mem, at, t);
    OneCellChanges(events, Write(ps[i].id, args), mem, ps, size, i, k, at, t);
  }

  lemma ClearedCellHolds(events: seq<Event>, cell: seq<byte>, mem': seq<byte>, p: Site, k: nat)
    requires p.spec.Some? && Slice(mem', p.CellBase(k), p.Width()) == Cleared(p.spec.value.stat, cell)
    requires p.spec.value.stat.Accum? ==> AccumHolds(p.spec.value.stat.features, Accumulated(events, p, k), cell)
    ensures CellHolds(events + [Clear(p.id, k)], mem', p, k)
  {
    assert (events + [Clear(p.id, k)])[..|events|] == events;
    match p.spec.value.stat
    case Simple(_, width, _) => EncodeZero(width);
    case Accum(fs) => ClearSetsWord(fs, cell);
  }

  /** Clearing one cell zeroes a simple stat in the map or sets the control word of an accumulator, and
      leaves the rest of the map alone. */
  lemma CellClearHolds(events: seq<Event>, mem: seq<byte>, ps: seq<Site>, size: nat, i: nat, k: nat)
    requires Sound(ps, size) && size <= |mem| && Holds(events, mem, ps) && i < |ps| && k < ps[i].Cells()
    ensures var at, w := ps[i].CellBase(k), ps[i].Width();
            Holds(events + [Clear(ps[i].id, k)],
                  Overlay(mem, at, Cleared(ps[i].spec.value.stat, Slice(mem, at, w))), ps)
  {
    var at, w, e := ps[i].CellBase(k), ps[i].Width(), Clear(ps[i].id, k);
    var cell := Slice(mem, at, w);
    var t := Cleared(ps[i].spec.value.stat, cell);
    CellWithin(ps, size, i, k);
    assert CellHolds(events, mem, ps[i], k);
    SliceOverlaid(mem, at, t);
    ClearedCellHolds(events, cell, Overlay(mem, at, t), ps[i], k);
    OneCellChanges(events, e, mem, ps, size, i, k, at, t);
  }

  /** Where the control word of a cell lies. */
  function WordBase(p: Site, fs: seq<Feature>, k: nat): nat {
    p.CellBase(k) + FeatureBytes(fs)
  }

  lemma CellParts(mem: seq<byte>, at: nat, n: nat, w: nat)
    requires at + n + w <= |mem|
    ensures Slice(mem, at, n + w)[..n] == Slice(mem, at, n) && Slice(mem, at, n + w)[n..] == Slice(mem, at + n, w)
  {
  }

  /** Replacing the front of a cell keeps its end. */
  lemma FrontReplaced(mem: seq<byte>, at: nat, t: seq<byte>, w: nat)
    requires at + |t| + w <= |mem|
    ensures var r := Slice(Overlay(mem, at, t), at, |t| + w);
            r[..|t|] == t && r[|t|..] == Slice(mem, at, |t| + w)[|t|..]
  {
    CellParts(mem, at, |t|, w);
    CellParts(Overlay(mem, at, t), at, |t|, w);
    SliceOverlaid(mem, at, t);
    SliceOfOverlay(mem, at, t, at + |t|, w);
  }

  /** Replacing the end of a cell keeps its front. */
  lemma EndReplaced(mem: seq<byte>, at: nat, n: nat, t: seq<byte>)
    requires at + n + |t| <= |mem|
    ensures var r := Slice(Overlay(mem, at + n, t), at, n + |t|);
            r[..n] == Slice(mem, at, n + |t|)[..n] && r[n..] == t
  {
    CellParts(mem, at, n, |t|);
    CellParts(Overlay(mem, at + n, t), at, n, |t|);
    SliceOverlaid(mem, at + n, t);
    SliceOfOverlay(mem, at + n, t, at, n);
  }

  /** The control word in memory says whether the accumulator is to be reset. */
  lemma WordInMemory(events: seq<Event>, mem: seq<byte>, ps: seq<Site>, size: nat, i: nat, k: nat)
    requires Sound(ps, size) && size <= |mem| && Holds(events, mem, ps)
    requires i < |ps| && k < ps[i].Cells() && ps[i].spec.value.stat.Accum?
    ensures var fs := ps[i].spec.value.stat.features;
            Decode(Slice(mem, WordBase(ps[i], fs, k), CONTROL_WORD)) != 0 <==> Accumulated(events, ps[i], k).flagged
  {
    CellWithin(ps, size, i, k);
    assert CellHolds(events, mem, ps[i], k);
    CellParts(mem, ps[i].CellBase(k), FeatureBytes(ps[i].spec.value.stat.features), CONTROL_WORD);
  }

  /** A write to an accumulator whose control word is zero changes no memory, and otherwise zeroes
      the word. */
  lemma AccumWriteHolds(events: seq<Event>, mem: seq<byte>, ps: seq<Site>, size: nat, i: nat, k: nat, args: seq<int>)
    requires Sound(ps, size) && size <= |mem| && Holds(events, mem, ps)
    requires i < |ps| && k < ps[i].Cells() && ps[i].spec.value.stat.Accum?
    requires IsWriteTo(Write(ps[i].id, args), ps[i], k)
    ensures var at := WordBase(ps[i], ps[i].spec.value.stat.features, k);
            Holds(events + [Write(ps[i].id, args)],
                  if Accumulated(events, ps[i], k).flagged then Overlay(mem, at, Zeros(CONTROL_WORD)) else mem,
                  ps)
  {
    var fs, flagged := ps[i].spec.value.stat.features, Accumulated(events, ps[i], k).flagged;
    WordChanges(events, mem, ps, size, i, k, Write(ps[i].id, args), ps[i].CellBase(k), FeatureBytes(fs),
                if flagged then Zeros(CONTROL_WORD) else [], WordBase(ps[i], fs, k));
    LaidIf(mem, WordBase(ps[i], fs, k), flagged);
  }

  lemma LaidIf(mem: seq<byte>, at: nat, flagged: bool)
    ensures Overlay(mem, at, if flagged then Zeros(CONTROL_WORD) else []) ==
            if flagged then Overlay(mem, at, Zeros(CONTROL_WORD)) else mem
  {
    NothingLaid(mem, at);
  }

  lemma WordChanges(events: seq<Event>, mem: seq<byte>, ps: seq<Site>, size: nat, i: nat, k: nat, e: Event, base: nat,
                    n: nat, t: seq<byte>, at: nat)
    requires Sound(ps, size) && size <= |mem| && Holds(events, mem, ps)
    requires i < |ps| && k < ps[i].Cells() && ps[i].spec.value.stat.Accum? && IsWriteTo(e, ps[i], k)
    requires base == ps[i].CellBase(k) && n == FeatureBytes(ps[i].spec.value.stat.features) && at == base + n
    requires t == if Accumulated(events, ps[i], k).flagged then Zeros(CONTROL_WORD) else []
    ensures Holds(events + [e], Overlay(mem, at, t), ps)
  {
    CellWithin(ps, size, i, k);
    assert CellHolds(events, mem, ps[i], k);
    WrittenAccumHolds(events, mem, ps[i], k, e, base, n, t);
    OneCellChanges(events, e, mem, ps, size, i, k, at, t);
  }

  lemma AccumAfterWrite(events: seq<Event>, e: Event, p: Site, k: nat)
    requires IsWriteTo(e, p, k)
    ensures var a := Accumulated(events, p, k);
            Accumulated(events + [e], p, k) ==
            a.(acc := (if a.flagged then [] else a.acc) + [ValueIn(p.spec.value.dims, e.args)], flagged := false)
  {
    assert (events + [e])[..|events|] == events;
  }

  lemma WrittenAccumHolds(events: seq<Event>, mem: seq<byte>, p: Site, k: nat, e: Event, base: nat, n: nat,
                          t: seq<byte>)
    requires p.spec.Some? && p.spec.value.stat.Accum? && n == FeatureBytes(p.spec.value.stat.features)
    requires base == p.CellBase(k) && base + n + CONTROL_WORD <= |mem|
    requires CellHolds(events, mem, p, k) && IsWriteTo(e, p, k)
    requires t == if Accumulated(events, p, k).flagged then Zeros(CONTROL_WORD) else []
    ensures CellHolds(events + [e], Overlay(mem, base + n, t), p, k)
  {
    var fs, a := p.spec.value.stat.features, Accumulated(events, p, k);
    AccumAfterWrite(events, e, p, k);
    AccumCell(events, mem, p, k, fs, a, base, n);
    WordZeroed(n, Served(fs, a.served), a.flagged, mem, base, t);
    AccumCell(events + [e], Overlay(mem, base + n, t), p, k, fs, Accumulated(events + [e], p, k), base, n);
  }

  lemma NothingLaid(mem: seq<byte>, at: nat)
    ensures Overlay(mem, at, []) == mem
  {
  }

  lemma WordZeroed(n: nat, summary: seq<byte>, flagged: bool, mem: seq<byte>, base: nat, t: seq<byte>)
    requires base + n + CONTROL_WORD <= |mem| && t == if flagged then Zeros(CONTROL_WORD) else []
    requires CellIs(n, summary, flagged, Slice(mem, base, n + CONTROL_WORD))
    ensures CellIs(n, summary, false, Slice(Overlay(mem, base + n, t), base, n + CONTROL_WORD))
  {
    if flagged {
      EndReplaced(mem, base, n, t);
      ZeroWord();
    } else {
      NothingLaid(mem, base + n);
    }
  }

  lemma ServedCellHolds(events: seq<Event>, mem: seq<byte>, p: Site, k: nat, fs: seq<Feature>, base: nat, n: nat,
                        text: seq<byte>)
    requires p.spec.Some? && p.spec.value.stat == Accum(fs) && n == FeatureBytes(fs) && base == p.CellBase(k)
    requires base + n + CONTROL_WORD <= |mem| && CellHolds(events, mem, p, k)
    requires text == Summary(fs, Accumulated(events, p, k).acc)
    ensures CellHolds(events + [Serialize(p.id, k)], Overlay(mem, base, text), p, k)
  {
    var a, e := Accumulated(events, p, k), Serialize(p.id, k);
    assert (events + [e])[..|events|] == events;
    AccumCell(events, mem, p, k, fs, a, base, n);
    FrontReplaced(mem, base, text, CONTROL_WORD);
    AccumCell(events + [e], Overlay(mem, base, text), p, k, fs, a.(served := Some(a.acc)), base, n);
  }

  /** Serializing an accumulator replaces the summary at the front of its cell. */
  lemma SerializeHolds(events: seq<Event>, mem: seq<byte>, ps: seq<Site>, size: nat, i: nat, k: nat)
    requires Sound(ps, size) && size <= |mem| && Holds(events, mem, ps)
    requires i < |ps| && k < ps[i].Cells() && ps[i].spec.value.stat.Accum?
    ensures var text := Summary(ps[i].spec.value.stat.features, Accumulated(events, ps[i], k).acc);
            Holds(events + [Serialize(ps[i].id, k)], Overlay(mem, ps[i].CellBase(k), text), ps)
  {
    var fs := ps[i].spec.value.stat.features;
    var text := Summary(fs, Accumulated(events, ps[i], k).acc);
    CellWithin(ps, size, i, k);
    assert CellHolds(events, mem, ps[i], k);
    ServedCellHolds(events, mem, ps[i], k, fs, ps[i].CellBase(k), FeatureBytes(fs), text);
    OneCellChanges(events, Serialize(ps[i].id, k), mem, ps, size, i, k, ps[i].CellBase(k), text);
  }
}
