/** What a command does to the statistics below a path: what a dump shows, what a clear zeroes. */
module StatCommands {
  import opened Bytes
  import opened Sequences
  import opened Text
  import opened IndexCodec
  import opened StatCell
  import opened StatArray
  import opened Accumulator
  import opened TagTree
  import opened Layout
  import opened StatMemory
  import opened Printer

  predicate IsStatisticCommand(cmd: StatCmd) {
    cmd in {PrintStatType, DumpStat, ClearStat, DumpTimeSeries, PrintTag}
  }

  /** Memory, and what the printer was given so far. */
  datatype Sent = Sent(mem: seq<byte>, displays: seq<Display<Answer>>)

  function InfoOf(n: Node<StatSpec>): TagInfo {
    TagInfo(if n.path == [] then "" else n.path[|n.path| - 1], n.id, n.depth)
  }

  function SiteCells(s: Site): seq<nat> {
    Addresses(s.base, s.Cells(), s.Width())
  }

  /** A command to the statistic at a site; parents ignore it. */
  function Commanded(mem: seq<byte>, s: Site, cmd: StatCmd): (v: View)
    ensures |v.mem| == |mem|
  {
    if s.spec.None? then View(mem, [], "")
    else if cmd == PrintStatType then View(mem, [], ArrayTitle(s.spec.value.dims, ReprOf(s.spec.value.stat)))
    else VisitAll(View(mem, [], ""), SiteCells(s), ReprOf(s.spec.value.stat), cmd)
  }

  function AnswerTo(mem: seq<byte>, s: Site, cmd: StatCmd): Answer {
    var v := Commanded(mem, s, cmd);
    Answer(v.title, v.entries, if s.spec.Some? then s.spec.value.dims else [])
  }

  /** A command to one tag: its statistic acts on it and its answer goes to the printer. */
  function SendTo(v: Sent, ps: seq<Site>, n: Node<StatSpec>, cmd: StatCmd, selector: string): (r: Sent)
    requires Known(ps, n.id)
    ensures |r.mem| == |v.mem|
  {
    var s := ps[IndexOf(ps, n.id)];
    Sent(Commanded(v.mem, s, cmd).mem, v.displays + [Display(InfoOf(n), selector, AnswerTo(v.mem, s, cmd))])
  }

  ghost predicate AllKnown(ps: seq<Site>, nodes: seq<Node<StatSpec>>) {
    forall i :: 0 <= i < |nodes| ==> Known(ps, nodes[i].id)
  }

  function SendAll(v: Sent, ps: seq<Site>, nodes: seq<Node<StatSpec>>, cmd: StatCmd, selector: string): (r: Sent)
    requires AllKnown(ps, nodes)
    ensures |r.mem| == |v.mem|
  {
    if nodes == [] then v
    else SendTo(SendAll(v, ps, nodes[..|nodes| - 1], cmd, selector), ps, nodes[|nodes| - 1], cmd, selector)
  }

  lemma {:induction false} SendAllConcat(v: Sent, ps: seq<Site>, a: seq<Node<StatSpec>>, b: seq<Node<StatSpec>>,
                                         cmd: StatCmd, selector: string)
    requires AllKnown(ps, a) && AllKnown(ps, b)
    ensures AllKnown(ps, a + b)
    ensures SendAll(SendAll(v, ps, a, cmd, selector), ps, b, cmd, selector) == SendAll(v, ps, a + b, cmd, selector)
    decreases |b|
  {
    if b == [] {
      assert a + b == a;
    } else {
      FrontOfConcat(a, b);
      SendAllConcat(v, ps, a, b[..|b| - 1], cmd, selector);
    }
  }

  lemma SendOne(v: Sent, ps: seq<Site>, n: Node<StatSpec>, cmd: StatCmd, selector: string)
    requires Known(ps, n.id)
    ensures SendAll(v, ps, [n], cmd, selector) == SendTo(v, ps, n, cmd, selector)
  {
    assert [n][..0] == [];
  }

  // ----- dumps -----

  function DisplayOf(mem: seq<byte>, ps: seq<Site>, n: Node<StatSpec>, cmd: StatCmd, selector: string): Display<Answer>
    requires Known(ps, n.id)
  {
    Display(InfoOf(n), selector, AnswerTo(mem, ps[IndexOf(ps, n.id)], cmd))
  }

  function DisplaysOf(mem: seq<byte>, ps: seq<Site>, nodes: seq<Node<StatSpec>>, cmd: StatCmd, selector: string)
    : (r: seq<Display<Answer>>)
    requires AllKnown(ps, nodes)
    ensures |r| == |nodes|
    ensures forall i :: 0 <= i < |nodes| ==> r[i] == DisplayOf(mem, ps, nodes[i], cmd, selector)
  {
    seq(|nodes|, i requires 0 <= i < |nodes| => DisplayOf(mem, ps, nodes[i], cmd, selector))
  }

  lemma OnlyClearsChange(mem: seq<byte>, s: Site, cmd: StatCmd)
    requires cmd != ClearStat
    ensures Commanded(mem, s, cmd).mem == mem
  {
    if s.spec.Some? && cmd != PrintStatType {
      OthersKeepMemory(View(mem, [], ""), SiteCells(s), ReprOf(s.spec.value.stat), cmd);
    }
  }

  lemma {:induction false} OthersKeepMemory(v: View, addrs: seq<nat>, repr: Repr, cmd: StatCmd)
    requires cmd != ClearStat
    ensures VisitAll(v, addrs, repr, cmd).mem == v.mem
    decreases |addrs|
  {
    if addrs != [] {
      OthersKeepMemory(v, addrs[..|addrs| - 1], repr, cmd);
    }
  }

  lemma DisplaysSnoc(mem: seq<byte>, ps: seq<Site>, nodes: seq<Node<StatSpec>>, cmd: StatCmd, selector: string)
    requires AllKnown(ps, nodes) && nodes != []
    ensures DisplaysOf(mem, ps, nodes, cmd, selector) ==
            DisplaysOf(mem, ps, nodes[..|nodes| - 1], cmd, selector)
            + [DisplayOf(mem, ps, nodes[|nodes| - 1], cmd, selector)]
  {
  }

  /** Commands other than a clear leave memory alone and give the printer one answer per tag. */
  lemma {:induction false} SendingShows(v: Sent, ps: seq<Site>, nodes: seq<Node<StatSpec>>, cmd: StatCmd,
                                        selector: string)
    requires AllKnown(ps, nodes) && cmd != ClearStat
    ensures SendAll(v, ps, nodes, cmd, selector) ==
            Sent(v.mem, v.displays + DisplaysOf(v.mem, ps, nodes, cmd, selector))
    decreases |nodes|
  {
    if nodes == [] {
      assert v.displays + [] == v.displays;
    } else {
      var front, n := nodes[..|nodes| - 1], nodes[|nodes| - 1];
      SendingShows(v, ps, front, cmd, selector);
      OnlyClearsChange(v.mem, ps[IndexOf(ps, n.id)], cmd);
      DisplaysSnoc(v.mem, ps, nodes, cmd, selector);
      ConcatIsAssociative(v.displays, DisplaysOf(v.mem, ps, front, cmd, selector),
                          [DisplayOf(v.mem, ps, n, cmd, selector)]);
    }
  }

  /** The title of a dump whose last cell is `last`. */
  function DumpTitle(mem: seq<byte>, s: Site, last: nat): string
    requires s.spec.Some?
  {
    TitleIn(s.spec.value.stat, Slice(mem, s.CellBase(last), s.Width()))
  }

  lemma ReprShows(stat: Stat, repr: Repr, cell: seq<byte>)
    requires repr == ReprOf(stat)
    ensures repr.size == CellSize(stat) && repr.show(cell) == Shown(stat, cell)
    ensures repr.TitleOr("", cell) == TitleIn(stat, cell)
  {
  }

  lemma SiteCellAt(s: Site, k: nat)
    requires k < s.Cells()
    ensures |SiteCells(s)| == s.Cells() && SiteCells(s)[k] == s.CellBase(k)
  {
  }

  lemma AnswerIsView(mem: seq<byte>, s: Site, addrs: seq<nat>, repr: Repr)
    requires s.spec.Some? && addrs == SiteCells(s) && repr == ReprOf(s.spec.value.stat)
    ensures var v := VisitAll(View(mem, [], ""), addrs, repr, DumpStat);
            AnswerTo(mem, s, DumpStat) == Answer(v.title, v.entries, s.spec.value.dims)
  {
  }

  lemma EntryOfDump(mem: seq<byte>, s: Site, k: nat, last: nat)
    requires s.spec.Some? && SpecOk(s.spec.value) && k < s.Cells() && last == s.Cells() - 1
    ensures var a, dims := AnswerTo(mem, s, DumpStat), s.spec.value.dims;
            && |a.entries| == s.Cells() == Count(dims) && a.dims == dims && a.title == DumpTitle(mem, s, last)
            && a.entries[k] == Shown(s.spec.value.stat, Slice(mem, s.CellBase(k), s.Width()))
            && InBounds(IndexPath(dims, k), dims) && CellIndex(dims, IndexPath(dims, k)) == k
  {
    CellOfIndexPath(s.spec.value.dims, k);
    SiteCellAt(s, k);
    SiteCellAt(s, last);
    ReprShows(s.spec.value.stat, ReprOf(s.spec.value.stat), Slice(mem, s.CellBase(k), s.Width()));
    ReprShows(s.spec.value.stat, ReprOf(s.spec.value.stat), Slice(mem, s.CellBase(last), s.Width()));
    EntryOfCells(mem, s, SiteCells(s), ReprOf(s.spec.value.stat), k, last,
                 Slice(mem, s.CellBase(k), s.Width()), Slice(mem, s.CellBase(last), s.Width()));
  }

  lemma EntryOfCells(mem: seq<byte>, s: Site, addrs: seq<nat>, repr: Repr, k: nat, last: nat,
                     cell: seq<byte>, end: seq<byte>)
    requires s.spec.Some? && addrs == SiteCells(s) && repr == ReprOf(s.spec.value.stat)
    requires k < |addrs| && last == |addrs| - 1
    requires cell == Slice(mem, addrs[k], repr.size) && end == Slice(mem, addrs[last], repr.size)
    ensures var a := AnswerTo(mem, s, DumpStat);
            |a.entries| == |addrs| && a.dims == s.spec.value.dims
            && a.title == repr.TitleOr("", end) && a.entries[k] == repr.show(cell)
  {
    AnswerIsView(mem, s, addrs, repr);
    DumpOfElements(mem, addrs, repr, repr.size, k, cell, end);
  }

  /** The dump of a simple stat: entry `k` is the number the map holds for the path the printer
      decodes from `k`, converted to `unsigned long`. */
  lemma DumpShowsMap(events: seq<Event>, mem: seq<byte>, ps: seq<Site>, i: nat, k: nat)
    requires Holds(events, mem, ps) && i < |ps| && k < ps[i].Cells()
    requires ps[i].spec.value.stat.Simple? && SpecOk(ps[i].spec.value)
    ensures var a, dims := AnswerTo(mem, ps[i], DumpStat), ps[i].spec.value.dims;
            && |a.entries| == Count(dims) && a.dims == dims && a.title == ""
            && a.entries[k] == NumText(Unsigned(Number(events, ps[i], k)))
            && InBounds(IndexPath(dims, k), dims) && CellIndex(dims, IndexPath(dims, k)) == k
  {
    EntryOfDump(mem, ps[i], k, ps[i].Cells() - 1);
    assert CellHolds(events, mem, ps[i], k);
    EncodedValue(Value(events, ps[i], k), ps[i].Width());
  }

  lemma CapacityGrows(w: nat)
    requires w <= 8
    ensures Capacity(w) <= UNSIGNED_LONG
  {
    assert Capacity(2) == 0x1_0000 && Capacity(4) == 0x1_0000_0000;
    assert Capacity(6) == 0x1_0000_0000_0000 && Capacity(8) == UNSIGNED_LONG;
  }

  /** A dump shows the number the map holds exactly if that is not negative. */
  lemma DumpIsExactUnlessNegative(events: seq<Event>, mem: seq<byte>, ps: seq<Site>, i: nat, k: nat)
    requires Holds(events, mem, ps) && i < |ps| && k < ps[i].Cells()
    requires ps[i].spec.value.stat.Simple? && SpecOk(ps[i].spec.value)
    ensures k < |AnswerTo(mem, ps[i], DumpStat).entries|
    ensures var x := Number(events, ps[i], k);
            AnswerTo(mem, ps[i], DumpStat).entries[k] == IntText(x) <==> x >= 0
  {
    DumpShowsMap(events, mem, ps, i, k);
    CapacityGrows(ps[i].Width());
    PrintedExactly(Number(events, ps[i], k));
  }

  /** What an accumulator's entry shows: zeros from a clear until the next write, and otherwise the
      features of the samples that were held when it was last serialized. */
  function AccumText(fs: seq<Feature>, a: AccumState): string {
    Texts(fs, if a.flagged then ZeroWords(|fs|) else ServedWords(fs, a.served))
  }

  lemma AccumCellShows(events: seq<Event>, mem: seq<byte>, p: Site, k: nat, fs: seq<Feature>, a: AccumState)
    requires p.spec.Some? && p.spec.value.stat == Accum(fs) && a == Accumulated(events, p, k)
    requires CellHolds(events, mem, p, k)
    ensures var cell := Slice(mem, p.CellBase(k), p.Width());
            && Shown(Accum(fs), cell) == AccumText(fs, a)
            && Titles(fs, Words(fs, cell)) == Titles(fs, ServedWords(fs, a.served))
  {
    CellShows(fs, a.served, a.flagged, Slice(mem, p.CellBase(k), p.Width()));
  }

  /** The dump of an accumulator: every entry is the cell's, and the title is made from what the last
      cell was served with, whether its control word is set or not. */
  lemma DumpShowsAccumulator(events: seq<Event>, mem: seq<byte>, ps: seq<Site>, i: nat, k: nat)
    requires Holds(events, mem, ps) && i < |ps| && k < ps[i].Cells()
    requires ps[i].spec.value.stat.Accum? && SpecOk(ps[i].spec.value)
    ensures var a, dims := AnswerTo(mem, ps[i], DumpStat), ps[i].spec.value.dims;
            var fs, last := ps[i].spec.value.stat.features, Accumulated(events, ps[i], ps[i].Cells() - 1);
            && |a.entries| == Count(dims) && a.dims == dims && a.title == Titles(fs, ServedWords(fs, last.served))
            && a.entries[k] == AccumText(fs, Accumulated(events, ps[i], k))
            && InBounds(IndexPath(dims, k), dims) && CellIndex(dims, IndexPath(dims, k)) == k
  {
    var p, fs, last := ps[i], ps[i].spec.value.stat.features, ps[i].Cells() - 1;
    EntryOfDump(mem, p, k, last);
    assert CellHolds(events, mem, p, k) && CellHolds(events, mem, p, last);
    AccumCellShows(events, mem, p, k, fs, Accumulated(events, p, k));
    AccumCellShows(events, mem, p, last, fs, Accumulated(events, p, last));
  }

  // ----- clears -----

  /** The bytes from `at` on that no cell of the site touches. */
  predicate OutsideSite(s: Site, at: nat, n: nat) {
    at + n <= s.base || s.CellBase(s.Cells()) <= at
  }

  lemma SiteIsSpaced(s: Site, size: nat)
    requires s.CellBase(s.Cells()) <= size
    ensures Spaced(SiteCells(s), s.Width(), size)
  {
    AddressesAreSpaced(s.base, s.Cells(), s.Width(), size);
  }

  /** A clear of one tag changes no byte outside its cells. */
  lemma ClearKeepsOutside(mem: seq<byte>, s: Site, at: nat, n: nat)
    requires s.CellBase(s.Cells()) <= |mem| && OutsideSite(s, at, n)
    ensures Slice(Commanded(mem, s, ClearStat).mem, at, n) == Slice(mem, at, n)
  {
    if s.spec.Some? {
      SiteIsSpaced(s, |mem|);
      forall k | 0 <= k < s.Cells() ensures Apart(at, n, SiteCells(s)[k], s.Width()) {
        ElementEnds(k, s.Cells(), s.Width());
      }
      ClearLeavesRest(View(mem, [], ""), SiteCells(s), ReprOf(s.spec.value.stat), at, n);
    }
  }

  /** A clear of one tag clears each of its cells. */
  lemma ClearOfSite(mem: seq<byte>, s: Site, k: nat)
    requires s.CellBase(s.Cells()) <= |mem| && k < s.Cells()
    ensures Slice(Commanded(mem, s, ClearStat).mem, s.CellBase(k), s.Width()) ==
            Cleared(s.spec.value.stat, Slice(mem, s.CellBase(k), s.Width()))
  {
    SiteIsSpaced(s, |mem|);
    SiteCellAt(s, k);
    ClearsOfCells(View(mem, [], ""), SiteCells(s), s.spec.value.stat, ReprOf(s.spec.value.stat), k);
  }

  lemma ClearsOfCells(v: View, addrs: seq<nat>, stat: Stat, repr: Repr, k: nat)
    requires repr == ReprOf(stat) && Spaced(addrs, CellSize(stat), |v.mem|) && k < |addrs|
    ensures Slice(VisitAll(v, addrs, repr, ClearStat).mem, addrs[k], CellSize(stat)) ==
            Cleared(stat, Slice(v.mem, addrs[k], CellSize(stat)))
  {
    ClearClearsAll(v, addrs, repr, k);
  }

  ghost predicate Among(nodes: seq<Node<StatSpec>>, id: nat) {
    exists j :: 0 <= j < |nodes| && nodes[j].id == id
  }

  lemma AmongSnoc(nodes: seq<Node<StatSpec>>, id: nat)
    requires nodes != []
    ensures Among(nodes, id) <==> Among(nodes[..|nodes| - 1], id) || nodes[|nodes| - 1].id == id
  {
    var front := nodes[..|nodes| - 1];
    if Among(front, id) {
      var j :| 0 <= j < |front| && front[j].id == id;
      assert nodes[j].id == id;
    }
  }

  lemma SiteOutsideSite(ps: seq<Site>, size: nat, i: nat, k: nat, j: nat)
    requires Sound(ps, size) && i < |ps| && k < ps[i].Cells() && j < |ps| && i != j
    ensures OutsideSite(ps[j], ps[i].CellBase(k), ps[i].Width())
  {
    CellWithin(ps, size, i, k);
  }

  /** A clear sent to a list of tags clears every cell of these tags, once, and no cell of others. */
  lemma {:induction false} ClearReachesExactly(v: Sent, ps: seq<Site>, size: nat, nodes: seq<Node<StatSpec>>,
                                               selector: string, i: nat, k: nat)
    requires Sound(ps, size) && size <= |v.mem| && AllKnown(ps, nodes) && DifferentIds(nodes)
    requires i < |ps| && k < ps[i].Cells()
    ensures var at, w := ps[i].CellBase(k), ps[i].Width();
            var before := Slice(v.mem, at, w);
            Slice(SendAll(v, ps, nodes, ClearStat, selector).mem, at, w) ==
            if Among(nodes, ps[i].id) then Cleared(ps[i].spec.value.stat, before) else before
    decreases |nodes|
  {
    if nodes != [] {
      var front, n := nodes[..|nodes| - 1], nodes[|nodes| - 1];
      var w := SendAll(v, ps, front, ClearStat, selector);
      var j := IndexOf(ps, n.id);
      ClearReachesExactly(v, ps, size, front, selector, i, k);
      AmongSnoc(nodes, ps[i].id);
      if i == j {
        ClearOfSite(w.mem, ps[i], k);
      } else {
        SiteOutsideSite(ps, size, i, k, j);
        ClearKeepsOutside(w.mem, ps[j], ps[i].CellBase(k), ps[i].Width());
      }
    }
  }

  /** No byte behind the statistics changes, whatever is cleared. */
  lemma {:induction false} ClearKeepsRest(v: Sent, ps: seq<Site>, size: nat, nodes: seq<Node<StatSpec>>,
                                          selector: string, at: nat, n: nat)
    requires Sound(ps, size) && size <= |v.mem| && AllKnown(ps, nodes) && size <= at
    ensures Slice(SendAll(v, ps, nodes, ClearStat, selector).mem, at, n) == Slice(v.mem, at, n)
    decreases |nodes|
  {
    if nodes != [] {
      var front := nodes[..|nodes| - 1];
      ClearKeepsRest(v, ps, size, front, selector, at, n);
      var w := SendAll(v, ps, front, ClearStat, selector);
      ClearKeepsOutside(w.mem, ps[IndexOf(ps, nodes[|nodes| - 1].id)], at, n);
    }
  }

  lemma {:induction false} FilterIsWithin<A>(s: seq<A>, keep: A -> bool, i: nat)
    requires i < |Filter(s, keep)|
    ensures Filter(s, keep)[i] in s
  {
    var first := if keep(s[0]) then [s[0]] else [];
    if i >= |first| {
      FilterIsWithin(s[1..], keep, i - |first|);
    }
  }

  lemma {:induction false} FilterKeepsDifferent<T>(s: seq<Node<T>>, keep: Node<T> -> bool)
    requires DifferentIds(s)
    ensures DifferentIds(Filter(s, keep))
  {
    if s != [] {
      FilterKeepsDifferent(s[1..], keep);
      var rest := Filter(s[1..], keep);
      forall i | 0 <= i < |rest| ensures rest[i].id != s[0].id {
        FilterIsWithin(s[1..], keep, i);
        var j :| 0 <= j < |s[1..]| && s[1..][j] == rest[i];
        assert s[j + 1] == rest[i];
      }
    }
  }

  /** The tags a path addresses are known, and none is addressed twice. */
  lemma RoutedAreKnown(tree: Tree<StatSpec>, ps: seq<Site>, path: string)
    requires TreeOk(tree) && Knows(ps, Preorder(tree, [], 0))
    ensures var nodes := Routed(tree, [], 0, path); AllKnown(ps, nodes) && DifferentIds(nodes)
  {
    RouteIsAddressed(tree, [], 0, path);
    var all, keep := Preorder(tree, [], 0), Addressed<StatSpec>(path, 0);
    var nodes := Filter(all, keep);
    FilterKeepsDifferent(all, keep);
    forall i | 0 <= i < |nodes| ensures Known(ps, nodes[i].id) {
      FilterIsWithin(all, keep, i);
    }
  }

  // ----- clears in the map -----

  /** One clear for each of the first `n` cells of a tag. */
  function SiteClears(id: nat, n: nat): seq<Event> {
    if n == 0 then [] else SiteClears(id, n - 1) + [Clear(id, n - 1)]
  }

  /** What a clear sent to a list of tags amounts to, cell by cell. */
  function NodeClears(ps: seq<Site>, nodes: seq<Node<StatSpec>>): seq<Event>
    requires AllKnown(ps, nodes)
  {
    if nodes == [] then []
    else
      var n := nodes[|nodes| - 1];
      NodeClears(ps, nodes[..|nodes| - 1]) + SiteClears(n.id, ps[IndexOf(ps, n.id)].Cells())
  }

  lemma NextClear(v: View, p: Site, repr: Repr, m: nat)
    requires p.spec.Some? && repr == ReprOf(p.spec.value.stat)
    ensures var before := VisitAll(v, Addresses(p.base, m, p.Width()), repr, ClearStat).mem;
            VisitAll(v, Addresses(p.base, m + 1, p.Width()), repr, ClearStat).mem ==
            Overlay(before, p.CellBase(m), Cleared(p.spec.value.stat, Slice(before, p.CellBase(m), p.Width())))
  {
    var before := VisitAll(v, Addresses(p.base, m, p.Width()), repr, ClearStat);
    NextVisit(v, p.base, m, p.Width(), p.CellBase(m), repr, ClearStat);
    ClearOfCell(before, p.spec.value.stat, repr, p.CellBase(m));
  }

  lemma ClearOfCell(w: View, stat: Stat, repr: Repr, at: nat)
    requires repr == ReprOf(stat)
    ensures Visit(w, at, repr, ClearStat).mem == Overlay(w.mem, at, Cleared(stat, Slice(w.mem, at, CellSize(stat))))
  {
  }

  /** A clear of a tag's first cells, one after the other, is a sequence of clears in the map. */
  lemma {:induction false} SiteClearHolds(events: seq<Event>, v: View, ps: seq<Site>, size: nat, i: nat, n: nat)
    requires Sound(ps, size) && size <= |v.mem| && Holds(events, v.mem, ps)
    requires i < |ps| && n <= ps[i].Cells() && ps[i].spec.Some?
    ensures Holds(events + SiteClears(ps[i].id, n),
                  VisitAll(v, Addresses(ps[i].base, n, ps[i].Width()), ReprOf(ps[i].spec.value.stat), ClearStat).mem,
                  ps)
    decreases n
  {
    if n == 0 {
      assert events + [] == events;
    } else {
      var p, m := ps[i], n - 1;
      var repr := ReprOf(p.spec.value.stat);
      var before := VisitAll(v, Addresses(p.base, m, p.Width()), repr, ClearStat).mem;
      SiteClearHolds(events, v, ps, size, i, m);
      NextClear(v, p, repr, m);
      CellClearHolds(events + SiteClears(p.id, m), before, ps, size, i, m);
      ConcatIsAssociative(events, SiteClears(p.id, m), [Clear(p.id, m)]);
    }
  }

  lemma SendClearHolds(events: seq<Event>, v: Sent, ps: seq<Site>, size: nat, n: Node<StatSpec>, selector: string)
    requires Sound(ps, size) && size <= |v.mem| && Holds(events, v.mem, ps) && Known(ps, n.id)
    ensures Holds(events + SiteClears(n.id, ps[IndexOf(ps, n.id)].Cells()),
                  SendTo(v, ps, n, ClearStat, selector).mem, ps)
  {
    var i := IndexOf(ps, n.id);
    if ps[i].spec.Some? {
      SiteClearHolds(events, View(v.mem, [], ""), ps, size, i, ps[i].Cells());
    } else {
      assert events + [] == events;
    }
  }

  /** A clear sent to a list of tags keeps memory and map in step, one clear per cell. */
  lemma {:induction false} ClearHolds(events: seq<Event>, v: Sent, ps: seq<Site>, size: nat, nodes: seq<Node<StatSpec>>,
                                      selector: string)
    requires AllKnown(ps, nodes) && Sound(ps, size) && size <= |v.mem| && Holds(events, v.mem, ps)
    ensures Holds(events + NodeClears(ps, nodes), SendAll(v, ps, nodes, ClearStat, selector).mem, ps)
    decreases |nodes|
  {
    if nodes == [] {
      assert events + [] == events;
    } else {
      var front, n := nodes[..|nodes| - 1], nodes[|nodes| - 1];
      ClearHolds(events, v, ps, size, front, selector);
      SendClearHolds(events + NodeClears(ps, front), SendAll(v, ps, front, ClearStat, selector), ps, size, n, selector);
      ConcatIsAssociative(events, NodeClears(ps, front), SiteClears(n.id, ps[IndexOf(ps, n.id)].Cells()));
    }
  }

  /** The map at cell `k` of a tag after a clear of that cell, or unchanged. */
  ghost predicate ClearedIf(cleared: bool, before: seq<Event>, after: seq<Event>, p: Site, k: nat) {
    && SinceClear(after, p, k) == (if cleared then [] else SinceClear(before, p, k))
    && Value(after, p, k) == (if cleared then 0 else Value(before, p, k))
    && Accumulated(after, p, k) ==
       (if cleared then Accumulated(before, p, k).(flagged := true) else Accumulated(before, p, k))
  }

  lemma OneClear(before: seq<Event>, id: nat, n: nat, p: Site, k: nat)
    ensures ClearedIf(id == p.id && k == n, before, before + [Clear(id, n)], p, k)
  {
    assert (before + [Clear(id, n)])[..|before|] == before;
  }

  lemma ClearsJoin(a: bool, b: bool, x: seq<Event>, y: seq<Event>, z: seq<Event>, p: Site, k: nat)
    requires ClearedIf(a, x, y, p, k) && ClearedIf(b, y, z, p, k)
    ensures ClearedIf(a || b, x, z, p, k)
  {
  }

  lemma {:induction false} SiteClearsExactly(events: seq<Event>, id: nat, n: nat, p: Site, k: nat)
    ensures ClearedIf(id == p.id && k < n, events, events + SiteClears(id, n), p, k)
  {
    if n == 0 {
      assert events + [] == events;
    } else {
      var before, e := events + SiteClears(id, n - 1), Clear(id, n - 1);
      SiteClearsExactly(events, id, n - 1, p, k);
      OneClear(before, id, n - 1, p, k);
      ClearsJoin(id == p.id && k < n - 1, id == p.id && k == n - 1, events, before, before + [e], p, k);
      ConcatIsAssociative(events, SiteClears(id, n - 1), [e]);
    }
  }

  /** The clears of a list of tags clear every cell of these tags in the map, and leave every other
      cell alone. */
  lemma {:induction false} NodeClearsExactly(events: seq<Event>, ps: seq<Site>, size: nat, nodes: seq<Node<StatSpec>>,
                                             i: nat, k: nat)
    requires Sound(ps, size) && AllKnown(ps, nodes) && i < |ps| && k < ps[i].Cells()
    ensures ClearedIf(Among(nodes, ps[i].id), events, events + NodeClears(ps, nodes), ps[i], k)
    decreases |nodes|
  {
    if nodes == [] {
      assert events + [] == events;
    } else {
      var front, n := nodes[..|nodes| - 1], nodes[|nodes| - 1];
      var cells := ps[IndexOf(ps, n.id)].Cells();
      var before := events + NodeClears(ps, front);
      NodeClearsExactly(events, ps, size, front, i, k);
      AmongSnoc(nodes, ps[i].id);
      IndexIsUnique(ps, size, i);
      SiteClearsExactly(before, n.id, cells, ps[i], k);
      ClearsJoin(Among(front, ps[i].id), n.id == ps[i].id, events, before, before + SiteClears(n.id, cells), ps[i], k);
      ConcatIsAssociative(events, NodeClears(ps, front), SiteClears(n.id, cells));
    }
  }
}
