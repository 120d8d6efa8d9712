/** Whole runs of both processes: what was written, serialized and cleared against what is printed. */
module StatRun {
  import opened Bytes
  import opened Sequences
  import opened Text
  import opened IndexCodec
  import opened IndexSpec
  import opened StatCell
  import opened Accumulator
  import opened TagTree
  import opened Layout
  import opened StatMemory
  import opened StatCommands
  import opened Printer
  import opened StatLog

  // ----- runs -----

  /** The steps of a run are supported ones; each concerns one cell, and those of both processes may come
      in any order. */
  ghost predicate Runnable(tree: Tree<StatSpec>, run: seq<Event>) {
    forall i :: 0 <= i < |run| ==> Supported(tree, run[i])
  }

  ghost predicate Supported(tree: Tree<StatSpec>, e: Event) {
    match e
    case Write(id, args) => Writable(tree, id, args)
    case Serialize(id, k) => Serializable(tree, id, k)
    case Clear(id, k) => Clearable(tree, id, k)
  }

  /** Any sequence of writes and serializations by the one process and clears by the other keeps
      memory, accumulators and map in step. */
  method Perform(op: Operational, control: Control, run: seq<Event>)
    requires op.Valid() && control.Valid() && op.tree == control.tree && op.shm == control.shm
    requires Runnable(op.tree, run)
    modifies op.shm, op.shm.bytes, AllOf(op.elems), control.printer
    ensures op.Valid() && control.Valid()
    ensures op.shm.events == old(op.shm.events) + run
  {
    ghost var before := op.shm.events;
    for i := 0 to |run|
      invariant op.Valid() && control.Valid()
      invariant op.shm.events == before + run[..i]
    {
      OneMore(before, run, i);
      PerformOne(op, control, run[i]);
    }
    assert run[..|run|] == run;
  }

  lemma OneMore(before: seq<Event>, run: seq<Event>, i: nat)
    requires i < |run|
    ensures before + run[..i] + [run[i]] == before + run[..i + 1]
  {
  }

  method PerformOne(op: Operational, control: Control, e: Event)
    requires op.Valid() && control.Valid() && op.tree == control.tree && op.shm == control.shm
    requires Supported(op.tree, e)
    modifies op.shm, op.shm.bytes, AllOf(op.elems), control.printer
    ensures op.Valid() && control.Valid()
    ensures op.shm.events == old(op.shm.events) + [e]
  {
    match e {
      case Write(id, args) => op.WriteStat(id, args);
      case Serialize(id, k) => op.SerializeElement(id, k);
      case Clear(id, k) =>
        NoSampleMoves(op.shm.events, e, op.theStats);
        control.ClearCell(id, k);
    }
  }

  // ----- what is printed of a tag -----

  /** The text of cell `k`: a simple stat's number as `unsigned long`, or an accumulator's entry. */
  ghost function CellText(events: seq<Event>, s: Site, k: nat): string
    requires s.spec.Some?
  {
    match s.spec.value.stat
    case Simple(_, _, _) => NumText(Unsigned(Number(events, s, k)))
    case Accum(fs) => AccumText(fs, Accumulated(events, s, k))
  }

  /** The line of cell `k`: the path it stands for and its text. */
  ghost function CellLine(events: seq<Event>, s: Site): nat -> string
    requires s.spec.Some? && SpecOk(s.spec.value)
  {
    (k: nat) => LabelOf(IndexPath(s.spec.value.dims, k)) + CellText(events, s, k)
  }

  /** The title of a leaf: an accumulator's features have theirs from what the last cell was served
      with. */
  function LeafTitle(events: seq<Event>, s: Site, last: nat): string
    requires s.spec.Some?
  {
    match s.spec.value.stat
    case Simple(_, _, _) => ""
    case Accum(fs) => Titles(fs, ServedWords(fs, Accumulated(events, s, last).served))
  }

  /** The positions whose index paths the specifiers denote. */
  ghost function Denoted(dims: seq<nat>, specs: seq<seq<Range>>): nat -> bool
    requires Positive(dims) && WellFormedSelector(specs)
  {
    (k: nat) => SelectorDenotes(specs, IndexPath(dims, k))
  }

  /** A leaf's name, the title above its entries, and for every path the specifiers denote, in
      row-major order, the path and the text of its cell. */
  ghost function LeafLines(events: seq<Event>, s: Site, name: string, specs: seq<seq<Range>>)
    : seq<string>
    requires s.spec.Some? && SpecOk(s.spec.value) && WellFormedSelector(specs)
  {
    var spec := s.spec.value;
    CountIsPositive(spec.dims);
    [name] + TitleLine(Answer(LeafTitle(events, s, s.Cells() - 1), [], spec.dims))
    + LinesFor(Chosen(Denoted(spec.dims, specs), Count(spec.dims)), CellLine(events, s))
  }

  lemma {:induction false} ChoicesAgree(f: nat -> bool, g: nat -> bool, n: nat)
    requires forall k: nat :: k < n ==> f(k) == g(k)
    ensures Chosen(f, n) == Chosen(g, n)
  {
    if n > 0 {
      ChoicesAgree(f, g, n - 1);
    }
  }

  lemma LinesAgree(keep: nat -> bool, n: nat, f: nat -> string, g: nat -> string)
    requires forall k: nat :: k < n ==> f(k) == g(k)
    ensures LinesFor(Chosen(keep, n), f) == LinesFor(Chosen(keep, n), g)
  {
    ChosenAreTheKept(keep, n);
  }

  lemma {:induction false} CountIsPositive(dims: seq<nat>)
    requires Positive(dims)
    ensures Count(dims) > 0
  {
    if dims != [] {
      CountIsPositive(dims[1..]);
    }
  }

  lemma EntryIsCellText(events: seq<Event>, mem: seq<byte>, ps: seq<Site>, i: nat, k: nat)
    requires Holds(events, mem, ps) && i < |ps| && k < ps[i].Cells() && SpecOk(ps[i].spec.value)
    ensures var a := AnswerTo(mem, ps[i], DumpStat);
            && |a.entries| == ps[i].Cells() && a.dims == ps[i].spec.value.dims
            && a.title == LeafTitle(events, ps[i], ps[i].Cells() - 1)
            && a.entries[k] == CellText(events, ps[i], k)
  {
    if ps[i].spec.value.stat.Simple? {
      DumpShowsMap(events, mem, ps, i, k);
    } else {
      DumpShowsAccumulator(events, mem, ps, i, k);
    }
  }

  lemma PathIsSmall(dims: seq<nat>, k: nat)
    requires Positive(dims) && k < Count(dims) && forall i :: 0 <= i < |dims| ==> dims[i] <= SIZE_MAX
    ensures forall i :: 0 <= i < |IndexPath(dims, k)| ==> IndexPath(dims, k)[i] <= SIZE_MAX
  {
    CellOfIndexPath(dims, k);
  }

  lemma SelectedIsDenoted(dims: seq<nat>, specs: seq<seq<Range>>, k: nat)
    requires Positive(dims) && k < Count(dims) && forall i :: 0 <= i < |dims| ==> dims[i] <= SIZE_MAX
    requires WellFormedSelector(specs) && forall i :: 0 <= i < |specs| ==> FitsSpec(specs[i])
    ensures SupportedSelector(SelectorText(specs))
    ensures Selected(dims, SelectorText(specs))(k) == Denoted(dims, specs)(k)
  {
    PathIsSmall(dims, k);
    SelectorMeetsGrammar(specs, IndexPath(dims, k));
  }

  lemma LabelledIsCellLine(events: seq<Event>, mem: seq<byte>, ps: seq<Site>, i: nat, k: nat)
    requires Holds(events, mem, ps) && i < |ps| && k < ps[i].Cells() && SpecOk(ps[i].spec.value)
    ensures Labelled(ps[i].spec.value.dims, AnswerTo(mem, ps[i], DumpStat).entries)(k) ==
            CellLine(events, ps[i])(k)
  {
    EntryIsCellText(events, mem, ps, i, k);
  }

  /** The lines of the entries whose indices the specifiers denote. */
  lemma EntriesAreLines(entries: seq<string>, dims: seq<nat>, n: nat, specs: seq<seq<Range>>, line: nat -> string)
    requires Positive(dims) && |entries| == Count(dims) == n && forall i :: 0 <= i < |dims| ==> dims[i] <= SIZE_MAX
    requires WellFormedSelector(specs) && forall i :: 0 <= i < |specs| ==> FitsSpec(specs[i])
    requires forall k: nat :: k < n ==> Labelled(dims, entries)(k) == line(k)
    ensures SupportedSelector(SelectorText(specs))
    ensures EntryLines(entries, dims, SelectorText(specs)) == LinesFor(Chosen(Denoted(dims, specs), n), line)
  {
    SelectorIsSupported(specs);
    var keep, keep' := Selected(dims, SelectorText(specs)), Denoted(dims, specs);
    forall k: nat | k < n ensures keep(k) == keep'(k) {
      SelectedIsDenoted(dims, specs, k);
    }
    ChoicesAgree(keep, keep', n);
    LinesAgree(keep', n, Labelled(dims, entries), line);
  }

  lemma EntriesAreCellLines(events: seq<Event>, mem: seq<byte>, ps: seq<Site>, i: nat, n: nat, specs: seq<seq<Range>>,
                            entries: seq<string>)
    requires Holds(events, mem, ps) && i < |ps| && ps[i].spec.Some? && SpecOk(ps[i].spec.value) && n == ps[i].Cells()
    requires WellFormedSelector(specs) && forall i :: 0 <= i < |specs| ==> FitsSpec(specs[i])
    requires entries == AnswerTo(mem, ps[i], DumpStat).entries && |entries| == n
    ensures SupportedSelector(SelectorText(specs))
    ensures EntryLines(entries, ps[i].spec.value.dims, SelectorText(specs)) ==
            LinesFor(Chosen(Denoted(ps[i].spec.value.dims, specs), n), CellLine(events, ps[i]))
  {
    var dims, line := ps[i].spec.value.dims, CellLine(events, ps[i]);
    forall k: nat | k < n ensures Labelled(dims, entries)(k) == line(k) {
      LabelledIsCellLine(events, mem, ps, i, k);
    }
    EntriesAreLines(entries, dims, n, specs, line);
  }

  /** The dump of a leaf is its lines. */
  lemma LeafDump(events: seq<Event>, mem: seq<byte>, ps: seq<Site>, size: nat,
                 n: Node<StatSpec>, specs: seq<seq<Range>>)
    requires Holds(events, mem, ps) && Sound(ps, size)
    requires Known(ps, n.id) && ps[IndexOf(ps, n.id)].spec.Some?
    requires WellFormedSelector(specs) && forall i :: 0 <= i < |specs| ==> FitsSpec(specs[i])
    ensures var d, s := DisplayOf(mem, ps, n, DumpStat, SelectorText(specs)), ps[IndexOf(ps, n.id)];
            && Dumpable(d) && SpecOk(s.spec.value)
            && DumpLines(d) == LeafLines(events, s, InfoOf(n).name, specs)
  {
    var i := IndexOf(ps, n.id);
    CountIsPositive(ps[i].spec.value.dims);
    EntryIsCellText(events, mem, ps, i, 0);
    EntriesAreCellLines(events, mem, ps, i, ps[i].Cells(), specs, AnswerTo(mem, ps[i], DumpStat).entries);
  }

  // ----- what is printed of a path -----

  /** The lines of a tag: those of a leaf, none of a parent. */
  ghost function LinesOfTag(events: seq<Event>, ps: seq<Site>, n: Node<StatSpec>,
                          specs: seq<seq<Range>>): seq<string>
    requires Known(ps, n.id) && WellFormedSelector(specs)
    requires forall i :: 0 <= i < |ps| && ps[i].spec.Some? ==> SpecOk(ps[i].spec.value)
  {
    var s := ps[IndexOf(ps, n.id)];
    if s.spec.Some? then LeafLines(events, s, InfoOf(n).name, specs) else []
  }

  lemma TagDump(events: seq<Event>, mem: seq<byte>, ps: seq<Site>, size: nat, n: Node<StatSpec>,
                specs: seq<seq<Range>>)
    requires Holds(events, mem, ps) && Sound(ps, size) && Known(ps, n.id)
    requires WellFormedSelector(specs) && forall i :: 0 <= i < |specs| ==> FitsSpec(specs[i])
    ensures var d := DisplayOf(mem, ps, n, DumpStat, SelectorText(specs));
            Dumpable(d) && DumpLines(d) == LinesOfTag(events, ps, n, specs)
  {
    if ps[IndexOf(ps, n.id)].spec.Some? {
      LeafDump(events, mem, ps, size, n, specs);
    }
  }

  // ----- what is printed of a list of paths -----

  /** A path to dump, with index specifiers. */
  datatype Request = Request(path: string, specs: seq<seq<Range>>) {
    /** Built by the specifiers' grammar from numbers that fit. */
    ghost predicate Ok() {
      WellFormedSelector(specs) && forall i :: 0 <= i < |specs| ==> FitsSpec(specs[i])
    }

    function Desc(): TagDesc {
      TagDesc(path, SelectorText(specs))
    }
  }

  /** A tag a request addresses, with the request's specifiers. */
  datatype Ask = Ask(node: Node<StatSpec>, specs: seq<seq<Range>>)

  function AskedBy(nodes: seq<Node<StatSpec>>, specs: seq<seq<Range>>): (asked: seq<Display<Ask>>)
    ensures |asked| == |nodes|
    ensures forall i :: 0 <= i < |nodes| ==>
              asked[i] == Display(InfoOf(nodes[i]), SelectorText(specs), Ask(nodes[i], specs))
  {
    seq(|nodes|, i requires 0 <= i < |nodes| => Display(InfoOf(nodes[i]), SelectorText(specs), Ask(nodes[i], specs)))
  }

  /** The tags each of the requests addresses, in order. */
  function Asked(routes: seq<seq<Node<StatSpec>>>, reqs: seq<Request>): (parts: seq<seq<Display<Ask>>>)
    requires |routes| == |reqs|
    ensures |parts| == |reqs| && forall i :: 0 <= i < |parts| ==> parts[i] == AskedBy(routes[i], reqs[i].specs)
  {
    seq(|routes|, i requires 0 <= i < |routes| => AskedBy(routes[i], reqs[i].specs))
  }

  /** All tags that a list of requests addresses, with their specifiers, in order. */
  function AllAsked(tree: Tree<StatSpec>, reqs: seq<Request>): seq<Display<Ask>> {
    Flat(Asked(Routes(tree, Descs(reqs)), reqs), |reqs|)
  }

  function Descs(reqs: seq<Request>): (ds: seq<TagDesc>)
    ensures |ds| == |reqs| && forall i :: 0 <= i < |reqs| ==> ds[i] == reqs[i].Desc()
  {
    seq(|reqs|, i requires 0 <= i < |reqs| => reqs[i].Desc())
  }

  /** The answer of a tag that was asked. */
  function Answering(mem: seq<byte>, ps: seq<Site>): Display<Ask> -> Display<Answer> {
    (d: Display<Ask>) =>
      if Known(ps, d.output.node.id) then DisplayOf(mem, ps, d.output.node, DumpStat, d.selector)
      else Display(d.tag, d.selector, Answer("", [], []))
  }

  ghost predicate AskOk(ps: seq<Site>, d: Display<Ask>) {
    && Known(ps, d.output.node.id) && d.tag == InfoOf(d.output.node) && d.selector == SelectorText(d.output.specs)
    && Request("", d.output.specs).Ok()
  }

  ghost predicate AllAskOk(ps: seq<Site>, asked: seq<Display<Ask>>) {
    forall i :: 0 <= i < |asked| ==> AskOk(ps, asked[i])
  }

  lemma AnswersToOne(mem: seq<byte>, ps: seq<Site>, nodes: seq<Node<StatSpec>>, specs: seq<seq<Range>>,
                     selector: string, f: Display<Ask> -> Display<Answer>)
    requires AllKnown(ps, nodes) && selector == SelectorText(specs) && f == Answering(mem, ps)
    ensures DisplaysOf(mem, ps, nodes, DumpStat, selector) == Mapped(f, AskedBy(nodes, specs))
  {
  }

  lemma OneAskedIsOk(ps: seq<Site>, nodes: seq<Node<StatSpec>>, specs: seq<seq<Range>>)
    requires AllKnown(ps, nodes) && Request("", specs).Ok()
    ensures AllAskOk(ps, AskedBy(nodes, specs))
  {
  }

  lemma AskOkConcat(ps: seq<Site>, a: seq<Display<Ask>>, b: seq<Display<Ask>>)
    requires AllAskOk(ps, a) && AllAskOk(ps, b)
    ensures AllAskOk(ps, a + b)
  {
  }

  lemma {:induction false} FlatIsOk(ps: seq<Site>, parts: seq<seq<Display<Ask>>>, n: nat)
    requires n <= |parts| && forall i :: 0 <= i < |parts| ==> AllAskOk(ps, parts[i])
    ensures AllAskOk(ps, Flat(parts, n))
  {
    if n > 0 {
      FlatIsOk(ps, parts, n - 1);
      AskOkConcat(ps, Flat(parts, n - 1), parts[n - 1]);
    }
  }

  lemma AskedAreOk(ps: seq<Site>, routes: seq<seq<Node<StatSpec>>>, reqs: seq<Request>)
    requires |routes| == |reqs| && RoutesKnown(ps, routes) && forall i :: 0 <= i < |reqs| ==> reqs[i].Ok()
    ensures AllAskOk(ps, Flat(Asked(routes, reqs), |reqs|))
  {
    var parts := Asked(routes, reqs);
    forall i | 0 <= i < |parts| ensures AllAskOk(ps, parts[i]) {
      OneAskedIsOk(ps, routes[i], reqs[i].specs);
    }
    FlatIsOk(ps, parts, |reqs|);
  }

  lemma MappedConcat<T, U>(f: T -> U, a: seq<T>, b: seq<T>)
    ensures Mapped(f, a + b) == Mapped(f, a) + Mapped(f, b)
  {
  }

  lemma {:induction false} FlatOfMapped<T, U>(f: T -> U, a: seq<seq<T>>, b: seq<seq<U>>, n: nat)
    requires n <= |a| == |b| && forall i :: 0 <= i < |a| ==> b[i] == Mapped(f, a[i])
    ensures Flat(b, n) == Mapped(f, Flat(a, n))
  {
    if n > 0 {
      FlatOfMapped(f, a, b, n - 1);
      MappedConcat(f, Flat(a, n - 1), a[n - 1]);
    }
  }

  /** What the printer is given are the answers of the tags asked, in the order they were asked. */
  lemma AnswersToRequests(mem: seq<byte>, ps: seq<Site>, routes: seq<seq<Node<StatSpec>>>, reqs: seq<Request>,
                          descs: seq<TagDesc>)
    requires |routes| == |reqs| && RoutesKnown(ps, routes) && descs == Descs(reqs)
    ensures Flat(Answers(mem, ps, routes, descs, DumpStat), |reqs|) ==
            Mapped(Answering(mem, ps), Flat(Asked(routes, reqs), |reqs|))
  {
    var a, b, f := Asked(routes, reqs), Answers(mem, ps, routes, descs, DumpStat), Answering(mem, ps);
    forall i | 0 <= i < |a| ensures b[i] == Mapped(f, a[i]) {
      AnswersToOne(mem, ps, routes[i], reqs[i].specs, descs[i].selector, f);
    }
    FlatOfMapped(f, a, b, |reqs|);
  }

  lemma MentionsMapped<T, U>(f: Display<T> -> Display<U>, v: seq<Display<T>>, index: nat)
    requires forall i :: 0 <= i < |v| ==> f(v[i]).tag == v[i].tag
    ensures Mentions(Mapped(f, v), index) <==> Mentions(v, index)
  {
    if Mentions(v, index) {
      var i :| 0 <= i < |v| && v[i].tag.index == index;
      assert Mapped(f, v)[i].tag.index == index;
    }
  }

  /** The latest answers are the answers to the latest questions. */
  lemma {:induction false} LatestOfMapped<T, U>(f: Display<T> -> Display<U>, v: seq<Display<T>>)
    requires forall i :: 0 <= i < |v| ==> f(v[i]).tag == v[i].tag
    ensures Latest(Mapped(f, v)) == Mapped(f, Latest(v))
  {
    if v != [] {
      LatestOfMapped(f, v[1..]);
      assert Mapped(f, v)[1..] == Mapped(f, v[1..]);
      MentionsMapped(f, v[1..], v[0].tag.index);
      MappedConcat(f, if Mentions(v[1..], v[0].tag.index) then [] else [v[0]], Latest(v[1..]));
    }
  }

  ghost function PartsOf(events: seq<Event>, ps: seq<Site>, asked: seq<Display<Ask>>): (parts: seq<seq<string>>)
    requires AllAskOk(ps, asked)
    requires forall i :: 0 <= i < |ps| && ps[i].spec.Some? ==> SpecOk(ps[i].spec.value)
    ensures |parts| == |asked|
    ensures forall i :: 0 <= i < |asked| ==>
              parts[i] == LinesOfTag(events, ps, asked[i].output.node, asked[i].output.specs)
  {
    seq(|asked|, i requires 0 <= i < |asked| => LinesOfTag(events, ps, asked[i].output.node, asked[i].output.specs))
  }

  lemma LatestAreOk(ps: seq<Site>, asked: seq<Display<Ask>>)
    requires AllAskOk(ps, asked)
    ensures AllAskOk(ps, Latest(asked))
  {
    forall i | 0 <= i < |Latest(asked)| ensures AskOk(ps, Latest(asked)[i]) {
      LatestComeFrom(asked, i);
      var j :| 0 <= j < |asked| && asked[j] == Latest(asked)[i];
    }
  }

  /** The requests' tags are known and their texts are supported by the printer. */
  lemma RequestsAreKnown(tree: Tree<StatSpec>, reqs: seq<Request>)
    requires TreeOk(tree) && forall i :: 0 <= i < |reqs| ==> reqs[i].Ok()
    ensures Sound(SitesOf(tree), StatBytes(tree)) && RoutesKnown(SitesOf(tree), Routes(tree, Descs(reqs)))
    ensures AllAskOk(SitesOf(tree), AllAsked(tree, reqs)) && AllAskOk(SitesOf(tree), Latest(AllAsked(tree, reqs)))
    ensures forall i :: 0 <= i < |reqs| ==> SupportedSelector(Descs(reqs)[i].selector)
  {
    SitesAreSound(tree, true);
    RoutesAreKnown(tree, Descs(reqs));
    AskedAreOk(SitesOf(tree), Routes(tree, Descs(reqs)), reqs);
    LatestAreOk(SitesOf(tree), AllAsked(tree, reqs));
    forall i | 0 <= i < |reqs| ensures SupportedSelector(Descs(reqs)[i].selector) {
      SelectorIsSupported(reqs[i].specs);
    }
  }

  lemma AnswerLines(events: seq<Event>, mem: seq<byte>, ps: seq<Site>, size: nat, d: Display<Ask>)
    requires Holds(events, mem, ps) && Sound(ps, size) && AskOk(ps, d)
    ensures Answering(mem, ps)(d).tag == d.tag && Dumpable(Answering(mem, ps)(d))
    ensures DumpLines(Answering(mem, ps)(d)) == LinesOfTag(events, ps, d.output.node, d.output.specs)
  {
    TagDump(events, mem, ps, size, d.output.node, d.output.specs);
  }

  lemma PartsAgree(events: seq<Event>, mem: seq<byte>, ps: seq<Site>, size: nat, latest: seq<Display<Ask>>,
                   shown: seq<Display<Answer>>)
    requires Holds(events, mem, ps) && Sound(ps, size) && AllAskOk(ps, latest)
    requires shown == Mapped(Answering(mem, ps), latest) && AllDumpable(shown)
    ensures DumpParts(shown) == PartsOf(events, ps, latest)
  {
    forall i | 0 <= i < |shown| ensures DumpLines(shown[i]) == PartsOf(events, ps, latest)[i] {
      AnswerLines(events, mem, ps, size, latest[i]);
    }
  }

  lemma LatestAnswers(mem: seq<byte>, ps: seq<Site>, asked: seq<Display<Ask>>)
    requires AllAskOk(ps, asked)
    ensures Latest(Mapped(Answering(mem, ps), asked)) == Mapped(Answering(mem, ps), Latest(asked))
  {
    forall i | 0 <= i < |asked| ensures Answering(mem, ps)(asked[i]).tag == asked[i].tag {
      assert AskOk(ps, asked[i]);
    }
    LatestOfMapped(Answering(mem, ps), asked);
  }

  /** A controller prints for its requests what the events have left in memory. */
  method Dump(op: Operational, logTree: Tree<()>, reqs: seq<Request>) returns (lines: seq<string>)
    requires op.Valid() && forall i :: 0 <= i < |reqs| ==> reqs[i].Ok()
    modifies op.shm, op.shm.bytes
    ensures op.shm.bytes[..] == old(op.shm.bytes[..]) && op.shm.events == old(op.shm.events)
    ensures Sound(SitesOf(op.tree), StatBytes(op.tree))
    ensures AllAskOk(SitesOf(op.tree), Latest(AllAsked(op.tree, reqs)))
    ensures var shown := Latest(AllAsked(op.tree, reqs));
            var parts := PartsOf(op.shm.events, SitesOf(op.tree), shown);
            lines == if shown == [] then [] else ["STAT VALUES:"] + Flat(parts, |parts|)
  {
    RequestsAreKnown(op.tree, reqs);
    var viewer := new Control(op.tree, logTree, op.shm, op);
    lines := viewer.DumpStats(Descs(reqs));
    ghost var mem, ps, asked := op.shm.bytes[..], SitesOf(op.tree), AllAsked(op.tree, reqs);
    AnswersToRequests(mem, ps, Routes(op.tree, Descs(reqs)), reqs, Descs(reqs));
    LatestAnswers(mem, ps, asked);
    PartsAgree(op.shm.events, mem, ps, StatBytes(op.tree), Latest(asked), Mapped(Answering(mem, ps), Latest(asked)));
  }

  /** For every tag tree, every run of both processes, and any list of paths with index specifiers built
      by their grammar from numbers that fit: a controller started after the run prints exactly the
      addressed leaves, once each, and of each exactly the cells that the specifiers it was last
      addressed with denote, with what the run has left in them. */
  method RunThenDump(op: Operational, control: Control, logTree: Tree<()>, run: seq<Event>, reqs: seq<Request>)
    returns (lines: seq<string>)
    requires op.Valid() && control.Valid() && op.tree == control.tree && op.shm == control.shm
    requires Runnable(op.tree, run) && forall i :: 0 <= i < |reqs| ==> reqs[i].Ok()
    modifies op.shm, op.shm.bytes, AllOf(op.elems), control.printer
    ensures op.shm.events == old(op.shm.events) + run
    ensures Sound(SitesOf(op.tree), StatBytes(op.tree))
    ensures AllAskOk(SitesOf(op.tree), Latest(AllAsked(op.tree, reqs)))
    ensures var shown := Latest(AllAsked(op.tree, reqs));
            var parts := PartsOf(op.shm.events, SitesOf(op.tree), shown);
            lines == if shown == [] then [] else ["STAT VALUES:"] + Flat(parts, |parts|)
  {
    Perform(op, control, run);
    lines := Dump(op, logTree, reqs);
  }
}
