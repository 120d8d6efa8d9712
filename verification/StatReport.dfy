/** What a controller prints, spelled out: which tags, in which order, and what of each of them. */
module StatReport {
  import opened Bytes
  import opened Sequences
  import opened Text
  import opened IndexCodec
  import opened IndexSpec
  import opened StatCell
  import opened Accumulator
  import opened TagTree
  import opened Layout
  import opened StatMemory
  import opened StatCommands
  import opened Printer
  import opened StatLog
  import opened StatRun

  // ----- one leaf -----

  /** An accumulator's entry: for every feature, in order, what it shows for its word and a space. The word is
      0 from a clear until the next write and before the first serialization, and otherwise what the
      feature stored for the samples last serialized, as far as its type can hold it. */
  lemma AccumEntry(fs: seq<Feature>, a: AccumState) returns (entry: seq<string>)
    ensures |entry| == |fs| && AccumText(fs, a) == Flat(entry, |fs|)
    ensures forall i :: 0 <= i < |fs| ==>
              entry[i] ==
              fs[i].show(if a.flagged || a.served == None then 0
                         else fs[i].extract(a.served.value) % Capacity(fs[i].width)) + " "
  {
    var title, names;
    entry, title, names := PartsOfFeatures(fs, if a.flagged then ZeroWords(|fs|) else ServedWords(fs, a.served));
  }

  /** An accumulator's title: for every feature, in order, a space and its title for the word that was last
      served with the last cell, whether that was cleared since or not. */
  lemma AccumTitle(events: seq<Event>, s: Site, fs: seq<Feature>, last: nat, served: Option<seq<int>>)
    returns (title: seq<string>)
    requires s.spec.Some? && s.spec.value.stat == Accum(fs) && served == Accumulated(events, s, last).served
    ensures |title| == |fs| && LeafTitle(events, s, last) == Flat(title, |fs|)
    ensures forall i :: 0 <= i < |fs| ==>
              title[i] ==
              " " + fs[i].title(if served == None then 0 else fs[i].extract(served.value) % Capacity(fs[i].width))
  {
    var entry, names;
    entry, title, names := PartsOfFeatures(fs, ServedWords(fs, served));
  }

  /** A simple stat's entry: the number it holds, taken modulo 2^64, in decimal digits. Such a stat has no
      title, and its description names no features. */
  lemma SimpleEntry(events: seq<Event>, s: Site, k: nat)
    requires s.spec.Some? && s.spec.value.stat.Simple?
    ensures CellText(events, s, k) == NumText(Number(events, s, k) % 0x1_0000_0000_0000_0000)
    ensures LeafTitle(events, s, k) == "" && TypeTitle(s.spec.value.stat) == "Simple Stat"
  {
  }

  /** Nothing is printed of a parent. */
  lemma ParentLines(events: seq<Event>, ps: seq<Site>, n: Node<StatSpec>, specs: seq<seq<Range>>)
    requires Known(ps, n.id) && ps[IndexOf(ps, n.id)].spec.None? && WellFormedSelector(specs)
    requires forall i :: 0 <= i < |ps| && ps[i].spec.Some? ==> SpecOk(ps[i].spec.value)
    ensures LinesOfTag(events, ps, n, specs) == []
  {
  }

  /** Of a leaf are printed the last name of its path, then its title, as far to the right as the first label is
      long, if it has one, and then a row for each of the positions `ks`: ascending, exactly those whose indices
      all lie in some range of their dimension's specifier, as far as there are specifiers and they have
      ranges. A row is the position's label and its cell's text. */
  lemma LeafIsPrinted(events: seq<Event>, ps: seq<Site>, n: Node<StatSpec>, specs: seq<seq<Range>>, s: Site,
                      spec: StatSpec, last: nat, text: string, margin: nat)
    returns (ks: seq<nat>, title: seq<string>, rows: seq<string>)
    requires Known(ps, n.id) && n.path != [] && WellFormedSelector(specs)
    requires forall i :: 0 <= i < |ps| && ps[i].spec.Some? ==> SpecOk(ps[i].spec.value)
    requires s == ps[IndexOf(ps, n.id)] && s.spec == Some(spec) && SpecOk(spec) && last + 1 == Count(spec.dims)
    requires text == LeafTitle(events, s, last) && margin == |LabelOf(IndexPath(spec.dims, 0))|
    ensures LinesOfTag(events, ps, n, specs) == [n.path[|n.path| - 1]] + title + rows
    ensures text == "" ==> title == []
    ensures text != "" ==> |title| == 1 && |title[0]| == margin + |text| && title[0][margin..] == text
    ensures text != "" ==> forall k :: 0 <= k < margin ==> title[0][k] == ' '
    ensures |rows| == |ks| && forall j :: 0 <= j < |ks| ==>
              rows[j] == LabelOf(IndexPath(spec.dims, ks[j])) + CellText(events, s, ks[j])
    ensures forall i, j :: 0 <= i < j < |ks| ==> ks[i] < ks[j]
    ensures forall k: nat ::
              k in ks <==>
              k < Count(spec.dims)
              && forall i :: 0 <= i < |specs| && i < |spec.dims| ==>
                   specs[i] == [] || exists m :: 0 <= m < |specs[i]| && specs[i][m].Denotes(IndexPath(spec.dims, k)[i])
  {
    ks := Chosen(Denoted(spec.dims, specs), Count(spec.dims));
    title, rows := LeafRows(events, s, n.path[|n.path| - 1], specs, spec, last, text, ks);
    MarginIs(spec.dims, text, margin, title);
    ChosenAreDenoted(spec.dims, specs, Count(spec.dims), ks);
  }

  lemma ChosenAreDenoted(dims: seq<nat>, specs: seq<seq<Range>>, n: nat, ks: seq<nat>)
    requires Positive(dims) && WellFormedSelector(specs) && ks == Chosen(Denoted(dims, specs), n)
    ensures forall i, j :: 0 <= i < j < |ks| ==> ks[i] < ks[j]
    ensures forall k: nat ::
              k in ks <==>
              k < n
              && forall i :: 0 <= i < |specs| && i < |dims| ==>
                   specs[i] == [] || exists m :: 0 <= m < |specs[i]| && specs[i][m].Denotes(IndexPath(dims, k)[i])
  {
    ChosenAreTheKept(Denoted(dims, specs), n);
    forall k: nat
      ensures k in ks <==>
              k < n
              && forall i :: 0 <= i < |specs| && i < |dims| ==>
                   specs[i] == [] || exists m :: 0 <= m < |specs[i]| && specs[i][m].Denotes(IndexPath(dims, k)[i])
    {
      DenotedMeans(dims, specs, k);
    }
  }

  lemma DenotedMeans(dims: seq<nat>, specs: seq<seq<Range>>, k: nat)
    requires Positive(dims) && WellFormedSelector(specs)
    ensures Denoted(dims, specs)(k) <==>
            forall i :: 0 <= i < |specs| && i < |dims| ==>
              specs[i] == [] || exists m :: 0 <= m < |specs[i]| && specs[i][m].Denotes(IndexPath(dims, k)[i])
  {
  }

  lemma MarginIs(dims: seq<nat>, text: string, margin: nat, title: seq<string>)
    requires Positive(dims) && margin == |LabelOf(IndexPath(dims, 0))| && title == TitleLine(Answer(text, [], dims))
    ensures text == "" ==> title == []
    ensures text != "" ==> |title| == 1 && |title[0]| == margin + |text| && title[0][margin..] == text
    ensures text != "" ==> forall k :: 0 <= k < margin ==> title[0][k] == ' '
  {
  }

  lemma LeafRows(events: seq<Event>, s: Site, name: string, specs: seq<seq<Range>>, spec: StatSpec, last: nat,
                 text: string, ks: seq<nat>)
    returns (title: seq<string>, rows: seq<string>)
    requires s.spec == Some(spec) && SpecOk(spec) && WellFormedSelector(specs)
    requires last + 1 == Count(spec.dims) && text == LeafTitle(events, s, last)
    requires ks == Chosen(Denoted(spec.dims, specs), Count(spec.dims))
    ensures LeafLines(events, s, name, specs) == [name] + title + rows
    ensures title == TitleLine(Answer(text, [], spec.dims))
    ensures |rows| == |ks| && forall j :: 0 <= j < |ks| ==>
              rows[j] == LabelOf(IndexPath(spec.dims, ks[j])) + CellText(events, s, ks[j])
  {
    title := TitleLine(Answer(text, [], spec.dims));
    rows := LinesFor(ks, CellLine(events, s));
  }

  // ----- which tags, in which order -----

  /** Where the elements of joined parts come from: the part and the position in it. */
  function Origins<T>(parts: seq<seq<T>>, n: nat): (os: seq<(nat, nat)>)
    requires n <= |parts|
    ensures |os| == |Flat(parts, n)|
  {
    if n == 0 then []
    else Origins(parts, n - 1) + seq(|parts[n - 1]|, j requires 0 <= j => (n - 1, j))
  }

  lemma {:induction false} OriginsAreRight<T>(parts: seq<seq<T>>, n: nat)
    requires n <= |parts|
    ensures var os := Origins(parts, n);
            && (forall x :: 0 <= x < |os| ==>
                  os[x].0 < n && os[x].1 < |parts[os[x].0]| && Flat(parts, n)[x] == parts[os[x].0][os[x].1])
            && (forall x, y :: 0 <= x < y < |os| ==>
                  os[x].0 < os[y].0 || (os[x].0 == os[y].0 && os[x].1 < os[y].1))
            && (forall r: nat, j: nat :: r < n && j < |parts[r]| ==> (r, j) in os)
  {
    if n > 0 {
      OriginsAreRight(parts, n - 1);
      var before, last := Origins(parts, n - 1), seq(|parts[n - 1]|, j requires 0 <= j => (n - 1, j));
      forall r: nat, j: nat | r < n && j < |parts[r]| ensures (r, j) in before + last {
        if r == n - 1 {
          assert last[j] == (r, j);
        }
      }
    }
  }

  /** The pairs come one after the other: request by request, and position by position within one. */
  ghost predicate Ascending(from: seq<(nat, nat)>) {
    forall p, q :: 0 <= p < q < |from| ==>
      from[p].0 < from[q].0 || (from[p].0 == from[q].0 && from[p].1 < from[q].1)
  }

  /** The latest of joined additions, by part and position: those whose tag no later part has again, if no part
      has a tag twice. */
  lemma LatestOfParts<T>(parts: seq<seq<Display<T>>>, all: seq<Display<T>>, shown: seq<Display<T>>)
    returns (from: seq<(nat, nat)>)
    requires all == Flat(parts, |parts|) && shown == Latest(all)
    requires forall r :: 0 <= r < |parts| ==> Distinct(parts[r])
    ensures |from| == |shown| && Ascending(from)
    ensures forall p :: 0 <= p < |from| ==>
              from[p].0 < |parts| && from[p].1 < |parts[from[p].0]| && shown[p] == parts[from[p].0][from[p].1]
    ensures forall r: nat, j: nat :: r < |parts| && j < |parts[r]| ==>
              ((r, j) in from <==> NotAgain(parts, r, parts[r][j].tag.index))
  {
    var os := Origins(parts, |parts|);
    OriginsArePlaced(parts, all, os);
    var at := LatestMeans(all, shown);
    from := PickedOrigins(parts, all, shown, os, at);
    AllPickedExactly(parts, all, os, at, from);
  }

  lemma OriginsArePlaced<T>(parts: seq<seq<Display<T>>>, all: seq<Display<T>>, os: seq<(nat, nat)>)
    requires all == Flat(parts, |parts|) && os == Origins(parts, |parts|)
    ensures Placed(parts, all, os)
  {
    OriginsAreRight(parts, |parts|);
  }

  lemma AllPickedExactly<T>(parts: seq<seq<Display<T>>>, all: seq<Display<T>>, os: seq<(nat, nat)>, at: seq<nat>,
                            from: seq<(nat, nat)>)
    requires Placed(parts, all, os) && |from| == |at| && forall r :: 0 <= r < |parts| ==> Distinct(parts[r])
    requires forall p :: 0 <= p < |at| ==> at[p] < |os| && from[p] == os[at[p]]
    requires forall x: nat :: x < |all| ==>
               (x in at <==> forall y :: x < y < |all| ==> all[y].tag.index != all[x].tag.index)
    ensures forall r: nat, j: nat :: r < |parts| && j < |parts[r]| ==>
              ((r, j) in from <==> NotAgain(parts, r, parts[r][j].tag.index))
  {
    forall r: nat, j: nat | r < |parts| && j < |parts[r]|
      ensures (r, j) in from <==> NotAgain(parts, r, parts[r][j].tag.index)
    {
      PickedExactly(parts, all, os, at, from, r, j);
    }
  }

  lemma PickedExactly<T>(parts: seq<seq<Display<T>>>, all: seq<Display<T>>, os: seq<(nat, nat)>, at: seq<nat>,
                         from: seq<(nat, nat)>, r: nat, j: nat)
    requires Placed(parts, all, os) && |from| == |at| && r < |parts| && j < |parts[r]| && Distinct(parts[r])
    requires forall p :: 0 <= p < |at| ==> at[p] < |os| && from[p] == os[at[p]]
    requires forall x: nat :: x < |all| ==>
               (x in at <==> forall y :: x < y < |all| ==> all[y].tag.index != all[x].tag.index)
    ensures (r, j) in from <==> NotAgain(parts, r, parts[r][j].tag.index)
  {
    var x :| 0 <= x < |os| && os[x] == (r, j);
    PickedWhen(parts, all, os, at, from, x);
    AgainWhen(parts, all, os, x);
  }

  lemma PickedOrigins<T>(parts: seq<seq<Display<T>>>, all: seq<Display<T>>, shown: seq<Display<T>>,
                         os: seq<(nat, nat)>, at: seq<nat>)
    returns (from: seq<(nat, nat)>)
    requires Placed(parts, all, os) && |at| == |shown|
    requires forall p :: 0 <= p < |at| ==> at[p] < |all| && shown[p] == all[at[p]]
    requires forall p, q :: 0 <= p < q < |at| ==> at[p] < at[q]
    ensures |from| == |at| && forall p :: 0 <= p < |at| ==> from[p] == os[at[p]]
    ensures Ascending(from)
    ensures forall p :: 0 <= p < |from| ==>
              from[p].0 < |parts| && from[p].1 < |parts[from[p].0]| && shown[p] == parts[from[p].0][from[p].1]
  {
    from := seq(|at|, p requires 0 <= p < |at| => os[at[p]]);
  }

  /** No part behind part `r` has the tag. */
  ghost predicate NotAgain<T>(parts: seq<seq<Display<T>>>, r: nat, index: nat) {
    forall r', j' :: r < r' < |parts| && 0 <= j' < |parts[r']| ==> parts[r'][j'].tag.index != index
  }

  /** What is known of the positions in joined parts. */
  ghost predicate Placed<T>(parts: seq<seq<Display<T>>>, all: seq<Display<T>>, os: seq<(nat, nat)>) {
    && |os| == |all| && Ascending(os)
    && (forall x :: 0 <= x < |os| ==>
          os[x].0 < |parts| && os[x].1 < |parts[os[x].0]| && all[x] == parts[os[x].0][os[x].1])
    && (forall r: nat, j: nat :: r < |parts| && j < |parts[r]| ==> (r, j) in os)
  }

  lemma PickedWhen<T>(parts: seq<seq<Display<T>>>, all: seq<Display<T>>, os: seq<(nat, nat)>, at: seq<nat>,
                      from: seq<(nat, nat)>, x: nat)
    requires Placed(parts, all, os) && x < |os| && |from| == |at|
    requires forall p :: 0 <= p < |at| ==> at[p] < |os| && from[p] == os[at[p]]
    ensures os[x] in from <==> x in at
  {
    if x in at {
      var p :| 0 <= p < |at| && at[p] == x;
      assert from[p] == os[x];
    }
    if os[x] in from {
      var p :| 0 <= p < |from| && from[p] == os[x];
      assert at[p] == x;
    }
  }

  lemma AgainWhen<T>(parts: seq<seq<Display<T>>>, all: seq<Display<T>>, os: seq<(nat, nat)>, x: nat)
    requires Placed(parts, all, os) && x < |os| && Distinct(parts[os[x].0])
    ensures (forall y :: x < y < |all| ==> all[y].tag.index != all[x].tag.index) <==>
            NotAgain(parts, os[x].0, all[x].tag.index)
  {
    if NotAgain(parts, os[x].0, all[x].tag.index) {
      forall y | x < y < |all| ensures all[y].tag.index != all[x].tag.index {
        assert all[y] == parts[os[y].0][os[y].1];
      }
    }
    if forall y :: x < y < |all| ==> all[y].tag.index != all[x].tag.index {
      forall r', j' | os[x].0 < r' < |parts| && 0 <= j' < |parts[r']|
        ensures parts[r'][j'].tag.index != all[x].tag.index
      {
        var y :| 0 <= y < |os| && os[y] == (r', j');
        assert x < y;
      }
    }
  }

  /** Which tags are printed: `from` gives the request and the position among the tags its path is routed to.
      Printed are exactly the tags a request addresses and no later request does, each with that request's
      specifiers, in the order of the requests and, for one request, of its route. */
  lemma AskedTags(tree: Tree<StatSpec>, reqs: seq<Request>, routes: seq<seq<Node<StatSpec>>>, shown: seq<Display<Ask>>)
    returns (from: seq<(nat, nat)>)
    requires TreeOk(tree) && |routes| == |reqs| && shown == Latest(AllAsked(tree, reqs))
    requires forall r :: 0 <= r < |reqs| ==> routes[r] == Routed(tree, [], 0, reqs[r].path)
    ensures |from| == |shown|
    ensures forall p :: 0 <= p < |from| ==>
              && from[p].0 < |routes| && from[p].1 < |routes[from[p].0]|
              && shown[p].output == Ask(routes[from[p].0][from[p].1], reqs[from[p].0].specs)
    ensures forall p, q :: 0 <= p < q < |from| ==>
              from[p].0 < from[q].0 || (from[p].0 == from[q].0 && from[p].1 < from[q].1)
    ensures forall r: nat, j: nat :: r < |routes| && j < |routes[r]| ==>
              ((r, j) in from <==>
               forall r', j' :: r < r' < |routes| && 0 <= j' < |routes[r']| ==> routes[r'][j'].id != routes[r][j].id)
  {
    assert Routes(tree, Descs(reqs)) == routes;
    var parts := Asked(routes, reqs);
    RoutesAreDistinct(tree, reqs, routes, parts);
    from := LatestOfParts(parts, AllAsked(tree, reqs), shown);
    AskedInOrder(parts, routes, reqs, shown, from);
    forall r: nat, j: nat | r < |routes| && j < |routes[r]|
      ensures (r, j) in from <==>
              forall r', j' :: r < r' < |routes| && 0 <= j' < |routes[r']| ==> routes[r'][j'].id != routes[r][j].id
    {
      AskedAgain(parts, routes, reqs, r, routes[r][j].id);
    }
  }

  lemma RoutesAreDistinct(tree: Tree<StatSpec>, reqs: seq<Request>, routes: seq<seq<Node<StatSpec>>>,
                          parts: seq<seq<Display<Ask>>>)
    requires TreeOk(tree) && |routes| == |reqs| && parts == Asked(routes, reqs)
    requires forall r :: 0 <= r < |reqs| ==> routes[r] == Routed(tree, [], 0, reqs[r].path)
    ensures forall r :: 0 <= r < |parts| ==> Distinct(parts[r])
  {
    SitesKnowTree(tree, true);
    forall r | 0 <= r < |parts| ensures Distinct(parts[r]) {
      RoutedAreKnown(tree, SitesOf(tree), reqs[r].path);
    }
  }

  lemma AskedInOrder(parts: seq<seq<Display<Ask>>>, routes: seq<seq<Node<StatSpec>>>, reqs: seq<Request>,
                     shown: seq<Display<Ask>>, from: seq<(nat, nat)>)
    requires |routes| == |reqs| && parts == Asked(routes, reqs) && |from| == |shown|
    requires forall p :: 0 <= p < |from| ==>
               from[p].0 < |parts| && from[p].1 < |parts[from[p].0]| && shown[p] == parts[from[p].0][from[p].1]
    ensures forall p :: 0 <= p < |from| ==>
              && from[p].0 < |routes| && from[p].1 < |routes[from[p].0]|
              && shown[p].output == Ask(routes[from[p].0][from[p].1], reqs[from[p].0].specs)
  {
  }

  lemma AskedAgain(parts: seq<seq<Display<Ask>>>, routes: seq<seq<Node<StatSpec>>>, reqs: seq<Request>, r: nat, id: nat)
    requires |routes| == |reqs| && parts == Asked(routes, reqs)
    ensures NotAgain(parts, r, id) <==>
            forall r', j' :: r < r' < |routes| && 0 <= j' < |routes[r']| ==> routes[r'][j'].id != id
  {
    forall r', j' | 0 <= r' < |routes| && 0 <= j' < |routes[r']| ensures parts[r'][j'].tag.index == routes[r'][j'].id {
      assert parts[r'] == AskedBy(routes[r'], reqs[r'].specs);
    }
  }

  /** A tag has a path of names, the last of which is printed, and lies as deep as there are names above. */
  lemma TagInfoOfNode(tree: Tree<StatSpec>, path: string, n: Node<StatSpec>)
    requires NamesOk(tree) && n in Routed(tree, [], 0, path)
    ensures n.path != [] && InfoOf(n) == TagInfo(n.path[|n.path| - 1], n.id, |n.path| - 1)
  {
    RouteIsAddressed(tree, [], 0, path);
    var all, keep := Preorder(tree, [], 0), Addressed<StatSpec>(path, 0);
    var i :| 0 <= i < |Filter(all, keep)| && Filter(all, keep)[i] == n;
    FilterIsWithin(all, keep, i);
    PreorderLiesBelow(tree, [], 0);
    assert LiesBelow(n, [], 0);
  }
}
