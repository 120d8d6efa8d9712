/** The printer: collects the answers of the tags and prints them as lines. */
module Printer {
  import opened Text
  import opened IndexCodec
  import opened IndexSpec
  import opened Sequences

  datatype TagInfo = TagInfo(name: string, index: nat, depth: nat)

  /** The answer of a statistic to a command. */
  datatype Answer = Answer(title: string, entries: seq<string>, dims: seq<nat>)

  /** A tag with what there is to show of it; `selector` picks the entries to print. */
  datatype Display<T> = Display(tag: TagInfo, selector: string, output: T)

  // ----- labels -----

  function NumTexts(path: seq<nat>): (r: seq<string>)
    ensures |r| == |path| && forall i :: 0 <= i < |path| ==> r[i] == NumText(path[i])
  {
    seq(|path|, i requires 0 <= i < |path| => NumText(path[i]))
  }

  /** What stands before an entry: its indices, separated by commas. */
  function LabelOf(path: seq<nat>): string {
    if path == [] then "" else Join(NumTexts(path), ',') + ": "
  }

  /** The label as far as the first `i` indices. */
  function LabelBefore(path: seq<nat>, i: nat): string
    requires i <= |path|
  {
    if i == 0 then ""
    else LabelBefore(path, i - 1) + NumText(path[i - 1]) + if i < |path| then "," else ": "
  }

  lemma {:induction false} JoinSnoc(parts: seq<string>, x: string, c: char)
    requires parts != []
    ensures Join(parts + [x], c) == Join(parts, c) + [c] + x
  {
    assert (parts + [x])[1..] == parts[1..] + [x];
    if |parts| > 1 {
      JoinSnoc(parts[1..], x, c);
    } else {
      assert Join([x], c) == x;
    }
  }

  lemma {:induction false} LabelBeforeJoins(path: seq<nat>, i: nat)
    requires 0 < i <= |path|
    ensures LabelBefore(path, i) == Join(NumTexts(path)[..i], ',') + if i < |path| then "," else ": "
  {
    var texts := NumTexts(path);
    if i == 1 {
      assert texts[..1] == [texts[0]];
    } else {
      LabelBeforeJoins(path, i - 1);
      JoinSnoc(texts[..i - 1], texts[i - 1], ',');
      assert texts[..i] == texts[..i - 1] + [texts[i - 1]];
    }
  }

  lemma LabelIsComplete(path: seq<nat>)
    ensures LabelBefore(path, |path|) == LabelOf(path)
  {
    if path != [] {
      LabelBeforeJoins(path, |path|);
      assert NumTexts(path)[..|path|] == NumTexts(path);
    }
  }

  /** A label tells the path it stands for. */
  lemma LabelReadsBack(path: seq<nat>)
    requires path != []
    ensures |LabelOf(path)| >= 2
    ensures var parts := Split(LabelOf(path)[..|LabelOf(path)| - 2], ',');
            && |parts| == |path|
            && forall i :: 0 <= i < |path| ==> parts[i] == NumText(path[i]) && NumValue(parts[i]) == path[i]
    ensures LabelOf(path)[|LabelOf(path)| - 2..] == ": "
  {
    var texts := NumTexts(path);
    assert LabelOf(path)[..|LabelOf(path)| - 2] == Join(texts, ',');
    forall i | 0 <= i < |path|
      ensures ',' !in texts[i] && IsNumeral(texts[i]) && NumValue(texts[i]) == path[i]
    {
      NumeralHasOnlyDigits(texts[i], ',');
      NumTextValue(path[i]);
    }
    SplitJoin(texts, ',');
  }

  /** A single stat has no label. */
  lemma NoLabel()
    ensures LabelOf([]) == ""
  {
  }

  lemma PathStep(dims: seq<nat>, k: nat, j: nat)
    requires Positive(dims) && j < |dims|
    ensures dims[j] > 0
    ensures IndexPath(dims[..j + 1], k) == IndexPath(dims[..j], k / dims[j]) + [k % dims[j]]
  {
    assert dims[..j + 1][..j] == dims[..j];
  }

  lemma PathMoves(path: seq<nat>, dims: seq<nat>, idx: nat, j: nat, tail: seq<nat>)
    requires j < |dims| && Positive(dims) && path == IndexPath(dims[..j + 1], idx) + tail
    ensures path == IndexPath(dims[..j], idx / dims[j]) + ([idx % dims[j]] + tail)
  {
    PathStep(dims, idx, j);
    ConcatIsAssociative(IndexPath(dims[..j], idx / dims[j]), [idx % dims[j]], tail);
  }

  /** Divides a flat position into indices and asks every dimension's specifier. */
  method IdxToDimString(dims: seq<nat>, selector: string, k: nat) returns (text: string, doPrint: bool)
    requires Positive(dims) && SupportedSelector(selector)
    ensures text == LabelOf(IndexPath(dims, k))
    ensures doPrint <==> Selects(selector, IndexPath(dims, k))
  {
    var n := |dims|;
    var dimIndices := new nat[n](_ => 0);
    var idx := k;
    ghost var path := IndexPath(dims, k);
    assert dims[..n] == dims;
    for i := 0 to n
      invariant path == IndexPath(dims[..n - i], idx) + dimIndices[n - i..]
    {
      var j := n - 1 - i;
      PathMoves(path, dims, idx, j, dimIndices[j + 1..]);
      dimIndices[j] := idx % dims[j];
      idx := idx / dims[j];
      assert dimIndices[j..] == [dimIndices[j]] + dimIndices[j + 1..];
    }
    assert dimIndices[..] == path;
    text, doPrint := DimString(dimIndices[..], selector);
  }

  /** The first `n` indices lie in their specifiers. */
  predicate Passes(specs: seq<string>, path: seq<nat>, n: nat)
    requires n <= |path| && forall i :: 0 <= i < |specs| ==> SupportedSpec(specs[i])
  {
    forall i :: 0 <= i < |specs| && i < n ==> Belongs(specs[i], path[i])
  }

  method CheckIndex(specs: seq<string>, path: seq<nat>, i: nat, sofar: bool) returns (doPrint: bool)
    requires i < |path| && forall j :: 0 <= j < |specs| ==> SupportedSpec(specs[j])
    requires sofar <==> Passes(specs, path, i)
    ensures doPrint <==> Passes(specs, path, i + 1)
  {
    doPrint := sofar;
    if i < |specs| && doPrint {
      doPrint := BelongsToRange(specs[i], path[i]);
    }
  }

  lemma SelectsWhenPasses(selector: string, specs: seq<string>, path: seq<nat>)
    requires SupportedSelector(selector) && specs == if selector == "" then [] else Split(selector, ',')
    ensures forall i :: 0 <= i < |specs| ==> SupportedSpec(specs[i])
    ensures Passes(specs, path, |path|) <==> Selects(selector, path)
  {
  }

  method DimString(path: seq<nat>, selector: string) returns (text: string, doPrint: bool)
    requires SupportedSelector(selector)
    ensures text == LabelOf(path)
    ensures doPrint <==> Selects(selector, path)
  {
    text, doPrint := "", true;
    var perDimRanges := if selector == "" then [] else Split(selector, ',');
    SelectsWhenPasses(selector, perDimRanges, path);
    for i := 0 to |path|
      invariant text == LabelBefore(path, i)
      invariant doPrint <==> Passes(perDimRanges, path, i)
    {
      doPrint := CheckIndex(perDimRanges, path, i, doPrint);
      text := text + NumText(path[i]) + if i < |path| - 1 then "," else ": ";
    }
    LabelIsComplete(path);
  }

  // ----- the dump of one tag -----

  /** The positions below `n` to keep, ascending. */
  function Chosen(keep: nat -> bool, n: nat): seq<nat> {
    if n == 0 then [] else Chosen(keep, n - 1) + if keep(n - 1) then [n - 1] else []
  }

  lemma {:induction false} ChosenAreTheKept(keep: nat -> bool, n: nat)
    ensures var ks := Chosen(keep, n);
            && (forall i :: 0 <= i < |ks| ==> ks[i] < n && keep(ks[i]))
            && (forall i, j :: 0 <= i < j < |ks| ==> ks[i] < ks[j])
            && (forall k: nat :: k < n && keep(k) ==> k in ks)
  {
    if n > 0 {
      var ks, front := Chosen(keep, n), Chosen(keep, n - 1);
      ChosenAreTheKept(keep, n - 1);
      forall k: nat | k < n && keep(k) ensures k in ks {
        if k < n - 1 {
          assert k in front;
        } else {
          assert ks == front + [k];
        }
      }
    }
  }

  function LinesFor(ks: seq<nat>, line: nat -> string): (r: seq<string>)
    ensures |r| == |ks| && forall i :: 0 <= i < |ks| ==> r[i] == line(ks[i])
  {
    seq(|ks|, i requires 0 <= i < |ks| => line(ks[i]))
  }

  function Selected(dims: seq<nat>, selector: string): nat -> bool
    requires Positive(dims) && SupportedSelector(selector)
  {
    (k: nat) => Selects(selector, IndexPath(dims, k))
  }

  function Labelled(dims: seq<nat>, entries: seq<string>): nat -> string
    requires Positive(dims)
  {
    (k: nat) => LabelOf(IndexPath(dims, k)) + if k < |entries| then entries[k] else ""
  }

  /** The lines of the selected entries, in order. */
  function EntryLines(entries: seq<string>, dims: seq<nat>, selector: string): seq<string>
    requires Positive(dims) && SupportedSelector(selector)
  {
    LinesFor(Chosen(Selected(dims, selector), |entries|), Labelled(dims, entries))
  }

  function Spaces(n: nat): string {
    seq(n, _ => ' ')
  }

  ghost predicate Dumpable(d: Display<Answer>) {
    d.output.entries != [] ==> Positive(d.output.dims) && SupportedSelector(d.selector)
  }

  function TitleLine(a: Answer): seq<string>
    requires Positive(a.dims)
  {
    if a.title == "" then [] else [Spaces(|LabelOf(IndexPath(a.dims, 0))|) + a.title]
  }

  /** A tag without entries is not shown; otherwise its name, the title above the entries and the
      selected entries. */
  function DumpLines(d: Display<Answer>): seq<string>
    requires Dumpable(d)
  {
    var a := d.output;
    if a.entries == [] then []
    else [d.tag.name] + TitleLine(a) + EntryLines(a.entries, a.dims, d.selector)
  }

  /** What is printed of a tag with entries: its name, its title, if there is one, as far to the right as
      the first label is long, and the entries at the positions `ks`, each behind its label. */
  lemma DumpMeans(d: Display<Answer>) returns (ks: seq<nat>, title: seq<string>, rows: seq<string>)
    requires Dumpable(d) && d.output.entries != []
    ensures DumpLines(d) == [d.tag.name] + title + rows
    ensures var a := d.output;
            if a.title == "" then title == []
            else
              var margin := |LabelOf(IndexPath(a.dims, 0))|;
              && |title| == 1 && |title[0]| == margin + |a.title| && title[0][margin..] == a.title
              && forall k :: 0 <= k < margin ==> title[0][k] == ' '
    ensures |rows| == |ks| && forall j :: 0 <= j < |ks| ==>
              ks[j] < |d.output.entries| && rows[j] == LabelOf(IndexPath(d.output.dims, ks[j])) + d.output.entries[ks[j]]
    ensures forall i, j :: 0 <= i < j < |ks| ==> ks[i] < ks[j]
    ensures forall k: nat :: k < |d.output.entries| ==> (k in ks <==> Selects(d.selector, IndexPath(d.output.dims, k)))
  {
    var a := d.output;
    var keep := Selected(a.dims, d.selector);
    ks, title, rows := Chosen(keep, |a.entries|), TitleLine(a), EntryLines(a.entries, a.dims, d.selector);
    ChosenAreTheKept(keep, |a.entries|);
  }

  method PrintTitle(a: Answer, selector: string) returns (lines: seq<string>)
    requires Positive(a.dims) && SupportedSelector(selector)
    ensures lines == TitleLine(a)
  {
    lines := [];
    if a.title != "" {
      var idxString, _ := IdxToDimString(a.dims, selector, 0);
      lines := [Spaces(|idxString|) + a.title];
    }
  }

  method PrintEntry(entries: seq<string>, dims: seq<nat>, selector: string, i: nat) returns (lines: seq<string>)
    requires Positive(dims) && SupportedSelector(selector) && i < |entries|
    ensures lines == if Selected(dims, selector)(i) then [Labelled(dims, entries)(i)] else []
  {
    var idxStr, doPrint := IdxToDimString(dims, selector, i);
    lines := if doPrint then [idxStr + entries[i]] else [];
  }

  lemma NextLine(keep: nat -> bool, line: nat -> string, i: nat)
    ensures LinesFor(Chosen(keep, i + 1), line) ==
            LinesFor(Chosen(keep, i), line) + if keep(i) then [line(i)] else []
  {
  }

  method PrintEntries(entries: seq<string>, dims: seq<nat>, selector: string) returns (lines: seq<string>)
    requires Positive(dims) && SupportedSelector(selector)
    ensures lines == EntryLines(entries, dims, selector)
  {
    ghost var keep, line := Selected(dims, selector), Labelled(dims, entries);
    lines := [];
    for i := 0 to |entries|
      invariant lines == LinesFor(Chosen(keep, i), line)
    {
      var more := PrintEntry(entries, dims, selector, i);
      NextLine(keep, line, i);
      lines := lines + more;
    }
  }

  method PrintDump(d: Display<Answer>) returns (lines: seq<string>)
    requires Dumpable(d)
    ensures lines == DumpLines(d)
  {
    var a := d.output;
    if a.entries == [] {
      return [];
    }
    var title := PrintTitle(a, d.selector);
    var entries := PrintEntries(a.entries, a.dims, d.selector);
    lines := [d.tag.name] + title + entries;
  }

  // ----- the list of tags -----

  function Without<T>(v: seq<Display<T>>, index: nat): seq<Display<T>> {
    if v == [] then []
    else (if v[0].tag.index == index then [] else [v[0]]) + Without(v[1..], index)
  }

  /** The list after a series of additions, oldest first. */
  function Listed<T>(added: seq<Display<T>>): seq<Display<T>> {
    if added == [] then []
    else
      var d := added[|added| - 1];
      Without(Listed(added[..|added| - 1]), d.tag.index) + [d]
  }

  predicate Mentions<T>(v: seq<Display<T>>, index: nat) {
    exists i :: 0 <= i < |v| && v[i].tag.index == index
  }

  /** The additions that no later one replaced. */
  function Latest<T>(added: seq<Display<T>>): seq<Display<T>> {
    if added == [] then []
    else (if Mentions(added[1..], added[0].tag.index) then [] else [added[0]]) + Latest(added[1..])
  }

  lemma {:induction false} WithoutOfConcat<T>(a: seq<Display<T>>, b: seq<Display<T>>, index: nat)
    ensures Without(a + b, index) == Without(a, index) + Without(b, index)
  {
    if a == [] {
      assert a + b == b;
    } else {
      TailOfConcat(a, b);
      WithoutOfConcat(a[1..], b, index);
    }
  }

  lemma MentionsSnoc<T>(v: seq<Display<T>>, d: Display<T>, index: nat)
    ensures Mentions(v + [d], index) <==> Mentions(v, index) || d.tag.index == index
  {
    if Mentions(v, index) {
      var i :| 0 <= i < |v| && v[i].tag.index == index;
      assert (v + [d])[i].tag.index == index;
    }
    assert (v + [d])[|v|] == d;
  }

  lemma WithoutOne<T>(d: Display<T>, index: nat)
    ensures Without([d], index) == if d.tag.index == index then [] else [d]
    ensures Without<T>([], index) == []
  {
    assert [d][1..] == [];
  }

  lemma {:induction false} LatestSnoc<T>(v: seq<Display<T>>, d: Display<T>)
    ensures Latest(v + [d]) == Without(Latest(v), d.tag.index) + [d]
  {
    if v == [] {
      assert v + [d] == [d] && [d][1..] == [];
    } else {
      TailOfConcat(v, [d]);
      LatestSnoc(v[1..], d);
      MentionsSnoc(v[1..], d, v[0].tag.index);
      var first := if Mentions(v[1..], v[0].tag.index) then [] else [v[0]];
      WithoutOfConcat(first, Latest(v[1..]), d.tag.index);
      WithoutOne(v[0], d.tag.index);
      ConcatIsAssociative(Without(first, d.tag.index), Without(Latest(v[1..]), d.tag.index), [d]);
    }
  }

  /** Removing a tag before adding it again leaves exactly the latest addition of each tag, in the
      order of those additions. */
  lemma {:induction false} ListedIsLatest<T>(added: seq<Display<T>>)
    ensures Listed(added) == Latest(added)
  {
    if added != [] {
      var front, d := added[..|added| - 1], added[|added| - 1];
      ListedIsLatest(front);
      LatestSnoc(front, d);
      assert added == front + [d];
    }
  }

  /** `from` are the positions of the additions shown, ascending: those whose tag is not added again. */
  ghost predicate Picks<T>(added: seq<Display<T>>, shown: seq<Display<T>>, from: seq<nat>) {
    && |from| == |shown|
    && (forall i :: 0 <= i < |from| ==> from[i] < |added| && shown[i] == added[from[i]])
    && (forall i, j :: 0 <= i < j < |from| ==> from[i] < from[j])
    && (forall p: nat :: p < |added| ==> (p in from <==> !Mentions(added[p + 1..], added[p].tag.index)))
  }

  function Moved(ps: seq<nat>): (r: seq<nat>)
    ensures |r| == |ps| && forall i :: 0 <= i < |ps| ==> r[i] == ps[i] + 1
  {
    seq(|ps|, i requires 0 <= i < |ps| => ps[i] + 1)
  }

  lemma MovedIn(ps: seq<nat>, p: nat)
    ensures p + 1 in Moved(ps) <==> p in ps
    ensures 0 !in Moved(ps)
  {
    if p in ps {
      var i :| 0 <= i < |ps| && ps[i] == p;
      assert Moved(ps)[i] == p + 1;
    }
  }

  /** Addition `p` is picked if it was among the rest, and the first one if it is not added again. */
  lemma PickedAt<T>(rest: seq<Display<T>>, more: seq<nat>, again: bool, added: seq<Display<T>>, from: seq<nat>, p: nat)
    requires p < |added| == |rest| + 1 && added[1..] == rest && from == (if again then [] else [0]) + Moved(more)
    requires again == Mentions(rest, added[0].tag.index)
    requires p > 0 ==> (p - 1 in more <==> !Mentions(rest[p..], rest[p - 1].tag.index))
    ensures p in from <==> !Mentions(added[p + 1..], added[p].tag.index)
  {
    MovedIn(more, if p > 0 then p - 1 else 0);
    assert p in from <==> (p == 0 && !again) || p in Moved(more);
    assert p > 0 ==> added[p + 1..] == rest[p..] && added[p] == rest[p - 1];
  }

  lemma FirstPicked<T>(rest: seq<Display<T>>, shown: seq<Display<T>>, more: seq<nat>, again: bool,
                       added: seq<Display<T>>, all: seq<Display<T>>, from: seq<nat>)
    requires added != [] && added[1..] == rest && from == (if again then [] else [0]) + Moved(more)
    requires all == (if again then [] else [added[0]]) + shown && |more| == |shown|
    requires forall i :: 0 <= i < |more| ==> more[i] < |rest| && shown[i] == rest[more[i]]
    requires forall i, j :: 0 <= i < j < |more| ==> more[i] < more[j]
    ensures |from| == |all|
    ensures forall i :: 0 <= i < |from| ==> from[i] < |added| && all[i] == added[from[i]]
    ensures forall i, j :: 0 <= i < j < |from| ==> from[i] < from[j]
  {
    var n := if again then 0 else 1;
    forall i | 0 <= i < |from| ensures from[i] < |added| && all[i] == added[from[i]] {
      if i >= n {
        assert from[i] == more[i - n] + 1 && all[i] == shown[i - n];
        assert rest[more[i - n]] == added[more[i - n] + 1];
      }
    }
  }

  lemma {:induction false} LatestPicks<T>(added: seq<Display<T>>) returns (from: seq<nat>)
    ensures Picks(added, Latest(added), from)
  {
    from := [];
    if added != [] {
      var again := Mentions(added[1..], added[0].tag.index);
      var more := LatestPicks(added[1..]);
      from := (if again then [] else [0]) + Moved(more);
      FirstPicked(added[1..], Latest(added[1..]), more, again, added, Latest(added), from);
      forall p: nat | p < |added| ensures p in from <==> !Mentions(added[p + 1..], added[p].tag.index) {
        PickedAt(added[1..], more, again, added, from, p);
      }
    }
  }

  /** The listed additions are those that no later one for the same tag replaced, in the order they were
      made: `from` are their positions. */
  lemma LatestMeans<T>(added: seq<Display<T>>, shown: seq<Display<T>>) returns (from: seq<nat>)
    requires shown == Latest(added)
    ensures |from| == |shown|
    ensures forall i :: 0 <= i < |from| ==> from[i] < |added| && shown[i] == added[from[i]]
    ensures forall i, j :: 0 <= i < j < |from| ==> from[i] < from[j]
    ensures forall p: nat :: p < |added| ==>
              (p in from <==> forall q :: p < q < |added| ==> added[q].tag.index != added[p].tag.index)
  {
    from := LatestPicks(added);
    forall p: nat | p < |added|
      ensures p in from <==> forall q :: p < q < |added| ==> added[q].tag.index != added[p].tag.index
    {
      NotReplaced(added, p);
    }
  }

  /** No later addition has the tag of addition `p`. */
  lemma NotReplaced<T>(added: seq<Display<T>>, p: nat)
    requires p < |added|
    ensures (forall q :: p < q < |added| ==> added[q].tag.index != added[p].tag.index) <==>
            !Mentions(added[p + 1..], added[p].tag.index)
  {
    var rest := added[p + 1..];
    if !Mentions(rest, added[p].tag.index) {
      forall q | p < q < |added| ensures added[q].tag.index != added[p].tag.index {
        assert rest[q - p - 1] == added[q];
      }
    }
  }

  lemma {:induction false} LatestMentions<T>(added: seq<Display<T>>, index: nat)
    ensures Mentions(Latest(added), index) <==> Mentions(added, index)
  {
    if added != [] {
      var rest := added[1..];
      LatestMentions(rest, index);
      var first := if Mentions(rest, added[0].tag.index) then [] else [added[0]];
      MentionsConcat([added[0]], rest, index);
      MentionsConcat(first, Latest(rest), index);
      assert added == [added[0]] + rest;
      assert Mentions([added[0]], index) <==> added[0].tag.index == index by {
        assert [added[0]][0] == added[0];
      }
      if first != [] {
        assert first == [added[0]];
      }
    }
  }

  lemma MentionsConcat<T>(a: seq<Display<T>>, b: seq<Display<T>>, index: nat)
    ensures Mentions(a + b, index) <==> Mentions(a, index) || Mentions(b, index)
  {
    if Mentions(a, index) {
      var i :| 0 <= i < |a| && a[i].tag.index == index;
      assert (a + b)[i].tag.index == index;
    }
    if Mentions(b, index) {
      var i :| 0 <= i < |b| && b[i].tag.index == index;
      assert (a + b)[|a| + i].tag.index == index;
    }
    if Mentions(a + b, index) {
      var i :| 0 <= i < |a + b| && (a + b)[i].tag.index == index;
      assert if i < |a| then a[i].tag.index == index else b[i - |a|].tag.index == index;
    }
  }

  ghost predicate Distinct<T>(v: seq<Display<T>>) {
    forall i, j :: 0 <= i < j < |v| ==> v[i].tag.index != v[j].tag.index
  }

  /** No tag is listed twice, and every tag that was ever added is listed. */
  lemma {:induction false} ListedOnce<T>(added: seq<Display<T>>)
    ensures Distinct(Latest(added))
    ensures forall index :: Mentions(Latest(added), index) <==> Mentions(added, index)
  {
    forall index ensures Mentions(Latest(added), index) <==> Mentions(added, index) {
      LatestMentions(added, index);
    }
    if added != [] {
      var rest := added[1..];
      ListedOnce(rest);
      if !Mentions(rest, added[0].tag.index) {
        assert !Mentions(Latest(rest), added[0].tag.index);
      }
    }
  }

  // ----- depths -----

  function Shallower(a: nat, b: nat): nat {
    if b < a then b else a
  }

  function MinDepth<T>(added: seq<Display<T>>, start: nat): nat {
    if added == [] then start
    else Shallower(MinDepth(added[..|added| - 1], start), added[|added| - 1].tag.depth)
  }

  lemma {:induction false} MinDepthIsLeast<T>(added: seq<Display<T>>, start: nat)
    ensures MinDepth(added, start) <= start
    ensures forall i :: 0 <= i < |added| ==> MinDepth(added, start) <= added[i].tag.depth
    ensures MinDepth(added, start) == start
            || exists i :: 0 <= i < |added| && added[i].tag.depth == MinDepth(added, start)
  {
    if added != [] {
      var front := added[..|added| - 1];
      MinDepthIsLeast(front, start);
      if MinDepth(added, start) != start && MinDepth(added, start) != added[|added| - 1].tag.depth {
        var i :| 0 <= i < |front| && front[i].tag.depth == MinDepth(front, start);
        assert added[i].tag.depth == MinDepth(added, start);
      }
    }
  }

  lemma {:induction false} LatestComeFrom<T>(added: seq<Display<T>>, i: nat)
    requires i < |Latest(added)|
    ensures Latest(added)[i] in added
  {
    var first := if Mentions(added[1..], added[0].tag.index) then [] else [added[0]];
    if i >= |first| {
      LatestComeFrom(added[1..], i - |first|);
    }
  }

  /** The depth of a listed tag is never below the minimum, so the indentation never underflows. */
  lemma ListedAreDeepEnough<T>(added: seq<Display<T>>, start: nat)
    ensures forall i :: 0 <= i < |Listed(added)| ==> Listed(added)[i].tag.depth >= MinDepth(added, start)
  {
    ListedIsLatest(added);
    MinDepthIsLeast(added, start);
    forall i | 0 <= i < |Listed(added)| ensures Listed(added)[i].tag.depth >= MinDepth(added, start) {
      LatestComeFrom(added, i);
    }
  }

  // ----- the printer -----

  function Tabs(n: nat): string {
    seq(n, _ => '\t')
  }

  function TagLine<T>(d: Display<T>, minDepth: nat): string
    requires minDepth <= d.tag.depth
  {
    Tabs(d.tag.depth - minDepth) + d.tag.name
  }

  function TagLines<T>(v: seq<Display<T>>, minDepth: nat): seq<string>
    requires forall i :: 0 <= i < |v| ==> minDepth <= v[i].tag.depth
  {
    seq(|v|, i requires 0 <= i < |v| => TagLine(v[i], minDepth))
  }

  function Section<T>(heading: string, v: seq<Display<T>>, minDepth: nat): seq<string>
    requires forall i :: 0 <= i < |v| ==> minDepth <= v[i].tag.depth
  {
    if v == [] then [] else [heading] + TagLines(v, minDepth)
  }

  /** A section is empty without tags; otherwise its heading comes first, and then a line for each tag:
      as many tabs as the tag lies deeper than the shallowest one, and its name. */
  lemma SectionMeans<T>(heading: string, v: seq<Display<T>>, minDepth: nat)
    requires forall i :: 0 <= i < |v| ==> minDepth <= v[i].tag.depth
    ensures v == [] ==> Section(heading, v, minDepth) == []
    ensures v != [] ==> |Section(heading, v, minDepth)| == |v| + 1 && Section(heading, v, minDepth)[0] == heading
    ensures forall i :: 0 <= i < |v| ==>
              var line, tabs := Section(heading, v, minDepth)[i + 1], v[i].tag.depth - minDepth;
              && |line| == tabs + |v[i].tag.name| && line[tabs..] == v[i].tag.name
              && forall k :: 0 <= k < tabs ==> line[k] == '\t'
  {
    forall i | 0 <= i < |v|
      ensures Section(heading, v, minDepth)[i + 1] == TagLine(v[i], minDepth)
    {
      assert ([heading] + TagLines(v, minDepth))[i + 1] == TagLines(v, minDepth)[i];
    }
  }

  method PrintSection<T>(heading: string, v: seq<Display<T>>, minDepth: nat) returns (lines: seq<string>)
    requires forall i :: 0 <= i < |v| ==> minDepth <= v[i].tag.depth
    ensures lines == Section(heading, v, minDepth)
  {
    lines := [];
    for i := 0 to |v|
      invariant lines == TagLines(v, minDepth)[..i]
    {
      lines := lines + [TagLine(v[i], minDepth)];
    }
    if v != [] {
      lines := [heading] + lines;
    }
  }

  ghost predicate AllDumpable(v: seq<Display<Answer>>) {
    forall i :: 0 <= i < |v| ==> Dumpable(v[i])
  }

  function DumpParts(v: seq<Display<Answer>>): (parts: seq<seq<string>>)
    requires AllDumpable(v)
    ensures |parts| == |v| && forall i :: 0 <= i < |v| ==> parts[i] == DumpLines(v[i])
  {
    seq(|v|, i requires 0 <= i < |v| => DumpLines(v[i]))
  }

  /** The dumps, one after the other, under a heading if there are any. */
  method PrintDumps(v: seq<Display<Answer>>) returns (lines: seq<string>)
    requires AllDumpable(v)
    ensures lines == if v == [] then [] else ["STAT VALUES:"] + Flat(DumpParts(v), |v|)
  {
    lines := [];
    ghost var parts := DumpParts(v);
    for i := 0 to |v|
      invariant lines == Flat(parts, i)
    {
      var more := PrintDump(v[i]);
      lines := lines + more;
    }
    assert lines == Flat(parts, |parts|);
    if v != [] {
      lines := ["STAT VALUES:"] + lines;
    }
  }

  class Printer {
    var options: string
    var statTags: seq<Display<Answer>>
    var logTags: seq<Display<string>>
    var minTagDepth: nat
    /** Everything added so far, in order. */
    ghost var stats: seq<Display<Answer>>
    ghost var logs: seq<Display<string>>

    ghost predicate Valid()
      reads this
    {
      && statTags == Listed(stats) && logTags == Listed(logs)
      && minTagDepth == Shallower(MinDepth(stats, SIZE_MAX), MinDepth(logs, SIZE_MAX))
    }

    constructor ()
      ensures Valid() && stats == [] && logs == []
    {
      options, statTags, logTags, minTagDepth := "", [], [], SIZE_MAX;
      stats, logs := [], [];
    }

    method SetPrintOptions(selector: string)
      modifies this`options
      ensures options == selector
    {
      options := selector;
    }

    method AddStatOutput(tag: TagInfo, output: Answer)
      requires Valid()
      modifies this
      ensures Valid() && stats == old(stats) + [Display(tag, options, output)]
      ensures logs == old(logs) && options == old(options)
    {
      if tag.depth < minTagDepth {
        minTagDepth := tag.depth;
      }
      statTags := Without(statTags, tag.index);
      statTags := statTags + [Display(tag, options, output)];
      stats := stats + [Display(tag, options, output)];
      assert stats[..|stats| - 1] == old(stats);
    }

    method AddLogOutput(tag: TagInfo, output: string)
      requires Valid()
      modifies this
      ensures Valid() && logs == old(logs) + [Display(tag, "", output)]
      ensures stats == old(stats) && options == old(options)
    {
      if tag.depth < minTagDepth {
        minTagDepth := tag.depth;
      }
      logTags := Without(logTags, tag.index);
      logTags := logTags + [Display(tag, "", output)];
      logs := logs + [Display(tag, "", output)];
      assert logs[..|logs| - 1] == old(logs);
    }

    lemma DepthsAreAboveMin()
      requires Valid()
      ensures forall i :: 0 <= i < |statTags| ==> minTagDepth <= statTags[i].tag.depth
      ensures forall i :: 0 <= i < |logTags| ==> minTagDepth <= logTags[i].tag.depth
    {
      ListedAreDeepEnough(stats, SIZE_MAX);
      ListedAreDeepEnough(logs, SIZE_MAX);
    }

    method PrintTags() returns (lines: seq<string>)
      requires Valid()
      ensures (forall i :: 0 <= i < |statTags| ==> minTagDepth <= statTags[i].tag.depth)
           && (forall i :: 0 <= i < |logTags| ==> minTagDepth <= logTags[i].tag.depth)
      ensures lines == Section("STATS:", statTags, minTagDepth) + Section("LOG LEVELS:", logTags, minTagDepth)
    {
      DepthsAreAboveMin();
      var stats := PrintSection("STATS:", statTags, minTagDepth);
      var logs := PrintSection("LOG LEVELS:", logTags, minTagDepth);
      lines := stats + logs;
    }

    method PrintDumpStat() returns (lines: seq<string>)
      requires Valid() && AllDumpable(statTags)
      ensures lines == if statTags == [] then [] else ["STAT VALUES:"] + Flat(DumpParts(statTags), |statTags|)
    {
      lines := PrintDumps(statTags);
    }
  }
}
