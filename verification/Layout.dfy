/** The regions of shared memory that both processes give to the tags. */
module Layout {
  import opened IndexCodec
  import opened StatCell
  import opened TagTree

  /** A statistic of a leaf tag: nested arrays of the given sizes, none for a single stat. */
  datatype StatSpec = StatSpec(stat: Stat, dims: seq<nat>)

  const LOGGERS := 4

  /** What the flat lists hold for a tag; the operational and the control build differ. */
  datatype Kind = StatParent | OpStat(spec: StatSpec) | ControlStat(spec: StatSpec) | OpLogger | ControlLogger

  datatype Handle = Handle(id: nat, kind: Kind) {
    function SharedSize(): nat {
      match kind
      case StatParent => 0
      case OpStat(spec) => Count(spec.dims) * CellSize(spec.stat)
      case ControlStat(spec) => Count(spec.dims) * CellSize(spec.stat)
      case OpLogger => LOGGERS
      case ControlLogger => LOGGERS
    }
  }

  function StatHandle(isOp: bool): Node<StatSpec> -> Handle {
    (n: Node<StatSpec>) =>
      Handle(n.id,
             if n.IsParent() then StatParent
             else if isOp then OpStat(n.payload.value) else ControlStat(n.payload.value))
  }

  function LogHandle(isOp: bool): Node<()> -> Handle {
    (n: Node<()>) => Handle(n.id, if isOp then OpLogger else ControlLogger)
  }

  function TheStats(tree: Tree<StatSpec>, isOp: bool): seq<Handle> {
    Flatten(tree, [], 0, StatHandle(isOp), [])
  }

  function TheLogs(tree: Tree<()>, isOp: bool): seq<Handle> {
    Flatten(tree, [], 0, LogHandle(isOp), [])
  }

  /** Where region `i` of the list begins. */
  function Offset(hs: seq<Handle>, i: nat): nat
    requires i <= |hs|
  {
    if i == 0 then 0 else Offset(hs, i - 1) + hs[i - 1].SharedSize()
  }

  lemma {:induction false} RegionEndsBefore(hs: seq<Handle>, i: nat, j: nat)
    requires i < j <= |hs|
    ensures Offset(hs, i) + hs[i].SharedSize() <= Offset(hs, j)
    decreases j
  {
    if i + 1 < j {
      RegionEndsBefore(hs, i, j - 1);
    }
  }

  predicate InRegion(hs: seq<Handle>, i: nat, b: nat)
    requires i < |hs|
  {
    Offset(hs, i) <= b < Offset(hs, i) + hs[i].SharedSize()
  }

  lemma {:induction false} ByteHasRegion(hs: seq<Handle>, n: nat, b: nat) returns (i: nat)
    requires n <= |hs| && b < Offset(hs, n)
    ensures i < n && InRegion(hs, i, b)
    decreases n
  {
    i := n - 1;
    if b < Offset(hs, n - 1) {
      i := ByteHasRegion(hs, n - 1, b);
    }
  }

  /** The regions tile the shared memory: every byte lies in exactly one. */
  lemma RegionsTile(hs: seq<Handle>, b: nat)
    requires b < Offset(hs, |hs|)
    ensures exists i :: 0 <= i < |hs| && InRegion(hs, i, b)
    ensures forall i, j :: 0 <= i < |hs| && 0 <= j < |hs| && InRegion(hs, i, b) && InRegion(hs, j, b) ==> i == j
  {
    var i := ByteHasRegion(hs, |hs|, b);
    forall i, j | 0 <= i < j < |hs| && InRegion(hs, i, b) ensures !InRegion(hs, j, b) {
      RegionEndsBefore(hs, i, j);
    }
  }

  // ----- both builds agree -----

  /** Same tags in the same order, with regions of the same size. */
  ghost predicate SameShape(a: seq<Handle>, b: seq<Handle>) {
    |a| == |b| && forall i :: 0 <= i < |a| ==> a[i].id == b[i].id && a[i].SharedSize() == b[i].SharedSize()
  }

  lemma {:induction false} SameOffsets(a: seq<Handle>, b: seq<Handle>, i: nat)
    requires SameShape(a, b) && i <= |a|
    ensures Offset(a, i) == Offset(b, i)
  {
    if i > 0 {
      SameOffsets(a, b, i - 1);
    }
  }

  lemma StatListsMatch(tree: Tree<StatSpec>)
    ensures SameShape(TheStats(tree, true), TheStats(tree, false))
  {
    var nodes, a, b := Preorder(tree, [], 0), TheStats(tree, true), TheStats(tree, false);
    assert |nodes| > 0;
    NodeHasHandle(tree, true, 0);
    NodeHasHandle(tree, false, 0);
    forall i | 0 <= i < |a| ensures a[i].id == b[i].id && a[i].SharedSize() == b[i].SharedSize() {
      NodeHasHandle(tree, true, |nodes| - 1 - i);
      NodeHasHandle(tree, false, |nodes| - 1 - i);
    }
  }

  lemma LogListsMatch(tree: Tree<()>)
    ensures SameShape(TheLogs(tree, true), TheLogs(tree, false))
  {
    FlattenReversesPreorder(tree, [], 0, LogHandle(true), []);
    FlattenReversesPreorder(tree, [], 0, LogHandle(false), []);
  }

  /** The operational and the control build give every tag the same place and size. */
  lemma BuildsAgree(stats: Tree<StatSpec>, logs: Tree<()>, i: nat)
    requires i < |TheStats(stats, true) + TheLogs(logs, true)|
    ensures var op := TheStats(stats, true) + TheLogs(logs, true);
            var control := TheStats(stats, false) + TheLogs(logs, false);
            && |op| == |control| && op[i].id == control[i].id
            && op[i].SharedSize() == control[i].SharedSize()
            && Offset(op, i) == Offset(control, i)
            && Offset(op, |op|) == Offset(control, |control|)
  {
    StatListsMatch(stats);
    LogListsMatch(logs);
    var op, control := TheStats(stats, true) + TheLogs(logs, true), TheStats(stats, false) + TheLogs(logs, false);
    assert SameShape(op, control);
    SameOffsets(op, control, i);
    SameOffsets(op, control, |op|);
  }

  /** Every tag has exactly one place in the list. */
  lemma NodeHasHandle(tree: Tree<StatSpec>, isOp: bool, p: nat)
    requires p < |Preorder(tree, [], 0)|
    ensures |TheStats(tree, isOp)| == |Preorder(tree, [], 0)|
    ensures TheStats(tree, isOp)[|Preorder(tree, [], 0)| - 1 - p] == StatHandle(isOp)(Preorder(tree, [], 0)[p])
  {
    FlattenReversesPreorder(tree, [], 0, StatHandle(isOp), []);
    var nodes := Preorder(tree, [], 0);
    var m := Mapped(StatHandle(isOp), nodes);
    assert TheStats(tree, isOp) == Reversed(m);
  }

  // ----- assigning the places -----

  lemma {:induction false} OffsetOfConcat(a: seq<Handle>, b: seq<Handle>, i: nat)
    requires i <= |b|
    ensures Offset(a + b, |a| + i) == Offset(a, |a|) + Offset(b, i)
  {
    if i > 0 {
      OffsetOfConcat(a, b, i - 1);
      assert (a + b)[|a| + i - 1] == b[i - 1];
    } else {
      OffsetOfPrefix(a, b, |a|);
    }
  }

  lemma {:induction false} OffsetOfPrefix(a: seq<Handle>, b: seq<Handle>, j: nat)
    requires j <= |a|
    ensures forall i :: 0 <= i <= j ==> Offset(a + b, i) == Offset(a, i)
  {
    if j > 0 {
      OffsetOfPrefix(a, b, j - 1);
    }
  }

  /** Adds up the sizes of a list. */
  method AddSizes(hs: seq<Handle>, before: nat) returns (total: nat)
    ensures total == before + Offset(hs, |hs|)
  {
    total := before;
    for i := 0 to |hs|
      invariant total == before + Offset(hs, i)
    {
      total := total + hs[i].SharedSize();
    }
  }

  /** Hands out the places of a list, one behind the other. */
  method SetSharedPointers(hs: seq<Handle>, start: nat) returns (ptrs: seq<nat>, next: nat)
    ensures |ptrs| == |hs| && forall i :: 0 <= i < |hs| ==> ptrs[i] == start + Offset(hs, i)
    ensures next == start + Offset(hs, |hs|)
  {
    ptrs, next := [], start;
    for i := 0 to |hs|
      invariant |ptrs| == i && next == start + Offset(hs, i)
      invariant forall j :: 0 <= j < i ==> ptrs[j] == start + Offset(hs, j)
    {
      ptrs := ptrs + [next];
      next := next + hs[i].SharedSize();
    }
  }

  /** The total size and the place of every tag, statistics first and then loggers. */
  method AssignPlaces(stats: seq<Handle>, logs: seq<Handle>)
    returns (total: nat, statPtrs: seq<nat>, logPtrs: seq<nat>)
    ensures total == Offset(stats + logs, |stats + logs|)
    ensures |statPtrs| == |stats| && forall i :: 0 <= i < |stats| ==> statPtrs[i] == Offset(stats + logs, i)
    ensures |logPtrs| == |logs| && forall i :: 0 <= i < |logs| ==> logPtrs[i] == Offset(stats + logs, |stats| + i)
  {
    total := AddSizes(stats, 0);
    total := AddSizes(logs, total);
    var next;
    statPtrs, next := SetSharedPointers(stats, 0);
    logPtrs, next := SetSharedPointers(logs, next);
    OffsetOfPrefix(stats, logs, |stats|);
    forall i | 0 <= i <= |logs| ensures Offset(stats + logs, |stats| + i) == Offset(stats, |stats|) + Offset(logs, i) {
      OffsetOfConcat(stats, logs, i);
    }
  }
}
