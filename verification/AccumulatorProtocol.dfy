/** Writers, the serializer and the controller of one accumulator, step by step. The mutex guards
    the accumulator, but not the control word: the controller sets it at any time. */
module AccumulatorProtocol {
  import opened Sequences

  /** A sample, and how many clears there were when its write began and when it was added. */
  datatype Sample = Sample(value: int, began: nat, added: nat)

  /** Where a writer is: before the lock, before the test of the control word, before the reset,
      before the word is zeroed, before the sample is added, before the unlock. */
  datatype WriterPc =
    | Idle
    | Waiting(x: int, began: nat)
    | Testing(x: int, began: nat)
    | Resetting(x: int, began: nat)
    | Zeroing(x: int, began: nat)
    | Adding(x: int, began: nat)
    | Leaving(began: nat)

  datatype SerializerPc = Away | Copying(k: nat)

  /** Where a dump is: it looks at the control word and then at the value, for one feature after the
      other. `undisturbed` says that neither word nor values were touched since it began. */
  datatype DumperPc =
    | NoDump
    | AtWord(shown: seq<nat>, undisturbed: bool)
    | AtValue(shown: seq<nat>, valid: bool, undisturbed: bool)

  datatype Holder = Free | ByWriter(w: nat) | BySerializer

  datatype State = State(
    /** The features' values for given samples. */
    extracts: seq<seq<int> -> nat>,
    acc: seq<Sample>,
    word: bool,
    lock: Holder,
    writers: seq<WriterPc>,
    serializer: SerializerPc,
    dumper: DumperPc,
    shared: seq<nat>,
    clears: nat,
    resets: nat,
    /** Every sample ever added, and how many of them resets have dropped. */
    log: seq<Sample>,
    dropped: nat,
    /** The part of `log` that the last finished serialization saw, and the resets before it. */
    from: nat,
    to: nat,
    resetsThen: nat,
    /** There was such a serialization. */
    served: bool,
    /** The latest begin of a finished write. */
    barrier: nat)

  datatype Step =
    | Call(w: nat, x: int)
    | Lock(w: nat)
    | Test(w: nat)
    | Reset(w: nat)
    | Zero(w: nat)
    | Add(w: nat)
    | Unlock(w: nat)
    | SerializerLock
    | CopyFeature
    | SerializerUnlock
    | ClearStat
    | DumpStart
    | DumpWord
    | DumpValue
    | DumpEnd

  function Values(acc: seq<Sample>): (r: seq<int>)
    ensures |r| == |acc| && forall i :: 0 <= i < |acc| ==> r[i] == acc[i].value
  {
    seq(|acc|, i requires 0 <= i < |acc| => acc[i].value)
  }

  function FeatureOf(extract: seq<int> -> nat, acc: seq<Sample>): nat {
    extract(Values(acc))
  }

  function Summarized(extracts: seq<seq<int> -> nat>, acc: seq<Sample>): (r: seq<nat>)
    ensures |r| == |extracts| && forall i :: 0 <= i < |extracts| ==> r[i] == FeatureOf(extracts[i], acc)
  {
    seq(|extracts|, i requires 0 <= i < |extracts| => FeatureOf(extracts[i], acc))
  }

  function AllZero(n: nat): (r: seq<nat>)
    ensures |r| == n
  {
    seq(n, _ => 0)
  }

  /** What a dump in one step shows: zeros while the control word is set. */
  function Dump(s: State): seq<nat> {
    if s.word then AllZero(|s.shared|) else s.shared
  }

  ghost predicate Init(s: State) {
    && s.acc == [] && !s.word && s.lock == Free && s.serializer == Away && s.dumper == NoDump
    && (forall w :: 0 <= w < |s.writers| ==> s.writers[w] == Idle)
    && s.shared == AllZero(|s.extracts|)
    && s.clears == 0 && s.resets == 0 && s.log == [] && s.dropped == 0
    && s.from == 0 && s.to == 0 && s.resetsThen == 0 && !s.served && s.barrier == 0
  }

  predicate Enabled(s: State, step: Step) {
    match step
    case Call(w, _) => w < |s.writers| && s.writers[w].Idle?
    case Lock(w) => w < |s.writers| && s.writers[w].Waiting? && s.lock == Free
    case Test(w) => w < |s.writers| && s.writers[w].Testing?
    case Reset(w) => w < |s.writers| && s.writers[w].Resetting?
    case Zero(w) => w < |s.writers| && s.writers[w].Zeroing?
    case Add(w) => w < |s.writers| && s.writers[w].Adding?
    case Unlock(w) => w < |s.writers| && s.writers[w].Leaving?
    case SerializerLock => s.serializer.Away? && s.lock == Free
    case CopyFeature => s.serializer.Copying? && s.serializer.k < |s.extracts| <= |s.shared|
    case SerializerUnlock => s.serializer.Copying? && s.serializer.k == |s.extracts|
    case ClearStat => true
    case DumpStart => s.dumper.NoDump?
    case DumpWord => s.dumper.AtWord? && |s.dumper.shown| < |s.shared|
    case DumpValue => s.dumper.AtValue? && |s.dumper.shown| < |s.shared|
    case DumpEnd => s.dumper.AtWord? && |s.dumper.shown| == |s.shared|
  }

  /** A dump under way when word or values are touched. */
  function Disturbed(d: DumperPc): DumperPc {
    if d.NoDump? then d else d.(undisturbed := false)
  }

  function Goto(s: State, w: nat, pc: WriterPc): State
    requires w < |s.writers|
  {
    s.(writers := s.writers[w := pc])
  }

  function Max(a: nat, b: nat): nat {
    if a < b then b else a
  }

  function Perform(s: State, step: Step): State
    requires Enabled(s, step)
  {
    match step
    case Call(w, x) => Goto(s, w, Waiting(x, s.clears))
    case Lock(w) => Goto(s, w, Testing(s.writers[w].x, s.writers[w].began)).(lock := ByWriter(w))
    case Test(w) =>
      var pc := s.writers[w];
      Goto(s, w, if s.word then Resetting(pc.x, pc.began) else Adding(pc.x, pc.began))
    case Reset(w) =>
      Goto(s, w, Zeroing(s.writers[w].x, s.writers[w].began))
        .(acc := [], dropped := |s.log|, resets := s.resets + 1)
    case Zero(w) =>
      Goto(s, w, Adding(s.writers[w].x, s.writers[w].began)).(word := false, dumper := Disturbed(s.dumper))
    case Add(w) =>
      var sample := Sample(s.writers[w].x, s.writers[w].began, s.clears);
      Goto(s, w, Leaving(s.writers[w].began)).(acc := s.acc + [sample], log := s.log + [sample])
    case Unlock(w) => Goto(s, w, Idle).(lock := Free, barrier := Max(s.barrier, s.writers[w].began))
    case SerializerLock => s.(lock := BySerializer, serializer := Copying(0))
    case CopyFeature =>
      var k := s.serializer.k;
      s.(shared := s.shared[k := FeatureOf(s.extracts[k], s.acc)], serializer := Copying(k + 1),
         dumper := Disturbed(s.dumper))
    case SerializerUnlock =>
      s.(lock := Free, serializer := Away, from := s.dropped, to := |s.log|, resetsThen := s.resets,
         served := true)
    case ClearStat => s.(word := true, clears := s.clears + 1, dumper := Disturbed(s.dumper))
    case DumpStart => s.(dumper := AtWord([], true))
    case DumpWord => s.(dumper := AtValue(s.dumper.shown, !s.word, s.dumper.undisturbed))
    case DumpValue =>
      var d := s.dumper;
      s.(dumper := AtWord(d.shown + [if d.valid then s.shared[|d.shown|] else 0], d.undisturbed))
    case DumpEnd => s.(dumper := NoDump)
  }

  // ----- the invariant -----

  predicate Inside(pc: WriterPc) {
    !pc.Idle? && !pc.Waiting?
  }

  ghost predicate Exclusive(s: State) {
    && (forall w :: 0 <= w < |s.writers| ==> (Inside(s.writers[w]) <==> s.lock == ByWriter(w)))
    && (s.serializer.Copying? <==> s.lock == BySerializer)
    && (s.lock.ByWriter? ==> s.lock.w < |s.writers|)
  }

  ghost predicate AddedSince(acc: seq<Sample>, c: nat) {
    forall i :: 0 <= i < |acc| ==> acc[i].added >= c
  }

  ghost predicate BeganBefore(acc: seq<Sample>, c: nat) {
    forall i :: 0 <= i < |acc| ==> acc[i].began < c
  }

  /** The accumulator holds what was added since the last reset. */
  ghost predicate Bookkeeping(s: State) {
    && s.dropped <= |s.log| && s.acc == s.log[s.dropped..]
    && (forall i :: 0 <= i < |s.log| ==> s.log[i].began <= s.log[i].added <= s.clears)
    && (forall w :: 0 <= w < |s.writers| && !s.writers[w].Idle? ==> s.writers[w].began <= s.clears)
  }

  /** No sample of the accumulator is older than a clear that was consumed, and none that was
      dropped belongs to a write that began after the last clear. */
  ghost predicate Fresh(s: State) {
    && s.barrier <= s.clears && AddedSince(s.acc, s.barrier)
    && (!s.word ==> AddedSince(s.acc, s.clears))
    && (s.word ==> BeganBefore(s.acc, s.clears))
    && (forall i :: 0 <= i < s.dropped && i < |s.log| ==> s.log[i].began < s.clears)
  }

  /** What the thread inside the lock knows. */
  ghost predicate HolderKnows(s: State)
    requires Exclusive(s)
  {
    s.lock.ByWriter? ==>
      match s.writers[s.lock.w]
      case Resetting(_, _) => s.word
      case Zeroing(_, _) => s.word && s.acc == []
      case Adding(_, began) => AddedSince(s.acc, began) && (s.word ==> began < s.clears)
      case Leaving(began) => AddedSince(s.acc, began)
      case _ => true
  }

  /** The shared summary is that of the samples the last serialization saw, or is being replaced. */
  ghost predicate Displayed(s: State) {
    && |s.shared| == |s.extracts|
    && s.from <= s.to <= |s.log|
    && s.resetsThen <= s.resets
    && (if s.resetsThen == s.resets then s.from == s.dropped || s.from == s.to else s.to <= s.dropped)
    && (match s.serializer
        case Away => s.shared == if s.served then Summarized(s.extracts, s.log[s.from..s.to]) else AllZero(|s.extracts|)
        case Copying(k) => k <= |s.extracts| && s.shared[..k] == Summarized(s.extracts, s.acc)[..k])
  }

  /** What an undisturbed dump has shown so far is the front of a dump in one step. */
  ghost predicate DumpSoFar(s: State) {
    s.dumper.NoDump? || !s.dumper.undisturbed ||
    (|s.dumper.shown| <= |s.shared| && s.dumper.shown == Dump(s)[..|s.dumper.shown|]
     && (s.dumper.AtValue? ==> s.dumper.valid == !s.word))
  }

  ghost predicate Inv(s: State) {
    Exclusive(s) && Bookkeeping(s) && Fresh(s) && HolderKnows(s) && Displayed(s) && DumpSoFar(s)
  }

  lemma InitEstablishesInv(s: State)
    requires Init(s)
    ensures Inv(s)
  {
  }

  lemma ExclusiveKept(s: State, step: Step)
    requires Exclusive(s) && Enabled(s, step)
    ensures Exclusive(Perform(s, step))
  {
  }

  lemma BookkeepingKept(s: State, step: Step)
    requires Exclusive(s) && Bookkeeping(s) && Enabled(s, step)
    ensures Bookkeeping(Perform(s, step))
  {
    if step.Add? {
      var sample := Sample(s.writers[step.w].x, s.writers[step.w].began, s.clears);
      assert (s.log + [sample])[s.dropped..] == s.log[s.dropped..] + [sample];
    }
  }

  lemma FreshKept(s: State, step: Step)
    requires Inv(s) && Enabled(s, step)
    ensures Fresh(Perform(s, step))
  {
    var s' := Perform(s, step);
    match step
    case Reset(w) => ResetKeepsFresh(s, w);
    case Add(w) => assert s.lock == ByWriter(w);
    case Unlock(w) => assert s.lock == ByWriter(w);
    case Zero(w) => assert s.lock == ByWriter(w);
    case _ =>
  }

  lemma ResetKeepsFresh(s: State, w: nat)
    requires Inv(s) && Enabled(s, Reset(w))
    ensures Fresh(Perform(s, Reset(w)))
  {
    assert s.lock == ByWriter(w);
    forall i | s.dropped <= i < |s.log| ensures s.log[i].began < s.clears {
      assert s.log[i] == s.acc[i - s.dropped];
    }
  }

  lemma HolderKnowsKept(s: State, step: Step)
    requires Inv(s) && Enabled(s, step) && Exclusive(Perform(s, step))
    ensures HolderKnows(Perform(s, step))
  {
  }

  lemma DisplayedKept(s: State, step: Step)
    requires Inv(s) && Enabled(s, step)
    ensures Displayed(Perform(s, step))
  {
    match step
    case Add(w) => AddKeepsDisplay(s, w);
    case Reset(w) => ResetKeepsDisplay(s, w);
    case SerializerUnlock => UnlockKeepsDisplay(s);
    case CopyFeature => CopyKeepsDisplay(s);
    case _ =>
  }

  lemma ResetKeepsDisplay(s: State, w: nat)
    requires Inv(s) && Enabled(s, Reset(w))
    ensures Displayed(Perform(s, Reset(w)))
  {
    assert s.lock == ByWriter(w);
  }

  lemma UnlockKeepsDisplay(s: State)
    requires Inv(s) && Enabled(s, SerializerUnlock)
    ensures Displayed(Perform(s, SerializerUnlock))
  {
    assert s.log[s.dropped..|s.log|] == s.acc;
    assert s.shared[..|s.extracts|] == s.shared;
    assert Summarized(s.extracts, s.acc)[..|s.extracts|] == Summarized(s.extracts, s.acc);
  }

  lemma AddKeepsDisplay(s: State, w: nat)
    requires Inv(s) && Enabled(s, Add(w))
    ensures Displayed(Perform(s, Add(w)))
  {
    assert Perform(s, Add(w)).log[s.from..s.to] == s.log[s.from..s.to];
  }

  lemma CopyKeepsDisplay(s: State)
    requires Inv(s) && Enabled(s, CopyFeature)
    ensures Displayed(Perform(s, CopyFeature))
  {
    var k := s.serializer.k;
    NextShown(Summarized(s.extracts, s.acc), k);
    NextShown(Perform(s, CopyFeature).shared, k);
    assert Perform(s, CopyFeature).shared[..k] == s.shared[..k];
  }

  lemma DumpSoFarKept(s: State, step: Step)
    requires DumpSoFar(s) && Enabled(s, step)
    ensures DumpSoFar(Perform(s, step))
  {
    if step.DumpValue? && s.dumper.undisturbed {
      NextShown(Dump(s), |s.dumper.shown|);
    }
  }

  lemma NextShown(d: seq<nat>, n: nat)
    requires n < |d|
    ensures d[..n + 1] == d[..n] + [d[n]]
  {
  }

  lemma StepKeepsInv(s: State, step: Step)
    requires Inv(s) && Enabled(s, step)
    ensures Inv(Perform(s, step))
  {
    ExclusiveKept(s, step);
    BookkeepingKept(s, step);
    FreshKept(s, step);
    HolderKnowsKept(s, step);
    DisplayedKept(s, step);
    DumpSoFarKept(s, step);
  }

  // ----- runs -----

  ghost predicate Possible(s: State, steps: seq<Step>)
    decreases |steps|
  {
    steps != [] ==> Enabled(s, steps[0]) && Possible(Perform(s, steps[0]), steps[1..])
  }

  function Run(s: State, steps: seq<Step>): State
    requires Possible(s, steps)
    decreases |steps|
  {
    if steps == [] then s else Run(Perform(s, steps[0]), steps[1..])
  }

  lemma {:induction false} RunKeepsInv(s: State, steps: seq<Step>)
    requires Inv(s) && Possible(s, steps)
    ensures Inv(Run(s, steps))
    decreases |steps|
  {
    if steps != [] {
      StepKeepsInv(s, steps[0]);
      RunKeepsInv(Perform(s, steps[0]), steps[1..]);
    }
  }

  /** No clear is lost: once a write has finished, the accumulator never again holds a sample that
      was added before the clears that came before that write, whatever clears came in between. */
  lemma NoClearIsLost(s: State, steps: seq<Step>, w: nat, more: seq<Step>)
    requires Init(s) && Possible(s, steps) && Enabled(Run(s, steps), Unlock(w))
    requires Possible(Perform(Run(s, steps), Unlock(w)), more)
    ensures var began := Run(s, steps).writers[w].began;
            AddedSince(Run(Perform(Run(s, steps), Unlock(w)), more).acc, began)
  {
    InitEstablishesInv(s);
    RunKeepsInv(s, steps);
    var t := Perform(Run(s, steps), Unlock(w));
    StepKeepsInv(Run(s, steps), Unlock(w));
    RunKeepsInv(t, more);
    BarrierGrows(t, more);
  }

  lemma {:induction false} BarrierGrows(s: State, steps: seq<Step>)
    requires Possible(s, steps)
    ensures s.barrier <= Run(s, steps).barrier
    decreases |steps|
  {
    if steps != [] {
      BarrierGrows(Perform(s, steps[0]), steps[1..]);
    }
  }

  /** No sample is lost to a clear that came before its write: every sample whose write began after
      the last clear is still in the accumulator. */
  lemma LateSamplesStay(s: State, steps: seq<Step>, i: nat)
    requires Init(s) && Possible(s, steps)
    requires i < |Run(s, steps).log| && Run(s, steps).log[i].began == Run(s, steps).clears
    ensures var end := Run(s, steps);
            end.dropped <= i && i - end.dropped < |end.acc| && end.acc[i - end.dropped] == end.log[i]
  {
    InitEstablishesInv(s);
    RunKeepsInv(s, steps);
  }

  // ----- what dumps show -----

  /** Whenever no serialization is under way, a dump shows zeros if the control word is set or there was
      none yet, and otherwise the summary of exactly the samples the last serialization saw. */
  lemma DumpShowsLastSummary(s: State, steps: seq<Step>)
    requires Init(s) && Possible(s, steps) && Run(s, steps).serializer.Away?
    ensures var end := Run(s, steps);
            && end.from <= end.to <= |end.log|
            && Dump(end) == (if end.word || !end.served then AllZero(|end.extracts|)
                             else Summarized(end.extracts, end.log[end.from..end.to]))
  {
    InitEstablishesInv(s);
    RunKeepsInv(s, steps);
  }

  /** A dump that nobody disturbs until its last feature shows what a dump in one step would. */
  lemma UndisturbedDumpIsWhole(s: State, steps: seq<Step>)
    requires Init(s) && Possible(s, steps) && Enabled(Run(s, steps), DumpEnd)
    requires Run(s, steps).dumper.undisturbed
    ensures Run(s, steps).dumper.shown == Dump(Run(s, steps))
  {
    InitEstablishesInv(s);
    RunKeepsInv(s, steps);
  }

  /** From a clear on every dump shows zeros until a writer zeroes the control word, however often
      the serializer runs. */
  lemma {:induction false} ZerosUntilZeroed(s: State, steps: seq<Step>)
    requires s.word && Possible(s, steps) && forall i :: 0 <= i < |steps| ==> !steps[i].Zero?
    ensures Run(s, steps).word && Dump(Run(s, steps)) == AllZero(|Run(s, steps).shared|)
    decreases |steps|
  {
    if steps != [] {
      assert !steps[0].Zero?;
      ZerosUntilZeroed(Perform(s, steps[0]), steps[1..]);
    }
  }

  /** With the control word zero, a dump that shows samples at all shows only ones the accumulator
      still holds exactly if the serializer has run since the last reset. */
  lemma DumpIsCurrentExactly(s: State, steps: seq<Step>)
    requires Init(s) && Possible(s, steps)
    requires var end := Run(s, steps); !end.word && end.from < end.to
    ensures var end := Run(s, steps); end.dropped <= end.from <==> end.resetsThen == end.resets
    ensures var end := Run(s, steps);
            && end.to <= |end.log|
            && (end.resetsThen == end.resets ==> AddedSince(end.log[end.from..end.to], end.clears))
            && (end.resetsThen < end.resets ==> BeganBefore(end.log[end.from..end.to], end.clears))
  {
    InitEstablishesInv(s);
    RunKeepsInv(s, steps);
    var end := Run(s, steps);
    forall i | end.from <= i < end.to
      ensures if end.resetsThen == end.resets then end.log[i].added >= end.clears else end.log[i].began < end.clears
    {
      if end.resetsThen == end.resets {
        assert end.log[i] == end.acc[i - end.dropped];
      }
    }
  }

  // ----- whole operations -----

  lemma {:induction false} RunConcat(s: State, a: seq<Step>, b: seq<Step>)
    requires Possible(s, a) && Possible(Run(s, a), b)
    ensures Possible(s, a + b) && Run(s, a + b) == Run(Run(s, a), b)
    decreases |a|
  {
    if a == [] {
      assert a + b == b;
    } else {
      TailOfConcat(a, b);
      RunConcat(Perform(s, a[0]), a[1..], b);
    }
  }

  lemma RunOne(s: State, step: Step)
    requires Enabled(s, step)
    ensures Possible(s, [step]) && Run(s, [step]) == Perform(s, step)
  {
    assert [step][1..] == [];
    assert Possible(Perform(s, step), []);
  }

  lemma RunTwo(s: State, a: Step, b: Step)
    requires Enabled(s, a) && Enabled(Perform(s, a), b)
    ensures Possible(s, [a, b]) && Run(s, [a, b]) == Perform(Perform(s, a), b)
  {
    RunOne(s, a);
    RunOne(Perform(s, a), b);
    RunConcat(s, [a], [b]);
    assert [a] + [b] == [a, b];
  }

  ghost predicate Quiet(s: State, w: nat) {
    w < |s.writers| && s.writers[w].Idle? && s.lock == Free && s.serializer.Away?
  }

  function WriteSteps(word: bool, w: nat, x: int): seq<Step> {
    [Call(w, x), Lock(w)] + ([Test(w)] + ((if word then [Reset(w), Zero(w)] else []) + [Add(w), Unlock(w)]))
  }

  /** The state after a write that nothing interrupts. */
  function AfterWrite(s: State, w: nat, x: int): State {
    var sample := Sample(x, s.clears, s.clears);
    s.(acc := (if s.word then [] else s.acc) + [sample], word := false, log := s.log + [sample],
       dropped := if s.word then |s.log| else s.dropped, resets := if s.word then s.resets + 1 else s.resets,
       barrier := Max(s.barrier, s.clears), dumper := if s.word then Disturbed(s.dumper) else s.dumper)
  }

  lemma EnterSteps(s: State, w: nat, x: int)
    requires Quiet(s, w)
    ensures Possible(s, [Call(w, x), Lock(w)])
    ensures Run(s, [Call(w, x), Lock(w)]) == Goto(s, w, Testing(x, s.clears)).(lock := ByWriter(w))
  {
    RunTwo(s, Call(w, x), Lock(w));
  }

  lemma LeaveSteps(s: State, w: nat, x: int, began: nat)
    requires w < |s.writers| && s.writers[w] == Adding(x, began)
    ensures Possible(s, [Add(w), Unlock(w)])
    ensures var sample := Sample(x, began, s.clears);
            Run(s, [Add(w), Unlock(w)]) ==
            Goto(s, w, Idle).(acc := s.acc + [sample], log := s.log + [sample], lock := Free,
                              barrier := Max(s.barrier, began))
  {
    RunTwo(s, Add(w), Unlock(w));
  }

  lemma ResetSteps(s: State, w: nat, x: int, began: nat)
    requires w < |s.writers| && s.writers[w] == Resetting(x, began)
    ensures Possible(s, [Reset(w), Zero(w)])
    ensures Run(s, [Reset(w), Zero(w)]) ==
            Goto(s, w, Adding(x, began)).(acc := [], dropped := |s.log|, resets := s.resets + 1, word := false,
                                          dumper := Disturbed(s.dumper))
  {
    RunTwo(s, Reset(w), Zero(w));
  }

  /** The rest of a write behind the test of the control word. */
  lemma RestOfWrite(s: State, w: nat, x: int, began: nat, word: bool, steps: seq<Step>)
    requires w < |s.writers| && s.writers[w] == (if word then Resetting(x, began) else Adding(x, began))
    requires steps == (if word then [Reset(w), Zero(w)] else []) + [Add(w), Unlock(w)]
    ensures Possible(s, steps)
    ensures var sample := Sample(x, began, s.clears);
            Run(s, steps) ==
            Goto(s, w, Idle).(acc := (if word then [] else s.acc) + [sample], log := s.log + [sample], lock := Free,
                              dropped := if word then |s.log| else s.dropped,
                              resets := if word then s.resets + 1 else s.resets,
                              word := if word then false else s.word, barrier := Max(s.barrier, began),
                              dumper := if word then Disturbed(s.dumper) else s.dumper)
  {
    var middle, leave := if word then [Reset(w), Zero(w)] else [], [Add(w), Unlock(w)];
    if word {
      ResetSteps(s, w, x, began);
    }
    var c := Run(s, middle);
    LeaveSteps(c, w, x, began);
    RunConcat(s, middle, leave);
  }

  /** An undisturbed write, as one operation. */
  lemma WriteAlone(s: State, w: nat, x: int, steps: seq<Step>)
    requires Quiet(s, w) && steps == WriteSteps(s.word, w, x)
    ensures Possible(s, steps) && Run(s, steps) == AfterWrite(s, w, x)
  {
    var enter, test := [Call(w, x), Lock(w)], [Test(w)];
    var rest := (if s.word then [Reset(w), Zero(w)] else []) + [Add(w), Unlock(w)];
    EnterSteps(s, w, x);
    var a := Run(s, enter);
    RunOne(a, Test(w));
    var b := Run(a, test);
    RestOfWrite(b, w, x, s.clears, s.word, rest);
    assert Run(b, rest).writers == s.writers;
    RunConcat(a, test, rest);
    RunConcat(s, enter, test + rest);
  }

  function CopySteps(n: nat): seq<Step> {
    seq(n, _ => CopyFeature)
  }

  function SerializeSteps(n: nat): seq<Step> {
    [SerializerLock] + (CopySteps(n) + [SerializerUnlock])
  }

  lemma {:induction false} CopyAlone(s: State, n: nat, steps: seq<Step>)
    requires s.serializer.Copying? && |s.shared| == |s.extracts| && s.serializer.k + n == |s.extracts|
    requires |steps| == n && forall i :: 0 <= i < n ==> steps[i] == CopyFeature
    ensures Possible(s, steps)
    ensures var k := s.serializer.k;
            Run(s, steps) ==
            s.(shared := s.shared[..k] + Summarized(s.extracts, s.acc)[k..], serializer := Copying(|s.extracts|),
               dumper := if n == 0 then s.dumper else Disturbed(s.dumper))
    decreases n
  {
    var k, all := s.serializer.k, Summarized(s.extracts, s.acc);
    if n == 0 {
      assert s.shared[..k] + all[k..] == s.shared;
    } else {
      CopyAlone(Perform(s, CopyFeature), n - 1, steps[1..]);
      CopiedOne(s.shared, all, k);
    }
  }

  lemma CopiedOne(shared: seq<nat>, all: seq<nat>, k: nat)
    requires k < |shared| == |all|
    ensures shared[k := all[k]][..k + 1] + all[k + 1..] == shared[..k] + all[k..]
  {
  }

  /** An undisturbed serialization, as one operation. */
  lemma SerializeAlone(s: State, steps: seq<Step>)
    requires s.lock == Free && s.serializer.Away? && |s.shared| == |s.extracts| && steps == SerializeSteps(|s.extracts|)
    ensures Possible(s, steps)
    ensures Run(s, steps) ==
            s.(shared := Summarized(s.extracts, s.acc), from := s.dropped, to := |s.log|, resetsThen := s.resets,
               served := true, dumper := if |s.extracts| == 0 then s.dumper else Disturbed(s.dumper))
  {
    var n := |s.extracts|;
    RunOne(s, SerializerLock);
    var a := Run(s, [SerializerLock]);
    CopyAlone(a, n, CopySteps(n));
    var b := Run(a, CopySteps(n));
    RunOne(b, SerializerUnlock);
    RunConcat(a, CopySteps(n), [SerializerUnlock]);
    RunConcat(s, [SerializerLock], CopySteps(n) + [SerializerUnlock]);
    assert s.shared[..0] + Summarized(s.extracts, s.acc)[0..] == Summarized(s.extracts, s.acc);
  }

  /** A write and a serialization, from the start. */
  function ServeSteps(n: nat, x: int): seq<Step> {
    WriteSteps(false, 0, x) + SerializeSteps(n)
  }

  lemma OneSampleServed(s: State, x: int, n: nat)
    requires Init(s) && |s.writers| > 0 && n == |s.extracts|
    ensures Possible(s, ServeSteps(n, x))
    ensures var end := Run(s, ServeSteps(n, x));
            && end.shared == Summarized(s.extracts, [Sample(x, 0, 0)]) && end.extracts == s.extracts
            && !end.word && end.clears == 0 && Quiet(end, 0) && end.dumper == NoDump
  {
    WriteAlone(s, 0, x, WriteSteps(false, 0, x));
    var a := Run(s, WriteSteps(false, 0, x));
    SerializeAlone(a, SerializeSteps(n));
    RunConcat(s, WriteSteps(false, 0, x), SerializeSteps(n));
    assert a.acc == [Sample(x, 0, 0)];
  }

  lemma ClearThenWrite(s: State, w: nat, y: int, write: seq<Step>, steps: seq<Step>)
    requires Quiet(s, w) && write == WriteSteps(true, w, y) && steps == [ClearStat] + write
    ensures Possible(s, steps)
    ensures var end, c := Run(s, steps), s.clears + 1;
            end.acc == [Sample(y, c, c)] && !end.word && Dump(end) == s.shared
  {
    RunOne(s, ClearStat);
    WriteAlone(Perform(s, ClearStat), w, y, write);
    RunConcat(s, [ClearStat], write);
  }

  /** After a clear, a write that finishes before the next serialization brings the old summary
      back: the dump shows the sample from before the clear, which the accumulator has dropped. */
  lemma StaleSummaryReappears(s: State, x: int, y: int, steps: seq<Step>)
    requires Init(s) && |s.writers| > 0
    requires steps == ServeSteps(|s.extracts|, x) + ([ClearStat] + WriteSteps(true, 0, y))
    ensures Possible(s, steps)
    ensures var end := Run(s, steps);
            && end.acc == [Sample(y, 1, 1)] && !end.word
            && Dump(end) == Summarized(s.extracts, [Sample(x, 0, 0)])
  {
    var serve, more := ServeSteps(|s.extracts|, x), [ClearStat] + WriteSteps(true, 0, y);
    OneSampleServed(s, x, |s.extracts|);
    ClearThenWrite(Run(s, serve), 0, y, WriteSteps(true, 0, y), more);
    RunConcat(s, serve, more);
  }

  lemma ShowSteps(s: State)
    requires s.dumper.AtWord? && |s.dumper.shown| < |s.shared|
    ensures Possible(s, [DumpWord, DumpValue])
    ensures Run(s, [DumpWord, DumpValue]) ==
            s.(dumper := AtWord(s.dumper.shown + [Dump(s)[|s.dumper.shown|]], s.dumper.undisturbed))
  {
    RunTwo(s, DumpWord, DumpValue);
  }

  /** A dump of two features with a clear between them. */
  function TornDump(): seq<Step> {
    [DumpStart] + ([DumpWord, DumpValue] + ([ClearStat] + [DumpWord, DumpValue]))
  }

  lemma ClearBetweenFeatures(s: State)
    requires s.dumper.NoDump? && !s.word && |s.shared| == 2
    ensures Possible(s, TornDump())
    ensures Run(s, TornDump()).dumper == AtWord([s.shared[0], 0], false)
  {
    var show := [DumpWord, DumpValue];
    RunOne(s, DumpStart);
    var a := Run(s, [DumpStart]);
    ShowSteps(a);
    var b := Run(a, show);
    RunOne(b, ClearStat);
    var c := Run(b, [ClearStat]);
    ShowSteps(c);
    RunConcat(b, [ClearStat], show);
    RunConcat(a, show, [ClearStat] + show);
    RunConcat(s, [DumpStart], show + ([ClearStat] + show));
  }

  /** A clear in the middle of a dump tears it: the dump shows the first feature's value and a zero for
      the second. */
  lemma DumpIsTorn(s: State, x: int, steps: seq<Step>)
    requires Init(s) && |s.writers| > 0 && |s.extracts| == 2 && steps == ServeSteps(2, x) + TornDump()
    ensures Possible(s, steps) && Run(s, steps).dumper == AtWord([s.extracts[0]([x]), 0], false)
  {
    OneSampleServed(s, x, 2);
    ClearBetweenFeatures(Run(s, ServeSteps(2, x)));
    RunConcat(s, ServeSteps(2, x), TornDump());
    assert Values([Sample(x, 0, 0)]) == [x];
  }
}
