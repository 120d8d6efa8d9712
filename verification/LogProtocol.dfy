/** Several generator threads and retrievers sharing the log: who sees what, step by step. */
module LogProtocol {
  import opened Arithmetic
  import opened LogBlocks
  import opened LogWindow
  import opened LogOrder

  /** Where a writing thread is: outside, past the try-lock, or with `k` of its blocks stored. */
  datatype WriterPc = Outside | Admitted(e: Entry) | Storing(entry: Entry, start: nat, k: nat)

  /** Where a reader is: outside, or copying under the lock it took after `seen` accepted writes. */
  datatype ReaderPc = Away | Copying(copy: seq<Piece>, seen: nat)

  datatype Holder = Free | ByWriter(w: nat) | ByReader(r: nat)

  /** A finished copy and the number of writes accepted when its reader took the lock. */
  datatype Snapshot = Snapshot(blocks: seq<Piece>, seen: nat)

  datatype State = State(
    ring: seq<Piece>,
    cursor: nat,
    lock: Holder,
    writers: seq<WriterPc>,
    readers: seq<ReaderPc>,
    accepted: seq<Entry>,
    dropped: seq<Entry>,
    snapshots: seq<Snapshot>)

  datatype Step =
    | TryLock(w: nat, e: Entry)
    | Reserve(w: nat)
    | StoreBlock(w: nat)
    | WriterUnlock(w: nat)
    | ReaderLock(r: nat)
    | CopyBlock(r: nat)
    | ReaderUnlock(r: nat)

  ghost predicate Init(s: State) {
    && |s.ring| > 0 && s.ring == Blank(|s.ring|)
    && s.cursor == 0 && s.lock == Free
    && (forall w :: 0 <= w < |s.writers| ==> s.writers[w] == Outside)
    && (forall r :: 0 <= r < |s.readers| ==> s.readers[r] == Away)
    && s.accepted == [] && s.dropped == [] && s.snapshots == []
  }

  predicate Enabled(s: State, step: Step) {
    match step
    case TryLock(w, _) => w < |s.writers| && s.writers[w].Outside?
    case Reserve(w) => w < |s.writers| && s.writers[w].Admitted?
    case StoreBlock(w) => w < |s.writers| && s.writers[w].Storing? && s.writers[w].k < s.writers[w].entry.Size()
    case WriterUnlock(w) => w < |s.writers| && s.writers[w].Storing? && s.writers[w].k == s.writers[w].entry.Size()
    // a reader waits until the lock is free
    case ReaderLock(r) => r < |s.readers| && s.readers[r].Away? && s.lock == Free
    case CopyBlock(r) => r < |s.readers| && s.readers[r].Copying? && |s.readers[r].copy| < |s.ring|
    case ReaderUnlock(r) => r < |s.readers| && s.readers[r].Copying? && |s.readers[r].copy| == |s.ring|
  }

  function Perform(s: State, step: Step): State
    requires |s.ring| > 0 && Enabled(s, step)
  {
    var n := |s.ring|;
    match step
    case TryLock(w, e) =>
      // a writer that does not get the lock returns without logging
      if s.lock != Free then s.(dropped := s.dropped + [e])
      else s.(lock := ByWriter(w), writers := s.writers[w := Admitted(e)])
    case Reserve(w) =>
      var e := s.writers[w].e;
      s.(cursor := (s.cursor + e.Size()) % n, writers := s.writers[w := Storing(e, s.cursor, 0)])
    case StoreBlock(w) =>
      var pc := s.writers[w];
      s.(ring := s.ring[(pc.start + pc.k) % n := Piece(pc.entry, pc.k)],
         writers := s.writers[w := Storing(pc.entry, pc.start, pc.k + 1)])
    case WriterUnlock(w) =>
      s.(lock := Free, writers := s.writers[w := Outside], accepted := s.accepted + [s.writers[w].entry])
    case ReaderLock(r) =>
      s.(lock := ByReader(r), readers := s.readers[r := Copying([], |s.accepted|)])
    case CopyBlock(r) =>
      var pc := s.readers[r];
      s.(readers := s.readers[r := Copying(pc.copy + [s.ring[|pc.copy|]], pc.seen)])
    case ReaderUnlock(r) =>
      var pc := s.readers[r];
      s.(lock := Free, readers := s.readers[r := Away], snapshots := s.snapshots + [Snapshot(pc.copy, pc.seen)])
  }

  /** The lock's holder is the only one inside. */
  ghost predicate Exclusive(s: State) {
    && (forall w :: 0 <= w < |s.writers| ==> (s.writers[w] != Outside <==> s.lock == ByWriter(w)))
    && (forall r :: 0 <= r < |s.readers| ==> (s.readers[r] != Away <==> s.lock == ByReader(r)))
    && (s.lock.ByWriter? ==> s.lock.w < |s.writers|)
    && (s.lock.ByReader? ==> s.lock.r < |s.readers|)
  }

  ghost predicate MemoryAtRest(s: State)
    requires |s.ring| > 0
  {
    s.ring == RingAfter(s.accepted, |s.ring|) && s.cursor == Cursor(s.accepted, |s.ring|)
  }

  ghost predicate MemoryMidWrite(s: State, e: Entry, start: nat, k: nat)
    requires |s.ring| > 0
  {
    var n := |s.ring|;
    && k <= e.Size() && start == Cursor(s.accepted, n)
    && s.cursor == Cursor(s.accepted + [e], n)
    && s.ring == Put(RingAfter(s.accepted, n), start, Pieces(e)[..k])
  }

  ghost predicate SnapshotIsWhole(s: State, snap: Snapshot)
    requires |s.ring| > 0
  {
    snap.seen <= |s.accepted| && snap.blocks == RingAfter(s.accepted[..snap.seen], |s.ring|)
  }

  ghost predicate Inv(s: State) {
    && |s.ring| > 0
    && Exclusive(s)
    && (match s.lock
        case Free => MemoryAtRest(s)
        case ByReader(r) =>
          var pc := s.readers[r];
          MemoryAtRest(s) && pc.seen == |s.accepted| && pc.copy <= s.ring
        case ByWriter(w) =>
          var pc := s.writers[w];
          if pc.Admitted? then MemoryAtRest(s) else MemoryMidWrite(s, pc.entry, pc.start, pc.k))
    && (forall i :: 0 <= i < |s.snapshots| ==> SnapshotIsWhole(s, s.snapshots[i]))
  }

  lemma InitEstablishesInv(s: State)
    requires Init(s)
    ensures Inv(s)
  {
  }

  lemma ExclusiveKept(s: State, step: Step)
    requires |s.ring| > 0 && Exclusive(s) && Enabled(s, step)
    ensures Exclusive(Perform(s, step))
  {
  }

  lemma ReserveKeeps(s: State, w: nat)
    requires Inv(s) && Enabled(s, Reserve(w))
    ensures Inv(Perform(s, Reserve(w)))
  {
    ExclusiveKept(s, Reserve(w));
    CursorAdvances(s.accepted, s.writers[w].e, |s.ring|);
  }

  lemma StoreKeeps(s: State, w: nat)
    requires Inv(s) && Enabled(s, StoreBlock(w))
    ensures Inv(Perform(s, StoreBlock(w)))
  {
    ExclusiveKept(s, StoreBlock(w));
    var pc := s.writers[w];
    var ps := Pieces(pc.entry)[..pc.k + 1];
    assert ps[..|ps| - 1] == Pieces(pc.entry)[..pc.k];
  }

  lemma UnlockKeeps(s: State, w: nat)
    requires Inv(s) && Enabled(s, WriterUnlock(w))
    ensures Inv(Perform(s, WriterUnlock(w)))
  {
    ExclusiveKept(s, WriterUnlock(w));
    var e := s.writers[w].entry;
    var s' := Perform(s, WriterUnlock(w));
    assert Front(s'.accepted) == s.accepted && Last(s'.accepted) == e;
    assert Pieces(e)[..e.Size()] == Pieces(e);
    forall i | 0 <= i < |s'.snapshots| ensures SnapshotIsWhole(s', s'.snapshots[i]) {
      assert s'.accepted[..s.snapshots[i].seen] == s.accepted[..s.snapshots[i].seen];
    }
  }

  lemma CopyKeeps(s: State, r: nat)
    requires Inv(s) && Enabled(s, CopyBlock(r))
    ensures Inv(Perform(s, CopyBlock(r)))
  {
    ExclusiveKept(s, CopyBlock(r));
  }

  lemma ReaderUnlockKeeps(s: State, r: nat)
    requires Inv(s) && Enabled(s, ReaderUnlock(r))
    ensures Inv(Perform(s, ReaderUnlock(r)))
  {
    ExclusiveKept(s, ReaderUnlock(r));
    assert s.accepted[..|s.accepted|] == s.accepted;
  }

  lemma StepKeepsInv(s: State, step: Step)
    requires Inv(s) && Enabled(s, step)
    ensures Inv(Perform(s, step))
  {
    match step
    case Reserve(w) => ReserveKeeps(s, w);
    case StoreBlock(w) => StoreKeeps(s, w);
    case WriterUnlock(w) => UnlockKeeps(s, w);
    case CopyBlock(r) => CopyKeeps(s, r);
    case ReaderUnlock(r) => ReaderUnlockKeeps(s, r);
    case _ => ExclusiveKept(s, step);
  }

  ghost predicate Possible(s: State, steps: seq<Step>)
    decreases |steps|
  {
    steps != [] ==> |s.ring| > 0 && Enabled(s, steps[0]) && Possible(Perform(s, steps[0]), steps[1..])
  }

  function Run(s: State, steps: seq<Step>): State
    requires Possible(s, steps)
    decreases |steps|
  {
    if steps == [] then s else Run(Perform(s, steps[0]), steps[1..])
  }

  lemma {:induction false} RunKeepsInv(s: State, steps: seq<Step>)
    requires Inv(s) && Possible(s, steps)
    ensures Inv(Run(s, steps)) && |Run(s, steps).ring| == |s.ring|
    decreases |steps|
  {
    if steps != [] {
      StepKeepsInv(s, steps[0]);
      RunKeepsInv(Perform(s, steps[0]), steps[1..]);
    }
  }

  /** In every interleaving, every finished copy is the ring after exactly the writes accepted when
      its reader took the lock, so it shows exactly their survivors, each whole. */
  lemma SnapshotsAreWhole(s: State, steps: seq<Step>, i: nat)
    requires Init(s) && Possible(s, steps)
    requires i < |Run(s, steps).snapshots|
    ensures var end := Run(s, steps);
            var n, snap := |s.ring|, end.snapshots[i];
            && n == |end.ring| && snap.seen <= |end.accepted|
            && var h := end.accepted[..snap.seen];
            && snap.blocks == RingAfter(h, n)
            && Complete(Unroll(snap.blocks, Cursor(h, n)))
            && Heads(Unroll(snap.blocks, Cursor(h, n))) == Survivors(h, n)
  {
    InitEstablishesInv(s);
    RunKeepsInv(s, steps);
    var end := Run(s, steps);
    assert SnapshotIsWhole(end, end.snapshots[i]);
    var h := end.accepted[..end.snapshots[i].seen];
    RingUnrollsToWindow(h, |s.ring|);
    WindowHoldsSurvivors(h, |s.ring|);
  }

  /** Whenever no writer is inside, memory and cursor are those of the accepted writes alone;
      dropped writes left no trace. */
  lemma DroppedWritesLeaveNoTrace(s: State, steps: seq<Step>)
    requires Init(s) && Possible(s, steps) && !Run(s, steps).lock.ByWriter?
    ensures var end := Run(s, steps);
            |end.ring| > 0 && end.cursor == Total(end.accepted) % |end.ring|
            && end.ring == RingAfter(end.accepted, |end.ring|)
  {
    InitEstablishesInv(s);
    RunKeepsInv(s, steps);
  }

  // ----- no write is unaccounted for -----

  /** The entries whose writes begin in the steps, in order. */
  function Tried(steps: seq<Step>): seq<Entry>
    decreases |steps|
  {
    if steps == [] then [] else TriedBy(steps[0]) + Tried(steps[1..])
  }

  /** The entry that is being written, if any. */
  function InFlight(s: State): seq<Entry> {
    if s.lock.ByWriter? && s.lock.w < |s.writers| then
      match s.writers[s.lock.w]
      case Outside => []
      case Admitted(e) => [e]
      case Storing(e, _, _) => [e]
    else []
  }

  ghost function Told(s: State): multiset<Entry> {
    multiset(s.accepted) + multiset(s.dropped) + multiset(InFlight(s))
  }

  /** What a step begins. */
  function TriedBy(step: Step): seq<Entry> {
    if step.TryLock? then [step.e] else []
  }

  lemma LockAccounts(s: State, w: nat, e: Entry)
    requires |s.ring| > 0 && Exclusive(s) && Enabled(s, TryLock(w, e))
    ensures Told(Perform(s, TryLock(w, e))) == Told(s) + multiset{e}
  {
    if s.lock == Free {
      assert InFlight(Perform(s, TryLock(w, e))) == [e];
    }
  }

  lemma UnlockAccounts(s: State, w: nat)
    requires |s.ring| > 0 && Exclusive(s) && Enabled(s, WriterUnlock(w))
    ensures Told(Perform(s, WriterUnlock(w))) == Told(s)
  {
    assert s.lock == ByWriter(w);
  }

  lemma WritingAccounts(s: State, w: nat, step: Step)
    requires |s.ring| > 0 && Exclusive(s) && Enabled(s, step) && (step == Reserve(w) || step == StoreBlock(w))
    ensures Told(Perform(s, step)) == Told(s)
  {
    assert s.lock == ByWriter(w);
  }

  lemma ReadingAccounts(s: State, step: Step)
    requires |s.ring| > 0 && Exclusive(s) && Enabled(s, step)
    requires step.ReaderLock? || step.CopyBlock? || step.ReaderUnlock?
    ensures Told(Perform(s, step)) == Told(s)
  {
    assert step.CopyBlock? || step.ReaderUnlock? ==> s.lock == ByReader(step.r);
  }

  lemma StepAccounts(s: State, step: Step)
    requires |s.ring| > 0 && Exclusive(s) && Enabled(s, step)
    ensures Told(Perform(s, step)) == Told(s) + multiset(TriedBy(step))
  {
    match step
    case TryLock(w, e) => LockAccounts(s, w, e);
    case WriterUnlock(w) => UnlockAccounts(s, w);
    case Reserve(w) => WritingAccounts(s, w, step);
    case StoreBlock(w) => WritingAccounts(s, w, step);
    case _ => ReadingAccounts(s, step);
  }

  lemma RunAccountsOn(before: multiset<Entry>, middle: multiset<Entry>, end: multiset<Entry>, first: seq<Entry>,
                      rest: seq<Entry>)
    requires middle == before + multiset(first) && end == middle + multiset(rest)
    ensures end == before + multiset(first + rest)
  {
  }

  lemma {:induction false} RunAccounts(s: State, steps: seq<Step>)
    requires |s.ring| > 0 && Exclusive(s) && Possible(s, steps)
    ensures Told(Run(s, steps)) == Told(s) + multiset(Tried(steps))
    decreases |steps|
  {
    if steps != [] {
      var s', rest := Perform(s, steps[0]), steps[1..];
      ExclusiveKept(s, steps[0]);
      StepAccounts(s, steps[0]);
      RunAccounts(s', rest);
      RunAccountsOn(Told(s), Told(s'), Told(Run(s', rest)), TriedBy(steps[0]), Tried(rest));
    }
  }

  /** In every interleaving each write that was begun was accepted or dropped, once, or is the one that is
      inside. */
  lemma WritesAreAccountedFor(s: State, steps: seq<Step>)
    requires Init(s) && Possible(s, steps)
    ensures var end := Run(s, steps);
            multiset(Tried(steps)) == multiset(end.accepted) + multiset(end.dropped) + multiset(InFlight(end))
    ensures |InFlight(Run(s, steps))| <= 1 && (Run(s, steps).lock == Free ==> InFlight(Run(s, steps)) == [])
  {
    InitEstablishesInv(s);
    RunKeepsInv(s, steps);
    RunAccounts(s, steps);
  }

  // ----- whole operations -----

  function StoreSteps(w: nat, n: nat): seq<Step> {
    seq(n, _ => StoreBlock(w))
  }

  function WriteSteps(w: nat, e: Entry): seq<Step> {
    [TryLock(w, e)] + ([Reserve(w)] + (StoreSteps(w, e.Size()) + [WriterUnlock(w)]))
  }

  function CopySteps(r: nat, n: nat): seq<Step> {
    seq(n, _ => CopyBlock(r))
  }

  function ReadSteps(r: nat, n: nat): seq<Step> {
    [ReaderLock(r)] + (CopySteps(r, n) + [ReaderUnlock(r)])
  }

  lemma {:induction false} StoresAlone(s: State, w: nat, e: Entry, start: nat, k: nat, n: nat, steps: seq<Step>)
    requires |s.ring| > 0 && w < |s.writers| && s.writers[w] == Storing(e, start, k) && k + n == e.Size()
    requires steps == StoreSteps(w, n) + [WriterUnlock(w)]
    ensures Possible(s, steps)
    ensures var end := Run(s, steps);
            && end.accepted == s.accepted + [e] && end.dropped == s.dropped && end.lock == Free
            && end.writers == s.writers[w := Outside] && end.readers == s.readers && end.snapshots == s.snapshots
    decreases n
  {
    if n == 0 {
      assert steps == [WriterUnlock(w)];
      RunOfOne(s, WriterUnlock(w));
    } else {
      var rest := StoreSteps(w, n - 1) + [WriterUnlock(w)];
      var s' := Perform(s, StoreBlock(w));
      StoresAlone(s', w, e, start, k + 1, n - 1, rest);
      RunGoesOn(s, StoreBlock(w), rest, steps);
    }
  }

  /** A write that nobody disturbs is accepted. */
  lemma WriteAlone(s: State, w: nat, e: Entry)
    requires Inv(s) && s.lock == Free && w < |s.writers|
    ensures Possible(s, WriteSteps(w, e))
    ensures var end := Run(s, WriteSteps(w, e));
            && end.accepted == s.accepted + [e] && end.dropped == s.dropped && end.lock == Free
            && |end.ring| == |s.ring| && end.ring == RingAfter(s.accepted + [e], |s.ring|)
  {
    var stores := StoreSteps(w, e.Size()) + [WriterUnlock(w)];
    var s1 := Perform(s, TryLock(w, e));
    var s2 := Perform(s1, Reserve(w));
    StoresAlone(s2, w, e, s.cursor, 0, e.Size(), stores);
    RunGoesOn(s1, Reserve(w), stores, [Reserve(w)] + stores);
    RunGoesOn(s, TryLock(w, e), [Reserve(w)] + stores, WriteSteps(w, e));
    RunKeepsInv(s, WriteSteps(w, e));
  }

  /** A write that finds the lock taken is dropped at once. */
  lemma WriteIsDropped(s: State, w: nat, e: Entry)
    requires |s.ring| > 0 && s.lock != Free && Enabled(s, TryLock(w, e))
    ensures Possible(s, [TryLock(w, e)]) && Run(s, [TryLock(w, e)]) == s.(dropped := s.dropped + [e])
  {
    RunOfOne(s, TryLock(w, e));
  }

  lemma {:induction false} CopiesAlone(s: State, r: nat, copy: seq<Piece>, seen: nat, n: nat, steps: seq<Step>)
    requires |s.ring| > 0 && r < |s.readers| && s.readers[r] == Copying(copy, seen) && |copy| + n == |s.ring|
    requires copy <= s.ring && steps == CopySteps(r, n) + [ReaderUnlock(r)]
    ensures Possible(s, steps)
    ensures Run(s, steps) ==
            s.(lock := Free, readers := s.readers[r := Away], snapshots := s.snapshots + [Snapshot(s.ring, seen)])
    decreases n
  {
    if n == 0 {
      assert steps == [ReaderUnlock(r)];
      RunOfOne(s, ReaderUnlock(r));
      assert copy == s.ring;
    } else {
      var rest := CopySteps(r, n - 1) + [ReaderUnlock(r)];
      var s' := Perform(s, CopyBlock(r));
      CopiesAlone(s', r, copy + [s.ring[|copy|]], seen, n - 1, rest);
      RunGoesOn(s, CopyBlock(r), rest, steps);
      assert s'.readers[r := Away] == s.readers[r := Away];
    }
  }

  /** A reader that finds the lock free copies the ring and leaves everything else as it was. */
  lemma ReadAlone(s: State, r: nat)
    requires Inv(s) && s.lock == Free && r < |s.readers|
    ensures Possible(s, ReadSteps(r, |s.ring|))
    ensures Run(s, ReadSteps(r, |s.ring|)) ==
            s.(snapshots := s.snapshots + [Snapshot(s.ring, |s.accepted|)])
  {
    var copies := CopySteps(r, |s.ring|) + [ReaderUnlock(r)];
    var s' := Perform(s, ReaderLock(r));
    CopiesAlone(s', r, [], |s.accepted|, |s.ring|, copies);
    RunGoesOn(s, ReaderLock(r), copies, ReadSteps(r, |s.ring|));
    assert s'.readers[r := Away] == s.readers;
  }

  // ----- why the lock is needed -----

  /** Every written block belongs to an entry of the history. */
  lemma {:induction false} PutOrigin(ring: seq<Piece>, q: nat, ps: seq<Piece>, j: nat)
    requires q < |ring| && j < |ring|
    ensures Put(ring, q, ps)[j] == ring[j] || Put(ring, q, ps)[j] in ps
    decreases |ps|
  {
    if ps != [] {
      PutOrigin(ring, q, ps[..|ps| - 1], j);
    }
  }

  lemma {:induction false} RingOrigin(history: seq<Entry>, n: nat, j: nat)
    requires n > 0 && j < n
    ensures RingAfter(history, n)[j].Piece? ==> RingAfter(history, n)[j].entry in history
    decreases |history|
  {
    if history != [] {
      RingOrigin(Front(history), n, j);
      PutOrigin(RingAfter(Front(history), n), Cursor(Front(history), n), Pieces(Last(history)), j);
    }
  }

  lemma TornAt(ring: seq<Piece>, at: nat, e: Entry, k: nat)
    requires at < |ring| && ring[at] == Piece(e, 0) && k < e.Size() <= |ring|
    requires ring[Wrap(at + k, |ring|)] != Piece(e, k)
    ensures !WholeEntryAt(ring, at)
  {
    if WholeEntryAt(ring, at) {
      RingEntryAt(ring, at, k);
    }
  }

  /** A run can stop in the middle of a write with the head stored but not the whole entry: the
      ring then has a head whose entry is not there. */
  lemma MidWriteIsTorn(s: State, w: nat)
    requires Inv(s) && s.lock == ByWriter(w) && s.writers[w].Storing?
    requires 0 < s.writers[w].k < s.writers[w].entry.Size() <= |s.ring|
    requires s.writers[w].entry !in s.accepted
    ensures s.ring[s.writers[w].start].IsHead() && !WholeEntryAt(s.ring, s.writers[w].start)
  {
    var pc, n := s.writers[w], |s.ring|;
    var before := RingAfter(s.accepted, n);
    var ps := Pieces(pc.entry)[..pc.k];
    StoredAt(before, pc.start, ps, 0);
    assert ps[0] == Piece(pc.entry, 0);
    var j := Wrap(pc.start + pc.k, n);
    NotYetStored(before, pc.start, ps, j);
    RingOrigin(s.accepted, n, j);
    assert s.ring[j] != Piece(pc.entry, pc.k);
    TornAt(s.ring, pc.start, pc.entry, pc.k);
  }

  /** Such a state is reached three steps into the first write of an entry of several blocks. */
  lemma TornStateIsReachable(s: State, e: Entry, steps: seq<Step>)
    requires Init(s) && |s.writers| > 0 && 2 <= e.Size() <= |s.ring|
    requires steps == [TryLock(0, e), Reserve(0), StoreBlock(0)]
    ensures Possible(s, steps)
    ensures var end := Run(s, steps);
            |end.ring| == |s.ring| && end.ring[0].IsHead() && !WholeEntryAt(end.ring, 0)
  {
    var a, b, c := TryLock(0, e), Reserve(0), StoreBlock(0);
    var s1 := Perform(s, a);
    var s2 := Perform(s1, b);
    InitEstablishesInv(s);
    StepKeepsInv(s, a);
    StepKeepsInv(s1, b);
    StepKeepsInv(s2, c);
    MidWriteIsTorn(Perform(s2, c), 0);
    RunOfOne(s2, c);
    RunGoesOn(s1, b, [c], [b, c]);
    RunGoesOn(s, a, [b, c], steps);
  }

  lemma RunOfOne(s: State, a: Step)
    requires |s.ring| > 0 && Enabled(s, a)
    ensures Possible(s, [a]) && Run(s, [a]) == Perform(s, a)
  {
    assert [a][1..] == [];
    assert Possible(Perform(s, a), []);
  }

  /** One step, and then the rest of a run. */
  lemma RunGoesOn(s: State, a: Step, rest: seq<Step>, steps: seq<Step>)
    requires |s.ring| > 0 && Enabled(s, a) && Possible(Perform(s, a), rest) && steps == [a] + rest
    ensures Possible(s, steps) && Run(s, steps) == Run(Perform(s, a), rest)
  {
    assert steps[0] == a && steps[1..] == rest;
  }

  lemma {:induction false} StoredAt(ring: seq<Piece>, q: nat, ps: seq<Piece>, i: nat)
    requires q < |ring| && i < |ps| <= |ring|
    ensures Put(ring, q, ps)[Wrap(q + i, |ring|)] == ps[i]
    decreases |ps|
  {
    var last := |ps| - 1;
    PositionIs(q, last, |ring|);
    if i < last {
      StoredAt(ring, q, ps[..last], i);
    }
  }

  lemma {:induction false} NotYetStored(ring: seq<Piece>, q: nat, ps: seq<Piece>, j: nat)
    requires q < |ring| && |ps| < |ring| && j == Wrap(q + |ps|, |ring|)
    ensures Put(ring, q, ps)[j] == ring[j]
  {
    OutsideStays(ring, q, ps, |ps|);
  }

  lemma {:induction false} OutsideStays(ring: seq<Piece>, q: nat, ps: seq<Piece>, i: nat)
    requires q < |ring| && |ps| <= i < |ring|
    ensures Put(ring, q, ps)[Wrap(q + i, |ring|)] == ring[Wrap(q + i, |ring|)]
    decreases |ps|
  {
    if ps != [] {
      PositionIs(q, |ps| - 1, |ring|);
      OutsideStays(ring, q, ps[..|ps| - 1], i);
    }
  }

  lemma PositionIs(q: nat, i: nat, n: nat)
    requires q < n && i < n
    ensures (q + i) % n == Wrap(q + i, n)
  {
    if q + i < n {
      RemainderIsUnique(q + i, n, 0, q + i);
    } else {
      RemainderIsUnique(q + i, n, 1, q + i - n);
    }
  }
}
