/** Writers and the controller of one counter, load by load and store by store. No lock is taken: a
    write loads the counter, adds and stores, and others can come in between. */
module CounterProtocol {
  import opened Arithmetic
  import opened Bytes
  import opened StatMemory

  /** What a store or a clear means for the counter. */
  datatype Change = Added(x: int) | Cleared

  /** Where a writer is: outside, or between load and store. `since` is what the others have done since
      the load. */
  datatype WriterPc = Outside | Loaded(x: int, seen: nat, since: seq<Change>)

  datatype State = State(
    capacity: nat,
    cell: nat,
    writers: seq<WriterPc>,
    /** Everything that was stored and cleared. */
    changes: seq<Change>)

  datatype Step = Load(w: nat, x: int) | Store(w: nat) | Clear

  /** A counter that holds `v` after the changes, each of them made in one step. */
  function Effect(changes: seq<Change>, v: nat, capacity: nat): nat
    requires capacity > 0
  {
    if changes == [] then v
    else
      match changes[|changes| - 1]
      case Added(x) => (Effect(changes[..|changes| - 1], v, capacity) + x) % capacity
      case Cleared => 0
  }

  /** What the counter is to hold. */
  function Ideal(s: State): nat
    requires s.capacity > 0
  {
    Effect(s.changes, 0, s.capacity)
  }

  ghost predicate Init(s: State) {
    && s.capacity > 0 && s.cell == 0 && s.changes == []
    && forall w :: 0 <= w < |s.writers| ==> s.writers[w] == Outside
  }

  predicate Enabled(s: State, step: Step) {
    match step
    case Load(w, _) => w < |s.writers| && s.writers[w].Outside?
    case Store(w) => w < |s.writers| && s.writers[w].Loaded?
    case Clear => true
  }

  /** The writers after a change that is none of their own. */
  function Told(writers: seq<WriterPc>, c: Change): (r: seq<WriterPc>)
    ensures |r| == |writers|
    ensures forall w :: 0 <= w < |writers| ==>
              r[w] == if writers[w].Loaded? then writers[w].(since := writers[w].since + [c]) else Outside
  {
    seq(|writers|, w requires 0 <= w < |writers| =>
      if writers[w].Loaded? then writers[w].(since := writers[w].since + [c]) else Outside)
  }

  function Perform(s: State, step: Step): State
    requires s.capacity > 0 && Enabled(s, step)
  {
    match step
    case Load(w, x) => s.(writers := s.writers[w := Loaded(x, s.cell, [])])
    case Store(w) =>
      var pc := s.writers[w];
      s.(cell := (pc.seen + pc.x) % s.capacity, changes := s.changes + [Added(pc.x)],
         writers := Told(s.writers, Added(pc.x))[w := Outside])
    case Clear => s.(cell := 0, changes := s.changes + [Cleared], writers := Told(s.writers, Cleared))
  }

  ghost predicate Inv(s: State) {
    && s.capacity > 0 && s.cell < s.capacity
    && forall w :: 0 <= w < |s.writers| && s.writers[w].Loaded? ==> s.writers[w].seen < s.capacity
  }

  lemma StepKeepsInv(s: State, step: Step)
    requires Inv(s) && Enabled(s, step)
    ensures Inv(Perform(s, step))
  {
  }

  ghost predicate Possible(s: State, steps: seq<Step>)
    decreases |steps|
  {
    steps != [] ==> s.capacity > 0 && Enabled(s, steps[0]) && Possible(Perform(s, steps[0]), steps[1..])
  }

  function Run(s: State, steps: seq<Step>): State
    requires Possible(s, steps)
    decreases |steps|
  {
    if steps == [] then s else Run(Perform(s, steps[0]), steps[1..])
  }

  // ----- changes -----

  lemma EffectSnoc(changes: seq<Change>, c: Change, v: nat, capacity: nat)
    requires capacity > 0
    ensures Effect(changes + [c], v, capacity) ==
            (match c case Added(x) => (Effect(changes, v, capacity) + x) % capacity case Cleared => 0)
  {
    assert (changes + [c])[..|changes|] == changes;
  }

  lemma {:induction false} EffectBound(changes: seq<Change>, v: nat, capacity: nat)
    requires capacity > 0 && v < capacity
    ensures Effect(changes, v, capacity) < capacity
    decreases |changes|
  {
    if changes != [] {
      EffectBound(changes[..|changes| - 1], v, capacity);
    }
  }

  /** What was added since the last clear. */
  function SumSince(changes: seq<Change>): int {
    if changes == [] then 0
    else
      match changes[|changes| - 1]
      case Added(x) => SumSince(changes[..|changes| - 1]) + x
      case Cleared => 0
  }

  lemma {:induction false} EffectIsSum(changes: seq<Change>, v: nat, capacity: nat)
    requires capacity > 0 && v < capacity
    ensures Effect(changes, v, capacity) ==
            ((if Cleared in changes then 0 else v) + SumSince(changes)) % capacity
    decreases |changes|
  {
    if changes == [] {
      RemainderIsUnique(v, capacity, 0, v);
    } else {
      var front, c := changes[..|changes| - 1], changes[|changes| - 1];
      EffectIsSum(front, v, capacity);
      assert changes == front + [c];
      if c.Added? {
        RemainderOfSum((if Cleared in front then 0 else v) + SumSince(front), c.x, capacity);
      } else {
        RemainderIsUnique(0, capacity, 0, 0);
      }
    }
  }

  lemma AddsNothing(a: nat, y: int, c: nat)
    requires a < c
    ensures (a + y) % c == a <==> y % c == 0
  {
    RemainderIsUnique(a, c, 0, a);
    var q, r := y / c, y % c;
    assert y == c * q + r;
    if a + r < c {
      RemainderIsUnique(a + y, c, q, a + r);
    } else {
      assert c * (q + 1) == c * q + c;
      RemainderIsUnique(a + y, c, q + 1, a + r - c);
    }
  }

  /** The changes leave a counter as it was exactly if, without a clear among them, they add nothing
      together, and with one, they add again what the counter held. */
  lemma HarmlessExactly(changes: seq<Change>, v: nat, capacity: nat)
    requires capacity > 0 && v < capacity
    ensures Effect(changes, v, capacity) == v <==>
            SumSince(changes) % capacity == (if Cleared in changes then v else 0)
  {
    EffectIsSum(changes, v, capacity);
    AddsNothing(v, SumSince(changes), capacity);
  }

  // ----- when the counter is right -----

  ghost predicate Right(s: State) {
    s.capacity > 0 && s.cell == Ideal(s)
  }

  /** The counter is right, and was right whenever a writer who has not stored yet loaded it. */
  ghost predicate RightSoFar(s: State) {
    && Inv(s) && Right(s)
    && forall w :: 0 <= w < |s.writers| && s.writers[w].Loaded? ==>
         Effect(s.writers[w].since, s.writers[w].seen, s.capacity) == Ideal(s)
  }

  lemma InitIsRight(s: State)
    requires Init(s)
    ensures RightSoFar(s)
  {
  }

  /** What the others have stored and cleared since the load would leave the counter as it was. */
  ghost predicate Harmless(s: State, step: Step)
    requires s.capacity > 0 && Enabled(s, step)
  {
    step.Store? ==>
      Effect(s.writers[step.w].since, s.writers[step.w].seen, s.capacity) == s.writers[step.w].seen
  }

  lemma ToldAgree(s: State, c: Change, w: nat)
    requires RightSoFar(s) && w < |s.writers| && s.writers[w].Loaded?
    ensures Effect(s.writers[w].since + [c], s.writers[w].seen, s.capacity) == Effect(s.changes + [c], 0, s.capacity)
  {
    EffectSnoc(s.writers[w].since, c, s.writers[w].seen, s.capacity);
    EffectSnoc(s.changes, c, 0, s.capacity);
  }

  lemma AllToldAgree(s: State, c: Change)
    requires RightSoFar(s)
    ensures var told := Told(s.writers, c);
            forall w :: 0 <= w < |told| && told[w].Loaded? ==>
              Effect(told[w].since, told[w].seen, s.capacity) == Effect(s.changes + [c], 0, s.capacity)
  {
    forall w | 0 <= w < |s.writers| && s.writers[w].Loaded?
      ensures Effect(s.writers[w].since + [c], s.writers[w].seen, s.capacity) == Effect(s.changes + [c], 0, s.capacity)
    {
      ToldAgree(s, c, w);
    }
  }

  /** The counter is right after a store exactly if what the others have done since its load would have
      left it as it was then. */
  lemma StoreIsRightExactly(s: State, w: nat)
    requires RightSoFar(s) && Enabled(s, Store(w))
    ensures Right(Perform(s, Store(w))) <==>
            Effect(s.writers[w].since, s.writers[w].seen, s.capacity) == s.writers[w].seen
    ensures Right(Perform(s, Store(w))) ==> RightSoFar(Perform(s, Store(w)))
  {
    var pc := s.writers[w];
    AllToldAgree(s, Added(pc.x));
    EffectSnoc(s.changes, Added(pc.x), 0, s.capacity);
    EffectBound(s.changes, 0, s.capacity);
    SameRemainder(pc.seen, Ideal(s), pc.x, s.capacity);
  }

  /** A step leaves the counter right exactly if it is no store, or what came between its load and it
      was harmless. */
  lemma StepIsRightExactly(s: State, step: Step)
    requires RightSoFar(s) && Enabled(s, step)
    ensures Right(Perform(s, step)) <==> Harmless(s, step)
    ensures Harmless(s, step) ==> RightSoFar(Perform(s, step))
  {
    match step
    case Load(w, x) =>
    case Store(w) => StoreIsRightExactly(s, w);
    case Clear =>
      AllToldAgree(s, Cleared);
      EffectSnoc(s.changes, Cleared, 0, s.capacity);
  }

  ghost predicate AlwaysRight(s: State, steps: seq<Step>)
    requires Possible(s, steps)
    decreases |steps|
  {
    Right(s) && (steps != [] ==> AlwaysRight(Perform(s, steps[0]), steps[1..]))
  }

  ghost predicate AllHarmless(s: State, steps: seq<Step>)
    requires Possible(s, steps)
    decreases |steps|
  {
    steps != [] ==> Harmless(s, steps[0]) && AllHarmless(Perform(s, steps[0]), steps[1..])
  }

  lemma {:induction false} RightWhileHarmless(s: State, steps: seq<Step>)
    requires RightSoFar(s) && Possible(s, steps)
    ensures AlwaysRight(s, steps) <==> AllHarmless(s, steps)
    decreases |steps|
  {
    if steps != [] {
      StepIsRightExactly(s, steps[0]);
      if Harmless(s, steps[0]) {
        RightWhileHarmless(Perform(s, steps[0]), steps[1..]);
      }
    }
  }

  // ----- the map -----

  function EventOf(c: Change, id: nat): Event {
    match c
    case Added(x) => Event.Write(id, [x])
    case Cleared => Event.Clear(id, 0)
  }

  /** The changes as events of a single statistic. */
  function EventsOf(changes: seq<Change>, id: nat): (events: seq<Event>)
    ensures |events| == |changes|
  {
    if changes == [] then [] else EventsOf(changes[..|changes| - 1], id) + [EventOf(changes[|changes| - 1], id)]
  }

  lemma OneEvent(events: seq<Event>, after: seq<Event>, e: Event, p: Site)
    requires p.spec.Some? && p.spec.value.dims == [] && p.spec.value.stat.Simple? && p.spec.value.stat.policy.Increment?
    requires after == events + [e]
    ensures e == Event.Clear(p.id, 0) ==> Value(after, p, 0) == 0
    ensures forall x :: e == Event.Write(p.id, [x]) ==>
              Value(after, p, 0) == (Value(events, p, 0) + x) % Capacity(p.Width())
  {
    assert after[..|events|] == events;
  }

  /** What the counter is to hold is its value in the map. */
  lemma {:induction false} IdealIsValue(changes: seq<Change>, p: Site, events: seq<Event>)
    requires p.spec.Some? && p.spec.value.dims == [] && p.spec.value.stat.Simple? && p.spec.value.stat.policy.Increment?
    requires events == EventsOf(changes, p.id)
    ensures Effect(changes, 0, Capacity(p.Width())) == Value(events, p, 0)
    decreases |changes|
  {
    if changes != [] {
      var front := changes[..|changes| - 1];
      var before := EventsOf(front, p.id);
      IdealIsValue(front, p, before);
      OneEvent(before, events, events[|events| - 1], p);
    }
  }

  lemma {:induction false} RunKeepsCapacity(s: State, steps: seq<Step>)
    requires Possible(s, steps)
    ensures Run(s, steps).capacity == s.capacity
    decreases |steps|
  {
    if steps != [] {
      RunKeepsCapacity(Perform(s, steps[0]), steps[1..]);
    }
  }

  /** In every run from the start the counter is right after each step, that is, it holds its value in
      the map, exactly if what came between the load and the store of each write was harmless. */
  lemma RunIsRightExactly(s: State, steps: seq<Step>, p: Site)
    requires Init(s) && Possible(s, steps) && s.capacity == Capacity(p.Width())
    requires p.spec.Some? && p.spec.value.dims == [] && p.spec.value.stat.Simple? && p.spec.value.stat.policy.Increment?
    ensures AlwaysRight(s, steps) <==> AllHarmless(s, steps)
    ensures var end := Run(s, steps);
            end.capacity > 0 && (Right(end) <==> end.cell == Value(EventsOf(end.changes, p.id), p, 0))
  {
    InitIsRight(s);
    RightWhileHarmless(s, steps);
    RunKeepsCapacity(s, steps);
    IdealIsValue(Run(s, steps).changes, p, EventsOf(Run(s, steps).changes, p.id));
  }

  // ----- the two ways to go wrong -----

  lemma RunOfOne(s: State, a: Step)
    requires s.capacity > 0 && Enabled(s, a)
    ensures Possible(s, [a]) && Run(s, [a]) == Perform(s, a)
  {
    assert [a][1..] == [];
    assert Possible(Perform(s, a), []);
  }

  lemma RunOfTwo(s: State, a: Step, b: Step)
    requires s.capacity > 0 && Enabled(s, a) && Enabled(Perform(s, a), b)
    ensures Possible(s, [a, b]) && Run(s, [a, b]) == Perform(Perform(s, a), b)
  {
    RunOfOne(Perform(s, a), b);
    assert [a, b][1..] == [b];
  }

  lemma RunOfThree(s: State, a: Step, b: Step, c: Step)
    requires s.capacity > 0 && Enabled(s, a) && Enabled(Perform(s, a), b) && Enabled(Perform(Perform(s, a), b), c)
    ensures Possible(s, [a, b, c]) && Run(s, [a, b, c]) == Perform(Perform(Perform(s, a), b), c)
  {
    RunOfTwo(Perform(s, a), b, c);
    assert [a, b, c][1..] == [b, c];
  }

  lemma EffectOfOne(c: Change, v: nat, capacity: nat)
    requires capacity > 0
    ensures Effect([c], v, capacity) == (match c case Added(x) => (v + x) % capacity case Cleared => 0)
  {
    EffectSnoc([], c, v, capacity);
    assert [] + [c] == [c];
  }

  /** A clear between load and store of a write is lost, unless there was nothing to clear. */
  lemma ClearIsLost(s: State, w: nat, x: int, steps: seq<Step>)
    requires RightSoFar(s) && Enabled(s, Load(w, x)) && steps == [Load(w, x), Step.Clear, Store(w)]
    ensures Possible(s, steps) && Run(s, steps).cell == (s.cell + x) % s.capacity
    ensures Right(Run(s, steps)) <==> s.cell == 0
  {
    var a := Perform(s, Load(w, x));
    StepIsRightExactly(s, Load(w, x));
    ClearTold(a, w);
    RunOfThree(s, Load(w, x), Step.Clear, Store(w));
    StoreIsRightExactly(Perform(a, Step.Clear), w);
    EffectOfOne(Cleared, s.cell, s.capacity);
    assert [] + [Cleared] == [Cleared];
  }

  lemma ClearTold(s: State, w: nat)
    requires RightSoFar(s) && w < |s.writers| && s.writers[w].Loaded?
    ensures var c := Perform(s, Step.Clear);
            && RightSoFar(c) && c.capacity == s.capacity
            && Enabled(c, Store(w)) && c.writers[w] == s.writers[w].(since := s.writers[w].since + [Cleared])
  {
    StepIsRightExactly(s, Step.Clear);
  }

  lemma WholeWrite(s: State, w: nat, y: int, v: nat)
    requires RightSoFar(s) && Enabled(s, Load(w, y)) && v < |s.writers| && s.writers[v].Loaded?
    ensures Enabled(Perform(s, Load(w, y)), Store(w))
    ensures var c := Perform(Perform(s, Load(w, y)), Store(w));
            && RightSoFar(c) && c.capacity == s.capacity
            && Enabled(c, Store(v)) && c.writers[v] == s.writers[v].(since := s.writers[v].since + [Added(y)])
  {
    StepIsRightExactly(s, Load(w, y));
    StepIsRightExactly(Perform(s, Load(w, y)), Store(w));
  }

  /** A write that another writer starts and ends between load and store is lost, unless it added
      nothing. */
  lemma WriteIsLost(s: State, v: nat, w: nat, x: int, y: int, steps: seq<Step>)
    requires RightSoFar(s) && v != w && Enabled(s, Load(v, x)) && Enabled(s, Load(w, y))
    requires steps == [Load(w, y), Store(w), Store(v)]
    ensures var a := Perform(s, Load(v, x));
            Possible(a, steps) && (Right(Run(a, steps)) <==> y % s.capacity == 0)
  {
    var a := Perform(s, Load(v, x));
    StepIsRightExactly(s, Load(v, x));
    WholeWrite(a, w, y, v);
    var c := Perform(Perform(a, Load(w, y)), Store(w));
    RunOfThree(a, Load(w, y), Store(w), Store(v));
    StepIsRightExactly(c, Store(v));
    EffectOfOne(Added(y), s.cell, s.capacity);
    assert [] + [Added(y)] == [Added(y)];
    AddsNothing(s.cell, y, s.capacity);
  }
}
