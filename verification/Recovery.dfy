/** The shared event contracts and the recovery layer (dblog.go), and what replaying a plan does to
    any store whose single steps can be undone (doc/RECOVERY.md). */
module Recovery {
  import opened Bytes
  import opened Numerals

  datatype Source = Source(driver: string, name: string)
  datatype Position = Position(driver: string, value: string)
  datatype Checkpoint = Checkpoint(source: Source, position: Position)

  /** What dblog.Event exposes, with the backend's typed body. */
  datatype Event<+B> = Event(source: Source, position: Position, kind: string, body: B)

  /** One element of an event iterator: an event, or the error that ends it. */
  datatype Item<+T> = Item(value: T) | Failure

  datatype Step<+Op> = Step(checkpoint: Checkpoint, operation: Op)

  function CheckpointOf<B>(event: Event<B>): Checkpoint { Checkpoint(event.source, event.position) }

  /** Compensating operations of the reversible events, in stream order; an error ends the plan. */
  function RecoveryPlan<B, Op>(items: seq<Item<Event<B>>>, reverse: B -> Option<Op>): seq<Item<Step<Op>>> {
    if items == [] then []
    else if items[0].Failure? then [Failure]
    else
      var event := items[0].value;
      var rest := RecoveryPlan(items[1..], reverse);
      match reverse(event.body)
      case None => rest
      case Some(op) => [Item(Step(CheckpointOf(event), op))] + rest
  }

  function Flashbacks<B, Op>(items: seq<Item<Event<B>>>, reverse: B -> Option<Op>): seq<Item<Op>> {
    if items == [] then []
    else if items[0].Failure? then [Failure]
    else
      match reverse(items[0].value.body)
      case None => Flashbacks(items[1..], reverse)
      case Some(op) => [Item(op)] + Flashbacks(items[1..], reverse)
  }

  /** Events accepted by every predicate. */
  function Filter<B>(items: seq<Item<Event<B>>>, predicates: seq<Event<B> -> bool>): seq<Item<Event<B>>> {
    if items == [] then []
    else if items[0].Failure? then [Failure]
    else if Matches(items[0].value, predicates) then [items[0]] + Filter(items[1..], predicates)
    else Filter(items[1..], predicates)
  }

  predicate Matches<B>(event: Event<B>, predicates: seq<Event<B> -> bool>) {
    forall i :: 0 <= i < |predicates| ==> predicates[i](event)
  }

  /** The first elements a consumer sees that stops after `wanted` of them. */
  function First<T>(s: seq<T>, wanted: nat): seq<T> { if |s| <= wanted then s else s[..wanted] }

  /** The plan as an iterator: each step is yielded as soon as it is known, and the loop ends when the
      consumer has had enough. */
  method RecoveryPlanLoop<B, Op>(items: seq<Item<Event<B>>>, reverse: B -> Option<Op>, wanted: nat)
    returns (yielded: seq<Item<Step<Op>>>)
    requires wanted >= 1
    ensures yielded == First(RecoveryPlan(items, reverse), wanted)
  {
    yielded := [];
    ghost var plan := RecoveryPlan(items, reverse);
    assert items[0..] == items;
    for i := 0 to |items|
      invariant |yielded| < wanted
      invariant plan == yielded + RecoveryPlan(items[i..], reverse)
    {
      assert items[i..][1..] == items[i + 1..];
      if items[i].Failure? {
        yielded := yielded + [Failure];
        return;
      }
      var op := reverse(items[i].value.body);
      if op.Some? {
        var step := Item(Step(CheckpointOf(items[i].value), op.value));
        Assoc(yielded, [step], RecoveryPlan(items[i + 1..], reverse));
        yielded := yielded + [step];
        if |yielded| == wanted { return; }
      }
    }
  }

  /** The loop over the predicates stops at the first that rejects. */
  method MatchLoop<B>(event: Event<B>, predicates: seq<Event<B> -> bool>) returns (all: bool)
    ensures all == Matches(event, predicates)
    ensures !all ==> exists i :: 0 <= i < |predicates| && !predicates[i](event)
  {
    for i := 0 to |predicates|
      invariant forall j :: 0 <= j < i ==> predicates[j](event)
    {
      if !predicates[i](event) { return false; }
    }
    return true;
  }

  method FilterLoop<B>(items: seq<Item<Event<B>>>, predicates: seq<Event<B> -> bool>, wanted: nat)
    returns (yielded: seq<Item<Event<B>>>)
    requires wanted >= 1
    ensures yielded == First(Filter(items, predicates), wanted)
  {
    yielded := [];
    ghost var all := Filter(items, predicates);
    assert items[0..] == items;
    for i := 0 to |items|
      invariant |yielded| < wanted
      invariant all == yielded + Filter(items[i..], predicates)
    {
      assert items[i..][1..] == items[i + 1..];
      if items[i].Failure? {
        yielded := yielded + [Failure];
        return;
      }
      var accepted := MatchLoop(items[i].value, predicates);
      if accepted {
        Assoc(yielded, [items[i]], Filter(items[i + 1..], predicates));
        yielded := yielded + [items[i]];
        if |yielded| == wanted { return; }
      }
    }
  }

  /** What filtering keeps of a window: each event as often as it occurs, if no predicate rejects it, and not at all
      otherwise. */
  lemma {:induction false} FilterKeeps<B>(items: seq<Item<Event<B>>>, predicates: seq<Event<B> -> bool>,
                                          event: Event<B>)
    requires Failure !in items
    ensures var accepted := forall i :: 0 <= i < |predicates| ==> predicates[i](event);
            multiset(Filter(items, predicates))[Item(event)] == if accepted then multiset(items)[Item(event)] else 0
  {
    if items == [] {
    } else {
      FilterKeeps(items[1..], predicates, event);
      assert items == [items[0]] + items[1..];
    }
  }

  /** Windows are filtered one by one, so order is kept. */
  lemma {:induction false} FilterConcat<B>(a: seq<Item<Event<B>>>, b: seq<Item<Event<B>>>,
                                           predicates: seq<Event<B> -> bool>)
    requires Failure !in a
    ensures Filter(a + b, predicates) == Filter(a, predicates) + Filter(b, predicates)
  {
    if a == [] {
      assert a + b == b && Filter(a, predicates) == [];
    } else {
      assert (a + b)[1..] == a[1..] + b;
      FilterConcat(a[1..], b, predicates);
      Assoc([a[0]], Filter(a[1..], predicates), Filter(b, predicates));
    }
  }

  /** Filtering by two lists of predicates is filtering twice, errors included. */
  lemma {:induction false} FilterTwice<B>(items: seq<Item<Event<B>>>, p: seq<Event<B> -> bool>,
                                          q: seq<Event<B> -> bool>)
    ensures Filter(items, p + q) == Filter(Filter(items, p), q)
  {
    hide Matches;
    if items != [] && items[0].Item? {
      FilterTwice(items[1..], p, q);
      MatchesBoth(items[0].value, p, q);
      assert ([items[0]] + Filter(items[1..], p))[1..] == Filter(items[1..], p);
    }
  }

  lemma MatchesBoth<B>(event: Event<B>, p: seq<Event<B> -> bool>, q: seq<Event<B> -> bool>)
    ensures Matches(event, p + q) <==> Matches(event, p) && Matches(event, q)
  {
    if Matches(event, p + q) {
      assert forall i :: 0 <= i < |p| ==> (p + q)[i] == p[i];
      assert forall i :: 0 <= i < |q| ==> (p + q)[|p| + i] == q[i];
    }
  }

  // ---- plans ----

  function Operation<Op>(item: Item<Step<Op>>): Item<Op> {
    if item.Failure? then Failure else Item(item.value.operation)
  }

  function Operations<Op>(plan: seq<Item<Step<Op>>>): (r: seq<Item<Op>>)
    ensures |r| == |plan|
  {
    if plan == [] then [] else [Operation(plan[0])] + Operations(plan[1..])
  }

  /** A plan is the flashbacks with checkpoints added: same operations, same order, same end. */
  lemma {:induction false} PlanIsFlashbacks<B, Op>(items: seq<Item<Event<B>>>, reverse: B -> Option<Op>)
    ensures Operations(RecoveryPlan(items, reverse)) == Flashbacks(items, reverse)
  {
    if items != [] && items[0].Item? {
      PlanIsFlashbacks(items[1..], reverse);
      var op := reverse(items[0].value.body);
      if op.Some? {
        var step := Item(Step(CheckpointOf(items[0].value), op.value));
        assert ([step] + RecoveryPlan(items[1..], reverse))[1..] == RecoveryPlan(items[1..], reverse);
      }
    }
  }

  /** Planning a stream in two windows gives the same steps as planning it whole. */
  lemma {:induction false} PlanConcat<B, Op>(a: seq<Item<Event<B>>>, b: seq<Item<Event<B>>>, reverse: B -> Option<Op>)
    requires Failure !in a
    ensures RecoveryPlan(a + b, reverse) == RecoveryPlan(a, reverse) + RecoveryPlan(b, reverse)
  {
    if a == [] {
      assert a + b == b && RecoveryPlan(a, reverse) == [];
    } else {
      assert (a + b)[1..] == a[1..] + b;
      PlanConcat(a[1..], b, reverse);
      var op := reverse(a[0].value.body);
      if op.Some? {
        Assoc([Item(Step(CheckpointOf(a[0].value), op.value))], RecoveryPlan(a[1..], reverse),
              RecoveryPlan(b, reverse));
      }
    }
  }

  /** The events of a window that was read without an error. */
  function Items<B>(events: seq<Event<B>>): (r: seq<Item<Event<B>>>)
    ensures |r| == |events| && Failure !in r
  {
    seq(|events|, i requires 0 <= i < |events| => Item(events[i]))
  }

  function Plan<B, Op>(events: seq<Event<B>>, reverse: B -> Option<Op>): (steps: seq<Step<Op>>)
  {
    if events == [] then []
    else
      match reverse(events[0].body)
      case None => Plan(events[1..], reverse)
      case Some(op) => [Step(CheckpointOf(events[0]), op)] + Plan(events[1..], reverse)
  }

  function StepItems<Op>(steps: seq<Step<Op>>): (r: seq<Item<Step<Op>>>)
    ensures |r| == |steps|
  {
    seq(|steps|, i requires 0 <= i < |steps| => Item(steps[i]))
  }

  lemma {:induction false} PlanOfWindow<B, Op>(events: seq<Event<B>>, reverse: B -> Option<Op>)
    ensures RecoveryPlan(Items(events), reverse) == StepItems(Plan(events, reverse))
  {
    if events == [] {
    } else {
      assert Items(events)[1..] == Items(events[1..]);
      PlanOfWindow(events[1..], reverse);
    }
  }

  /** The step is the compensation of the event, with the source and position a consumer resumes at. */
  predicate Compensates<B, Op(==)>(step: Step<Op>, event: Event<B>, reverse: B -> Option<Op>) {
    && reverse(event.body) == Some(step.operation)
    && step.checkpoint.source.driver == event.source.driver && step.checkpoint.source.name == event.source.name
    && step.checkpoint.position.driver == event.position.driver
    && step.checkpoint.position.value == event.position.value
  }

  /** Every step of a plan compensates an event of its window, and every reversible event is compensated. */
  lemma {:induction false} StepsCompensate<B, Op>(events: seq<Event<B>>, reverse: B -> Option<Op>)
    ensures forall step :: step in Plan(events, reverse) ==>
              exists event :: event in events && Compensates(step, event, reverse)
    ensures forall event :: event in events && reverse(event.body).Some? ==>
              exists step :: step in Plan(events, reverse) && Compensates(step, event, reverse)
  {
    if events == [] {
    } else {
      StepsCompensate(events[1..], reverse);
      var first, rest := events[0], Plan(events[1..], reverse);
      assert forall event :: event in events ==> event == first || event in events[1..];
      if reverse(first.body).Some? {
        var step := Step(CheckpointOf(first), reverse(first.body).value);
        assert Plan(events, reverse) == [step] + rest && Compensates(step, first, reverse);
        assert step in Plan(events, reverse);
      }
    }
  }

  predicate AllReversible<B, Op>(events: seq<Event<B>>, reverse: B -> Option<Op>) {
    forall i :: 0 <= i < |events| ==> reverse(events[i].body).Some?
  }

  /** The plan has a step for every event exactly when every event is reversible; otherwise some event of
      the window is silently left standing. */
  lemma {:induction false} PlanComplete<B, Op>(events: seq<Event<B>>, reverse: B -> Option<Op>)
    ensures |Plan(events, reverse)| <= |events|
    ensures |Plan(events, reverse)| == |events| <==> AllReversible(events, reverse)
  {
    if events == [] {
    } else {
      PlanComplete(events[1..], reverse);
      assert AllReversible(events, reverse) ==> reverse(events[0].body).Some?;
      assert AllReversible(events, reverse)
        <==> reverse(events[0].body).Some? && AllReversible(events[1..], reverse) by {
        if reverse(events[0].body).Some? && AllReversible(events[1..], reverse) {
          forall i | 0 <= i < |events| ensures reverse(events[i].body).Some? {
            if i > 0 { assert events[i] == events[1..][i - 1]; }
          }
        }
      }
    }
  }

  /** `a` lies before `b` as the backend reads positions; text it cannot read has no place. */
  predicate Before(place: Checkpoint -> Option<int>, a: Checkpoint, b: Checkpoint) {
    place(a).Some? && place(b).Some? && place(a).value < place(b).value
  }

  predicate Ordered(place: Checkpoint -> Option<int>, checkpoints: seq<Checkpoint>) {
    forall i, j :: 0 <= i < j < |checkpoints| ==> Before(place, checkpoints[i], checkpoints[j])
  }

  function Checkpoints<B>(events: seq<Event<B>>): (r: seq<Checkpoint>)
    ensures |r| == |events|
  {
    seq(|events|, i requires 0 <= i < |events| => CheckpointOf(events[i]))
  }

  function StepCheckpoints<Op>(steps: seq<Step<Op>>): (r: seq<Checkpoint>)
    ensures |r| == |steps|
  {
    seq(|steps|, i requires 0 <= i < |steps| => steps[i].checkpoint)
  }

  /** The steps of a plan keep the order of the events' checkpoints. */
  lemma {:induction false} PlanOrdered<B, Op>(events: seq<Event<B>>, reverse: B -> Option<Op>,
                                              place: Checkpoint -> Option<int>)
    requires Ordered(place, Checkpoints(events))
    ensures Ordered(place, StepCheckpoints(Plan(events, reverse)))
    ensures forall c :: c in StepCheckpoints(Plan(events, reverse)) ==> c in Checkpoints(events)
  {
    if events == [] {
    } else {
      var all, tail := Checkpoints(events), Checkpoints(events[1..]);
      assert all[1..] == tail;
      PlanOrdered(events[1..], reverse, place);
      var rest := StepCheckpoints(Plan(events[1..], reverse));
      var op := reverse(events[0].body);
      if op.Some? {
        assert StepCheckpoints(Plan(events, reverse)) == [all[0]] + rest;
        forall j | 0 <= j < |rest| ensures Before(place, all[0], rest[j]) {
          assert rest[j] in tail;
          var k :| 0 <= k < |tail| && tail[k] == rest[j];
          assert all[1 + k] == rest[j];
        }
      }
    }
  }

  // ---- replaying a plan ----

  /** The states that a window of applied events runs through, ending in the last. */
  function ApplyAll<S, B>(s: S, events: seq<Event<B>>, apply: (S, B) -> Option<S>): Option<S> {
    if events == [] then Some(s)
    else if apply(s, events[0].body).None? then None
    else ApplyAll(apply(s, events[0].body).value, events[1..], apply)
  }

  /** Steps replayed last first, that is in reverse checkpoint order. */
  function Rollback<S, Op>(s: S, steps: seq<Step<Op>>, undo: (S, Op) -> Option<S>): Option<S> {
    if steps == [] then Some(s)
    else
      match Rollback(s, steps[1..], undo)
      case None => None
      case Some(t) => undo(t, steps[0].operation)
  }

  /** Steps replayed first to last. */
  function Replay<S, Op>(s: S, steps: seq<Step<Op>>, undo: (S, Op) -> Option<S>): Option<S>
    decreases |steps|
  {
    if steps == [] then Some(s)
    else
      match undo(s, steps[0].operation)
      case None => None
      case Some(t) => Replay(t, steps[1..], undo)
  }

  function Backwards<T>(s: seq<T>): (r: seq<T>)
    ensures |r| == |s|
  {
    if s == [] then [] else Backwards(s[1..]) + [s[0]]
  }

  lemma {:induction false} ReplayThen<S, Op>(s: S, steps: seq<Step<Op>>, last: Step<Op>, undo: (S, Op) -> Option<S>)
    ensures Replay(s, steps + [last], undo)
            == match Replay(s, steps, undo) case None => None case Some(t) => undo(t, last.operation)
    decreases |steps|
  {
    if steps == [] {
      assert steps + [last] == [last] && [last][1..] == [];
    } else {
      assert (steps + [last])[1..] == steps[1..] + [last];
      var t := undo(s, steps[0].operation);
      if t.Some? { ReplayThen(t.value, steps[1..], last, undo); }
    }
  }

  lemma {:induction false} RollbackIsReplay<S, Op>(s: S, steps: seq<Step<Op>>, undo: (S, Op) -> Option<S>)
    ensures Rollback(s, steps, undo) == Replay(s, Backwards(steps), undo)
  {
    if steps == [] {
    } else {
      RollbackIsReplay(s, steps[1..], undo);
      ReplayThen(s, Backwards(steps[1..]), steps[0], undo);
    }
  }

  /** Steps listed in reverse checkpoint order. */
  predicate Falling<Op>(place: Checkpoint -> Option<int>, steps: seq<Step<Op>>) {
    forall i, j :: 0 <= i < j < |steps| ==> Before(place, steps[j].checkpoint, steps[i].checkpoint)
  }

  /** The step with the lowest checkpoint comes last. */
  lemma LowestIsLast<Op>(place: Checkpoint -> Option<int>, steps: seq<Step<Op>>, listed: seq<Step<Op>>)
    requires Ordered(place, StepCheckpoints(steps)) && Falling(place, listed)
    requires steps != [] && listed != [] && multiset(listed) == multiset(steps)
    ensures listed[|listed| - 1] == steps[0]
  {
    var last := |listed| - 1;
    assert steps[0] in multiset(listed) && listed[last] in multiset(steps);
    var k :| 0 <= k <= last && listed[k] == steps[0];
    var m :| 0 <= m < |steps| && steps[m] == listed[last];
    assert k < last ==> Before(place, listed[last].checkpoint, listed[k].checkpoint);
    assert m > 0 ==> Before(place, StepCheckpoints(steps)[0], StepCheckpoints(steps)[m]);
  }

  lemma SplitLast<T>(s: seq<T>)
    requires s != []
    ensures s == s[..|s| - 1] + [s[|s| - 1]] && multiset(s) == multiset(s[..|s| - 1]) + multiset{s[|s| - 1]}
  {
    assert s == s[..|s| - 1] + [s[|s| - 1]];
  }

  lemma SplitFirst<T>(s: seq<T>)
    requires s != []
    ensures multiset(s) == multiset{s[0]} + multiset(s[1..])
  {
    assert s == [s[0]] + s[1..];
  }

  lemma OthersFall<Op>(place: Checkpoint -> Option<int>, steps: seq<Step<Op>>, listed: seq<Step<Op>>)
    requires Ordered(place, StepCheckpoints(steps)) && Falling(place, listed) && steps != [] && listed != []
    ensures Ordered(place, StepCheckpoints(steps[1..])) && Falling(place, listed[..|listed| - 1])
  {
    hide Before;
    assert StepCheckpoints(steps[1..]) == StepCheckpoints(steps)[1..];
  }

  /** Only one listing of ordered steps is in reverse checkpoint order: the reversed one. */
  lemma {:induction false} FallingIsBackwards<Op>(place: Checkpoint -> Option<int>, steps: seq<Step<Op>>,
                                                  listed: seq<Step<Op>>)
    requires Ordered(place, StepCheckpoints(steps)) && Falling(place, listed)
    requires multiset(listed) == multiset(steps)
    ensures listed == Backwards(steps)
    decreases |steps|
  {
    hide Ordered, Falling, StepCheckpoints;
    assert |listed| == |multiset(listed)| == |steps|;
    if steps == [] {
    } else {
      var others := listed[..|listed| - 1];
      LowestIsLast(place, steps, listed);
      SplitLast(listed);
      SplitFirst(steps);
      assert multiset(others) == multiset(listed) - multiset{steps[0]} == multiset(steps[1..]);
      OthersFall(place, steps, listed);
      FallingIsBackwards(place, steps[1..], others);
    }
  }

  /** The order that doc/RECOVERY.md asks for is the order of `Rollback`: however the steps of a plan are
      sorted into reverse checkpoint order, replaying them is replaying the plan last step first. */
  lemma ReverseCheckpointOrder<S, B, Op>(end: S, events: seq<Event<B>>, listed: seq<Step<Op>>,
                                         undo: (S, Op) -> Option<S>, reverse: B -> Option<Op>,
                                         place: Checkpoint -> Option<int>)
    requires Ordered(place, Checkpoints(events)) && Falling(place, listed)
    requires multiset(listed) == multiset(Plan(events, reverse))
    ensures Replay(end, listed, undo) == Rollback(end, Plan(events, reverse), undo)
  {
    PlanOrdered(events, reverse, place);
    FallingIsBackwards(place, Plan(events, reverse), listed);
    RollbackIsReplay(end, Plan(events, reverse), undo);
  }

  /** The guard holds of every event in the state it is applied to. */
  predicate Guarded<S, B>(s: S, events: seq<Event<B>>, apply: (S, B) -> Option<S>, guard: (S, B) -> bool) {
    events == [] ||
    (guard(s, events[0].body) && apply(s, events[0].body).Some?
     && Guarded(apply(s, events[0].body).value, events[1..], apply, guard))
  }

  /** One step, from any state standing in for the one after an applied event: undoing the event's reverse
      succeeds and gives a state standing in for the one before it; an event without a reverse has changed
      nothing. */
  ghost predicate Undoes<S(!new), B(!new), Op(!new)>(
    apply: (S, B) -> Option<S>, undo: (S, Op) -> Option<S>, reverse: B -> Option<Op>,
    guard: (S, B) -> bool, like: (S, S) -> bool)
  {
    forall s, b, t {:trigger apply(s, b), like(apply(s, b).value, t)} ::
      guard(s, b) && apply(s, b).Some? && like(apply(s, b).value, t) ==>
        if reverse(b).None? then like(s, t)
        else undo(t, reverse(b).value).Some? && like(s, undo(t, reverse(b).value).value)
  }

  /** Window rollback: whatever the store, if single events can be undone then replaying the whole plan of
      a window in reverse checkpoint order succeeds and restores the state before the window, although
      events without a reverse leave no step in the plan. */
  lemma {:induction false} WindowRollback<S(!new), B(!new), Op(!new)>(
    s: S, end: S, events: seq<Event<B>>,
    apply: (S, B) -> Option<S>, undo: (S, Op) -> Option<S>, reverse: B -> Option<Op>,
    guard: (S, B) -> bool, like: (S, S) -> bool)
    requires Undoes(apply, undo, reverse, guard, like)
    requires Guarded(s, events, apply, guard)
    requires ApplyAll(s, events, apply).Some? && like(ApplyAll(s, events, apply).value, end)
    ensures var r := Rollback(end, Plan(events, reverse), undo);
            r.Some? && like(s, r.value)
  {
    if events == [] {
    } else {
      var b := events[0].body;
      var next := apply(s, b).value;
      WindowRollback(next, end, events[1..], apply, undo, reverse, guard, like);
      var t := Rollback(end, Plan(events[1..], reverse), undo).value;
      assert like(apply(s, b).value, t);
      if reverse(b).Some? { assert Plan(events, reverse)[1..] == Plan(events[1..], reverse); }
    }
  }

  /** The guard says exactly when the reverse of an applied event undoes it, and an event that leaves no step
      behind and is `harmless` changes nothing. */
  ghost predicate ExactlyGuarded<S(!new), B(!new), Op(!new)>(
    apply: (S, B) -> Option<S>, undo: (S, Op) -> Option<S>, reverse: B -> Option<Op>,
    guard: (S, B) -> bool, harmless: B -> bool)
  {
    forall s, b {:trigger apply(s, b)} ::
      && (apply(s, b).Some? && reverse(b).Some? ==>
            (undo(apply(s, b).value, reverse(b).value) == Some(s) <==> guard(s, b)))
      && (reverse(b).None? && harmless(b) ==> apply(s, b) == Some(s) && guard(s, b))
  }

  /** The reverse of an event gives the state before it from no other state than the one after it. */
  ghost predicate Injective<S(!new), B(!new), Op(!new)>(
    apply: (S, B) -> Option<S>, undo: (S, Op) -> Option<S>, reverse: B -> Option<Op>)
  {
    forall s, b, t {:trigger apply(s, b), undo(t, reverse(b).value)} ::
      apply(s, b).Some? && reverse(b).Some? && undo(t, reverse(b).value) == Some(s) ==> t == apply(s, b).value
  }

  /** Where single reverses are injective no mistake in a rollback is made good by another one: the window is
      rolled back if and only if every event in it is undone where it happened. */
  lemma {:induction false} WindowRollbackExactly<S(!new), B(!new), Op(!new)>(
    s: S, events: seq<Event<B>>, apply: (S, B) -> Option<S>, undo: (S, Op) -> Option<S>, reverse: B -> Option<Op>,
    guard: (S, B) -> bool, harmless: B -> bool)
    requires ExactlyGuarded(apply, undo, reverse, guard, harmless) && Injective(apply, undo, reverse)
    requires forall e :: e in events ==> reverse(e.body).Some? || harmless(e.body)
    requires ApplyAll(s, events, apply).Some?
    ensures Rollback(ApplyAll(s, events, apply).value, Plan(events, reverse), undo) == Some(s)
            <==> Guarded(s, events, apply, guard)
    decreases |events|
  {
    if events == [] {
    } else {
      var b := events[0].body;
      assert events[0] in events;
      var next := apply(s, b).value;
      WindowRollbackExactly(next, events[1..], apply, undo, reverse, guard, harmless);
      if reverse(b).Some? { assert Plan(events, reverse)[1..] == Plan(events[1..], reverse); }
    }
  }
}
