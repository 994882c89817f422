/** A binlog as the recovery layer sees it: decoded events with their checkpoints, and rolling them back
    (mysql/decode/decoder/dblog.go, dblog.go, doc/RECOVERY.md). */
module MysqlRecovery {
  import opened Bytes
  import opened MysqlDecoder
  import opened MysqlResume
  import opened MysqlUndo
  import Recovery

  /** What a decoded event does to the rows. */
  function LoggedOf(e: Event): Logged {
    if e.body.RowsBody? then Rows(MysqlUndo.Change(e.header.eventType, e.body.rows)) else Control
  }

  /** The common events of one log file. */
  function LogEvents(source: Recovery.Source, kindOf: Event -> string, file: string, events: seq<Event>)
    : (r: seq<Recovery.Event<Logged>>)
    ensures |r| == |events|
  {
    seq(|events|, i requires 0 <= i < |events| =>
      Recovery.Event(source, PositionOf(file, events[i]), kindOf(events[i]), LoggedOf(events[i])))
  }

  /** Where a checkpoint of a log file lies: the number after the last colon. */
  function PlaceOf(checkpoint: Recovery.Checkpoint): Option<int> { ParsePosition(checkpoint.position.value) }

  /** The checkpoints of a contiguous log rise, read back from their text, whatever the file is called. */
  lemma LogOrdered(source: Recovery.Source, kindOf: Event -> string, file: string, events: seq<Event>)
    requires Contiguous(events) && forall e :: e in events ==> Bounded(e)
    ensures Recovery.Ordered(PlaceOf, Recovery.Checkpoints(LogEvents(source, kindOf, file, events)))
  {
    hide Contiguous, PositionString, ParsePosition;
    var checkpoints := Recovery.Checkpoints(LogEvents(source, kindOf, file, events));
    forall i, j | 0 <= i < j < |events| ensures Recovery.Before(PlaceOf, checkpoints[i], checkpoints[j]) {
      PositionsRise(events, i, j);
      assert events[i] in events && events[j] in events;
      PositionRoundTrip(file, events[i].header.logPos);
      PositionRoundTrip(file, events[j].header.logPos);
    }
  }

  /** Rolling back a log, end to end: over a contiguous run whose row changes were applied and have a reverse,
      the plan's steps, sorted into reverse checkpoint order by whoever stored them, restore every table if and
      only if each change is undone where it happened. */
  lemma LogRollback(env: Env, mode: Mode, log: bytes, source: Recovery.Source, kindOf: Event -> string, file: string,
                    s: Store, listed: seq<Recovery.Step<MysqlUndo.Change>>)
    requires Contiguous(RunFile(env, StartAt(0, mode), EMPTY_CONTEXT, log).events)
    requires var events := LogEvents(source, kindOf, file, RunFile(env, StartAt(0, mode), EMPTY_CONTEXT, log).events);
             && (forall e :: e in events && e.body.Rows? ==> Reverse(e.body.change).Some?)
             && Recovery.ApplyAll(s, events, ApplyLogged).Some?
             && Recovery.Falling(PlaceOf, listed)
             && multiset(listed) == multiset(Recovery.Plan(events, ReverseLogged))
    ensures var events := LogEvents(source, kindOf, file, RunFile(env, StartAt(0, mode), EMPTY_CONTEXT, log).events);
            Recovery.Replay(Recovery.ApplyAll(s, events, ApplyLogged).value, listed, Apply) == Some(s)
            <==> Recovery.Guarded(s, events, ApplyLogged, GuardLogged)
  {
    hide RunFile, Contiguous, Apply, ReverseLogged, Recovery.Guarded, Recovery.Falling, Recovery.Ordered;
    var decoded := RunFile(env, StartAt(0, mode), EMPTY_CONTEXT, log).events;
    var events := LogEvents(source, kindOf, file, decoded);
    RunBounded(env, StartAt(0, mode), EMPTY_CONTEXT, log);
    LogOrdered(source, kindOf, file, decoded);
    MysqlWindowRollback(s, events);
    var end := Recovery.ApplyAll(s, events, ApplyLogged).value;
    Recovery.ReverseCheckpointOrder(end, events, listed, Apply, ReverseLogged, PlaceOf);
  }

  // ---- a plan made after a restart ----

  /** The plan of decoded events. */
  function PlanOf(source: Recovery.Source, kindOf: Event -> string, file: string, events: seq<Event>)
    : seq<Recovery.Step<MysqlUndo.Change>>
  {
    Recovery.Plan(LogEvents(source, kindOf, file, events), ReverseLogged)
  }

  /** The tables that reversible rows events need have all been mapped since the start. */
  predicate MappedBeforeUse(events: seq<Event>, seen: set<nat>)
    decreases |events|
  {
    events == [] ||
    (&& (ReverseLogged(LoggedOf(events[0])).Some? ==> events[0].body.rows.tableID in seen)
     && MappedBeforeUse(events[1..], seen + Mapped(events[0])))
  }

  /** Said event by event. */
  lemma {:induction false} MappedBeforeEach(events: seq<Event>, seen: set<nat>)
    ensures MappedBeforeUse(events, seen)
            <==> forall j :: 0 <= j < |events| && ReverseLogged(LoggedOf(events[j])).Some? ==>
                   events[j].body.rows.tableID in seen + MappedIn(events[..j])
    decreases |events|
  {
    hide ReverseLogged;
    if events == [] {
    } else {
      var rest, more := events[1..], seen + Mapped(events[0]);
      MappedBeforeEach(rest, more);
      assert seen + MappedIn(events[..0]) == seen;
      forall j | 0 <= j < |rest| ensures more + MappedIn(rest[..j]) == seen + MappedIn(events[..j + 1]) {
        assert events[..j + 1][1..] == rest[..j];
      }
      assert forall j :: 0 < j < |events| ==> events[j] == rest[j - 1];
    }
  }

  /** The step of one event, if it has one. */
  function StepOf(source: Recovery.Source, file: string, e: Event): seq<Recovery.Step<MysqlUndo.Change>> {
    match ReverseLogged(LoggedOf(e))
    case None => []
    case Some(op) => [Recovery.Step(Recovery.Checkpoint(source, PositionOf(file, e)), op)]
  }

  lemma PlanCons(source: Recovery.Source, kindOf: Event -> string, file: string, events: seq<Event>)
    requires events != []
    ensures PlanOf(source, kindOf, file, events)
            == StepOf(source, file, events[0]) + PlanOf(source, kindOf, file, events[1..])
  {
    hide ReverseLogged, PositionOf;
    assert LogEvents(source, kindOf, file, events)[1..] == LogEvents(source, kindOf, file, events[1..]);
  }

  lemma ResumedStep(source: Recovery.Source, file: string, e: Event, seen: set<nat>)
    ensures StepOf(source, file, ResumedEvent(e, seen))
            == if e.body.RowsBody? && e.body.rows.tableID !in seen then [] else StepOf(source, file, e)
  {
    hide PositionString, CompleteRows;
  }

  /** What a plan loses when it is made from a resumed run: every step whose table is not mapped again first.
      The plan is whole, or even just as long, if and only if no step is like that. */
  lemma {:induction false} ResumedPlan(source: Recovery.Source, kindOf: Event -> string, file: string,
                                       events: seq<Event>, seen: set<nat>)
    ensures var whole := PlanOf(source, kindOf, file, events);
            var resumed := PlanOf(source, kindOf, file, Resumed(events, seen));
            && |resumed| <= |whole|
            && (|resumed| == |whole| <==> MappedBeforeUse(events, seen))
            && (MappedBeforeUse(events, seen) ==> resumed == whole)
    decreases |events|
  {
    hide PlanOf, StepOf, ReverseLogged, LoggedOf, ResumedEvent;
    if events == [] {
    } else {
      var rest, more := events[1..], seen + Mapped(events[0]);
      var resumed := Resumed(events, seen);
      assert resumed[0] == ResumedEvent(events[0], seen) && resumed[1..] == Resumed(rest, more);
      PlanCons(source, kindOf, file, events);
      PlanCons(source, kindOf, file, resumed);
      ResumedStep(source, file, events[0], seen);
      StepWhenReversible(source, file, events[0]);
      ResumedPlan(source, kindOf, file, rest, more);
    }
  }

  lemma StepWhenReversible(source: Recovery.Source, file: string, e: Event)
    ensures |StepOf(source, file, e)| == if ReverseLogged(LoggedOf(e)).Some? then 1 else 0
    ensures ReverseLogged(LoggedOf(e)).Some? ==> e.body.RowsBody?
  {
  }

  /** A worker that reopens the log at the checkpoint of event `k` plans the steps after it, exactly when each
      change behind `k` that has a reverse has its table mapped between `k` and itself. */
  lemma ReopenedPlan(env: Env, mode: Mode, log: bytes, source: Recovery.Source, kindOf: Event -> string,
                     file: string, k: nat)
    requires Complete(env, StartAt(0, mode), EMPTY_CONTEXT, log)
    requires Contiguous(RunFile(env, StartAt(0, mode), EMPTY_CONTEXT, log).events)
    requires k < |RunFile(env, StartAt(0, mode), EMPTY_CONTEXT, log).events|
    ensures var full := RunFile(env, StartAt(0, mode), EMPTY_CONTEXT, log).events;
            var reopened := Open(env, mode, log, file, PositionOf(file, full[k]));
            var due := full[k + 1..];
            && reopened.Ok?
            && (PlanOf(source, kindOf, file, reopened.value.events) == PlanOf(source, kindOf, file, due)
                <==> forall j :: 0 <= j < |due| && ReverseLogged(LoggedOf(due[j])).Some? ==>
                       due[j].body.rows.tableID in MappedIn(due[..j]))
  {
    hide RunFile, Complete, Contiguous, Open, PositionOf, PlanOf, ReverseLogged, MappedBeforeUse, MappedIn, Resumed;
    var due := RunFile(env, StartAt(0, mode), EMPTY_CONTEXT, log).events[k + 1..];
    ResumeRefinesFullRun(env, mode, log, file, k);
    ResumedPlan(source, kindOf, file, due, {});
    MappedBeforeEach(due, {});
    assert forall j :: 0 <= j < |due| ==> {} + MappedIn(due[..j]) == MappedIn(due[..j]);
  }
}
