/** Stopping a numbered stream anywhere and reopening it at the checkpoint of the last consumed event
    (redis/backend/backend.go, postgres/backend/backend.go, doc/RECOVERY.md). */
module Restart {
  import opened Bytes
  import opened Numerals
  import Recovery

  /** An event with its ordinal in the stream, counted from 1. */
  datatype Placed<+E> = Placed(position: nat, event: E)

  /** The backend's reading of a checkpoint: empty text starts at the beginning. */
  function StartPosition(position: Recovery.Position, driver: string): (r: Result<nat>) {
    if position.value == "" then Ok(0)
    else if position.driver != "" && position.driver != driver then Err(Invalid)
    else
      var n := ParseInt(position.value);
      if n.None? || n.value < 0 then Err(Invalid) else Ok(n.value)
  }

  function PositionOf<E>(driver: string, e: Placed<E>): Recovery.Position {
    Recovery.Position(driver, Itoa(e.position))
  }

  /** A checkpoint's text converts back to the number it was written from. */
  lemma CheckpointRoundTrip<E>(driver: string, e: Placed<E>)
    requires e.position < TWO_63
    ensures StartPosition(PositionOf(driver, e), driver) == Ok(e.position)
  {
    ParseIntOfItoa(e.position);
  }

  /** Which positions a backend starts at: no text at all is the beginning whatever the driver; a number counts when
      it is not negative and of this driver or of none; and what is not a number is refused. */
  lemma StartsAt(driver: string, other: string, n: int, text: string)
    requires -TWO_63 <= n < TWO_63
    ensures StartPosition(Recovery.Position(other, ""), driver) == Ok(0)
    ensures StartPosition(Recovery.Position(other, Itoa(n)), driver)
            == if n >= 0 && (other == "" || other == driver) then Ok(n) else Err(Invalid)
    ensures (exists i :: 1 <= i < |text| && !IsDigit(text[i])) ==>
              StartPosition(Recovery.Position(other, text), driver) == Err(Invalid)
  {
    hide Itoa;
    ParseIntOfItoa(n);
    if i :| 1 <= i < |text| && !IsDigit(text[i]) {
      assert text[1..][i - 1] == text[i];
    }
  }

  predicate Rising<E>(events: seq<Placed<E>>) {
    forall i, j :: 0 <= i < j < |events| ==> events[i].position < events[j].position
  }

  predicate InRange<E>(events: seq<Placed<E>>) {
    forall i :: 0 <= i < |events| ==> events[i].position < TWO_63
  }

  /** The common events of a numbered stream, as the recovery layer sees them. */
  function LogEvents<E, B>(source: Recovery.Source, driver: string, kindOf: E -> string, bodyOf: E -> B,
                           events: seq<Placed<E>>): (r: seq<Recovery.Event<B>>)
    ensures |r| == |events|
  {
    seq(|events|, i requires 0 <= i < |events| =>
      Recovery.Event(source, PositionOf(driver, events[i]), kindOf(events[i].event), bodyOf(events[i].event)))
  }

  /** Where a checkpoint of a numbered stream lies. */
  function PlaceOf(checkpoint: Recovery.Checkpoint): Option<int> { ParseInt(checkpoint.position.value) }

  /** Events at rising positions have rising checkpoints, read back from their text. */
  lemma RisingOrdered<E, B>(source: Recovery.Source, driver: string, kindOf: E -> string, bodyOf: E -> B,
                            events: seq<Placed<E>>)
    requires Rising(events) && InRange(events)
    ensures Recovery.Ordered(PlaceOf, Recovery.Checkpoints(LogEvents(source, driver, kindOf, bodyOf, events)))
  {
    var checkpoints := Recovery.Checkpoints(LogEvents(source, driver, kindOf, bodyOf, events));
    forall i, j | 0 <= i < j < |events| ensures Recovery.Before(PlaceOf, checkpoints[i], checkpoints[j]) {
      ParseIntOfItoa(events[i].position);
      ParseIntOfItoa(events[j].position);
    }
  }

  /** The events after a position. */
  function After<E>(events: seq<Placed<E>>, start: nat): seq<Placed<E>> {
    if events == [] then []
    else if events[0].position <= start then After(events[1..], start)
    else [events[0]] + After(events[1..], start)
  }

  lemma {:induction false} AfterAll<E>(events: seq<Placed<E>>, start: nat)
    requires forall i :: 0 <= i < |events| ==> events[i].position > start
    ensures After(events, start) == events
  {
    if events == [] {
    } else {
      AfterAll(events[1..], start);
    }
  }

  /** Starting after the j-th of rising events leaves exactly the events behind it. */
  lemma {:induction false} AfterEvent<E>(events: seq<Placed<E>>, j: nat)
    requires Rising(events) && j < |events|
    ensures After(events, events[j].position) == events[j + 1..]
  {
    if j == 0 {
      AfterAll(events[1..], events[0].position);
    } else {
      assert events[1..][j - 1] == events[j] && events[1..][j..] == events[j + 1..];
      AfterEvent(events[1..], j - 1);
    }
  }

  /** All events handed to the consumer over a sequence of runs. Each run is opened at the last checkpoint
      and is broken off after the given number of events; the checkpoint moves only when one is consumed. */
  function Runs<E>(open: nat -> seq<Placed<E>>, driver: string, checkpoint: Recovery.Position, cuts: seq<nat>)
    : seq<Placed<E>>
    decreases |cuts|
  {
    if cuts == [] then []
    else
      match StartPosition(checkpoint, driver)
      case Err(_) => []
      case Ok(start) =>
        var got := Recovery.First(open(start), cuts[0]);
        var next := if got == [] then checkpoint else PositionOf(driver, got[|got| - 1]);
        got + Runs(open, driver, next, cuts[1..])
  }

  function Sum(cuts: seq<nat>): nat { if cuts == [] then 0 else cuts[0] + Sum(cuts[1..]) }

  lemma TakeMore<E>(events: seq<Placed<E>>, m: nat, a: nat, b: nat)
    requires m <= |events|
    ensures var got := Recovery.First(events[m..], a);
            m + |got| <= |events| && got + Recovery.First(events[m + |got|..], b) == Recovery.First(events[m..], a + b)
    ensures var got := Recovery.First(events[m..], a);
            got != [] ==> got[|got| - 1] == events[m + |got| - 1]
    ensures Recovery.First(events[m..], 0) == []
  {
  }

  /** A run opened at any event of the uninterrupted stream yields just what comes after that event. */
  predicate Resumable<E(==)>(open: nat -> seq<Placed<E>>, all: seq<Placed<E>>) {
    && InRange(all)
    && forall j :: 0 <= j < |all| ==> open(all[j].position) == all[j + 1..]
  }

  lemma {:induction false} RestartFrom<E>(open: nat -> seq<Placed<E>>, driver: string, all: seq<Placed<E>>,
                                          checkpoint: Recovery.Position, start: nat, m: nat, cuts: seq<nat>)
    requires Resumable(open, all) && m <= |all|
    requires StartPosition(checkpoint, driver) == Ok(start) && open(start) == all[m..]
    ensures Runs(open, driver, checkpoint, cuts) == Recovery.First(all[m..], Sum(cuts))
    decreases |cuts|
  {
    hide StartPosition, PositionOf, Recovery.First;
    if cuts == [] {
      TakeMore(all, m, 0, 0);
    } else {
      var got := Recovery.First(all[m..], cuts[0]);
      TakeMore(all, m, cuts[0], Sum(cuts[1..]));
      if got == [] {
        RestartFrom(open, driver, all, checkpoint, start, m, cuts[1..]);
      } else {
        var last := all[m + |got| - 1];
        CheckpointRoundTrip(driver, last);
        RestartFrom(open, driver, all, PositionOf(driver, last), last.position, m + |got|, cuts[1..]);
      }
    }
  }

  /** Restart exactness: however a stream is interrupted, the runs concatenated are the uninterrupted
      stream, nothing lost and nothing repeated. */
  lemma RestartExact<E>(open: nat -> seq<Placed<E>>, driver: string, cuts: seq<nat>)
    requires Resumable(open, open(0))
    ensures Runs(open, driver, Recovery.Position("", ""), cuts) == Recovery.First(open(0), Sum(cuts))
  {
    hide Runs, Recovery.First;
    var all := open(0);
    assert all[0..] == all;
    RestartFrom(open, driver, all, Recovery.Position("", ""), 0, 0, cuts);
  }
}
