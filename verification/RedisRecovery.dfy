/** A Redis stream as the recovery layer sees it: commands with their checkpoints, played on a server with
    numbered keyspaces, and rolling them back (redis/decode/events/types/event.go, dblog.go, doc/RECOVERY.md). */
module RedisRecovery {
  import opened Bytes
  import opened Numerals
  import opened RedisResp
  import opened RedisStream
  import opened RedisUndo
  import opened Restart
  import Recovery

  const SELECT := "select"

  /** A server's keyspaces, those not listed being empty, and the one the session has selected. */
  datatype Server = Server(keyspaces: map<int, Store>, selected: int)

  function Keyspace(s: Server, n: int): Store { if n in s.keyspaces then s.keyspaces[n] else map[] }

  /** Commands of a replication stream that touch no data. */
  predicate Neutral(c: Command) { c.name == "ping" || c.name == "multi" || c.name == "exec" || c.name == "replconf" }

  function Serve(s: Server, c: Command): Option<Server> {
    if Neutral(c) then Some(s)
    else if c.name == SELECT then
      if |c.args| != 1 || ParseInt(c.args[0]).None? then None else Some(s.(selected := ParseInt(c.args[0]).value))
    else
      match Exec(Keyspace(s, s.selected), c)
      case None => None
      case Some(t) => Some(s.(keyspaces := s.keyspaces[s.selected := t]))
  }

  predicate ValidServer(s: Server) { forall n :: n in s.keyspaces ==> Valid(s.keyspaces[n]) }

  /** `t`, seen from a session in keyspace `d`, reads as `s` in every keyspace. */
  ghost predicate LikeServer(d: int, s: Server, t: Server) {
    t.selected == d && forall n :: Like(Keyspace(s, n), Keyspace(t, n))
  }

  /** A command with a reverse runs in the keyspace the plan is replayed in; any other touches no data. */
  predicate Within(d: int, s: Server, c: Command) {
    if Reverse(c).Some? then s.selected == d else Neutral(c) || c.name == SELECT
  }

  predicate GuardIn(d: int, s: Server, c: Command) {
    ValidServer(s) && Within(d, s, c) && (Reverse(c).Some? ==> Guard(c))
  }

  type Window = seq<Recovery.Event<Command>>

  /** No command has more arguments than a parsed one can have. */
  predicate AllParsed(events: Window) { forall e :: e in events ==> |e.body.args| < MAX_ELEMENTS }

  /** No command with a reverse increments by the one number that cannot be negated. */
  predicate AllNegatable(events: Window) {
    forall e :: e in events && Reverse(e.body).Some? ==> Negatable(e.body)
  }

  lemma ReversibleTouchesData(c: Command)
    requires Reverse(c).Some?
    ensures !Neutral(c) && c.name != SELECT
  {
  }

  lemma ServeValid(s: Server, c: Command)
    requires ValidServer(s) && Serve(s, c).Some?
    ensures ValidServer(Serve(s, c).value)
  {
    hide Exec, Valid, Neutral;
    assert Valid(Keyspace(s, s.selected)) by { EmptyValid(); }
    if !Neutral(c) && c.name != SELECT { ExecValid(Keyspace(s, s.selected), c); }
  }

  lemma EmptyValid()
    ensures Valid(map[])
  {
  }

  lemma {:induction false} RunStaysValid(d: int, s: Server, events: Window)
    requires ValidServer(s) && Recovery.Guarded(s, events, Serve, (t: Server, c: Command) => Within(d, t, c))
    requires AllParsed(events) && AllNegatable(events)
    ensures Recovery.Guarded(s, events, Serve, (t: Server, c: Command) => GuardIn(d, t, c))
    decreases |events|
  {
    hide Negatable, ValidServer, Serve, Reverse, Neutral;
    if events == [] {
    } else {
      assert events[0] in events && forall e :: e in events[1..] ==> e in events;
      ServeValid(s, events[0].body);
      RunStaysValid(d, Serve(s, events[0].body).value, events[1..]);
    }
  }

  /** A rollback that gets through met no command that is not negatable. */
  lemma {:induction false} RolledBackNegatable(end: Server, events: Window)
    requires Recovery.Rollback(end, Recovery.Plan(events, Reverse), Serve).Some?
    ensures AllNegatable(events)
    decreases |events|
  {
    hide Negatable, Serve, Reverse;
    if events == [] {
    } else {
      var c := events[0].body;
      if Reverse(c).Some? {
        assert Recovery.Plan(events, Reverse)[1..] == Recovery.Plan(events[1..], Reverse);
        var t := Recovery.Rollback(end, Recovery.Plan(events[1..], Reverse), Serve);
        if t.Some? && !Negatable(c) { RefusedAnywhere(c, t.value); }
      }
      RolledBackNegatable(end, events[1..]);
      forall e | e in events && Reverse(e.body).Some? ensures Negatable(e.body) {
        if e != events[0] {
          var i :| 0 <= i < |events| && events[i] == e;
          assert events[1..][i - 1] == e;
        }
      }
    }
  }

  lemma RefusedAnywhere(c: Command, t: Server)
    requires Reverse(c).Some? && !Negatable(c)
    ensures Serve(t, Reverse(c).value).None?
  {
    hide Negatable, Exec, Reverse, Neutral;
    ReverseTouchesData(c);
    RefusedReverse(c, Keyspace(t, t.selected));
  }

  /** One command with a reverse, undone in the keyspace it ran in. */
  lemma ServeUndone(d: int, s: Server, c: Command, t: Server)
    requires GuardIn(d, s, c) && Reverse(c).Some? && Serve(s, c).Some? && LikeServer(d, Serve(s, c).value, t)
    ensures var r := Serve(t, Reverse(c).value);
            r.Some? && LikeServer(d, s, r.value)
  {
    hide Guard, Valid, Exec, Reverse, Like, Neutral;
    var after := Serve(s, c).value;
    ReversibleTouchesData(c);
    ReverseTouchesData(c);
    assert Valid(Keyspace(s, d)) by { EmptyValid(); }
    assert Like(Keyspace(after, d), Keyspace(t, d));
    CommandUndone(Keyspace(s, d), c, Keyspace(t, d));
    var r := Serve(t, Reverse(c).value).value;
    forall n ensures Like(Keyspace(s, n), Keyspace(r, n)) {
      assert Like(Keyspace(after, n), Keyspace(t, n));
    }
  }

  lemma ReverseTouchesData(c: Command)
    requires Reverse(c).Some?
    ensures !Neutral(Reverse(c).value) && Reverse(c).value.name != SELECT
  {
  }

  lemma ServeNothing(d: int, s: Server, c: Command, t: Server)
    requires GuardIn(d, s, c) && Reverse(c).None? && Serve(s, c).Some? && LikeServer(d, Serve(s, c).value, t)
    ensures LikeServer(d, s, t)
  {
    hide Like, Reverse;
    var after := Serve(s, c).value;
    forall n ensures Like(Keyspace(s, n), Keyspace(t, n)) {
      assert Like(Keyspace(after, n), Keyspace(t, n));
      assert Keyspace(after, n) == Keyspace(s, n);
    }
  }

  lemma SameServer(d: int, s: Server)
    ensures LikeServer(d, s, s.(selected := d))
  {
    forall n ensures Like(Keyspace(s, n), Keyspace(s.(selected := d), n)) {
      LikeItself(Keyspace(s, n));
    }
  }

  /** Window rollback for Redis: over any run whose reversible commands ran in one keyspace, with keyspace
      changes, pings and transaction marks between them, replaying the plan in reverse from a session in that
      keyspace gets through if and only if no command increments by -2^63, and then it restores every keyspace,
      up to missing reading as empty or zero. */
  lemma RedisWindowRollback(d: int, s: Server, events: Window)
    requires ValidServer(s) && Recovery.Guarded(s, events, Serve, (t: Server, c: Command) => Within(d, t, c))
    requires AllParsed(events) && Recovery.ApplyAll(s, events, Serve).Some?
    ensures var end := Recovery.ApplyAll(s, events, Serve).value.(selected := d);
            var r := Recovery.Rollback(end, Recovery.Plan(events, Reverse), Serve);
            (r.Some? <==> AllNegatable(events)) && (r.Some? ==> LikeServer(d, s, r.value))
  {
    hide LikeServer, ValidServer, Reverse, Serve, AllParsed, AllNegatable;
    var end := Recovery.ApplyAll(s, events, Serve).value.(selected := d);
    if Recovery.Rollback(end, Recovery.Plan(events, Reverse), Serve).Some? { RolledBackNegatable(end, events); }
    if AllNegatable(events) { NegatableRollback(d, s, events); }
  }

  lemma NegatableRollback(d: int, s: Server, events: Window)
    requires ValidServer(s) && Recovery.Guarded(s, events, Serve, (t: Server, c: Command) => Within(d, t, c))
    requires AllParsed(events) && AllNegatable(events) && Recovery.ApplyAll(s, events, Serve).Some?
    ensures var end := Recovery.ApplyAll(s, events, Serve).value.(selected := d);
            var r := Recovery.Rollback(end, Recovery.Plan(events, Reverse), Serve);
            r.Some? && LikeServer(d, s, r.value)
  {
    hide GuardIn, LikeServer, ValidServer, Reverse, Serve, AllParsed, AllNegatable;
    RunStaysValid(d, s, events);
    var guard := (t: Server, c: Command) => GuardIn(d, t, c);
    var like := (a: Server, b: Server) => LikeServer(d, a, b);
    forall s: Server, c: Command, t: Server | guard(s, c) && Serve(s, c).Some? && like(Serve(s, c).value, t)
      ensures if Reverse(c).None? then like(s, t)
              else Serve(t, Reverse(c).value).Some? && like(s, Serve(t, Reverse(c).value).value)
    {
      if Reverse(c).None? { ServeNothing(d, s, c, t); } else { ServeUndone(d, s, c, t); }
    }
    var end := Recovery.ApplyAll(s, events, Serve).value;
    SameServer(d, end);
    Recovery.WindowRollback(s, end.(selected := d), events, Serve, Serve, Reverse, guard, like);
  }

  /** A step does not name its keyspace: a command that changed what its keyspace reads as is undone from a
      session in keyspace `d` exactly when it ran there. */
  lemma UndoneInItsKeyspace(d: int, s: Server, c: Command)
    requires ValidServer(s) && Guard(c) && Serve(s, c).Some?
    requires !Like(Keyspace(s, s.selected), Keyspace(Serve(s, c).value, s.selected))
    ensures var r := Serve(Serve(s, c).value.(selected := d), Reverse(c).value);
            r.Some? && LikeServer(d, s, r.value) <==> s.selected == d
  {
    hide Guard, Valid, ValidServer, Exec, Reverse, Like, Neutral;
    GuardReverses(c);
    ReversibleTouchesData(c);
    ReverseTouchesData(c);
    var after := Serve(s, c).value;
    if s.selected == d {
      SameServer(d, after);
      ServeUndone(d, s, c, after.(selected := d));
    } else {
      var r := Serve(after.(selected := d), Reverse(c).value);
      assert r.Some? ==> Keyspace(r.value, s.selected) == Keyspace(after, s.selected);
    }
  }

  lemma GuardReverses(c: Command)
    requires Guard(c)
    ensures Reverse(c).Some?
  {
  }

  /** A window that is not rolled back: an increment in keyspace 1, undone from a session in keyspace 0, is
      left standing in the one and takes the other below zero. */
  lemma OtherKeyspaceNotUndone(key: string)
    ensures var s, incr := Server(map[], 1), Command(NameOf(Incr), [key]);
            && Serve(s, incr) == Some(Server(map[1 := map[key := Counter(1)]], 1)) && Reverse(incr).Some?
            && Serve(Server(map[1 := map[key := Counter(1)]], 0), Reverse(incr).value)
               == Some(Server(map[1 := map[key := Counter(1)], 0 := map[key := Counter(-1)]], 0))
  {
    VerbOfName(Incr);
    VerbOfName(Decr);
  }

  /** Everything decoded from the input, as common events. */
  function Logged(input: string, source: Recovery.Source, kindOf: Entry -> string): seq<Recovery.Event<Command>> {
    LogEvents(source, DRIVER, kindOf, (e: Entry) => e.command, Numbered(Commands(input).entries, 0))
  }

  /** Commands decoded from a stream have as many arguments as the parser allows. */
  lemma {:induction false} EntriesParsed(s: string)
    ensures forall e :: e in Commands(s).entries ==> |e.command.args| < MAX_ELEMENTS
    decreases |s|
  {
    hide ParseCommand;
    if ParseCommand(s).Err? {
    } else {
      ParsedArgs(s);
      EntriesParsed(s[ParseCommand(s).value.size..]);
    }
  }

  lemma LoggedParsed(input: string, source: Recovery.Source, kindOf: Entry -> string)
    ensures AllParsed(Logged(input, source, kindOf))
  {
    hide Commands;
    EntriesParsed(input);
    var events := Logged(input, source, kindOf);
    var entries := Commands(input).entries;
    forall e | e in events ensures |e.body.args| < MAX_ELEMENTS {
      var i :| 0 <= i < |events| && events[i] == e;
      assert entries[i] in entries && e.body == entries[i].command;
    }
  }

  /** Rolling back a stream, end to end: the plan's steps of everything decoded from the input, sorted into
      reverse checkpoint order by whoever stored them, restore the server if and only if no command increments
      by -2^63. */
  lemma StreamRollback(input: string, source: Recovery.Source, kindOf: Entry -> string, d: int, s: Server,
                       listed: seq<Recovery.Step<Command>>)
    requires |input| < TWO_63 - 1 && ValidServer(s)
    requires var events := Logged(input, source, kindOf);
             && Recovery.Guarded(s, events, Serve, (t: Server, c: Command) => Within(d, t, c))
             && Recovery.ApplyAll(s, events, Serve).Some?
             && Recovery.Falling(PlaceOf, listed)
             && multiset(listed) == multiset(Recovery.Plan(events, Reverse))
    ensures var events := Logged(input, source, kindOf);
            var r := Recovery.Replay(Recovery.ApplyAll(s, events, Serve).value.(selected := d), listed, Serve);
            (r.Some? <==> AllNegatable(events)) && (r.Some? ==> LikeServer(d, s, r.value))
  {
    hide Commands, Serve, Reverse, LikeServer, AllParsed, AllNegatable,
      Recovery.Guarded, Recovery.Falling, Recovery.Ordered, Recovery.Rollback;
    var placed := Numbered(Commands(input).entries, 0);
    var events := Logged(input, source, kindOf);
    CommandCount(input);
    LoggedParsed(input, source, kindOf);
    RisingOrdered(source, DRIVER, kindOf, (e: Entry) => e.command, placed);
    RedisWindowRollback(d, s, events);
    var end := Recovery.ApplyAll(s, events, Serve).value.(selected := d);
    Recovery.ReverseCheckpointOrder(end, events, listed, Serve, Reverse, PlaceOf);
  }
}
