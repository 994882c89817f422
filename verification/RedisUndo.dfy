/** Reverse commands (redis/decode/events/types/command.go) and what they do to a store of lists, counters
    and hashes of counters. */
module RedisUndo {
  import opened Bytes
  import opened Numerals
  import opened Text
  import opened RedisResp
  import RedisStream

  datatype Verb = LPush | LPop | RPush | RPop | Incr | Decr | IncrBy | DecrBy | HIncrBy | HIncrByFloat | ZIncrBy
    | OtherVerb

  function NameOf(v: Verb): string {
    match v
    case LPush => "lpush" case LPop => "lpop" case RPush => "rpush" case RPop => "rpop"
    case Incr => "incr" case Decr => "decr" case IncrBy => "incrby" case DecrBy => "decrby"
    case HIncrBy => "hincrby" case HIncrByFloat => "hincrbyfloat" case ZIncrBy => "zincrby"
    case OtherVerb => ""
  }

  function VerbOf(name: string): Verb {
    if name == "lpush" then LPush else if name == "lpop" then LPop
    else if name == "rpush" then RPush else if name == "rpop" then RPop
    else if name == "incr" then Incr else if name == "decr" then Decr
    else if name == "incrby" then IncrBy else if name == "decrby" then DecrBy
    else if name == "hincrby" then HIncrBy else if name == "hincrbyfloat" then HIncrByFloat
    else if name == "zincrby" then ZIncrBy
    else OtherVerb
  }

  lemma VerbOfName(v: Verb)
    ensures VerbOf(NameOf(v)) == v
  {
  }

  // ---- Command.Reverse ----

  function Reverse(c: Command): Option<Command> {
    match VerbOf(c.name)
    case LPush => if |c.args| < 2 then None else Some(Command(NameOf(LPop), [c.args[0], Itoa(|c.args| - 1)]))
    case RPush => if |c.args| < 2 then None else Some(Command(NameOf(RPop), [c.args[0], Itoa(|c.args| - 1)]))
    case Incr => if |c.args| != 1 then None else Some(Command(NameOf(Decr), c.args))
    case Decr => if |c.args| != 1 then None else Some(Command(NameOf(Incr), c.args))
    case IncrBy => if |c.args| != 2 then None else Some(Command(NameOf(DecrBy), c.args))
    case DecrBy => if |c.args| != 2 then None else Some(Command(NameOf(IncrBy), c.args))
    case HIncrBy => ReverseNumericDelta(c, 2)
    case HIncrByFloat => ReverseNumericDelta(c, 2)
    case ZIncrBy => ReverseNumericDelta(c, 1)
    case _ => None
  }

  function ReverseNumericDelta(c: Command, index: nat): Option<Command>
    requires index < 3
  {
    if |c.args| != 3 then None
    else
      match NegateNumericDelta(c.args[index])
      case None => None
      case Some(delta) => Some(Command(c.name, c.args[index := delta]))
  }

  function NegateNumericDelta(delta: string): Option<string> {
    if delta == "" then None
    else if delta[0] == '-' then (if |delta| == 1 then None else Some(delta[1..]))
    else if delta[0] == '+' then (if |delta| == 1 then None else Some("-" + delta[1..]))
    else Some("-" + delta)
  }

  // ---- the same in words ----

  /** Pushes turn into pops of as many elements, increments into decrements, and back. */
  lemma ReversesInWords(key: string, values: seq<string>, delta: string)
    ensures values != [] ==>
              && Reverse(Command("lpush", [key] + values)) == Some(Command("lpop", [key, Itoa(|values|)]))
              && Reverse(Command("rpush", [key] + values)) == Some(Command("rpop", [key, Itoa(|values|)]))
    ensures Reverse(Command("incr", [key])) == Some(Command("decr", [key]))
    ensures Reverse(Command("decr", [key])) == Some(Command("incr", [key]))
    ensures Reverse(Command("incrby", [key, delta])) == Some(Command("decrby", [key, delta]))
    ensures Reverse(Command("decrby", [key, delta])) == Some(Command("incrby", [key, delta]))
  {
    hide VerbOf, Itoa;
    VerbsInWords();
  }

  lemma VerbsInWords()
    ensures VerbOf("lpush") == LPush && VerbOf("rpush") == RPush && VerbOf("lpop") == LPop && VerbOf("rpop") == RPop
    ensures VerbOf("incr") == Incr && VerbOf("decr") == Decr && VerbOf("incrby") == IncrBy && VerbOf("decrby") == DecrBy
    ensures VerbOf("hincrby") == HIncrBy && VerbOf("hincrbyfloat") == HIncrByFloat && VerbOf("zincrby") == ZIncrBy
  {
  }

  /** An unsigned or positive delta takes a minus sign, and a negative one loses it. */
  predicate Opposite(delta: string, negated: string, digits: string) {
    && digits != "" && digits[0] != '-' && digits[0] != '+'
    && (|| (delta == digits && negated == "-" + digits)
        || (delta == "+" + digits && negated == "-" + digits)
        || (delta == "-" + digits && negated == digits))
  }

  /** The other increments negate their delta: the third argument of HINCRBY and HINCRBYFLOAT, the second of
      ZINCRBY. */
  lemma DeltasInWords(key: string, member: string, delta: string, negated: string, digits: string)
    requires Opposite(delta, negated, digits)
    ensures Reverse(Command("hincrby", [key, member, delta])) == Some(Command("hincrby", [key, member, negated]))
    ensures Reverse(Command("hincrbyfloat", [key, member, delta]))
            == Some(Command("hincrbyfloat", [key, member, negated]))
    ensures Reverse(Command("zincrby", [key, delta, member])) == Some(Command("zincrby", [key, negated, member]))
  {
    hide VerbOf;
    VerbsInWords();
    assert ("-" + digits)[1..] == digits && ("+" + digits)[1..] == digits;
    assert [key, member, delta][2 := negated] == [key, member, negated];
    assert [key, delta, member][1 := negated] == [key, negated, member];
  }

  /** No other command has a reverse, and none of these has one with a wrong number of arguments. */
  lemma NoReverseInWords(c: Command)
    requires || c.name !in ["lpush", "rpush", "incr", "decr", "incrby", "decrby", "hincrby", "hincrbyfloat", "zincrby"]
             || (c.name in ["lpush", "rpush"] && |c.args| < 2)
             || (c.name in ["incr", "decr"] && |c.args| != 1)
             || (c.name in ["incrby", "decrby"] && |c.args| != 2)
             || (c.name in ["hincrby", "hincrbyfloat", "zincrby"] && |c.args| != 3)
    ensures Reverse(c).None?
  {
  }

  /** A command is known by its name in whatever case the client wrote it. */
  lemma VerbInAnyCase(name: string, v: Verb, args: seq<string>, rest: string)
    requires v != OtherVerb && InAnyCase(name, NameOf(v)) && RedisStream.WithinLimits([name] + args)
    ensures var r := ParseCommand(RedisStream.Frame([name] + args) + rest);
            r.Ok? && r.value.value == Command(NameOf(v), args) && VerbOf(r.value.value.name) == v
  {
    hide ParseCommand, ToLower, VerbOf, NameOf, InAnyCase;
    RedisStream.FrameRoundTrip([name] + args, rest);
    LoweredWord(name, NameOf(v));
    VerbOfName(v);
    assert ([name] + args)[1..] == args;
  }

  /** The negated text of a 64-bit numeral denotes the negated number, whatever its sign or leading zeros;
      only the lowest one has no 64-bit negation. */
  lemma NegatedNumeral(delta: string)
    requires ParseInt(delta).Some?
    ensures var n := ParseInt(delta).value;
            && NegateNumericDelta(delta).Some?
            && ParseInt(NegateNumericDelta(delta).value) == if n == -TWO_63 then None else Some(-n)
  {
    var digits := if delta[0] == '-' || delta[0] == '+' then delta[1..] else delta;
    assert IsDigit(digits[0]);
    assert ("-" + digits)[1..] == digits;
  }

  predicate Signed(s: string) { s != "" && (s[0] == '-' || s[0] == '+') }

  /** A signed numeral read with any reading of its unsigned part, decimal fractions included. */
  function Denote(unsigned: string -> real, s: string): real {
    if s != "" && s[0] == '-' then -unsigned(s[1..])
    else if s != "" && s[0] == '+' then unsigned(s[1..])
    else unsigned(s)
  }

  /** The same for the textual deltas of HINCRBYFLOAT and ZINCRBY: negation is refused only for no text or a
      lone sign, and otherwise denotes the negated number. */
  lemma NegatedDelta(unsigned: string -> real, delta: string)
    requires Signed(delta) ==> !Signed(delta[1..])
    ensures NegateNumericDelta(delta).None? <==> delta == "" || delta == "-" || delta == "+"
    ensures NegateNumericDelta(delta).Some? ==>
              Denote(unsigned, NegateNumericDelta(delta).value) == -Denote(unsigned, delta)
  {
    if delta != "" {
      var body := if Signed(delta) then delta[1..] else delta;
      assert ("-" + body)[1..] == body;
    }
  }

  // ---- the store ----

  datatype Value = List(items: seq<string>) | Counter(n: int) | Hash(fields: map<string, int>) | Other(data: string)

  type Store = map<string, Value>

  predicate Int64(n: int) { -TWO_63 <= n < TWO_63 }

  /** Redis keeps no empty list, and its counters are 64-bit. */
  predicate ValidValue(v: Value) {
    match v
    case List(items) => items != []
    case Counter(n) => Int64(n)
    case Hash(fields) => forall f :: f in fields ==> Int64(fields[f])
    case Other(_) => true
  }

  predicate Valid(s: Store) { forall k :: k in s ==> ValidValue(s[k]) }

  function Reversed(s: seq<string>): (r: seq<string>)
    ensures |r| == |s|
  {
    if s == [] then [] else Reversed(s[1..]) + [s[0]]
  }

  /** Values pushed one after another onto the head. */
  function PushHead(items: seq<string>, values: seq<string>): seq<string>
    decreases |values|
  {
    if values == [] then items else PushHead([values[0]] + items, values[1..])
  }

  /** What a list holds once values were pushed onto one of its ends. */
  function Pushed(items: seq<string>, head: bool, values: seq<string>): seq<string> {
    if head then PushHead(items, values) else items + values
  }

  function Push(s: Store, key: string, head: bool, values: seq<string>): Option<Store> {
    if key in s && !s[key].List? then None
    else
      var items := if key in s then s[key].items else [];
      Some(s[key := List(Pushed(items, head, values))])
  }

  /** Removes up to `count` elements; a list left empty disappears. A missing key pops nothing. */
  function Pop(s: Store, key: string, head: bool, count: int): Option<Store> {
    if count < 0 then None
    else if key !in s then Some(s)
    else if !s[key].List? then None
    else
      var items := s[key].items;
      var n := if count <= |items| then count else |items|;
      var rest := if head then items[n..] else items[..|items| - n];
      if rest == [] then Some(s - {key}) else Some(s[key := List(rest)])
  }

  function Add(s: Store, key: string, delta: int): Option<Store> {
    if key in s && !s[key].Counter? then None
    else
      var n := (if key in s then s[key].n else 0) + delta;
      if Int64(n) then Some(s[key := Counter(n)]) else None
  }

  function AddField(s: Store, key: string, field: string, delta: int): Option<Store> {
    if key in s && !s[key].Hash? then None
    else
      var fields := if key in s then s[key].fields else map[];
      var n := (if field in fields then fields[field] else 0) + delta;
      if Int64(n) then Some(s[key := Hash(fields[field := n])]) else None
  }

  /** A command on the store; None is an error reply, which changes nothing and is not logged. Decrementing
      by the lowest 64-bit number is refused because its negation does not exist. */
  function Exec(s: Store, c: Command): Option<Store> {
    match VerbOf(c.name)
    case LPush => if |c.args| < 2 then None else Push(s, c.args[0], true, c.args[1..])
    case RPush => if |c.args| < 2 then None else Push(s, c.args[0], false, c.args[1..])
    case LPop =>
      if |c.args| != 2 || ParseInt(c.args[1]).None? then None else Pop(s, c.args[0], true, ParseInt(c.args[1]).value)
    case RPop =>
      if |c.args| != 2 || ParseInt(c.args[1]).None? then None else Pop(s, c.args[0], false, ParseInt(c.args[1]).value)
    case Incr => if |c.args| != 1 then None else Add(s, c.args[0], 1)
    case Decr => if |c.args| != 1 then None else Add(s, c.args[0], -1)
    case IncrBy =>
      if |c.args| != 2 || ParseInt(c.args[1]).None? then None else Add(s, c.args[0], ParseInt(c.args[1]).value)
    case DecrBy =>
      if |c.args| != 2 || ParseInt(c.args[1]).None? || ParseInt(c.args[1]).value == -TWO_63 then None
      else Add(s, c.args[0], -ParseInt(c.args[1]).value)
    case HIncrBy =>
      if |c.args| != 3 || ParseInt(c.args[2]).None? then None
      else AddField(s, c.args[0], c.args[1], ParseInt(c.args[2]).value)
    case _ => None
  }

  // ---- standing in for a state ----

  /** What is left of a counter or hash that was not there before: zeros. */
  predicate Remnant(v: Value) {
    match v
    case Counter(n) => n == 0
    case Hash(fields) => forall f :: f in fields ==> fields[f] == 0
    case _ => false
  }

  predicate LikeValue(v: Value, w: Value) {
    if v.Hash? then
      && w.Hash?
      && (forall f :: f in v.fields ==> f in w.fields && w.fields[f] == v.fields[f])
      && (forall f :: f in w.fields && f !in v.fields ==> w.fields[f] == 0)
    else v == w
  }

  /** `t` reads as `s`: the same lists, counters and fields, where missing reads as empty or zero. */
  predicate Like(s: Store, t: Store) {
    && (forall k :: k in s ==> k in t && LikeValue(s[k], t[k]))
    && (forall k :: k in t && k !in s ==> Remnant(t[k]))
  }

  lemma {:induction false} PushedHead(items: seq<string>, values: seq<string>)
    ensures PushHead(items, values) == Reversed(values) + items
    decreases |values|
  {
    if values == [] {
      assert [] + items == items;
    } else {
      PushedHead([values[0]] + items, values[1..]);
      Assoc(Reversed(values[1..]), [values[0]], items);
    }
  }

  lemma PushedEnds(items: seq<string>, head: bool, values: seq<string>)
    ensures var pushed := Pushed(items, head, values);
            && |pushed| == |items| + |values|
            && (if head then pushed[|values|..] else pushed[..|pushed| - |values|]) == items
  {
    PushedHead(items, values);
    if head { Concat(Reversed(values), items); } else { Concat(items, values); }
  }

  /** Popping as many elements as were pushed, from the same end, leaves the list as it was. */
  lemma PushUndone(s: Store, key: string, head: bool, values: seq<string>, t: Store)
    requires Valid(s) && values != [] && Push(s, key, head, values).Some? && Like(Push(s, key, head, values).value, t)
    ensures var r := Pop(t, key, head, |values|);
            r.Some? && Like(s, r.value)
  {
    hide PushHead;
    var items := if key in s then s[key].items else [];
    PushedEnds(items, head, values);
    var after := Push(s, key, head, values).value;
    assert after[key] == List(Pushed(items, head, values)) && t[key] == after[key];
    var r := Pop(t, key, head, |values|).value;
    assert items == [] <==> key !in s;
    forall k | k in s ensures k in r && LikeValue(s[k], r[k]) {
      if k != key { assert k in after && after[k] == s[k]; }
    }
    forall k | k in r && k !in s ensures Remnant(r[k]) {
      assert k != key && k in t && k !in after;
    }
  }

  lemma AddUndone(s: Store, key: string, delta: int, t: Store)
    requires Valid(s) && Add(s, key, delta).Some? && Like(Add(s, key, delta).value, t)
    ensures var r := Add(t, key, -delta);
            r.Some? && Like(s, r.value)
  {
    var after := Add(s, key, delta).value;
    assert key in after && LikeValue(after[key], t[key]);
    var r := Add(t, key, -delta).value;
    forall k | k in s ensures k in r && LikeValue(s[k], r[k]) {
      if k != key { assert k in after && after[k] == s[k]; }
    }
    forall k | k in r && k !in s ensures Remnant(r[k]) {
      if k != key { assert k in t && k !in after; }
    }
  }

  lemma AddFieldUndone(s: Store, key: string, field: string, delta: int, t: Store)
    requires Valid(s) && AddField(s, key, field, delta).Some? && Like(AddField(s, key, field, delta).value, t)
    ensures var r := AddField(t, key, field, -delta);
            r.Some? && Like(s, r.value)
  {
    var after := AddField(s, key, field, delta).value;
    var fields := if key in s then s[key].fields else map[];
    assert key in after && LikeValue(after[key], t[key]);
    assert key in s ==> ValidValue(s[key]);
    var mine := t[key].fields;
    var n := if field in fields then fields[field] else 0;
    assert field in mine && mine[field] == n + delta;
    var r := AddField(t, key, field, -delta).value;
    assert r[key].fields == mine[field := n];
    forall k | k in s ensures k in r && LikeValue(s[k], r[k]) {
      if k != key { assert k in after && after[k] == s[k]; }
    }
    forall k | k in r && k !in s ensures Remnant(r[k]) {
      if k != key { assert k in t && k !in after; }
    }
  }

  // ---- one command, and a window of them ----

  /** The command does not increment by the one number that cannot be negated. */
  predicate Negatable(c: Command)
    requires Reverse(c).Some?
  {
    && (VerbOf(c.name) == IncrBy ==> ParseInt(c.args[1]) != Some(-TWO_63))
    && (VerbOf(c.name) == HIncrBy ==> ParseInt(c.args[2]) != Some(-TWO_63))
  }

  /** The command reverses, has no more arguments than a parsed command can have, and is negatable. */
  predicate Guard(c: Command) { Reverse(c).Some? && |c.args| < MAX_ELEMENTS && Negatable(c) }

  /** Otherwise its reverse is refused by any store. */
  lemma RefusedReverse(c: Command, t: Store)
    requires Reverse(c).Some? && !Negatable(c)
    ensures Exec(t, Reverse(c).value).None?
  {
    hide ParseInt, NegateNumericDelta, Add, AddField;
    VerbOfName(DecrBy);
    if VerbOf(c.name) == HIncrBy { NegatedNumeral(c.args[2]); }
  }

  /** An increment that is not undone: a new counter goes to -2^63, and the decrement by -2^63 is refused. */
  lemma LowestDeltaNotUndone(key: string)
    ensures var c := Command(NameOf(IncrBy), [key, Itoa(-TWO_63)]);
            && Exec(map[], c) == Some(map[key := Counter(-TWO_63)])
            && Reverse(c).Some? && Exec(map[key := Counter(-TWO_63)], Reverse(c).value).None?
  {
    hide ParseInt, Itoa;
    VerbOfName(IncrBy);
    ParseIntOfItoa(-TWO_63);
    RefusedReverse(Command(NameOf(IncrBy), [key, Itoa(-TWO_63)]), map[key := Counter(-TWO_63)]);
  }

  lemma CommandUndone(s: Store, c: Command, t: Store)
    requires Valid(s) && Guard(c) && Exec(s, c).Some? && Like(Exec(s, c).value, t)
    ensures var r := Exec(t, Reverse(c).value);
            r.Some? && Like(s, r.value)
  {
    hide VerbOf, NameOf, ParseInt, Itoa, Like, Valid, Push, Pop, Add, AddField, NegateNumericDelta;
    VerbOfName(LPop); VerbOfName(RPop); VerbOfName(Incr); VerbOfName(Decr); VerbOfName(IncrBy); VerbOfName(DecrBy);
    match VerbOf(c.name)
    case LPush =>
      ParseIntOfItoa(|c.args| - 1);
      PushUndone(s, c.args[0], true, c.args[1..], t);
    case RPush =>
      ParseIntOfItoa(|c.args| - 1);
      PushUndone(s, c.args[0], false, c.args[1..], t);
    case Incr => AddUndone(s, c.args[0], 1, t);
    case Decr => AddUndone(s, c.args[0], -1, t);
    case IncrBy => AddUndone(s, c.args[0], ParseInt(c.args[1]).value, t);
    case DecrBy => AddUndone(s, c.args[0], -ParseInt(c.args[1]).value, t);
    case HIncrBy =>
      NegatedNumeral(c.args[2]);
      AddFieldUndone(s, c.args[0], c.args[1], ParseInt(c.args[2]).value, t);
  }

  /** The command's target was there before: the counter, or the field of the hash. Lists need not be. */
  predicate Existed(s: Store, c: Command) {
    match VerbOf(c.name)
    case LPush => true
    case RPush => true
    case HIncrBy => |c.args| == 3 && c.args[0] in s && s[c.args[0]].Hash? && c.args[1] in s[c.args[0]].fields
    case _ => c.args != [] && c.args[0] in s
  }

  lemma AddedBack(s: Store, key: string, delta: int)
    requires Valid(s) && Add(s, key, delta).Some?
    ensures Add(Add(s, key, delta).value, key, -delta) == Some(s) <==> key in s
  {
    var n := if key in s then s[key].n else 0;
    assert Add(s, key, delta).value[key := Counter(n)] == s[key := Counter(n)];
    if key in s { assert ValidValue(s[key]) && s[key := Counter(n)] == s; }
  }

  lemma FieldAddedBack(s: Store, key: string, field: string, delta: int)
    requires Valid(s) && AddField(s, key, field, delta).Some?
    ensures AddField(AddField(s, key, field, delta).value, key, field, -delta) == Some(s)
            <==> key in s && s[key].Hash? && field in s[key].fields
  {
    var fields := if key in s then s[key].fields else map[];
    assert key in s ==> ValidValue(s[key]);
    var n := if field in fields then fields[field] else 0;
    var after := AddField(s, key, field, delta).value;
    assert after[key].fields[field := n] == fields[field := n];
    assert after[key := Hash(fields[field := n])] == s[key := Hash(fields[field := n])];
    if field in fields { assert fields[field := n] == fields && s[key := Hash(fields)] == s; }
  }

  lemma PushedBack(s: Store, key: string, head: bool, values: seq<string>)
    requires Valid(s) && values != [] && Push(s, key, head, values).Some?
    ensures Pop(Push(s, key, head, values).value, key, head, |values|) == Some(s)
  {
    hide PushHead;
    var items := if key in s then s[key].items else [];
    PushedEnds(items, head, values);
    assert key in s ==> ValidValue(s[key]);
    var after := Push(s, key, head, values).value;
    if key in s { assert after[key := List(items)] == s; } else { assert after - {key} == s; }
  }

  /** The reverse command puts the very same store back, not just one that reads the same, exactly when its
      target existed before. */
  lemma CommandUndoneExactly(s: Store, c: Command)
    requires Valid(s) && Guard(c) && Exec(s, c).Some?
    ensures Exec(Exec(s, c).value, Reverse(c).value) == Some(s) <==> Existed(s, c)
  {
    hide VerbOf, NameOf, ParseInt, Itoa, Valid, Push, Pop, Add, AddField, NegateNumericDelta;
    VerbOfName(LPop); VerbOfName(RPop); VerbOfName(Incr); VerbOfName(Decr); VerbOfName(IncrBy); VerbOfName(DecrBy);
    match VerbOf(c.name)
    case LPush =>
      ParseIntOfItoa(|c.args| - 1);
      PushedBack(s, c.args[0], true, c.args[1..]);
    case RPush =>
      ParseIntOfItoa(|c.args| - 1);
      PushedBack(s, c.args[0], false, c.args[1..]);
    case Incr => AddedBack(s, c.args[0], 1);
    case Decr => AddedBack(s, c.args[0], -1);
    case IncrBy => AddedBack(s, c.args[0], ParseInt(c.args[1]).value);
    case DecrBy => AddedBack(s, c.args[0], -ParseInt(c.args[1]).value);
    case HIncrBy =>
      NegatedNumeral(c.args[2]);
      FieldAddedBack(s, c.args[0], c.args[1], ParseInt(c.args[2]).value);
  }

  lemma ExecValid(s: Store, c: Command)
    requires Valid(s) && Exec(s, c).Some?
    ensures Valid(Exec(s, c).value)
  {
    hide VerbOf, ParseInt, Push, Pop;
    match VerbOf(c.name)
    case LPush => PushValid(s, c.args[0], true, c.args[1..]);
    case RPush => PushValid(s, c.args[0], false, c.args[1..]);
    case LPop => PopValid(s, c.args[0], true, ParseInt(c.args[1]).value);
    case RPop => PopValid(s, c.args[0], false, ParseInt(c.args[1]).value);
    case _ =>
  }

  lemma PushValid(s: Store, key: string, head: bool, values: seq<string>)
    requires Valid(s) && Push(s, key, head, values).Some? && values != []
    ensures Valid(Push(s, key, head, values).value)
  {
    PushedHead(if key in s then s[key].items else [], values);
  }

  lemma PopValid(s: Store, key: string, head: bool, count: int)
    requires Valid(s) && Pop(s, key, head, count).Some?
    ensures Valid(Pop(s, key, head, count).value)
  {
  }

  /** Every parsed command keeps within the argument bound of the guard. */
  lemma ParsedArgs(input: string)
    requires ParseCommand(input).Ok?
    ensures |ParseCommand(input).value.value.args| < MAX_ELEMENTS
  {
    hide ParseLine, ParseBulks, ParseCount;
  }

  /** When the reverse of an increment works, exactly: unless the delta is the one 64-bit number without a
      negation. */
  lemma IncrementReverses(s: Store, c: Command)
    requires Valid(s) && Exec(s, c).Some? && Reverse(c).Some? && |c.args| < MAX_ELEMENTS
    requires VerbOf(c.name) == IncrBy || VerbOf(c.name) == HIncrBy
    ensures Exec(Exec(s, c).value, Reverse(c).value).Some?
            <==> ParseInt(c.args[if VerbOf(c.name) == IncrBy then 1 else 2]) != Some(-TWO_63)
  {
    hide VerbOf, NameOf, ParseInt, Like, Valid, Add, AddField, NegateNumericDelta;
    VerbOfName(DecrBy);
    if Guard(c) {
      LikeItself(Exec(s, c).value);
      CommandUndone(s, c, Exec(s, c).value);
    } else if VerbOf(c.name) == HIncrBy {
      NegatedNumeral(c.args[2]);
    }
  }

  lemma LikeItself(s: Store)
    ensures Like(s, s)
  {
  }
}
