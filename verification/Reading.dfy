/** What every cursor loop keeps: the pieces read so far, in front of what is read after them. */
module Reading {
  import opened Bytes

  /** A value and how much of the input it took. */
  datatype Parsed<+T> = Parsed(value: T, size: nat)

  function Prepend<T>(done: seq<T>, r: Result<seq<T>>): Result<seq<T>> {
    if r.Ok? then Ok(done + r.value) else r
  }

  /** One more piece. */
  lemma PrependStep<T>(done: seq<T>, item: T, rest: Result<seq<T>>)
    ensures Prepend(done, if rest.Ok? then Ok([item] + rest.value) else rest) == Prepend(done + [item], rest)
  {
    if rest.Ok? { Assoc(done, [item], rest.value); }
  }

  /** Where it starts, and the two ways it ends. */
  lemma PrependEnds<T>(done: seq<T>, r: Result<seq<T>>)
    ensures r.Err? ==> Prepend(done, r) == r
    ensures Prepend([], r) == r
    ensures r == Ok([]) ==> Prepend(done, r) == Ok(done)
  {
    assert done + [] == done;
    if r.Ok? { assert [] + r.value == r.value; }
  }

  /** The same with the size of what was read. */
  function Onto<T>(done: seq<T>, size: nat, r: Result<Parsed<seq<T>>>): Result<Parsed<seq<T>>> {
    if r.Ok? then Ok(Parsed(done + r.value.value, size + r.value.size)) else r
  }

  lemma OntoOnto<T>(a: seq<T>, size: nat, b: seq<T>, more: nat, r: Result<Parsed<seq<T>>>)
    ensures Onto(a, size, Onto(b, more, r)) == Onto(a + b, size + more, r)
  {
    if r.Ok? { Assoc(a, b, r.value.value); }
  }

  lemma OntoStep<T>(done: seq<T>, size: nat, item: T, more: nat, rest: Result<Parsed<seq<T>>>)
    ensures Onto(done, size, if rest.Ok? then Ok(Parsed([item] + rest.value.value, more + rest.value.size)) else rest)
            == Onto(done + [item], size + more, rest)
  {
    OntoOnto(done, size, [item], more, rest);
  }

  lemma OntoEnds<T>(done: seq<T>, size: nat, r: Result<Parsed<seq<T>>>)
    ensures r.Err? ==> Onto(done, size, r) == r
    ensures Onto([], 0, r) == r
    ensures r.Ok? && r.value.value == [] ==> Onto(done, size, r) == Ok(Parsed(done, size + r.value.size))
  {
    assert done + [] == done;
    if r.Ok? { assert [] + r.value.value == r.value.value; }
  }

  lemma OntoOk<T>(done: seq<T>, size: nat, r: Result<Parsed<seq<T>>>)
    requires Onto(done, size, r).Ok?
    ensures r.Ok? && Onto(done, size, r).value.size == size + r.value.size
  {
  }
}
