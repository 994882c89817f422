/** A table as a multiset of rows, changed one row at a time as a rows event is replayed. */
module Bags {
  import opened Bytes

  function InsertAll<T>(t: multiset<T>, rows: seq<T>): multiset<T>
    decreases |rows|
  {
    if rows == [] then t else InsertAll(t + multiset{rows[0]}, rows[1..])
  }

  /** Rows deleted one at a time; each must be found. */
  function DeleteAll<T(==)>(t: multiset<T>, rows: seq<T>): Option<multiset<T>>
    decreases |rows|
  {
    if rows == [] then Some(t)
    else if rows[0] !in t then None
    else DeleteAll(t - multiset{rows[0]}, rows[1..])
  }

  /** Pairs replayed in order: the before image must be found, and becomes the after image. */
  function UpdateAll<T(==)>(t: multiset<T>, before: seq<T>, after: seq<T>): Option<multiset<T>>
    requires |before| == |after|
    decreases |before|
  {
    if before == [] then Some(t)
    else if before[0] !in t then None
    else UpdateAll(t - multiset{before[0]} + multiset{after[0]}, before[1..], after[1..])
  }

  lemma HeadAndTail<T>(rows: seq<T>)
    requires rows != []
    ensures multiset(rows) == multiset{rows[0]} + multiset(rows[1..])
  {
    assert rows == [rows[0]] + rows[1..];
  }

  lemma {:induction false} InsertedContents<T>(t: multiset<T>, rows: seq<T>)
    ensures InsertAll(t, rows) == t + multiset(rows)
    decreases |rows|
  {
    if rows == [] {
    } else {
      HeadAndTail(rows);
      InsertedContents(t + multiset{rows[0]}, rows[1..]);
    }
  }

  lemma {:induction false} DeletedContents<T>(t: multiset<T>, rows: seq<T>)
    ensures DeleteAll(t, rows) == if multiset(rows) <= t then Some(t - multiset(rows)) else None
    decreases |rows|
  {
    if rows != [] {
      HeadAndTail(rows);
      if rows[0] in t {
        DeletedContents(t - multiset{rows[0]}, rows[1..]);
        RemoveOne(t, rows[0], multiset(rows[1..]));
      } else {
        assert multiset(rows)[rows[0]] > t[rows[0]];
      }
    } else {
      assert t - multiset(rows) == t;
    }
  }

  lemma RemoveOne<T>(t: multiset<T>, x: T, rest: multiset<T>)
    requires x in t
    ensures multiset{x} + rest <= t <==> rest <= t - multiset{x}
    ensures t - (multiset{x} + rest) == t - multiset{x} - rest
  {
    if rest <= t - multiset{x} {
      assert multiset{x} + (t - multiset{x}) == t;
    }
    if multiset{x} + rest <= t {
      assert rest == (multiset{x} + rest) - multiset{x};
    }
  }

  /** Written rows are all found again, and deleting them restores the table. */
  lemma InsertUndone<T>(t: multiset<T>, rows: seq<T>)
    ensures DeleteAll(InsertAll(t, rows), rows) == Some(t)
  {
    InsertedContents(t, rows);
    DeletedContents(t + multiset(rows), rows);
    assert t + multiset(rows) - multiset(rows) == t;
  }

  lemma DeleteUndone<T>(t: multiset<T>, rows: seq<T>)
    requires DeleteAll(t, rows).Some?
    ensures InsertAll(DeleteAll(t, rows).value, rows) == t
  {
    DeletedContents(t, rows);
    InsertedContents(t - multiset(rows), rows);
    assert t - multiset(rows) + multiset(rows) == t;
  }

  /** Whatever order the pairs are replayed in, the outcome moves the before images out and the after
      images in. */
  lemma {:induction false} UpdatedContents<T>(t: multiset<T>, before: seq<T>, after: seq<T>)
    requires |before| == |after| && UpdateAll(t, before, after).Some?
    ensures UpdateAll(t, before, after).value + multiset(before) == t + multiset(after)
    decreases |before|
  {
    if before == [] {
    } else {
      HeadAndTail(before);
      HeadAndTail(after);
      var next := t - multiset{before[0]} + multiset{after[0]};
      UpdatedContents(next, before[1..], after[1..]);
      MoveOne(UpdateAll(t, before, after).value, t, before[0], after[0], multiset(before[1..]), multiset(after[1..]));
    }
  }

  lemma MoveOne<T>(u: multiset<T>, t: multiset<T>, x: T, y: T, before: multiset<T>, after: multiset<T>)
    requires x in t && u + before == t - multiset{x} + multiset{y} + after
    ensures u + (multiset{x} + before) == t + (multiset{y} + after)
  {
    assert u + (multiset{x} + before) == (u + before) + multiset{x};
    assert t - multiset{x} + multiset{x} == t;
  }

  /** When the before images lie in the table together, every step finds its row. */
  lemma {:induction false} UpdateSucceeds<T>(t: multiset<T>, before: seq<T>, after: seq<T>)
    requires |before| == |after| && multiset(before) <= t
    ensures UpdateAll(t, before, after).Some?
    decreases |before|
  {
    if before == [] {
    } else {
      HeadAndTail(before);
      assert multiset(before)[before[0]] > 0;
      RemoveOne(t, before[0], multiset(before[1..]));
      UpdateSucceeds(t - multiset{before[0]} + multiset{after[0]}, before[1..], after[1..]);
    }
  }

  lemma Moved<T>(t: multiset<T>, u: multiset<T>, before: multiset<T>, after: multiset<T>)
    requires before <= t && u + before == t + after
    ensures after <= u
  {
    assert t == before + (t - before);
    assert u == u + before - before == t + after - before == (t - before) + after;
  }

  lemma Cancel<T>(a: multiset<T>, b: multiset<T>, m: multiset<T>)
    requires a + m == b + m
    ensures a == b
  {
    assert a == a + m - m && b == b + m - m;
  }

  /** An update is undone by its swapped pairs in the same order: every step finds its row and the table
      is what it was. The after images lie together in the table that results, so it works both ways. */
  lemma UpdateUndone<T>(t: multiset<T>, before: seq<T>, after: seq<T>)
    requires |before| == |after| && multiset(before) <= t
    ensures UpdateAll(t, before, after).Some?
    ensures var u := UpdateAll(t, before, after).value;
            multiset(after) <= u && UpdateAll(u, after, before) == Some(t)
  {
    UpdateSucceeds(t, before, after);
    UpdatedContents(t, before, after);
    var u := UpdateAll(t, before, after).value;
    Moved(t, u, multiset(before), multiset(after));
    UpdateSucceeds(u, after, before);
    UpdatedContents(u, after, before);
    Cancel(UpdateAll(u, after, before).value, t, multiset(after));
  }

  /** The i-th step of the swapped pairs finds its row, counted on the table before the event: there are more of
      that after image, in the table and still to be written, than are still to be read. */
  predicate FindsAt<T(==)>(t: multiset<T>, before: seq<T>, after: seq<T>, i: nat)
    requires |before| == |after| && i < |after|
  {
    t[after[i]] + multiset(after[i..])[after[i]] > multiset(before[i..])[after[i]]
  }

  /** Every step finds its row. */
  predicate FindsEach<T(==)>(t: multiset<T>, before: seq<T>, after: seq<T>)
    requires |before| == |after|
  {
    forall i :: 0 <= i < |after| ==> FindsAt(t, before, after, i)
  }

  lemma FindsLater<T>(t: multiset<T>, before: seq<T>, after: seq<T>, i: nat)
    requires |before| == |after| && 0 < i < |after|
    ensures FindsAt(t, before, after, i) <==> FindsAt(t, before[1..], after[1..], i - 1)
  {
    assert after[1..][i - 1..] == after[i..] && before[1..][i - 1..] == before[i..];
  }

  lemma FindsFirst<T>(t: multiset<T>, before: seq<T>, after: seq<T>)
    requires |before| == |after| && before != []
    ensures FindsEach(t, before, after) <==> FindsAt(t, before, after, 0) && FindsEach(t, before[1..], after[1..])
    ensures FindsAt(t, before, after, 0) <==> t[after[0]] + multiset(after)[after[0]] > multiset(before)[after[0]]
  {
    assert after[0..] == after && before[0..] == before;
    forall i | 0 < i < |after|
      ensures FindsAt(t, before, after, i) <==> FindsAt(t, before[1..], after[1..], i - 1)
    {
      FindsLater(t, before, after, i);
    }
    if FindsEach(t, before, after) {
      forall i | 0 <= i < |after[1..]| ensures FindsAt(t, before[1..], after[1..], i) {
        assert FindsAt(t, before, after, i + 1);
      }
    }
  }

  lemma {:induction false} ReplayFinds<T>(v: multiset<T>, t: multiset<T>, before: seq<T>, after: seq<T>)
    requires |before| == |after| && v + multiset(before) == t + multiset(after)
    ensures UpdateAll(v, after, before).Some? <==> FindsEach(t, before, after)
    decreases |before|
  {
    hide FindsEach, FindsAt;
    if before == [] {
      assert FindsEach(t, before, after) by { FindsNothing(t); }
    } else {
      FindsFirst(t, before, after);
      HeadAndTail(before);
      HeadAndTail(after);
      assert (v + multiset(before))[after[0]] == (t + multiset(after))[after[0]];
      if after[0] in v {
        var next := v - multiset{after[0]} + multiset{before[0]};
        MoveBack(v, t, after[0], before[0], multiset(before[1..]), multiset(after[1..]));
        ReplayFinds(next, t, before[1..], after[1..]);
      }
    }
  }

  lemma FindsNothing<T>(t: multiset<T>)
    ensures FindsEach(t, [], [])
  {
  }

  lemma MoveBack<T>(v: multiset<T>, t: multiset<T>, y: T, x: T, before: multiset<T>, after: multiset<T>)
    requires y in v && v + (multiset{x} + before) == t + (multiset{y} + after)
    ensures v - multiset{y} + multiset{x} + before == t + after
  {
    var w := v - multiset{y};
    assert v == w + multiset{y};
    assert w + multiset{y} + (multiset{x} + before) == (w + multiset{x} + before) + multiset{y};
    assert t + (multiset{y} + after) == (t + after) + multiset{y};
    Cancel(w + multiset{x} + before, t + after, multiset{y});
  }

  /** When an update is undone, exactly: its swapped pairs in the same order restore the table if and only if
      each finds its row by the count on the table before the event. */
  lemma UpdateUndoneExactly<T>(t: multiset<T>, before: seq<T>, after: seq<T>)
    requires |before| == |after| && UpdateAll(t, before, after).Some?
    ensures UpdateAll(UpdateAll(t, before, after).value, after, before) == Some(t) <==> FindsEach(t, before, after)
  {
    hide FindsEach;
    var u := UpdateAll(t, before, after).value;
    UpdatedContents(t, before, after);
    ReplayFinds(u, t, before, after);
    if UpdateAll(u, after, before).Some? {
      UpdatedContents(u, after, before);
      Cancel(UpdateAll(u, after, before).value, t, multiset(after));
    }
  }

  /** The table that deleting rows leaves comes from one table only; so does the one that
      an update leaves. */
  lemma DeleteInjective<T>(t: multiset<T>, s: multiset<T>, rows: seq<T>)
    requires DeleteAll(t, rows) == Some(s)
    ensures t == InsertAll(s, rows)
  {
    DeletedContents(t, rows);
    InsertedContents(s, rows);
    assert t - multiset(rows) + multiset(rows) == t;
  }

  lemma UpdateInjective<T>(t: multiset<T>, s: multiset<T>, before: seq<T>, after: seq<T>)
    requires |before| == |after| && UpdateAll(s, before, after).Some? && UpdateAll(t, after, before) == Some(s)
    ensures UpdateAll(s, before, after) == Some(t)
  {
    UpdatedContents(s, before, after);
    UpdatedContents(t, after, before);
    Cancel(t, UpdateAll(s, before, after).value, multiset(before));
  }

  /** The count holds in particular when the before images lie in the table together. */
  lemma TogetherFinds<T>(t: multiset<T>, before: seq<T>, after: seq<T>)
    requires |before| == |after| && multiset(before) <= t
    ensures FindsEach(t, before, after)
  {
    forall i | 0 <= i < |after| ensures FindsAt(t, before, after, i) {
      assert before == before[..i] + before[i..];
      assert after[i..][0] == after[i] && after[i] in after[i..];
      assert multiset(after[i..])[after[i]] > 0;
      assert multiset(before)[after[i]] <= t[after[i]];
    }
  }

  /** For one row updated twice in a single event the event itself applies, but its swapped pairs, replayed in
      the same order, miss their first row. */
  lemma ChainedUpdateNotUndone<T>(a: T, b: T, c: T)
    requires a != b && b != c && a != c
    ensures UpdateAll(multiset{a}, [a, b], [b, c]) == Some(multiset{c})
    ensures UpdateAll(multiset{c}, [b, c], [a, b]).None?
    ensures !(multiset([a, b]) <= multiset{a})
  {
    assert multiset{a} - multiset{a} + multiset{b} == multiset{b};
    assert multiset{b} - multiset{b} + multiset{c} == multiset{c};
    assert [a, b][1..] == [b] && [b, c][1..] == [c];
    assert UpdateAll(multiset{b}, [b], [c]) == Some(multiset{c});
    assert multiset([a, b])[b] == 1;
  }
}
