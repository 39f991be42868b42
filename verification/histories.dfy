/** What a history of calls has left marked. */
module Histories {
  import opened Bytes

  /** What a call says of a mark, in the state in which it comes: that it is set, that it is not,
      or nothing. */
  type Marks<!S, !C> = (S, C) -> Option<bool>

  /** Some call has set the mark, and none since has cleared it. */
  ghost predicate MarkedSince<S(!new), C(!new)>(calls: seq<C>, exec: seq<C> -> S, marks: Marks<S, C>) {
    exists i :: 0 <= i < |calls| && SetAt(calls, exec, marks, i) && forall j :: i < j < |calls| ==> !ClearedAt(calls, exec, marks, j)
  }

  predicate SetAt<S, C>(calls: seq<C>, exec: seq<C> -> S, marks: Marks<S, C>, i: nat)
    requires i < |calls|
  {
    var m := marks(exec(calls[..i]), calls[i]);
    m.Some? && m.value
  }

  predicate ClearedAt<S, C>(calls: seq<C>, exec: seq<C> -> S, marks: Marks<S, C>, i: nat)
    requires i < |calls|
  {
    var m := marks(exec(calls[..i]), calls[i]);
    m.Some? && !m.value
  }

  lemma MarkedOneMore<S(!new), C(!new)>(calls: seq<C>, c: C, exec: seq<C> -> S, marks: Marks<S, C>)
    ensures var m := marks(exec(calls), c);
            MarkedSince(calls + [c], exec, marks) <==> if m.Some? then m.value else MarkedSince(calls, exec, marks)
  {
    var all := calls + [c];
    assert all[..|calls|] == calls && all[|calls|] == c;
    forall i | 0 <= i < |calls|
      ensures SetAt(all, exec, marks, i) <==> SetAt(calls, exec, marks, i)
      ensures ClearedAt(all, exec, marks, i) <==> ClearedAt(calls, exec, marks, i)
    {
      assert all[..i] == calls[..i] && all[i] == calls[i];
    }
    var m := marks(exec(calls), c);
    if m.Some? && m.value {
      assert SetAt(all, exec, marks, |calls|);
    } else if m.None? && MarkedSince(calls, exec, marks) {
      var i :| 0 <= i < |calls| && SetAt(calls, exec, marks, i) &&
               forall j :: i < j < |calls| ==> !ClearedAt(calls, exec, marks, j);
      assert SetAt(all, exec, marks, i) && forall j :: i < j < |all| ==> !ClearedAt(all, exec, marks, j);
    }
    if MarkedSince(all, exec, marks) && !(m.Some? && m.value) {
      var i :| 0 <= i < |all| && SetAt(all, exec, marks, i) && forall j :: i < j < |all| ==> !ClearedAt(all, exec, marks, j);
      assert i < |calls| && !ClearedAt(all, exec, marks, |calls|);
      assert SetAt(calls, exec, marks, i) && forall j :: i < j < |calls| ==> !ClearedAt(calls, exec, marks, j);
    }
  }
}
