/** Rows of optional entries: the slots of a send window, a receive buffer or a reorder buffer. */
module Slots {
  import opened Packets

  /** Occupied slots. */
  function Count<T>(slots: seq<Option<T>>): nat {
    if slots == [] then 0
    else Count(slots[..|slots| - 1]) + if slots[|slots| - 1].Some? then 1 else 0
  }

  lemma {:induction false} CountOfUpdate<T>(slots: seq<Option<T>>, i: nat, slot: Option<T>)
    requires i < |slots|
    ensures Count(slots[i := slot]) ==
            Count(slots) - (if slots[i].Some? then 1 else 0) + if slot.Some? then 1 else 0
  {
    var n := |slots| - 1;
    if i == n {
      assert slots[i := slot][..n] == slots[..n];
    } else {
      assert slots[i := slot][..n] == slots[..n][i := slot];
      CountOfUpdate(slots[..n], i, slot);
    }
  }

  lemma {:induction false} CountBounds<T>(slots: seq<Option<T>>)
    ensures Count(slots) <= |slots|
    ensures Count(slots) == 0 <==> forall i :: 0 <= i < |slots| ==> slots[i].None?
    ensures Count(slots) == |slots| <==> forall i :: 0 <= i < |slots| ==> slots[i].Some?
  {
    if slots != [] {
      var n := |slots| - 1;
      CountBounds(slots[..n]);
      assert forall i :: 0 <= i < n ==> slots[..n][i] == slots[i];
      if Count(slots) == 0 {
        assert forall i :: 0 <= i < n ==> slots[i] == slots[..n][i];
      }
      if Count(slots) == |slots| {
        assert forall i :: 0 <= i < n ==> slots[i] == slots[..n][i];
      }
    }
  }
}
