/** Choosing from a list in order: what several loops of the Go code do, said without a loop. */
module Selections {
  import opened Wrappers

  ghost predicate Increasing(idx: seq<nat>) {
    forall j, k :: 0 <= j < k < |idx| ==> idx[j] < idx[k]
  }

  /** `idx` are, in order, the positions of the items for which f gives a value, and `chosen` those values. */
  ghost predicate Selects<T(!new), R>(items: seq<T>, f: T -> Option<R>, chosen: seq<R>, idx: seq<nat>) {
    && |idx| == |chosen| && Increasing(idx)
    && (forall k :: 0 <= k < |idx| ==> idx[k] < |items| && f(items[idx[k]]) == Some(chosen[k]))
    && (forall i: nat :: i < |items| && f(items[i]).Some? ==> i in idx)
  }

  ghost predicate IsSelection<T(!new), R>(items: seq<T>, f: T -> Option<R>, chosen: seq<R>) {
    exists idx :: Selects(items, f, chosen, idx)
  }

  function Pick<T, R>(items: seq<T>, f: T -> Option<R>): seq<R> {
    if items == [] then []
    else
      var last := f(items[|items| - 1]);
      Pick(items[..|items| - 1], f) + if last.Some? then [last.value] else []
  }

  lemma SelectOneMore<T(!new), R>(items: seq<T>, last: T, f: T -> Option<R>, chosen: seq<R>, idx: seq<nat>)
    requires Selects(items, f, chosen, idx)
    ensures f(last).None? ==> Selects(items + [last], f, chosen, idx)
    ensures f(last).Some? ==> Selects(items + [last], f, chosen + [f(last).value], idx + [|items|])
  {
    var more := items + [last];
    assert forall i: nat :: i < |items| ==> more[i] == items[i];
    assert more[|items|] == last;
    var longer := idx + [|items|];
    assert forall k :: 0 <= k < |idx| ==> longer[k] == idx[k];
    assert longer[|idx|] == |items|;
    assert forall i :: i in longer <==> i in idx || i == |items|;
  }

  lemma {:induction false} PickSelects<T(!new), R>(items: seq<T>, f: T -> Option<R>) returns (idx: seq<nat>)
    ensures Selects(items, f, Pick(items, f), idx)
  {
    if items == [] {
      idx := [];
    } else {
      var front, last := items[..|items| - 1], items[|items| - 1];
      idx := PickSelects(front, f);
      SelectOneMore(front, last, f, Pick(front, f), idx);
      assert items == front + [last];
      if f(last).Some? { idx := idx + [|front|]; }
    }
  }

  lemma {:induction false} PickConcat<T, R>(a: seq<T>, b: seq<T>, f: T -> Option<R>)
    ensures Pick(a + b, f) == Pick(a, f) + Pick(b, f)
  {
    if b == [] {
      assert a + b == a;
    } else {
      PickConcat(a, b[..|b| - 1], f);
      assert (a + b)[..|a + b| - 1] == a + b[..|b| - 1];
    }
  }

  lemma PickIsSelection<T(!new), R>(items: seq<T>, f: T -> Option<R>)
    ensures IsSelection(items, f, Pick(items, f))
  {
    var idx := PickSelects(items, f);
  }

  ghost function Positions<T(!new), R>(items: seq<T>, f: T -> Option<R>, x: R): set<nat> {
    set i: nat | i < |items| && f(items[i]) == Some(x)
  }

  lemma PositionsOneMore<T(!new), R>(front: seq<T>, last: T, f: T -> Option<R>, x: R)
    ensures |Positions(front + [last], f, x)| == |Positions(front, f, x)| + if f(last) == Some(x) then 1 else 0
  {
    var before, after := Positions(front, f, x), Positions(front + [last], f, x);
    if f(last) == Some(x) {
      assert after == before + {|front|};
    } else {
      assert after == before;
    }
  }

  /** Each value is chosen as often as there are items that give it. */
  lemma {:induction false} PickCount<T(!new), R>(items: seq<T>, f: T -> Option<R>, x: R)
    ensures multiset(Pick(items, f))[x] == |Positions(items, f, x)|
  {
    if items != [] {
      var front, last := items[..|items| - 1], items[|items| - 1];
      PickCount(front, f, x);
      PositionsOneMore(front, last, f, x);
      assert items == front + [last];
    }
  }

  lemma {:induction false} PickNothing<T(!new), R>(items: seq<T>, f: T -> Option<R>)
    ensures Pick(items, f) == [] <==> forall i :: 0 <= i < |items| ==> f(items[i]).None?
  {
    if items != [] {
      var n := |items| - 1;
      var front := items[..n];
      PickNothing(front, f);
      assert forall i :: 0 <= i < n ==> front[i] == items[i];
    }
  }

  /** There is only one selection. */
  lemma {:induction false} SelectionIsUnique<T(!new), R>(items: seq<T>, f: T -> Option<R>,
                                                         chosen: seq<R>, idx: seq<nat>)
    requires Selects(items, f, chosen, idx)
    ensures chosen == Pick(items, f)
    decreases |items|
  {
    if items != [] {
      var n := |items| - 1;
      var front := items[..n];
      assert forall i: nat :: i < n ==> front[i] == items[i];
      if f(items[n]).Some? {
        assert n in idx;
        var k := |idx| - 1;
        assert idx[k] == n;
        forall i: nat | i < |front| && f(front[i]).Some?
          ensures i in idx[..k]
        {
          assert i in idx;
          var m :| 0 <= m < |idx| && idx[m] == i;
          assert idx[..k][m] == i;
        }
        assert chosen == chosen[..k] + [chosen[k]];
        SelectionIsUnique(front, f, chosen[..k], idx[..k]);
      } else {
        SelectionIsUnique(front, f, chosen, idx);
      }
    }
  }
}
