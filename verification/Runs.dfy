/**
 Transition systems and their finite runs. Every concurrent component of the model (worker pool, fan-in,
 group close, keepalive) is a System; its for-all-interleavings theorems go through the three lemmas here.
 */
module Runs {
  import opened Wrappers

  datatype System<!S> = System(init: S -> bool, step: (S, S) -> bool)

  ghost predicate IsRun<S(!new)>(sys: System<S>, run: seq<S>) {
    && |run| > 0
    && sys.init(run[0])
    && forall k :: 0 <= k < |run| - 1 ==> sys.step(run[k], run[k + 1])
  }

  ghost predicate Inductive<S(!new)>(sys: System<S>, inv: S -> bool) {
    && (forall s :: sys.init(s) ==> inv(s))
    && (forall s, s' :: inv(s) && sys.step(s, s') ==> inv(s'))
  }

  /** s is the last state of some run. */
  ghost predicate Reachable<S(!new)>(sys: System<S>, s: S) {
    exists run :: IsRun(sys, run) && run[|run| - 1] == s
  }

  lemma {:induction false} InvariantOnRun<S(!new)>(sys: System<S>, inv: S -> bool, run: seq<S>)
    requires Inductive(sys, inv) && IsRun(sys, run)
    ensures forall k :: 0 <= k < |run| ==> inv(run[k])
  {
    if |run| > 1 {
      var front := run[..|run| - 1];
      InvariantOnRun(sys, inv, front);
      assert inv(front[|run| - 2]) && sys.step(run[|run| - 2], run[|run| - 2 + 1]);
    }
  }

  lemma InvariantReachable<S(!new)>(sys: System<S>, inv: S -> bool, s: S)
    requires Inductive(sys, inv) && Reachable(sys, s)
    ensures inv(s)
  {
    var run :| IsRun(sys, run) && run[|run| - 1] == s;
    InvariantOnRun(sys, inv, run);
  }

  /** A measure that drops on every step bounds the length of every run by its initial value. */
  lemma {:induction false} RunIsBounded<S(!new)>(sys: System<S>, inv: S -> bool, measure: S -> nat, run: seq<S>)
    requires Inductive(sys, inv) && IsRun(sys, run)
    requires forall s, s' :: inv(s) && sys.step(s, s') ==> measure(s') < measure(s)
    ensures |run| - 1 + measure(run[|run| - 1]) <= measure(run[0])
  {
    if |run| > 1 {
      var front := run[..|run| - 1];
      RunIsBounded(sys, inv, measure, front);
      InvariantOnRun(sys, inv, front);
      assert inv(front[|run| - 2]) && sys.step(run[|run| - 2], run[|run| - 2 + 1]);
    }
  }

  lemma ReachableStep<S(!new)>(sys: System<S>, s: S, s': S)
    requires Reachable(sys, s) && sys.step(s, s')
    ensures Reachable(sys, s')
  {
    var run :| IsRun(sys, run) && run[|run| - 1] == s;
    var longer := run + [s'];
    assert IsRun(sys, longer) && longer[|longer| - 1] == s';
  }

  lemma ReachableInit<S(!new)>(sys: System<S>, s: S)
    requires sys.init(s)
    ensures Reachable(sys, s)
  {
    assert IsRun(sys, [s]) && [s][|[s]| - 1] == s;
  }

  // ---- termination measures over the states of several goroutines ----

  function Total<T>(items: seq<T>, weight: T -> nat): nat {
    if items == [] then 0 else Total(items[..|items| - 1], weight) + weight(items[|items| - 1])
  }

  /** One goroutine moving changes the total by what it changes its own weight. */
  lemma {:induction false} TotalUpdate<T>(items: seq<T>, weight: T -> nat, i: nat, x: T)
    requires i < |items|
    ensures Total(items[i := x], weight) == Total(items, weight) - weight(items[i]) + weight(x)
  {
    var front := items[..|items| - 1];
    if i == |items| - 1 {
      assert items[i := x][..|items| - 1] == front;
    } else {
      TotalUpdate(front, weight, i, x);
      assert items[i := x][..|items| - 1] == front[i := x];
    }
  }

  lemma {:induction false} TotalAtMost<T>(items: seq<T>, weight: T -> nat, w: nat)
    requires forall i :: 0 <= i < |items| ==> weight(items[i]) <= w
    ensures Total(items, weight) <= w * |items|
  {
    if items != [] {
      TotalAtMost(items[..|items| - 1], weight, w);
      assert w * |items| == w * (|items| - 1) + w;
    }
  }

  /** Some goroutine for which p holds, if there is one. */
  function FindIndex<T>(items: seq<T>, p: T -> bool): (r: Option<nat>)
    ensures r.Some? ==> r.value < |items| && p(items[r.value])
    ensures r.None? ==> forall i :: 0 <= i < |items| ==> !p(items[i])
  {
    if items == [] then None
    else
      var r := FindIndex(items[..|items| - 1], p);
      if r.Some? then r
      else if p(items[|items| - 1]) then Some(|items| - 1)
      else None
  }
}
