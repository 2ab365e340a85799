/**
 Fan-out and fan-in as Group.Run and Shell.Apply do it: the main goroutine starts n senders, each sender does its
 work and then sends once on an unbuffered channel, and main receives n times.
 */
module FanIn {
  import opened Wrappers
  import opened Runs

  datatype Phase = NotStarted | Running | Sending | Exited

  datatype Main = Launching | Receiving | Returned

  /** `finished` and `received` log the order in which senders end their work and are received from. */
  datatype State = State(main: Main, launched: nat, phases: seq<Phase>, finished: seq<nat>, received: seq<nat>)

  datatype Label =
    | Launch           // go func() { ... }(h)
    | LaunchedAll
    | Finish(i: nat)   // the work of sender i ends
    | Receive(i: nat)  // rendezvous on the channel
    | Return

  function Init(n: nat): State { State(Launching, 0, seq(n, _ => NotStarted), [], []) }

  predicate Enabled(s: State, l: Label) {
    match l
    case Launch => s.main.Launching? && s.launched < |s.phases|
    case LaunchedAll => s.main.Launching? && s.launched == |s.phases|
    case Finish(i) => i < |s.phases| && s.phases[i].Running?
    case Receive(i) => s.main.Receiving? && |s.received| < |s.phases| && i < |s.phases| && s.phases[i].Sending?
    case Return => s.main.Receiving? && |s.received| == |s.phases|
  }

  function Apply(s: State, l: Label): State
    requires Enabled(s, l)
  {
    match l
    case Launch => s.(launched := s.launched + 1, phases := s.phases[s.launched := Running])
    case LaunchedAll => s.(main := Receiving)
    case Finish(i) => s.(phases := s.phases[i := Sending], finished := s.finished + [i])
    case Receive(i) => s.(phases := s.phases[i := Exited], received := s.received + [i])
    case Return => s.(main := Returned)
  }

  ghost predicate Step(s: State, s': State) {
    exists l :: Enabled(s, l) && s' == Apply(s, l)
  }

  ghost predicate Stuck(s: State) { forall s' :: !Step(s, s') }

  ghost function Senders(n: nat): System<State> {
    System(s => s == Init(n), (s, s') => Step(s, s'))
  }

  // ---- permutations of 0..n ----

  ghost predicate Injective(order: seq<nat>, n: nat) {
    (forall i :: 0 <= i < |order| ==> order[i] < n) && Distinct(order)
  }

  ghost predicate IsPermutation(order: seq<nat>, n: nat) {
    Injective(order, n) && |order| == n
  }

  /** Cutting the largest number out of a list without repeats. */
  lemma CutOut(order: seq<nat>, n: nat, p: nat) returns (rest: seq<nat>)
    requires n > 0 && Injective(order, n) && p < |order| && order[p] == n - 1
    ensures rest == order[..p] + order[p + 1..] && Injective(rest, n - 1) && |rest| == |order| - 1
    ensures forall i :: i in order <==> i in rest || i == n - 1
  {
    rest := order[..p] + order[p + 1..];
    forall i
      ensures i in order <==> i in rest || i == n - 1
    {
      assert order == order[..p] + [n - 1] + order[p + 1..];
    }
  }

  lemma {:induction false} Pigeonhole(order: seq<nat>, n: nat)
    requires Injective(order, n)
    ensures |order| <= n
    ensures |order| == n <==> forall i :: 0 <= i < n ==> i in order
  {
    var head: int := if |order| > 0 then order[0] else -1;
    assert 0 <= head ==> head < n;
    if n > 0 {
      if p :| 0 <= p < |order| && order[p] == n - 1 {
        var rest := CutOut(order, n, p);
        Pigeonhole(rest, n - 1);
      } else {
        Pigeonhole(order, n - 1);
        assert n - 1 !in order;
      }
    }
  }

  // ---- what main gets from the senders ----

  /** What main keeps when it receives in this order and drops the nil values. */
  function Gathered<T>(sent: seq<Option<T>>, order: seq<nat>): seq<T>
    requires forall i :: 0 <= i < |order| ==> order[i] < |sent|
  {
    if order == [] then []
    else
      var last := sent[order[|order| - 1]];
      Gathered(sent, order[..|order| - 1]) + (if last.Some? then [last.value] else [])
  }

  /** The senders that send x. */
  ghost function SendersOf<T>(sent: seq<Option<T>>, x: T): set<nat> {
    set i: nat | i < |sent| && sent[i] == Some(x)
  }

  /** Those of them that have been received from. */
  ghost function HeardFrom<T>(sent: seq<Option<T>>, order: seq<nat>, x: T): set<nat> {
    set i | i in order && i in SendersOf(sent, x)
  }

  lemma HeardOneMore<T>(sent: seq<Option<T>>, front: seq<nat>, last: nat, x: T)
    requires last < |sent| && last !in front
    ensures |HeardFrom(sent, front + [last], x)| == |HeardFrom(sent, front, x)| + if sent[last] == Some(x) then 1 else 0
  {
    var before, after := HeardFrom(sent, front, x), HeardFrom(sent, front + [last], x);
    assert forall i :: i in front + [last] <==> i in front || i == last;
    if sent[last] == Some(x) {
      assert after == before + {last};
    } else {
      assert after == before;
    }
  }

  lemma {:induction false} CountSoFar<T>(sent: seq<Option<T>>, order: seq<nat>, x: T)
    requires Injective(order, |sent|)
    ensures multiset(Gathered(sent, order))[x] == |HeardFrom(sent, order, x)|
  {
    if order != [] {
      var front, last := order[..|order| - 1], order[|order| - 1];
      CountSoFar(sent, front, x);
      assert order == front + [last];
      HeardOneMore(sent, front, last, x);
    }
  }

  /** In every order of reception main gets x exactly as often as there are senders that send it. */
  lemma GatheredCount<T>(sent: seq<Option<T>>, order: seq<nat>, x: T)
    requires IsPermutation(order, |sent|)
    ensures multiset(Gathered(sent, order))[x] == |SendersOf(sent, x)|
  {
    CountSoFar(sent, order, x);
    Pigeonhole(order, |sent|);
    assert HeardFrom(sent, order, x) == SendersOf(sent, x);
  }

  lemma {:induction false} NothingSoFar<T>(sent: seq<Option<T>>, order: seq<nat>)
    requires forall i :: 0 <= i < |order| ==> order[i] < |sent|
    ensures Gathered(sent, order) == [] <==> forall i :: i in order ==> sent[i].None?
  {
    if order != [] {
      var front, last := order[..|order| - 1], order[|order| - 1];
      NothingSoFar(sent, front);
      assert order == front + [last];
    }
  }

  lemma GatheredNothing<T>(sent: seq<Option<T>>, order: seq<nat>)
    requires IsPermutation(order, |sent|)
    ensures Gathered(sent, order) == [] <==> forall i :: 0 <= i < |sent| ==> sent[i].None?
  {
    NothingSoFar(sent, order);
    Pigeonhole(order, |sent|);
  }

  // ---- invariant, progress, termination ----

  ghost predicate Inv(n: nat, s: State) {
    && |s.phases| == n && s.launched <= n
    && (forall i :: 0 <= i < n ==> (s.phases[i].NotStarted? <==> s.launched <= i))
    && (forall i :: 0 <= i < n ==> (s.phases[i].Sending? || s.phases[i].Exited? <==> i in s.finished))
    && (forall i :: 0 <= i < n ==> (s.phases[i].Exited? <==> i in s.received))
    && Injective(s.finished, n) && Injective(s.received, n)
    && (s.main.Launching? ==> s.received == [])
    && (!s.main.Launching? ==> s.launched == n)
    && (s.main.Returned? ==> |s.received| == n)
  }

  lemma StepKeepsInv(n: nat, s: State, l: Label)
    requires Inv(n, s) && Enabled(s, l)
    ensures Inv(n, Apply(s, l))
  {
    var s' := Apply(s, l);
    match l
    case Finish(i) =>
      assert forall j :: j in s'.finished <==> j in s.finished || j == i;
      assert forall k :: 0 <= k < |s.finished| ==> s.finished[k] in s.finished;
    case Receive(i) =>
      assert forall j :: j in s'.received <==> j in s.received || j == i;
      assert forall k :: 0 <= k < |s.received| ==> s.received[k] in s.received;
    case _ =>
  }

  lemma InvIsInductive(n: nat)
    ensures Inductive(Senders(n), s => Inv(n, s))
  {
    forall s, s' | Inv(n, s) && Step(s, s')
      ensures Inv(n, s')
    {
      var l :| Enabled(s, l) && s' == Apply(s, l);
      StepKeepsInv(n, s, l);
    }
  }

  /** No sender blocks forever and main never waits in vain. */
  function NextEnabled(n: nat, s: State): (l: Label)
    requires Inv(n, s) && !s.main.Returned?
    ensures Enabled(s, l)
  {
    if s.main.Launching? then
      if s.launched < n then Launch else LaunchedAll
    else if |s.received| == n then Return
    else
      Pigeonhole(s.received, n);
      var r := FindIndex(s.phases, (p: Phase) => p != Exited);
      if s.phases[r.value].Running? then Finish(r.value) else Receive(r.value)
  }

  function Weight(p: Phase): nat {
    match p
    case NotStarted => 3
    case Running => 2
    case Sending => 1
    case Exited => 0
  }

  function Measure(s: State): nat {
    Total(s.phases, Weight) + match s.main case Launching => 2 case Receiving => 1 case Returned => 0
  }

  lemma StepDecreases(n: nat, s: State, l: Label)
    requires Inv(n, s) && Enabled(s, l)
    ensures Measure(Apply(s, l)) < Measure(s)
  {
    match l
    case Launch => TotalUpdate(s.phases, Weight, s.launched, Running);
    case Finish(i) => TotalUpdate(s.phases, Weight, i, Sending);
    case Receive(i) => TotalUpdate(s.phases, Weight, i, Exited);
    case _ =>
  }

  /** Main has returned: each sender worked once, was received from once, and is gone. */
  ghost predicate Complete(n: nat, s: State) {
    && IsPermutation(s.finished, n) && IsPermutation(s.received, n)
    && |s.phases| == n && forall i :: 0 <= i < n ==> s.phases[i].Exited?
  }

  lemma ReturnedIsComplete(n: nat, s: State)
    requires Inv(n, s) && s.main.Returned?
    ensures Complete(n, s)
  {
    Pigeonhole(s.received, n);
    Pigeonhole(s.finished, n);
  }

  /** In every interleaving no goroutine is left blocked when main returns, and none was received from twice. */
  lemma NobodyLeftBehind(n: nat, s: State)
    requires Reachable(Senders(n), s) && s.main.Returned?
    ensures Complete(n, s)
  {
    InvIsInductive(n);
    InvariantReachable(Senders(n), s => Inv(n, s), s);
    ReturnedIsComplete(n, s);
  }

  /** Every run ends: it has at most 3n + 2 steps, and one that cannot go on has returned. */
  lemma FanInTerminates(n: nat, run: seq<State>)
    requires IsRun(Senders(n), run)
    ensures |run| - 1 <= 3 * n + 2
    ensures Stuck(run[|run| - 1]) ==> run[|run| - 1].main.Returned?
  {
    InvIsInductive(n);
    forall s, s' | Inv(n, s) && Step(s, s')
      ensures Measure(s') < Measure(s)
    {
      var l :| Enabled(s, l) && s' == Apply(s, l);
      StepDecreases(n, s, l);
    }
    RunIsBounded(Senders(n), s => Inv(n, s), s => Measure(s), run);
    TotalAtMost(Init(n).phases, Weight, 3);
    var last := run[|run| - 1];
    assert Reachable(Senders(n), last);
    InvariantReachable(Senders(n), s => Inv(n, s), last);
    if !last.main.Returned? {
      var l := NextEnabled(n, last);
      assert Step(last, Apply(last, l));
    }
  }

  /** The goroutines under an arbitrary schedule; it always ends, with every sender received from. */
  method Execute(n: nat) returns (s: State)
    ensures Complete(n, s)
  {
    s := Init(n);
    while !s.main.Returned?
      invariant Inv(n, s)
      decreases Measure(s)
    {
      var l: Label := *;
      if !Enabled(s, l) {
        l := NextEnabled(n, s);
      }
      StepDecreases(n, s, l);
      StepKeepsInv(n, s, l);
      s := Apply(s, l);
    }
    ReturnedIsComplete(n, s);
  }

  // ---- nothing but the rendezvous orders the senders ----

  lemma Fire(n: nat, s: State, l: Label)
    requires Reachable(Senders(n), s) && Enabled(s, l)
    ensures Reachable(Senders(n), Apply(s, l))
  {
    assert Step(s, Apply(s, l));
    ReachableStep(Senders(n), s, Apply(s, l));
  }

  lemma {:induction false} LaunchSome(n: nat, k: nat) returns (s: State)
    requires k <= n
    ensures Reachable(Senders(n), s) && s.main.Launching? && s.launched == k && |s.phases| == n
    ensures s.finished == [] && s.received == []
    ensures forall i :: 0 <= i < n ==> s.phases[i] == if i < k then Running else NotStarted
  {
    if k == 0 {
      s := Init(n);
      ReachableInit(Senders(n), s);
    } else {
      var before := LaunchSome(n, k - 1);
      Fire(n, before, Launch);
      s := Apply(before, Launch);
    }
  }

  lemma {:induction false} FinishSome(n: nat, order: seq<nat>, k: nat) returns (s: State)
    requires IsPermutation(order, n) && k <= n
    ensures Reachable(Senders(n), s) && s.main.Receiving? && |s.phases| == n
    ensures s.finished == order[..k] && s.received == []
    ensures forall i :: 0 <= i < n ==> s.phases[i] == if i in order[..k] then Sending else Running
  {
    if k == 0 {
      var before := LaunchSome(n, n);
      Fire(n, before, LaunchedAll);
      s := Apply(before, LaunchedAll);
    } else {
      var before := FinishSome(n, order, k - 1);
      var i := order[k - 1];
      assert order[..k] == order[..k - 1] + [i];
      assert i !in order[..k - 1];
      Fire(n, before, Finish(i));
      s := Apply(before, Finish(i));
    }
  }

  lemma {:induction false} ReceiveSome(n: nat, finish: seq<nat>, order: seq<nat>, k: nat) returns (s: State)
    requires IsPermutation(finish, n) && IsPermutation(order, n) && k <= n
    ensures Reachable(Senders(n), s) && s.main.Receiving? && |s.phases| == n
    ensures s.finished == finish && s.received == order[..k]
    ensures forall i :: 0 <= i < n ==> s.phases[i] == if i in order[..k] then Exited else Sending
  {
    if k == 0 {
      s := FinishSome(n, finish, n);
      Pigeonhole(finish, n);
      assert finish[..n] == finish;
    } else {
      var before := ReceiveSome(n, finish, order, k - 1);
      var i := order[k - 1];
      assert order[..k] == order[..k - 1] + [i];
      assert i !in order[..k - 1];
      Fire(n, before, Receive(i));
      s := Apply(before, Receive(i));
    }
  }

  /**
   The senders really are concurrent: they can all be at work at the same time, and they can end and be received from
   in any two orders.
   */
  lemma EveryOrderIsPossible(n: nat, finish: seq<nat>, receive: seq<nat>) returns (together: State, end: State)
    requires IsPermutation(finish, n) && IsPermutation(receive, n)
    ensures Reachable(Senders(n), together) && |together.phases| == n
    ensures forall i :: 0 <= i < n ==> together.phases[i].Running?
    ensures Reachable(Senders(n), end) && end.main.Returned? && end.finished == finish && end.received == receive
  {
    together := LaunchSome(n, n);
    var before := ReceiveSome(n, finish, receive, n);
    assert receive[..n] == receive;
    Fire(n, before, Return);
    end := Apply(before, Return);
  }
}
