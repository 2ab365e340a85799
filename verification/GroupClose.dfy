/**
 Group.Close: every host is closed in its own goroutine, main waits for all of them, then closes the shared
 resources one after the other and joins the errors.
 */
module GroupClose {
  import opened Wrappers
  import opened Runs
  import opened Conns
  import opened Selections
  import D = GroupDialer

  /** The group, and the error of closing each connection. */
  datatype Config = Config(hosts: seq<Conn>, closers: seq<Conn>, closeErr: Conn -> Option<Error>)

  datatype Main = Launching | Waiting | ClosingShared(k: nat)

  /** `todo[i]`: host i's goroutine has not finished; `log` lists the closes in the order they happen. */
  datatype State = State(main: Main, launched: nat, todo: seq<bool>, errs: seq<Option<Error>>,
                         log: seq<Conn>, joined: seq<Error>)

  datatype Label = Launch | LaunchedAll | CloseHost(i: nat) | WaitReturns | CloseShared

  function Init(c: Config): State {
    State(Launching, 0, seq(|c.hosts|, _ => true), seq(|c.hosts|, _ => None), [], [])
  }

  predicate Enabled(c: Config, s: State, l: Label) {
    && |s.todo| == |s.errs| == |c.hosts|
    && match l
       case Launch => s.main.Launching? && s.launched < |c.hosts|
       case LaunchedAll => s.main.Launching? && s.launched == |c.hosts|
       case CloseHost(i) => i < s.launched <= |c.hosts| && s.todo[i]
       case WaitReturns => s.main.Waiting? && forall i :: 0 <= i < |c.hosts| ==> !s.todo[i]
       case CloseShared => s.main.ClosingShared? && s.main.k < |c.closers|
  }

  /** errors.Join: nil errors are dropped. */
  function Join(errs: seq<Option<Error>>): seq<Error> {
    if errs == [] then []
    else Join(errs[..|errs| - 1]) + if errs[|errs| - 1].Some? then [errs[|errs| - 1].value] else []
  }

  function Apply(c: Config, s: State, l: Label): State
    requires Enabled(c, s, l)
  {
    match l
    case Launch => s.(launched := s.launched + 1)
    case LaunchedAll => s.(main := Waiting)
    case CloseHost(i) =>
      s.(todo := s.todo[i := false], errs := s.errs[i := c.closeErr(c.hosts[i])], log := s.log + [c.hosts[i]])
    case WaitReturns => s.(main := ClosingShared(0), joined := Join(s.errs))
    case CloseShared =>
      var conn := c.closers[s.main.k];
      s.(main := ClosingShared(s.main.k + 1), log := s.log + [conn], joined := s.joined + Join([c.closeErr(conn)]))
  }

  ghost predicate Step(c: Config, s: State, s': State) {
    exists l :: Enabled(c, s, l) && s' == Apply(c, s, l)
  }

  ghost predicate Stuck(c: Config, s: State) { forall s' :: !Step(c, s, s') }

  ghost function Closing(c: Config): System<State> {
    System(s => s == Init(c), (s, s') => Step(c, s, s'))
  }

  predicate Closed(c: Config, s: State) { s.main == ClosingShared(|c.closers|) }

  /** The hosts whose goroutine has finished, in host order. */
  function DoneHosts(hosts: seq<Conn>, todo: seq<bool>): seq<Conn>
    requires |hosts| == |todo|
  {
    if hosts == [] then []
    else
      var i := |hosts| - 1;
      DoneHosts(hosts[..i], todo[..i]) + if todo[i] then [] else [hosts[i]]
  }

  lemma {:induction false} OneMoreDone(hosts: seq<Conn>, todo: seq<bool>, i: nat)
    requires |hosts| == |todo| && i < |hosts| && todo[i]
    ensures multiset(DoneHosts(hosts, todo[i := false])) == multiset(DoneHosts(hosts, todo)) + multiset{hosts[i]}
  {
    var n := |hosts| - 1;
    if i < n {
      OneMoreDone(hosts[..n], todo[..n], i);
      assert todo[i := false][..n] == todo[..n][i := false];
    } else {
      assert todo[i := false][..n] == todo[..n];
    }
  }

  lemma {:induction false} AllOrNoneDone(hosts: seq<Conn>, todo: seq<bool>)
    requires |hosts| == |todo|
    ensures (forall i :: 0 <= i < |todo| ==> todo[i]) ==> DoneHosts(hosts, todo) == []
    ensures (forall i :: 0 <= i < |todo| ==> !todo[i]) ==> DoneHosts(hosts, todo) == hosts
  {
    if hosts != [] {
      AllOrNoneDone(hosts[..|hosts| - 1], todo[..|hosts| - 1]);
    }
  }

  function CloseErrs(c: Config, conns: seq<Conn>): seq<Option<Error>> {
    seq(|conns|, i requires 0 <= i < |conns| => c.closeErr(conns[i]))
  }

  /** Main is past the wait and has closed the first k shared resources. */
  ghost predicate SharedOk(c: Config, s: State, k: nat) {
    && k <= |c.closers| && |s.log| == |c.hosts| + k
    && multiset(s.log[..|c.hosts|]) == multiset(c.hosts)
    && s.log[|c.hosts|..] == c.closers[..k]
    && s.joined == Join(CloseErrs(c, c.hosts)) + Join(CloseErrs(c, c.closers[..k]))
  }

  ghost predicate Inv(c: Config, s: State) {
    && |s.todo| == |s.errs| == |c.hosts| && s.launched <= |c.hosts|
    && (forall i :: 0 <= i < |c.hosts| ==>
          && (s.launched <= i ==> s.todo[i])
          && (!s.todo[i] ==> s.errs[i] == c.closeErr(c.hosts[i])))
    && (!s.main.Launching? ==> s.launched == |c.hosts|)
    && match s.main
       case ClosingShared(k) => (forall i :: 0 <= i < |c.hosts| ==> !s.todo[i]) && SharedOk(c, s, k)
       case _ => multiset(s.log) == multiset(DoneHosts(c.hosts, s.todo))
  }

  lemma {:induction false} JoinConcat(a: seq<Option<Error>>, b: seq<Option<Error>>)
    ensures Join(a + b) == Join(a) + Join(b)
  {
    if b == [] {
      assert a + b == a;
    } else {
      JoinConcat(a, b[..|b| - 1]);
      assert (a + b)[..|a + b| - 1] == a + b[..|b| - 1];
    }
  }

  lemma JoinedErrs(c: Config, a: seq<Conn>, b: seq<Conn>)
    ensures Join(CloseErrs(c, a + b)) == Join(CloseErrs(c, a)) + Join(CloseErrs(c, b))
  {
    JoinConcat(CloseErrs(c, a), CloseErrs(c, b));
    assert CloseErrs(c, a + b) == CloseErrs(c, a) + CloseErrs(c, b);
  }

  lemma CloseHostKeepsInv(c: Config, s: State, i: nat)
    requires Inv(c, s) && Enabled(c, s, CloseHost(i))
    ensures Inv(c, Apply(c, s, CloseHost(i)))
  {
    OneMoreDone(c.hosts, s.todo, i);
  }

  lemma AllErrsKnown(c: Config, s: State)
    requires Inv(c, s) && forall i :: 0 <= i < |c.hosts| ==> !s.todo[i]
    ensures s.errs == CloseErrs(c, c.hosts)
  {}

  lemma AllHostsLogged(c: Config, s: State)
    requires Inv(c, s) && s.main.Waiting? && forall i :: 0 <= i < |c.hosts| ==> !s.todo[i]
    ensures multiset(s.log) == multiset(c.hosts) && |s.log| == |c.hosts|
  {
    AllOrNoneDone(c.hosts, s.todo);
    SameLength(s.log, c.hosts);
  }

  lemma NothingSharedYet(c: Config, s: State)
    requires multiset(s.log) == multiset(c.hosts) && |s.log| == |c.hosts|
    requires s.joined == Join(CloseErrs(c, c.hosts))
    ensures SharedOk(c, s, 0)
  {
    var front, back, none := s.log[..|c.hosts|], s.log[|c.hosts|..], c.closers[..0];
    assert front == s.log && back == [] && none == [];
    assert CloseErrs(c, none) == [];
  }

  lemma WaitKeepsInv(c: Config, s: State)
    requires Inv(c, s) && Enabled(c, s, WaitReturns)
    ensures Inv(c, Apply(c, s, WaitReturns))
  {
    AllErrsKnown(c, s);
    AllHostsLogged(c, s);
    NothingSharedYet(c, Apply(c, s, WaitReturns));
  }

  lemma SameLength(a: seq<Conn>, b: seq<Conn>)
    requires multiset(a) == multiset(b)
    ensures |a| == |b|
  {
    assert |multiset(a)| == |multiset(b)|;
  }

  lemma CloseSharedKeepsInv(c: Config, s: State)
    requires Inv(c, s) && Enabled(c, s, CloseShared)
    ensures Inv(c, Apply(c, s, CloseShared))
  {
    var k := s.main.k;
    var s', front, conn := Apply(c, s, CloseShared), c.closers[..k], c.closers[k];
    assert c.closers[..k + 1] == front + [conn];
    assert s'.log[..|c.hosts|] == s.log[..|c.hosts|] && s'.log[|c.hosts|..] == front + [conn];
    JoinedErrs(c, front, [conn]);
    assert CloseErrs(c, [conn]) == [c.closeErr(conn)];
  }

  lemma StepKeepsInv(c: Config, s: State, l: Label)
    requires Inv(c, s) && Enabled(c, s, l)
    ensures Inv(c, Apply(c, s, l))
  {
    match l
    case CloseHost(i) => CloseHostKeepsInv(c, s, i);
    case WaitReturns => WaitKeepsInv(c, s);
    case CloseShared => CloseSharedKeepsInv(c, s);
    case _ =>
  }

  lemma InvIsInductive(c: Config)
    ensures Inductive(Closing(c), s => Inv(c, s))
  {
    AllOrNoneDone(c.hosts, Init(c).todo);
    forall s, s' | Inv(c, s) && Step(c, s, s')
      ensures Inv(c, s')
    {
      var l :| Enabled(c, s, l) && s' == Apply(c, s, l);
      StepKeepsInv(c, s, l);
    }
  }

  /**
   In every interleaving Close closes each host once, all before any shared resource, those in order; and the
   joined error does not depend on the interleaving.
   */
  lemma CloseIsOrdered(c: Config, s: State)
    requires Reachable(Closing(c), s) && Closed(c, s)
    ensures SharedOk(c, s, |c.closers|)
    ensures s.joined == Join(CloseErrs(c, c.hosts + c.closers))
  {
    InvIsInductive(c);
    InvariantReachable(Closing(c), s => Inv(c, s), s);
    assert c.closers[..|c.closers|] == c.closers;
    JoinedErrs(c, c.hosts, c.closers);
  }

  lemma {:induction false} JoinIsPick(c: Config, conns: seq<Conn>)
    ensures Join(CloseErrs(c, conns)) == Pick(conns, c.closeErr)
  {
    if conns != [] {
      var n := |conns| - 1;
      JoinIsPick(c, conns[..n]);
      assert CloseErrs(c, conns)[..n] == CloseErrs(c, conns[..n]);
    }
  }

  /** The connections whose close failed with this error. */
  ghost function FailedWith(c: Config, conns: seq<Conn>, e: Error): set<nat> {
    set i: nat | i < |conns| && c.closeErr(conns[i]) == Some(e)
  }

  /** The joined errors of these closes: of exactly those that failed, in order, each as often as it occurred. */
  ghost predicate IsJoined(c: Config, conns: seq<Conn>, joined: seq<Error>) {
    && IsSelection(conns, c.closeErr, joined)
    && (joined == [] <==> forall i :: 0 <= i < |conns| ==> c.closeErr(conns[i]).None?)
    && (forall e :: multiset(joined)[e] == |FailedWith(c, conns, e)|)
  }

  lemma JoinCounts(c: Config, conns: seq<Conn>, e: Error)
    ensures multiset(Join(CloseErrs(c, conns)))[e] == |FailedWith(c, conns, e)|
  {
    JoinIsPick(c, conns);
    PickCount(conns, c.closeErr, e);
    assert Positions(conns, c.closeErr, e) == FailedWith(c, conns, e);
  }

  lemma JoinSelects(c: Config, conns: seq<Conn>)
    ensures IsSelection(conns, c.closeErr, Join(CloseErrs(c, conns)))
  {
    JoinIsPick(c, conns);
    PickIsSelection(conns, c.closeErr);
  }

  lemma JoinMeans(c: Config, conns: seq<Conn>)
    ensures IsJoined(c, conns, Join(CloseErrs(c, conns)))
  {
    var joined := Join(CloseErrs(c, conns));
    JoinSelects(c, conns);
    JoinIsPick(c, conns);
    PickNothing(conns, c.closeErr);
    forall e
      ensures multiset(joined)[e] == |FailedWith(c, conns, e)|
    {
      JoinCounts(c, conns, e);
    }
  }

  /**
   What Close returns, in every interleaving: the errors of exactly the closes that failed, hosts in host order and
   then the shared resources, each as often as it occurred; nil only if every close succeeded.
   */
  lemma CloseReturns(c: Config, s: State)
    requires Reachable(Closing(c), s) && Closed(c, s)
    ensures IsJoined(c, c.hosts + c.closers, s.joined)
  {
    CloseIsOrdered(c, s);
    JoinMeans(c, c.hosts + c.closers);
  }

  function Weight(pending: bool): nat { if pending then 1 else 0 }

  function Measure(c: Config, s: State): nat {
    Total(s.todo, Weight)
    + (if s.launched <= |c.hosts| then |c.hosts| - s.launched else 0)
    + match s.main
      case Launching => |c.closers| + 2
      case Waiting => |c.closers| + 1
      case ClosingShared(k) => if k <= |c.closers| then |c.closers| - k else 0
  }

  /** Until everything is closed some goroutine can move. */
  function NextEnabled(c: Config, s: State): (l: Label)
    requires Inv(c, s) && !Closed(c, s)
    ensures Enabled(c, s, l)
  {
    match s.main
    case Launching => if s.launched < |c.hosts| then Launch else LaunchedAll
    case Waiting =>
      var r := FindIndex(s.todo, (pending: bool) => pending);
      if r.Some? then CloseHost(r.value) else WaitReturns
    case ClosingShared(_) => CloseShared
  }

  lemma StepDecreases(c: Config, s: State, l: Label)
    requires Inv(c, s) && Enabled(c, s, l)
    ensures Measure(c, Apply(c, s, l)) < Measure(c, s)
  {
    if l.CloseHost? { TotalUpdate(s.todo, Weight, l.i, false); }
  }

  /** Close never hangs: every run has at most 2n + m + 2 steps, and one that cannot go on has closed everything. */
  lemma CloseTerminates(c: Config, run: seq<State>)
    requires IsRun(Closing(c), run)
    ensures |run| - 1 <= 2 * |c.hosts| + |c.closers| + 2
    ensures Stuck(c, run[|run| - 1]) ==> Closed(c, run[|run| - 1])
  {
    InvIsInductive(c);
    forall s, s' | Inv(c, s) && Step(c, s, s')
      ensures Measure(c, s') < Measure(c, s)
    {
      var l :| Enabled(c, s, l) && s' == Apply(c, s, l);
      StepDecreases(c, s, l);
    }
    RunIsBounded(Closing(c), s => Inv(c, s), s => Measure(c, s), run);
    TotalAtMost(Init(c).todo, Weight, 1);
    var last := run[|run| - 1];
    assert Reachable(Closing(c), last);
    InvariantReachable(Closing(c), s => Inv(c, s), last);
    if !Closed(c, last) {
      assert Step(c, last, Apply(c, last, NextEnabled(c, last)));
    }
  }

  // ---- hosts are closed concurrently ----

  lemma Fire(c: Config, s: State, l: Label)
    requires Reachable(Closing(c), s) && Enabled(c, s, l)
    ensures Reachable(Closing(c), Apply(c, s, l))
  {
    assert Step(c, s, Apply(c, s, l));
    ReachableStep(Closing(c), s, Apply(c, s, l));
  }

  lemma {:induction false} LaunchSome(c: Config, k: nat) returns (s: State)
    requires k <= |c.hosts|
    ensures Reachable(Closing(c), s) && s == Init(c).(launched := k)
  {
    if k == 0 {
      s := Init(c);
      ReachableInit(Closing(c), s);
    } else {
      var before := LaunchSome(c, k - 1);
      Fire(c, before, Launch);
      s := Apply(c, before, Launch);
    }
  }

  /** While main waits the hosts can be closed in any order. */
  lemma {:induction false} EveryOrderIsPossible(c: Config, order: seq<nat>) returns (s: State)
    requires Distinct(order) && forall k :: 0 <= k < |order| ==> order[k] < |c.hosts|
    ensures Reachable(Closing(c), s) && s.main.Waiting? && s.launched == |s.todo| == |s.errs| == |c.hosts|
    ensures |s.log| == |order| && forall k :: 0 <= k < |order| ==> s.log[k] == c.hosts[order[k]]
    ensures forall i: nat :: i < |c.hosts| ==> (s.todo[i] <==> i !in order)
    decreases |order|
  {
    if order == [] {
      var before := LaunchSome(c, |c.hosts|);
      Fire(c, before, LaunchedAll);
      s := Apply(c, before, LaunchedAll);
    } else {
      var front, last := order[..|order| - 1], order[|order| - 1];
      var before := EveryOrderIsPossible(c, front);
      assert order == front + [last] && last !in front;
      Fire(c, before, CloseHost(last));
      s := Apply(c, before, CloseHost(last));
    }
  }

  /**
   The whole life of a group: what NewSSHGroup obtained and handed over is closed exactly once by Close, every host
   before any jump client.
   */
  lemma EverythingClosedOnce(c: Config, s: State, obtained: multiset<Conn>)
    requires D.OwnedInOrder(c.hosts, c.closers, obtained)
    requires Reachable(Closing(c), s) && Closed(c, s)
    ensures multiset(s.log) == obtained
    ensures D.HostsThenJumps(s.log, |c.hosts|)
  {
    CloseIsOrdered(c, s);
    var h := |c.hosts|;
    var all := c.hosts + c.closers;
    assert c.closers[..|c.closers|] == c.closers;
    assert s.log == s.log[..h] + s.log[h..];
    forall i | 0 <= i < |s.log|
      ensures s.log[i].HostConn? <==> i < h
    {
      if i < h {
        assert s.log[..h][i] in multiset(c.hosts);
        var j :| 0 <= j < h && c.hosts[j] == s.log[i];
        assert all[j] == s.log[i];
      } else {
        assert s.log[i] == c.closers[i - h] == all[i];
      }
    }
  }
}
