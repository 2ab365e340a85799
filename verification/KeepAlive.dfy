/**
 startKeepAlive: the ping loop, the ticker, and any number of callers of the stop function. Every enabled label
 may fire next; when a tick and a stop are both pending, select may take either.
 */
module KeepAlive {
  import opened Runs

  datatype Loop = Selecting | Pinging | Dying | Stopped | Dead

  /**
   `pings` records the results of SendRequest, true for success; `deadCalls` counts calls of onDead; `stops` counts
   calls of stop, and `doneCloses` counts close(done), a second one of which would panic.
   */
  datatype State = State(loop: Loop, pings: seq<bool>, deadCalls: nat, stops: nat, onceDone: bool, doneCloses: nat) {
    predicate Returned() { loop.Stopped? || loop.Dead? }
  }

  datatype Label =
    | Tick            // select takes the tick and the ping is sent
    | SeeDone         // select takes done
    | Reply(ok: bool) // SendRequest returns
    | Die             // onDead, if set, and return
    | Stop            // some caller runs the stop function

  const INIT := State(Selecting, [], 0, 0, false, 0)

  predicate Enabled(s: State, l: Label) {
    match l
    case Tick => s.loop.Selecting?
    case SeeDone => s.loop.Selecting? && s.doneCloses > 0
    case Reply(_) => s.loop.Pinging?
    case Die => s.loop.Dying?
    case Stop => true
  }

  function Apply(hasOnDead: bool, s: State, l: Label): State
    requires Enabled(s, l)
  {
    match l
    case Tick => s.(loop := Pinging)
    case SeeDone => s.(loop := Stopped)
    case Reply(ok) => s.(loop := if ok then Selecting else Dying, pings := s.pings + [ok])
    case Die => s.(loop := Dead, deadCalls := if hasOnDead then s.deadCalls + 1 else s.deadCalls)
    case Stop =>
      s.(stops := s.stops + 1, onceDone := true, doneCloses := if s.onceDone then s.doneCloses else s.doneCloses + 1)
  }

  ghost predicate Step(hasOnDead: bool, s: State, s': State) {
    exists l :: Enabled(s, l) && s' == Apply(hasOnDead, s, l)
  }

  ghost function Machine(hasOnDead: bool): System<State> {
    System(s => s == INIT, (s, s') => Step(hasOnDead, s, s'))
  }

  ghost predicate Inv(hasOnDead: bool, s: State) {
    && (forall i :: 0 <= i < |s.pings| - 1 ==> s.pings[i])
    && (s.loop.Dying? || s.loop.Dead? <==> |s.pings| > 0 && !s.pings[|s.pings| - 1])
    && s.deadCalls == (if s.loop.Dead? && hasOnDead then 1 else 0)
    && (s.loop.Stopped? ==> s.onceDone)
    && (s.onceDone <==> s.stops > 0)
    && s.doneCloses == (if s.onceDone then 1 else 0)
  }

  lemma StepKeepsInv(hasOnDead: bool, s: State, l: Label)
    requires Inv(hasOnDead, s) && Enabled(s, l)
    ensures Inv(hasOnDead, Apply(hasOnDead, s, l))
  {
    var s' := Apply(hasOnDead, s, l);
    assert l.Reply? ==> forall i :: 0 <= i < |s.pings| ==> s'.pings[i] == s.pings[i];
  }

  lemma InvIsInductive(hasOnDead: bool)
    ensures Inductive(Machine(hasOnDead), s => Inv(hasOnDead, s))
  {
    forall s, s' | Inv(hasOnDead, s) && Step(hasOnDead, s, s')
      ensures Inv(hasOnDead, s')
    {
      var l :| Enabled(s, l) && s' == Apply(hasOnDead, s, l);
      StepKeepsInv(hasOnDead, s, l);
    }
  }

  /**
   In every run all pings but the last succeeded, the loop is dead exactly when a ping failed and that was noticed,
   onDead has then been called once and otherwise never, and done has been closed exactly once if stop was called,
   however often, and otherwise never.
   */
  lemma KeepAliveIsSafe(hasOnDead: bool, s: State)
    requires Reachable(Machine(hasOnDead), s)
    ensures forall i :: 0 <= i < |s.pings| - 1 ==> s.pings[i]
    ensures (exists i :: 0 <= i < |s.pings| && !s.pings[i]) <==> s.loop.Dying? || s.loop.Dead?
    ensures s.deadCalls == if s.loop.Dead? && hasOnDead then 1 else 0
    ensures s.doneCloses == if s.stops > 0 then 1 else 0
    ensures s.loop.Stopped? ==> s.doneCloses == 1 && s.deadCalls == 0
  {
    InvIsInductive(hasOnDead);
    InvariantReachable(Machine(hasOnDead), s => Inv(hasOnDead, s), s);
  }

  /** Once the loop has returned no ping follows and onDead is not called again, however often stop is called. */
  lemma {:induction false} NothingAfterReturn(hasOnDead: bool, run: seq<State>, i: nat, j: nat)
    requires IsRun(Machine(hasOnDead), run) && i <= j < |run|
    requires run[i].Returned()
    ensures run[j].loop == run[i].loop
    ensures run[j].pings == run[i].pings && run[j].deadCalls == run[i].deadCalls
    decreases j
  {
    if i < j {
      NothingAfterReturn(hasOnDead, run, i, j - 1);
      assert Step(hasOnDead, run[j - 1], run[j - 1 + 1]);
    }
  }

  /** The steps by which the loop itself gets to its return, if the ping in flight ends as `ok` says. */
  function WayOut(s: State, ok: bool): seq<Label> {
    match s.loop
    case Selecting => [SeeDone]
    case Pinging => [Reply(ok)] + if ok then [SeeDone] else [Die]
    case Dying => [Die]
    case _ => []
  }

  /** The labels can fire one after the other and lead from s to s'. */
  ghost predicate Leads(hasOnDead: bool, s: State, labels: seq<Label>, s': State)
    decreases |labels|
  {
    if labels == [] then s == s'
    else Enabled(s, labels[0]) && Leads(hasOnDead, Apply(hasOnDead, s, labels[0]), labels[1..], s')
  }

  /**
   After a call of stop the loop can return wherever it stands and however a ping in flight ends, without another
   tick; it returns silently unless a ping has failed by then.
   */
  lemma StopEndsTheLoop(hasOnDead: bool, s: State, ok: bool) returns (s': State)
    requires Reachable(Machine(hasOnDead), s) && s.stops > 0
    ensures Leads(hasOnDead, s, WayOut(s, ok), s') && s'.Returned()
    ensures s'.loop.Dead? <==> s.loop.Dying? || s.loop.Dead? || (s.loop.Pinging? && !ok)
  {
    KeepAliveIsSafe(hasOnDead, s);
    s' := s;
    var labels := WayOut(s, ok);
    if labels != [] {
      var s1 := Apply(hasOnDead, s, labels[0]);
      if |labels| == 1 {
        s' := s1;
        assert Leads(hasOnDead, s1, labels[1..], s');
      } else {
        s' := Apply(hasOnDead, s1, labels[1]);
        assert labels[1..][0] == labels[1];
        assert Leads(hasOnDead, s', labels[1..][1..], s');
        assert Leads(hasOnDead, s1, labels[1..], s');
      }
    }
  }

  /** Whenever the loop waits, a tick leads to a ping, and the loop waits again exactly if the ping succeeds. */
  lemma TickPings(hasOnDead: bool, s: State, ok: bool) returns (s': State)
    requires Reachable(Machine(hasOnDead), s) && s.loop.Selecting?
    ensures Leads(hasOnDead, s, [Tick, Reply(ok)], s')
    ensures s'.pings == s.pings + [ok] && (s'.loop.Selecting? <==> ok) && (s'.loop.Dying? <==> !ok)
  {
    var s1 := Apply(hasOnDead, s, Tick);
    s' := Apply(hasOnDead, s1, Reply(ok));
    assert [Tick, Reply(ok)][1..] == [Reply(ok)] && [Reply(ok)][1..] == [];
    assert Leads(hasOnDead, s', [], s') && Leads(hasOnDead, s1, [Reply(ok)], s');
  }

  /** A failed ping leads to the return, and to one call of onDead on the way if it is set. */
  lemma FailureCallsOnDead(hasOnDead: bool, s: State) returns (s': State)
    requires Reachable(Machine(hasOnDead), s) && s.loop.Dying?
    ensures Leads(hasOnDead, s, [Die], s') && s'.Returned()
    ensures s'.deadCalls == if hasOnDead then 1 else 0
  {
    KeepAliveIsSafe(hasOnDead, s);
    s' := Apply(hasOnDead, s, Die);
    assert [Die][1..] == [];
    assert Leads(hasOnDead, s', [], s');
  }
}
