/**
 Exactly when FailFast reports the earliest failing alias whatever the network does. dialErrs is keyed by
 alias, so two dials of one alias share an entry; the later one wins.
 */
module FailFastExact {
  import opened Wrappers
  import opened Runs
  import opened Conns
  import opened WorkerPool
  import opened DialOutcome

  function DialConcurrency(concurrency: int, aliases: nat): nat {
    if concurrency < 2 then 1
    else if concurrency < aliases then concurrency else aliases
  }

  /** At most max(1, concurrency) dials are in flight at any time, and never more than there are aliases. */
  lemma InFlightAtMost(outcomes: seq<Outcome>, concurrency: int, failFast: bool, s: State)
    requires |outcomes| >= 1
    requires Reachable(Pool(Config(outcomes, DialConcurrency(concurrency, |outcomes|), failFast)), s)
    ensures |BusyWorkers(s)| <= (if concurrency < 1 then 1 else concurrency)
    ensures |BusyWorkers(s)| <= |outcomes|
  {
    var c := Config(outcomes, DialConcurrency(concurrency, |outcomes|), failFast);
    InvIsInductive(c);
    InvariantReachable(Pool(c), s => Inv(c, s), s);
    AtMost(BusyWorkers(s), c.workers);
  }

  ghost function BusyWorkers(s: State): set<nat> {
    set w: nat | w < |s.workers| && s.workers[w].Busy?
  }

  lemma {:induction false} AtMost(ws: set<nat>, n: nat)
    requires forall w :: w in ws ==> w < n
    ensures |ws| <= n
  {
    if n > 0 {
      AtMost(ws - {n - 1}, n - 1);
    } else {
      assert ws == {};
    }
  }

  /** Workers 0 to k - 1 are busy with the first k aliases, and nothing else has happened. */
  ghost predicate FirstBusy(c: Config, s: State, k: nat) {
    && Going(c, s, k) && k <= c.workers
    && (forall w :: 0 <= w < k ==> s.workers[w] == Busy(w))
    && (forall w :: k <= w < c.workers ==> s.workers[w] == Idle)
  }

  lemma {:induction false} FillWorkers(c: Config, k: nat) returns (s: State)
    requires c.Valid() && k <= c.workers <= |c.outcomes|
    ensures FirstBusy(c, s, k)
  {
    if k == 0 {
      s := Init(c);
      ReachableInit(Pool(c), s);
    } else {
      var before := FillWorkers(c, k - 1);
      Fire(c, before, Deliver(k - 1));
      s := Apply(c, before, Deliver(k - 1));
    }
  }

  /** That many dials can be in flight, and any of them may end first. */
  lemma InFlightReached(outcomes: seq<Outcome>, concurrency: int, failFast: bool) returns (s: State)
    requires |outcomes| >= 1
    ensures Reachable(Pool(Config(outcomes, DialConcurrency(concurrency, |outcomes|), failFast)), s)
    ensures |BusyWorkers(s)| ==
            if concurrency < 2 then 1 else if concurrency < |outcomes| then concurrency else |outcomes|
    ensures forall w :: w in BusyWorkers(s) ==>
              Enabled(Config(outcomes, DialConcurrency(concurrency, |outcomes|), failFast), s, Finish(w))
  {
    var c := Config(outcomes, DialConcurrency(concurrency, |outcomes|), failFast);
    s := FillWorkers(c, c.workers);
    AllBelow(BusyWorkers(s), c.workers);
  }

  lemma {:induction false} AllBelow(ws: set<nat>, n: nat)
    requires forall w: nat :: w in ws <==> w < n
    ensures |ws| == n
  {
    if n > 0 {
      AllBelow(ws - {n - 1}, n - 1);
    } else {
      assert ws == {};
    }
  }

  /** For every outcome of every dial and every schedule, dialAll returns the sequential loop's error. */
  ghost predicate AlwaysReportsFirst(aliases: seq<string>, workers: nat) {
    forall outcomes: seq<Outcome>, s: State ::
      |outcomes| == |aliases| && Finished(Config(outcomes, workers, true), s) ==>
        |s.results| == |aliases| && DialAllError(aliases, true, s.results) == FirstFailure(outcomes)
  }

  // ---- building a run ----

  /** Nothing has gone wrong yet and `next` is the next alias to deliver. */
  ghost predicate Going(c: Config, s: State, next: nat) {
    && Reachable(Pool(c), s) && Shape(c, s)
    && s.sched.Scheduling? && s.next == next && s.abortCloses == 0
  }

  /** Worker w alone serves the aliases from s.next up to `to`, all of which connect. */
  lemma {:induction false} Serve(c: Config, s: State, w: nat, to: nat) returns (s': State)
    requires c.Valid() && Going(c, s, s.next) && WorkerIs(s, w, Idle) && s.next <= to <= |c.outcomes|
    requires forall i :: s.next <= i < to ==> c.outcomes[i].Up?
    ensures Going(c, s', to) && s'.workers == s.workers
    decreases |c.outcomes| - s.next
  {
    if s.next == to { return s; }
    Fire(c, s, Deliver(w));
    var busy := Apply(c, s, Deliver(w));
    Fire(c, busy, Finish(w));
    var idle := Apply(c, busy, Finish(w));
    assert idle.workers == s.workers;
    s' := Serve(c, idle, w, to);
  }

  lemma SlotsStay(c: Config, s: State, l: Label, i: nat)
    requires Inv(c, s) && Enabled(c, s, l)
    requires i < |c.outcomes| && !s.results[i].Empty?
    ensures Apply(c, s, l).results[i] == s.results[i]
  {}

  /** From any reachable state the pool can finish, and no slot that is filled changes on the way. */
  lemma {:induction false} RunToDone(c: Config, s: State, p: nat, q: nat) returns (s': State)
    requires Reachable(Pool(c), s) && Inv(c, s) && p < |c.outcomes| && q < |c.outcomes|
    requires !s.results[p].Empty? && !s.results[q].Empty?
    ensures Finished(c, s') && Shape(c, s')
    ensures s'.results[p] == s.results[p] && s'.results[q] == s.results[q]
    decreases Measure(c, s)
  {
    if s.sched.Done? { return s; }
    var l := NextEnabled(c, s);
    Fire(c, s, l);
    StepKeepsInv(c, s, l);
    StepDecreases(c, s, l);
    SlotsStay(c, s, l, p);
    SlotsStay(c, s, l, q);
    s' := RunToDone(c, Apply(c, s, l), p, q);
  }

  /** Two workers can hold alias p and a later alias q at once, and then both dials are recorded. */
  lemma BothDialed(c: Config, p: nat, q: nat) returns (s: State)
    requires c.Valid() && c.workers >= 2 && p < q < |c.outcomes|
    requires forall i :: 0 <= i < q && i != p ==> c.outcomes[i].Up?
    ensures Finished(c, s) && Shape(c, s)
    ensures s.results[p] == c.SlotOf(p) && s.results[q] == c.SlotOf(q)
  {
    var s0 := BothInFlight(c, p, q);
    Fire(c, s0, Finish(0));
    var s1 := Apply(c, s0, Finish(0));
    Fire(c, s1, Finish(1));
    var s2 := Apply(c, s1, Finish(1));
    InvIsInductive(c);
    InvariantReachable(Pool(c), s => Inv(c, s), s2);
    s := RunToDone(c, s2, p, q);
  }

  lemma BothInFlight(c: Config, p: nat, q: nat) returns (s: State)
    requires c.Valid() && c.workers >= 2 && p < q < |c.outcomes|
    requires forall i :: 0 <= i < q && i != p ==> c.outcomes[i].Up?
    ensures Reachable(Pool(c), s) && Shape(c, s)
    ensures WorkerIs(s, 0, Busy(p)) && WorkerIs(s, 1, Busy(q))
  {
    var s0 := Init(c);
    ReachableInit(Pool(c), s0);
    var s1 := Serve(c, s0, 0, p);
    Fire(c, s1, Deliver(0));
    var s2 := Apply(c, s1, Deliver(0));
    var s3 := Serve(c, s2, 1, q);
    Fire(c, s3, Deliver(1));
    s := Apply(c, s3, Deliver(1));
  }

  /** The network answers both dials of the repeated alias with an error, but not the same one. */
  function TwoFailures(n: nat, p: nat, q: nat): seq<Outcome> {
    seq(n, i => if i == p then Down(Cause(1)) else if i == q then Down(Cause(2)) else Up)
  }

  lemma RepeatedAliasBreaksIt(aliases: seq<string>, workers: nat, p: nat, q: nat)
    requires workers >= 2 && p < q < |aliases| && aliases[p] == aliases[q]
    ensures !AlwaysReportsFirst(aliases, workers)
  {
    var outcomes := TwoFailures(|aliases|, p, q);
    var c := Config(outcomes, workers, true);
    var s := BothDialed(c, p, q);
    PoolFinishes(c, s);
    LaterErrorReported(aliases, s.results, p, q);
    FirstFailureIsFirst(outcomes);
    assert outcomes[p] == Down(Cause(1)) && outcomes[q] == Down(Cause(2));
  }

  lemma LaterErrorReported(aliases: seq<string>, results: seq<Slot>, p: nat, q: nat)
    requires |results| == |aliases| && p < q < |aliases| && aliases[p] == aliases[q]
    requires results[p] == Failed(Cause(1)) && results[q] == Failed(Cause(2))
    requires forall k :: 0 <= k < |results| && results[k].Failed? ==> k == p || k == q
    ensures DialAllError(aliases, true, results) == Some(Cause(2))
  {
    var errs := ErrsOf(aliases, results);
    ErrsAreLastFailures(aliases, results);
    FirstDialErrorIsFirst(aliases, errs);
    assert LastFailureOf(aliases, results, q);
    assert aliases[q] in errs;
    var i :| 0 <= i < |aliases| && aliases[i] in errs && FirstDialError(aliases, errs).value == errs[aliases[i]];
    var k :| 0 <= k < |results| && aliases[k] == aliases[i] && LastFailureOf(aliases, results, k);
  }

  /** The smallest counterexample: the same alias twice, two workers. */
  lemma RepeatedAliasCounterexample()
    ensures !AlwaysReportsFirst(["a", "a"], DialConcurrency(2, 2))
  {
    RepeatedAliasBreaksIt(["a", "a"], 2, 0, 1);
  }

  /**
   FailFast reports the earliest failing alias, for every network and every schedule, if and only if no alias
   is repeated or dialing is sequential.
   */
  lemma FailFastExact(aliases: seq<string>, concurrency: int)
    requires |aliases| >= 1
    ensures AlwaysReportsFirst(aliases, DialConcurrency(concurrency, |aliases|)) <==>
            Distinct(aliases) || concurrency < 2
  {
    var workers := DialConcurrency(concurrency, |aliases|);
    if Distinct(aliases) || workers == 1 {
      forall outcomes: seq<Outcome>, s: State | |outcomes| == |aliases| && Finished(Config(outcomes, workers, true), s)
        ensures |s.results| == |aliases| && DialAllError(aliases, true, s.results) == FirstFailure(outcomes)
      {
        var c := Config(outcomes, workers, true);
        if workers == 1 {
          SoloReportsFirstFailure(c, aliases, s);
        } else {
          FailFastReportsFirstFailure(c, aliases, s);
        }
      }
    } else {
      var p, q :| 0 <= p < q < |aliases| && aliases[p] == aliases[q];
      RepeatedAliasBreaksIt(aliases, workers, p, q);
    }
  }
}
