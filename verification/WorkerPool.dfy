/**
 The worker pool of groupDialer.dialAll as a transition system: a scheduler goroutine that selects between the
 unbuffered jobs channel and the abort channel, and a fixed number of workers that dial, record and, under
 FailFast, close abort once and stop. What a dial returns is fixed per index by `outcomes`; the interleaving
 is not: every enabled label may fire next, also a delivery after abort is closed.
 */
module WorkerPool {
  import opened Wrappers
  import opened Runs
  import opened Conns

  /** What dialing one target yields. */
  datatype Outcome = Up | Down(err: Error)

  /** sshDialResult; its zero value is Empty. */
  datatype Slot = Empty | Connected(conn: Conn) | Failed(err: Error)

  datatype Config = Config(outcomes: seq<Outcome>, workers: nat, failFast: bool) {
    /** dialAll only starts the pool for a non-empty alias list, and dialConcurrency is then at least 1. */
    predicate Valid() { |outcomes| >= 1 && workers >= 1 }

    function SlotOf(i: nat): Slot
      requires i < |outcomes|
    {
      match outcomes[i]
      case Up => Connected(HostConn(i))
      case Down(e) => Failed(e)
    }
  }

  datatype Worker = Idle | Busy(job: nat) | Signalling | Exited

  datatype Scheduler = Scheduling | Closing | Waiting | Done

  /**
   `next` is the scheduler's loop variable; `dials[i]` counts calls of dialOne for alias i, which are also the
   writes of results[i], and `writer[i]` is the worker that wrote last; `obtained` is the ledger of hosts
   obtained; `abortCloses` counts close(abort), a second one of which would panic.
   */
  datatype State = State(
    sched: Scheduler,
    next: nat,
    workers: seq<Worker>,
    results: seq<Slot>,
    dials: seq<nat>,
    writer: seq<Option<nat>>,
    obtained: multiset<Conn>,
    jobsClosed: bool,
    onceDone: bool,
    abortCloses: nat)
  {
    predicate AbortClosed() { abortCloses > 0 }
  }

  datatype Label =
    | Deliver(w: nat)   // select takes `jobs <- next`; worker w receives it
    | SeeAbort          // select takes `<-abort`
    | LoopEnds          // no alias left
    | CloseJobs
    | Finish(w: nat)    // dialOne returns and the worker stores the result
    | Signal(w: nat)    // abortOnce.Do(close(abort)); return
    | Leave(w: nat)     // range over the closed jobs channel ends
    | WaitReturns       // wg.Wait

  function Init(c: Config): State {
    State(Scheduling, 0,
          seq(c.workers, _ => Idle),
          seq(|c.outcomes|, _ => Empty),
          seq(|c.outcomes|, _ => 0),
          seq(|c.outcomes|, _ => None),
          multiset{}, false, false, 0)
  }

  predicate Shape(c: Config, s: State) {
    |s.workers| == c.workers && |s.results| == |s.dials| == |s.writer| == |c.outcomes| && s.next <= |c.outcomes|
  }

  predicate WorkerIs(s: State, w: nat, v: Worker) { w < |s.workers| && s.workers[w] == v }

  predicate Enabled(c: Config, s: State, l: Label) {
    && Shape(c, s)
    && match l
       case Deliver(w) => s.sched.Scheduling? && s.next < |c.outcomes| && WorkerIs(s, w, Idle)
       case SeeAbort => s.sched.Scheduling? && s.next < |c.outcomes| && s.AbortClosed()
       case LoopEnds => s.sched.Scheduling? && s.next == |c.outcomes|
       case CloseJobs => s.sched.Closing?
       case Finish(w) => w < |s.workers| && s.workers[w].Busy? && s.workers[w].job < |c.outcomes|
       case Signal(w) => WorkerIs(s, w, Signalling)
       case Leave(w) => s.jobsClosed && WorkerIs(s, w, Idle)
       case WaitReturns => s.sched.Waiting? && forall w :: 0 <= w < |s.workers| ==> s.workers[w].Exited?
  }

  function Apply(c: Config, s: State, l: Label): State
    requires Enabled(c, s, l)
  {
    match l
    case Deliver(w) => s.(next := s.next + 1, workers := s.workers[w := Busy(s.next)])
    case SeeAbort => s.(sched := Closing)
    case LoopEnds => s.(sched := Closing)
    case CloseJobs => s.(sched := Waiting, jobsClosed := true)
    case Finish(w) =>
      var i := s.workers[w].job;
      var slot := c.SlotOf(i);
      s.(results := s.results[i := slot],
         dials := s.dials[i := s.dials[i] + 1],
         writer := s.writer[i := Some(w)],
         obtained := if slot.Connected? then s.obtained + multiset{slot.conn} else s.obtained,
         workers := s.workers[w := if c.failFast && slot.Failed? then Signalling else Idle])
    case Signal(w) =>
      s.(workers := s.workers[w := Exited],
         onceDone := true,
         abortCloses := if s.onceDone then s.abortCloses else s.abortCloses + 1)
    case Leave(w) => s.(workers := s.workers[w := Exited])
    case WaitReturns => s.(sched := Done)
  }

  ghost predicate Step(c: Config, s: State, s': State) {
    exists l :: Enabled(c, s, l) && s' == Apply(c, s, l)
  }

  ghost predicate Stuck(c: Config, s: State) { forall s' :: !Step(c, s, s') }

  ghost function Pool(c: Config): System<State> {
    System(s => s == Init(c), (s, s') => Step(c, s, s'))
  }

  // ---- the inductive invariant ----

  /** Alias i is being dialed by exactly one worker. */
  ghost predicate InFlight(s: State, i: nat) {
    exists w :: 0 <= w < |s.workers| && s.workers[w] == Busy(i)
  }

  /** Slots below `next` are filled with their own outcome or in flight; the others are untouched. */
  ghost predicate SlotsOk(c: Config, s: State)
    requires Shape(c, s)
  {
    forall i :: 0 <= i < |c.outcomes| ==>
      && (s.results[i].Empty? || (s.results[i] == c.SlotOf(i) && i < s.next))
      && s.dials[i] == (if s.results[i].Empty? then 0 else 1)
      && (i < s.next && s.results[i].Empty? ==> InFlight(s, i))
  }

  ghost predicate JobsOk(c: Config, s: State)
    requires Shape(c, s)
  {
    && (forall w :: 0 <= w < |s.workers| && s.workers[w].Busy? ==>
          s.workers[w].job < s.next && s.results[s.workers[w].job].Empty?)
    && (forall v, w :: 0 <= v < w < |s.workers| && s.workers[v].Busy? ==> s.workers[v] != s.workers[w])
  }

  ghost predicate SomeFailure(s: State) {
    exists i :: 0 <= i < |s.results| && s.results[i].Failed?
  }

  /** Abort, the once and a signalling worker all mean a recorded failure; stopping early means abort. */
  ghost predicate AbortOk(c: Config, s: State)
    requires Shape(c, s)
  {
    && s.abortCloses == (if s.onceDone then 1 else 0)
    && (s.onceDone ==> c.failFast && SomeFailure(s))
    && (forall w :: 0 <= w < |s.workers| && s.workers[w].Signalling? ==> c.failFast && SomeFailure(s))
    && (forall w :: 0 <= w < |s.workers| && s.workers[w].Exited? ==> s.jobsClosed || s.onceDone)
    && (!s.sched.Scheduling? && s.next < |c.outcomes| ==> s.onceDone)
    && (s.jobsClosed <==> s.sched.Waiting? || s.sched.Done?)
    && (s.sched.Done? ==> forall w :: 0 <= w < |s.workers| ==> s.workers[w].Exited?)
  }

  ghost predicate LedgerOk(s: State) {
    forall conn :: s.obtained[conn] ==
      if conn.HostConn? && conn.i < |s.results| && s.results[conn.i] == Connected(conn) then 1 else 0
  }

  ghost predicate Inv(c: Config, s: State) {
    c.Valid() && Shape(c, s) && SlotsOk(c, s) && JobsOk(c, s) && AbortOk(c, s) && LedgerOk(s)
  }

  lemma InitInv(c: Config)
    requires c.Valid()
    ensures Inv(c, Init(c))
  {}

  lemma DeliverKeepsInv(c: Config, s: State, w: nat)
    requires Inv(c, s) && Enabled(c, s, Deliver(w))
    ensures Inv(c, Apply(c, s, Deliver(w)))
  {
    var s' := Apply(c, s, Deliver(w));
    forall i | 0 <= i < s'.next && s'.results[i].Empty?
      ensures InFlight(s', i)
    {
      if i == s.next {
        assert s'.workers[w] == Busy(i);
      } else {
        var v :| 0 <= v < |s.workers| && s.workers[v] == Busy(i);
        assert s'.workers[v] == Busy(i);
      }
    }
  }

  lemma FinishKeepsSlots(c: Config, s: State, w: nat)
    requires Inv(c, s) && Enabled(c, s, Finish(w))
    ensures SlotsOk(c, Apply(c, s, Finish(w)))
  {
    var s' := Apply(c, s, Finish(w));
    forall k | 0 <= k < s'.next && s'.results[k].Empty?
      ensures InFlight(s', k)
    {
      var v :| 0 <= v < |s.workers| && s.workers[v] == Busy(k);
      assert s'.workers[v] == Busy(k);
    }
  }

  lemma FinishKeepsAbort(c: Config, s: State, w: nat)
    requires Inv(c, s) && Enabled(c, s, Finish(w))
    ensures AbortOk(c, Apply(c, s, Finish(w)))
  {
    var s' := Apply(c, s, Finish(w));
    assert s'.results[s.workers[w].job] == c.SlotOf(s.workers[w].job);
    FailuresStay(s, s');
  }

  lemma FinishKeepsLedger(c: Config, s: State, w: nat)
    requires Inv(c, s) && Enabled(c, s, Finish(w))
    ensures LedgerOk(Apply(c, s, Finish(w)))
  {
    var s' := Apply(c, s, Finish(w));
    var i := s.workers[w].job;
    assert s.results[i].Empty?;
    forall conn
      ensures s'.obtained[conn] ==
        if conn.HostConn? && conn.i < |s'.results| && s'.results[conn.i] == Connected(conn) then 1 else 0
    {}
  }

  lemma FinishKeepsInv(c: Config, s: State, w: nat)
    requires Inv(c, s) && Enabled(c, s, Finish(w))
    ensures Inv(c, Apply(c, s, Finish(w)))
  {
    FinishKeepsSlots(c, s, w);
    FinishKeepsAbort(c, s, w);
    FinishKeepsLedger(c, s, w);
  }

  lemma FailuresStay(s: State, s': State)
    requires |s.results| == |s'.results|
    requires forall i :: 0 <= i < |s.results| && s.results[i].Failed? ==> s'.results[i].Failed?
    ensures SomeFailure(s) ==> SomeFailure(s')
  {
    if SomeFailure(s) {
      var i :| 0 <= i < |s.results| && s.results[i].Failed?;
      assert s'.results[i].Failed?;
    }
  }

  lemma StopKeepsInv(c: Config, s: State, l: Label)
    requires Inv(c, s) && Enabled(c, s, l) && (l.Signal? || l.Leave?)
    ensures Inv(c, Apply(c, s, l))
  {
    var s' := Apply(c, s, l);
    FailuresStay(s, s');
    forall k | 0 <= k < s'.next && s'.results[k].Empty?
      ensures InFlight(s', k)
    {
      var v :| 0 <= v < |s.workers| && s.workers[v] == Busy(k);
      assert s'.workers[v] == Busy(k);
    }
  }

  lemma SchedulerKeepsInv(c: Config, s: State, l: Label)
    requires Inv(c, s) && Enabled(c, s, l) && (l.SeeAbort? || l.LoopEnds? || l.CloseJobs? || l.WaitReturns?)
    ensures Inv(c, Apply(c, s, l))
  {
    var s' := Apply(c, s, l);
    FailuresStay(s, s');
    forall k | 0 <= k < s'.next && s'.results[k].Empty?
      ensures InFlight(s', k)
    {
      var v :| 0 <= v < |s.workers| && s.workers[v] == Busy(k);
      assert s'.workers[v] == Busy(k);
    }
  }

  /** Every step of the pool, whoever takes it, keeps the invariant. */
  lemma StepKeepsInv(c: Config, s: State, l: Label)
    requires Inv(c, s) && Enabled(c, s, l)
    ensures Inv(c, Apply(c, s, l))
  {
    match l
    case Deliver(w) => DeliverKeepsInv(c, s, w);
    case Finish(w) => FinishKeepsInv(c, s, w);
    case Signal(_) => StopKeepsInv(c, s, l);
    case Leave(_) => StopKeepsInv(c, s, l);
    case _ => SchedulerKeepsInv(c, s, l);
  }

  lemma InvIsInductive(c: Config)
    requires c.Valid()
    ensures Inductive(Pool(c), s => Inv(c, s))
  {
    InitInv(c);
    forall s, s' | Inv(c, s) && Step(c, s, s')
      ensures Inv(c, s')
    {
      var l :| Enabled(c, s, l) && s' == Apply(c, s, l);
      StepKeepsInv(c, s, l);
    }
  }

  // ---- deadlock freedom and termination ----

  /** A move of worker w that needs nobody else, or its hand-off with the scheduler. */
  function WorkerMove(s: State, w: nat): Label
    requires w < |s.workers|
  {
    match s.workers[w]
    case Busy(_) => Finish(w)
    case Signalling => Signal(w)
    case _ => if s.jobsClosed then Leave(w) else Deliver(w)
  }

  /** The pool never deadlocks: until dialAll may return, some goroutine can move. */
  function NextEnabled(c: Config, s: State): (l: Label)
    requires Inv(c, s) && !s.sched.Done?
    ensures Enabled(c, s, l)
  {
    match s.sched
    case Closing => CloseJobs
    case Scheduling =>
      if s.next == |c.outcomes| then LoopEnds
      else
        var r := FindIndex(s.workers, (v: Worker) => v != Exited);
        if r.Some? then WorkerMove(s, r.value)
        else assert s.workers[0].Exited?; SeeAbort
    case Waiting =>
      var r := FindIndex(s.workers, (v: Worker) => v != Exited);
      if r.Some? then WorkerMove(s, r.value) else WaitReturns
  }

  function Weight(w: Worker): nat {
    match w
    case Idle => 1
    case Busy(_) => 3
    case Signalling => 2
    case Exited => 0
  }

  /** Three units per undelivered alias, so that a hand-off (idle to busy) still pays. */
  function Measure(c: Config, s: State): nat {
    Total(s.workers, Weight) +
    match s.sched
    case Scheduling => (if s.next <= |c.outcomes| then 3 * (|c.outcomes| - s.next) else 0) + 3
    case Closing => 2
    case Waiting => 1
    case Done => 0
  }

  lemma StepDecreases(c: Config, s: State, l: Label)
    requires Enabled(c, s, l)
    ensures Measure(c, Apply(c, s, l)) < Measure(c, s)
  {
    match l
    case Deliver(w) => TotalUpdate(s.workers, Weight, w, Busy(s.next));
    case Finish(w) => TotalUpdate(s.workers, Weight, w, Apply(c, s, l).workers[w]);
    case Signal(w) => TotalUpdate(s.workers, Weight, w, Exited);
    case Leave(w) => TotalUpdate(s.workers, Weight, w, Exited);
    case _ =>
  }

  /** Every run, under every schedule, is at most 3n + W + 3 steps long: no fairness is needed. */
  lemma PoolTerminates(c: Config, run: seq<State>)
    requires c.Valid() && IsRun(Pool(c), run)
    ensures |run| - 1 <= 3 * |c.outcomes| + c.workers + 3
  {
    InvIsInductive(c);
    forall s, s' | Inv(c, s) && Step(c, s, s')
      ensures Measure(c, s') < Measure(c, s)
    {
      var l :| Enabled(c, s, l) && s' == Apply(c, s, l);
      StepDecreases(c, s, l);
    }
    RunIsBounded(Pool(c), s => Inv(c, s), s => Measure(c, s), run);
    TotalAtMost(Init(c).workers, Weight, 1);
  }

  /** A run that cannot be extended has ended with dialAll past wg.Wait and every worker gone. */
  lemma PoolNeverDeadlocks(c: Config, s: State)
    requires c.Valid() && Reachable(Pool(c), s)
    requires Stuck(c, s)
    ensures s.sched.Done? && forall w :: 0 <= w < |s.workers| ==> s.workers[w].Exited?
  {
    InvIsInductive(c);
    InvariantReachable(Pool(c), s => Inv(c, s), s);
    if !s.sched.Done? {
      var l := NextEnabled(c, s);
      assert Step(c, s, Apply(c, s, l));
    }
  }

  /** With abort closed and an idle worker left, select may still deliver the next alias, or stop. */
  lemma SelectIsFree(c: Config) returns (s: State)
    requires c.Valid() && c.failFast && c.workers >= 2 && |c.outcomes| >= 2 && c.outcomes[0].Down?
    ensures Reachable(Pool(c), s) && s.AbortClosed() && s.next == 1
    ensures Enabled(c, s, Deliver(1)) && Enabled(c, s, SeeAbort)
  {
    var s0 := Init(c);
    ReachableInit(Pool(c), s0);
    Fire(c, s0, Deliver(0));
    var s1 := Apply(c, s0, Deliver(0));
    Fire(c, s1, Finish(0));
    var s2 := Apply(c, s1, Finish(0));
    Fire(c, s2, Signal(0));
    s := Apply(c, s2, Signal(0));
  }

  // ---- execution ----

  /** s is the end of some run: dialAll is past wg.Wait. */
  ghost predicate Finished(c: Config, s: State) {
    c.Valid() && Reachable(Pool(c), s) && s.sched.Done?
  }

  lemma Fire(c: Config, s: State, l: Label)
    requires Reachable(Pool(c), s) && Enabled(c, s, l)
    ensures Reachable(Pool(c), Apply(c, s, l))
  {
    assert Step(c, s, Apply(c, s, l));
    ReachableStep(Pool(c), s, Apply(c, s, l));
  }

  /**
   dialAll's goroutines under an arbitrary schedule: any enabled label may be picked at each turn, so every
   interleaving is some execution of this loop, and it always ends.
   */
  method RunPool(c: Config) returns (s: State)
    requires c.Valid()
    ensures Finished(c, s) && Inv(c, s)
  {
    s := Init(c);
    ReachableInit(Pool(c), s);
    InitInv(c);
    while !s.sched.Done?
      invariant Reachable(Pool(c), s) && Inv(c, s)
      decreases Measure(c, s)
    {
      var l: Label := *;
      if !Enabled(c, s, l) {
        l := NextEnabled(c, s);
      }
      Fire(c, s, l);
      StepKeepsInv(c, s, l);
      StepDecreases(c, s, l);
      s := Apply(c, s, l);
    }
  }

  // ---- the outcome ----

  /** What the loop `for i in aliases { results[i] = dialOne(i); stop at the first failure under FailFast }` leaves. */
  function Sequential(c: Config, i: nat): seq<Slot>
    requires i <= |c.outcomes|
    decreases |c.outcomes| - i
  {
    if i == |c.outcomes| then []
    else if c.failFast && c.outcomes[i].Down? then [c.SlotOf(i)] + seq(|c.outcomes| - i - 1, _ => Empty)
    else [c.SlotOf(i)] + Sequential(c, i + 1)
  }

  /** Delivered aliases form a prefix, each dialed once; a suffix is skipped only after a FailFast failure. */
  ghost predicate FinalResults(c: Config, s: State) {
    && Shape(c, s)
    && (forall i :: 0 <= i < |c.outcomes| ==>
          && s.results[i] == (if i < s.next then c.SlotOf(i) else Empty)
          && s.dials[i] == (if i < s.next then 1 else 0))
    && (s.next < |c.outcomes| ==> c.failFast && exists i :: 0 <= i < s.next && c.outcomes[i].Down?)
  }

  lemma DoneIsFinal(c: Config, s: State)
    requires Inv(c, s) && s.sched.Done?
    ensures FinalResults(c, s)
  {
    forall i | 0 <= i < s.next
      ensures !s.results[i].Empty?
    {
      assert !InFlight(s, i);
    }
    if s.next < |c.outcomes| {
      var i :| 0 <= i < |s.results| && s.results[i].Failed?;
      assert c.outcomes[i].Down?;
    }
  }

  /** Whatever the interleaving, a finished pool has delivered a prefix and dialed each of its aliases once. */
  lemma PoolFinishes(c: Config, s: State)
    requires c.Valid() && Reachable(Pool(c), s) && s.sched.Done?
    ensures FinalResults(c, s)
  {
    InvIsInductive(c);
    InvariantReachable(Pool(c), s => Inv(c, s), s);
    DoneIsFinal(c, s);
  }

  /** At no point of any run is an alias dialed twice, a slot written twice, or abort closed twice. */
  lemma NothingHappensTwice(c: Config, s: State)
    requires c.Valid() && Reachable(Pool(c), s)
    ensures Shape(c, s) && s.abortCloses <= 1
    ensures forall i :: 0 <= i < |c.outcomes| ==> s.dials[i] <= 1
    ensures forall conn :: s.obtained[conn] <= 1
    ensures forall v, w :: 0 <= v < w < |s.workers| && s.workers[v].Busy? ==> s.workers[v] != s.workers[w]
  {
    InvIsInductive(c);
    InvariantReachable(Pool(c), s => Inv(c, s), s);
  }

  /** The worker that recorded a FailFast failure takes no further job. */
  ghost predicate WritersOk(c: Config, s: State)
    requires Shape(c, s)
  {
    && (forall i :: 0 <= i < |c.outcomes| && s.results[i].Failed? ==>
          s.writer[i].Some? && s.writer[i].value < |s.workers| &&
          (s.workers[s.writer[i].value].Signalling? || s.workers[s.writer[i].value].Exited?))
    && (forall i, j :: 0 <= i < j < |c.outcomes| && s.results[i].Failed? && s.results[j].Failed? ==>
          s.writer[i] != s.writer[j])
  }

  lemma WritersFinish(c: Config, s: State, w: nat)
    requires c.failFast && Inv(c, s) && WritersOk(c, s) && Enabled(c, s, Finish(w))
    ensures WritersOk(c, Apply(c, s, Finish(w)))
  {
    var s', job := Apply(c, s, Finish(w)), s.workers[w].job;
    assert s'.writer[job] == Some(w) && (s'.results[job].Failed? ==> s'.workers[w].Signalling?);
    forall i | 0 <= i < |c.outcomes| && i != job && s'.results[i].Failed?
      ensures s'.writer[i] == s.writer[i] && s.writer[i].Some? && s.writer[i].value < |s.workers|
      ensures s.writer[i] != Some(w) && s'.workers[s.writer[i].value] == s.workers[s.writer[i].value]
    {
      assert s.results[i].Failed?;
    }
  }

  lemma WritersStep(c: Config, s: State, l: Label)
    requires c.failFast && Inv(c, s) && WritersOk(c, s) && Enabled(c, s, l)
    ensures WritersOk(c, Apply(c, s, l))
  {
    if l.Finish? {
      WritersFinish(c, s, l.w);
    } else {
      assert Apply(c, s, l).results == s.results && Apply(c, s, l).writer == s.writer;
    }
  }

  /** Under FailFast each worker records at most one failure, however long the others run on. */
  lemma OneFailurePerWorker(c: Config, s: State)
    requires c.Valid() && c.failFast && Reachable(Pool(c), s)
    ensures Shape(c, s)
    ensures forall i :: 0 <= i < |c.outcomes| && s.results[i].Failed? ==>
              s.writer[i].Some? && s.writer[i].value < c.workers
    ensures forall i, j :: 0 <= i < j < |c.outcomes| && s.results[i].Failed? && s.results[j].Failed? ==>
              s.writer[i] != s.writer[j]
  {
    InitInv(c);
    forall s, s' | Inv(c, s) && WritersOk(c, s) && Step(c, s, s')
      ensures Inv(c, s') && WritersOk(c, s')
    {
      var l :| Enabled(c, s, l) && s' == Apply(c, s, l);
      StepKeepsInv(c, s, l);
      WritersStep(c, s, l);
    }
    InvariantReachable(Pool(c), s => Inv(c, s) && WritersOk(c, s), s);
  }

  lemma {:induction false} SequentialAt(c: Config, i: nat, k: nat)
    requires i <= k < |c.outcomes|
    ensures |Sequential(c, i)| == |c.outcomes| - i
    ensures Sequential(c, i)[k - i] ==
            if c.failFast && exists j :: i <= j < k && c.outcomes[j].Down? then Empty else c.SlotOf(k)
    decreases |c.outcomes| - i
  {
    if c.failFast && c.outcomes[i].Down? {
    } else if i + 1 < |c.outcomes| {
      SequentialAt(c, i + 1, if k == i then k + 1 else k);
    } else {
      assert Sequential(c, i + 1) == [];
    }
  }

  /** Without FailFast the pool, with any number of workers, leaves exactly the sequential loop's results. */
  lemma PoolRefinesSequential(c: Config, s: State)
    requires c.Valid() && !c.failFast && Reachable(Pool(c), s) && s.sched.Done?
    ensures s.results == Sequential(c, 0)
  {
    PoolFinishes(c, s);
    SequentialAt(c, 0, 0);
    forall k | 0 <= k < |c.outcomes|
      ensures s.results[k] == Sequential(c, 0)[k]
    {
      SequentialAt(c, 0, k);
    }
  }

  /** One worker: a recorded failure is the last delivery there will ever be. */
  ghost predicate SoloInv(c: Config, s: State)
    requires Shape(c, s) && c.workers == 1
  {
    && (s.workers[0].Busy? ==> s.workers[0].job == s.next - 1)
    && (forall i :: 0 <= i < |s.results| && s.results[i].Failed? ==>
          i == s.next - 1 && (s.workers[0].Signalling? || s.workers[0].Exited?))
  }

  lemma SoloStep(c: Config, s: State, l: Label)
    requires c.failFast && c.workers == 1 && Inv(c, s) && SoloInv(c, s) && Enabled(c, s, l)
    ensures SoloInv(c, Apply(c, s, l))
  {
    assert l.Deliver? ==> l.w == 0;
  }

  lemma SoloIsInductive(c: Config)
    requires c.Valid() && c.failFast && c.workers == 1
    ensures Inductive(Pool(c), s => Inv(c, s) && SoloInv(c, s))
  {
    InitInv(c);
    forall s, s' | Inv(c, s) && SoloInv(c, s) && Step(c, s, s')
      ensures Inv(c, s') && SoloInv(c, s')
    {
      var l :| Enabled(c, s, l) && s' == Apply(c, s, l);
      StepKeepsInv(c, s, l);
      SoloStep(c, s, l);
    }
  }

  /** With one worker FailFast contacts no alias after the first failing one, although select may pick either branch. */
  lemma SoloPoolRefinesSequential(c: Config, s: State)
    requires c.Valid() && c.workers == 1 && Reachable(Pool(c), s) && s.sched.Done?
    ensures s.results == Sequential(c, 0)
  {
    if !c.failFast {
      PoolRefinesSequential(c, s);
      return;
    }
    PoolFinishes(c, s);
    SoloIsInductive(c);
    InvariantReachable(Pool(c), s => Inv(c, s) && SoloInv(c, s), s);
    SequentialAt(c, 0, 0);
    forall k | 0 <= k < |c.outcomes|
      ensures s.results[k] == Sequential(c, 0)[k]
    {
      SequentialAt(c, 0, k);
      SoloAt(c, s, k);
    }
  }

  lemma SoloAt(c: Config, s: State, k: nat)
    requires c.workers == 1 && FinalResults(c, s) && SoloInv(c, s) && k < |c.outcomes|
    ensures s.results[k] == if exists j :: 0 <= j < k && c.outcomes[j].Down? then Empty else c.SlotOf(k)
  {
    if j :| 0 <= j < k && c.outcomes[j].Down? {
      assert j < s.next ==> s.results[j].Failed?;
    }
    if s.next <= k {
      var i :| 0 <= i < s.next && c.outcomes[i].Down?;
    }
  }
}
