/** Group.Run, Collect and Errors on top of the fan-in machine. */
module GroupRun {
  import opened Wrappers
  import opened FanIn

  type Cause = nat

  datatype TaskError = TaskError(taskName: string, hostName: string, cause: Cause)

  /** Hosts by name, and what the task returns on each of them. */
  datatype Job<V> = Job(task: string, names: seq<string>, outcomes: seq<Result<V, Cause>>) {
    predicate Valid() { |names| == |outcomes| }

    /** wrapError; nil for a host whose task succeeded. */
    function ErrorOf(i: nat): Option<TaskError>
      requires Valid() && i < |names|
    {
      match outcomes[i]
      case Ok(_) => None
      case Err(cause) => Some(TaskError(task, names[i], cause))
    }
  }

  /** What the hosts' goroutines send. */
  function ErrorsOf<V>(job: Job<V>): (sent: seq<Option<TaskError>>)
    requires job.Valid()
    ensures |sent| == |job.names|
  {
    seq(|job.names|, i requires 0 <= i < |job.names| => job.ErrorOf(i))
  }

  /** What the handler sees when main receives from the hosts' goroutines in this order. */
  function Handled<V>(job: Job<V>, order: seq<nat>): seq<TaskError>
    requires job.Valid() && forall i :: 0 <= i < |order| ==> order[i] < |job.names|
  {
    Gathered(ErrorsOf(job), order)
  }

  /** The results map after the succeeding tasks stored their values in this order. */
  function Stored<V>(job: Job<V>, order: seq<nat>): map<string, V>
    requires job.Valid() && forall i :: 0 <= i < |order| ==> order[i] < |job.names|
  {
    if order == [] then map[]
    else
      var i := order[|order| - 1];
      var before := Stored(job, order[..|order| - 1]);
      if job.outcomes[i].Ok? then before[job.names[i] := job.outcomes[i].value] else before
  }

  function HostOrder(n: nat): (order: seq<nat>)
    ensures IsPermutation(order, n)
  {
    seq(n, i requires 0 <= i => i as nat)
  }

  // ---- independence of the interleaving ----

  /** The hosts whose task failed with this error; it carries the host's name. */
  ghost function FailingWith<V>(job: Job<V>, e: TaskError): set<nat>
    requires job.Valid()
  {
    set i: nat | i < |job.names| && job.outcomes[i] == Err(e.cause) && e == TaskError(job.task, job.names[i], e.cause)
  }

  /** In every interleaving the handler is called once per failing host, with that host's name and error. */
  lemma HandledOncePerFailure<V>(job: Job<V>, order: seq<nat>, e: TaskError)
    requires job.Valid() && IsPermutation(order, |job.names|)
    ensures multiset(Handled(job, order))[e] == |FailingWith(job, e)|
  {
    GatheredCount(ErrorsOf(job), order, e);
    forall i: nat | i < |job.names|
      ensures ErrorsOf(job)[i] == Some(e) <==> i in FailingWith(job, e)
    {
      assert ErrorsOf(job)[i] == job.ErrorOf(i);
    }
    assert SendersOf(ErrorsOf(job), e) == FailingWith(job, e);
  }

  /** The handler is not called at all exactly when every task succeeds. */
  lemma HandledNothing<V>(job: Job<V>, order: seq<nat>)
    requires job.Valid() && IsPermutation(order, |job.names|)
    ensures Handled(job, order) == [] <==> forall i :: 0 <= i < |job.names| ==> job.outcomes[i].Ok?
  {
    GatheredNothing(ErrorsOf(job), order);
    assert forall i :: 0 <= i < |job.names| ==> (ErrorsOf(job)[i].None? <==> job.outcomes[i].Ok?);
  }

  ghost predicate Stores<V>(job: Job<V>, i: nat, name: string) {
    job.Valid() && i < |job.names| && job.names[i] == name && job.outcomes[i].Ok?
  }

  /** Host i, one of those in `order`, succeeded under this name with this value. */
  ghost predicate Gave<V>(job: Job<V>, order: seq<nat>, i: nat, name: string, value: V) {
    i in order && Stores(job, i, name) && job.outcomes[i].value == value
  }

  /** The keys are the names of the succeeding hosts; each value comes from a succeeding host of that name. */
  lemma {:induction false} StoredMeans<V>(job: Job<V>, order: seq<nat>)
    requires job.Valid() && forall i :: 0 <= i < |order| ==> order[i] < |job.names|
    ensures forall i :: i in order && job.outcomes[i].Ok? ==> job.names[i] in Stored(job, order)
    ensures forall name :: name in Stored(job, order) ==>
              exists i :: Gave(job, order, i, name, Stored(job, order)[name])
  {
    if order != [] {
      var front, last := order[..|order| - 1], order[|order| - 1];
      StoredMeans(job, front);
      assert forall i :: i in order <==> i in front || i == last;
      forall name | name in Stored(job, order)
        ensures exists i :: Gave(job, order, i, name, Stored(job, order)[name])
      {
        if job.outcomes[last].Ok? && job.names[last] == name {
          assert Gave(job, order, last, name, Stored(job, order)[name]);
        } else {
          var i :| Gave(job, front, i, name, Stored(job, front)[name]);
          assert Gave(job, order, i, name, Stored(job, order)[name]);
        }
      }
    }
  }

  /** If hosts share a name, the value is that of the one whose task ended last. */
  lemma {:induction false} StoredIsLast<V>(job: Job<V>, order: seq<nat>, p: nat)
    requires job.Valid() && forall i :: 0 <= i < |order| ==> order[i] < |job.names|
    requires p < |order| && job.outcomes[order[p]].Ok?
    requires forall k :: p < k < |order| && job.outcomes[order[k]].Ok? ==> job.names[order[k]] != job.names[order[p]]
    ensures job.names[order[p]] in Stored(job, order)
    ensures Stored(job, order)[job.names[order[p]]] == job.outcomes[order[p]].value
  {
    if p < |order| - 1 {
      var front := order[..|order| - 1];
      assert forall k :: 0 <= k < |front| ==> front[k] == order[k];
      StoredIsLast(job, front, p);
    }
  }

  /** No two succeeding hosts share a name. */
  ghost predicate DistinctSuccesses<V>(job: Job<V>)
    requires job.Valid()
  {
    forall i, j :: 0 <= i < j < |job.names| && job.outcomes[i].Ok? && job.outcomes[j].Ok? ==>
      job.names[i] != job.names[j]
  }

  /** With distinct names Collect's map is the same in every interleaving: each succeeding host's own value. */
  lemma CollectIsExact<V>(job: Job<V>, order: seq<nat>)
    requires job.Valid() && IsPermutation(order, |job.names|) && DistinctSuccesses(job)
    ensures forall i :: 0 <= i < |job.names| && job.outcomes[i].Ok? ==>
              job.names[i] in Stored(job, order) && Stored(job, order)[job.names[i]] == job.outcomes[i].value
    ensures forall name :: name in Stored(job, order) ==> exists i: nat :: Stores(job, i, name)
  {
    StoredMeans(job, order);
    Pigeonhole(order, |job.names|);
    forall name | name in Stored(job, order)
      ensures exists i: nat :: Stores(job, i, name)
    {
      var i :| Gave(job, order, i, name, Stored(job, order)[name]);
    }
    forall i | 0 <= i < |job.names| && job.outcomes[i].Ok?
      ensures job.names[i] in Stored(job, order) && Stored(job, order)[job.names[i]] == job.outcomes[i].value
    {
      assert i in order;
      var j :| Gave(job, order, j, job.names[i], Stored(job, order)[job.names[i]]);
      assert i == j;
    }
  }

  // ---- counting ----

  function Failures<V>(job: Job<V>, k: nat): nat
    requires job.Valid() && k <= |job.names|
  {
    if k == 0 then 0 else Failures(job, k - 1) + if job.outcomes[k - 1].Err? then 1 else 0
  }

  lemma {:induction false} HandledLength<V>(job: Job<V>, k: nat)
    requires job.Valid() && k <= |job.names|
    ensures |Handled(job, HostOrder(k))| == Failures(job, k)
  {
    if k > 0 {
      assert HostOrder(k)[..k - 1] == HostOrder(k - 1);
      HandledLength(job, k - 1);
    }
  }

  /** Names of the succeeding ones among the first k hosts. */
  ghost function SuccessNames<V>(job: Job<V>, k: nat): set<string>
    requires job.Valid() && k <= |job.names|
  {
    if k == 0 then {}
    else SuccessNames(job, k - 1) + if job.outcomes[k - 1].Ok? then {job.names[k - 1]} else {}
  }

  lemma {:induction false} SuccessNamesMeans<V>(job: Job<V>, k: nat)
    requires job.Valid() && k <= |job.names|
    ensures forall i :: 0 <= i < k && job.outcomes[i].Ok? ==> job.names[i] in SuccessNames(job, k)
    ensures forall name :: name in SuccessNames(job, k) ==> exists i :: 0 <= i < k && Stores(job, i, name)
  {
    if k > 0 {
      SuccessNamesMeans(job, k - 1);
      forall name | name in SuccessNames(job, k)
        ensures exists i :: 0 <= i < k && Stores(job, i, name)
      {
        if name in SuccessNames(job, k - 1) {
          var i :| 0 <= i < k - 1 && Stores(job, i, name);
        } else {
          assert Stores(job, k - 1, name);
        }
      }
    }
  }

  /** Each succeeding host among the first k brings a new name. */
  ghost predicate AllNew<V>(job: Job<V>, k: nat)
    requires job.Valid() && k <= |job.names|
  {
    k == 0 || (AllNew(job, k - 1) && (job.outcomes[k - 1].Ok? ==> job.names[k - 1] !in SuccessNames(job, k - 1)))
  }

  lemma {:induction false} AllNewMeans<V>(job: Job<V>, k: nat)
    requires job.Valid() && k <= |job.names|
    ensures AllNew(job, k) <==>
            forall i, j :: 0 <= i < j < k && job.outcomes[i].Ok? && job.outcomes[j].Ok? ==> job.names[i] != job.names[j]
  {
    if k > 0 {
      AllNewMeans(job, k - 1);
      SuccessNamesMeans(job, k - 1);
      if job.outcomes[k - 1].Ok? && job.names[k - 1] in SuccessNames(job, k - 1) {
        var i :| 0 <= i < k - 1 && Stores(job, i, job.names[k - 1]);
      }
    }
  }

  lemma {:induction false} SuccessNamesCount<V>(job: Job<V>, k: nat)
    requires job.Valid() && k <= |job.names|
    ensures |SuccessNames(job, k)| + Failures(job, k) <= k
    ensures |SuccessNames(job, k)| + Failures(job, k) == k <==> AllNew(job, k)
  {
    if k > 0 {
      SuccessNamesCount(job, k - 1);
      var names, name := SuccessNames(job, k - 1), job.names[k - 1];
      if job.outcomes[k - 1].Err? {
        assert SuccessNames(job, k) == names;
      } else if name in names {
        assert SuccessNames(job, k) == names;
      }
    }
  }

  /**
   Results and errors add up to the number of hosts if and only if no two succeeding hosts share a name; with a
   shared name one result silently replaces another.
   */
  lemma CollectCountsExact<V>(job: Job<V>, finished: seq<nat>, received: seq<nat>)
    requires job.Valid() && IsPermutation(finished, |job.names|) && IsPermutation(received, |job.names|)
    ensures |Stored(job, finished)| + |Handled(job, received)| == |job.names| <==> DistinctSuccesses(job)
  {
    var n := |job.names|;
    forall e: TaskError
      ensures multiset(Handled(job, received))[e] == multiset(Handled(job, HostOrder(n)))[e]
    {
      HandledOncePerFailure(job, received, e);
      HandledOncePerFailure(job, HostOrder(n), e);
    }
    assert multiset(Handled(job, received)) == multiset(Handled(job, HostOrder(n)));
    assert |multiset(Handled(job, received))| == |multiset(Handled(job, HostOrder(n)))|;
    HandledLength(job, n);
    SuccessNamesCount(job, n);
    AllNewMeans(job, n);
    SameNames(job, finished);
    assert |Stored(job, finished)| == |Stored(job, finished).Keys|;
  }

  lemma SameNames<V>(job: Job<V>, finished: seq<nat>)
    requires job.Valid() && IsPermutation(finished, |job.names|)
    ensures Stored(job, finished).Keys == SuccessNames(job, |job.names|)
  {
    StoredMeans(job, finished);
    Pigeonhole(finished, |job.names|);
    SuccessNamesMeans(job, |job.names|);
    forall name
      ensures name in Stored(job, finished) <==> name in SuccessNames(job, |job.names|)
    {
      if name in SuccessNames(job, |job.names|) {
        var i :| 0 <= i < |job.names| && Stores(job, i, name);
        assert i in finished;
      }
      if name in Stored(job, finished) {
        var i :| Gave(job, finished, i, name, Stored(job, finished)[name]);
      }
    }
  }

  /** Whatever the tasks return and in whatever order, no host is missing from what Collect returns. */
  ghost predicate AlwaysAddsUp<V(!new)>(names: seq<string>) {
    forall job: Job<V>, finished, received ::
      job.names == names && job.Valid() && IsPermutation(finished, |names|) && IsPermutation(received, |names|) ==>
        |Stored(job, finished)| + |Handled(job, received)| == |names|
  }

  /** What a caller can rely on before the tasks run: the counts add up exactly when host names are distinct. */
  lemma CollectCountsByName<V(!new)>(names: seq<string>, value: V)
    ensures AlwaysAddsUp<V>(names) <==> Distinct(names)
  {
    if AlwaysAddsUp<V>(names) {
      var job := Job("", names, seq(|names|, _ => Ok(value)));
      var order := HostOrder(|names|);
      assert |Stored(job, order)| + |Handled(job, order)| == |names|;
      CollectCountsExact(job, order, order);
    }
    if Distinct(names) {
      forall job: Job<V>, finished, received
        | job.names == names && job.Valid() && IsPermutation(finished, |names|) && IsPermutation(received, |names|)
        ensures |Stored(job, finished)| + |Handled(job, received)| == |names|
      {
        CollectCountsExact(job, finished, received);
      }
    }
  }

  /** The smallest counterexample: two hosts of one name succeed, and one result is left. */
  lemma SameNameCounterexample<V>(task: string, v: V, w: V, finished: seq<nat>, received: seq<nat>)
    requires IsPermutation(finished, 2) && IsPermutation(received, 2)
    ensures var job := Job(task, ["a", "a"], [Ok(v), Ok(w)]);
            Stored(job, finished).Keys == {"a"} && Handled(job, received) == []
  {
    var job := Job(task, ["a", "a"], [Ok(v), Ok(w)]);
    SameNames(job, finished);
    assert SuccessNames(job, 1) == {"a"};
    HandledNothing(job, received);
  }

  // ---- the operations ----

  /** Errors; Err joins what was handled, nil when nothing was. */
  class Errors {
    var errs: seq<TaskError>

    constructor ()
      ensures errs == []
    {
      errs := [];
    }

    method Handle(err: TaskError)
      modifies this
      ensures errs == old(errs) + [err]
    {
      errs := errs + [err];
    }

    method Err() returns (joined: Option<seq<TaskError>>)
      ensures joined == if errs == [] then None else Some(errs)
    {
      return if errs == [] then None else Some(errs);
    }
  }

  /** What Collect's closures write under the mutex. */
  class Results<V> {
    var values: map<string, V>

    constructor ()
      ensures values == map[]
    {
      values := map[];
    }

    method Store(name: string, value: V)
      modifies this
      ensures values == old(values)[name := value]
    {
      values := values[name := value];
    }
  }

  lemma OneMore<V>(job: Job<V>, order: seq<nat>, i: nat)
    requires job.Valid() && i < |job.names| && forall k :: 0 <= k < |order| ==> order[k] < |job.names|
    ensures Stored(job, order + [i]) ==
            if job.outcomes[i].Err? then Stored(job, order)
            else Stored(job, order)[job.names[i] := job.outcomes[i].value]
    ensures Handled(job, order + [i]) ==
            Handled(job, order) + if job.ErrorOf(i).Some? then [job.ErrorOf(i).value] else []
  {
    assert (order + [i])[..|order|] == order;
  }

  /** The task of host i ends; one that succeeds stores its value as the last thing it does. */
  method TaskEnds<V>(job: Job<V>, finished: seq<nat>, i: nat, results: Results<V>)
    requires job.Valid() && i < |job.names| && forall k :: 0 <= k < |finished| ==> finished[k] < |job.names|
    requires results.values == Stored(job, finished)
    modifies results
    ensures results.values == Stored(job, finished + [i])
  {
    OneMore(job, finished, i);
    match job.outcomes[i] {
      case Ok(v) => results.Store(job.names[i], v);
      case Err(_) =>
    }
  }

  /** Main receives from host i's goroutine and calls the handler if it got an error. */
  method MainReceives<V>(job: Job<V>, received: seq<nat>, i: nat, handler: Errors, ghost before: seq<TaskError>)
    requires job.Valid() && i < |job.names| && forall k :: 0 <= k < |received| ==> received[k] < |job.names|
    requires handler.errs == before + Handled(job, received)
    modifies handler
    ensures handler.errs == before + Handled(job, received + [i])
  {
    OneMore(job, received, i);
    match job.ErrorOf(i) {
      case Some(err) => handler.Handle(err);
      case None =>
    }
  }

  /** One turn of the goroutines. */
  method Turn<V>(job: Job<V>, s: State, l: Label, results: Results<V>, handler: Errors, ghost before: seq<TaskError>)
    returns (s': State)
    requires job.Valid() && Inv(|job.names|, s) && Enabled(s, l)
    requires results.values == Stored(job, s.finished) && handler.errs == before + Handled(job, s.received)
    modifies results, handler
    ensures s' == Apply(s, l) && Inv(|job.names|, s')
    ensures results.values == Stored(job, s'.finished) && handler.errs == before + Handled(job, s'.received)
  {
    StepKeepsInv(|job.names|, s, l);
    match l {
      case Finish(i) => TaskEnds(job, s.finished, i, results);
      case Receive(i) => MainReceives(job, s.received, i, handler, before);
      case _ =>
    }
    s' := Apply(s, l);
  }

  /** Group.Run under an arbitrary schedule. */
  method Run<V>(job: Job<V>, results: Results<V>, handler: Errors)
    returns (ghost finished: seq<nat>, ghost received: seq<nat>)
    requires job.Valid() && results.values == map[]
    modifies results, handler
    ensures IsPermutation(finished, |job.names|) && IsPermutation(received, |job.names|)
    ensures results.values == Stored(job, finished)
    ensures handler.errs == old(handler.errs) + Handled(job, received)
  {
    var n := |job.names|;
    var s := Init(n);
    ghost var before := handler.errs;
    while !s.main.Returned?
      invariant Inv(n, s)
      invariant results.values == Stored(job, s.finished) && handler.errs == before + Handled(job, s.received)
      decreases Measure(s)
    {
      var l: Label := *;
      if !Enabled(s, l) {
        l := NextEnabled(n, s);
      }
      StepDecreases(n, s, l);
      s := Turn(job, s, l, results, handler, before);
    }
    ReturnedIsComplete(n, s);
    finished, received := s.finished, s.received;
  }

  /** Collect: the succeeding hosts' values, and the joined errors of the failing ones. */
  method Collect<V>(job: Job<V>) returns (values: map<string, V>, err: Option<seq<TaskError>>)
    requires job.Valid()
    ensures values.Keys == SuccessNames(job, |job.names|)
    ensures forall name :: name in values ==>
              exists i: nat :: Stores(job, i, name) && job.outcomes[i].value == values[name]
    ensures err.None? <==> forall i :: 0 <= i < |job.names| ==> job.outcomes[i].Ok?
    ensures err.Some? ==> forall e :: multiset(err.value)[e] == |FailingWith(job, e)|
    ensures |values| + (if err.Some? then |err.value| else 0) == |job.names| <==> DistinctSuccesses(job)
  {
    var results := new Results<V>();
    var errs := new Errors();
    ghost var finished, received := Run(job, results, errs);
    values := results.values;
    err := errs.Err();
    CollectCountsExact(job, finished, received);
    HandledNothing(job, received);
    forall e: TaskError
      ensures multiset(errs.errs)[e] == |FailingWith(job, e)|
    {
      HandledOncePerFailure(job, received, e);
    }
    SameNames(job, finished);
    StoredMeans(job, finished);
    forall name | name in values
      ensures exists i: nat :: Stores(job, i, name) && job.outcomes[i].value == values[name]
    {
      var i :| Gave(job, finished, i, name, values[name]);
    }
  }
}
