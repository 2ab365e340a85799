/**
 What dialAll makes of the pool's result slots (collect, firstDialError, allFailedError), and what the caller
 may rely on for every schedule: no silent skipping, the ledger, and which error FailFast reports.
 */
module DialOutcome {
  import opened Wrappers
  import opened Conns
  import opened WorkerPool

  // ---- the specification functions of collect, firstDialError and allFailedError ----

  /** Connected hosts in alias order. */
  function HostsOf(results: seq<Slot>): seq<Conn> {
    if results == [] then []
    else
      var last := results[|results| - 1];
      HostsOf(results[..|results| - 1]) + (if last.Connected? then [last.conn] else [])
  }

  /** alias -> dial error; a later failure of a repeated alias overwrites an earlier one. */
  function ErrsOf(aliases: seq<string>, results: seq<Slot>): map<string, Error>
    requires |results| <= |aliases|
  {
    if results == [] then map[]
    else
      var i := |results| - 1;
      var errs := ErrsOf(aliases, results[..i]);
      if results[i].Failed? then errs[aliases[i] := results[i].err] else errs
  }

  function FirstDialError(aliases: seq<string>, errs: map<string, Error>): Option<Error> {
    if aliases == [] then None
    else if aliases[0] in errs then Some(errs[aliases[0]])
    else FirstDialError(aliases[1..], errs)
  }

  function Causes(aliases: seq<string>, errs: map<string, Error>): seq<(string, Error)> {
    if aliases == [] then []
    else
      var i := |aliases| - 1;
      Causes(aliases[..i], errs) + (if aliases[i] in errs then [(aliases[i], errs[aliases[i]])] else [])
  }

  function AllFailedError(aliases: seq<string>, hosts: seq<Conn>, errs: map<string, Error>): Option<Error> {
    if |hosts| > 0 || |errs| == 0 then None else Some(AllFailed(Causes(aliases, errs)))
  }

  /** The error dialAll returns for the given slots. */
  function DialAllError(aliases: seq<string>, failFast: bool, results: seq<Slot>): Option<Error>
    requires |results| <= |aliases|
  {
    var errs := ErrsOf(aliases, results);
    if failFast && FirstDialError(aliases, errs).Some? then FirstDialError(aliases, errs)
    else AllFailedError(aliases, HostsOf(results), errs)
  }

  // ---- what these functions mean ----

  /** i is the last failed index of its alias. */
  ghost predicate LastFailureOf(aliases: seq<string>, results: seq<Slot>, i: nat)
    requires |results| <= |aliases|
  {
    && i < |results| && results[i].Failed?
    && forall j :: i < j < |results| && aliases[j] == aliases[i] ==> !results[j].Failed?
  }

  /** dialErrs holds exactly the aliases with a failed dial, each with the error of its last failed dial. */
  lemma {:induction false} ErrsAreLastFailures(aliases: seq<string>, results: seq<Slot>)
    requires |results| <= |aliases|
    ensures forall i :: 0 <= i < |results| && results[i].Failed? ==> aliases[i] in ErrsOf(aliases, results)
    ensures forall i :: 0 <= i < |results| && LastFailureOf(aliases, results, i) ==>
              aliases[i] in ErrsOf(aliases, results) && ErrsOf(aliases, results)[aliases[i]] == results[i].err
    ensures forall a :: a in ErrsOf(aliases, results) ==>
              exists i :: 0 <= i < |results| && aliases[i] == a && LastFailureOf(aliases, results, i)
  {
    if results != [] {
      var n := |results| - 1;
      var front := results[..n];
      ErrsAreLastFailures(aliases, front);
      forall i | 0 <= i < |results| && LastFailureOf(aliases, results, i)
        ensures aliases[i] in ErrsOf(aliases, results) && ErrsOf(aliases, results)[aliases[i]] == results[i].err
      {
        if i < n {
          assert LastFailureOf(aliases, front, i);
        }
      }
      forall a | a in ErrsOf(aliases, results)
        ensures exists i :: 0 <= i < |results| && aliases[i] == a && LastFailureOf(aliases, results, i)
      {
        if results[n].Failed? && a == aliases[n] {
          assert LastFailureOf(aliases, results, n);
        } else {
          assert a in ErrsOf(aliases, front);
          var i :| 0 <= i < |front| && aliases[i] == a && LastFailureOf(aliases, front, i);
          assert LastFailureOf(aliases, results, i);
        }
      }
    }
  }

  /** The error of the first alias in list order that has one. */
  lemma {:induction false} FirstDialErrorIsFirst(aliases: seq<string>, errs: map<string, Error>)
    ensures FirstDialError(aliases, errs).None? <==> forall i :: 0 <= i < |aliases| ==> aliases[i] !in errs
    ensures FirstDialError(aliases, errs).Some? ==>
              exists i :: 0 <= i < |aliases| && aliases[i] in errs
                          && FirstDialError(aliases, errs).value == errs[aliases[i]]
                          && forall j :: 0 <= j < i ==> aliases[j] !in errs
  {
    if aliases != [] && aliases[0] !in errs {
      FirstDialErrorIsFirst(aliases[1..], errs);
      if FirstDialError(aliases, errs).Some? {
        var i :| 0 <= i < |aliases[1..]| && aliases[1..][i] in errs
                 && FirstDialError(aliases[1..], errs).value == errs[aliases[1..][i]]
                 && forall j :: 0 <= j < i ==> aliases[1..][j] !in errs;
        forall j | 0 <= j < i + 1
          ensures aliases[j] !in errs
        {
          assert j > 0 ==> aliases[j] == aliases[1..][j - 1];
        }
        assert aliases[i + 1] in errs;
      } else {
        forall i | 0 <= i < |aliases|
          ensures aliases[i] !in errs
        {
          assert i > 0 ==> aliases[i] == aliases[1..][i - 1];
        }
      }
    } else if aliases != [] {
      assert aliases[0] in errs;
    }
  }

  /** With an entry for every alias, the combined error names each alias with its entry, in list order. */
  lemma {:induction false} CausesAt(aliases: seq<string>, errs: map<string, Error>)
    requires forall i :: 0 <= i < |aliases| ==> aliases[i] in errs
    ensures |Causes(aliases, errs)| == |aliases|
    ensures forall i :: 0 <= i < |aliases| ==> Causes(aliases, errs)[i] == (aliases[i], errs[aliases[i]])
  {
    if aliases != [] { CausesAt(aliases[..|aliases| - 1], errs); }
  }

  ghost predicate OwnSlots(results: seq<Slot>) {
    forall i :: 0 <= i < |results| && results[i].Connected? ==> results[i].conn == HostConn(i)
  }

  /** The hosts are those of the connected slots, in increasing alias order. */
  lemma {:induction false} HostsAreOrdered(results: seq<Slot>)
    requires OwnSlots(results)
    ensures forall h :: h in HostsOf(results) <==> h.HostConn? && h.i < |results| && results[h.i].Connected?
    ensures forall i :: 0 <= i < |HostsOf(results)| ==> HostsOf(results)[i].HostConn?
    ensures forall i, j :: 0 <= i < j < |HostsOf(results)| ==> HostsOf(results)[i].i < HostsOf(results)[j].i
  {
    if results != [] {
      var n := |results| - 1;
      var front := results[..n];
      HostsAreOrdered(front);
      var hosts := HostsOf(front);
      assert forall i :: 0 <= i < |hosts| ==> hosts[i] in hosts;
      forall h
        ensures h in HostsOf(results) <==> h.HostConn? && h.i < |results| && results[h.i].Connected?
      {
        assert h.HostConn? && h.i < n ==> front[h.i] == results[h.i];
      }
    }
  }

  lemma {:induction false} HostsCount(results: seq<Slot>, conn: Conn)
    requires OwnSlots(results)
    ensures multiset(HostsOf(results))[conn] ==
            if conn.HostConn? && conn.i < |results| && results[conn.i].Connected? then 1 else 0
  {
    if results != [] {
      var front := results[..|results| - 1];
      HostsCount(front, conn);
      assert conn.HostConn? && conn.i < |front| ==> front[conn.i] == results[conn.i];
    }
  }

  /** collect keeps every Host the pool obtained, dials in flight at abort included, and nothing else. */
  lemma HostsAreTheLedger(c: Config, s: State)
    requires c.Valid() && Inv(c, s)
    ensures multiset(HostsOf(s.results)) == s.obtained
  {
    assert forall i :: 0 <= i < |s.results| && s.results[i].Connected? ==> s.results[i] == c.SlotOf(i);
    forall conn
      ensures multiset(HostsOf(s.results))[conn] == s.obtained[conn]
    {
      HostsCount(s.results, conn);
    }
  }

  // ---- theorems about every finished run ----

  lemma {:induction false} AllConnected(results: seq<Slot>)
    requires forall i :: 0 <= i < |results| ==> results[i] == Connected(HostConn(i))
    ensures HostsOf(results) == seq(|results|, (i: nat) => HostConn(i))
  {
    if results != [] { AllConnected(results[..|results| - 1]); }
  }

  lemma {:induction false} NoHosts(results: seq<Slot>)
    requires forall i :: 0 <= i < |results| ==> !results[i].Connected?
    ensures HostsOf(results) == []
  {
    if results != [] { NoHosts(results[..|results| - 1]); }
  }

  lemma {:induction false} SomeHost(results: seq<Slot>, i: nat)
    requires i < |results| && results[i].Connected?
    ensures |HostsOf(results)| > 0
  {
    if i < |results| - 1 { SomeHost(results[..|results| - 1], i); }
  }

  lemma {:induction false} NoErrs(aliases: seq<string>, results: seq<Slot>)
    requires |results| <= |aliases|
    requires forall i :: 0 <= i < |results| ==> !results[i].Failed?
    ensures ErrsOf(aliases, results) == map[]
  {
    if results != [] { NoErrs(aliases, results[..|results| - 1]); }
  }

  /**
   No silent skipping: under FailFast dialAll returns nil exactly when every dial would succeed, and then the
   hosts are those of all aliases in order, repeated aliases included.
   */
  lemma FailFastNilMeansAllDialed(c: Config, aliases: seq<string>, s: State)
    requires Finished(c, s) && c.failFast && |aliases| == |c.outcomes|
    ensures Shape(c, s)
    ensures DialAllError(aliases, true, s.results).None? <==> forall i :: 0 <= i < |c.outcomes| ==> c.outcomes[i].Up?
    ensures DialAllError(aliases, true, s.results).None? ==>
              HostsOf(s.results) == seq(|aliases|, (i: nat) => HostConn(i)) && ErrsOf(aliases, s.results) == map[]
  {
    PoolFinishes(c, s);
    var errs := ErrsOf(aliases, s.results);
    FirstDialErrorIsFirst(aliases, errs);
    ErrsAreLastFailures(aliases, s.results);
    if exists f :: 0 <= f < |c.outcomes| && c.outcomes[f].Down? {
      var f :| 0 <= f < s.next && c.outcomes[f].Down?;
      assert s.results[f].Failed? && aliases[f] in errs;
    } else {
      AllConnected(s.results);
      NoErrs(aliases, s.results);
    }
  }

  /** The error reported is that of some failed dial. */
  lemma FirstDialErrorIsAFailure(aliases: seq<string>, results: seq<Slot>)
    requires |results| <= |aliases|
    ensures var err := FirstDialError(aliases, ErrsOf(aliases, results));
            err.Some? ==> exists k :: 0 <= k < |results| && results[k] == Failed(err.value)
    ensures FirstDialError(aliases, ErrsOf(aliases, results)).None? ==> ErrsOf(aliases, results) == map[]
  {
    var errs := ErrsOf(aliases, results);
    FirstDialErrorIsFirst(aliases, errs);
    ErrsAreLastFailures(aliases, results);
    if FirstDialError(aliases, errs).Some? {
      var i :| 0 <= i < |aliases| && aliases[i] in errs && FirstDialError(aliases, errs).value == errs[aliases[i]];
      var k :| 0 <= k < |results| && aliases[k] == aliases[i] && LastFailureOf(aliases, results, k);
    }
  }

  /** Whatever the schedule and however aliases repeat, an error under FailFast is the outcome of some dial. */
  lemma FailFastErrorIsAFailure(c: Config, aliases: seq<string>, s: State)
    requires Finished(c, s) && c.failFast && |aliases| == |c.outcomes|
    ensures Shape(c, s)
    ensures DialAllError(aliases, true, s.results).Some? ==>
              Down(DialAllError(aliases, true, s.results).value) in c.outcomes
  {
    PoolFinishes(c, s);
    FirstDialErrorIsAFailure(aliases, s.results);
    var err := DialAllError(aliases, true, s.results);
    if err.Some? {
      var k :| 0 <= k < |s.results| && s.results[k] == Failed(err.value);
      assert c.outcomes[k] == Down(err.value);
    }
  }

  /** The combined error lists every alias in order with the error of its last dial. */
  ghost predicate NamesEveryAlias(aliases: seq<string>, results: seq<Slot>, err: Error)
    requires |results| == |aliases|
  {
    && err.AllFailed?
    && |err.causes| == |aliases|
    && forall i :: 0 <= i < |aliases| ==>
         && err.causes[i].0 == aliases[i]
         && (LastFailureOf(aliases, results, i) ==> err.causes[i].1 == results[i].err)
  }

  lemma AllFailedErrorMeans(aliases: seq<string>, results: seq<Slot>)
    requires |results| == |aliases| >= 1
    requires forall i :: 0 <= i < |results| ==> !results[i].Empty?
    ensures DialAllError(aliases, false, results).None? <==> exists i :: 0 <= i < |results| && results[i].Connected?
    ensures DialAllError(aliases, false, results).Some? ==>
              NamesEveryAlias(aliases, results, DialAllError(aliases, false, results).value)
  {
    var errs := ErrsOf(aliases, results);
    ErrsAreLastFailures(aliases, results);
    if i :| 0 <= i < |results| && results[i].Connected? {
      SomeHost(results, i);
    } else {
      NoHosts(results);
      assert aliases[0] in errs;
      CausesAt(aliases, errs);
    }
  }

  /** Without FailFast every alias is dialed, and dialAll fails only if all of them failed. */
  lemma KeepGoingOutcome(c: Config, aliases: seq<string>, s: State)
    requires Finished(c, s) && !c.failFast && |aliases| == |c.outcomes|
    ensures |s.results| == |aliases| && s.results == Sequential(c, 0)
    ensures DialAllError(aliases, false, s.results).None? <==> exists i :: 0 <= i < |c.outcomes| && c.outcomes[i].Up?
    ensures DialAllError(aliases, false, s.results).Some? ==>
              NamesEveryAlias(aliases, s.results, DialAllError(aliases, false, s.results).value)
  {
    PoolRefinesSequential(c, s);
    PoolFinishes(c, s);
    AllFailedErrorMeans(aliases, s.results);
    if i :| 0 <= i < |c.outcomes| && c.outcomes[i].Up? {
      assert s.results[i].Connected?;
    }
  }

  // ---- what a pool that stopped early has delivered ----

  /** The result slots after exactly the first k aliases were dialed. */
  function Delivered(outcomes: seq<Outcome>, k: nat): (results: seq<Slot>)
    ensures |results| == |outcomes|
  {
    var c := Config(outcomes, 1, true);
    seq(|outcomes|, i requires 0 <= i < |outcomes| => if i < k then c.SlotOf(i) else Empty)
  }

  /** Some aliases are left undialed only after a failure; and sequentially none is dialed after one. */
  ghost predicate StopsAt(outcomes: seq<Outcome>, sequential: bool, k: nat) {
    && k <= |outcomes|
    && (k < |outcomes| ==> exists i :: 0 <= i < k && outcomes[i].Down?)
    && (sequential ==> forall i :: 0 <= i < k - 1 ==> outcomes[i].Up?)
  }

  /** In every run under FailFast the slots are those of a prefix of the aliases, which dialAll may stop at. */
  lemma PoolDeliversPrefix(c: Config, s: State)
    requires Finished(c, s) && c.failFast
    ensures s.results == Delivered(c.outcomes, s.next)
    ensures StopsAt(c.outcomes, c.workers == 1, s.next)
  {
    PoolFinishes(c, s);
    if c.workers == 1 {
      SoloPoolRefinesSequential(c, s);
      forall i | 0 <= i < s.next - 1
        ensures c.outcomes[i].Up?
      {
        SequentialAt(c, 0, s.next - 1);
        assert s.results[s.next - 1] == c.SlotOf(s.next - 1);
      }
    }
  }

  /** The error of the sequential loop: that of the earliest alias whose dial fails. */
  function FirstFailure(outcomes: seq<Outcome>): Option<Error> {
    if outcomes == [] then None
    else if outcomes[0].Down? then Some(outcomes[0].err)
    else FirstFailure(outcomes[1..])
  }

  lemma {:induction false} FirstFailureIsFirst(outcomes: seq<Outcome>)
    ensures FirstFailure(outcomes).None? <==> forall i :: 0 <= i < |outcomes| ==> outcomes[i].Up?
    ensures FirstFailure(outcomes).Some? ==>
              exists i :: 0 <= i < |outcomes| && outcomes[i] == Down(FirstFailure(outcomes).value)
                          && forall j :: 0 <= j < i ==> outcomes[j].Up?
  {
    if outcomes != [] && outcomes[0].Up? {
      FirstFailureIsFirst(outcomes[1..]);
      if FirstFailure(outcomes).Some? {
        var i :| 0 <= i < |outcomes[1..]| && outcomes[1..][i] == Down(FirstFailure(outcomes).value)
                 && forall j :: 0 <= j < i ==> outcomes[1..][j].Up?;
        assert outcomes[i + 1] == Down(FirstFailure(outcomes).value);
        assert forall j :: 0 <= j < i + 1 ==> (j > 0 ==> outcomes[j] == outcomes[1..][j - 1]);
      } else {
        assert forall j :: 0 <= j < |outcomes| ==> (j > 0 ==> outcomes[j] == outcomes[1..][j - 1]);
      }
    } else if outcomes != [] {
      assert outcomes[0] == Down(FirstFailure(outcomes).value);
    }
  }

  /** Two dials of one alias end alike. It holds when the outcome is a function of the alias. */
  ghost predicate Consistent(aliases: seq<string>, outcomes: seq<Outcome>) {
    && |aliases| == |outcomes|
    && forall i, j :: 0 <= i < |aliases| && 0 <= j < |aliases| && aliases[i] == aliases[j] ==>
         outcomes[i] == outcomes[j]
  }

  /** If same aliases have same outcomes, the first alias with an entry is the first that failed. */
  lemma FirstEntryIsFirstFailure(aliases: seq<string>, outcomes: seq<Outcome>, results: seq<Slot>, f: nat)
    requires Consistent(aliases, outcomes) && |results| == |aliases|
    requires f < |outcomes| && outcomes[f].Down? && forall j :: 0 <= j < f ==> outcomes[j].Up?
    requires results[f] == Failed(outcomes[f].err)
    requires forall k :: 0 <= k < |results| && results[k].Failed? ==> outcomes[k] == Down(results[k].err)
    ensures FirstDialError(aliases, ErrsOf(aliases, results)) == Some(outcomes[f].err)
  {
    var errs := ErrsOf(aliases, results);
    ErrsAreLastFailures(aliases, results);
    FirstDialErrorIsFirst(aliases, errs);
    assert aliases[f] in errs;
    var i :| 0 <= i < |aliases| && aliases[i] in errs && FirstDialError(aliases, errs).value == errs[aliases[i]]
             && forall j :: 0 <= j < i ==> aliases[j] !in errs;
    var k :| 0 <= k < |results| && aliases[k] == aliases[i] && LastFailureOf(aliases, results, k);
    assert outcomes[i] == outcomes[k];
  }

  /** In every run under FailFast, with any number of workers, dialAll reports the earliest failing alias. */
  lemma FailFastReportsFirstFailure(c: Config, aliases: seq<string>, s: State)
    requires Finished(c, s) && c.failFast && Consistent(aliases, c.outcomes)
    ensures |s.results| == |aliases|
    ensures DialAllError(aliases, true, s.results) == FirstFailure(c.outcomes)
  {
    PoolFinishes(c, s);
    FailFastNilMeansAllDialed(c, aliases, s);
    FirstFailureIsFirst(c.outcomes);
    if FirstFailure(c.outcomes).Some? {
      var f :| 0 <= f < |c.outcomes| && c.outcomes[f] == Down(FirstFailure(c.outcomes).value)
               && forall j :: 0 <= j < f ==> c.outcomes[j].Up?;
      assert f < s.next;
      FirstEntryIsFirstFailure(aliases, c.outcomes, s.results, f);
    }
  }

  lemma OnlyFailureReported(aliases: seq<string>, results: seq<Slot>, f: nat)
    requires |results| <= |aliases| && f < |results| && results[f].Failed?
    requires forall k :: 0 <= k < |results| && results[k].Failed? ==> k == f
    ensures FirstDialError(aliases, ErrsOf(aliases, results)) == Some(results[f].err)
  {
    var errs := ErrsOf(aliases, results);
    ErrsAreLastFailures(aliases, results);
    FirstDialErrorIsFirst(aliases, errs);
    assert LastFailureOf(aliases, results, f);
    assert aliases[f] in errs;
    var i :| 0 <= i < |aliases| && aliases[i] in errs && FirstDialError(aliases, errs).value == errs[aliases[i]];
    var k :| 0 <= k < |results| && aliases[k] == aliases[i] && LastFailureOf(aliases, results, k);
  }

  /** A single worker needs no such assumption. */
  lemma SoloReportsFirstFailure(c: Config, aliases: seq<string>, s: State)
    requires Finished(c, s) && c.failFast && c.workers == 1 && |aliases| == |c.outcomes|
    ensures |s.results| == |aliases|
    ensures DialAllError(aliases, true, s.results) == FirstFailure(c.outcomes)
  {
    PoolFinishes(c, s);
    FailFastNilMeansAllDialed(c, aliases, s);
    FirstFailureIsFirst(c.outcomes);
    if FirstFailure(c.outcomes).Some? {
      var f :| 0 <= f < |c.outcomes| && c.outcomes[f] == Down(FirstFailure(c.outcomes).value)
               && forall j :: 0 <= j < f ==> c.outcomes[j].Up?;
      SoloPoolRefinesSequential(c, s);
      SequentialAt(c, 0, f);
      forall k | 0 <= k < |c.outcomes| && s.results[k].Failed?
        ensures k == f
      {
        SequentialAt(c, 0, k);
      }
      OnlyFailureReported(aliases, s.results, f);
    }
  }
}
