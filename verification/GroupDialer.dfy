/**
 groupDialer and NewSSHGroup: the jump phase, the dial phase over the worker pool, and who closes what.
 The ledger (`jumpDials`, `obtained`, `closed`) is ghost state that records every dial and every close.
 */
module GroupDialer {
  import opened Wrappers
  import opened Runs
  import opened Conns
  import opened WorkerPool
  import opened DialOutcome
  import opened FailFastExact

  /**
   Everything outside the dialer. The ssh config gives an alias's ProxyJump value; `jump(k, spec)` is the error,
   if any, of the k-th jump dial; `target(i, alias, jump)` is the outcome of dialing alias number i.
   */
  datatype Net = Net(
    proxyJump: string -> Result<string, Error>,
    jump: (nat, string) -> Option<Error>,
    target: (nat, string, Option<Conn>) -> Outcome)

  datatype GroupConfig = GroupConfig(failFast: bool, dialConcurrency: int)

  datatype Group = Group(hosts: seq<Conn>, dialErrors: map<string, Error>, sharedClosers: seq<Conn>)

  const NO_GROUP := Group([], map[], [])

  /** The jump an alias routes through, if the config names one. */
  function SpecOf(net: Net, alias: string): Option<string> {
    match net.proxyJump(alias)
    case Err(_) => None
    case Ok(spec) => if spec == "" || spec == "none" then None else Some(spec)
  }

  ghost predicate InUse(net: Net, aliases: seq<string>, spec: string) {
    exists i :: 0 <= i < |aliases| && SpecOf(net, aliases[i]) == Some(spec)
  }

  /** The distinct jump specs in the order in which the aliases first name them. */
  function SpecsInOrder(net: Net, aliases: seq<string>): seq<string> {
    if aliases == [] then []
    else
      var before := SpecsInOrder(net, aliases[..|aliases| - 1]);
      var spec := SpecOf(net, aliases[|aliases| - 1]);
      if spec.None? || spec.value in before then before else before + [spec.value]
  }

  /** Jump dial k succeeded. */
  ghost predicate JumpUp(net: Net, dials: seq<string>, k: nat) {
    k < |dials| && net.jump(k, dials[k]).None?
  }

  ghost predicate Recorded(net: Net, dials: seq<string>, clients: map<string, Conn>, errs: map<string, Error>) {
    && Distinct(dials)
    && (forall spec :: !(spec in clients && spec in errs))
    && (forall k :: 0 <= k < |dials| ==>
          if JumpUp(net, dials, k) then dials[k] in clients && clients[dials[k]] == JumpConn(k)
          else dials[k] in errs && net.jump(k, dials[k]) == Some(errs[dials[k]]))
    && (forall spec :: spec in clients || spec in errs ==> spec in dials)
  }

  /** Each successful jump dial gave one client. */
  ghost predicate JumpLedger(net: Net, dials: seq<string>, obtained: multiset<Conn>) {
    forall conn :: obtained[conn] == if conn.JumpConn? && JumpUp(net, dials, conn.i) then 1 else 0
  }

  /** jumpClients holds exactly the clients of the successful jump dials. */
  ghost predicate ClientsRecorded(net: Net, dials: seq<string>, clients: map<string, Conn>) {
    && Distinct(dials)
    && (forall k :: 0 <= k < |dials| && JumpUp(net, dials, k) ==>
          dials[k] in clients && clients[dials[k]] == JumpConn(k))
    && (forall spec :: spec in clients ==> exists k :: 0 <= k < |dials| && dials[k] == spec && JumpUp(net, dials, k))
  }

  lemma RecordedClients(net: Net, dials: seq<string>, clients: map<string, Conn>, errs: map<string, Error>)
    requires Recorded(net, dials, clients, errs)
    ensures ClientsRecorded(net, dials, clients)
  {
    forall spec | spec in clients
      ensures exists k :: 0 <= k < |dials| && dials[k] == spec && JumpUp(net, dials, k)
    {
      assert spec in dials;
      var k :| 0 <= k < |dials| && dials[k] == spec;
      assert JumpUp(net, dials, k);
    }
  }

  /** A dial that failed leaves the clients exact. */
  lemma ClientsAfterFailure(net: Net, dials: seq<string>, clients: map<string, Conn>, spec: string)
    requires ClientsRecorded(net, dials, clients) && spec !in dials && net.jump(|dials|, spec).Some?
    ensures ClientsRecorded(net, dials + [spec], clients)
  {
    NewDial(net, dials, spec);
    var dials' := dials + [spec];
    forall x | x in clients
      ensures exists k :: 0 <= k < |dials'| && dials'[k] == x && JumpUp(net, dials', k)
    {
      var k :| 0 <= k < |dials| && dials[k] == x && JumpUp(net, dials, k);
      assert dials'[k] == x && JumpUp(net, dials', k);
    }
  }

  lemma NewDial(net: Net, dials: seq<string>, spec: string)
    requires Distinct(dials) && spec !in dials
    ensures Distinct(dials + [spec])
    ensures forall k :: 0 <= k < |dials| ==>
              (dials + [spec])[k] == dials[k] != spec && JumpUp(net, dials + [spec], k) == JumpUp(net, dials, k)
    ensures forall x :: x in dials + [spec] <==> x in dials || x == spec
    ensures JumpUp(net, dials + [spec], |dials|) == net.jump(|dials|, spec).None?
  {
    forall k | 0 <= k < |dials|
      ensures dials[k] != spec
    {
      assert dials[k] in dials;
    }
    assert (dials + [spec])[|dials|] == spec;
  }

  lemma RecordClient(net: Net, dials: seq<string>, clients: map<string, Conn>, errs: map<string, Error>, spec: string)
    requires Recorded(net, dials, clients, errs) && spec !in clients && spec !in errs
    requires net.jump(|dials|, spec).None?
    ensures Recorded(net, dials + [spec], clients[spec := JumpConn(|dials|)], errs)
  {
    NewDial(net, dials, spec);
  }

  lemma RecordFailure(net: Net, dials: seq<string>, clients: map<string, Conn>, errs: map<string, Error>, spec: string)
    requires Recorded(net, dials, clients, errs) && spec !in clients && spec !in errs
    requires net.jump(|dials|, spec).Some?
    ensures Recorded(net, dials + [spec], clients, errs[spec := net.jump(|dials|, spec).value])
  {
    NewDial(net, dials, spec);
  }

  lemma LedgerJump(net: Net, dials: seq<string>, obtained: multiset<Conn>, spec: string)
    requires JumpLedger(net, dials, obtained)
    ensures JumpLedger(net, dials + [spec],
                       if net.jump(|dials|, spec).None? then obtained + multiset{JumpConn(|dials|)} else obtained)
  {
    var dials' := dials + [spec];
    assert forall k :: 0 <= k < |dials| ==> dials'[k] == dials[k] && JumpUp(net, dials', k) == JumpUp(net, dials, k);
    assert JumpUp(net, dials', |dials|) == net.jump(|dials|, spec).None?;
  }

  /** Every spec of these aliases has been dialed, in order, and recorded. */
  ghost predicate PreparedFor(net: Net, aliases: seq<string>, dials: seq<string>,
                              clients: map<string, Conn>, errs: map<string, Error>)
  {
    Recorded(net, dials, clients, errs) && dials == SpecsInOrder(net, aliases)
  }

  /** The specs dialed are exactly those some alias names, without repeats. */
  lemma {:induction false} SpecsInOrderMeans(net: Net, aliases: seq<string>)
    ensures Distinct(SpecsInOrder(net, aliases))
    ensures forall spec :: spec in SpecsInOrder(net, aliases) <==> InUse(net, aliases, spec)
  {
    if aliases != [] {
      var front, alias := aliases[..|aliases| - 1], aliases[|aliases| - 1];
      assert aliases == front + [alias];
      SpecsInOrderMeans(net, front);
      InUseExtends(net, front, alias);
      var spec := SpecOf(net, alias);
      if spec.Some? && spec.value !in SpecsInOrder(net, front) {
        NewDial(net, SpecsInOrder(net, front), spec.value);
      }
    }
  }

  lemma InUseExtends(net: Net, aliases: seq<string>, alias: string)
    ensures forall spec :: InUse(net, aliases + [alias], spec) <==>
              InUse(net, aliases, spec) || SpecOf(net, alias) == Some(spec)
  {
    var longer := aliases + [alias];
    forall spec
      ensures InUse(net, longer, spec) <==> InUse(net, aliases, spec) || SpecOf(net, alias) == Some(spec)
    {
      if InUse(net, aliases, spec) {
        var i :| 0 <= i < |aliases| && SpecOf(net, aliases[i]) == Some(spec);
        assert longer[i] == aliases[i];
      }
      if SpecOf(net, alias) == Some(spec) {
        assert longer[|aliases|] == alias;
      }
    }
  }

  lemma SpecsOneMore(net: Net, aliases: seq<string>, n: nat)
    requires n < |aliases|
    ensures var before, spec := SpecsInOrder(net, aliases[..n]), SpecOf(net, aliases[n]);
            SpecsInOrder(net, aliases[..n + 1]) ==
            if spec.None? || spec.value in before then before else before + [spec.value]
  {
    assert aliases[..n + 1][..n] == aliases[..n];
  }

  lemma {:induction false} SpecsPrefix(net: Net, aliases: seq<string>, n: nat)
    requires n <= |aliases|
    ensures SpecsInOrder(net, aliases[..n]) <= SpecsInOrder(net, aliases)
    decreases |aliases| - n
  {
    if n < |aliases| {
      SpecsOneMore(net, aliases, n);
      SpecsPrefix(net, aliases, n + 1);
    } else {
      assert aliases[..n] == aliases;
    }
  }

  lemma RecordedKeys(net: Net, dials: seq<string>, clients: map<string, Conn>, errs: map<string, Error>)
    requires Recorded(net, dials, clients, errs)
    ensures forall spec :: (spec in clients || spec in errs) <==> spec in dials
  {
    forall spec | spec in dials
      ensures spec in clients || spec in errs
    {
      var k :| 0 <= k < |dials| && dials[k] == spec;
      assert JumpUp(net, dials, k) || !JumpUp(net, dials, k);
    }
  }

  /** The first failing jump dial if the specs are dialed in this order. */
  function FirstJumpFailure(net: Net, specs: seq<string>): Option<Error> {
    if specs == [] then None
    else
      var i := |specs| - 1;
      var before := FirstJumpFailure(net, specs[..i]);
      if before.Some? then before else net.jump(i, specs[i])
  }

  /** It is the error of a dial that failed after none before it did. */
  lemma {:induction false} FirstJumpFailureIsFirst(net: Net, specs: seq<string>)
    ensures FirstJumpFailure(net, specs).None? <==> forall k :: 0 <= k < |specs| ==> JumpUp(net, specs, k)
    ensures FirstJumpFailure(net, specs).Some? ==>
              exists k :: 0 <= k < |specs| && FirstJumpFailure(net, specs) == net.jump(k, specs[k])
                          && forall j :: 0 <= j < k ==> JumpUp(net, specs, j)
  {
    if specs != [] {
      var i := |specs| - 1;
      var front := specs[..i];
      FirstJumpFailureIsFirst(net, front);
      assert forall k :: 0 <= k < i ==> front[k] == specs[k] && JumpUp(net, front, k) == JumpUp(net, specs, k);
      if FirstJumpFailure(net, front).Some? {
        var k :| 0 <= k < |front| && FirstJumpFailure(net, front) == net.jump(k, front[k])
                 && forall j :: 0 <= j < k ==> JumpUp(net, front, j);
        assert FirstJumpFailure(net, specs) == net.jump(k, specs[k]);
        assert !JumpUp(net, specs, k);
      } else {
        assert JumpUp(net, specs, i) <==> net.jump(i, specs[i]).None?;
        assert FirstJumpFailure(net, specs) == net.jump(i, specs[i]);
      }
    }
  }

  /** Stopping at the first failure reports it. */
  lemma {:induction false} FirstJumpFailureOfPrefix(net: Net, dials: seq<string>, specs: seq<string>)
    requires dials <= specs && FirstJumpFailure(net, dials).Some?
    ensures FirstJumpFailure(net, specs) == FirstJumpFailure(net, dials)
    decreases |specs|
  {
    if |dials| < |specs| {
      FirstJumpFailureOfPrefix(net, dials, specs[..|specs| - 1]);
    } else {
      assert dials == specs;
    }
  }

  /** The last dial failed, and it alone. */
  ghost predicate StoppedAtFailure(net: Net, dials: seq<string>) {
    && dials != [] && !JumpUp(net, dials, |dials| - 1)
    && forall k :: 0 <= k < |dials| - 1 ==> JumpUp(net, dials, k)
  }

  lemma StopsAtFailure(net: Net, dials: seq<string>, spec: string, specs: seq<string>)
    requires dials + [spec] <= specs && Distinct(dials) && spec !in dials
    requires FirstJumpFailure(net, dials).None? && net.jump(|dials|, spec).Some?
    ensures FirstJumpFailure(net, specs) == net.jump(|dials|, spec)
    ensures StoppedAtFailure(net, dials + [spec])
  {
    assert (dials + [spec])[..|dials|] == dials;
    FirstJumpFailureOfPrefix(net, dials + [spec], specs);
    FirstJumpFailureIsFirst(net, dials);
    NewDial(net, dials, spec);
  }

  /** The shared jump connection of an alias: Ok(None) connects directly. */
  function JumpFor(net: Net, clients: map<string, Conn>, errs: map<string, Error>, alias: string)
    : Result<Option<Conn>, Error>
  {
    match net.proxyJump(alias)
    case Err(e) => Err(e)
    case Ok(spec) =>
      if spec == "" || spec == "none" then Ok(None)
      else if spec in errs then Err(errs[spec])
      else if spec !in clients then Err(NotPrepared(spec))
      else Ok(Some(clients[spec]))
  }

  /**
   After prepareJumps the "was not prepared" branch is dead, and all aliases with one spec get the one client,
   or the one error, of the only dial of that spec.
   */
  lemma JumpForIsPrepared(net: Net, aliases: seq<string>, dials: seq<string>,
                          clients: map<string, Conn>, errs: map<string, Error>, i: nat, spec: string)
    requires PreparedFor(net, aliases, dials, clients, errs)
    requires i < |aliases| && SpecOf(net, aliases[i]) == Some(spec)
    ensures spec in clients || spec in errs
    ensures exists k :: 0 <= k < |dials| && dials[k] == spec && JumpFor(net, clients, errs, aliases[i]) ==
              if JumpUp(net, dials, k) then Ok(Some(JumpConn(k))) else Err(net.jump(k, spec).value)
  {
    SpecsInOrderMeans(net, aliases);
    assert InUse(net, aliases, spec);
    var k :| 0 <= k < |dials| && dials[k] == spec;
    assert JumpUp(net, dials, k) || !JumpUp(net, dials, k);
  }

  /** dialOne for alias number i; the jump maps do not change while the pool runs. */
  function DialOne(net: Net, clients: map<string, Conn>, errs: map<string, Error>, i: nat, alias: string): Outcome {
    match JumpFor(net, clients, errs, alias)
    case Err(e) => Down(e)
    case Ok(jump) => net.target(i, alias, jump)
  }

  function Outcomes(net: Net, aliases: seq<string>, clients: map<string, Conn>, errs: map<string, Error>)
    : seq<Outcome>
  {
    seq(|aliases|, i requires 0 <= i < |aliases| => DialOne(net, clients, errs, i, aliases[i]))
  }

  // ---- how many connections a jump host gets ----

  /** The addresses that the jump dials connect to; `addr` is ConnectAddr. */
  function Addresses(addr: string -> string, dials: seq<string>): (addrs: seq<string>)
    ensures |addrs| == |dials|
  {
    seq(|dials|, i requires 0 <= i < |dials| => addr(dials[i]))
  }

  /** No jump host is named in two ways. */
  ghost predicate OneNameEach(net: Net, aliases: seq<string>, addr: string -> string) {
    forall s, t :: InUse(net, aliases, s) && InUse(net, aliases, t) && addr(s) == addr(t) ==> s == t
  }

  /** Each jump host is dialed at most once exactly if the aliases in use name it in one way. */
  lemma OneDialPerJumpHost(net: Net, aliases: seq<string>, addr: string -> string)
    ensures Distinct(Addresses(addr, SpecsInOrder(net, aliases))) <==> OneNameEach(net, aliases, addr)
  {
    var specs := SpecsInOrder(net, aliases);
    SpecsInOrderMeans(net, aliases);
    var addrs := Addresses(addr, specs);
    if Distinct(addrs) {
      forall s, t | InUse(net, aliases, s) && InUse(net, aliases, t) && addr(s) == addr(t)
        ensures s == t
      {
        var i, j := IndexOf(specs, s), IndexOf(specs, t);
        assert addrs[i] == addrs[j];
      }
    }
    if OneNameEach(net, aliases, addr) {
      forall i, j | 0 <= i < j < |addrs|
        ensures addrs[i] != addrs[j]
      {
        assert specs[i] in specs && specs[j] in specs;
      }
    }
  }

  /** Two names of one jump host, and it is dialed twice. */
  lemma TwoNamesCounterexample(net: Net, addr: string -> string)
    requires net.proxyJump("a") == Ok("jump") && net.proxyJump("b") == Ok("jump.example.com")
    requires addr("jump") == addr("jump.example.com")
    ensures SpecsInOrder(net, ["a", "b"]) == ["jump", "jump.example.com"]
    ensures !Distinct(Addresses(addr, SpecsInOrder(net, ["a", "b"])))
  {
    var aliases := ["a", "b"];
    assert aliases[..1] == ["a"] && ["a"][..0] == [];
    assert SpecsInOrder(net, ["a"]) == ["jump"];
    var addrs := Addresses(addr, SpecsInOrder(net, aliases));
    assert addrs[0] == addrs[1];
  }

  // ---- what the network does, told without the dialer ----

  function IndexOf(specs: seq<string>, spec: string): (k: nat)
    requires spec in specs
    ensures k < |specs| && specs[k] == spec
  {
    if specs[0] == spec then 0 else 1 + IndexOf(specs[1..], spec)
  }

  /** What alias number i gets for a jump, if each spec is dialed once, in the order of first use. */
  function JumpOutcome(net: Net, aliases: seq<string>, i: nat): Result<Option<Conn>, Error>
    requires i < |aliases|
  {
    match net.proxyJump(aliases[i])
    case Err(e) => Err(e)
    case Ok(spec) =>
      if spec == "" || spec == "none" then Ok(None)
      else
        SpecsInOrderMeans(net, aliases);
        assert InUse(net, aliases, spec);
        var k := IndexOf(SpecsInOrder(net, aliases), spec);
        match net.jump(k, spec)
        case Some(e) => Err(e)
        case None => Ok(Some(JumpConn(k)))
  }

  /** How the dial of alias number i ends. */
  function NetOutcome(net: Net, aliases: seq<string>, i: nat): Outcome
    requires i < |aliases|
  {
    match JumpOutcome(net, aliases, i)
    case Err(e) => Down(e)
    case Ok(jump) => net.target(i, aliases[i], jump)
  }

  function NetOutcomes(net: Net, aliases: seq<string>): (outcomes: seq<Outcome>)
    ensures |outcomes| == |aliases|
  {
    seq(|aliases|, i requires 0 <= i < |aliases| => NetOutcome(net, aliases, i))
  }

  /**
   An alias whose ProxyJump is empty or "none" is dialed directly; one whose ProxyJump cannot be read fails; any other
   one goes through the only dial of its spec.
   */
  lemma NetOutcomeMeans(net: Net, aliases: seq<string>, i: nat)
    requires i < |aliases|
    ensures match net.proxyJump(aliases[i])
            case Err(e) => NetOutcome(net, aliases, i) == Down(e)
            case Ok(spec) =>
              if spec == "" || spec == "none" then NetOutcome(net, aliases, i) == net.target(i, aliases[i], None)
              else exists k :: 0 <= k < |SpecsInOrder(net, aliases)| && SpecsInOrder(net, aliases)[k] == spec
                     && NetOutcome(net, aliases, i) ==
                        (match net.jump(k, spec)
                         case Some(e) => Down(e)
                         case None => net.target(i, aliases[i], Some(JumpConn(k))))
  {
    SpecsInOrderMeans(net, aliases);
    match net.proxyJump(aliases[i])
    case Err(_) =>
    case Ok(spec) =>
      if spec != "" && spec != "none" {
        assert InUse(net, aliases, spec);
        var k := IndexOf(SpecsInOrder(net, aliases), spec);
      }
  }

  /** The specs that are dialed: those that some alias names, and never the empty one or "none". */
  lemma SpecsDialed(net: Net, aliases: seq<string>, spec: string)
    ensures spec in SpecsInOrder(net, aliases) <==>
            spec != "" && spec != "none" && exists i :: 0 <= i < |aliases| && net.proxyJump(aliases[i]) == Ok(spec)
  {
    SpecsInOrderMeans(net, aliases);
    if i :| 0 <= i < |aliases| && net.proxyJump(aliases[i]) == Ok(spec) && spec != "" && spec != "none" {
      assert SpecOf(net, aliases[i]) == Some(spec);
    }
    if i :| 0 <= i < |aliases| && SpecOf(net, aliases[i]) == Some(spec) {
      assert net.proxyJump(aliases[i]) == Ok(spec);
    }
  }

  /** Once the jumps are prepared, the dials end as the network says and not as the maps might. */
  lemma PreparedMeans(net: Net, aliases: seq<string>, dials: seq<string>,
                      clients: map<string, Conn>, errs: map<string, Error>)
    requires PreparedFor(net, aliases, dials, clients, errs)
    ensures Outcomes(net, aliases, clients, errs) == NetOutcomes(net, aliases)
  {
    forall i | 0 <= i < |aliases|
      ensures DialOne(net, clients, errs, i, aliases[i]) == NetOutcome(net, aliases, i)
    {
      var spec := SpecOf(net, aliases[i]);
      if spec.Some? {
        SpecsInOrderMeans(net, aliases);
        assert InUse(net, aliases, spec.value);
        var k := IndexOf(dials, spec.value);
        assert JumpUp(net, dials, k) || !JumpUp(net, dials, k);
      }
    }
  }

  /** What the sequential loop over the aliases would leave in `results`. */
  function SequentialResults(net: Net, aliases: seq<string>): seq<Slot> {
    Sequential(Config(NetOutcomes(net, aliases), 1, false), 0)
  }

  /**
   Hosts, errors and result are those of a dialAll under FailFast that stopped after some prefix of the aliases:
   nothing that was dialed is missing, and nothing else is there.
   */
  ghost predicate FromPrefix(aliases: seq<string>, outcomes: seq<Outcome>, sequential: bool,
                             hosts: seq<Conn>, dialErrs: map<string, Error>, err: Option<Error>)
    requires |aliases| == |outcomes|
  {
    exists k :: StopsAt(outcomes, sequential, k) && Leaves(aliases, Delivered(outcomes, k), hosts, dialErrs, err)
  }

  ghost predicate Leaves(aliases: seq<string>, results: seq<Slot>,
                         hosts: seq<Conn>, dialErrs: map<string, Error>, err: Option<Error>)
    requires |aliases| == |results|
  {
    hosts == HostsOf(results) && dialErrs == ErrsOf(aliases, results) && err == DialAllError(aliases, true, results)
  }

  lemma DialedFromPrefix(c: Config, aliases: seq<string>, s: State)
    requires Finished(c, s) && c.failFast && |c.outcomes| == |aliases| && |s.results| == |aliases|
    ensures FromPrefix(aliases, c.outcomes, c.workers == 1,
                       HostsOf(s.results), ErrsOf(aliases, s.results), DialAllError(aliases, true, s.results))
  {
    PoolDeliversPrefix(c, s);
    assert Leaves(aliases, Delivered(c.outcomes, s.next),
                  HostsOf(s.results), ErrsOf(aliases, s.results), DialAllError(aliases, true, s.results));
  }

  lemma NoAliasesFromPrefix(sequential: bool)
    ensures FromPrefix([], [], sequential, [], map[], None)
  {
    assert StopsAt([], sequential, 0) && Leaves([], Delivered([], 0), [], map[], None);
  }

  class GroupDialer {
    const net: Net
    const aliases: seq<string>
    const cfg: GroupConfig
    var jumpClients: map<string, Conn>
    var jumpErrs: map<string, Error>
    var hosts: seq<Conn>
    var dialErrs: map<string, Error>
    ghost var jumpDials: seq<string>
    ghost var obtained: multiset<Conn>
    ghost var closed: seq<Conn>

    constructor (net: Net, aliases: seq<string>, cfg: GroupConfig)
      ensures this.net == net && this.aliases == aliases && this.cfg == cfg
      ensures jumpClients == map[] && jumpErrs == map[] && hosts == [] && dialErrs == map[]
      ensures jumpDials == [] && obtained == multiset{} && closed == []
    {
      this.net, this.aliases, this.cfg := net, aliases, cfg;
      jumpClients, jumpErrs, hosts, dialErrs := map[], map[], [], map[];
      jumpDials, obtained, closed := [], multiset{}, [];
    }

    /** The jump maps are exactly the record of the jump dials made so far, one per spec. */
    ghost predicate JumpsRecorded()
      reads this
    {
      Recorded(net, jumpDials, jumpClients, jumpErrs)
    }

    /** Jump clients are all the dialer owns so far. */
    ghost predicate OwnsOnlyJumps()
      reads this
    {
      closed == [] && hosts == [] && dialErrs == map[] && JumpLedger(net, jumpDials, obtained)
    }

    /** What dialAll may rely on: every spec in use is prepared. */
    ghost predicate Prepared()
      reads `jumpDials, `jumpClients, `jumpErrs
    {
      PreparedFor(net, aliases, jumpDials, jumpClients, jumpErrs)
    }

    /** Dials a new spec; a failure is recorded unless FailFast is about to return it. */
    method EstablishJump(serial: nat, spec: string) returns (failure: Option<Error>)
      requires JumpsRecorded() && OwnsOnlyJumps()
      requires serial == |jumpDials| && spec !in jumpClients && spec !in jumpErrs
      modifies this`jumpClients, this`jumpErrs, this`jumpDials, this`obtained
      ensures failure == net.jump(serial, spec)
      ensures jumpDials == old(jumpDials) + [spec] && Distinct(jumpDials) && OwnsOnlyJumps()
      ensures jumpClients == if failure.Some? then old(jumpClients) else old(jumpClients)[spec := JumpConn(serial)]
      ensures jumpErrs == if failure.Some? && !cfg.failFast then old(jumpErrs)[spec := failure.value] else old(jumpErrs)
      ensures failure.None? || !cfg.failFast ==> JumpsRecorded()
      ensures ClientsRecorded(net, jumpDials, jumpClients)
    {
      failure := net.jump(serial, spec);
      LedgerJump(net, jumpDials, obtained, spec);
      NewDial(net, jumpDials, spec);
      if failure.Some? {
        RecordFailure(net, jumpDials, jumpClients, jumpErrs, spec);
        RecordedClients(net, jumpDials, jumpClients, jumpErrs);
        ClientsAfterFailure(net, jumpDials, jumpClients, spec);
        if !cfg.failFast {
          jumpErrs := jumpErrs[spec := failure.value];
        }
      } else {
        RecordClient(net, jumpDials, jumpClients, jumpErrs, spec);
        jumpClients := jumpClients[spec := JumpConn(serial)];
        obtained := obtained + multiset{JumpConn(serial)};
        RecordedClients(net, jumpDials + [spec], jumpClients, jumpErrs);
      }
      jumpDials := jumpDials + [spec];
    }

    /**
     Dials each distinct ProxyJump spec at most once, in the order of first use. With FailFast the first failing
     dial ends the phase and its error is returned; otherwise failures are recorded.
     */
    method PrepareJumps() returns (err: Option<Error>)
      requires jumpClients == map[] && jumpErrs == map[] && jumpDials == [] && obtained == multiset{}
      requires OwnsOnlyJumps()
      modifies this`jumpClients, this`jumpErrs, this`jumpDials, this`obtained
      ensures OwnsOnlyJumps() && ClientsRecorded(net, jumpDials, jumpClients)
      ensures jumpDials <= SpecsInOrder(net, aliases)
      ensures err == if cfg.failFast then FirstJumpFailure(net, SpecsInOrder(net, aliases)) else None
      ensures err.None? ==> Prepared()
      ensures err.Some? ==> StoppedAtFailure(net, jumpDials)
      ensures cfg.failFast ==> jumpErrs == map[]
    {
      var serial := 0;
      for n := 0 to |aliases|
        invariant serial == |jumpDials|
        invariant PreparedFor(net, aliases[..n], jumpDials, jumpClients, jumpErrs) && OwnsOnlyJumps()
        invariant cfg.failFast ==> jumpErrs == map[] && FirstJumpFailure(net, jumpDials).None?
      {
        RecordedKeys(net, jumpDials, jumpClients, jumpErrs);
        SpecsOneMore(net, aliases, n);
        SpecsPrefix(net, aliases, n + 1);
        var spec := SpecOf(net, aliases[n]);
        if spec.None? || spec.value in jumpClients || spec.value in jumpErrs {
          continue;
        }
        ghost var dials := jumpDials;
        var failure := EstablishJump(serial, spec.value);
        assert jumpDials == SpecsInOrder(net, aliases[..n + 1]);
        if failure.Some? && cfg.failFast {
          StopsAtFailure(net, dials, spec.value, SpecsInOrder(net, aliases));
          return failure;
        }
        assert jumpDials[..serial] == dials;
        serial := serial + 1;
      }
      assert aliases[..|aliases|] == aliases;
      RecordedClients(net, jumpDials, jumpClients, jumpErrs);
      return None;
    }

    function PoolConfig(): Config
      reads `jumpClients, `jumpErrs
    {
      Config(Outcomes(net, aliases, jumpClients, jumpErrs),
             DialConcurrency(cfg.dialConcurrency, |aliases|),
             cfg.failFast)
    }

    method Collect(results: seq<Slot>)
      requires |results| == |aliases| && dialErrs == map[]
      modifies this`hosts, this`dialErrs
      ensures hosts == HostsOf(results) && dialErrs == ErrsOf(aliases, results)
    {
      hosts := [];
      for i := 0 to |aliases|
        invariant hosts == HostsOf(results[..i]) && dialErrs == ErrsOf(aliases, results[..i])
      {
        assert results[..i + 1][..i] == results[..i];
        if results[i].Connected? {
          hosts := hosts + [results[i].conn];
        }
        if results[i].Failed? {
          dialErrs := dialErrs[aliases[i] := results[i].err];
        }
      }
      assert results[..|aliases|] == results;
    }

    method FirstError() returns (err: Option<Error>)
      ensures err == FirstDialError(aliases, dialErrs)
    {
      for i := 0 to |aliases|
        invariant FirstDialError(aliases, dialErrs) == FirstDialError(aliases[i..], dialErrs)
      {
        if aliases[i] in dialErrs {
          return Some(dialErrs[aliases[i]]);
        }
        assert aliases[i..][1..] == aliases[i + 1..];
      }
      return None;
    }

    method CombinedError() returns (err: Option<Error>)
      ensures err == AllFailedError(aliases, hosts, dialErrs)
    {
      if |hosts| > 0 || |dialErrs| == 0 {
        return None;
      }
      var errs := [];
      for i := 0 to |aliases|
        invariant errs == Causes(aliases[..i], dialErrs)
      {
        assert aliases[..i + 1][..i] == aliases[..i];
        if aliases[i] in dialErrs {
          errs := errs + [(aliases[i], dialErrs[aliases[i]])];
        }
      }
      assert aliases[..|aliases|] == aliases;
      return Some(AllFailed(errs));
    }

    /** The dialer's state after dialAll is that of some finished run of the pool. */
    ghost predicate Dialed(s: State, jumps: multiset<Conn>, err: Option<Error>)
      reads this
    {
      && Finished(PoolConfig(), s) && |s.results| == |aliases|
      && hosts == HostsOf(s.results)
      && dialErrs == ErrsOf(aliases, s.results)
      && err == DialAllError(aliases, cfg.failFast, s.results)
      && obtained == jumps + s.obtained
    }

    /** Dials every alias over the pool. */
    method DialAll() returns (err: Option<Error>)
      requires Prepared() && OwnsOnlyJumps()
      modifies this`hosts, this`dialErrs, this`obtained
      ensures |aliases| == 0 ==> err == None && hosts == [] && dialErrs == map[] && obtained == old(obtained)
      ensures |aliases| > 0 ==> exists s :: Dialed(s, old(obtained), err)
    {
      if |aliases| == 0 {
        return None;
      }
      var c := PoolConfig();
      var s := RunPool(c);
      obtained := obtained + s.obtained;
      Collect(s.results);
      err := None;
      if cfg.failFast {
        err := FirstError();
      }
      if err.None? {
        err := CombinedError();
      }
      assert Dialed(s, old(obtained), err);
    }

    /** The ledger between dialing and hand-over: the hosts, and one client per successful jump dial. */
    ghost predicate Owns()
      reads `jumpDials, `jumpClients, `hosts, `obtained
    {
      && ClientsRecorded(net, jumpDials, jumpClients)
      && multiset(hosts) <= obtained && JumpLedger(net, jumpDials, obtained - multiset(hosts))
      && (forall i :: 0 <= i < |hosts| ==> hosts[i].HostConn?)
      && (forall conn :: obtained[conn] <= 1)
    }

    /** Without FailFast everything is as the sequential loop would have it; it fails only if all aliases fail. */
    ghost predicate ReportedSequential(err: Option<Error>)
      reads `hosts, `dialErrs
    {
      var results := SequentialResults(net, aliases);
      var outcomes := NetOutcomes(net, aliases);
      && (err.None? <==> aliases == [] || exists i :: 0 <= i < |outcomes| && outcomes[i].Up?)
      && |results| == |aliases|
      && hosts == HostsOf(results) && dialErrs == ErrsOf(aliases, results)
      && err == if aliases == [] then None else DialAllError(aliases, false, results)
    }

    /**
     With FailFast: nil exactly if every jump and every alias connects. After a failed jump, that was the last dial.
     Otherwise a prefix of the aliases was dialed, the error is that of an alias that failed, and the sequential
     loop's error if that is determined.
     */
    ghost predicate ReportedFailFast(err: Option<Error>)
      reads `jumpDials, `hosts, `dialErrs
    {
      var jumpFailure := FirstJumpFailure(net, SpecsInOrder(net, aliases));
      var outcomes := NetOutcomes(net, aliases);
      && (jumpFailure.Some? ==>
            err == jumpFailure && StoppedAtFailure(net, jumpDials) && hosts == [] && dialErrs == map[])
      && (jumpFailure.None? ==>
            && FromPrefix(aliases, outcomes, DialConcurrency(cfg.dialConcurrency, |aliases|) == 1, hosts, dialErrs, err)
            && (err.None? <==> forall i :: 0 <= i < |outcomes| ==> outcomes[i].Up?)
            && (err.Some? ==> Down(err.value) in outcomes)
            && (Consistent(aliases, outcomes) || cfg.dialConcurrency < 2 ==> err == FirstFailure(outcomes)))
      && (err.None? ==> hosts == AllHosts(|aliases|) && dialErrs == map[])
    }

    /** What the two phases together tell the caller. */
    ghost predicate Reported(err: Option<Error>)
      reads `jumpDials, `jumpClients, `jumpErrs, `hosts, `dialErrs
    {
      && jumpDials <= SpecsInOrder(net, aliases)
      && (!cfg.failFast || FirstJumpFailure(net, SpecsInOrder(net, aliases)).None? ==> Prepared())
      && (if cfg.failFast then ReportedFailFast(err) else ReportedSequential(err))
    }

    /** Both phases are over: no alias at all, or a finished run of the pool. */
    ghost predicate AfterDialAll(jumps: multiset<Conn>, err: Option<Error>)
      reads this
    {
      && Prepared() && JumpLedger(net, jumpDials, jumps)
      && (cfg.failFast ==> FirstJumpFailure(net, SpecsInOrder(net, aliases)) == None)
      && (|aliases| == 0 ==> err == None && hosts == [] && dialErrs == map[] && obtained == jumps)
      && (|aliases| > 0 ==> exists s :: Dialed(s, jumps, err))
    }

    lemma OwnsAfterDialAll(jumps: multiset<Conn>, err: Option<Error>)
      requires AfterDialAll(jumps, err)
      ensures Owns()
    {
      RecordedClients(net, jumpDials, jumpClients, jumpErrs);
      if |aliases| == 0 {
        assert obtained - multiset(hosts) == jumps;
      } else {
        var s :| Dialed(s, jumps, err);
        SplitLedger(PoolConfig(), s, net, jumpDials, jumps);
        AddThenRemove(jumps, multiset(hosts));
      }
    }

    lemma ReportedAfterDialAll(jumps: multiset<Conn>, err: Option<Error>)
      requires AfterDialAll(jumps, err)
      ensures Reported(err)
    {
      PreparedMeans(net, aliases, jumpDials, jumpClients, jumpErrs);
      if |aliases| > 0 {
        var s :| Dialed(s, jumps, err);
        DialedMeans(PoolConfig(), aliases, s);
        if cfg.failFast { DialedFromPrefix(PoolConfig(), aliases, s); }
      } else {
        NoAliasesFromPrefix(DialConcurrency(cfg.dialConcurrency, |aliases|) == 1);
        assert ErrsOf(aliases, []) == map[];
      }
    }

    /** prepareJumps, then dialAll unless it failed. */
    method Connect() returns (err: Option<Error>)
      requires jumpClients == map[] && jumpErrs == map[] && jumpDials == [] && obtained == multiset{}
      requires OwnsOnlyJumps()
      modifies this`jumpClients, this`jumpErrs, this`jumpDials, this`obtained, this`hosts, this`dialErrs
      ensures Owns() && Reported(err)
    {
      err := PrepareJumps();
      if err.Some? {
        assert obtained - multiset(hosts) == obtained;
        return;
      }
      ghost var jumps := obtained;
      err := DialAll();
      OwnsAfterDialAll(jumps, err);
      ReportedAfterDialAll(jumps, err);
    }

    /** The jump clients in the arbitrary order of a map range, each once. */
    method RangeJumpClients() returns (clients: seq<Conn>)
      requires ClientsRecorded(net, jumpDials, jumpClients)
      ensures JumpLedger(net, jumpDials, multiset(clients))
    {
      clients := [];
      var todo := jumpClients.Keys;
      while todo != {}
        invariant todo <= jumpClients.Keys
        invariant forall conn :: multiset(clients)[conn] ==
                    if conn.JumpConn? && JumpUp(net, jumpDials, conn.i) && jumpDials[conn.i] !in todo then 1 else 0
        decreases todo
      {
        var spec :| spec in todo;
        ghost var k :| 0 <= k < |jumpDials| && jumpDials[k] == spec && JumpUp(net, jumpDials, k);
        ghost var before := clients;
        clients := clients + [jumpClients[spec]];
        todo := todo - {spec};
        forall conn
          ensures multiset(clients)[conn] ==
                  if conn.JumpConn? && JumpUp(net, jumpDials, conn.i) && jumpDials[conn.i] !in todo then 1 else 0
        {
          assert multiset(clients)[conn] == multiset(before)[conn] + if conn == JumpConn(k) then 1 else 0;
        }
      }
    }

    /** Hands the hosts and the jump clients over to the Group: all that was obtained. */
    method MakeGroup() returns (group: Group)
      requires Owns()
      ensures group.hosts == hosts && group.dialErrors == dialErrs
      ensures OwnedInOrder(hosts, group.sharedClosers, obtained)
    {
      var closers := RangeJumpClients();
      Arrange(net, jumpDials, obtained, hosts, closers);
      group := Group(hosts, dialErrs, closers);
    }

    /** Closes everything the dialer owns, hosts first; does nothing when there is no error. */
    method CloseOnError(err: Option<Error>)
      requires Owns() && closed == []
      modifies this`closed
      ensures err.None? ==> closed == []
      ensures err.Some? ==> exists clients :: closed == hosts + clients && OwnedInOrder(hosts, clients, obtained)
    {
      if err.None? {
        return;
      }
      for i := 0 to |hosts|
        invariant closed == hosts[..i]
      {
        closed := closed + [hosts[i]];
      }
      var clients := RangeJumpClients();
      for i := 0 to |clients|
        invariant closed == hosts + clients[..i]
      {
        closed := closed + [clients[i]];
      }
      assert clients[..|clients|] == clients;
      Arrange(net, jumpDials, obtained, hosts, clients);
    }
  }

  ghost predicate HostsThenJumps(conns: seq<Conn>, h: nat) {
    h <= |conns| && forall i :: 0 <= i < |conns| ==> (conns[i].HostConn? <==> i < h)
  }

  /** The hosts and then the jump clients are exactly what was obtained. */
  ghost predicate OwnedInOrder(hosts: seq<Conn>, clients: seq<Conn>, obtained: multiset<Conn>) {
    multiset(hosts + clients) == obtained && HostsThenJumps(hosts + clients, |hosts|)
  }

  lemma JumpsAreJumps(net: Net, dials: seq<string>, conns: seq<Conn>)
    requires JumpLedger(net, dials, multiset(conns))
    ensures forall i :: 0 <= i < |conns| ==> conns[i].JumpConn?
  {
    forall i | 0 <= i < |conns|
      ensures conns[i].JumpConn?
    {
      assert conns[i] in multiset(conns);
    }
  }

  function AllHosts(n: nat): seq<Conn> { seq(n, (i: nat) => HostConn(i)) }

  /** Every connection is obtained once; hosts come from the pool, the rest from the jump phase. */
  lemma SplitLedger(c: Config, s: State, net: Net, dials: seq<string>, jumps: multiset<Conn>)
    requires Finished(c, s) && JumpLedger(net, dials, jumps)
    ensures multiset(HostsOf(s.results)) == s.obtained
    ensures forall conn :: (jumps + s.obtained)[conn] <= 1
    ensures forall i :: 0 <= i < |HostsOf(s.results)| ==> HostsOf(s.results)[i].HostConn?
  {
    InvIsInductive(c);
    InvariantReachable(Pool(c), s => Inv(c, s), s);
    HostsAreTheLedger(c, s);
    var hosts := HostsOf(s.results);
    forall i | 0 <= i < |hosts|
      ensures hosts[i].HostConn?
    {
      assert hosts[i] in multiset(hosts);
    }
  }

  lemma AddThenRemove(a: multiset<Conn>, b: multiset<Conn>)
    ensures b <= a + b && (a + b) - b == a
  {}

  lemma SameLedger(net: Net, dials: seq<string>, a: multiset<Conn>, b: multiset<Conn>)
    requires JumpLedger(net, dials, a) && JumpLedger(net, dials, b)
    ensures a == b
  {
    forall conn
      ensures a[conn] == b[conn]
    {}
  }

  lemma Arrange(net: Net, dials: seq<string>, obtained: multiset<Conn>, hosts: seq<Conn>, clients: seq<Conn>)
    requires multiset(hosts) <= obtained && JumpLedger(net, dials, obtained - multiset(hosts))
    requires JumpLedger(net, dials, multiset(clients))
    requires forall i :: 0 <= i < |hosts| ==> hosts[i].HostConn?
    ensures OwnedInOrder(hosts, clients, obtained)
  {
    SameLedger(net, dials, multiset(clients), obtained - multiset(hosts));
    JumpsAreJumps(net, dials, clients);
  }

  /** What dialAll's results tell, for each of the two modes. */
  lemma DialedMeans(c: Config, aliases: seq<string>, s: State)
    requires Finished(c, s) && |c.outcomes| == |aliases| && |s.results| == |aliases|
    ensures !c.failFast ==> s.results == Sequential(Config(c.outcomes, 1, false), 0)
    ensures !c.failFast ==>
              (DialAllError(aliases, false, s.results).None? <==>
               exists i :: 0 <= i < |c.outcomes| && c.outcomes[i].Up?)
    ensures c.failFast ==>
              (DialAllError(aliases, true, s.results).None? <==>
               forall i :: 0 <= i < |c.outcomes| ==> c.outcomes[i].Up?)
    ensures c.failFast && DialAllError(aliases, true, s.results).None? ==>
              HostsOf(s.results) == AllHosts(|aliases|) && ErrsOf(aliases, s.results) == map[]
    ensures c.failFast && DialAllError(aliases, true, s.results).Some? ==>
              Down(DialAllError(aliases, true, s.results).value) in c.outcomes
    ensures c.failFast && (Consistent(aliases, c.outcomes) || c.workers == 1) ==>
              DialAllError(aliases, true, s.results) == FirstFailure(c.outcomes)
  {
    if c.failFast {
      FailFastErrorIsAFailure(c, aliases, s);
      FailFastNilMeansAllDialed(c, aliases, s);
      if c.workers == 1 {
        SoloReportsFirstFailure(c, aliases, s);
      } else if Consistent(aliases, c.outcomes) {
        FailFastReportsFirstFailure(c, aliases, s);
      }
    } else {
      KeepGoingOutcome(c, aliases, s);
      SequentialIgnoresWorkers(c, 0);
    }
  }

  lemma {:induction false} SequentialIgnoresWorkers(c: Config, i: nat)
    requires i <= |c.outcomes|
    ensures Sequential(c, i) == Sequential(c.(workers := 1), i)
    decreases |c.outcomes| - i
  {
    if i < |c.outcomes| { SequentialIgnoresWorkers(c, i + 1); }
  }

  /**
   NewSSHGroup from the parsed config on. On an error every connection obtained has been closed exactly once,
   hosts before jump clients, and none is returned; on success none is closed and the group owns exactly all.
   */
  method NewSSHGroup(net: Net, aliases: seq<string>, cfg: GroupConfig)
    returns (group: Group, err: Option<Error>, d: GroupDialer)
    ensures fresh(d) && d.net == net && d.aliases == aliases && d.cfg == cfg
    ensures d.Owns() && d.Reported(err)
    ensures err.Some? ==>
              && group.hosts == [] && group.dialErrors == map[] && group.sharedClosers == []
              && exists clients :: d.closed == d.hosts + clients && OwnedInOrder(d.hosts, clients, d.obtained)
    ensures err.None? ==>
              && d.closed == [] && OwnedInOrder(group.hosts, group.sharedClosers, d.obtained)
              && group.hosts == d.hosts && group.dialErrors == d.dialErrs
  {
    group := NO_GROUP;
    d := new GroupDialer(net, aliases, cfg);
    err := d.Connect();
    if err.None? {
      group := d.MakeGroup();
    }
    d.CloseOnError(err);
  }
}
