/** splitHostSpec, hostAliases and ParseHosts. */
module HostSpec {
  import opened Wrappers
  import opened Text
  import opened Decimal
  import opened HostRange
  import opened Selections

  datatype ParseError = BadRange | BadConfig | BadPattern

  /** What a call yields: aliases, an error, or nothing because a range ends at MaxInt. */
  datatype Outcome = Hosts(aliases: seq<string>) | Failed(err: ParseError) | Hangs {

    /** Continue with the outcome of the rest unless this one already ended the call. */
    function Then(rest: Outcome): Outcome {
      if !Hosts? then this
      else if !rest.Hosts? then rest
      else Hosts(aliases + rest.aliases)
    }
  }

  /**
   The file system and the libraries: the Host patterns per stanza, or None if the config cannot be found or
   parsed; and filepath.Match, None for a malformed pattern.
   */
  datatype Env = Env(config: Option<seq<seq<string>>>, glob: (string, string) -> Option<bool>)

  /** Outcomes one after the other: aliases are appended until one of them ends the call. */
  function InSequence(outs: seq<Outcome>): Outcome {
    if outs == [] then Hosts([]) else InSequence(outs[..|outs| - 1]).Then(outs[|outs| - 1])
  }

  lemma {:induction false} InSequenceConcat(a: seq<Outcome>, b: seq<Outcome>)
    ensures InSequence(a + b) == InSequence(a).Then(InSequence(b))
  {
    if b == [] {
      assert a + b == a;
    } else {
      var front, last := b[..|b| - 1], b[|b| - 1];
      assert (a + b)[..|a + b| - 1] == a + front;
      InSequenceConcat(a, front);
      ThenIsAssociative(InSequence(a), InSequence(front), last);
    }
  }

  /** One step of a loop over outcomes. */
  lemma InSequenceAt(outs: seq<Outcome>, i: nat)
    requires i < |outs|
    ensures InSequence(outs[..i + 1]) == InSequence(outs[..i]).Then(outs[i])
  {
    assert outs[..i + 1][..i] == outs[..i];
  }

  /** What ends the call is what the call ends with. */
  lemma {:induction false} InSequenceStops(outs: seq<Outcome>, i: nat, k: nat)
    requires i <= k <= |outs| && !InSequence(outs[..i]).Hosts?
    ensures InSequence(outs[..k]) == InSequence(outs[..i])
    decreases k
  {
    if i < k {
      InSequenceStops(outs, i, k - 1);
      InSequenceAt(outs, k - 1);
    }
  }

  lemma ThenIsAssociative(x: Outcome, y: Outcome, z: Outcome)
    ensures x.Then(y).Then(z) == x.Then(y.Then(z))
  {
    if x.Hosts? && y.Hosts? && z.Hosts? {
      assert x.aliases + y.aliases + z.aliases == x.aliases + (y.aliases + z.aliases);
    }
  }

  /** The outcome of each item. */
  function Each(items: seq<string>, f: string -> Outcome): (outs: seq<Outcome>)
    ensures |outs| == |items|
  {
    seq(|items|, i requires 0 <= i < |items| => f(items[i]))
  }

  lemma EachConcat(a: seq<string>, b: seq<string>, f: string -> Outcome)
    ensures Each(a + b, f) == Each(a, f) + Each(b, f)
  {}

  // ---- splitHostSpec ----

  function Tokens(spec: string): seq<string> { Clean(Split(Trim(spec), IsComma)) }

  lemma CleanOneMore(parts: seq<string>, i: nat)
    requires i < |parts|
    ensures Clean(parts[..i + 1]) == Clean(parts[..i]) + if Trim(parts[i]) == "" then [] else [Trim(parts[i])]
  {
    CleanConcat(parts[..i], [parts[i]]);
    assert parts[..i + 1] == parts[..i] + [parts[i]];
  }

  method SplitHostSpec(spec: string) returns (out: seq<string>)
    ensures out == Tokens(spec)
    ensures forall k :: 0 <= k < |out| ==> IsToken(out[k])
  {
    var parts := Split(Trim(spec), IsComma);
    out := [];
    for i := 0 to |parts|
      invariant out == Clean(parts[..i])
    {
      CleanOneMore(parts, i);
      var p := Trim(parts[i]);
      if p != "" {
        out := out + [p];
      }
    }
    assert parts[..|parts|] == parts;
    PartsAreFree(Trim(spec), IsComma);
    CleanGivesTokens(parts);
  }

  /** What a part of the spec contributes. */
  function TokenOf(part: string): Option<string> { if Trim(part) == "" then None else Some(Trim(part)) }

  lemma CleanOne(part: string)
    ensures Clean([part]) == if TokenOf(part).Some? then [TokenOf(part).value] else []
  {
    assert [part][1..] == [];
  }

  lemma {:induction false} CleanIsPick(parts: seq<string>)
    ensures Clean(parts) == Pick(parts, TokenOf)
  {
    if parts != [] {
      var front, last := parts[..|parts| - 1], parts[|parts| - 1];
      CleanIsPick(front);
      CleanOne(last);
      CleanConcat(front, [last]);
      assert parts == front + [last];
    }
  }

  /** The tokens are the trimmed parts between the commas, in order, without those that are nothing but white space. */
  lemma TokensAreTheParts(spec: string)
    ensures IsSelection(Split(spec, IsComma), TokenOf, Tokens(spec))
  {
    CleanIgnoresTrim(spec);
    CleanIsPick(Split(spec, IsComma));
    PickIsSelection(Split(spec, IsComma), TokenOf);
  }

  /** Such a token is non-empty, has no comma, and no white space at its ends. */
  lemma IsTokenMeans(t: string)
    ensures IsToken(t) <==>
            t != "" && !IsSpace(t[0]) && !IsSpace(t[|t| - 1]) && forall i :: 0 <= i < |t| ==> t[i] != ','
  {
    TrimmedMeans(t);
  }

  lemma {:induction false} TokensOfNames(names: seq<string>)
    requires names != [] && forall k :: 0 <= k < |names| ==> IsToken(names[k])
    ensures Tokens(JoinComma(names)) == names
  {
    CleanIgnoresTrim(JoinComma(names));
    SplitJoin(names);
    CleanKeepsTokens(names);
  }

  /** Splitting is a homomorphism from comma-joined specs to lists of tokens. */
  lemma TokensOfJoin(a: string, b: string)
    ensures Tokens(a + "," + b) == Tokens(a) + Tokens(b)
  {
    CleanIgnoresTrim(a + "," + b);
    CleanIgnoresTrim(a);
    CleanIgnoresTrim(b);
    SplitConcat(a, ',', b, IsComma);
    assert a + [','] + b == a + "," + b;
    CleanConcat(Split(a, IsComma), Split(b, IsComma));
  }

  /** Tokens joined by commas split into the same tokens again. */
  lemma TokensRoundTrip(spec: string)
    ensures Tokens(JoinComma(Tokens(spec))) == Tokens(spec)
  {
    var tokens := Tokens(spec);
    PartsAreFree(Trim(spec), IsComma);
    CleanGivesTokens(Split(Trim(spec), IsComma));
    CleanIgnoresTrim(JoinComma(tokens));
    if tokens == [] {
      SplitFree("", IsComma);
    } else {
      SplitJoin(tokens);
      CleanKeepsTokens(tokens);
    }
  }

  // ---- hostAliases ----

  function Flatten(stanzas: seq<seq<string>>): seq<string> {
    if stanzas == [] then [] else Flatten(stanzas[..|stanzas| - 1]) + stanzas[|stanzas| - 1]
  }

  predicate IsWildcard(alias: string) { Contains(alias, "*?![]") }

  /** A non-wildcard alias is returned if the pattern matches it; a pattern the matcher rejects is an error. */
  function MatchOne(alias: string, pattern: string, env: Env): Outcome {
    if IsWildcard(alias) then Hosts([])
    else
      match env.glob(pattern, alias)
      case None => Failed(BadPattern)
      case Some(matched) => Hosts(if matched then [alias] else [])
  }

  function Matcher(pattern: string, env: Env): string -> Outcome {
    alias => MatchOne(alias, pattern, env)
  }

  /** The aliases of all stanzas in config order. */
  function Matching(stanzas: seq<seq<string>>, pattern: string, env: Env): Outcome {
    InSequence(Each(Flatten(stanzas), Matcher(pattern, env)))
  }

  lemma {:induction false} FlattenAt(stanzas: seq<seq<string>>, i: nat)
    requires i < |stanzas|
    ensures Flatten(stanzas[..i + 1]) == Flatten(stanzas[..i]) + stanzas[i]
    ensures Flatten(stanzas[..i + 1]) <= Flatten(stanzas)
    decreases |stanzas|
  {
    assert stanzas[..i + 1][..i] == stanzas[..i];
    if i + 1 < |stanzas| {
      var front := stanzas[..|stanzas| - 1];
      FlattenAt(front, i);
      assert front[..i + 1] == stanzas[..i + 1];
    } else {
      assert stanzas[..i + 1] == stanzas;
    }
  }

  lemma MatchingAt(stanzas: seq<seq<string>>, i: nat, pattern: string, env: Env)
    requires i < |stanzas|
    ensures var here := InSequence(Each(stanzas[i], Matcher(pattern, env)));
            && Matching(stanzas[..i + 1], pattern, env) == Matching(stanzas[..i], pattern, env).Then(here)
            && (Matching(stanzas[..i], pattern, env).Hosts? && !here.Hosts? ==> Matching(stanzas, pattern, env) == here)
  {
    FlattenAt(stanzas, i);
    var f := Matcher(pattern, env);
    var a, b := Flatten(stanzas[..i]), stanzas[i];
    var c := Flatten(stanzas)[|a + b|..];
    EachConcat(a, b, f);
    InSequenceConcat(Each(a, f), Each(b, f));
    assert Flatten(stanzas) == (a + b) + c;
    EachConcat(a + b, c, f);
    InSequenceConcat(Each(a + b, f), Each(c, f));
  }

  /** The inner loop of hostAliases: the patterns of one stanza. */
  method StanzaAliases(patterns: seq<string>, pattern: string, env: Env) returns (r: Outcome)
    ensures r == InSequence(Each(patterns, Matcher(pattern, env)))
  {
    ghost var outs := Each(patterns, Matcher(pattern, env));
    var hosts: seq<string> := [];
    for j := 0 to |patterns|
      invariant InSequence(outs[..j]) == Hosts(hosts)
    {
      InSequenceAt(outs, j);
      var alias := patterns[j];
      if !IsWildcard(alias) {
        var matched := env.glob(pattern, alias);
        if matched.None? {
          InSequenceStops(outs, j + 1, |outs|);
          assert outs[..|outs|] == outs;
          return Failed(BadPattern);
        }
        if matched.value {
          hosts := hosts + [alias];
        }
      }
    }
    assert outs[..|outs|] == outs;
    return Hosts(hosts);
  }

  method HostAliases(stanzas: seq<seq<string>>, pattern: string, env: Env) returns (r: Outcome)
    ensures r == Matching(stanzas, pattern, env)
  {
    r := Hosts([]);
    for i := 0 to |stanzas|
      invariant r.Hosts? && Matching(stanzas[..i], pattern, env) == r
    {
      MatchingAt(stanzas, i, pattern, env);
      var here := StanzaAliases(stanzas[i], pattern, env);
      if !here.Hosts? {
        return here;
      }
      r := Hosts(r.aliases + here.aliases);
    }
    assert stanzas[..|stanzas|] == stanzas;
  }

  /** A sequence goes through exactly if each step does; otherwise it ends with the first step that does not. */
  lemma {:induction false} InSequenceMeans(outs: seq<Outcome>)
    ensures InSequence(outs).Hosts? <==> forall k :: 0 <= k < |outs| ==> outs[k].Hosts?
    ensures !InSequence(outs).Hosts? ==>
              exists k :: 0 <= k < |outs| && InSequence(outs) == outs[k] && forall j :: 0 <= j < k ==> outs[j].Hosts?
    ensures InSequence(outs).Hosts? ==>
              forall x :: x in InSequence(outs).aliases <==> exists k :: 0 <= k < |outs| && x in outs[k].aliases
  {
    if outs != [] {
      var n := |outs| - 1;
      var front := outs[..n];
      InSequenceMeans(front);
      assert forall k :: 0 <= k < n ==> front[k] == outs[k];
      if !InSequence(front).Hosts? {
        var k :| 0 <= k < |front| && InSequence(front) == front[k] && forall j :: 0 <= j < k ==> front[j].Hosts?;
        assert InSequence(outs) == outs[k];
      } else if !outs[n].Hosts? {
        assert InSequence(outs) == outs[n];
      } else {
        forall x
          ensures x in InSequence(outs).aliases <==> exists k :: 0 <= k < |outs| && x in outs[k].aliases
        {
          if k :| 0 <= k < |front| && x in front[k].aliases {
            assert x in outs[k].aliases;
          }
          if x in outs[n].aliases {
            assert 0 <= n < |outs| && x in outs[n].aliases;
          }
        }
      }
    }
  }

  lemma WildcardMeans(alias: string)
    ensures IsWildcard(alias) <==>
            exists i :: 0 <= i < |alias| &&
              (alias[i] == '*' || alias[i] == '?' || alias[i] == '!' || alias[i] == '[' || alias[i] == ']')
  {}

  lemma {:induction false} FlattenConcat(a: seq<seq<string>>, b: seq<seq<string>>)
    ensures Flatten(a + b) == Flatten(a) + Flatten(b)
  {
    if b == [] {
      assert a + b == a;
    } else {
      FlattenConcat(a, b[..|b| - 1]);
      assert (a + b)[..|a + b| - 1] == a + b[..|b| - 1];
    }
  }

  /** An alias that a glob stands for. */
  function Matched(pattern: string, env: Env): string -> Option<string> {
    alias => if !IsWildcard(alias) && env.glob(pattern, alias) == Some(true) then Some(alias) else None
  }

  lemma {:induction false} InSequenceIsPick(aliases: seq<string>, pattern: string, env: Env)
    ensures var r := InSequence(Each(aliases, Matcher(pattern, env)));
            r.Hosts? ==> r.aliases == Pick(aliases, Matched(pattern, env))
  {
    if aliases != [] {
      var front, last := aliases[..|aliases| - 1], aliases[|aliases| - 1];
      var f := Matcher(pattern, env);
      InSequenceIsPick(front, pattern, env);
      assert Each(aliases, f)[..|front|] == Each(front, f);
      assert Each(aliases, f)[|front|] == MatchOne(last, pattern, env);
    }
  }

  /** The aliases returned are exactly the matching ones, in config order, repeats included. */
  lemma MatchingSelects(stanzas: seq<seq<string>>, pattern: string, env: Env)
    requires Matching(stanzas, pattern, env).Hosts?
    ensures IsSelection(Flatten(stanzas), Matched(pattern, env), Matching(stanzas, pattern, env).aliases)
  {
    InSequenceIsPick(Flatten(stanzas), pattern, env);
    PickIsSelection(Flatten(stanzas), Matched(pattern, env));
  }

  /** hostAliases succeeds if the matcher takes the pattern for every alias it is asked about. */
  lemma MatchingMeans(stanzas: seq<seq<string>>, pattern: string, env: Env)
    ensures Matching(stanzas, pattern, env).Hosts? <==>
            forall k :: 0 <= k < |Flatten(stanzas)| && !IsWildcard(Flatten(stanzas)[k]) ==>
              env.glob(pattern, Flatten(stanzas)[k]).Some?
    ensures Matching(stanzas, pattern, env).Hosts? ==>
              forall x :: x in Matching(stanzas, pattern, env).aliases <==>
                x in Flatten(stanzas) && !IsWildcard(x) && env.glob(pattern, x) == Some(true)
    ensures !Matching(stanzas, pattern, env).Hosts? ==> Matching(stanzas, pattern, env) == Failed(BadPattern)
  {
    var all := Flatten(stanzas);
    var outs := Each(all, Matcher(pattern, env));
    InSequenceMeans(outs);
    forall k | 0 <= k < |all|
      ensures outs[k].Hosts? <==> !IsWildcard(all[k]) ==> env.glob(pattern, all[k]).Some?
    {
      assert outs[k] == MatchOne(all[k], pattern, env);
    }
    if Matching(stanzas, pattern, env).Hosts? {
      forall x
        ensures x in InSequence(outs).aliases <==> x in all && !IsWildcard(x) && env.glob(pattern, x) == Some(true)
      {
        if x in all && !IsWildcard(x) && env.glob(pattern, x) == Some(true) {
          var k :| 0 <= k < |all| && all[k] == x;
          assert x in outs[k].aliases;
        }
      }
    } else {
      var k :| 0 <= k < |outs| && !outs[k].Hosts? && InSequence(outs) == outs[k];
      assert !IsWildcard(Flatten(stanzas)[k]) && env.glob(pattern, Flatten(stanzas)[k]).None?;
    }
  }

  // ---- ParseHosts ----

  predicate IsGlob(token: string) { HostRangeRE(token).None? && Contains(token, "*?[") }

  /** What one token stands for. */
  function Resolve(token: string, env: Env): Outcome {
    match HostRangeRE(token)
    case Some(m) => Expanded(m)
    case None =>
      if !Contains(token, "*?[") then Hosts([token])
      else
        match env.config
        case None => Failed(BadConfig)
        case Some(stanzas) => Matching(stanzas, token, env)
  }

  function Expanded(m: Match): Outcome
    requires AllDigits(m.lo) && AllDigits(m.hi)
  {
    if !Accepted(m) then Failed(BadRange)
    else if Value(m.hi) == MAX_INT then Hangs
    else Hosts(RangeAliases(m))
  }

  function RangeAliases(m: Match): seq<string>
    requires AllDigits(m.lo) && AllDigits(m.hi) && Accepted(m)
  {
    seq(Value(m.hi) - Value(m.lo) + 1, (k: nat) => AliasOf(m, Value(m.lo) + k))
  }

  function Resolver(env: Env): string -> Outcome {
    token => Resolve(token, env)
  }

  /** What each token stands for. */
  function ResolveEach(tokens: seq<string>, env: Env): seq<Outcome> { Each(tokens, Resolver(env)) }

  function Parse(spec: string, env: Env): Outcome { InSequence(ResolveEach(Tokens(spec), env)) }

  /** A glob comes up before anything ends the call. */
  ghost predicate Reaches(globs: seq<bool>, outs: seq<Outcome>)
    requires |globs| == |outs|
  {
    exists i :: 0 <= i < |globs| && globs[i] && InSequence(outs[..i]).Hosts?
  }

  function GlobTokens(tokens: seq<string>): seq<bool> {
    seq(|tokens|, i requires 0 <= i < |tokens| => IsGlob(tokens[i]))
  }

  /** ParseHosts has got past i tokens: r is the outcome so far, and the config is loaded iff a glob came up. */
  ghost predicate Past(globs: seq<bool>, outs: seq<Outcome>, i: nat, r: Outcome, loaded: bool)
    requires |globs| == |outs|
  {
    && i <= |outs| && r.Hosts? && InSequence(outs[..i]) == r
    && (loaded ==> Reaches(globs, outs))
    && (!loaded ==> forall k :: 0 <= k < i ==> !globs[k])
  }

  lemma PastOneMore(globs: seq<bool>, outs: seq<Outcome>, i: nat, r: Outcome, loaded: bool)
    requires |globs| == |outs| && i < |outs| && Past(globs, outs, i, r, loaded)
    ensures r.Then(outs[i]).Hosts? ==> Past(globs, outs, i + 1, r.Then(outs[i]), loaded || globs[i])
    ensures !r.Then(outs[i]).Hosts? ==>
              InSequence(outs) == r.Then(outs[i]) && (Reaches(globs, outs) <==> loaded || globs[i])
  {
    InSequenceAt(outs, i);
    if !r.Then(outs[i]).Hosts? {
      forall k | i < k <= |outs|
        ensures InSequence(outs[..k]) == outs[i]
      {
        InSequenceStops(outs, i + 1, k);
      }
      assert outs[..|outs|] == outs;
    }
  }

  method ParseRange(m: Match) returns (r: Outcome)
    requires Reads(m.Token(), m)
    ensures r == Expanded(m)
  {
    var expanded := ExpandHostToken(m);
    match expanded {
      case Malformed => r := Failed(BadRange);
      case NoReturn => r := Hangs;
      case Aliases(aliases) =>
        assert aliases == RangeAliases(m);
        r := Hosts(aliases);
    }
  }

  /** The body of ParseHosts' loop; `config` is what has been loaded so far. */
  method ParseToken(token: string, env: Env, config: Option<seq<seq<string>>>, loads: nat)
    returns (r: Outcome, config': Option<seq<seq<string>>>, loads': nat)
    requires config.Some? ==> config == env.config
    ensures r == Resolve(token, env)
    ensures loads' == if IsGlob(token) && config.None? then loads + 1 else loads
    ensures config' == if IsGlob(token) then env.config else config
  {
    config', loads' := config, loads;
    var m := HostRangeRE(token);
    if m.Some? {
      r := ParseRange(m.value);
    } else if Contains(token, "*?[") {
      if config.None? {
        loads' := loads + 1;
        config' := env.config;
        if config'.None? {
          return Failed(BadConfig), config', loads';
        }
      }
      r := HostAliases(config'.value, token, env);
    } else {
      r := Hosts([token]);
    }
  }

  /** `loads` counts how often the config file is read: at most once, and only when a glob token is reached. */
  method ParseHosts(spec: string, env: Env) returns (r: Outcome, loads: nat)
    ensures r == Parse(spec, env)
    ensures loads == if Reaches(GlobTokens(Tokens(spec)), ResolveEach(Tokens(spec), env)) then 1 else 0
  {
    var tokens := SplitHostSpec(spec);
    ghost var globs, outs := GlobTokens(tokens), ResolveEach(tokens, env);
    r, loads := Hosts([]), 0;
    var config: Option<seq<seq<string>>> := None;
    for i := 0 to |tokens|
      invariant Past(globs, outs, i, r, config.Some?)
      invariant loads == if config.Some? then 1 else 0
      invariant config.Some? ==> config == env.config
    {
      PastOneMore(globs, outs, i, r, config.Some?);
      var next;
      next, config, loads := ParseToken(tokens[i], env, config, loads);
      r := r.Then(next);
      if !r.Hosts? {
        return;
      }
    }
    assert outs[..|outs|] == outs;
  }

  /**
   ParseHosts is a homomorphism: a comma-joined spec yields the aliases of the parts one after the other, and the
   error of the first part that has one.
   */
  lemma ParseIsHomomorphic(a: string, b: string, env: Env)
    ensures Parse(a + "," + b, env) ==
            match Parse(a, env)
            case Hosts(x) =>
              (match Parse(b, env)
               case Hosts(y) => Hosts(x + y)
               case failed => failed)
            case failed => failed
  {
    TokensOfJoin(a, b);
    var left, right := ResolveEach(Tokens(a), env), ResolveEach(Tokens(b), env);
    EachConcat(Tokens(a), Tokens(b), Resolver(env));
    InSequenceConcat(left, right);
  }

  // ---- what single tokens stand for ----

  lemma ParseOne(token: string, env: Env)
    requires IsToken(token)
    ensures Parse(token, env) == Resolve(token, env)
  {
    TokensOfNames([token]);
    assert JoinComma([token]) == token;
    var r := Resolve(token, env);
    assert ResolveEach([token], env) == [r];
    InSequenceAt([r], 0);
    assert [r][..1] == [r] && [r][..0] == [];
    assert r.Hosts? ==> [] + r.aliases == r.aliases;
  }

  /** A token without any of the characters *, ? and [ is a literal alias. */
  ghost predicate IsLiteral(token: string) {
    forall i :: 0 <= i < |token| ==> token[i] != '*' && token[i] != '?' && token[i] != '['
  }

  lemma LiteralResolves(token: string, env: Env)
    requires IsLiteral(token)
    ensures Resolve(token, env) == Hosts([token])
  {
    if HostRangeRE(token).Some? {
      ReadingIsMatchAt(token, HostRangeRE(token).value);
    }
  }

  lemma {:induction false} LiteralsResolve(names: seq<string>, env: Env)
    requires forall k :: 0 <= k < |names| ==> IsLiteral(names[k])
    ensures InSequence(ResolveEach(names, env)) == Hosts(names)
  {
    if names != [] {
      var front, last := names[..|names| - 1], names[|names| - 1];
      LiteralsResolve(front, env);
      LiteralResolves(last, env);
      assert ResolveEach(names, env)[..|front|] == ResolveEach(front, env);
      assert ResolveEach(names, env)[|front|] == Resolve(last, env);
      assert front + [last] == names;
    }
  }

  /** Literal names come back verbatim and in order. */
  lemma LiteralNames(names: seq<string>, env: Env)
    requires names != [] && forall k :: 0 <= k < |names| ==> IsToken(names[k]) && IsLiteral(names[k])
    ensures Parse(JoinComma(names), env) == Hosts(names)
  {
    TokensOfNames(names);
    LiteralsResolve(names, env);
  }

  ghost predicate NoBrackets(s: string) {
    forall i :: 0 <= i < |s| ==> s[i] != '[' && s[i] != ']'
  }

  /**
   A range token stands for an error if the bounds are reversed or too large, for nothing at all if hi is the largest
   int, and otherwise for the aliases of lo to hi.
   */
  lemma RangeToken(prefix: string, lo: string, hi: string, suffix: string, env: Env)
    requires NoBrackets(prefix) && OneLine(prefix) && NoBrackets(suffix) && OneLine(suffix)
    requires AllDigits(lo) && lo != "" && AllDigits(hi) && hi != ""
    requires IsToken(prefix + "[" + lo + "-" + hi + "]" + suffix)
    ensures var r := Parse(prefix + "[" + lo + "-" + hi + "]" + suffix, env);
            if Value(lo) > Value(hi) || Value(hi) > 0x7FFF_FFFF_FFFF_FFFF then r == Failed(BadRange)
            else if Value(hi) == 0x7FFF_FFFF_FFFF_FFFF then r == Hangs
            else
              && r.Hosts? && |r.aliases| == Value(hi) - Value(lo) + 1
              && AreAliases(Match(prefix, lo, hi, suffix), r.aliases)
  {
    var m := Match(prefix, lo, hi, suffix);
    ParseOne(m.Token(), env);
    OnlyReading(m);
    ExpandedMeans(m);
  }

  lemma OnlyReading(m: Match)
    requires Reads(m.Token(), m) && m.BracketFree()
    ensures HostRangeRE(m.Token()) == Some(m)
  {
    HostRangeREIsGreedy(m.Token(), m);
    BracketFreeReadingIsUnique(m.Token(), m, HostRangeRE(m.Token()).value);
  }

  lemma ExpandedMeans(m: Match)
    requires Bounds(m) && m.BracketFree()
    ensures Value(m.lo) > Value(m.hi) || Value(m.hi) > MAX_INT ==> Expanded(m) == Failed(BadRange)
    ensures Value(m.lo) <= Value(m.hi) == MAX_INT ==> Expanded(m) == Hangs
    ensures Value(m.lo) <= Value(m.hi) < MAX_INT ==>
              && Expanded(m).Hosts? && |Expanded(m).aliases| == Value(m.hi) - Value(m.lo) + 1
              && AreAliases(m, Expanded(m).aliases)
  {
    if Value(m.lo) <= Value(m.hi) < MAX_INT {
      AliasesExact(m, RangeAliases(m));
    }
  }

  /** A token that has more than one bracket and can be read as a range is an error. */
  lemma DoubleBracketToken(token: string, m: Match, env: Env)
    requires IsToken(token) && Reads(token, m) && !(NoBrackets(m.prefix) && NoBrackets(m.suffix))
    ensures Parse(token, env) == Failed(BadRange)
  {
    ParseOne(token, env);
    HostRangeREIsGreedy(token, m);
    var chosen := HostRangeRE(token).value;
    if chosen.BracketFree() {
      BracketFreeReadingIsUnique(token, chosen, m);
      assert NoBrackets(m.prefix) && NoBrackets(m.suffix);
    }
  }

  /** A glob token stands for the aliases of the config that it matches, in config order, or for an error. */
  lemma GlobToken(token: string, env: Env)
    requires IsToken(token) && !IsLiteral(token) && forall m :: !Reads(token, m)
    ensures env.config.None? ==> Parse(token, env) == Failed(BadConfig)
    ensures env.config.Some? ==>
              && var all := Flatten(env.config.value);
              && var r := Parse(token, env);
              && (r.Hosts? <==> forall k :: 0 <= k < |all| && !IsWildcard(all[k]) ==> env.glob(token, all[k]).Some?)
              && (r.Hosts? ==> IsSelection(all, Matched(token, env), r.aliases))
              && (!r.Hosts? ==> r == Failed(BadPattern))
  {
    ParseOne(token, env);
    if env.config.Some? {
      MatchingMeans(env.config.value, token, env);
      if Matching(env.config.value, token, env).Hosts? {
        MatchingSelects(env.config.value, token, env);
      }
    }
  }

  /** Exactly these tokens need the config. */
  lemma IsGlobMeans(token: string)
    ensures IsGlob(token) <==> !IsLiteral(token) && forall m :: !Reads(token, m)
  {
    if m :| Reads(token, m) {
      HostRangeREIsGreedy(token, m);
    }
  }

  /** A spec without globs never looks at the config: its outcome is the same whatever the config is. */
  lemma ConfigUnusedWithoutGlob(spec: string, env: Env, other: Env)
    requires forall k :: 0 <= k < |Tokens(spec)| ==> !IsGlob(Tokens(spec)[k])
    ensures Parse(spec, env) == Parse(spec, other)
  {
    forall k | 0 <= k < |Tokens(spec)|
      ensures ResolveEach(Tokens(spec), env)[k] == ResolveEach(Tokens(spec), other)[k]
    {}
    assert ResolveEach(Tokens(spec), env) == ResolveEach(Tokens(spec), other);
  }
}
