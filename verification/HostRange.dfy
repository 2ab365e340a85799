/** The PREFIX[lo-hi]SUFFIX token: the regular expression that recognises it, and expandHostToken. */
module HostRange {
  import opened Wrappers
  import opened Text
  import opened Decimal

  datatype Match = Match(prefix: string, lo: string, hi: string, suffix: string) {
    function Token(): string { prefix + "[" + lo + "-" + hi + "]" + suffix }

    predicate BracketFree() { !Contains(prefix, "[]") && !Contains(suffix, "[]") }
  }

  predicate OneLine(s: string) { forall i :: 0 <= i < |s| ==> s[i] != '\n' }

  /** m is a way to read the token against ^(.*)\[(\d+)-(\d+)\](.*)$; the dot does not match a newline. */
  predicate Reads(token: string, m: Match) {
    && token == m.Token()
    && OneLine(m.prefix) && OneLine(m.suffix)
    && |m.lo| > 0 && AllDigits(m.lo) && |m.hi| > 0 && AllDigits(m.hi)
  }

  /** End of the run of digits that starts at i. */
  function DigitsEnd(s: string, i: nat): (j: nat)
    requires i <= |s|
    ensures i <= j <= |s| && AllDigits(s[i..j]) && (j < |s| ==> !IsDigit(s[j]))
    decreases |s| - i
  {
    if i == |s| || !IsDigit(s[i]) then i
    else
      var j := DigitsEnd(s, i + 1);
      assert forall k :: 0 < k < j - i ==> s[i..j][k] == s[i + 1..j][k - 1];
      j
  }

  /** The pieces between the bracket at i, the dash at j and the bracket at k. */
  function PiecesAt(token: string, i: nat, j: nat, k: nat): (m: Match)
    requires i < j < k < |token| && token[i] == '[' && token[j] == '-' && token[k] == ']'
    ensures token == m.Token()
  {
    Match(token[..i], token[i + 1..j], token[j + 1..k], token[k + 1..])
  }

  /** The only match whose bracket opens at i, if there is one. */
  function MatchAt(token: string, i: nat): (r: Option<Match>)
    requires i < |token|
    ensures r.Some? ==> Reads(token, r.value) && |r.value.prefix| == i
  {
    if token[i] != '[' then None
    else
      var j := DigitsEnd(token, i + 1);
      if j == i + 1 || j == |token| || token[j] != '-' then None
      else
        var k := DigitsEnd(token, j + 1);
        if k == j + 1 || k == |token| || token[k] != ']' then None
        else
          var m := PiecesAt(token, i, j, k);
          if OneLine(m.prefix) && OneLine(m.suffix) then Some(m) else None
  }

  /** The largest index below the limit at which p holds. */
  function LastIndex(p: nat -> bool, limit: nat): (r: Option<nat>)
    ensures r.Some? ==> r.value < limit && p(r.value)
    ensures forall i: nat :: (if r.Some? then r.value else -1) < i < limit ==> !p(i)
  {
    if limit == 0 then None
    else if p(limit - 1) then Some(limit - 1)
    else LastIndex(p, limit - 1)
  }

  function MatchesAt(token: string): nat -> bool {
    (i: nat) => i < |token| && MatchAt(token, i).Some?
  }

  /** hostRangeRE.FindStringSubmatch: the first group is greedy, so the last bracket that opens a match wins. */
  function HostRangeRE(token: string): (r: Option<Match>)
    ensures r.Some? ==> Reads(token, r.value)
  {
    var i := LastIndex(MatchesAt(token), |token|);
    if i.Some? then MatchAt(token, i.value) else None
  }

  lemma {:induction false} DigitsEndIs(s: string, i: nat, j: nat)
    requires i <= j <= |s| && AllDigits(s[i..j]) && (j < |s| ==> !IsDigit(s[j]))
    ensures DigitsEnd(s, i) == j
    decreases j - i
  {
    if i < j {
      assert s[i..j][0] == s[i];
      var rest := s[i + 1..j];
      forall k | 0 <= k < |rest|
        ensures IsDigit(rest[k])
      {
        assert rest[k] == s[i..j][k + 1];
      }
      DigitsEndIs(s, i + 1, j);
    }
  }

  /** Where the pieces of a range token are. */
  lemma Layout(m: Match, i: nat, j: nat, k: nat)
    requires i == |m.prefix| && j == i + 1 + |m.lo| && k == j + 1 + |m.hi|
    ensures |m.Token()| == k + 1 + |m.suffix|
    ensures m.Token()[..i] == m.prefix && m.Token()[i + 1..j] == m.lo
    ensures m.Token()[j + 1..k] == m.hi && m.Token()[k + 1..] == m.suffix
    ensures m.Token()[i] == '[' && m.Token()[j] == '-' && m.Token()[k] == ']'
  {
    var head := m.prefix + "[" + m.lo;
    var tail := "-" + m.hi + "]" + m.suffix;
    assert head[..i] == m.prefix && head[i] == '[' && head[i + 1..] == m.lo;
    assert tail[0] == '-' && tail[1..k - j] == m.hi && tail[k - j] == ']' && tail[k - j + 1..] == m.suffix;
    JoinedSlices(m.Token(), head, tail, i, k - j);
  }

  lemma JoinedSlices(s: string, head: string, tail: string, i: nat, k: nat)
    requires s == head + tail && i < |head| && 1 <= k < |tail|
    ensures s[..i] == head[..i] && s[i] == head[i] && s[i + 1..|head|] == head[i + 1..]
    ensures s[|head|] == tail[0] && s[|head| + 1..|head| + k] == tail[1..k]
    ensures s[|head| + k] == tail[k] && s[|head| + k + 1..] == tail[k + 1..]
  {}

  lemma MatchAtPieces(token: string, i: nat, j: nat, k: nat)
    requires i + 1 < j && j + 1 < k < |token|
    requires DigitsEnd(token, i + 1) == j && DigitsEnd(token, j + 1) == k
    requires token[i] == '[' && token[j] == '-' && token[k] == ']'
    requires var m := PiecesAt(token, i, j, k); OneLine(m.prefix) && OneLine(m.suffix)
    ensures MatchAt(token, i) == Some(PiecesAt(token, i, j, k))
  {}

  /** Every reading of a token is found at its own bracket. */
  lemma ReadingIsMatchAt(token: string, m: Match)
    requires Reads(token, m)
    ensures |m.prefix| < |token| && token[|m.prefix|] == '[' && MatchAt(token, |m.prefix|) == Some(m)
  {
    var i := |m.prefix|;
    var j := i + 1 + |m.lo|;
    var k := j + 1 + |m.hi|;
    Layout(m, i, j, k);
    DigitsEndIs(token, i + 1, j);
    DigitsEndIs(token, j + 1, k);
    assert PiecesAt(token, i, j, k) == m;
    MatchAtPieces(token, i, j, k);
  }

  /** The expression matches exactly the tokens that can be read as a range, and takes the longest prefix. */
  lemma HostRangeREIsGreedy(token: string, m: Match)
    requires Reads(token, m)
    ensures HostRangeRE(token).Some? && |HostRangeRE(token).value.prefix| >= |m.prefix|
  {
    ReadingIsMatchAt(token, m);
    assert MatchesAt(token)(|m.prefix|);
  }

  /** In a bracket-free reading the bracket at the end of the prefix is the only one that opens. */
  lemma OnlyBracket(token: string, m: Match, x: nat)
    requires Reads(token, m) && m.BracketFree() && x < |token| && x != |m.prefix|
    ensures token[x] != '['
  {
    var i := |m.prefix|;
    var j := i + 1 + |m.lo|;
    var k := j + 1 + |m.hi|;
    Layout(m, i, j, k);
    assert x < i ==> token[x] == token[..i][x];
    assert i < x < j ==> token[x] == token[i + 1..j][x - i - 1];
    assert j < x < k ==> token[x] == token[j + 1..k][x - j - 1];
    assert k < x ==> token[x] == token[k + 1..][x - k - 1];
  }

  /**
   A token with a bracket-free reading has no other reading at all. So the greedy choice never matters for an
   accepted token, and a token rejected for its brackets has no acceptable reading.
   */
  lemma BracketFreeReadingIsUnique(token: string, m: Match, other: Match)
    requires Reads(token, m) && m.BracketFree() && Reads(token, other)
    ensures other == m
  {
    ReadingIsMatchAt(token, m);
    ReadingIsMatchAt(token, other);
    if |other.prefix| != |m.prefix| {
      OnlyBracket(token, m, |other.prefix|);
    }
  }

  /** The bracket check passes for the match chosen if and only if it would pass for some reading. */
  lemma GreedyChoiceIsHarmless(token: string)
    ensures HostRangeRE(token).Some? && HostRangeRE(token).value.BracketFree() <==>
            exists m :: Reads(token, m) && m.BracketFree()
  {
    if m :| Reads(token, m) && m.BracketFree() {
      HostRangeREIsGreedy(token, m);
      BracketFreeReadingIsUnique(token, m, HostRangeRE(token).value);
    }
  }

  // ---- expansion ----

  /**
   What expandHostToken does: returns aliases, returns an error, or never returns a slice at all. The last is
   hi == MaxInt, where the loop's i <= hi cannot become false.
   */
  datatype Expansion = Aliases(aliases: seq<string>) | Malformed | NoReturn

  predicate HasLeadingZero(m: Match) {
    (|m.lo| > 1 && m.lo[0] == '0') || (|m.hi| > 1 && m.hi[0] == '0')
  }

  function Width(m: Match): nat { if |m.lo| >= |m.hi| then |m.lo| else |m.hi| }

  /** The digits that stand for i. */
  function DigitPart(m: Match, i: nat): string {
    if HasLeadingZero(m) then ZeroPadded(Width(m), i) else Render(i)
  }

  function AliasOf(m: Match, i: nat): string { m.prefix + DigitPart(m, i) + m.suffix }

  /** Both bounds are 64-bit ints in order, and there is a single bracket. */
  predicate Accepted(m: Match)
    requires AllDigits(m.lo) && AllDigits(m.hi)
  {
    m.BracketFree() && Value(m.lo) <= Value(m.hi) <= MAX_INT
  }

  method ExpandHostToken(m: Match) returns (r: Expansion)
    requires Reads(m.Token(), m)
    ensures r.Malformed? <==> !Accepted(m)
    ensures r.NoReturn? <==> Accepted(m) && Value(m.hi) == MAX_INT
    ensures r.Aliases? ==>
              && |r.aliases| == Value(m.hi) - Value(m.lo) + 1
              && forall k :: 0 <= k < |r.aliases| ==> r.aliases[k] == AliasOf(m, Value(m.lo) + k)
    ensures r.Aliases? ==> AreAliases(m, r.aliases)
  {
    if Contains(m.prefix, "[]") || Contains(m.suffix, "[]") {
      return Malformed;
    }
    var lo := Atoi(m.lo);
    if lo.None? {
      return Malformed;
    }
    var hi := Atoi(m.hi);
    if hi.None? || lo.value > hi.value {
      return Malformed;
    }
    if hi.value == MAX_INT {
      return NoReturn;
    }
    var out := ExpandRange(m, lo.value, hi.value);
    AliasesExact(m, out);
    return Aliases(out);
  }

  /** The rest of it: the loop over the range. */
  method ExpandRange(m: Match, lo: nat, hi: nat) returns (out: seq<string>)
    requires lo <= hi
    ensures |out| == hi - lo + 1 && forall k :: 0 <= k < |out| ==> out[k] == AliasOf(m, lo + k)
  {
    var hasLeadingZero := (|m.lo| > 1 && m.lo[0] == '0') || (|m.hi| > 1 && m.hi[0] == '0');
    var width := if |m.lo| > |m.hi| then |m.lo| else |m.hi|;
    out := [];
    var i := lo;
    while i <= hi
      invariant lo <= i <= hi + 1 && |out| == i - lo
      invariant forall k :: 0 <= k < |out| ==> out[k] == AliasOf(m, lo + k)
    {
      if hasLeadingZero {
        out := out + [m.prefix + ZeroPadded(width, i) + m.suffix];
      } else {
        out := out + [m.prefix + Render(i) + m.suffix];
      }
      i := i + 1;
    }
  }

  /** i++ on a 64-bit int. */
  function Increment(i: int): int { if i == MAX_INT then MIN_INT else i + 1 }

  /** The loop variable after k rounds. */
  function AfterRounds(lo: int, k: nat): int { if k == 0 then lo else Increment(AfterRounds(lo, k - 1)) }

  /**
   The guard i <= hi holds after every number of rounds exactly when hi is MaxInt; otherwise hi - lo + 1 rounds
   end it.
   */
  lemma LoopEndsUnlessMaxInt(lo: nat, hi: nat)
    requires lo <= hi <= MAX_INT
    ensures (forall k: nat :: AfterRounds(lo, k) <= hi) <==> hi == MAX_INT
    ensures hi < MAX_INT ==> AfterRounds(lo, hi - lo + 1) == hi + 1
  {
    if hi == MAX_INT {
      forall k: nat
        ensures AfterRounds(lo, k) <= hi
      {
        StaysInRange(lo, k);
      }
    } else {
      CountsUp(lo, hi - lo + 1);
    }
  }

  // ---- the aliases, told by the bounds as written ----

  /** Some bound of more than one digit begins with a zero. */
  ghost predicate ZeroInFront(m: Match) {
    (|m.lo| > 1 && m.lo[0] == '0') || (|m.hi| > 1 && m.hi[0] == '0')
  }

  /**
   The digits read back as i; they are as wide as the longer bound if some bound has a zero in front, and have no
   superfluous zero in front otherwise.
   */
  ghost predicate IsDigitPart(m: Match, digits: string, i: nat) {
    && AllDigits(digits) && |digits| > 0 && Value(digits) == i
    && (ZeroInFront(m) ==> |digits| == if |m.lo| >= |m.hi| then |m.lo| else |m.hi|)
    && (!ZeroInFront(m) ==> |digits| == 1 || digits[0] != '0')
  }

  /** The prefix, the digits of i, the suffix. */
  ghost predicate IsAlias(m: Match, alias: string, i: nat) {
    exists digits :: IsDigitPart(m, digits, i) && alias == m.prefix + digits + m.suffix
  }

  /** The aliases are those of the numbers from lo on, in order, unless a bound has more than a million characters. */
  ghost predicate AreAliases(m: Match, aliases: seq<string>)
    requires AllDigits(m.lo)
  {
    |m.lo| <= 1_000_000 && |m.hi| <= 1_000_000 ==>
      forall k :: 0 <= k < |aliases| ==> IsAlias(m, aliases[k], Value(m.lo) + k)
  }

  lemma AliasesExact(m: Match, aliases: seq<string>)
    requires Bounds(m) && |aliases| <= Value(m.hi) - Value(m.lo) + 1
    requires forall k :: 0 <= k < |aliases| ==> aliases[k] == AliasOf(m, Value(m.lo) + k)
    ensures AreAliases(m, aliases)
  {
    if |m.lo| <= 1_000_000 && |m.hi| <= 1_000_000 {
      forall k | 0 <= k < |aliases|
        ensures IsAlias(m, aliases[k], Value(m.lo) + k)
      {
        AliasExact(m, aliases[k], Value(m.lo) + k);
      }
    }
  }

  /** These properties determine the alias; only a bound of more than a million characters is an exception. */
  lemma AliasExact(m: Match, alias: string, i: nat)
    requires Bounds(m) && |m.lo| <= 1_000_000 && |m.hi| <= 1_000_000 && i <= Value(m.hi)
    ensures IsAlias(m, alias, i) <==> alias == AliasOf(m, i)
  {
    DigitPartMeans(m, i);
    RenderHasNoLeadingZero(i);
    assert IsDigitPart(m, DigitPart(m, i), i);
    if digits :| IsDigitPart(m, digits, i) && alias == m.prefix + digits + m.suffix {
      if ZeroInFront(m) {
        SameWidthSameValue(digits, DigitPart(m, i));
      } else {
        RenderOfValue(digits);
      }
    }
  }

  /** Bounds without a zero in front: no number is padded, and the ends are the bounds as written. */
  lemma UnpaddedRange(m: Match, i: nat)
    requires Bounds(m) && (|m.lo| == 1 || m.lo[0] != '0') && (|m.hi| == 1 || m.hi[0] != '0')
    ensures |DigitPart(m, i)| > 1 ==> DigitPart(m, i)[0] != '0'
    ensures DigitPart(m, Value(m.lo)) == m.lo && DigitPart(m, Value(m.hi)) == m.hi
  {
    RenderHasNoLeadingZero(i);
    EndsAreTheBounds(m);
  }

  /** A zero in front of either bound: every number is as wide as the longer bound. */
  lemma PaddedRange(m: Match, i: nat)
    requires Bounds(m) && ((|m.lo| > 1 && m.lo[0] == '0') || (|m.hi| > 1 && m.hi[0] == '0'))
    requires |m.lo| <= 1_000_000 && |m.hi| <= 1_000_000 && i <= Value(m.hi)
    ensures |DigitPart(m, i)| == if |m.lo| >= |m.hi| then |m.lo| else |m.hi|
    ensures AllDigits(DigitPart(m, i)) && Value(DigitPart(m, i)) == i
  {
    DigitPartMeans(m, i);
  }

  /** What the expression matches. */
  lemma ReadsMeans(token: string, m: Match)
    ensures Reads(token, m) <==>
            && token == m.prefix + "[" + m.lo + "-" + m.hi + "]" + m.suffix
            && (forall i :: 0 <= i < |m.prefix| ==> m.prefix[i] != '\n')
            && (forall i :: 0 <= i < |m.suffix| ==> m.suffix[i] != '\n')
            && m.lo != "" && (forall i :: 0 <= i < |m.lo| ==> '0' <= m.lo[i] <= '9')
            && m.hi != "" && (forall i :: 0 <= i < |m.hi| ==> '0' <= m.hi[i] <= '9')
  {}

  /** What expandHostToken demands of a token that the expression matches. */
  lemma AcceptedMeans(m: Match)
    requires Bounds(m)
    ensures Accepted(m) <==>
            && (forall i :: 0 <= i < |m.prefix| ==> m.prefix[i] != '[' && m.prefix[i] != ']')
            && (forall i :: 0 <= i < |m.suffix| ==> m.suffix[i] != '[' && m.suffix[i] != ']')
            && Value(m.lo) <= Value(m.hi) < 0x8000_0000_0000_0000
  {}

  /** The documented example: no padding, although the bounds differ in length. */
  lemma DocumentedRange()
    ensures var m := Match("bb", "1", "30", "");
            Reads("bb[1-30]", m) && Accepted(m) && AliasOf(m, 1) == "bb1" && AliasOf(m, 30) == "bb30"
            && Value(m.lo) == 1 && Value(m.hi) == 30
  {
    var m := Match("bb", "1", "30", "");
    assert "1"[..0] == "" && "30"[..1] == "3" && "3"[..0] == "";
    assert m.Token() == "bb[1-30]";
    UnpaddedRange(m, 1);
    assert "bb" + "1" + "" == "bb1" && "bb" + "30" + "" == "bb30";
  }

  /** Such a token is accepted; Render(MAX_INT) is what a user would write. */
  lemma MaxIntIsAccepted()
    ensures var m := Match("", Render(MAX_INT), Render(MAX_INT), "");
            Reads(m.Token(), m) && Accepted(m) && Value(m.hi) == MAX_INT
  {
    RenderMeans(MAX_INT);
  }

  lemma {:induction false} StaysInRange(lo: int, k: nat)
    requires MIN_INT <= lo <= MAX_INT
    ensures MIN_INT <= AfterRounds(lo, k) <= MAX_INT
  {
    if k > 0 { StaysInRange(lo, k - 1); }
  }

  lemma {:induction false} CountsUp(lo: nat, k: nat)
    requires lo + k <= MAX_INT
    ensures AfterRounds(lo, k) == lo + k
  {
    if k > 0 { CountsUp(lo, k - 1); }
  }

  /** The digit parts are digits: fmt is not asked for a width it refuses. */
  predicate WidthOk(m: Match) { HasLeadingZero(m) ==> Width(m) <= MAX_WIDTH }

  /** Two bounds of digits. */
  ghost predicate Bounds(m: Match) {
    AllDigits(m.lo) && AllDigits(m.hi) && |m.lo| > 0 && |m.hi| > 0
  }

  /** A digit part reads back as its number, and a padded one is exactly as wide as the wider bound. */
  lemma DigitPartMeans(m: Match, i: nat)
    requires Bounds(m) && WidthOk(m) && i <= Value(m.hi)
    ensures AllDigits(DigitPart(m, i)) && |DigitPart(m, i)| >= 1 && Value(DigitPart(m, i)) == i
    ensures HasLeadingZero(m) ==> |DigitPart(m, i)| == Width(m)
  {
    RenderMeans(i);
    PadMeans(Render(i), Width(m));
    ValueBound(m.hi);
    Pow10Monotone(|m.hi|, Width(m));
    RenderWidth(i, Width(m));
  }

  /** Both hold exactly when the width is one that fmt takes. */
  lemma DigitPartExact(m: Match, i: nat)
    requires Bounds(m) && i <= Value(m.hi) <= MAX_INT
    ensures AllDigits(DigitPart(m, i)) <==> WidthOk(m)
    ensures HasLeadingZero(m) ==> (|DigitPart(m, i)| == Width(m) <==> WidthOk(m))
  {
    if WidthOk(m) {
      DigitPartMeans(m, i);
    } else {
      IntWidth(i);
      assert DigitPart(m, i)[0] == '%';
    }
  }

  /** A bound of a million and one characters is too wide: nothing is padded and no digit part is a number. */
  lemma WideBoundCounterexample()
    ensures var m := Match("", Zeros(1_000_000) + "1", "2", "");
            && Reads(m.Token(), m) && Accepted(m)
            && DigitPart(m, 1) == "%!(BADWIDTH)1" && DigitPart(m, 2) == "%!(BADWIDTH)2"
  {
    var m := Match("", Zeros(1_000_000) + "1", "2", "");
    ZerosMean(1_000_000, "1");
    RenderOfValue("1");
    RenderOfValue("2");
    assert Value("1") == 1 && Value("2") == 2;
    assert m.lo[0] == '0';
  }

  lemma {:induction false} Pow10Monotone(j: nat, k: nat)
    requires j <= k
    ensures Pow10(j) <= Pow10(k)
    decreases k
  {
    if j < k { Pow10Monotone(j, k - 1); }
  }

  /** Zero-padded digit parts increase as strings just as their numbers do. */
  lemma PaddedPartsAreOrdered(m: Match, i: nat, j: nat)
    requires Bounds(m) && HasLeadingZero(m) && WidthOk(m)
    requires i <= Value(m.hi) && j <= Value(m.hi)
    ensures LexLess(DigitPart(m, i), DigitPart(m, j)) <==> i < j
  {
    DigitPartMeans(m, i);
    DigitPartMeans(m, j);
    FixedWidthOrder(DigitPart(m, i), DigitPart(m, j));
  }

  /** In the whole range, string order is numeric order. */
  ghost predicate Ordered(m: Match)
    requires AllDigits(m.lo) && AllDigits(m.hi)
  {
    forall i: nat, j: nat :: Value(m.lo) <= i <= Value(m.hi) && Value(m.lo) <= j <= Value(m.hi) ==>
      (LexLess(DigitPart(m, i), DigitPart(m, j)) <==> i < j)
  }

  /** A digit part that is not padded. */
  lemma UnpaddedPart(m: Match) returns (mark: string)
    requires !(HasLeadingZero(m) && WidthOk(m))
    ensures forall i :: DigitPart(m, i) == mark + Render(i)
  {
    mark := if HasLeadingZero(m) then BAD_WIDTH else "";
    assert forall i :: "" + Render(i) == Render(i);
  }

  /** String order is numeric order exactly when the numbers are padded or have equally many digits anyway. */
  lemma OrderedExact(m: Match)
    requires Bounds(m) && Value(m.lo) <= Value(m.hi)
    ensures Ordered(m) <==>
            (HasLeadingZero(m) && WidthOk(m)) || |Render(Value(m.lo))| == |Render(Value(m.hi))|
  {
    var lo, hi := Value(m.lo), Value(m.hi);
    if HasLeadingZero(m) && WidthOk(m) {
      forall i: nat, j: nat | lo <= i <= hi && lo <= j <= hi
        ensures LexLess(DigitPart(m, i), DigitPart(m, j)) <==> i < j
      {
        PaddedPartsAreOrdered(m, i, j);
      }
    } else {
      var mark := UnpaddedPart(m);
      if |Render(lo)| == |Render(hi)| {
        forall i: nat, j: nat | lo <= i <= hi && lo <= j <= hi
          ensures LexLess(DigitPart(m, i), DigitPart(m, j)) <==> i < j
        {
          SameDigitsOrder(lo, hi, i, j);
          LexSamePrefix(mark, Render(i), Render(j));
        }
      } else {
        var p := DigitsGrow(lo, hi);
        LexSamePrefix(mark, Render(p - 1), Render(p));
        assert !LexLess(DigitPart(m, p - 1), DigitPart(m, p));
      }
    }
  }

  lemma SameDigitsOrder(lo: nat, hi: nat, i: nat, j: nat)
    requires lo <= i <= hi && lo <= j <= hi && |Render(lo)| == |Render(hi)|
    ensures LexLess(Render(i), Render(j)) <==> i < j
  {
    RenderMonotone(lo, i);
    RenderMonotone(i, hi);
    RenderMonotone(lo, j);
    RenderMonotone(j, hi);
    RenderMeans(i);
    RenderMeans(j);
    FixedWidthOrder(Render(i), Render(j));
  }

  /** Where the number of digits grows, a 9... is followed by a 1...: there string order goes wrong. */
  lemma DigitsGrow(lo: nat, hi: nat) returns (p: nat)
    requires lo <= hi && |Render(lo)| != |Render(hi)|
    ensures lo < p <= hi && !LexLess(Render(p - 1), Render(p))
  {
    RenderMeans(lo);
    RenderMonotone(lo, hi);
    var k := |Render(lo)|;
    p := Pow10(k);
    RenderWidth(lo, k);
    RenderWidth(hi, k);
    NinesStart(k);
    PowerStarts(k);
  }

  /** Different numbers give different aliases. */
  lemma AliasesAreDistinct(m: Match, i: nat, j: nat)
    requires Bounds(m) && i <= Value(m.hi) && j <= Value(m.hi) && AliasOf(m, i) == AliasOf(m, j)
    ensures i == j
  {
    var a, b := AliasOf(m, i), AliasOf(m, j);
    assert a[|m.prefix|..|a| - |m.suffix|] == DigitPart(m, i);
    assert b[|m.prefix|..|b| - |m.suffix|] == DigitPart(m, j);
    if WidthOk(m) {
      DigitPartMeans(m, i);
      DigitPartMeans(m, j);
    } else {
      assert DigitPart(m, i)[|BAD_WIDTH|..] == Render(i) && DigitPart(m, j)[|BAD_WIDTH|..] == Render(j);
      RenderMeans(i);
      RenderMeans(j);
    }
  }

  /** The aliases returned: pairwise distinct, and exactly one for each number of the range. */
  lemma ExpansionIsTheRange(m: Match, aliases: seq<string>)
    requires Bounds(m)
    requires |aliases| == Value(m.hi) - Value(m.lo) + 1
    requires forall k :: 0 <= k < |aliases| ==> aliases[k] == AliasOf(m, Value(m.lo) + k)
    ensures Distinct(aliases)
    ensures forall x :: x in aliases <==> exists i: nat :: Value(m.lo) <= i <= Value(m.hi) && x == AliasOf(m, i)
  {
    forall j, k | 0 <= j < k < |aliases|
      ensures aliases[j] != aliases[k]
    {
      if aliases[j] == aliases[k] { AliasesAreDistinct(m, Value(m.lo) + j, Value(m.lo) + k); }
    }
    forall x
      ensures x in aliases <==> exists i: nat :: Value(m.lo) <= i <= Value(m.hi) && x == AliasOf(m, i)
    {
      if i: nat :| Value(m.lo) <= i <= Value(m.hi) && x == AliasOf(m, i) {
        assert aliases[i - Value(m.lo)] == x;
      }
    }
  }

  /** The ends of the range are written as the bounds were, padded to the common width if either is. */
  lemma EndsAreTheBounds(m: Match)
    requires Bounds(m)
    ensures !HasLeadingZero(m) ==> DigitPart(m, Value(m.lo)) == m.lo && DigitPart(m, Value(m.hi)) == m.hi
    ensures HasLeadingZero(m) && WidthOk(m) ==> DigitPart(m, Value(m.hi)) == Pad(m.hi, Width(m))
    ensures HasLeadingZero(m) && WidthOk(m) && Value(m.lo) <= Value(m.hi) ==>
              DigitPart(m, Value(m.lo)) == Pad(m.lo, Width(m))
  {
    if !HasLeadingZero(m) {
      RenderOfValue(m.lo);
      RenderOfValue(m.hi);
    } else if WidthOk(m) {
      PaddedBound(m, m.hi);
      if Value(m.lo) <= Value(m.hi) { PaddedBound(m, m.lo); }
    }
  }

  lemma PaddedBound(m: Match, s: string)
    requires Bounds(m) && HasLeadingZero(m) && WidthOk(m)
    requires AllDigits(s) && |s| <= Width(m) && Value(s) <= Value(m.hi)
    ensures DigitPart(m, Value(s)) == Pad(s, Width(m))
  {
    DigitPartMeans(m, Value(s));
    PadMeans(s, Width(m));
    SameWidthSameValue(DigitPart(m, Value(s)), Pad(s, Width(m)));
  }

  lemma {:induction false} SameWidthSameValue(a: string, b: string)
    requires AllDigits(a) && AllDigits(b) && |a| == |b| && Value(a) == Value(b)
    ensures a == b
  {
    if a != "" {
      var n := |a| - 1;
      var x, y := a[..n], b[..n];
      SameLastDigit(Value(x), DigitOf(a[n]), Value(y), DigitOf(b[n]));
      SameWidthSameValue(x, y);
      assert a == x + [a[n]] && b == y + [b[n]];
    }
  }

  lemma SameLastDigit(x: nat, d: nat, y: nat, e: nat)
    requires d < 10 && e < 10 && 10 * x + d == 10 * y + e
    ensures x == y && d == e
  {}
}
