/** The parts of Go's strings package the host spec and known_hosts code relies on. */
module Text {

  /** unicode.IsSpace. */
  predicate IsSpace(c: char) {
    || '\t' <= c <= '\r' || c == ' ' || c == '\U{85}' || c == '\U{A0}' || c == '\U{1680}'
    || '\U{2000}' <= c <= '\U{200A}' || c == '\U{2028}' || c == '\U{2029}' || c == '\U{202F}'
    || c == '\U{205F}' || c == '\U{3000}'
  }

  predicate IsComma(c: char) { c == ',' }
  predicate IsBlank(c: char) { c == ' ' }
  predicate IsNewline(c: char) { c == '\n' }

  function TrimLeft(s: string): string {
    if s != "" && IsSpace(s[0]) then TrimLeft(s[1..]) else s
  }

  function TrimRight(s: string): string {
    if s != "" && IsSpace(s[|s| - 1]) then TrimRight(s[..|s| - 1]) else s
  }

  /** strings.TrimSpace. */
  function Trim(s: string): string { TrimRight(TrimLeft(s)) }

  /** strings.Split on a one-character separator: always at least one part. */
  function Split(s: string, sep: char -> bool): (parts: seq<string>)
    ensures |parts| >= 1
  {
    if s == "" then [""]
    else if sep(s[0]) then [""] + Split(s[1..], sep)
    else
      var rest := Split(s[1..], sep);
      [[s[0]] + rest[0]] + rest[1..]
  }

  /** The trimmed, non-empty ones of the parts. */
  function Clean(parts: seq<string>): seq<string> {
    if parts == [] then []
    else (if Trim(parts[0]) == "" then [] else [Trim(parts[0])]) + Clean(parts[1..])
  }

  predicate Contains(s: string, chars: string) {
    exists i :: 0 <= i < |s| && s[i] in chars
  }

  // ---- trimming ----

  lemma {:induction false} TrimLeftMeans(s: string)
    ensures TrimLeft(s) == "" <==> forall i :: 0 <= i < |s| ==> IsSpace(s[i])
    ensures TrimLeft(s) != "" ==> !IsSpace(TrimLeft(s)[0])
    ensures forall c :: IsSpace(c) && TrimLeft(s) == "" ==> TrimLeft(s + [c]) == ""
    ensures forall c :: TrimLeft(s) != "" ==> TrimLeft(s + [c]) == TrimLeft(s) + [c]
  {
    if s != "" && IsSpace(s[0]) {
      TrimLeftMeans(s[1..]);
      assert forall i :: 0 < i < |s| ==> s[i] == s[1..][i - 1];
      assert forall c :: (s + [c])[1..] == s[1..] + [c];
    } else if s == "" {
      assert forall c :: IsSpace(c) ==> ("" + [c])[1..] == "";
    }
  }

  lemma {:induction false} TrimRightEnds(s: string)
    ensures TrimRight(s) <= s
    ensures TrimRight(s) != "" ==> !IsSpace(TrimRight(s)[|TrimRight(s)| - 1])
  {
    if s != "" && IsSpace(s[|s| - 1]) { TrimRightEnds(s[..|s| - 1]); }
  }

  lemma TrimLeadingSpace(c: char, s: string)
    requires IsSpace(c)
    ensures Trim([c] + s) == Trim(s)
  {
    assert ([c] + s)[1..] == s;
  }

  lemma TrimTrailingSpace(s: string, c: char)
    requires IsSpace(c)
    ensures Trim(s + [c]) == Trim(s)
  {
    TrimLeftMeans(s);
    assert (TrimLeft(s) + [c])[..|TrimLeft(s)|] == TrimLeft(s);
  }

  /** A trimmed string is left alone by a second trim. */
  lemma TrimIdempotent(s: string)
    ensures Trim(Trim(s)) == Trim(s)
  {
    var left := TrimLeft(s);
    TrimLeftMeans(s);
    TrimRightEnds(left);
    if Trim(s) != "" {
      assert Trim(s)[0] == left[0];
      assert TrimLeft(Trim(s)) == Trim(s);
    }
  }

  /** Trim cuts off exactly the white space at both ends. */
  lemma TrimMeans(s: string) returns (a: nat, b: nat)
    ensures a <= b <= |s| && Trim(s) == s[a..b]
    ensures forall i :: 0 <= i < |s| && (i < a || b <= i) ==> IsSpace(s[i])
    ensures a < b ==> !IsSpace(s[a]) && !IsSpace(s[b - 1])
  {
    var left := TrimLeft(s);
    a := LeadingSpace(s);
    var k := TrailingSpace(left);
    b := a + k;
    assert forall i :: a <= i < |s| ==> s[i] == left[i - a];
    if a == b {
      TrimLeftMeans(s);
    }
  }

  lemma {:induction false} LeadingSpace(s: string) returns (a: nat)
    ensures a <= |s| && TrimLeft(s) == s[a..]
    ensures forall i :: 0 <= i < a ==> IsSpace(s[i])
    ensures a < |s| ==> !IsSpace(s[a])
  {
    a := 0;
    if s != "" && IsSpace(s[0]) {
      var b := LeadingSpace(s[1..]);
      a := b + 1;
      assert forall i :: 0 < i < |s| ==> s[i] == s[1..][i - 1];
    }
  }

  lemma {:induction false} TrailingSpace(s: string) returns (b: nat)
    ensures b <= |s| && TrimRight(s) == s[..b]
    ensures forall i :: b <= i < |s| ==> IsSpace(s[i])
    ensures b > 0 ==> !IsSpace(s[b - 1])
  {
    b := |s|;
    if s != "" && IsSpace(s[|s| - 1]) {
      var front := s[..|s| - 1];
      b := TrailingSpace(front);
      assert forall i :: 0 <= i < |front| ==> s[i] == front[i];
      assert front[..b] == s[..b];
    }
  }

  /** The white space of ASCII and Latin-1, and the rest of Unicode's. */
  lemma SpaceMeans(c: char)
    ensures IsSpace(c) <==>
            var n := c as int;
            n in {0x09, 0x0A, 0x0B, 0x0C, 0x0D, 0x20, 0x85, 0xA0} || n == 0x1680 || 0x2000 <= n < 0x200B
            || n in {0x2028, 0x2029, 0x202F, 0x205F, 0x3000}
  {}

  /** What a trimmed string is. */
  lemma TrimmedMeans(t: string)
    ensures t != "" && Trim(t) == t <==> t != "" && !IsSpace(t[0]) && !IsSpace(t[|t| - 1])
  {
    if t != "" {
      var a, b := TrimMeans(t);
      if Trim(t) == t {
        assert b - a == |t|;
      }
    }
  }

  // ---- splitting ----

  lemma {:induction false} SplitConcat(a: string, c: char, b: string, sep: char -> bool)
    requires sep(c)
    ensures Split(a + [c] + b, sep) == Split(a, sep) + Split(b, sep)
  {
    var s := a + [c] + b;
    if a == "" {
      assert s[1..] == b;
    } else {
      assert s[1..] == a[1..] + [c] + b;
      SplitConcat(a[1..], c, b, sep);
    }
  }

  function AppendToLast(parts: seq<string>, c: char): (r: seq<string>)
    requires |parts| > 0
    ensures |r| == |parts|
  {
    if |parts| == 1 then [parts[0] + [c]] else [parts[0]] + AppendToLast(parts[1..], c)
  }

  lemma {:induction false} SplitSnoc(s: string, c: char, sep: char -> bool)
    requires !sep(c)
    ensures Split(s + [c], sep) == AppendToLast(Split(s, sep), c)
  {
    if s == "" {
      assert s + [c] == [c];
      SplitFree([c], sep);
    } else {
      assert (s + [c])[1..] == s[1..] + [c];
      SplitSnoc(s[1..], c, sep);
      var rest := Split(s[1..], sep);
      if sep(s[0]) {
        assert ([""] + rest)[1..] == rest;
      } else if |rest| == 1 {
        assert [s[0]] + (rest[0] + [c]) == [s[0]] + rest[0] + [c];
      } else {
        assert ([[s[0]] + rest[0]] + rest[1..])[1..] == rest[1..];
      }
    }
  }

  lemma {:induction false} CleanIgnoresTrailingSpace(parts: seq<string>, c: char)
    requires |parts| > 0 && IsSpace(c)
    ensures Clean(AppendToLast(parts, c)) == Clean(parts)
  {
    if |parts| == 1 {
      TrimTrailingSpace(parts[0], c);
    } else {
      CleanIgnoresTrailingSpace(parts[1..], c);
    }
  }

  lemma {:induction false} CleanConcat(a: seq<string>, b: seq<string>)
    ensures Clean(a + b) == Clean(a) + Clean(b)
  {
    if a == [] {
      assert a + b == b;
    } else {
      assert (a + b)[1..] == a[1..] + b;
      CleanConcat(a[1..], b);
    }
  }

  ghost predicate Free(s: string, sep: char -> bool) {
    forall i :: 0 <= i < |s| ==> !sep(s[i])
  }

  lemma {:induction false} SplitFree(s: string, sep: char -> bool)
    requires Free(s, sep)
    ensures Split(s, sep) == [s]
  {
    if s != "" {
      SplitFree(s[1..], sep);
      assert [s[0]] + s[1..] == s;
    }
  }

  lemma {:induction false} PartsAreFree(s: string, sep: char -> bool)
    ensures forall k :: 0 <= k < |Split(s, sep)| ==> Free(Split(s, sep)[k], sep)
  {
    if s != "" { PartsAreFree(s[1..], sep); }
  }

  // ---- tokens ----

  /** Spaces around the whole spec make no difference to its trimmed parts. */
  lemma {:induction false} CleanIgnoresTrim(s: string)
    ensures Clean(Split(Trim(s), IsComma)) == Clean(Split(s, IsComma))
  {
    CleanIgnoresTrimLeft(s);
    CleanIgnoresTrimRight(TrimLeft(s));
  }

  lemma {:induction false} CleanIgnoresTrimLeft(s: string)
    ensures Clean(Split(TrimLeft(s), IsComma)) == Clean(Split(s, IsComma))
  {
    if s != "" && IsSpace(s[0]) {
      CleanIgnoresTrimLeft(s[1..]);
      TrimLeadingSpace(s[0], Split(s[1..], IsComma)[0]);
    }
  }

  lemma {:induction false} CleanIgnoresTrimRight(s: string)
    ensures Clean(Split(TrimRight(s), IsComma)) == Clean(Split(s, IsComma))
  {
    if s != "" && IsSpace(s[|s| - 1]) {
      var front, c := s[..|s| - 1], s[|s| - 1];
      assert s == front + [c] && TrimRight(s) == TrimRight(front);
      SplitSnoc(front, c, IsComma);
      CleanIgnoresTrailingSpace(Split(front, IsComma), c);
      CleanIgnoresTrimRight(front);
    }
  }

  /** Trimmed, non-empty, without a separator: what splitHostSpec may return. */
  ghost predicate IsToken(t: string) {
    t != "" && Trim(t) == t && Free(t, IsComma)
  }

  lemma {:induction false} CleanGivesTokens(parts: seq<string>)
    requires forall k :: 0 <= k < |parts| ==> Free(parts[k], IsComma)
    ensures forall k :: 0 <= k < |Clean(parts)| ==> IsToken(Clean(parts)[k])
  {
    if parts != [] {
      CleanGivesTokens(parts[1..]);
      TrimIdempotent(parts[0]);
      var a, b := TrimMeans(parts[0]);
    }
  }

  lemma {:induction false} CleanKeepsTokens(tokens: seq<string>)
    requires forall k :: 0 <= k < |tokens| ==> IsToken(tokens[k])
    ensures Clean(tokens) == tokens
  {
    if tokens != [] { CleanKeepsTokens(tokens[1..]); }
  }

  /** strings.Join with a comma. */
  function JoinComma(parts: seq<string>): string {
    if parts == [] then ""
    else if |parts| == 1 then parts[0]
    else parts[0] + "," + JoinComma(parts[1..])
  }

  lemma {:induction false} SplitJoin(parts: seq<string>)
    requires |parts| > 0 && forall k :: 0 <= k < |parts| ==> Free(parts[k], IsComma)
    ensures Split(JoinComma(parts), IsComma) == parts
  {
    SplitFree(parts[0], IsComma);
    if |parts| > 1 {
      SplitJoin(parts[1..]);
      SplitConcat(parts[0], ',', JoinComma(parts[1..]), IsComma);
    }
  }

  lemma ConcatAssoc(a: string, b: string, c: string)
    ensures a + b + c == a + (b + c)
  {}

  /** What follows the first part. */
  function JoinTail(rest: seq<string>): string { if rest == [] then "" else "," + JoinComma(rest) }

  lemma JoinFirst(first: string, rest: seq<string>)
    ensures JoinComma([first] + rest) == first + JoinTail(rest)
  {
    assert ([first] + rest)[1..] == rest;
    if rest == [] {
      assert first + "" == first;
    } else {
      ConcatAssoc(first, ",", JoinComma(rest));
    }
  }

  lemma JoinCons(c: char, parts: seq<string>)
    requires parts != []
    ensures JoinComma([[c] + parts[0]] + parts[1..]) == [c] + JoinComma(parts)
  {
    var first, rest := parts[0], parts[1..];
    JoinFirst(first, rest);
    JoinFirst([c] + first, rest);
    assert parts == [first] + rest;
    ConcatAssoc([c], first, JoinTail(rest));
  }

  lemma JoinEmptyFirst(parts: seq<string>)
    requires parts != []
    ensures JoinComma([""] + parts) == "," + JoinComma(parts)
  {
    JoinFirst("", parts);
    assert "" + JoinTail(parts) == JoinTail(parts);
  }

  /** Splitting loses nothing: the parts joined again are the string. */
  lemma {:induction false} JoinSplit(s: string)
    ensures JoinComma(Split(s, IsComma)) == s
  {
    if s != "" {
      JoinSplit(s[1..]);
      JoinCons(s[0], Split(s[1..], IsComma));
      JoinEmptyFirst(Split(s[1..], IsComma));
      assert [s[0]] + s[1..] == s;
    }
  }
}
