/** knownHostAlgorithms: the scan of the known_hosts files for the key types recorded for one address. */
module KnownHosts {
  import opened Wrappers
  import opened Text

  /**
   The inputs: the two config values (None is an error), ConnectAddr's result with its normal form, the files by
   name after ~ expansion, and the hashed-entry match.
   */
  datatype Query = Query(
    strict: Option<string>,
    userKnownHosts: Option<string>,
    addr: string,
    norm: string,
    read: string -> Option<string>,
    hashed: (string, string) -> bool)

  /** strings.Fields. */
  function Fields(line: string): seq<string> { NonEmpty(Split(line, IsSpace)) }

  function NonEmpty(parts: seq<string>): seq<string> {
    if parts == [] then []
    else (if parts[0] == "" then [] else [parts[0]]) + NonEmpty(parts[1..])
  }

  predicate HostMatches(q: Query, h: string) {
    if "|1|" <= h then q.hashed(h, q.norm) else h == q.norm
  }

  /** The fields of an entry; [] for a blank line, a comment, a marker or a line with fewer than three fields. */
  function EntryFields(line: string): seq<string> {
    var trimmed := Trim(line);
    if trimmed == "" || trimmed[0] == '#' || trimmed[0] == '@' || |Fields(trimmed)| < 3 then []
    else Fields(trimmed)
  }

  /** Some host pattern of the entry is the address. */
  predicate NamesHost(q: Query, hosts: seq<string>) {
    exists k :: 0 <= k < |hosts| && HostMatches(q, hosts[k])
  }

  /** The key type of a line that is an entry for the address. */
  function LineTypes(q: Query, line: string): seq<string> {
    var fields := EntryFields(line);
    if |fields| >= 3 && NamesHost(q, Split(fields[0], IsComma)) then [fields[1]] else []
  }

  /** The lists f gives for the items, one after the other. */
  function Gather(items: seq<string>, f: string -> seq<string>): seq<string> {
    if items == [] then [] else Gather(items[..|items| - 1], f) + f(items[|items| - 1])
  }

  function LineTyper(q: Query): string -> seq<string> {
    line => LineTypes(q, line)
  }

  function LinesTypes(q: Query, lines: seq<string>): seq<string> {
    Gather(lines, LineTyper(q))
  }

  /** Nothing for a file that cannot be read. */
  function FileTypes(q: Query, file: string): seq<string> {
    match q.read(file)
    case None => []
    case Some(data) => LinesTypes(q, Split(data, IsNewline))
  }

  /** All matching key types, repeats included, over all readable files in order. */
  function FilesTypes(q: Query, files: seq<string>): seq<string> {
    Gather(files, file => FileTypes(q, file))
  }

  /** First occurrences only. */
  function Dedup(types: seq<string>): seq<string> {
    if types == [] then []
    else
      var front, last := Dedup(types[..|types| - 1]), types[|types| - 1];
      if last in front then front else front + [last]
  }

  /** What the scan is for: one of each matching key type, in order of first occurrence across all files. */
  function Algorithms(q: Query): seq<string> {
    if q.strict.None? || q.strict.value == "no" then []
    else if q.userKnownHosts.None? || q.userKnownHosts.value == "" || q.addr == "" then []
    else Dedup(FilesTypes(q, Split(q.userKnownHosts.value, IsBlank)))
  }

  // ---- what Dedup means ----

  /** x first occurs in s before y does. */
  ghost predicate FirstBefore(s: seq<string>, x: string, y: string) {
    exists i :: 0 <= i < |s| && s[i] == x && y !in s[..i + 1]
  }

  lemma {:induction false} DedupMeans(types: seq<string>)
    ensures forall x :: x in Dedup(types) <==> x in types
    ensures Distinct(Dedup(types))
  {
    if types != [] {
      var front, last := types[..|types| - 1], types[|types| - 1];
      DedupMeans(front);
      assert types == front + [last];
    }
  }

  lemma {:induction false} DedupKeepsOrder(types: seq<string>, i: nat, j: nat)
    requires i < j < |Dedup(types)|
    ensures FirstBefore(types, Dedup(types)[i], Dedup(types)[j])
  {
    var front, last := types[..|types| - 1], types[|types| - 1];
    assert types == front + [last];
    DedupMeans(front);
    if j < |Dedup(front)| {
      DedupKeepsOrder(front, i, j);
      var k :| 0 <= k < |front| && front[k] == Dedup(front)[i] && Dedup(front)[j] !in front[..k + 1];
      assert types[..k + 1] == front[..k + 1];
    } else {
      assert Dedup(front)[i] in front;
      var k :| 0 <= k < |front| && front[k] == Dedup(front)[i];
      assert last !in front;
      assert types[..k + 1] == front[..k + 1];
      assert forall x :: x in front[..k + 1] ==> x in front;
    }
  }

  lemma {:induction false} GatherMeans(items: seq<string>, f: string -> seq<string>, x: string)
    ensures x in Gather(items, f) <==> exists i :: 0 <= i < |items| && x in f(items[i])
  {
    if items != [] {
      var front := items[..|items| - 1];
      GatherMeans(front, f, x);
      if i :| 0 <= i < |front| && x in f(front[i]) {
        assert x in f(items[i]);
      }
    }
  }

  lemma GatherOneMore(items: seq<string>, f: string -> seq<string>, i: nat)
    requires i < |items|
    ensures Gather(items[..i + 1], f) == Gather(items[..i], f) + f(items[i])
  {
    assert items[..i + 1][..i] == items[..i];
  }

  // ---- what an entry is, without splitting or trimming ----

  ghost predicate IsWord(w: string) { w != "" && Free(w, IsSpace) }

  ghost predicate Blank(s: string) { forall i :: 0 <= i < |s| ==> IsSpace(s[i]) }

  /** The words with white space around them, some at least between two words. */
  ghost predicate IsLayout(gaps: seq<string>, words: seq<string>) {
    && |gaps| == |words| + 1
    && (forall k :: 0 <= k < |gaps| ==> Blank(gaps[k]))
    && (forall k :: 0 <= k < |words| ==> IsWord(words[k]))
    && (forall k :: 0 < k < |words| ==> gaps[k] != "")
  }

  ghost function Layout(gaps: seq<string>, words: seq<string>): string
    requires |gaps| == |words| + 1
  {
    if words == [] then gaps[0] else gaps[0] + (words[0] + Layout(gaps[1..], words[1..]))
  }

  /** The line consists of these words, with white space between them and perhaps around them. */
  ghost predicate HasWords(line: string, words: seq<string>) {
    exists gaps :: IsLayout(gaps, words) && line == Layout(gaps, words)
  }

  /** p is one of the comma-separated patterns of the host field. */
  ghost predicate IsPattern(field: string, p: string) {
    exists ps :: ps != [] && JoinComma(ps) == field && p in ps && forall k :: 0 <= k < |ps| ==> Free(ps[k], IsComma)
  }

  /** A hashed pattern is checked by the hash, any other one is the normal form of the address itself. */
  ghost predicate PatternFor(q: Query, field: string, p: string) {
    IsPattern(field, p) && if "|1|" <= p then q.hashed(p, q.norm) else p == q.norm
  }

  /**
   The line is an entry for the address with key type x: at least three words, the first one no comment and no marker
   but the patterns, the second one the key type.
   */
  ghost predicate IsEntry(q: Query, words: seq<string>, x: string) {
    && |words| >= 3 && words[0] != "" && words[0][0] != '#' && words[0][0] != '@'
    && words[1] == x && exists p :: PatternFor(q, words[0], p)
  }

  ghost predicate EntryFor(q: Query, line: string, x: string) {
    exists words :: HasWords(line, words) && IsEntry(q, words, x)
  }

  // ---- splitting and trimming find it ----

  lemma {:induction false} NonEmptyConcat(a: seq<string>, b: seq<string>)
    ensures NonEmpty(a + b) == NonEmpty(a) + NonEmpty(b)
  {
    if a == [] {
      assert a + b == b;
    } else {
      assert (a + b)[1..] == a[1..] + b;
      NonEmptyConcat(a[1..], b);
    }
  }

  lemma {:induction false} FieldsAfterBlank(a: string, s: string)
    requires Blank(a)
    ensures Fields(a + s) == Fields(s)
  {
    if a == "" {
      assert a + s == s;
    } else {
      assert (a + s)[1..] == a[1..] + s;
      FieldsAfterBlank(a[1..], s);
      assert ([""] + Split(a[1..] + s, IsSpace))[1..] == Split(a[1..] + s, IsSpace);
    }
  }

  lemma {:induction false} FieldsBeforeBlank(s: string, b: string)
    requires Blank(b)
    ensures Fields(s + b) == Fields(s)
    decreases |b|
  {
    if b == "" {
      assert s + b == s;
    } else {
      SplitConcat(s, b[0], b[1..], IsSpace);
      assert s + [b[0]] + b[1..] == s + b;
      NonEmptyConcat(Split(s, IsSpace), Split(b[1..], IsSpace));
      FieldsBeforeBlank("", b[1..]);
      assert "" + b[1..] == b[1..];
      assert [""][1..] == [];
    }
  }

  lemma FieldsAfterWord(w: string, rest: string)
    requires IsWord(w) && (rest != "" ==> IsSpace(rest[0]))
    ensures Fields(w + rest) == [w] + Fields(rest)
  {
    SplitFree(w, IsSpace);
    assert [w][1..] == [] && [""][1..] == [];
    if rest == "" {
      assert w + rest == w;
    } else {
      SplitConcat(w, rest[0], rest[1..], IsSpace);
      assert w + [rest[0]] + rest[1..] == w + rest;
      NonEmptyConcat([w], Split(rest[1..], IsSpace));
      FieldsAfterBlank([rest[0]], rest[1..]);
      assert [rest[0]] + rest[1..] == rest;
    }
  }

  lemma FieldsAfterOneWord(gap: string, w: string, rest: string)
    requires Blank(gap) && IsWord(w) && (rest != "" ==> IsSpace(rest[0]))
    ensures Fields(gap + (w + rest)) == [w] + Fields(rest)
  {
    FieldsAfterWord(w, rest);
    FieldsAfterBlank(gap, w + rest);
  }

  lemma LayoutRest(gaps: seq<string>, words: seq<string>)
    requires IsLayout(gaps, words) && words != []
    ensures IsLayout(gaps[1..], words[1..])
    ensures var rest := Layout(gaps[1..], words[1..]); rest != "" ==> IsSpace(rest[0])
  {
    var gaps', words' := gaps[1..], words[1..];
    assert forall k :: 0 <= k < |gaps'| ==> gaps'[k] == gaps[k + 1];
    assert forall k :: 0 <= k < |words'| ==> words'[k] == words[k + 1];
    assert Blank(gaps'[0]);
    if words' != [] {
      assert gaps'[0] != "";
    }
  }

  lemma {:induction false} FieldsOfLayout(gaps: seq<string>, words: seq<string>)
    requires IsLayout(gaps, words)
    ensures Fields(Layout(gaps, words)) == words
    decreases |words|
  {
    if words == [] {
      FieldsBeforeBlank("", gaps[0]);
      assert "" + gaps[0] == gaps[0] && [""][1..] == [];
    } else {
      LayoutRest(gaps, words);
      FieldsOfLayout(gaps[1..], words[1..]);
      FieldsAfterOneWord(gaps[0], words[0], Layout(gaps[1..], words[1..]));
      assert words == [words[0]] + words[1..];
    }
  }

  /** strings.Fields gives the words. */
  lemma FieldsAreTheWords(line: string, words: seq<string>)
    requires HasWords(line, words)
    ensures Fields(line) == words
  {
    var gaps :| IsLayout(gaps, words) && line == Layout(gaps, words);
    FieldsOfLayout(gaps, words);
  }

  /** Every line has its words. */
  lemma {:induction false} LayoutExists(line: string) returns (gaps: seq<string>, words: seq<string>)
    ensures IsLayout(gaps, words) && line == Layout(gaps, words)
    ensures line != "" && IsSpace(line[0]) ==> gaps[0] != ""
    decreases |line|
  {
    var i := LeadingSpace(line);
    if i == |line| {
      gaps, words := [line], [];
    } else {
      var j := WordEnd(line, i);
      var gaps', words' := LayoutExists(line[j..]);
      gaps, words := [line[..i]] + gaps', [line[i..j]] + words';
      assert gaps[1..] == gaps' && words[1..] == words';
      assert line == line[..i] + (line[i..j] + line[j..]);
      assert words' != [] ==> gaps'[0] != "";
    }
  }

  lemma WordsExist(line: string) returns (words: seq<string>)
    ensures HasWords(line, words)
  {
    var gaps;
    gaps, words := LayoutExists(line);
  }

  lemma {:induction false} WordEnd(line: string, i: nat) returns (j: nat)
    requires i < |line| && !IsSpace(line[i])
    ensures i < j <= |line| && IsWord(line[i..j]) && (j < |line| ==> IsSpace(line[j]))
    decreases |line| - i
  {
    j := i + 1;
    if j < |line| && !IsSpace(line[j]) {
      j := WordEnd(line, i + 1);
      assert forall k :: 0 < k < j - i ==> line[i..j][k] == line[i + 1..j][k - 1];
    }
  }

  lemma TrimKeepsFields(line: string)
    ensures Fields(Trim(line)) == Fields(line)
    ensures Trim(line) != "" ==> Fields(line) != [] && Fields(line)[0] != "" && Fields(line)[0][0] == Trim(line)[0]
    ensures Trim(line) == "" ==> Fields(line) == []
  {
    var a, b := TrimMeans(line);
    var mid := line[a..b];
    assert line == line[..a] + (mid + line[b..]);
    FieldsAfterBlank(line[..a], mid + line[b..]);
    FieldsBeforeBlank(mid, line[b..]);
    if mid != "" {
      assert !IsSpace(mid[0]);
      var j := WordEnd(mid, 0);
      assert mid == mid[0..j] + mid[j..];
      FieldsAfterWord(mid[0..j], mid[j..]);
    } else {
      assert [""][1..] == [];
    }
  }

  /** Which lines are entries: those of at least three words that do not begin with # or @. */
  lemma EntryFieldsMean(line: string, words: seq<string>)
    requires HasWords(line, words)
    ensures EntryFields(line) ==
            if |words| < 3 || (words[0] != "" && (words[0][0] == '#' || words[0][0] == '@')) then [] else words
  {
    FieldsAreTheWords(line, words);
    TrimKeepsFields(line);
  }

  lemma PatternsMean(field: string, p: string)
    ensures p in Split(field, IsComma) <==> IsPattern(field, p)
  {
    JoinSplit(field);
    PartsAreFree(field, IsComma);
    if IsPattern(field, p) {
      var ps :| ps != [] && JoinComma(ps) == field && p in ps && forall k :: 0 <= k < |ps| ==> Free(ps[k], IsComma);
      SplitJoin(ps);
    }
  }

  lemma NamesHostMeans(q: Query, field: string)
    ensures NamesHost(q, Split(field, IsComma)) <==> exists p :: PatternFor(q, field, p)
  {
    var hosts := Split(field, IsComma);
    if k :| 0 <= k < |hosts| && HostMatches(q, hosts[k]) {
      PatternsMean(field, hosts[k]);
      assert PatternFor(q, field, hosts[k]);
    }
    if p :| PatternFor(q, field, p) {
      PatternsMean(field, p);
      var k :| 0 <= k < |hosts| && hosts[k] == p;
      assert HostMatches(q, hosts[k]);
    }
  }

  lemma LineTypesMean(q: Query, line: string, x: string)
    ensures x in LineTypes(q, line) <==> EntryFor(q, line, x)
  {
    var words := WordsExist(line);
    EntryFieldsMean(line, words);
    if |words| >= 3 { NamesHostMeans(q, words[0]); }
    assert x in LineTypes(q, line) <==> IsEntry(q, words, x) by {
      FieldsAreTheWords(line, words);
      TrimKeepsFields(line);
    }
    if EntryFor(q, line, x) {
      var other :| HasWords(line, other) && IsEntry(q, other, x);
      FieldsAreTheWords(line, words);
      FieldsAreTheWords(line, other);
    }
  }

  /** The ordinary entry: patterns, key type and key, separated by spaces. */
  lemma ThreeWords(h: string, t: string, k: string)
    requires IsWord(h) && IsWord(t) && IsWord(k)
    ensures HasWords(h + " " + t + " " + k, [h, t, k])
  {
    var gaps, words := ["", " ", " ", ""], [h, t, k];
    assert gaps[1..] == [" ", " ", ""] && gaps[1..][1..] == [" ", ""] && gaps[1..][1..][1..] == [""];
    assert words[1..] == [t, k] && words[1..][1..] == [k] && words[1..][1..][1..] == [];
    assert Layout([" ", ""], [k]) == " " + k;
    assert Layout([" ", " ", ""], [t, k]) == " " + t + (" " + k);
    assert Layout(gaps, words) == h + " " + t + " " + k;
    assert IsLayout(gaps, words);
  }

  /** The file can be read and has such an entry. */
  ghost predicate FileRecords(q: Query, file: string, x: string) {
    match q.read(file)
    case None => false
    case Some(data) =>
      var lines := Split(data, IsNewline);
      exists i :: 0 <= i < |lines| && EntryFor(q, lines[i], x)
  }

  /** One of the files has such an entry. */
  ghost predicate Recorded(q: Query, files: seq<string>, x: string) {
    exists i :: 0 <= i < |files| && FileRecords(q, files[i], x)
  }

  lemma FileRecordsMeans(q: Query, file: string, x: string)
    ensures x in FileTypes(q, file) <==> FileRecords(q, file, x)
  {
    if q.read(file).Some? {
      var lines := Split(q.read(file).value, IsNewline);
      GatherMeans(lines, LineTyper(q), x);
      forall i | 0 <= i < |lines|
        ensures x in LineTyper(q)(lines[i]) <==> EntryFor(q, lines[i], x)
      {
        LineTypesMean(q, lines[i], x);
      }
    }
  }

  lemma FilesRecordMeans(q: Query, files: seq<string>, x: string)
    ensures x in FilesTypes(q, files) <==> Recorded(q, files, x)
  {
    GatherMeans(files, file => FileTypes(q, file), x);
    forall i | 0 <= i < |files|
      ensures x in FileTypes(q, files[i]) <==> FileRecords(q, files[i], x)
    {
      FileRecordsMeans(q, files[i], x);
    }
  }

  /** Some line of the file is an entry with key type x, and neither it nor a line before it is one with y. */
  ghost predicate LineBefore(q: Query, lines: seq<string>, x: string, y: string) {
    exists i :: 0 <= i < |lines| && EntryFor(q, lines[i], x) && forall k :: 0 <= k <= i ==> !EntryFor(q, lines[k], y)
  }

  /** The same over all files: x is recorded before y is. */
  ghost predicate RecordedBefore(q: Query, files: seq<string>, x: string, y: string) {
    exists i :: 0 <= i < |files| && q.read(files[i]).Some?
      && LineBefore(q, Split(q.read(files[i]).value, IsNewline), x, y)
      && forall k :: 0 <= k < i ==> !FileRecords(q, files[k], y)
  }

  lemma {:induction false} GatherFirst(items: seq<string>, f: string -> seq<string>, x: string, y: string)
    returns (i: nat)
    requires FirstBefore(Gather(items, f), x, y)
    ensures i < |items| && FirstBefore(f(items[i]), x, y) && forall k :: 0 <= k < i ==> y !in f(items[k])
  {
    var all := Gather(items, f);
    var p :| 0 <= p < |all| && all[p] == x && y !in all[..p + 1];
    var n := |items| - 1;
    var front := Gather(items[..n], f);
    if p < |front| {
      assert all[..p + 1] == front[..p + 1];
      i := GatherFirst(items[..n], f, x, y);
    } else {
      i := n;
      var last := f(items[n]);
      assert all[..p + 1] == front + last[..p + 1 - |front|];
      assert last[p - |front|] == x && y !in front;
      GatherMeans(items[..n], f, y);
      forall k | 0 <= k < n
        ensures y !in f(items[k])
      {
        assert items[..n][k] == items[k];
      }
    }
  }

  lemma LinesBefore(q: Query, lines: seq<string>, x: string, y: string)
    requires FirstBefore(LinesTypes(q, lines), x, y)
    ensures LineBefore(q, lines, x, y)
  {
    var i := GatherFirst(lines, LineTyper(q), x, y);
    LineTypesMean(q, lines[i], x);
    forall k | 0 <= k <= i
      ensures !EntryFor(q, lines[k], y)
    {
      LineTypesMean(q, lines[k], y);
      assert k == i ==> LineTypes(q, lines[i]) == [x] && x != y;
    }
  }

  lemma FilesBefore(q: Query, files: seq<string>, x: string, y: string)
    requires FirstBefore(FilesTypes(q, files), x, y)
    ensures RecordedBefore(q, files, x, y)
  {
    var i := GatherFirst(files, file => FileTypes(q, file), x, y);
    LinesBefore(q, Split(q.read(files[i]).value, IsNewline), x, y);
    forall k | 0 <= k < i
      ensures !FileRecords(q, files[k], y)
    {
      FileRecordsMeans(q, files[k], y);
    }
  }

  /**
   With host key checking on, the result holds exactly the key types that some readable file records for the
   address, each once, in the order of their first record.
   */
  lemma AlgorithmsAreTheRecorded(q: Query)
    requires q.strict.Some? && q.strict.value != "no"
    requires q.userKnownHosts.Some? && q.userKnownHosts.value != "" && q.addr != ""
    ensures var files := Split(q.userKnownHosts.value, IsBlank);
            && (forall x :: x in Algorithms(q) <==> Recorded(q, files, x))
            && (forall i, j :: 0 <= i < j < |Algorithms(q)| ==>
                  && Algorithms(q)[i] != Algorithms(q)[j]
                  && RecordedBefore(q, files, Algorithms(q)[i], Algorithms(q)[j]))
  {
    var files := Split(q.userKnownHosts.value, IsBlank);
    var types := FilesTypes(q, files);
    DedupMeans(types);
    forall x
      ensures x in types <==> Recorded(q, files, x)
    {
      FilesRecordMeans(q, files, x);
    }
    forall i, j | 0 <= i < j < |Dedup(types)|
      ensures RecordedBefore(q, files, Dedup(types)[i], Dedup(types)[j])
    {
      DedupKeepsOrder(types, i, j);
      FilesBefore(q, files, Dedup(types)[i], Dedup(types)[j]);
    }
  }

  /** Without checking, files or an address there is no restriction. */
  lemma NoAlgorithmsWithoutChecking(q: Query)
    requires q.strict in {None, Some("no")} || q.userKnownHosts in {None, Some("")} || q.addr == ""
    ensures Algorithms(q) == []
  {}

  /** One of the files can be read and has this line. */
  ghost predicate HasLine(q: Query, line: string) {
    q.userKnownHosts.Some? &&
    exists file :: file in Split(q.userKnownHosts.value, IsBlank) && q.read(file).Some?
      && line in Split(q.read(file).value, IsNewline)
  }

  ghost predicate Checking(q: Query) {
    q.strict.Some? && q.strict.value != "no" && q.userKnownHosts.Some? && q.userKnownHosts.value != "" && q.addr != ""
  }

  /** An ordinary entry for the address, in any readable file, puts its key type into the result. */
  lemma OrdinaryEntryCounts(q: Query, field: string, t: string, key: string)
    ensures Checking(q) && HasLine(q, field + " " + t + " " + key)
            && IsWord(field) && field[0] != '#' && field[0] != '@' && IsWord(t) && IsWord(key)
            && IsPattern(field, q.norm) && !("|1|" <= q.norm)
            ==> t in Algorithms(q)
  {
    if Checking(q) && HasLine(q, field + " " + t + " " + key)
       && IsWord(field) && field[0] != '#' && field[0] != '@' && IsWord(t) && IsWord(key)
       && IsPattern(field, q.norm) && !("|1|" <= q.norm)
    {
      ThreeWords(field, t, key);
      assert PatternFor(q, field, q.norm);
      assert IsEntry(q, [field, t, key], t);
      EntryCounts(q, field + " " + t + " " + key, t);
    }
  }

  lemma EntryCounts(q: Query, line: string, x: string)
    ensures Checking(q) && HasLine(q, line) && EntryFor(q, line, x) ==> x in Algorithms(q)
  {
    if Checking(q) && HasLine(q, line) && EntryFor(q, line, x) {
      AlgorithmsAreTheRecorded(q);
      var files := Split(q.userKnownHosts.value, IsBlank);
      var file :| file in files && q.read(file).Some? && line in Split(q.read(file).value, IsNewline);
      assert FileRecords(q, file, x);
      var f :| 0 <= f < |files| && files[f] == file;
      assert FileRecords(q, files[f], x);
    }
  }

  lemma WordsAreUnique(line: string, a: seq<string>, b: seq<string>)
    requires HasWords(line, a) && HasWords(line, b)
    ensures a == b
  {
    FieldsAreTheWords(line, a);
    FieldsAreTheWords(line, b);
  }

  /** Blank lines, comments, markers and lines of one or two words record nothing. */
  lemma OtherLinesDoNot(q: Query, line: string, words: seq<string>, x: string)
    requires HasWords(line, words)
    requires |words| < 3 || "#" <= words[0] || "@" <= words[0]
    ensures !EntryFor(q, line, x)
  {
    if EntryFor(q, line, x) {
      var other :| HasWords(line, other) && IsEntry(q, other, x);
      WordsAreUnique(line, words, other);
    }
  }

  // ---- the scan ----

  lemma DedupOneMore(types: seq<string>, t: string)
    ensures Dedup(types + [t]) == if t in Dedup(types) then Dedup(types) else Dedup(types) + [t]
  {
    assert (types + [t])[..|types|] == types;
  }

  /** The loop over one line's host patterns, with its early break. */
  method ScanEntry(q: Query, fields: seq<string>, algos: seq<string>, seen: set<string>)
    returns (algos': seq<string>, seen': set<string>)
    requires |fields| >= 3 && seen == (set a | a in algos)
    ensures seen' == (set a | a in algos')
    ensures algos' ==
            if NamesHost(q, Split(fields[0], IsComma)) && fields[1] !in algos then algos + [fields[1]] else algos
  {
    algos', seen' := algos, seen;
    var hosts := Split(fields[0], IsComma);
    for k := 0 to |hosts|
      invariant algos' == algos && seen' == seen
      invariant forall i :: 0 <= i < k ==> !HostMatches(q, hosts[i]) || fields[1] in seen
    {
      var matches: bool;
      if "|1|" <= hosts[k] {
        matches := q.hashed(hosts[k], q.norm);
      } else {
        matches := hosts[k] == q.norm;
      }
      if matches && fields[1] !in seen' {
        algos' := algos' + [fields[1]];
        seen' := seen' + {fields[1]};
        assert HostMatches(q, hosts[k]);
        break;
      }
    }
  }

  /** The body of the loop over lines; `before` are the types found so far, repeats included. */
  method ScanLine(q: Query, line: string, algos: seq<string>, seen: set<string>, ghost before: seq<string>)
    returns (algos': seq<string>, seen': set<string>)
    requires algos == Dedup(before) && seen == (set a | a in algos)
    ensures algos' == Dedup(before + LineTypes(q, line)) && seen' == (set a | a in algos')
  {
    algos', seen' := algos, seen;
    assert before + [] == before;
    var fields := EntryFields(line);
    if |fields| >= 3 {
      DedupOneMore(before, fields[1]);
      algos', seen' := ScanEntry(q, fields, algos, seen);
    }
  }

  /** The loop over the lines of one file; `before` is what the files before it contributed. */
  method ScanLines(q: Query, lines: seq<string>, algos: seq<string>, seen: set<string>, ghost before: seq<string>)
    returns (algos': seq<string>, seen': set<string>)
    requires algos == Dedup(before) && seen == (set a | a in algos)
    ensures algos' == Dedup(before + LinesTypes(q, lines)) && seen' == (set a | a in algos')
  {
    algos', seen' := algos, seen;
    ghost var f := LineTyper(q);
    assert before + [] == before;
    for i := 0 to |lines|
      invariant algos' == Dedup(before + Gather(lines[..i], f)) && seen' == (set a | a in algos')
    {
      ghost var found := Gather(lines[..i], f);
      GatherOneMore(lines, f, i);
      algos', seen' := ScanLine(q, lines[i], algos', seen', before + found);
      assert before + found + f(lines[i]) == before + (found + f(lines[i]));
    }
    assert lines[..|lines|] == lines;
  }

  method KnownHostAlgorithms(q: Query) returns (algos: seq<string>)
    ensures algos == Algorithms(q)
  {
    if q.strict.None? || q.strict.value == "no" {
      return [];
    }
    if q.userKnownHosts.None? || q.userKnownHosts.value == "" {
      return [];
    }
    if q.addr == "" {
      return [];
    }
    algos := [];
    var seen: set<string> := {};
    var files := Split(q.userKnownHosts.value, IsBlank);
    for i := 0 to |files|
      invariant algos == Dedup(FilesTypes(q, files[..i])) && seen == (set a | a in algos)
    {
      GatherOneMore(files, file => FileTypes(q, file), i);
      ghost var before := FilesTypes(q, files[..i]);
      assert before + [] == before;
      var data := q.read(files[i]);
      if data.None? {
        continue;
      }
      algos, seen := ScanLines(q, Split(data.value, IsNewline), algos, seen, before);
    }
    assert files[..|files|] == files;
  }
}
