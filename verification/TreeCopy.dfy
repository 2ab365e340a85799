/** copyDir, copyFile and totalSize: what they leave at the destination, and what they report as progress. */
module TreeCopy {
  import opened Wrappers
  import opened FileTree
  import opened TargetPath

  function NodeOf(t: Tree): Node {
    match t
    case File(bytes) => FileNode(bytes)
    case Dir(_) => DirNode
  }

  /** The part of the source that lands on path p when t is re-rooted at dest. */
  function Landing(dest: Path, t: Tree, p: Path): Option<Tree> {
    if dest <= p then Lookup(t, p[|dest|..]) else None
  }

  /** The destination at p after a complete copy: the source wins, ancestors of dest exist, all else is as before. */
  function Expected(m: Files, dest: Path, t: Tree, p: Path): Option<Node> {
    if Landing(dest, t, p).Some? then Some(NodeOf(Landing(dest, t, p).value))
    else if p <= dest then Some(DirNode)
    else Get(m, p)
  }

  ghost predicate IsOverlay(m: Files, m': Files, dest: Path, t: Tree) {
    forall p :: Get(m', p) == Expected(m, dest, t, p)
  }

  /** Some part of the copy has happened at p: an ancestor was made, a directory was made, or a file was begun. */
  ghost predicate PartlyCopied(m': Files, dest: Path, t: Tree, p: Path) {
    || (p <= dest && p != dest && Get(m', p) == Some(DirNode))
    || (Landing(dest, t, p).Some? &&
        match Landing(dest, t, p).value
        case Dir(_) => Get(m', p) == Some(DirNode)
        case File(bytes) => p in m' && m'[p].FileNode? && m'[p].bytes <= bytes)
  }

  /** The most a failed copy may have done. */
  ghost predicate Confined(m: Files, m': Files, dest: Path, t: Tree) {
    forall p :: Get(m', p) == Get(m, p) || PartlyCopied(m', dest, t, p)
  }

  /** Nothing at the destination is in the way: every source entry meets nothing, or a node of its own kind. */
  ghost predicate Compatible(m: Files, dest: Path, t: Tree) {
    forall p :: p in m ==>
      && (p <= dest && p != dest ==> m[p].DirNode?)
      && (Landing(dest, t, p).Some? ==> (m[p].DirNode? <==> Landing(dest, t, p).value.Dir?))
  }

  // ---- one directory, entry by entry ----

  /** Where entry `name` of a directory copied to dest lands. */
  lemma LandingInEntry(dest: Path, name: Name, t: Tree, p: Path)
    ensures dest + [name] <= p <==> dest <= p && |p| > |dest| && p[|dest|] == name
    ensures dest + [name] <= p ==> Landing(dest + [name], t, p) == Lookup(t, p[|dest|..][1..])
    ensures p <= dest + [name] <==> p <= dest || p == dest + [name]
  {
    if dest + [name] <= p {
      assert p[|dest + [name]|..] == p[|dest|..][1..];
      assert p[|dest|] == (dest + [name])[|dest|];
      assert dest <= p;
    }
    if p <= dest + [name] && |p| <= |dest| {
      assert (dest + [name])[..|p|] == dest[..|p|];
    }
    if p <= dest {
      assert (dest + [name])[..|p|] == dest[..|p|];
    }
    if p <= dest + [name] && |p| == |dest| + 1 {
      assert p == dest + [name];
    }
  }

  /** What a longer list of distinct names finds, a shorter one finds too if it reaches that far. */
  lemma FindInSlice(entries: seq<Entry>, n: nat, k: nat)
    requires DistinctNames(entries) && k < n <= |entries|
    ensures Find(entries[..n], entries[k].name) == Some(entries[k].node)
  {
    FindIsEntry(entries[..n], k);
  }

  lemma FindOneMore(entries: seq<Entry>, i: nat, name: Name)
    requires DistinctNames(entries) && i < |entries|
    ensures Find(entries[..i + 1], name) ==
            if entries[i].name == name then Some(entries[i].node) else Find(entries[..i], name)
  {
    if entries[i].name == name {
      FindInSlice(entries, i + 1, i);
    } else if k :| 0 <= k < i && entries[k].name == name {
      FindInSlice(entries, i, k);
      FindInSlice(entries, i + 1, k);
    } else {
      NotFound(entries[..i], name);
      NotFound(entries[..i + 1], name);
    }
  }

  lemma FindEarlier(entries: seq<Entry>, i: nat, name: Name)
    requires DistinctNames(entries) && i <= |entries|
    ensures Find(entries[..i], name).Some? ==> Find(entries, name) == Find(entries[..i], name)
  {
    if k :| 0 <= k < i && entries[k].name == name {
      assert entries[..|entries|] == entries;
      FindInSlice(entries, i, k);
      FindInSlice(entries, |entries|, k);
    } else {
      NotFound(entries[..i], name);
    }
  }

  lemma FindInPrefix(entries: seq<Entry>, i: nat, name: Name)
    requires DistinctNames(entries) && i < |entries|
    ensures Find(entries[..i + 1], name) ==
            if entries[i].name == name then Some(entries[i].node) else Find(entries[..i], name)
    ensures Find(entries[..i], name).Some? ==> Find(entries, name) == Find(entries[..i], name)
    ensures Find(entries, entries[i].name) == Some(entries[i].node) && Find(entries[..i], entries[i].name).None?
  {
    FindOneMore(entries, i, name);
    FindEarlier(entries, i, name);
    FindIsEntry(entries, i);
    NotFound(entries[..i], entries[i].name);
  }

  lemma {:induction false} NotFound(entries: seq<Entry>, name: Name)
    requires forall k :: 0 <= k < |entries| ==> entries[k].name != name
    ensures Find(entries, name).None?
  {
    if entries != [] { NotFound(entries[1..], name); }
  }

  /** Landing in a directory: the directory itself, or below the entry named by the next component. */
  lemma LandingInDir(dest: Path, entries: seq<Entry>, p: Path)
    ensures p == dest ==> Landing(dest, Dir(entries), p) == Some(Dir(entries))
    ensures dest <= p && p != dest ==>
              Landing(dest, Dir(entries), p) ==
              match Find(entries, p[|dest|])
              case None => None
              case Some(child) => Landing(dest + [p[|dest|]], child, p)
  {
    if dest <= p && p != dest {
      LandingInEntry(dest, p[|dest|], Dir(entries), p);
      var child := Find(entries, p[|dest|]);
      if child.Some? {
        LandingInEntry(dest, p[|dest|], child.value, p);
      }
      assert p[|dest|..][0] == p[|dest|];
    }
  }

  lemma OverlayStep(m0: Files, m1: Files, m2: Files, dest: Path, entries: seq<Entry>, i: nat)
    requires DistinctNames(entries) && i < |entries|
    requires IsOverlay(m0, m1, dest, Dir(entries[..i]))
    requires IsOverlay(m1, m2, dest + [entries[i].name], entries[i].node)
    ensures IsOverlay(m0, m2, dest, Dir(entries[..i + 1]))
  {
    var name, t := entries[i].name, entries[i].node;
    forall p
      ensures Get(m2, p) == Expected(m0, dest, Dir(entries[..i + 1]), p)
    {
      assert Get(m1, p) == Expected(m0, dest, Dir(entries[..i]), p);
      assert Get(m2, p) == Expected(m1, dest + [name], t, p);
      LandingInEntry(dest, name, t, p);
      LandingInDir(dest, entries[..i], p);
      LandingInDir(dest, entries[..i + 1], p);
      if dest <= p && p != dest {
        FindInPrefix(entries, i, p[|dest|]);
      }
    }
  }

  lemma ConfinedStep(m0: Files, m1: Files, m2: Files, dest: Path, entries: seq<Entry>, i: nat)
    requires DistinctNames(entries) && i < |entries|
    requires IsOverlay(m0, m1, dest, Dir(entries[..i]))
    requires Confined(m1, m2, dest + [entries[i].name], entries[i].node)
    ensures Confined(m0, m2, dest, Dir(entries))
  {
    var name, t := entries[i].name, entries[i].node;
    forall p
      ensures Get(m2, p) == Get(m0, p) || PartlyCopied(m2, dest, Dir(entries), p)
    {
      assert Get(m1, p) == Expected(m0, dest, Dir(entries[..i]), p);
      assert Get(m2, p) == Get(m1, p) || PartlyCopied(m2, dest + [name], t, p);
      LandingInEntry(dest, name, t, p);
      LandingInDir(dest, entries[..i], p);
      LandingInDir(dest, entries, p);
      if dest <= p && p != dest {
        FindInPrefix(entries, i, p[|dest|]);
      }
    }
  }

  lemma OverlayIsConfined(m0: Files, m1: Files, dest: Path, entries: seq<Entry>, i: nat)
    requires DistinctNames(entries) && i <= |entries|
    requires IsOverlay(m0, m1, dest, Dir(entries[..i]))
    ensures Confined(m0, m1, dest, Dir(entries))
  {
    forall p
      ensures Get(m1, p) == Get(m0, p) || PartlyCopied(m1, dest, Dir(entries), p)
    {
      assert Get(m1, p) == Expected(m0, dest, Dir(entries[..i]), p);
      LandingInDir(dest, entries[..i], p);
      LandingInDir(dest, entries, p);
      if dest <= p && p != dest {
        if i < |entries| { FindInPrefix(entries, i, p[|dest|]); } else { assert entries[..i] == entries; }
      }
    }
  }

  lemma CompatibleStep(m0: Files, m1: Files, dest: Path, entries: seq<Entry>, i: nat)
    requires DistinctNames(entries) && i < |entries|
    requires IsOverlay(m0, m1, dest, Dir(entries[..i]))
    requires Compatible(m0, dest, Dir(entries))
    ensures Compatible(m1, dest + [entries[i].name], entries[i].node)
  {
    var name, t := entries[i].name, entries[i].node;
    forall p | p in m1
      ensures p <= dest + [name] && p != dest + [name] ==> m1[p].DirNode?
      ensures Landing(dest + [name], t, p).Some? ==> (m1[p].DirNode? <==> Landing(dest + [name], t, p).value.Dir?)
    {
      assert Get(m1, p) == Expected(m0, dest, Dir(entries[..i]), p);
      LandingInEntry(dest, name, t, p);
      LandingInDir(dest, entries[..i], p);
      LandingInDir(dest, entries, p);
      if dest <= p && p != dest {
        FindInPrefix(entries, i, p[|dest|]);
      }
    }
  }

  /** A complete copy that kept the kind of every old node met nothing of another kind. */
  lemma OverlayMeansCompatible(m: Files, m': Files, dest: Path, t: Tree)
    requires IsOverlay(m, m', dest, t) && KindsKept(m, m')
    ensures Compatible(m, dest, t)
  {
    forall p | p in m
      ensures p <= dest && p != dest ==> m[p].DirNode?
      ensures Landing(dest, t, p).Some? ==> (m[p].DirNode? <==> Landing(dest, t, p).value.Dir?)
    {
      assert Get(m', p) == Expected(m, dest, t, p);
      if p <= dest && p != dest {
        assert !(dest <= p);
      }
    }
  }

  lemma DirsMadeIsConfined(m: Files, m': Files, dest: Path, entries: seq<Entry>)
    requires DirsMade(m, m', dest)
    ensures Confined(m, m', dest, Dir(entries)) && KindsKept(m, m')
    ensures DirsUpTo(m', dest, |dest|) ==> IsOverlay(m, m', dest, Dir([]))
  {
    forall p
      ensures Get(m', p) == Get(m, p) || PartlyCopied(m', dest, Dir(entries), p)
      ensures DirsUpTo(m', dest, |dest|) ==> Get(m', p) == Expected(m, dest, Dir([]), p)
    {
      LandingInDir(dest, entries, p);
      LandingInDir(dest, [], p);
      if p <= dest && DirsUpTo(m', dest, |dest|) {
        assert dest[..|p|] == p;
      }
    }
    forall p | p in m
      ensures p in m' && (m'[p].DirNode? <==> m[p].DirNode?)
    {
      assert Get(m', p) == Get(m, p);
    }
  }

  lemma CompatibleWay(m: Files, dest: Path, entries: seq<Entry>)
    requires Compatible(m, dest, Dir(entries))
    ensures NoFileOnTheWay(m, dest)
  {
    LandingInDir(dest, entries, dest);
    forall k | 0 <= k <= |dest| && dest[..k] in m
      ensures m[dest[..k]].DirNode?
    {
      assert dest[..|dest|] == dest;
    }
  }

  lemma FileLanding(m: Files, m': Files, dest: Path, bytes: seq<Byte>, written: seq<Byte>)
    requires dest != [] && m' == m[dest := FileNode(written)] && written <= bytes && TreeShaped(m')
    ensures Confined(m, m', dest, File(bytes))
    ensures written == bytes ==> IsOverlay(m, m', dest, File(bytes))
  {
    forall p
      ensures Get(m', p) == Get(m, p) || PartlyCopied(m', dest, File(bytes), p)
      ensures written == bytes ==> Get(m', p) == Expected(m, dest, File(bytes), p)
    {
      if p <= dest && p != dest {
        AncestorsAreDirs(m', dest, |p|);
        assert dest[..|p|] == p;
      }
      if p == dest {
        assert p[|dest|..] == [];
      }
    }
  }

  // ---- the operations a copy consists of, in order ----

  /** Writes of all the bytes, in chunks of any size. */
  ghost predicate IsWrites(dest: Path, bytes: seq<Byte>, ops: seq<Op>)
    decreases |ops|
  {
    if ops == [] then bytes == []
    else
      var last := ops[|ops| - 1];
      && last.Write? && last.path == dest && |last.chunk| <= |bytes|
      && last.chunk == bytes[|bytes| - |last.chunk|..]
      && IsWrites(dest, bytes[..|bytes| - |last.chunk|], ops[..|ops| - 1])
  }

  /** The operations of a complete copy of t to dest. */
  ghost predicate IsCopy(dest: Path, t: Tree, ops: seq<Op>)
    decreases t, 1
  {
    match t
    case File(bytes) => ops != [] && ops[0] == Open(dest) && IsWrites(dest, bytes, ops[1..])
    case Dir(entries) => MkDirs(dest) <= ops && IsEntriesCopy(dest, entries, ops[|dest|..])
  }

  ghost predicate IsEntriesCopy(dest: Path, entries: seq<Entry>, ops: seq<Op>)
    decreases entries, 0
  {
    if entries == [] then ops == []
    else
      var last := entries[|entries| - 1];
      exists k :: 0 <= k <= |ops|
        && IsEntriesCopy(dest, entries[..|entries| - 1], ops[..k]) && IsCopy(dest + [last.name], last.node, ops[k..])
  }

  /** Since the log was `start`, exactly these writes have been logged, or exactly this copy. */
  ghost predicate LoggedWrites(start: seq<Op>, log: seq<Op>, dest: Path, bytes: seq<Byte>) {
    start <= log && IsWrites(dest, bytes, log[|start|..])
  }

  ghost predicate LoggedCopy(start: seq<Op>, log: seq<Op>, dest: Path, t: Tree) {
    start <= log && IsCopy(dest, t, log[|start|..])
  }

  ghost predicate LoggedEntries(start: seq<Op>, log: seq<Op>, dest: Path, entries: seq<Entry>) {
    start <= log && IsEntriesCopy(dest, entries, log[|start|..])
  }

  lemma LogWrite(start: seq<Op>, log: seq<Op>, dest: Path, bytes: seq<Byte>, done: nat, chunk: nat)
    requires done + chunk <= |bytes| && LoggedWrites(start, log, dest, bytes[..done])
    ensures LoggedWrites(start, log + [Write(dest, bytes[done..done + chunk])], dest, bytes[..done + chunk])
  {
    var longer, last := bytes[..done + chunk], Write(dest, bytes[done..done + chunk]);
    assert longer[..done] == bytes[..done] && longer[done..] == bytes[done..done + chunk];
    assert (log + [last])[|start|..] == log[|start|..] + [last];
    assert (log[|start|..] + [last])[..|log| - |start|] == log[|start|..];
  }

  lemma LogFile(start: seq<Op>, log: seq<Op>, dest: Path, bytes: seq<Byte>)
    requires LoggedWrites(start + [Open(dest)], log, dest, bytes)
    ensures LoggedCopy(start, log, dest, File(bytes))
  {
    assert log[|start|] == (start + [Open(dest)])[|start|];
    assert log[|start|..][1..] == log[|start| + 1..];
  }

  lemma LogDir(start: seq<Op>, log: seq<Op>, dest: Path, entries: seq<Entry>)
    requires LoggedEntries(start + MkDirs(dest), log, dest, entries)
    ensures LoggedCopy(start, log, dest, Dir(entries))
  {
    assert log[|start|..][|dest|..] == log[|start| + |dest|..];
    assert MkDirs(dest) == (start + MkDirs(dest))[|start|..] <= log[|start|..];
  }

  lemma LogEntry(start: seq<Op>, log: seq<Op>, log': seq<Op>, dest: Path, entries: seq<Entry>, i: nat)
    requires i < |entries| && LoggedEntries(start, log, dest, entries[..i])
    requires LoggedCopy(log, log', dest + [entries[i].name], entries[i].node)
    ensures LoggedEntries(start, log', dest, entries[..i + 1])
  {
    assert entries[..i + 1][..i] == entries[..i];
    var ops, k := log'[|start|..], |log| - |start|;
    assert ops[..k] == log[|start|..] && ops[k..] == log'[|log|..];
  }

  // ---- the operations ----

  /** The ProgressFunc: one call per chunk read. */
  class Progress {
    var calls: seq<nat>

    constructor ()
      ensures calls == []
    {
      calls := [];
    }

    method Report(n: nat)
      modifies this
      ensures calls == old(calls) + [n] && Sum(calls) == Sum(old(calls)) + n
    {
      calls := calls + [n];
      assert calls[..|calls| - 1] == old(calls);
    }
  }

  /** The bytes of all files below dir; None when dir cannot be listed. */
  function SizeOf(from: Tree, dir: Path): Option<nat> {
    match Lookup(from, dir)
    case Some(Dir(entries)) => Some(TotalBytes(Dir(entries)))
    case _ => None
  }

  /**
   totalSize. When the source is faulty any listing or stat may fail, and the call then returns what it had added up
   in this directory so far.
   */
  method TotalSize(from: Tree, dir: Path, faulty: bool) returns (total: nat, ok: bool)
    requires WellFormed(from)
    ensures ok ==> SizeOf(from, dir) == Some(total)
    ensures !ok ==> total <= match SizeOf(from, dir) case Some(n) => n case None => 0
    ensures !faulty ==> (ok <==> SizeOf(from, dir).Some?)
    decreases match Lookup(from, dir) case Some(t) => t case None => File([])
  {
    var listed := Lookup(from, dir);
    if listed.None? || listed.value.File? {
      return 0, false;
    }
    var broken: bool := *;
    if faulty && broken {
      return 0, false;
    }
    var entries := listed.value.entries;
    LookupWellFormed(from, dir);
    total := 0;
    for i := 0 to |entries|
      invariant total == EntriesBytes(entries[..i])
    {
      EntriesBytesPrefix(entries, i);
      match entries[i].node {
        case File(bytes) =>
          broken := *;
          if faulty && broken {
            return total, false;
          }
          total := total + |bytes|;
        case Dir(_) =>
          LookupChild(from, dir, entries[i].name);
          FindIsEntry(entries, i);
          var n, sized := TotalSize(from, dir + [entries[i].name], faulty);
          if !sized {
            return total, false;
          }
          total := total + n;
      }
    }
    assert entries[..|entries|] == entries;
    return total, true;
  }

  lemma MoreBytes(m: Files, dest: Path, bytes: seq<Byte>, done: nat, chunk: nat, n: nat)
    requires done + chunk <= |bytes| && n <= chunk
    ensures m[dest := FileNode(bytes[..done])][dest := FileNode(bytes[..done] + bytes[done..done + chunk][..n])] ==
            m[dest := FileNode(bytes[..done + n])]
  {
    assert bytes[..done] + bytes[done..done + chunk][..n] == bytes[..done + n];
  }

  /** The file at dest has been opened and the first n bytes written. */
  ghost predicate Written(m: Files, m': Files, dest: Path, bytes: seq<Byte>, n: nat) {
    n <= |bytes| && m' == m[dest := FileNode(bytes[..n])]
  }

  /** One round of io.Copy through the progressReader: read a chunk, report it, write it. */
  method CopyChunk(bytes: seq<Byte>, done: nat, chunk: nat, dest: Path, to: FileSys, progress: Progress,
                   ghost before: Files)
    returns (ok: bool, ghost n: nat)
    requires done + chunk <= |bytes| && to.Valid() && Written(before, to.nodes, dest, bytes, done)
    modifies to, progress
    ensures to.Valid()
    ensures done <= n <= done + chunk && (ok ==> n == done + chunk) && Written(before, to.nodes, dest, bytes, n)
    ensures Sum(old(progress.calls)) <= Sum(progress.calls) <= Sum(old(progress.calls)) + chunk
    ensures ok ==> Sum(progress.calls) == Sum(old(progress.calls)) + chunk
    ensures ok ==> to.log == old(to.log) + [Write(dest, bytes[done..done + chunk])]
    ensures !to.faulty ==> ok
  {
    if to.faulty {
      var broken: bool := *;
      if broken { return false, done; }
    }
    progress.Report(chunk);
    ghost var k;
    ok, k := to.Append(dest, bytes[done..done + chunk]);
    MoreBytes(before, dest, bytes, done, chunk, k);
    n := done + k;
  }

  /** io.Copy: any chunking, and any point of failure when the target is faulty. */
  method CopyBytes(bytes: seq<Byte>, dest: Path, to: FileSys, progress: Progress, ghost before: Files)
    returns (ok: bool, ghost n: nat)
    requires to.Valid() && Written(before, to.nodes, dest, bytes, 0)
    modifies to, progress
    ensures to.Valid()
    ensures (ok ==> n == |bytes|) && Written(before, to.nodes, dest, bytes, n)
    ensures Sum(old(progress.calls)) <= Sum(progress.calls) <= Sum(old(progress.calls)) + |bytes|
    ensures ok ==> Sum(progress.calls) == Sum(old(progress.calls)) + |bytes|
    ensures ok ==> LoggedWrites(old(to.log), to.log, dest, bytes)
    ensures !to.faulty ==> ok
  {
    ghost var start := to.log;
    ghost var reported := Sum(progress.calls);
    var done := 0;
    while done < |bytes|
      invariant done <= |bytes| && to.Valid() && Written(before, to.nodes, dest, bytes, done)
      invariant Sum(progress.calls) == reported + done
      invariant LoggedWrites(start, to.log, dest, bytes[..done])
    {
      var chunk: int := *;
      if chunk <= 0 || chunk > |bytes| - done {
        chunk := |bytes| - done;
      }
      ghost var logged := to.log;
      ok, n := CopyChunk(bytes, done, chunk, dest, to, progress, before);
      if !ok {
        return;
      }
      LogWrite(start, logged, dest, bytes, done, chunk);
      done := done + chunk;
    }
    assert bytes[..done] == bytes;
    return true, done;
  }

  /** copyFile. */
  method CopyFile(src: Path, dest: Path, from: Tree, to: FileSys, progress: Progress) returns (ok: bool)
    requires to.Valid()
    requires Lookup(from, src).Some? && Lookup(from, src).value.File?
    modifies to, progress
    ensures to.Valid() && KindsKept(old(to.nodes), to.nodes)
    ensures Confined(old(to.nodes), to.nodes, dest, Lookup(from, src).value)
    ensures ok ==> IsOverlay(old(to.nodes), to.nodes, dest, Lookup(from, src).value)
    ensures Sum(old(progress.calls)) <= Sum(progress.calls)
    ensures Sum(progress.calls) <= Sum(old(progress.calls)) + TotalBytes(Lookup(from, src).value)
    ensures ok ==> Sum(progress.calls) == Sum(old(progress.calls)) + TotalBytes(Lookup(from, src).value)
    ensures ok ==> LoggedCopy(old(to.log), to.log, dest, Lookup(from, src).value)
    ensures !to.faulty ==>
              (ok <==> dest != [] && Get(old(to.nodes), dest[..|dest| - 1]) == Some(DirNode)
                       && Get(old(to.nodes), dest) != Some(DirNode))
  {
    var bytes := Lookup(from, src).value.bytes;
    ghost var before := to.nodes;
    ok := to.Create(dest);
    if !ok {
      return;
    }
    assert bytes[..0] == [];
    ghost var n;
    ok, n := CopyBytes(bytes, dest, to, progress, before);
    if ok { LogFile(old(to.log), to.log, dest, bytes); }
    FileLanding(before, to.nodes, dest, bytes, bytes[..n]);
    if to.faulty {
      var closeFails: bool := *;
      ok := ok && !closeFails;
    }
  }

  /**
   copyDir. A copy that succeeds leaves the overlay and has reported every byte; one that fails has touched only
   what it would have written. Without faults it succeeds exactly when src is a directory and nothing at the
   destination is in the way.
   */
  method CopyDir(src: Path, dest: Path, from: Tree, to: FileSys, progress: Progress) returns (ok: bool)
    requires WellFormed(from) && to.Valid()
    modifies to, progress
    ensures to.Valid() && KindsKept(old(to.nodes), to.nodes)
    ensures Lookup(from, src).None? || Lookup(from, src).value.File? ==>
              !ok && to.nodes == old(to.nodes) && progress.calls == old(progress.calls)
    ensures Lookup(from, src).Some? && Lookup(from, src).value.Dir? ==>
              && var t := Lookup(from, src).value;
              && Confined(old(to.nodes), to.nodes, dest, t)
              && Sum(old(progress.calls)) <= Sum(progress.calls) <= Sum(old(progress.calls)) + TotalBytes(t)
              && (ok ==> IsOverlay(old(to.nodes), to.nodes, dest, t)
                         && Sum(progress.calls) == Sum(old(progress.calls)) + TotalBytes(t)
                         && LoggedCopy(old(to.log), to.log, dest, t))
              && (!to.faulty ==> (ok <==> Compatible(old(to.nodes), dest, t)))
    decreases match Lookup(from, src) case Some(t) => t case None => File([]), 2
  {
    var listed := Lookup(from, src);
    if listed.None? || listed.value.File? {
      return false;
    }
    if to.faulty {
      var broken: bool := *;
      if broken {
        return false;
      }
    }
    var entries := listed.value.entries;
    LookupWellFormed(from, src);
    ghost var before := to.nodes;
    ok := to.MkdirAll(dest);
    DirsMadeIsConfined(before, to.nodes, dest, entries);
    if !ok {
      if Compatible(before, dest, Dir(entries)) { CompatibleWay(before, dest, entries); }
      return;
    }
    ok := CopyEntries(src, dest, from, to, progress, entries, before);
    if ok { LogDir(old(to.log), to.log, dest, entries); }
  }

  /** The loop of copyDir, after the directory itself has been made. */
  method CopyEntries(src: Path, dest: Path, from: Tree, to: FileSys, progress: Progress, entries: seq<Entry>,
                     ghost before: Files)
    returns (ok: bool)
    requires WellFormed(from) && to.Valid() && Lookup(from, src) == Some(Dir(entries)) && WellFormed(Dir(entries))
    requires KindsKept(before, to.nodes) && IsOverlay(before, to.nodes, dest, Dir([]))
    modifies to, progress
    ensures to.Valid() && KindsKept(before, to.nodes) && Confined(before, to.nodes, dest, Dir(entries))
    ensures Sum(old(progress.calls)) <= Sum(progress.calls) <= Sum(old(progress.calls)) + EntriesBytes(entries)
    ensures ok ==> IsOverlay(before, to.nodes, dest, Dir(entries))
    ensures ok ==> Sum(progress.calls) == Sum(old(progress.calls)) + EntriesBytes(entries)
    ensures ok ==> LoggedEntries(old(to.log), to.log, dest, entries)
    ensures !to.faulty ==> (ok <==> Compatible(before, dest, Dir(entries)))
    decreases Dir(entries), 1
  {
    ghost var reported, start := Sum(progress.calls), to.log;
    for i := 0 to |entries|
      invariant to.Valid() && KindsKept(before, to.nodes)
      invariant IsOverlay(before, to.nodes, dest, Dir(entries[..i]))
      invariant Sum(progress.calls) == reported + EntriesBytes(entries[..i])
      invariant LoggedEntries(start, to.log, dest, entries[..i])
    {
      ghost var sofar, logged := to.nodes, to.log;
      assert Get(to.nodes, dest) == Expected(before, dest, Dir(entries[..i]), dest);
      LandingInDir(dest, entries[..i], dest);
      EntriesBytesPrefix(entries, i);
      ok := CopyEntry(src, dest, from, to, progress, entries, i);
      if !ok {
        ConfinedStep(before, sofar, to.nodes, dest, entries, i);
        if Compatible(before, dest, Dir(entries)) { CompatibleStep(before, sofar, dest, entries, i); }
        return;
      }
      OverlayStep(before, sofar, to.nodes, dest, entries, i);
      LogEntry(start, logged, to.log, dest, entries, i);
    }
    assert entries[..|entries|] == entries;
    OverlayIsConfined(before, to.nodes, dest, entries, |entries|);
    OverlayMeansCompatible(before, to.nodes, dest, Dir(entries));
    return true;
  }

  lemma {:induction false} EntriesBytesPrefix(entries: seq<Entry>, i: nat)
    requires i < |entries|
    ensures EntriesBytes(entries[..i + 1]) == EntriesBytes(entries[..i]) + TotalBytes(entries[i].node)
    ensures EntriesBytes(entries[..i + 1]) <= EntriesBytes(entries)
    decreases |entries|
  {
    assert entries[..i + 1][..i] == entries[..i];
    if i + 1 < |entries| {
      var front := entries[..|entries| - 1];
      EntriesBytesPrefix(front, i);
      assert front[..i + 1] == entries[..i + 1];
    } else {
      assert entries[..i + 1] == entries;
    }
  }

  /** The body of copyDir's loop: recurse into a directory, copy a file. */
  method CopyEntry(src: Path, dest: Path, from: Tree, to: FileSys, progress: Progress, entries: seq<Entry>, i: nat)
    returns (ok: bool)
    requires WellFormed(from) && to.Valid() && Lookup(from, src) == Some(Dir(entries)) && i < |entries|
    requires Get(to.nodes, dest) == Some(DirNode)
    modifies to, progress
    ensures to.Valid() && KindsKept(old(to.nodes), to.nodes)
    ensures Confined(old(to.nodes), to.nodes, dest + [entries[i].name], entries[i].node)
    ensures ok ==> IsOverlay(old(to.nodes), to.nodes, dest + [entries[i].name], entries[i].node)
    ensures Sum(old(progress.calls)) <= Sum(progress.calls) <= Sum(old(progress.calls)) + TotalBytes(entries[i].node)
    ensures ok ==> Sum(progress.calls) == Sum(old(progress.calls)) + TotalBytes(entries[i].node)
    ensures ok ==> LoggedCopy(old(to.log), to.log, dest + [entries[i].name], entries[i].node)
    ensures !to.faulty && Compatible(old(to.nodes), dest + [entries[i].name], entries[i].node) ==> ok
    decreases Dir(entries), 0
  {
    var name, node := entries[i].name, entries[i].node;
    LookupChild(from, src, name);
    LookupWellFormed(from, src);
    FindIsEntry(entries, i);
    if node.Dir? {
      ok := CopyDir(src + [name], dest + [name], from, to, progress);
    } else {
      assert (dest + [name])[..|dest|] == dest;
      FileCompatible(to.nodes, dest + [name], node.bytes);
      ok := CopyFile(src + [name], dest + [name], from, to, progress);
    }
  }

  lemma FileCompatible(m: Files, dest: Path, bytes: seq<Byte>)
    ensures Compatible(m, dest, File(bytes)) ==> Get(m, dest) != Some(DirNode)
  {
    assert dest[|dest|..] == [];
    assert Landing(dest, File(bytes), dest) == Some(File(bytes));
  }

  /**
   DownloadDir.Apply: a copy as copyDir makes it, and on success the progress calls of this run add up to what
   DownloadDir.Size returns.
   */
  method DownloadDir(src: Path, dest: Path, from: Tree, to: FileSys, progress: Progress) returns (ok: bool)
    requires WellFormed(from) && to.Valid()
    modifies to, progress
    ensures to.Valid() && KindsKept(old(to.nodes), to.nodes)
    ensures ok ==> SizeOf(from, src).Some? && SizeOf(from, src).value == Sum(progress.calls) - Sum(old(progress.calls))
    ensures SizeOf(from, src).None? ==> !ok && to.nodes == old(to.nodes)
    ensures SizeOf(from, src).Some? ==>
              && var t := Lookup(from, src).value;
              && Confined(old(to.nodes), to.nodes, dest, t)
              && (ok ==> IsOverlay(old(to.nodes), to.nodes, dest, t))
              && (ok ==> LoggedCopy(old(to.log), to.log, dest, t))
              && (!to.faulty ==> (ok <==> Compatible(old(to.nodes), dest, t)))
  {
    ok := CopyDir(src, dest, from, to, progress);
  }

  /** The copy can be made: nothing is in its way, and a single file's directory is there already. */
  ghost predicate Ready(m: Files, dest: Path, t: Tree) {
    match t
    case Dir(_) => Compatible(m, dest, t)
    case File(_) => dest != [] && Get(m, dest[..|dest| - 1]) == Some(DirNode) && Get(m, dest) != Some(DirNode)
  }

  /** copyAction.Apply, for Upload (fetch false) and Download (fetch true). */
  method CopyAction(src: Path, dest: Path, fetch: bool, host: string, from: Tree, to: FileSys) returns (ok: bool)
    requires WellFormed(from) && to.Valid()
    modifies to
    ensures to.Valid() && KindsKept(old(to.nodes), to.nodes)
    ensures Lookup(from, src).None? ==> !ok && to.nodes == old(to.nodes)
    ensures Lookup(from, src).Some? ==>
              && var t := Lookup(from, src).value;
              && var target := Target(dest, fetch, host, t.Dir?);
              && (target.None? ==> !ok && to.nodes == old(to.nodes))
              && (target.Some? ==> Confined(old(to.nodes), to.nodes, target.value, t))
              && (ok ==> IsOverlay(old(to.nodes), to.nodes, target.value, t))
              && (ok ==> LoggedCopy(old(to.log), to.log, target.value, t))
              && (!to.faulty ==> (ok <==> target.Some? && Ready(old(to.nodes), target.value, t)))
    ensures !fetch && Lookup(from, src).Some? ==>
              && var t := Lookup(from, src).value;
              && (ok ==> IsOverlay(old(to.nodes), to.nodes, dest, t))
              && (!to.faulty ==> (ok <==> Ready(old(to.nodes), dest, t)))
    ensures fetch && Lookup(from, src).Some? && dest != [] && IsPlace(dest) && IsComponent(host) ==>
              && var t := Lookup(from, src).value;
              && var place := if t.Dir? then dest + [host]
                              else dest[..|dest| - 1] + [dest[|dest| - 1] + "." + host];
              && (ok ==> IsOverlay(old(to.nodes), to.nodes, place, t))
              && (!to.faulty ==> (ok <==> Ready(old(to.nodes), place, t)))
  {
    if dest != [] && IsPlace(dest) && IsComponent(host) { ComponentTargets(dest, host); }
    var t := Lookup(from, src);
    if t.None? {
      return false;
    }
    var target := Target(dest, fetch, host, t.value.Dir?);
    if target.None? {
      return false;
    }
    var unreported := new Progress();
    if t.value.Dir? {
      ok := CopyDir(src, target.value, from, to, unreported);
    } else {
      ok := CopyFile(src, target.value, from, to, unreported);
    }
  }

  lemma PrefixesMeet(a: Path, b: Path, p: Path)
    ensures a <= p && (b <= p || p <= b) ==> a <= b || b <= a
  {
    if a <= p && b <= p {
      assert if |a| <= |b| then a == b[..|a|] else b == a[..|b|];
    }
  }

  /** Copies that land apart do not disturb each other and may be made in either order. */
  lemma ApartCopiesCommute(m: Files, ma: Files, mab: Files, mb: Files, mba: Files, a: Path, b: Path, ta: Tree, tb: Tree)
    requires Apart(a, b)
    requires IsOverlay(m, ma, a, ta) && IsOverlay(ma, mab, b, tb)
    requires IsOverlay(m, mb, b, tb) && IsOverlay(mb, mba, a, ta)
    ensures mab == mba
    ensures forall p :: Landing(a, ta, p).Some? ==> Get(mab, p) == Some(NodeOf(Landing(a, ta, p).value))
    ensures forall p :: Landing(b, tb, p).Some? ==> Get(mab, p) == Some(NodeOf(Landing(b, tb, p).value))
  {
    forall p
      ensures Get(mab, p) == Get(mba, p)
      ensures Landing(a, ta, p).Some? ==> Get(mab, p) == Some(NodeOf(Landing(a, ta, p).value))
      ensures Landing(b, tb, p).Some? ==> Get(mab, p) == Some(NodeOf(Landing(b, tb, p).value))
    {
      assert Get(ma, p) == Expected(m, a, ta, p) && Get(mab, p) == Expected(ma, b, tb, p);
      assert Get(mb, p) == Expected(m, b, tb, p) && Get(mba, p) == Expected(mb, a, ta, p);
      PrefixesMeet(a, b, p);
      PrefixesMeet(b, a, p);
    }
    forall p
      ensures p in mab <==> p in mba
      ensures p in mab ==> mab[p] == mba[p]
    {
      assert Get(mab, p) == Get(mba, p);
    }
  }
}
