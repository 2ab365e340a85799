/**
 Several copies to one file system at the same time, as when Group.Run runs a Download on every host. Each copy is
 the list of operations that copyDir or copyFile issues; any copy may take the next step, and any may fail at any
 point.
 */
module ParallelCopy {
  import opened Wrappers
  import opened Runs
  import opened FileTree
  import opened TargetPath
  import opened TreeCopy

  // ---- one copy by itself ----

  /** Each operation works after those before it. */
  ghost predicate AllWork(m: Files, ops: seq<Op>) {
    ops == [] || (AllWork(m, ops[..|ops| - 1]) && Works(DoAll(m, ops[..|ops| - 1]), ops[|ops| - 1]))
  }

  lemma {:induction false} AllWorkAt(m: Files, ops: seq<Op>, k: nat)
    requires AllWork(m, ops) && k < |ops|
    ensures Works(DoAll(m, ops[..k]), ops[k])
  {
    var front := ops[..|ops| - 1];
    if k < |front| {
      AllWorkAt(m, front, k);
      assert front[..k] == ops[..k];
    }
  }

  lemma DoOneMore(m: Files, ops: seq<Op>, op: Op)
    ensures DoAll(m, ops + [op]) == Do(DoAll(m, ops), op)
    ensures AllWork(m, ops + [op]) <==> AllWork(m, ops) && Works(DoAll(m, ops), op)
  {
    assert (ops + [op])[..|ops|] == ops;
  }

  lemma {:induction false} DoConcat(m: Files, a: seq<Op>, b: seq<Op>)
    ensures DoAll(m, a + b) == DoAll(DoAll(m, a), b)
    ensures AllWork(m, a) && AllWork(DoAll(m, a), b) ==> AllWork(m, a + b)
  {
    if b == [] {
      assert a + b == a;
    } else {
      var front, last := b[..|b| - 1], b[|b| - 1];
      DoConcat(m, a, front);
      DoOneMore(m, a + front, last);
      assert a + b == a + front + [last];
    }
  }

  lemma WriteOne(m: Files, dest: Path, done: seq<Byte>, chunk: seq<Byte>)
    requires dest != [] && Get(m, dest[..|dest| - 1]) == Some(DirNode)
    ensures Works(m[dest := FileNode(done)], Write(dest, chunk))
    ensures Do(m[dest := FileNode(done)], Write(dest, chunk)) == m[dest := FileNode(done + chunk)]
  {}

  lemma {:induction false} SoloWrites(m: Files, dest: Path, bytes: seq<Byte>, ops: seq<Op>)
    requires IsWrites(dest, bytes, ops)
    requires dest != [] && Get(m, dest[..|dest| - 1]) == Some(DirNode) && Get(m, dest) == Some(FileNode([]))
    ensures AllWork(m, ops) && DoAll(m, ops) == m[dest := FileNode(bytes)]
    decreases |ops|
  {
    if ops != [] {
      var front, last := ops[..|ops| - 1], ops[|ops| - 1];
      var done := bytes[..|bytes| - |last.chunk|];
      assert done + last.chunk == bytes && ops == front + [last];
      SoloWrites(m, dest, done, front);
      WriteOne(m, dest, done, last.chunk);
      DoOneMore(m, front, last);
    }
  }

  lemma SoloFile(m: Files, dest: Path, bytes: seq<Byte>, ops: seq<Op>)
    requires TreeShaped(m) && Ready(m, dest, File(bytes)) && IsCopy(dest, File(bytes), ops)
    ensures AllWork(m, ops) && TreeShaped(DoAll(m, ops)) && KindsKept(m, DoAll(m, ops))
    ensures IsOverlay(m, DoAll(m, ops), dest, File(bytes))
  {
    var m1 := m[dest := FileNode([])];
    DoOneMore(m, [], ops[0]);
    assert [] + [ops[0]] == [ops[0]];
    SoloWrites(m1, dest, bytes, ops[1..]);
    DoConcat(m, [ops[0]], ops[1..]);
    assert ops == [ops[0]] + ops[1..];
    assert DoAll(m, ops) == m[dest := FileNode(bytes)];
    ReplacedFile(m, dest, bytes);
    FileLanding(m, m[dest := FileNode(bytes)], dest, bytes, bytes);
  }

  lemma SoloMkDir(before: Files, m: Files, dest: Path, i: nat)
    requires TreeShaped(m) && NoFileOnTheWay(before, dest) && 1 <= i <= |dest|
    requires DirsMade(before, m, dest) && DirsUpTo(m, dest, i - 1)
    ensures var op := MkDir(dest[..i]);
            Works(m, op) && TreeShaped(Do(m, op)) && DirsMade(before, Do(m, op), dest) && DirsUpTo(Do(m, op), dest, i)
  {
    var dir := dest[..i];
    assert dir[..|dir| - 1] == dest[..i - 1];
    assert Get(m, dir) == Get(before, dir) || Get(m, dir) == Some(DirNode);
    if dir !in m {
      OneMoreDir(before, m, dest, i);
    }
  }

  lemma {:induction false} SoloMkDirs(m: Files, dest: Path, i: nat)
    requires TreeShaped(m) && NoFileOnTheWay(m, dest) && i <= |dest|
    ensures var ops := MkDirs(dest)[..i];
            var m' := DoAll(m, ops);
            AllWork(m, ops) && TreeShaped(m') && DirsMade(m, m', dest) && DirsUpTo(m', dest, i)
  {
    var all := MkDirs(dest);
    if i > 0 {
      var front := all[..i - 1];
      SoloMkDirs(m, dest, i - 1);
      SoloMkDir(m, DoAll(m, front), dest, i);
      DoOneMore(m, front, MkDir(dest[..i]));
      assert all[..i] == front + [MkDir(dest[..i])];
    } else {
      assert dest[..0] == [];
    }
  }

  /** A copy that nothing is in the way of succeeds step by step and leaves the overlay. */
  lemma {:induction false} SoloCopy(m: Files, dest: Path, t: Tree, ops: seq<Op>)
    requires TreeShaped(m) && WellFormed(t) && Ready(m, dest, t) && IsCopy(dest, t, ops)
    ensures AllWork(m, ops) && TreeShaped(DoAll(m, ops)) && KindsKept(m, DoAll(m, ops))
    ensures IsOverlay(m, DoAll(m, ops), dest, t)
    decreases t, 2, 0
  {
    match t
    case File(bytes) => SoloFile(m, dest, bytes, ops);
    case Dir(entries) =>
      var dirs, rest := MkDirs(dest), ops[|dest|..];
      CompatibleWay(m, dest, entries);
      SoloMkDirs(m, dest, |dest|);
      assert dirs[..|dest|] == dirs;
      DirsMadeIsConfined(m, DoAll(m, dirs), dest, entries);
      assert entries[..|entries|] == entries;
      SoloEntries(m, DoAll(m, dirs), dest, entries, |entries|, rest);
      DoConcat(m, dirs, rest);
      assert ops == dirs + rest;
  }

  lemma {:induction false} SoloEntries(before: Files, m: Files, dest: Path, entries: seq<Entry>, i: nat, ops: seq<Op>)
    requires TreeShaped(m) && KindsKept(before, m) && IsOverlay(before, m, dest, Dir([]))
    requires WellFormed(Dir(entries)) && Compatible(before, dest, Dir(entries))
    requires i <= |entries| && IsEntriesCopy(dest, entries[..i], ops)
    ensures AllWork(m, ops) && TreeShaped(DoAll(m, ops)) && KindsKept(before, DoAll(m, ops))
    ensures IsOverlay(before, DoAll(m, ops), dest, Dir(entries[..i]))
    decreases Dir(entries), 1, i
  {
    if i > 0 {
      var last := entries[i - 1];
      assert entries[..i][..i - 1] == entries[..i - 1];
      var k :| 0 <= k <= |ops|
               && IsEntriesCopy(dest, entries[..i - 1], ops[..k]) && IsCopy(dest + [last.name], last.node, ops[k..]);
      var a, b := ops[..k], ops[k..];
      assert ops == a + b;
      SoloEntries(before, m, dest, entries, i - 1, a);
      SoloEntry(before, DoAll(m, a), dest, entries, i - 1, b);
      DoConcat(m, a, b);
    }
  }

  lemma {:induction false} SoloEntry(before: Files, m: Files, dest: Path, entries: seq<Entry>, i: nat, ops: seq<Op>)
    requires WellFormed(Dir(entries)) && Compatible(before, dest, Dir(entries)) && i < |entries|
    requires TreeShaped(m) && KindsKept(before, m) && IsOverlay(before, m, dest, Dir(entries[..i]))
    requires IsCopy(dest + [entries[i].name], entries[i].node, ops)
    ensures AllWork(m, ops) && TreeShaped(DoAll(m, ops)) && KindsKept(before, DoAll(m, ops))
    ensures IsOverlay(before, DoAll(m, ops), dest, Dir(entries[..i + 1]))
    decreases Dir(entries), 0, 0
  {
    ReadyForEntry(before, m, dest, entries, i);
    SoloCopy(m, dest + [entries[i].name], entries[i].node, ops);
    OverlayStep(before, m, DoAll(m, ops), dest, entries, i);
    KindsKeptTwice(before, m, DoAll(m, ops));
  }

  lemma KindsKeptTwice(m0: Files, m1: Files, m2: Files)
    requires KindsKept(m0, m1) && KindsKept(m1, m2)
    ensures KindsKept(m0, m2)
  {}

  lemma ReadyForEntry(before: Files, m: Files, dest: Path, entries: seq<Entry>, i: nat)
    requires WellFormed(Dir(entries)) && i < |entries| && Compatible(before, dest, Dir(entries))
    requires IsOverlay(before, m, dest, Dir(entries[..i]))
    ensures Ready(m, dest + [entries[i].name], entries[i].node)
  {
    var name, node := entries[i].name, entries[i].node;
    CompatibleStep(before, m, dest, entries, i);
    if node.File? {
      LandingInDir(dest, entries[..i], dest);
      assert Get(m, dest) == Expected(before, dest, Dir(entries[..i]), dest);
      assert (dest + [name])[..|dest|] == dest;
      FileCompatible(m, dest + [name], node.bytes);
    }
  }

  // ---- where a copy works ----

  /** Below its destination, or making a directory on the way there. */
  ghost predicate Within(dest: Path, op: Op) {
    dest <= op.path || (op.MkDir? && op.path <= dest)
  }

  ghost predicate AllWithin(dest: Path, ops: seq<Op>) {
    forall k :: 0 <= k < |ops| ==> Within(dest, ops[k])
  }

  lemma {:induction false} WritesWithin(dest: Path, bytes: seq<Byte>, ops: seq<Op>)
    requires IsWrites(dest, bytes, ops)
    ensures AllWithin(dest, ops)
    decreases |ops|
  {
    if ops != [] {
      WritesWithin(dest, bytes[..|bytes| - |ops[|ops| - 1].chunk|], ops[..|ops| - 1]);
    }
  }

  lemma {:induction false} CopyWithin(dest: Path, t: Tree, ops: seq<Op>)
    requires IsCopy(dest, t, ops)
    ensures AllWithin(dest, ops)
    decreases t, 1
  {
    match t
    case File(bytes) =>
      WritesWithin(dest, bytes, ops[1..]);
      assert ops == [ops[0]] + ops[1..];
    case Dir(entries) =>
      EntriesWithin(dest, entries, ops[|dest|..]);
      assert ops == MkDirs(dest) + ops[|dest|..];
  }

  lemma {:induction false} EntriesWithin(dest: Path, entries: seq<Entry>, ops: seq<Op>)
    requires IsEntriesCopy(dest, entries, ops)
    ensures AllWithin(dest, ops)
    decreases entries, 0
  {
    if entries != [] {
      var front, last := entries[..|entries| - 1], entries[|entries| - 1];
      var k :| 0 <= k <= |ops|
               && IsEntriesCopy(dest, front, ops[..k]) && IsCopy(dest + [last.name], last.node, ops[k..]);
      EntriesWithin(dest, front, ops[..k]);
      CopyWithin(dest + [last.name], last.node, ops[k..]);
      forall j | 0 <= j < |ops|
        ensures Within(dest, ops[j])
      {
        if j < k {
          assert ops[j] == ops[..k][j];
        } else {
          assert ops[j] == ops[k..][j - k];
          LandingInEntry(dest, last.name, last.node, ops[j].path);
        }
      }
    }
  }

  // ---- several copies at once ----

  /** A copy to be made, and the operations it consists of, whichever chunks it happens to read. */
  datatype Job = Job(dest: Path, tree: Tree, ops: seq<Op>)

  datatype Config = Config(before: Files, jobs: seq<Job>) {
    /** Each copy could be made by itself, and the places are apart. */
    ghost predicate Valid() {
      && TreeShaped(before)
      && (forall i :: 0 <= i < |jobs| ==>
            && WellFormed(jobs[i].tree) && IsCopy(jobs[i].dest, jobs[i].tree, jobs[i].ops)
            && Ready(before, jobs[i].dest, jobs[i].tree))
      && (forall i, j :: 0 <= i < j < |jobs| ==> Apart(jobs[i].dest, jobs[j].dest))
    }
  }

  /** How far a copy has got, and whether it has failed. */
  datatype Progress = Progress(done: seq<Op>, todo: seq<Op>, failed: bool)

  datatype State = State(nodes: Files, copies: seq<Progress>)

  datatype Label =
    | Go(i: nat)            // copy i makes its next operation
    | Fail(i: nat, n: nat)  // copy i gives up, in the middle of a write perhaps, of which n bytes got there

  function Init(c: Config): State {
    State(c.before, seq(|c.jobs|, i requires 0 <= i < |c.jobs| => Progress([], c.jobs[i].ops, false)))
  }

  ghost predicate Enabled(s: State, l: Label) {
    && l.i < |s.copies| && !s.copies[l.i].failed && s.copies[l.i].todo != []
    && (l.Go? ==> Works(s.nodes, s.copies[l.i].todo[0]))
  }

  /** What the file system gets to see: the whole operation, or the beginning of a write. */
  function Effect(op: Op, l: Label): Option<Op> {
    match l
    case Go(_) => Some(op)
    case Fail(_, n) => if op.Write? && n <= |op.chunk| then Some(Write(op.path, op.chunk[..n])) else None
  }

  function Apply(s: State, l: Label): State
    requires l.i < |s.copies| && s.copies[l.i].todo != []
  {
    var p := s.copies[l.i];
    var seen := Effect(p.todo[0], l);
    var p' := if l.Go? then Progress(p.done + [p.todo[0]], p.todo[1..], false) else p.(failed := true);
    State(if seen.Some? then Do(s.nodes, seen.value) else s.nodes, s.copies[l.i := p'])
  }

  ghost predicate Step(s: State, s': State) {
    exists l :: Enabled(s, l) && s' == Apply(s, l)
  }

  ghost function Copying(c: Config): System<State> {
    System(s => s == Init(c), (s, s') => Step(s, s'))
  }

  // ---- the invariant ----

  /** What copy i has done so far, done by itself. */
  ghost function Solo(c: Config, s: State, i: nat): Files
    requires i < |s.copies|
  {
    DoAll(c.before, s.copies[i].done)
  }

  /** Below dest the file system is what `solo` is, and on the way there are the directories it has made. */
  ghost predicate Agrees(nodes: Files, solo: Files, dest: Path) {
    && (forall p :: dest <= p ==> Get(nodes, p) == Get(solo, p))
    && (forall p :: p <= dest && Get(solo, p) == Some(DirNode) ==> Get(nodes, p) == Some(DirNode))
    && (forall p :: p <= dest && p != dest && p in nodes ==> nodes[p].DirNode?)
  }

  /** Everywhere else only ancestors of destinations have been added. */
  ghost predicate Elsewhere(c: Config, nodes: Files) {
    forall p :: (forall i :: 0 <= i < |c.jobs| ==> !(c.jobs[i].dest <= p)) ==>
      || Get(nodes, p) == Get(c.before, p)
      || (p !in c.before && Get(nodes, p) == Some(DirNode) && exists i :: 0 <= i < |c.jobs| && p <= c.jobs[i].dest)
  }

  ghost predicate Inv(c: Config, s: State) {
    && |s.copies| == |c.jobs|
    && (forall i :: 0 <= i < |c.jobs| ==> s.copies[i].done + s.copies[i].todo == c.jobs[i].ops)
    && (forall i :: 0 <= i < |c.jobs| && !s.copies[i].failed ==> Agrees(s.nodes, Solo(c, s, i), c.jobs[i].dest))
    && Elsewhere(c, s.nodes)
  }

  lemma InitInv(c: Config)
    requires c.Valid()
    ensures Inv(c, Init(c))
  {
    var s := Init(c);
    forall i | 0 <= i < |c.jobs|
      ensures Agrees(s.nodes, Solo(c, s, i), c.jobs[i].dest)
    {
      NothingOnTheWay(c.before, c.jobs[i].dest, c.jobs[i].tree);
    }
  }

  lemma NothingOnTheWay(m: Files, dest: Path, t: Tree)
    requires TreeShaped(m) && Ready(m, dest, t)
    ensures forall p :: p <= dest && p != dest && p in m ==> m[p].DirNode?
  {
    if t.File? {
      var dir := dest[..|dest| - 1];
      forall p | p <= dest && p != dest && p in m
        ensures m[p].DirNode?
      {
        assert p == dir[..|p|];
        if |p| < |dir| { AncestorsAreDirs(m, dir, |p|); } else { assert p == dir; }
      }
    }
  }

  /** An operation matters only where it is. */
  lemma DoIsLocal(m: Files, op: Op, p: Path)
    requires p != op.path
    ensures Get(Do(m, op), p) == Get(m, p)
  {}

  lemma DoAgrees(m: Files, n: Files, op: Op)
    requires Get(m, op.path) == Get(n, op.path)
    ensures Get(Do(m, op), op.path) == Get(Do(n, op), op.path)
  {}

  /** What works for a copy by itself works among the others. */
  lemma WorksAmongOthers(nodes: Files, solo: Files, dest: Path, op: Op)
    requires Agrees(nodes, solo, dest) && Within(dest, op) && Works(solo, op)
    ensures Works(nodes, op)
  {
    var dir := op.path[..|op.path| - 1];
    if dest <= op.path {
      assert Get(nodes, op.path) == Get(solo, op.path);
      assert if op.path != dest then dest <= dir else dir <= dest;
    } else {
      assert dir <= dest;
    }
  }

  /** A copy's own step keeps it in agreement. */
  lemma OwnStep(nodes: Files, solo: Files, dest: Path, op: Op)
    requires Agrees(nodes, solo, dest) && Within(dest, op) && Works(solo, op)
    ensures Agrees(Do(nodes, op), Do(solo, op), dest)
  {
    WorksAmongOthers(nodes, solo, dest, op);
    forall p
      ensures dest <= p ==> Get(Do(nodes, op), p) == Get(Do(solo, op), p)
      ensures p <= dest && Get(Do(solo, op), p) == Some(DirNode) ==> Get(Do(nodes, op), p) == Some(DirNode)
      ensures p <= dest && p != dest && p in Do(nodes, op) ==> Do(nodes, op)[p].DirNode?
    {
      if p != op.path {
        DoIsLocal(nodes, op, p);
        DoIsLocal(solo, op, p);
      } else if dest <= p {
        DoAgrees(nodes, solo, op);
      }
    }
  }

  /** A step of a copy to another place does not disturb it. */
  lemma OthersStep(nodes: Files, solo: Files, dest: Path, other: Path, op: Op)
    requires Agrees(nodes, solo, dest) && Within(other, op) && Apart(dest, other)
    ensures Agrees(Do(nodes, op), solo, dest)
  {
    PrefixesMeet(dest, other, op.path);
    PrefixesMeet(other, dest, op.path);
    forall p
      ensures dest <= p ==> Get(Do(nodes, op), p) == Get(solo, p)
      ensures p <= dest && Get(solo, p) == Some(DirNode) ==> Get(Do(nodes, op), p) == Some(DirNode)
      ensures p <= dest && p != dest && p in Do(nodes, op) ==> Do(nodes, op)[p].DirNode?
    {
      if p != op.path { DoIsLocal(nodes, op, p); }
    }
  }

  lemma ElsewhereStep(c: Config, nodes: Files, i: nat, op: Op)
    requires Elsewhere(c, nodes) && i < |c.jobs| && Within(c.jobs[i].dest, op)
    ensures Elsewhere(c, Do(nodes, op))
  {
    forall p | forall k :: 0 <= k < |c.jobs| ==> !(c.jobs[k].dest <= p)
      ensures Get(Do(nodes, op), p) == Get(c.before, p)
              || (p !in c.before && Get(Do(nodes, op), p) == Some(DirNode)
                  && exists k :: 0 <= k < |c.jobs| && p <= c.jobs[k].dest)
    {
      if p != op.path {
        DoIsLocal(nodes, op, p);
      } else {
        assert !(c.jobs[i].dest <= p);
      }
    }
  }

  /** The next operation of a copy works for the copy by itself. */
  lemma NextWorksAlone(c: Config, s: State, i: nat)
    requires c.Valid() && Inv(c, s) && i < |c.jobs| && s.copies[i].todo != []
    ensures Works(Solo(c, s, i), s.copies[i].todo[0]) && Within(c.jobs[i].dest, s.copies[i].todo[0])
  {
    var job, k := c.jobs[i], |s.copies[i].done|;
    assert job.ops[..k] == s.copies[i].done && job.ops[k] == s.copies[i].todo[0];
    SoloCopy(c.before, job.dest, job.tree, job.ops);
    AllWorkAt(c.before, job.ops, k);
    CopyWithin(job.dest, job.tree, job.ops);
  }

  lemma EffectWithin(dest: Path, op: Op, l: Label)
    requires Within(dest, op)
    ensures Effect(op, l).Some? ==> Within(dest, Effect(op, l).value)
  {}

  /** The step of a copy leaves every copy that has not failed in agreement. */
  lemma StepAgrees(c: Config, s: State, l: Label, j: nat)
    requires c.Valid() && Inv(c, s) && Enabled(s, l)
    requires j < |c.jobs| && !Apply(s, l).copies[j].failed
    ensures Agrees(Apply(s, l).nodes, Solo(c, Apply(s, l), j), c.jobs[j].dest)
  {
    var i, op := l.i, s.copies[l.i].todo[0];
    NextWorksAlone(c, s, i);
    if j == i {
      assert Apply(s, l).copies[i].done == s.copies[i].done + [op] && Apply(s, l).nodes == Do(s.nodes, op);
      DoOneMore(c.before, s.copies[i].done, op);
      OwnStep(s.nodes, Solo(c, s, i), c.jobs[i].dest, op);
    } else if Effect(op, l).Some? {
      EffectWithin(c.jobs[i].dest, op, l);
      ApartBothWays(c, j, i);
      OthersStep(s.nodes, Solo(c, s, j), c.jobs[j].dest, c.jobs[i].dest, Effect(op, l).value);
    }
  }

  lemma StepKeepsOps(s: State, l: Label, j: nat)
    requires Enabled(s, l) && j < |s.copies|
    ensures Apply(s, l).copies[j].done + Apply(s, l).copies[j].todo == s.copies[j].done + s.copies[j].todo
  {
    var p := s.copies[l.i];
    assert p.todo == [p.todo[0]] + p.todo[1..];
    assert p.done + [p.todo[0]] + p.todo[1..] == p.done + ([p.todo[0]] + p.todo[1..]);
  }

  lemma StepElsewhere(c: Config, s: State, l: Label)
    requires c.Valid() && Inv(c, s) && Enabled(s, l)
    ensures Elsewhere(c, Apply(s, l).nodes)
  {
    var op := s.copies[l.i].todo[0];
    if Effect(op, l).Some? {
      NextWorksAlone(c, s, l.i);
      EffectWithin(c.jobs[l.i].dest, op, l);
      ElsewhereStep(c, s.nodes, l.i, Effect(op, l).value);
    }
  }

  lemma StepKeepsInv(c: Config, s: State, l: Label)
    requires c.Valid() && Inv(c, s) && Enabled(s, l)
    ensures Inv(c, Apply(s, l))
  {
    var s' := Apply(s, l);
    forall j | 0 <= j < |c.jobs|
      ensures s'.copies[j].done + s'.copies[j].todo == c.jobs[j].ops
      ensures !s'.copies[j].failed ==> Agrees(s'.nodes, Solo(c, s', j), c.jobs[j].dest)
    {
      StepKeepsOps(s, l, j);
      if !s'.copies[j].failed { StepAgrees(c, s, l, j); }
    }
    StepElsewhere(c, s, l);
  }

  lemma ApartBothWays(c: Config, i: nat, j: nat)
    requires c.Valid() && i < |c.jobs| && j < |c.jobs| && i != j
    ensures Apart(c.jobs[i].dest, c.jobs[j].dest)
  {
    assert if i < j then Apart(c.jobs[i].dest, c.jobs[j].dest) else Apart(c.jobs[j].dest, c.jobs[i].dest);
  }

  lemma InvIsInductive(c: Config)
    requires c.Valid()
    ensures Inductive(Copying(c), s => Inv(c, s))
  {
    InitInv(c);
    forall s, s' | Inv(c, s) && Step(s, s')
      ensures Inv(c, s')
    {
      var l :| Enabled(s, l) && s' == Apply(s, l);
      StepKeepsInv(c, s, l);
    }
  }

  // ---- the theorems ----

  /** No copy ever gets in the way of another: in every interleaving the next operation of each one works. */
  lemma NobodyIsInTheWay(c: Config, s: State, i: nat)
    requires c.Valid() && Reachable(Copying(c), s)
    requires i < |s.copies| && !s.copies[i].failed && s.copies[i].todo != []
    ensures Works(s.nodes, s.copies[i].todo[0]) && Enabled(s, Go(i))
  {
    InvIsInductive(c);
    InvariantReachable(Copying(c), s => Inv(c, s), s);
    NextWorksAlone(c, s, i);
    WorksAmongOthers(s.nodes, Solo(c, s, i), c.jobs[i].dest, s.copies[i].todo[0]);
  }

  /** At and below the destination, and on the way there, everything is as after this one copy. */
  ghost predicate Complete(before: Files, nodes: Files, job: Job) {
    forall p :: job.dest <= p || p <= job.dest ==> Get(nodes, p) == Expected(before, job.dest, job.tree, p)
  }

  ghost predicate Finished(s: State, i: nat) {
    i < |s.copies| && !s.copies[i].failed && s.copies[i].todo == []
  }

  lemma FinishedMeans(c: Config, s: State, i: nat)
    requires c.Valid() && Inv(c, s) && Finished(s, i)
    ensures Complete(c.before, s.nodes, c.jobs[i])
  {
    var job := c.jobs[i];
    assert s.copies[i].done == job.ops;
    SoloCopy(c.before, job.dest, job.tree, job.ops);
    forall p | job.dest <= p || p <= job.dest
      ensures Get(s.nodes, p) == Expected(c.before, job.dest, job.tree, p)
    {
      assert Get(Solo(c, s, i), p) == Expected(c.before, job.dest, job.tree, p);
      assert p <= job.dest && p != job.dest ==> !(job.dest <= p);
    }
  }

  /**
   In every interleaving a copy that has finished is complete and stays so, whatever the others are doing and
   whether or not they fail.
   */
  lemma FinishedIsComplete(c: Config, s: State, i: nat)
    requires c.Valid() && Reachable(Copying(c), s) && Finished(s, i)
    ensures i < |c.jobs| && Complete(c.before, s.nodes, c.jobs[i])
  {
    InvIsInductive(c);
    InvariantReachable(Copying(c), s => Inv(c, s), s);
    FinishedMeans(c, s, i);
  }

  /** In every state only the places of the copies and the way there have changed. */
  lemma NothingElseChanges(c: Config, s: State, p: Path)
    requires c.Valid() && Reachable(Copying(c), s)
    requires forall i :: 0 <= i < |c.jobs| ==> !(c.jobs[i].dest <= p) && !(p <= c.jobs[i].dest)
    ensures Get(s.nodes, p) == Get(c.before, p)
  {
    InvIsInductive(c);
    InvariantReachable(Copying(c), s => Inv(c, s), s);
  }

  /** Any copy may fail at any point, and if it is writing then, any beginning of the chunk may have got there. */
  lemma FailureIsPossible(c: Config, s: State, i: nat, n: nat)
    requires c.Valid() && Reachable(Copying(c), s) && i < |s.copies| && !s.copies[i].failed && s.copies[i].todo != []
    ensures Enabled(s, Fail(i, n)) && Apply(s, Fail(i, n)).copies[i].failed
    ensures var op := s.copies[i].todo[0];
            if op.Write? && n <= |op.chunk| then
              op.path in s.nodes && s.nodes[op.path].FileNode? &&
              Apply(s, Fail(i, n)).nodes ==
                s.nodes[op.path := FileNode(s.nodes[op.path].bytes + op.chunk[..n])]
            else Apply(s, Fail(i, n)).nodes == s.nodes
  {
    InvIsInductive(c);
    InvariantReachable(Copying(c), s => Inv(c, s), s);
    NobodyIsInTheWay(c, s, i);
  }

  // ---- termination ----

  function Weight(p: Progress): nat { if p.failed then 0 else |p.todo| + 1 }

  function Measure(s: State): nat { Total(s.copies, Weight) }

  lemma StepDecreases(s: State, l: Label)
    requires Enabled(s, l)
    ensures Measure(Apply(s, l)) < Measure(s)
  {
    TotalUpdate(s.copies, Weight, l.i, Apply(s, l).copies[l.i]);
  }

  /** Every run ends, and where it cannot go on every copy has finished or has failed. */
  lemma CopiesTerminate(c: Config, run: seq<State>)
    requires c.Valid() && IsRun(Copying(c), run)
    ensures |run| - 1 <= Measure(Init(c))
    ensures var last := run[|run| - 1];
            (forall s' :: !Step(last, s')) ==>
              forall i :: 0 <= i < |last.copies| ==> last.copies[i].failed || Finished(last, i)
  {
    InvIsInductive(c);
    forall s, s' | Inv(c, s) && Step(s, s')
      ensures Measure(s') < Measure(s)
    {
      var l :| Enabled(s, l) && s' == Apply(s, l);
      StepDecreases(s, l);
    }
    RunIsBounded(Copying(c), s => Inv(c, s), s => Measure(s), run);
    var last := run[|run| - 1];
    assert Reachable(Copying(c), last);
    if forall s' :: !Step(last, s') {
      StuckIsOver(c, last);
    }
  }

  lemma StuckIsOver(c: Config, s: State)
    requires c.Valid() && Reachable(Copying(c), s) && forall s' :: !Step(s, s')
    ensures forall i :: 0 <= i < |s.copies| ==> s.copies[i].failed || Finished(s, i)
  {
    forall i | 0 <= i < |s.copies|
      ensures s.copies[i].failed || Finished(s, i)
    {
      if !s.copies[i].failed && s.copies[i].todo != [] {
        InvIsInductive(c);
        InvariantReachable(Copying(c), s => Inv(c, s), s);
        NobodyIsInTheWay(c, s, i);
        assert Step(s, Apply(s, Go(i)));
      }
    }
  }

  // ---- downloads from a group ----

  /** Downloads to one destination from hosts whose names are apart have places that are apart. */
  lemma DownloadsAreApart(dest: Path, hosts: seq<string>, trees: seq<Tree>)
    requires IsPlace(dest) && |hosts| == |trees| >= 2
    requires forall i, j :: 0 <= i < j < |hosts| ==> NamesApart(hosts[i], hosts[j])
    ensures forall i :: 0 <= i < |hosts| ==> Target(dest, true, hosts[i], trees[i].Dir?).Some?
    ensures forall i, j :: 0 <= i < j < |hosts| ==>
              Apart(Target(dest, true, hosts[i], trees[i].Dir?).value,
                    Target(dest, true, hosts[j], trees[j].Dir?).value)
  {
    forall i, j | 0 <= i < j < |hosts|
      ensures TargetsApart(dest, hosts[i], trees[i].Dir?, hosts[j], trees[j].Dir?)
    {
      TargetsApartExact(hosts[i], hosts[j]);
    }
    forall i | 0 <= i < |hosts|
      ensures Target(dest, true, hosts[i], trees[i].Dir?).Some?
    {
      var j := if i == 0 then 1 else 0;
      assert if i < j then TargetsApart(dest, hosts[i], trees[i].Dir?, hosts[j], trees[j].Dir?)
             else TargetsApart(dest, hosts[j], trees[j].Dir?, hosts[i], trees[i].Dir?);
    }
  }

  /**
   Download on a group: for hosts whose names are apart, whatever the interleaving and whoever else fails, every
   download that has finished is complete.
   */
  lemma GroupDownloadsComplete(c: Config, dest: Path, hosts: seq<string>, s: State, i: nat)
    requires IsPlace(dest) && |hosts| == |c.jobs|
    requires forall j, k :: 0 <= j < k < |hosts| ==> NamesApart(hosts[j], hosts[k])
    requires TreeShaped(c.before)
    requires forall j :: 0 <= j < |hosts| ==>
               && Target(dest, true, hosts[j], c.jobs[j].tree.Dir?) == Some(c.jobs[j].dest)
               && WellFormed(c.jobs[j].tree) && IsCopy(c.jobs[j].dest, c.jobs[j].tree, c.jobs[j].ops)
               && Ready(c.before, c.jobs[j].dest, c.jobs[j].tree)
    requires Reachable(Copying(c), s) && Finished(s, i)
    ensures i < |c.jobs| && Complete(c.before, s.nodes, c.jobs[i])
  {
    forall j, k | 0 <= j < k < |c.jobs|
      ensures Apart(c.jobs[j].dest, c.jobs[k].dest)
    {
      TargetsApartExact(hosts[j], hosts[k]);
      assert TargetsApart(dest, hosts[j], c.jobs[j].tree.Dir?, hosts[k], c.jobs[k].tree.Dir?);
    }
    FinishedIsComplete(c, s, i);
  }
}
