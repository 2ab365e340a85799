/** File systems for the copy model: a finite source tree, and a destination map from path to node. */
module FileTree {
  import opened Wrappers

  type Name = string
  type Path = seq<Name>
  type Byte = bv8

  datatype Tree = File(bytes: seq<Byte>) | Dir(entries: seq<Entry>)

  datatype Entry = Entry(name: Name, node: Tree)

  ghost predicate DistinctNames(entries: seq<Entry>) {
    forall i, j :: 0 <= i < j < |entries| ==> entries[i].name != entries[j].name
  }

  /** Names are distinct within every directory. */
  ghost predicate WellFormed(t: Tree) {
    t.Dir? ==>
      && DistinctNames(t.entries)
      && (forall i :: 0 <= i < |t.entries| ==> WellFormed(t.entries[i].node))
  }

  function Find(entries: seq<Entry>, name: Name): (r: Option<Tree>)
    ensures r.Some? ==> exists i :: 0 <= i < |entries| && entries[i] == Entry(name, r.value)
    ensures r.None? ==> forall i :: 0 <= i < |entries| ==> entries[i].name != name
  {
    if entries == [] then None
    else if entries[0].name == name then
      assert entries[0] == Entry(name, entries[0].node);
      Some(entries[0].node)
    else
      var r := Find(entries[1..], name);
      assert r.Some? ==> exists i :: 0 < i < |entries| && entries[i] == Entry(name, r.value) by {
        if r.Some? {
          var i :| 0 <= i < |entries| - 1 && entries[1..][i] == Entry(name, r.value);
          assert entries[i + 1] == Entry(name, r.value);
        }
      }
      assert r.None? ==> forall i :: 1 <= i < |entries| ==> entries[i] == entries[1..][i - 1];
      r
  }

  function Lookup(t: Tree, p: Path): Option<Tree>
    decreases |p|
  {
    if p == [] then Some(t)
    else if t.File? then None
    else
      match Find(t.entries, p[0])
      case None => None
      case Some(child) => Lookup(child, p[1..])
  }

  lemma {:induction false} LookupChild(t: Tree, p: Path, name: Name)
    ensures Lookup(t, p + [name]) ==
            match Lookup(t, p)
            case Some(Dir(entries)) => Find(entries, name)
            case _ => None
    decreases |p|
  {
    if p == [] {
      assert (p + [name])[1..] == [];
    } else {
      assert (p + [name])[1..] == p[1..] + [name];
      if t.Dir? && Find(t.entries, p[0]).Some? {
        LookupChild(Find(t.entries, p[0]).value, p[1..], name);
      }
    }
  }

  lemma {:induction false} LookupWellFormed(t: Tree, p: Path)
    requires WellFormed(t) && Lookup(t, p).Some?
    ensures WellFormed(Lookup(t, p).value)
    decreases |p|
  {
    if p != [] {
      LookupWellFormed(Find(t.entries, p[0]).value, p[1..]);
    }
  }

  /** In a well-formed directory an entry is what its name finds. */
  lemma FindIsEntry(entries: seq<Entry>, i: nat)
    requires i < |entries| && DistinctNames(entries)
    ensures Find(entries, entries[i].name) == Some(entries[i].node)
  {
    var r := Find(entries, entries[i].name);
    var j :| 0 <= j < |entries| && entries[j] == Entry(entries[i].name, r.value);
  }

  // ---- sizes ----

  /** Bytes of all files; directories count nothing. */
  function TotalBytes(t: Tree): nat {
    match t
    case File(bytes) => |bytes|
    case Dir(entries) => EntriesBytes(entries)
  }

  function EntriesBytes(entries: seq<Entry>): nat {
    if entries == [] then 0
    else EntriesBytes(entries[..|entries| - 1]) + TotalBytes(entries[|entries| - 1].node)
  }

  function Sum(ns: seq<nat>): nat {
    if ns == [] then 0 else Sum(ns[..|ns| - 1]) + ns[|ns| - 1]
  }

  // ---- the destination ----

  datatype Node = DirNode | FileNode(bytes: seq<Byte>)

  type Files = map<Path, Node>

  function Get(m: Files, p: Path): Option<Node> {
    if p in m then Some(m[p]) else None
  }

  /** The root is a directory and so is the parent of every node. */
  ghost predicate TreeShaped(m: Files) {
    && Get(m, []) == Some(DirNode)
    && forall p :: HasParent(m, p)
  }

  ghost predicate HasParent(m: Files, p: Path) {
    p in m && p != [] ==> Get(m, p[..|p| - 1]) == Some(DirNode)
  }

  lemma {:induction false} AncestorsAreDirs(m: Files, p: Path, k: nat)
    requires TreeShaped(m) && p in m && k < |p|
    ensures Get(m, p[..k]) == Some(DirNode)
    decreases |p| - k
  {
    if k < |p| - 1 {
      AncestorsAreDirs(m, p, k + 1);
      assert HasParent(m, p[..k + 1]) && p[..k + 1][..k] == p[..k];
    } else {
      assert HasParent(m, p);
    }
  }

  /** Nothing disappears and nothing turns from a file into a directory or back. */
  ghost predicate KindsKept(m: Files, m': Files) {
    forall p :: p in m ==> p in m' && (m'[p].DirNode? <==> m[p].DirNode?)
  }

  /** m' is m with some missing directories on the way to `path` added. */
  ghost predicate DirsMade(m: Files, m': Files, path: Path) {
    forall p :: Get(m', p) == Get(m, p) || (p <= path && p !in m && Get(m', p) == Some(DirNode))
  }

  ghost predicate DirsUpTo(m: Files, path: Path, n: nat)
    requires n <= |path|
  {
    forall k :: 0 <= k <= n ==> Get(m, path[..k]) == Some(DirNode)
  }

  /** Neither `path` nor an ancestor of it is a file. */
  ghost predicate NoFileOnTheWay(m: Files, path: Path) {
    forall k :: 0 <= k <= |path| && path[..k] in m ==> m[path[..k]].DirNode?
  }

  lemma OneMoreDir(m0: Files, m: Files, path: Path, i: nat)
    requires 1 <= i <= |path| && path[..i] !in m
    requires TreeShaped(m) && DirsMade(m0, m, path) && DirsUpTo(m, path, i - 1)
    ensures TreeShaped(m[path[..i] := DirNode])
    ensures DirsMade(m0, m[path[..i] := DirNode], path)
    ensures DirsUpTo(m[path[..i] := DirNode], path, i)
  {
    var dir := path[..i];
    var m' := m[dir := DirNode];
    assert dir[..|dir| - 1] == path[..i - 1];
    forall p
      ensures HasParent(m', p)
    {
      assert HasParent(m, p);
    }
    assert Get(m, dir) == Get(m0, dir);
    forall p
      ensures Get(m', p) == Get(m0, p) || (p <= path && p !in m0 && Get(m', p) == Some(DirNode))
    {
      if p != dir { assert Get(m', p) == Get(m, p); }
    }
    forall k | 0 <= k <= i
      ensures Get(m', path[..k]) == Some(DirNode)
    {
      if k < i { assert Get(m, path[..k]) == Some(DirNode); }
    }
  }

  lemma MadeMeansFree(m: Files, m': Files, path: Path)
    requires DirsMade(m, m', path) && DirsUpTo(m', path, |path|)
    ensures NoFileOnTheWay(m, path)
  {
    forall k | 0 <= k <= |path| && path[..k] in m
      ensures m[path[..k]].DirNode?
    {
      assert Get(m', path[..k]) == Get(m, path[..k]);
    }
  }

  lemma ReplacedFile(m: Files, path: Path, bytes: seq<Byte>)
    requires TreeShaped(m) && path != [] && Get(m, path[..|path| - 1]) == Some(DirNode) && Get(m, path) != Some(DirNode)
    ensures TreeShaped(m[path := FileNode(bytes)]) && KindsKept(m, m[path := FileNode(bytes)])
  {
    var m' := m[path := FileNode(bytes)];
    forall p
      ensures HasParent(m', p)
    {
      assert HasParent(m, p);
    }
  }

  // ---- single operations ----

  /** One operation on a file system. */
  datatype Op = MkDir(path: Path) | Open(path: Path) | Write(path: Path, chunk: seq<Byte>)

  /** What the operation needs: its directory is there, and nothing of another kind in its place. */
  ghost predicate Works(m: Files, op: Op) {
    && op.path != [] && Get(m, op.path[..|op.path| - 1]) == Some(DirNode)
    && match op
       case MkDir(p) => p in m ==> m[p].DirNode?
       case Open(p) => Get(m, p) != Some(DirNode)
       case Write(p, _) => p in m && m[p].FileNode?
  }

  function Do(m: Files, op: Op): Files {
    match op
    case MkDir(p) => if p in m then m else m[p := DirNode]
    case Open(p) => m[p := FileNode([])]
    case Write(p, chunk) => if p in m && m[p].FileNode? then m[p := FileNode(m[p].bytes + chunk)] else m
  }

  function DoAll(m: Files, ops: seq<Op>): Files {
    if ops == [] then m else Do(DoAll(m, ops[..|ops| - 1]), ops[|ops| - 1])
  }

  /** The operations that make `path` and its ancestors. */
  function MkDirs(path: Path): (ops: seq<Op>)
    ensures |ops| == |path|
  {
    seq(|path|, i requires 0 <= i < |path| => MkDir(path[..i + 1]))
  }

  /**
   A file system as the copy uses it. When it is faulty any operation may fail, also after doing part of its
   work; otherwise an operation fails only for what is in its way.
   */
  class FileSys {
    var nodes: Files
    const faulty: bool
    ghost var log: seq<Op> // the operations that succeeded, if none has failed

    ghost predicate Valid()
      reads this
    {
      TreeShaped(nodes)
    }

    /** fs.MkdirAll. */
    method MkdirAll(path: Path) returns (ok: bool)
      requires Valid()
      modifies this
      ensures Valid() && DirsMade(old(nodes), nodes, path)
      ensures ok ==> DirsUpTo(nodes, path, |path|)
      ensures ok ==> nodes == DoAll(old(nodes), MkDirs(path)) && log == old(log) + MkDirs(path)
      ensures !faulty ==> (ok <==> NoFileOnTheWay(old(nodes), path))
    {
      ghost var ops := MkDirs(path);
      for i := 1 to |path| + 1
        invariant Valid() && DirsMade(old(nodes), nodes, path)
        invariant DirsUpTo(nodes, path, i - 1)
        invariant nodes == DoAll(old(nodes), ops[..i - 1]) && log == old(log) + ops[..i - 1]
      {
        assert ops[..i][..i - 1] == ops[..i - 1];
        var dir := path[..i];
        if faulty {
          var broken: bool := *;
          if broken { return false; }
        }
        if dir in nodes {
          if nodes[dir].FileNode? {
            assert Get(nodes, dir) == Get(old(nodes), dir);
            return false;
          }
        } else {
          OneMoreDir(old(nodes), nodes, path, i);
          nodes := nodes[dir := DirNode];
        }
        log := log + [MkDir(dir)];
      }
      assert ops[..|path|] == ops;
      MadeMeansFree(old(nodes), nodes, path);
      return true;
    }

    /** fs.OpenFile with O_CREATE and O_TRUNC. */
    method Create(path: Path) returns (ok: bool)
      requires Valid()
      modifies this
      ensures Valid() && KindsKept(old(nodes), nodes)
      ensures nodes == if ok then Do(old(nodes), Open(path)) else old(nodes)
      ensures ok ==> log == old(log) + [Open(path)]
      ensures ok ==> path != [] && Get(old(nodes), path[..|path| - 1]) == Some(DirNode)
      ensures !faulty ==>
                (ok <==> path != [] && Get(old(nodes), path[..|path| - 1]) == Some(DirNode)
                         && Get(old(nodes), path) != Some(DirNode))
    {
      if faulty {
        var broken: bool := *;
        if broken { return false; }
      }
      if path == [] || Get(nodes, path[..|path| - 1]) != Some(DirNode) || Get(nodes, path) == Some(DirNode) {
        return false;
      }
      ReplacedFile(nodes, path, []);
      nodes := nodes[path := FileNode([])];
      log := log + [Open(path)];
      return true;
    }

    /** Write on the open file; n bytes get there, and a short write counts as a failure. */
    method Append(path: Path, chunk: seq<Byte>) returns (ok: bool, ghost n: nat)
      requires Valid() && path in nodes && nodes[path].FileNode?
      modifies this
      ensures Valid() && n <= |chunk| && (ok ==> n == |chunk|)
      ensures nodes == Do(old(nodes), Write(path, chunk[..n]))
      ensures ok ==> log == old(log) + [Write(path, chunk)]
      ensures !faulty ==> ok
    {
      var wrote := |chunk|;
      if faulty {
        var part: int := *;
        if 0 <= part < wrote { wrote := part; }
      }
      assert HasParent(nodes, path);
      ReplacedFile(nodes, path, nodes[path].bytes + chunk[..wrote]);
      nodes := nodes[path := FileNode(nodes[path].bytes + chunk[..wrote])];
      log := log + [Write(path, chunk)];
      return wrote == |chunk|, wrote;
    }
  }
}
