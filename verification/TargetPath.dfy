/**
 Where copyAction puts what it copies. A download is renamed after its host so that results do not collide; the
 name is joined onto the destination as a path, so whether they do depends on the slashes and dots in it.
 */
module TargetPath {
  import opened Wrappers
  import opened Text
  import opened FileTree

  predicate IsSlash(c: char) { c == '/' }

  predicate IsComponent(c: Name) { c != "" && c != "." && c != ".." && '/' !in c }

  /** fs.ValidPath; [] is ".". */
  predicate IsPlace(p: Path) { forall i :: 0 <= i < |p| ==> IsComponent(p[i]) }

  function Parts(name: string): (parts: seq<string>)
    ensures |parts| >= 1
  {
    Split(name, IsSlash)
  }

  /** filepath.Join: the cleaned result, None once it has climbed above the root, from where it cannot come back. */
  function Join(dest: Path, parts: seq<string>): Option<Path>
    decreases |parts|
  {
    if parts == [] then Some(dest)
    else if parts[0] == "" || parts[0] == "." then Join(dest, parts[1..])
    else if parts[0] == ".." then if dest == [] then None else Join(dest[..|dest| - 1], parts[1..])
    else Join(dest + [parts[0]], parts[1..])
  }

  /** dest + "." + name, which nobody cleans; None for a path that no file system accepts. */
  function Append(dest: Path, name: string): Option<Path> {
    var front := if dest == [] then [] else dest[..|dest| - 1];
    var last := if dest == [] then "." else dest[|dest| - 1];
    var path := front + Parts(last + "." + name);
    if IsPlace(path) then Some(path) else None
  }

  /** The target of an upload or (fetch) of a download from this host, of a directory or of a file. */
  function Target(dest: Path, fetch: bool, host: string, isDir: bool): Option<Path> {
    if !fetch then Some(dest)
    else if isDir then Join(dest, Parts(host))
    else Append(dest, host)
  }

  ghost predicate Apart(a: Path, b: Path) {
    !(a <= b) && !(b <= a)
  }

  /** Both downloads have a place, and neither place is inside the other. */
  ghost predicate TargetsApart(dest: Path, h1: string, isDir1: bool, h2: string, isDir2: bool) {
    var a, b := Target(dest, true, h1, isDir1), Target(dest, true, h2, isDir2);
    a.Some? && b.Some? && Apart(a.value, b.value)
  }

  /** Downloads from hosts of these names never collide, whatever the destination, files and directories alike. */
  ghost predicate NeverCollide(h1: string, h2: string) {
    forall dest, isDir1, isDir2 :: IsPlace(dest) ==> TargetsApart(dest, h1, isDir1, h2, isDir2)
  }

  // ---- the condition on the names ----

  /** Joined onto any destination the name leads somewhere below it, and appended it gives a path. */
  predicate Steady(name: string) {
    var parts := Parts(name);
    parts[0] != "" && parts[0] != ".." && IsPlace(parts[1..])
  }

  /** What the name adds to a destination directory. */
  function Below(name: string): Path {
    if Parts(name)[0] == "." then Parts(name)[1..] else Parts(name)
  }

  /** The file in the root that a download to "." gives. */
  function Dotted(name: string): Path { [".." + Parts(name)[0]] + Parts(name)[1..] }

  ghost predicate NamesApart(h1: string, h2: string) {
    && Steady(h1) && Steady(h2)
    && Apart(Below(h1), Below(h2))
    && Apart(Below(h1), Dotted(h2)) && Apart(Dotted(h1), Below(h2))
  }

  lemma PartsAreComponents(name: string, k: nat)
    requires k < |Parts(name)|
    ensures '/' !in Parts(name)[k]
  {
    PartsAreFree(name, IsSlash);
  }

  /** Text without a slash in front goes to the first part. */
  lemma {:induction false} PartsAfter(stem: string, name: string)
    requires '/' !in stem
    ensures Parts(stem + name) == [stem + Parts(name)[0]] + Parts(name)[1..]
  {
    if stem == "" {
      assert stem + name == name && "" + Parts(name)[0] == Parts(name)[0];
      assert Parts(name) == [Parts(name)[0]] + Parts(name)[1..];
    } else {
      assert (stem + name)[1..] == stem[1..] + name;
      PartsAfter(stem[1..], name);
      assert [stem[0]] + (stem[1..] + Parts(name)[0]) == stem + Parts(name)[0];
    }
  }

  lemma {:induction false} JoinPlace(dest: Path, parts: seq<string>)
    requires IsPlace(parts)
    ensures Join(dest, parts) == Some(dest + parts)
    decreases |parts|
  {
    if parts != [] {
      JoinPlace(dest + [parts[0]], parts[1..]);
      assert dest + [parts[0]] + parts[1..] == dest + parts;
    } else {
      assert dest + parts == dest;
    }
  }

  lemma SteadyJoins(dest: Path, name: string)
    requires Steady(name)
    ensures IsPlace(Below(name)) && Join(dest, Parts(name)) == Some(dest + Below(name))
  {
    var parts := Parts(name);
    PartsAreComponents(name, 0);
    if parts[0] != "." {
      assert parts == [parts[0]] + parts[1..];
    }
    JoinPlace(dest, Below(name));
  }

  lemma HeadIsComponent(last: string, part: string)
    requires (IsComponent(last) || last == ".") && '/' !in part
    ensures IsComponent(last + "." + part) <==> last != "." || part != ""
    ensures last == "." ==> last + "." + part == ".." + part
  {
    var head := last + "." + part;
    assert head[..|last|] == last && |head| == |last| + 1 + |part|;
    if last == "." && part == "" {
      assert head == "..";
    }
  }

  /** A file's target: its last but possibly not only new component begins with what dest ends with. */
  lemma AppendMeans(dest: Path, name: string)
    requires IsPlace(dest)
    ensures var parts := Parts(name);
            Append(dest, name) ==
            if !IsPlace(parts[1..]) || (dest == [] && parts[0] == "") then None
            else if dest == [] then Some(Dotted(name))
            else Some(dest[..|dest| - 1] + ([dest[|dest| - 1] + "." + parts[0]] + parts[1..]))
  {
    var parts := Parts(name);
    var front := if dest == [] then [] else dest[..|dest| - 1];
    var last := if dest == [] then "." else dest[|dest| - 1];
    PartsAfter(last + ".", name);
    PartsAreComponents(name, 0);
    var head := last + "." + parts[0];
    HeadIsComponent(last, parts[0]);
    PlaceConcat([head], parts[1..]);
    PlaceConcat(front, [head] + parts[1..]);
    if dest == [] {
      assert [] + ([head] + parts[1..]) == Dotted(name);
    }
  }

  lemma PlaceConcat(a: Path, b: Path)
    ensures IsPlace(a + b) <==> IsPlace(a) && IsPlace(b)
    ensures |a| == 1 ==> (IsPlace(a) <==> IsComponent(a[0]))
  {
    assert forall i :: 0 <= i < |a| ==> (a + b)[i] == a[i];
    assert forall i :: 0 <= i < |b| ==> (a + b)[|a| + i] == b[i];
  }

  // ---- prefixes ----

  lemma ApartBelow(dest: Path, a: Path, b: Path)
    ensures Apart(dest + a, dest + b) <==> Apart(a, b)
  {
    assert (dest + a)[|dest|..] == a && (dest + b)[|dest|..] == b;
  }

  lemma ApartHeads(x: Name, a: Path, y: Name, b: Path)
    ensures Apart([x] + a, [y] + b) <==> x != y || Apart(a, b)
  {
    if x == y {
      ApartBelow([x], a, b);
    } else {
      assert ([x] + a)[0] == x && ([y] + b)[0] == y;
    }
  }

  /** Paths that differ at one place are apart. */
  lemma ApartAt(a: Path, b: Path, k: nat)
    requires k < |a| && k < |b| && a[k] != b[k]
    ensures Apart(a, b)
  {}

  // ---- the theorem ----

  lemma FileTargetsApart(dest: Path, h1: string, h2: string)
    requires IsPlace(dest) && NamesApart(h1, h2)
    ensures TargetsApart(dest, h1, false, h2, false)
  {
    AppendMeans(dest, h1);
    AppendMeans(dest, h2);
    var p1, p2 := Parts(h1), Parts(h2);
    var stem := if dest == [] then ".." else dest[|dest| - 1] + ".";
    var x, y := stem + p1[0], stem + p2[0];
    assert x[|stem|..] == p1[0] && y[|stem|..] == p2[0];
    ApartHeads(x, p1[1..], y, p2[1..]);
    ApartHeads(p1[0], p1[1..], p2[0], p2[1..]);
    assert p1 == [p1[0]] + p1[1..] && p2 == [p2[0]] + p2[1..];
    if dest != [] {
      ApartBelow(dest[..|dest| - 1], [x] + p1[1..], [y] + p2[1..]);
    }
  }

  lemma MixedTargetsApart(dest: Path, dir: string, file: string)
    requires IsPlace(dest) && Steady(dir) && Steady(file) && (dest == [] ==> Apart(Below(dir), Dotted(file)))
    ensures TargetsApart(dest, dir, true, file, false) && TargetsApart(dest, file, false, dir, true)
  {
    SteadyJoins(dest, dir);
    AppendMeans(dest, file);
    if dest != [] {
      var n := |dest| - 1;
      var a, b := Target(dest, true, dir, true).value, Target(dest, true, file, false).value;
      assert a[n] == dest[n] && b[n] == dest[n] + "." + Parts(file)[0];
      assert |b[n]| > |a[n]|;
      ApartAt(a, b, n);
    } else {
      assert [] + Below(dir) == Below(dir);
    }
  }

  lemma DirTargetsApart(dest: Path, h1: string, h2: string)
    requires Steady(h1) && Steady(h2)
    ensures TargetsApart(dest, h1, true, h2, true) <==> Apart(Below(h1), Below(h2))
  {
    SteadyJoins(dest, h1);
    SteadyJoins(dest, h2);
    ApartBelow(dest, Below(h1), Below(h2));
  }

  /** A name that gives a place for a directory and for a file is steady. */
  lemma PlaceInRoot(name: string)
    requires Target([], true, name, true).Some? && Target([], true, name, false).Some?
    ensures Steady(name)
    ensures Target([], true, name, true).value == Below(name)
    ensures Target([], true, name, false).value == Dotted(name)
  {
    AppendMeans([], name);
    assert Parts(name)[0] != "..";
    SteadyJoins([], name);
    assert [] + Below(name) == Below(name);
  }

  lemma NeverCollideMeans(h1: string, h2: string)
    requires NeverCollide(h1, h2)
    ensures NamesApart(h1, h2)
  {
    assert IsPlace([]);
    assert TargetsApart([], h1, true, h2, true) && TargetsApart([], h1, false, h2, false);
    assert TargetsApart([], h1, true, h2, false) && TargetsApart([], h1, false, h2, true);
    PlaceInRoot(h1);
    PlaceInRoot(h2);
  }

  /** Downloads from two hosts never collide if and only if the names meet a condition that can be checked up front. */
  lemma TargetsApartExact(h1: string, h2: string)
    ensures NeverCollide(h1, h2) <==> NamesApart(h1, h2)
  {
    if NeverCollide(h1, h2) {
      NeverCollideMeans(h1, h2);
    }
    if NamesApart(h1, h2) {
      forall dest, isDir1, isDir2 | IsPlace(dest)
        ensures TargetsApart(dest, h1, isDir1, h2, isDir2)
      {
        SteadyTargetsApart(dest, h1, isDir1, h2, isDir2);
      }
    }
  }

  lemma SteadyTargetsApart(dest: Path, h1: string, isDir1: bool, h2: string, isDir2: bool)
    requires IsPlace(dest) && NamesApart(h1, h2)
    ensures TargetsApart(dest, h1, isDir1, h2, isDir2)
  {
    if isDir1 && isDir2 {
      DirTargetsApart(dest, h1, h2);
    } else if isDir1 {
      MixedTargetsApart(dest, h1, h2);
    } else if isDir2 {
      MixedTargetsApart(dest, h2, h1);
    } else {
      FileTargetsApart(dest, h1, h2);
    }
  }

  lemma OneComponent(x: Name)
    ensures [x] + [] == [x] && !Apart([], [])
  {}

  lemma ComponentIsItsOnlyPart(name: string)
    requires IsComponent(name)
    ensures Parts(name) == [name] && Steady(name) && Below(name) == [name] && Dotted(name) == [".." + name]
  {
    SplitFree(name, IsSlash);
    assert [name][1..] == [];
  }

  /** The usual case: a directory goes below dest under the host's name, a file next to dest with the name behind it. */
  lemma ComponentTargets(dest: Path, host: string)
    requires IsPlace(dest) && dest != [] && IsComponent(host)
    ensures Target(dest, true, host, true) == Some(dest + [host])
    ensures Target(dest, true, host, false) == Some(dest[..|dest| - 1] + [dest[|dest| - 1] + "." + host])
  {
    ComponentIsItsOnlyPart(host);
    SteadyJoins(dest, host);
    AppendMeans(dest, host);
    OneComponent(dest[|dest| - 1] + "." + host);
  }

  /** filepath.Join goes through a name with slashes part by part; a parent reference undoes the part before it. */
  lemma {:induction false} JoinComposes(dest: Path, a: seq<string>, b: seq<string>)
    ensures Join(dest, a + b) == match Join(dest, a) case None => None case Some(mid) => Join(mid, b)
    decreases |a|
  {
    if a == [] {
      assert a + b == b;
    } else {
      assert (a + b)[1..] == a[1..] + b;
      if a[0] == "" || a[0] == "." {
        JoinComposes(dest, a[1..], b);
      } else if a[0] != ".." {
        JoinComposes(dest + [a[0]], a[1..], b);
      } else if dest != [] {
        JoinComposes(dest[..|dest| - 1], a[1..], b);
      }
    }
  }

  lemma JoinOne(dest: Path, part: string)
    ensures part == "" || part == "." ==> Join(dest, [part]) == Some(dest)
    ensures part == ".." ==> Join(dest, [part]) == if dest == [] then None else Some(dest[..|dest| - 1])
    ensures part != "" && part != "." && part != ".." ==> Join(dest, [part]) == Some(dest + [part])
  {
    assert [part][1..] == [];
  }

  /** Joining a/b is joining a and then b. */
  lemma SlashDescends(dest: Path, a: string, b: string)
    ensures Target(dest, true, a + "/" + b, true) ==
            match Target(dest, true, a, true) case None => None case Some(mid) => Target(mid, true, b, true)
  {
    SplitConcat(a, '/', b, IsSlash);
    assert a + ['/'] + b == a + "/" + b;
    JoinComposes(dest, Parts(a), Parts(b));
  }

  /** The parent reference leads out of the destination, and nowhere from the root. */
  lemma ParentTargets(dest: Path)
    ensures Target(dest, true, "..", true) == if dest == [] then None else Some(dest[..|dest| - 1])
  {
    SplitFree("..", IsSlash);
    JoinOne(dest, "..");
  }

  /**
   For names that are single components it is enough to be distinct, unless a directory and a file are both
   downloaded to "." and the directory's host is named like the file's with two dots in front.
   */
  lemma ComponentNamesApart(dest: Path, h1: string, isDir1: bool, h2: string, isDir2: bool)
    requires IsPlace(dest) && IsComponent(h1) && IsComponent(h2)
    ensures TargetsApart(dest, h1, isDir1, h2, isDir2) <==>
            if isDir1 == isDir2 then h1 != h2
            else dest != [] || (if isDir1 then h1 != ".." + h2 else h2 != ".." + h1)
  {
    ComponentIsItsOnlyPart(h1);
    ComponentIsItsOnlyPart(h2);
    SteadyJoins(dest, h1);
    SteadyJoins(dest, h2);
    AppendMeans(dest, h1);
    AppendMeans(dest, h2);
    if isDir1 && isDir2 {
      DirTargetsApart(dest, h1, h2);
    } else if isDir1 != isDir2 {
      if dest != [] {
        if isDir1 { MixedTargetsApart(dest, h1, h2); } else { MixedTargetsApart(dest, h2, h1); }
      } else {
        assert [] + [h1] == [h1] && [] + [h2] == [h2];
        ApartHeads(h1, [], ".." + h2, []);
        ApartHeads(".." + h1, [], h2, []);
        OneComponent(h1);
        OneComponent(h2);
        OneComponent(".." + h1);
        OneComponent(".." + h2);
      }
    } else {
      var stem := if dest == [] then ".." else dest[|dest| - 1] + ".";
      assert (stem + h1)[|stem|..] == h1 && (stem + h2)[|stem|..] == h2;
      OneComponent(stem + h1);
      OneComponent(stem + h2);
      ApartHeads(stem + h1, [], stem + h2, []);
      if dest != [] { ApartBelow(dest[..|dest| - 1], [stem + h1], [stem + h2]); }
    }
  }

  lemma PartsOfExamples()
    ensures Parts("a") == ["a"] && Parts("") == [""] && Parts(".") == ["."]
    ensures Parts("a/b") == ["a", "b"] && Parts("./a") == [".", "a"]
  {
    SplitFree("a", IsSlash);
    SplitFree("b", IsSlash);
    SplitFree(".", IsSlash);
    SplitFree("", IsSlash);
    SplitConcat("a", '/', "b", IsSlash);
    SplitConcat(".", '/', "a", IsSlash);
    assert "a" + ['/'] + "b" == "a/b" && "." + ['/'] + "a" == "./a";
  }

  /** Host names that collide: one directory lands inside the other, on the other, or on the destination itself. */
  lemma CollidingNames(dest: Path)
    ensures Target(dest, true, "a", true) == Some(dest + ["a"]) == Target(dest, true, "./a", true)
    ensures Target(dest, true, "a/b", true) == Some(dest + ["a", "b"])
    ensures Target(dest, true, "", true) == Some(dest) == Target(dest, true, ".", true)
  {
    PartsOfExamples();
    JoinPlace(dest, ["a"]);
    JoinPlace(dest, ["a", "b"]);
    assert [".", "a"][1..] == ["a"] && [""][1..] == [] && ["."][1..] == [];
  }

  lemma CollidingExamples(other: string)
    requires other in ["a/b", "./a", "", "."]
    ensures !NeverCollide("a", other)
  {
    CollidingNames([]);
    TargetsApartExact("a", other);
    assert IsPlace([]) && (["a"] <= ["a", "b"]) && [] + ["a"] == ["a"] && [] + ["a", "b"] == ["a", "b"];
    assert !TargetsApart([], "a", true, other, true);
  }
}
