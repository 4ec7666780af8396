/** The filesystem as the adapter sees it: one mutable object whose methods are the
    java.nio.file.Files calls the adapter makes (and Spring's
    FileSystemUtils.deleteRecursively), each proved to behave as its function in Storage. */
module Files {
  import opened Outcomes
  import opened Paths
  import opened FileSystem
  import Storage
  import StorageProperties

  /** A finite non-empty set of paths has a shortest and a longest member. */
  lemma {:induction false} ShortestExists(s: set<Path>)
    requires s != {}
    ensures exists p :: p in s && forall q :: q in s ==> |p| <= |q|
    decreases |s|
  {
    var x :| x in s;
    var rest := s - {x};
    if rest != {} {
      ShortestExists(rest);
      var p :| p in rest && forall q :: q in rest ==> |p| <= |q|;
      if |x| < |p| {
        assert forall q :: q in s ==> |x| <= |q|;
      } else {
        assert forall q :: q in s ==> |p| <= |q|;
      }
    } else {
      assert s == rest + {x};
    }
  }

  lemma {:induction false} LongestExists(s: set<Path>)
    requires s != {}
    ensures exists p :: p in s && forall q :: q in s ==> |q| <= |p|
    decreases |s|
  {
    var x :| x in s;
    var rest := s - {x};
    if rest != {} {
      LongestExists(rest);
      var p :| p in rest && forall q :: q in rest ==> |q| <= |p|;
      if |x| > |p| {
        assert forall q :: q in s ==> |q| <= |x|;
      } else {
        assert forall q :: q in s ==> |q| <= |p|;
      }
    } else {
      assert s == rest + {x};
    }
  }

  /** The climb of Files.createDirectories stops where NearestExisting says. */
  lemma {:induction false} NearestExistingIs(fs: Tree, d: Path, j: nat, k: nat)
    requires k <= j <= |d| && Exists(fs, d[..k])
    requires forall i :: k < i <= j ==> !Exists(fs, d[..i])
    ensures Storage.NearestExisting(fs, d, j) == k
    decreases j
  {
    if j > k {
      NearestExistingIs(fs, d, j - 1, k);
    }
  }

  /** What Files.createDirectories does once the climb has stopped at `d[..k]`. */
  lemma CreateDirectoriesAt(fs: Tree, d: Path, k: nat)
    requires !IsDir(fs, d) && d !in fs && k == Storage.NearestExisting(fs, d, |d| - 1)
    ensures !IsDir(fs, d[..k]) ==> Storage.CreateDirectories(fs, d) == Storage.Effect(Err(Fault.NotADirectory), fs)
    ensures IsDir(fs, d[..k]) ==> Storage.CreateDirectories(fs, d) == Storage.Effect(Ok(()), fs + Storage.Chain(d, k))
  {
  }

  /** The missing directories on `d` of lengths above `k` and below `i`. */
  function PrefixDirs(d: Path, k: nat, i: nat): map<Path, Node> {
    map j | k < j < i && j <= |d| :: d[..j] := Dir
  }

  lemma PrefixDirsGrow(base: Tree, d: Path, k: nat, i: nat)
    requires k < i <= |d|
    ensures (base + PrefixDirs(d, k, i))[d[..i] := Dir] == base + PrefixDirs(d, k, i + 1)
  {
    var small := PrefixDirs(d, k, i);
    var big := PrefixDirs(d, k, i + 1);
    assert big.Keys == small.Keys + {d[..i]} by {
      forall p | p in big
        ensures p in small || p == d[..i]
      {
        var j :| k < j < i + 1 && j <= |d| && p == d[..j];
      }
    }
  }

  lemma PrefixDirsAll(d: Path, k: nat)
    ensures PrefixDirs(d, k, |d| + 1) == Storage.Chain(d, k)
  {
  }

  /** The tree while deleteRecursively runs: the entries below `at` that are not in `below`
      are already gone. */
  function Remaining(before: Tree, at: Path, below: set<Path>): Tree {
    before - (Descendants(before, at) - below)
  }

  /** What is left once everything below `top` is gone, and once `top` is gone too. */
  lemma RemovedBelow(fs: Tree, top: Path)
    ensures Remaining(fs, top, {}) == fs - Descendants(fs, top)
    ensures Descendants(Remaining(fs, top, {}), top) == {}
    ensures Remaining(fs, top, {}) - {top} == fs - Subtree(fs, top)
  {
    assert Descendants(fs, top) - {} == Descendants(fs, top);
    forall p | p in Subtree(fs, top)
      ensures p in Descendants(fs, top) || p == top
    {
      if p != top {
        assert top < p;
      }
    }
    var left := Remaining(fs, top, {}) - {top};
    assert forall p :: p in left <==> p in fs && p !in Subtree(fs, top);
    assert left == fs - Subtree(fs, top);
  }

  /** The longest entry still to be removed has nothing below it, and removing it keeps the
      tree well formed. */
  lemma RemoveDeepest(before: Tree, at: Path, below: set<Path>, p: Path)
    requires below <= Descendants(before, at) && WellFormed(Remaining(before, at, below))
    requires p in below && forall q :: q in below ==> |q| <= |p|
    ensures WellFormed(Remaining(before, at, below) - {p})
    ensures Remaining(before, at, below) - {p} == Remaining(before, at, below - {p})
  {
    var cur := Remaining(before, at, below);
    assert Descendants(cur, p) == {};
    StorageProperties.RemoveLeafKeepsWellFormed(cur, p);
  }

  /** What the walk loop keeps: `listed` holds distinct entries below `start`, each after its
      parent, none of them longer than an entry still in `todo`, and together with `todo`
      everything below `start`. */
  predicate WalkState(fs: Tree, start: Path, listed: seq<Path>, todo: set<Path>) {
    && todo <= Descendants(fs, start)
    && (forall i :: 0 <= i < |listed| ==> listed[i] in Descendants(fs, start) && listed[i] !in todo)
    && (forall p :: p in Descendants(fs, start) ==> p in todo || p in listed)
    && (forall i, j :: 0 <= i < j < |listed| ==> listed[i] != listed[j])
    && Storage.ParentsFirst(start, listed)
    && (forall i, q :: 0 <= i < |listed| && q in todo ==> |listed[i]| <= |q|)
  }

  /** Taking the shortest entry left keeps every listed entry after its parent: the parent
      is shorter, so it is no longer in `todo`, so it is listed already. */
  lemma WalkStepParents(fs: Tree, start: Path, listed: seq<Path>, todo: set<Path>, p: Path)
    requires WellFormed(fs) && Storage.ParentsFirst(start, listed)
    requires forall q :: q in Descendants(fs, start) ==> q in todo || q in listed
    requires p in Descendants(fs, start) && p in todo && forall q :: q in todo ==> |p| <= |q|
    ensures Storage.ParentsFirst(start, listed + [p])
  {
    var next := listed + [p];
    forall i | 0 <= i < |next| && |next[i]| > |start| + 1
      ensures Parent(next[i]) in next[..i]
    {
      if i < |listed| {
        assert next[i] == listed[i] && next[..i] == listed[..i];
      } else {
        var up := Parent(p);
        assert start < up by {
          assert up == p[..|p| - 1];
        }
        assert up in Descendants(fs, start);
        assert up !in todo;
        assert next[..i] == listed;
      }
    }
  }

  lemma WalkStep(fs: Tree, start: Path, listed: seq<Path>, todo: set<Path>, p: Path)
    requires WellFormed(fs) && WalkState(fs, start, listed, todo)
    requires p in todo && forall q :: q in todo ==> |p| <= |q|
    ensures WalkState(fs, start, listed + [p], todo - {p})
  {
    var next := listed + [p];
    var rest := todo - {p};
    WalkStepParents(fs, start, listed, todo, p);
    forall i | 0 <= i < |next|
      ensures next[i] in Descendants(fs, start) && next[i] !in rest
      ensures forall q :: q in rest ==> |next[i]| <= |q|
    {
      if i < |listed| {
        assert next[i] == listed[i];
      }
    }
    forall i, j | 0 <= i < j < |next|
      ensures next[i] != next[j]
    {
      if j < |listed| {
        assert next[i] == listed[i] && next[j] == listed[j];
      } else {
        assert next[i] == listed[i];
      }
    }
  }

  lemma WalkDone(fs: Tree, start: Path, listed: seq<Path>)
    requires WalkState(fs, start, listed, {})
    ensures Storage.IsWalk(fs, start, [start] + listed)
  {
    assert ([start] + listed)[1..] == listed;
  }

  class Disk {
    var fs: Tree

    constructor (initial: Tree)
      ensures fs == initial
    {
      fs := initial;
    }

    /** Files.write on a normalised path: a single system call, so the disk takes the
        tree Storage.Write describes in one update. */
    method Write(dest: Path, content: seq<byte>) returns (r: Result<(), Fault>)
      modifies this
      ensures Storage.Write(old(fs), dest, content) == Storage.Effect(r, fs)
    {
      var e := Storage.Write(fs, dest, content);
      fs := e.fs;
      r := e.result;
    }

    /** The first half of Files.createDirectories: climb from the parent of `d` to the
        nearest ancestor that exists. */
    method NearestExisting(d: Path) returns (k: nat)
      requires |d| > 0
      ensures k == Storage.NearestExisting(fs, d, |d| - 1)
    {
      k := |d| - 1;
      while !Exists(fs, d[..k])
        invariant k < |d|
        invariant forall i :: k < i <= |d| - 1 ==> !Exists(fs, d[..i])
        decreases k
      {
        k := k - 1;
      }
      NearestExistingIs(fs, d, |d| - 1, k);
    }

    /** The second half of Files.createDirectories: create the directories of `d` below
        `d[..k]`, from the top down. */
    method CreateBelow(d: Path, k: nat)
      requires k < |d|
      modifies this
      ensures fs == old(fs) + Storage.Chain(d, k)
    {
      ghost var before := fs;
      var i := k + 1;
      while i <= |d|
        invariant k < i <= |d| + 1
        invariant fs == before + PrefixDirs(d, k, i)
        decreases |d| + 1 - i
      {
        PrefixDirsGrow(before, d, k, i);
        fs := fs[d[..i] := Dir];
        i := i + 1;
      }
      PrefixDirsAll(d, k);
    }

    /** Files.createDirectories on a normalised path. */
    method CreateDirectories(d: Path) returns (r: Result<(), Fault>)
      modifies this
      ensures Storage.CreateDirectories(old(fs), d) == Storage.Effect(r, fs)
    {
      if IsDir(fs, d) {
        return Ok(());
      }
      if d in fs {
        return Err(AlreadyExists);
      }
      var k := NearestExisting(d);
      CreateDirectoriesAt(fs, d, k);
      if !IsDir(fs, d[..k]) {
        return Err(Fault.NotADirectory);
      }
      CreateBelow(d, k);
      r := Ok(());
    }

    /** Files.deleteIfExists on a path that is not normalised: a single system call, so the
        disk takes the tree Storage.DeleteIfExists describes in one update. */
    method DeleteIfExists(names: seq<string>) returns (r: Result<(), Fault>)
      modifies this
      ensures Storage.DeleteIfExists(old(fs), names) == Storage.Effect(r, fs)
    {
      var e := Storage.DeleteIfExists(fs, names);
      fs := e.fs;
      r := e.result;
    }

    /** FileSystemUtils.deleteRecursively on a path that is not normalised: when Files.exists
        finds it, remove what is below it one entry at a time, deepest first, then the entry
        itself. When the path runs through a directory below the entry, the removal stops
        with that directory, as Storage.DeleteRecursively describes. Every single removal
        takes an entry with nothing left below it, as rmdir and unlink need, so the tree
        stays well formed throughout. */
    method DeleteRecursively(names: seq<string>) returns (r: Result<(), Fault>)
      requires WellFormed(fs)
      modifies this
      ensures Storage.DeleteRecursively(old(fs), names) == Storage.Effect(r, fs)
      ensures WellFormed(fs)
    {
      var found := Locate(fs, names);
      if !found.Found? || !Exists(fs, found.at) {
        return Ok(());
      }
      var at := found.at;
      var through := Storage.DeepestBelow(Storage.Waypoints([], names), at);
      var top := if through.Some? then through.value else at;
      ghost var before := fs;
      var below := Descendants(fs, top);
      while below != {}
        invariant below <= Descendants(before, top)
        invariant fs == Remaining(before, top, below)
        invariant WellFormed(fs)
        decreases |below|
      {
        LongestExists(below);
        var p :| p in below && forall q :: q in below ==> |q| <= |p|;
        RemoveDeepest(before, top, below, p);
        fs := fs - {p};
        below := below - {p};
      }
      RemovedBelow(before, top);
      if through.Some? {
        StorageProperties.RemoveLeafKeepsWellFormed(fs, top);
        fs := fs - {top};
        return Err(NoSuchFile);
      }
      if at == [] || Storage.EndsWithDot(names) {
        return Err(Storage.RefusedRemoval(names));
      }
      StorageProperties.RemoveLeafKeepsWellFormed(fs, at);
      fs := fs - {at};
      r := Ok(());
    }

    /** Files.readAllBytes on a path that is not normalised: it reads the disk as
        Storage.ReadAllBytes says. */
    method ReadAllBytes(names: seq<string>) returns (r: Result<seq<byte>, Fault>)
      ensures r == Storage.ReadAllBytes(fs, names)
    {
      r := Storage.ReadAllBytes(fs, names);
    }

    /** Files.walk on a normalised path: the start, then the entries below it, taking the
        shortest one left each time so that a directory always comes before what it holds. */
    method Walk(start: Path) returns (r: Result<seq<Path>, Fault>)
      requires WellFormed(fs) && Plain(start)
      ensures r.Ok? <==> Exists(fs, start)
      ensures r.Ok? ==> Storage.IsWalk(fs, start, r.value)
    {
      if start != [] {
        LocatePlain(fs, start);
      }
      if start in fs {
        LocateExisting(fs, start);
      }
      match Locate(fs, start)
      case NoEntry => return Err(NoSuchFile);
      case NotADirectory => return Err(Fault.NotADirectory);
      case Found(_) =>
      if !Exists(fs, start) {
        return Err(NoSuchFile);
      }
      var todo := Descendants(fs, start);
      var listed: seq<Path> := [];
      while todo != {}
        invariant WalkState(fs, start, listed, todo)
        decreases |todo|
      {
        ShortestExists(todo);
        var p :| p in todo && forall q :: q in todo ==> |p| <= |q|;
        WalkStep(fs, start, listed, todo, p);
        listed := listed + [p];
        todo := todo - {p};
      }
      WalkDone(fs, start, listed);
      r := Ok([start] + listed);
    }
  }
}
