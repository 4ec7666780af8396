/** What the storage operations guarantee: when each of them succeeds and what it then
    changes, that they keep the tree well formed, the round trips between them, and where
    the containment check holds and where it is missing. */
module StorageProperties {
  import opened Outcomes
  import opened Paths
  import opened FileSystem
  import opened Storage

  // ---------------------------------------------------------------------------------------
  // storeFile

  /** A normalised destination under the root gets the file exactly when its parent is a
      directory and it is not itself one; nothing else changes, and a failure changes
      nothing. */
  lemma StoreFileOutcome(fs: Tree, root: Path, filename: string, content: seq<byte>)
    requires WellFormed(fs) && ValidRoot(root) && '\0' !in filename
    ensures var dest := Resolved(root, filename).value;
            var e := StoreFile(fs, root, filename, content);
            && (e.result.Ok? <==> root < dest && IsDir(fs, Parent(dest)) && !IsDir(fs, dest))
            && (e.result.Ok? ==> e.fs == fs[dest := File(content)])
            && (e.result.Err? ==> e.fs == fs)
            && (!(root < dest) ==> e.result == Err(if dest == [] then NullPointer else PathEscape))
  {
    var dest := Resolved(root, filename).value;
    if dest != [] {
      LocatePlain(fs, dest);
      if root < dest {
        assert root <= Parent(dest);
      }
    }
  }

  /** The relative names parsed from `s`, normalised against the root. */
  lemma ResolvedRelative(root: Path, s: string, names: seq<string>)
    requires Plain(root) && ValidNames(names) && Join(names) == s && (s == [] || s[0] != '/')
    ensures Resolved(root, s) == Ok(Fold(root, names))
  {
    JoinHasNoNul(names);
    SplitJoin(names);
    NormalizeUnder(root, names);
  }

  /** A file name that normalises to the root is refused before anything is written:
      "" and ".". */
  lemma StoreFileRejectsTheRoot(fs: Tree, root: Path, content: seq<byte>)
    requires ValidRoot(root)
    ensures StoreFile(fs, root, "", content) == Effect(Err(PathEscape), fs)
    ensures StoreFile(fs, root, ".", content) == Effect(Err(PathEscape), fs)
  {
    ResolvedRelative(root, "", []);
    ResolvedRelative(root, ".", ["."]);
  }

  /** Normalising two names and three names, step by step. */
  lemma FoldTwo(acc: Path, a: string, b: string)
    ensures Fold(acc, [a, b]) == Step(Step(acc, a), b)
  {
    assert [a, b][0] == a && [a, b][1..] == [b];
    assert Fold(acc, [a, b]) == Fold(Step(acc, a), [b]);
    assert [b][0] == b && [b][1..] == [];
    assert Fold(Step(acc, a), [b]) == Fold(Step(Step(acc, a), b), []);
    assert Fold(Step(Step(acc, a), b), []) == Step(Step(acc, a), b);
  }

  lemma FoldThree(acc: Path, a: string, b: string, c: string)
    ensures Fold(acc, [a, b, c]) == Step(Step(Step(acc, a), b), c)
  {
    assert [a, b, c][1..] == [b, c];
    FoldTwo(Step(acc, a), b, c);
  }

  /** "x/.." is the root itself, and is refused. */
  lemma StoreFileRejectsUpFromChild(fs: Tree, root: Path, x: string, content: seq<byte>)
    requires ValidRoot(root) && IsPlainName(x)
    ensures StoreFile(fs, root, x + "/..", content) == Effect(Err(PathEscape), fs)
  {
    assert Join([x, ".."]) == x + "/..";
    ResolvedRelative(root, x + "/..", [x, ".."]);
    FoldTwo(root, x, "..");
    assert (root + [x])[..|root|] == root;
  }

  /** "../x" is a sibling of the root, and is refused. */
  lemma StoreFileRejectsSibling(fs: Tree, root: Path, x: string, content: seq<byte>)
    requires ValidRoot(root) && IsPlainName(x)
    ensures StoreFile(fs, root, "../" + x, content) == Effect(Err(PathEscape), fs)
  {
    assert Join(["..", x]) == "../" + x;
    ResolvedRelative(root, "../" + x, ["..", x]);
    FoldTwo(root, "..", x);
    var up := Parent(root) + [x];
    assert Parent(up) == Parent(root);
  }

  /** A file whose parent directory is missing, in a directory that exists, is refused and
      nothing is created: Files.write does not create parent directories. */
  lemma StoreFileNeedsTheParent(fs: Tree, root: Path, filename: string, content: seq<byte>)
    requires WellFormed(fs) && ValidRoot(root) && '\0' !in filename
    requires var dest := Resolved(root, filename).value;
             root < dest && |dest| > 1 && !Exists(fs, Parent(dest)) && IsDir(fs, Parent(Parent(dest)))
    ensures StoreFile(fs, root, filename, content) == Effect(Err(NoSuchFile), fs)
  {
    var dest := Resolved(root, filename).value;
    assert root <= Parent(dest);
    var k := |dest| - 1;
    assert dest[..k] == Parent(dest);
    assert dest[..k - 1] == Parent(Parent(dest));
    AncestorsAreDirs(fs, Parent(Parent(dest)));
    forall j | 0 <= j < k
      ensures IsDir(fs, dest[..j])
    {
      if j < k - 1 {
        assert dest[..j] == Parent(Parent(dest))[..j];
      }
    }
    WalkToFirstMissing(fs, dest, 0, k);
    assert dest[..0] == [] && dest[0..] == dest;
  }

  /** Walking a plain path through directories up to the missing prefix `d[..k]`, with
      names still to go after it, ends with ENOENT. */
  lemma {:induction false} WalkToFirstMissing(fs: Tree, d: Path, i: nat, k: nat)
    requires Plain(d) && i <= k < |d| && !Exists(fs, d[..k])
    requires forall j :: i <= j < k ==> IsDir(fs, d[..j])
    ensures Walk(fs, d[..i], d[i..]) == NoEntry
    decreases k - i
  {
    assert d[i..][0] == d[i] && d[i..][1..] == d[i + 1..];
    if i < k {
      assert IsPlainName(d[i]);
      assert Step(d[..i], d[i]) == d[..i + 1];
      WalkToFirstMissing(fs, d, i + 1, k);
    }
  }

  /** Writing a file into an existing directory keeps a tree well formed. */
  lemma PutFileKeepsWellFormed(fs: Tree, dest: Path, content: seq<byte>)
    requires WellFormed(fs) && |dest| > 0 && Plain(dest) && IsDir(fs, Parent(dest)) && !IsDir(fs, dest)
    ensures WellFormed(fs[dest := File(content)])
  {
    var after := fs[dest := File(content)];
    forall p | p in after
      ensures |p| > 0 && Plain(p) && IsDir(after, Parent(p))
    {
      if p != dest {
        assert Parent(p) != dest;
      }
    }
  }

  /** storeFile keeps the tree well formed. */
  lemma StoreFileKeepsWellFormed(fs: Tree, root: Path, filename: string, content: seq<byte>)
    requires WellFormed(fs) && ValidRoot(root)
    ensures WellFormed(StoreFile(fs, root, filename, content).fs)
  {
    if '\0' !in filename {
      StoreFileOutcome(fs, root, filename, content);
      if StoreFile(fs, root, filename, content).result.Ok? {
        PutFileKeepsWellFormed(fs, Resolved(root, filename).value, content);
      }
    }
  }

  /** After a successful store, a plain file name reads back what was stored. */
  lemma StoreThenRead(fs: Tree, root: Path, filename: string, content: seq<byte>)
    requires WellFormed(fs) && ValidRoot(root)
    requires Parse(filename).Ok? && Plain(Parse(filename).value.names)
    requires StoreFile(fs, root, filename, content).result.Ok?
    ensures ReadFile(StoreFile(fs, root, filename, content).fs, root, filename) == Ok(content)
  {
    var names := Resolve(root, Parse(filename).value);
    FoldPlain([], names);
    assert [] + names == names;
    StoreFileOutcome(fs, root, filename, content);
    StoreFileKeepsWellFormed(fs, root, filename, content);
    var after := StoreFile(fs, root, filename, content).fs;
    assert after == fs[names := File(content)];
    assert Parent(names) != names;
    LocatePlain(after, names);
  }

  lemma JoinThree(a: string, b: string, c: string)
    ensures Join([a, b, c]) == a + "/" + b + "/" + c
  {
    assert [a, b, c][1..] == [b, c];
    assert [b, c][1..] == [c];
    assert Join([b, c]) == b + "/" + c;
    assert Join([a, b, c]) == a + "/" + (b + "/" + c);
  }

  /** "x/../y" parses as the relative names x, "..", y and names the entry y of the root
      once normalised. */
  lemma ResolvedThroughSibling(root: Path, x: string, y: string)
    requires ValidRoot(root) && IsPlainName(x) && IsPlainName(y)
    ensures Parse(x + "/../" + y) == Ok(PathValue(false, [x, "..", y]))
    ensures Resolved(root, x + "/../" + y) == Ok(root + [y])
  {
    var s := x + "/../" + y;
    JoinThree(x, "..", y);
    assert x + "/" + ".." + "/" + y == s;
    ResolvedRelative(root, s, [x, "..", y]);
    SplitJoin([x, "..", y]);
    FoldThree(root, x, "..", y);
    assert (root + [x])[..|root|] == root;
  }

  /** A name that normalises to a missing entry of the root is stored there. */
  lemma StoreIntoRoot(fs: Tree, root: Path, filename: string, y: string, content: seq<byte>)
    requires WellFormed(fs) && ValidRoot(root) && IsDir(fs, root) && IsPlainName(y)
    requires Resolved(root, filename) == Ok(root + [y]) && root + [y] !in fs
    ensures StoreFile(fs, root, filename, content) == Effect(Ok(()), fs[root + [y] := File(content)])
  {
    assert Parent(root + [y]) == root;
    StoreFileOutcome(fs, root, filename, content);
  }

  /** storeFile normalises its file name but readFile does not: "x/../y" is stored as "y"
      below the root, and when there is no "x" to walk through, reading it back with the
      same name fails. */
  lemma StoreThenReadThroughMissingDirectory(fs: Tree, root: Path, x: string, y: string, content: seq<byte>)
    requires WellFormed(fs) && ValidRoot(root) && IsDir(fs, root)
    requires IsPlainName(x) && IsPlainName(y) && x != y
    requires root + [x] !in fs && root + [y] !in fs
    ensures StoreFile(fs, root, x + "/../" + y, content) == Effect(Ok(()), fs[root + [y] := File(content)])
    ensures ReadFile(fs[root + [y] := File(content)], root, x + "/../" + y) == Err(NoSuchFile)
  {
    ResolvedThroughSibling(root, x, y);
    StoreIntoRoot(fs, root, x + "/../" + y, y, content);
    assert Parent(root + [y]) == root;
    PutFileKeepsWellFormed(fs, root + [y], content);
    assert [x, "..", y] == [x] + ["..", y];
    ReadThroughMissing(fs[root + [y] := File(content)], root, x + "/../" + y, x, ["..", y]);
  }

  /** Reading a path that walks through a missing entry `x` of the root fails with ENOENT. */
  lemma ReadThroughMissing(fs: Tree, root: Path, filename: string, x: string, rest: seq<string>)
    requires WellFormed(fs) && ValidRoot(root) && IsDir(fs, root)
    requires Parse(filename) == Ok(PathValue(false, [x] + rest))
    requires IsPlainName(x) && root + [x] !in fs && rest != []
    ensures ReadFile(fs, root, filename) == Err(NoSuchFile)
  {
    var names := [x] + rest;
    LocateExisting(fs, root);
    WalkAppend(fs, [], root, names);
    assert names[0] == x && names[1..] == rest;
    assert Walk(fs, root, names) == Walk(fs, root + [x], rest);
  }

  // ---------------------------------------------------------------------------------------
  // createDirectory

  /** The directories `Chain(d, k)` creates are the prefixes of `d` longer than `k`. */
  lemma ChainKeys(d: Path, k: nat)
    ensures forall j :: k < j <= |d| ==> d[..j] in Chain(d, k)
    ensures forall p :: p in Chain(d, k) ==> Chain(d, k)[p] == Dir && p <= d && |p| > k
  {
    forall p | p in Chain(d, k)
      ensures p <= d && |p| > k
    {
      var j :| k < j <= |d| && p == d[..j];
    }
  }

  /** Every prefix of an existing directory is a directory. */
  lemma PrefixesOfDirectory(fs: Tree, d: Path)
    requires WellFormed(fs) && IsDir(fs, d)
    ensures forall i :: 0 <= i <= |d| ==> IsDir(fs, d[..i])
  {
    AncestorsAreDirs(fs, d);
    assert d[..|d|] == d;
  }

  /** Files.createDirectories on a normalised path whose nearest existing prefix `d[..k]`
      is a directory: creating the missing ones keeps the tree well formed, makes every
      prefix a directory and changes nothing that was there. */
  lemma CreateChain(fs: Tree, d: Path, k: nat)
    requires WellFormed(fs) && Plain(d) && k < |d| && IsDir(fs, d[..k])
    requires forall i :: k < i <= |d| ==> !Exists(fs, d[..i])
    ensures NoFileOnTheWay(fs, d)
    ensures WellFormed(fs + Chain(d, k))
    ensures forall i :: 0 <= i <= |d| ==> IsDir(fs + Chain(d, k), d[..i])
    ensures AddsDirectoriesOn(fs, fs + Chain(d, k), d)
  {
    var after := fs + Chain(d, k);
    ChainKeys(d, k);
    PrefixesOfDirectory(fs, d[..k]);
    forall i | 0 <= i <= |d|
      ensures IsDir(after, d[..i]) && !(d[..i] in fs && fs[d[..i]].File?)
    {
      if i <= k {
        assert d[..k][..i] == d[..i];
      }
    }
    forall p | p in fs
      ensures p in after && after[p] == fs[p]
    {
      if p in Chain(d, k) {
        assert false;
      }
    }
    forall p | p in after
      ensures |p| > 0 && Plain(p) && IsDir(after, Parent(p))
    {
      if p !in fs {
        assert p == d[..|p|];
        assert Parent(p) == d[..|p| - 1];
      }
    }
  }

  /** What Files.createDirectories promises for a normalised path: it succeeds exactly when
      no prefix of the path is a file; then every prefix is a directory and the only new
      entries are directories on the path. A failure changes nothing. */
  lemma CreateDirectoriesOutcome(fs: Tree, d: Path)
    requires WellFormed(fs) && Plain(d)
    ensures var e := CreateDirectories(fs, d);
            && (e.result.Ok? <==> NoFileOnTheWay(fs, d))
            && (e.result.Ok? ==> forall i :: 0 <= i <= |d| ==> IsDir(e.fs, d[..i]))
            && (e.result.Ok? ==> AddsDirectoriesOn(fs, e.fs, d))
            && (e.result.Err? ==> e.fs == fs)
            && WellFormed(e.fs)
  {
    if IsDir(fs, d) {
      PrefixesOfDirectory(fs, d);
    } else if d in fs {
      assert d[..|d|] == d;
    } else {
      var k := NearestExisting(fs, d, |d| - 1);
      assert d[..|d|] == d;
      if IsDir(fs, d[..k]) {
        CreateChain(fs, d, k);
      } else {
        assert d[..k] in fs && fs[d[..k]].File?;
      }
    }
  }

  /** createDirectory succeeds exactly for a path that normalises to the root or below it
      and has no file on the way; it then makes every directory on the path, up to the
      path itself, and only those. Anything else changes nothing. */
  lemma CreateDirectoryOutcome(fs: Tree, root: Path, directoryPath: string)
    requires WellFormed(fs) && ValidRoot(root) && '\0' !in directoryPath
    ensures var t := Resolved(root, directoryPath).value;
            var e := CreateDirectory(fs, root, directoryPath);
            && (e.result.Ok? <==> StartsWith(t, root) && NoFileOnTheWay(fs, t))
            && (!StartsWith(t, root) ==> e == Effect(Err(PathEscape), fs))
            && (e.result.Ok? ==> forall i :: 0 <= i <= |t| ==> IsDir(e.fs, t[..i]))
            && (e.result.Ok? ==> AddsDirectoriesOn(fs, e.fs, t))
            && (e.result.Err? ==> e.fs == fs)
  {
    CreateDirectoriesOutcome(fs, Resolved(root, directoryPath).value);
  }

  /** createDirectory keeps the tree well formed. */
  lemma CreateDirectoryKeepsWellFormed(fs: Tree, root: Path, directoryPath: string)
    requires WellFormed(fs) && ValidRoot(root)
    ensures WellFormed(CreateDirectory(fs, root, directoryPath).fs)
  {
    if '\0' !in directoryPath {
      CreateDirectoriesOutcome(fs, Resolved(root, directoryPath).value);
    }
  }

  /** Creating a directory that was just created succeeds and changes nothing. */
  lemma CreateDirectoryIdempotent(fs: Tree, root: Path, directoryPath: string)
    requires WellFormed(fs) && ValidRoot(root)
    requires CreateDirectory(fs, root, directoryPath).result.Ok?
    ensures var after := CreateDirectory(fs, root, directoryPath).fs;
            CreateDirectory(after, root, directoryPath) == Effect(Ok(()), after)
  {
    var t := Resolved(root, directoryPath).value;
    CreateDirectoryOutcome(fs, root, directoryPath);
    assert t[..|t|] == t;
  }

  /** The directories createDirectory makes inside the root are entries below the root, so
      listFiles shows them. */
  lemma CreateDirectoryListed(fs: Tree, root: Path, directoryPath: string)
    requires WellFormed(fs) && ValidRoot(root)
    requires CreateDirectory(fs, root, directoryPath).result.Ok?
    ensures var t := Resolved(root, directoryPath).value;
            var after := CreateDirectory(fs, root, directoryPath).fs;
            forall i :: |root| < i <= |t| ==> t[..i] in Descendants(after, root)
  {
    var t := Resolved(root, directoryPath).value;
    CreateDirectoryOutcome(fs, root, directoryPath);
    var after := CreateDirectory(fs, root, directoryPath).fs;
    forall i | |root| < i <= |t|
      ensures t[..i] in Descendants(after, root)
    {
      assert IsDir(after, t[..i]);
      assert root < t[..i];
    }
  }

  /** "" and "." name the root, which createDirectory accepts and leaves as it is. */
  lemma CreateDirectoryOfTheRoot(fs: Tree, root: Path)
    requires ValidRoot(root) && IsDir(fs, root)
    ensures CreateDirectory(fs, root, "") == Effect(Ok(()), fs)
    ensures CreateDirectory(fs, root, ".") == Effect(Ok(()), fs)
  {
    ResolvedRelative(root, "", []);
    ResolvedRelative(root, ".", ["."]);
  }

  /** "../m" names a sibling of the root, which createDirectory refuses. */
  lemma CreateDirectoryRejectsSibling(fs: Tree, root: Path, m: string)
    requires ValidRoot(root) && IsPlainName(m) && m != root[|root| - 1]
    ensures CreateDirectory(fs, root, "../" + m) == Effect(Err(PathEscape), fs)
  {
    assert Join(["..", m]) == "../" + m;
    ResolvedRelative(root, "../" + m, ["..", m]);
    FoldTwo(root, "..", m);
    var up := Parent(root) + [m];
    assert up[|root| - 1] == m;
  }

  /** The containment check compares names, not strings: with the root "/.../n", the
      absolute path "/.../nX" shares the root's text as a prefix and is still refused. */
  lemma CreateDirectoryRejectsPrefixSibling(fs: Tree, root: Path, m: string)
    requires ValidRoot(root) && IsPlainName(m) && root[|root| - 1] < m
    ensures var sibling := PathString(Parent(root) + [m]);
            && PathString(root) <= sibling
            && CreateDirectory(fs, root, sibling) == Effect(Err(PathEscape), fs)
  {
    var parent := Parent(root);
    assert parent + [root[|root| - 1]] == root;
    SiblingIsNotUnder(parent, root[|root| - 1], m);
    ParsePathString(parent + [m]);
    FoldPlain([], parent + [m]);
    assert [] + (parent + [m]) == parent + [m];
  }

  // ---------------------------------------------------------------------------------------
  // Paths that are not normalised

  /** "../x" parses as the relative names "..", "x". */
  lemma ParseUpThenName(x: string)
    requires IsPlainName(x)
    ensures Parse("../" + x) == Ok(PathValue(false, ["..", x]))
  {
    assert Join(["..", x]) == "../" + x;
    JoinHasNoNul(["..", x]);
    SplitJoin(["..", x]);
  }

  /** The kernel resolves root/../x to the sibling x of the root, outside the root. */
  lemma LocateSibling(fs: Tree, root: Path, x: string)
    requires WellFormed(fs) && ValidRoot(root) && IsDir(fs, root) && IsPlainName(x)
    requires x != root[|root| - 1]
    ensures Locate(fs, root + ["..", x]) == Found(Parent(root) + [x])
    ensures !StartsWith(Parent(root) + [x], root)
  {
    var up := Parent(root);
    LocateExisting(fs, root);
    WalkAppend(fs, [], root, ["..", x]);
    assert IsDir(fs, up) by {
      assert root[..|root| - 1] == up;
    }
    assert ["..", x][0] == ".." && ["..", x][1..] == [x];
    assert Step(root, "..") == up;
    assert Walk(fs, root, ["..", x]) == Walk(fs, up, [x]);
    assert [x][0] == x && [x][1..] == [];
    assert Walk(fs, up, [x]) == Walk(fs, up + [x], []);
    assert (up + [x])[|root| - 1] == x;
  }

  /** A normalised relative path resolved against the root is normalised. */
  lemma ResolvePlain(root: Path, v: PathValue)
    requires Plain(root) && Plain(v.names)
    ensures Plain(Resolve(root, v))
  {
    if !v.absolute {
      forall i | 0 <= i < |root + v.names|
        ensures IsPlainName((root + v.names)[i])
      {
        if i >= |root| {
          assert (root + v.names)[i] == v.names[i - |root|];
        }
      }
    }
  }

  /** Relative names joined by separators parse back to themselves. */
  lemma ParseJoined(names: seq<string>)
    requires ValidNames(names) && names != []
    ensures Parse(Join(names)) == Ok(PathValue(false, names))
  {
    JoinHasNoNul(names);
    SplitJoin(names);
    assert ValidName(names[0]);
    assert names[0][0] != '/' by {
      assert names[0][0] in names[0];
    }
    if |names| > 1 {
      assert Join(names) == names[0] + "/" + Join(names[1..]);
    }
    assert Join(names)[0] == names[0][0];
  }

  /** "s/.." and "s/." parse as the relative names s, ".." and s, ".". */
  lemma ParseChildDots(x: string)
    requires IsPlainName(x)
    ensures Parse(x + "/..") == Ok(PathValue(false, [x, ".."]))
    ensures Parse(x + "/.") == Ok(PathValue(false, [x, "."]))
  {
    assert Join([x, ".."]) == x + "/" + "..";
    assert x + "/" + ".." == x + "/..";
    ParseJoined([x, ".."]);
    assert Join([x, "."]) == x + "/" + ".";
    assert x + "/" + "." == x + "/.";
    ParseJoined([x, "."]);
  }

  /** The deepest entry of `ws0 + tail` strictly below `at`, when `ws0` has none and `w`
      is the only one in `tail`. */
  lemma DeepestIn(ws0: seq<Path>, tail: seq<Path>, at: Path, w: Path)
    requires forall q :: q in ws0 ==> !(at < q)
    requires w in tail && at < w
    requires forall q :: q in tail && at < q ==> q == w
    ensures DeepestBelow(ws0 + tail, at) == Some(w)
  {
    var r := DeepestBelow(ws0 + tail, at);
    assert w in ws0 + tail;
    assert r.value in ws0 || r.value in tail;
  }

  /** Looking up x, ".." from a directory r passes through r and r/x and ends back at r;
      x, "." ends at r/x. */
  lemma WalkChildDots(fs: Tree, r: Path, x: string)
    requires IsPlainName(x) && IsDir(fs, r) && IsDir(fs, r + [x])
    ensures Walk(fs, r, [x, ".."]) == Found(r)
    ensures Walk(fs, r, [x, "."]) == Found(r + [x])
    ensures Waypoints(r, [x, ".."]) == [r, r + [x]]
  {
    assert Step(r, x) == r + [x];
    assert Step(r + [x], "..") == r by {
      assert (r + [x])[..|r|] == r;
    }
    assert [x, ".."][1..] == [".."] && [".."][1..] == [];
    assert [x, "."][1..] == ["."] && ["."][1..] == [];
  }

  /** An absolute lookup below a plain root that exists goes through the root's own
      prefixes first. */
  lemma LocateBelow(fs: Tree, root: Path, rest: seq<string>)
    requires WellFormed(fs) && ValidRoot(root) && IsDir(fs, root)
    ensures Locate(fs, root + rest) == Walk(fs, root, rest)
    ensures Waypoints([], root + rest) == Waypoints([], root) + Waypoints(root, rest)
    ensures forall q :: q in Waypoints([], root) ==> |q| < |root|
  {
    LocateExisting(fs, root);
    WalkAppend(fs, [], root, rest);
    WaypointsAppend([], root, rest);
    FoldPlain([], root);
    WaypointsAbove([], root);
    assert [] + root == root;
  }

  // ---------------------------------------------------------------------------------------
  // deleteFile

  /** Whatever has an entry below it is a directory. */
  lemma EntryBelowIsDir(fs: Tree, d: Path, p: Path)
    requires WellFormed(fs) && p in fs && d < p
    ensures IsDir(fs, d)
  {
    AncestorsAreDirs(fs, p);
    assert p[..|d|] == d;
  }

  /** Removing an entry with nothing below it keeps a tree well formed. */
  lemma RemoveLeafKeepsWellFormed(fs: Tree, q: Path)
    requires WellFormed(fs) && Descendants(fs, q) == {}
    ensures WellFormed(fs - {q})
  {
  }

  /** deleteFile removes at most one entry, one with nothing below it, and changes nothing
      else; a failure changes nothing. */
  lemma DeleteFileFrame(fs: Tree, root: Path, filename: string)
    requires WellFormed(fs)
    ensures var e := DeleteFile(fs, root, filename);
            && (e.result.Err? ==> e.fs == fs)
            && (e.fs == fs || exists q :: q in fs && Descendants(fs, q) == {} && e.fs == fs - {q})
  {
    var e := DeleteFile(fs, root, filename);
    if e.fs != fs {
      var at := Locate(fs, Resolve(root, Parse(filename).value)).at;
      if fs[at].File? {
        forall p | p in fs && at < p
          ensures false
        {
          EntryBelowIsDir(fs, at, p);
        }
      }
      assert Descendants(fs, at) == {};
    }
  }

  /** deleteFile keeps the tree well formed. */
  lemma DeleteFileKeepsWellFormed(fs: Tree, root: Path, filename: string)
    requires WellFormed(fs)
    ensures WellFormed(DeleteFile(fs, root, filename).fs)
  {
    DeleteFileFrame(fs, root, filename);
    var e := DeleteFile(fs, root, filename);
    if e.fs != fs {
      var q :| q in fs && Descendants(fs, q) == {} && e.fs == fs - {q};
      RemoveLeafKeepsWellFormed(fs, q);
    }
  }

  /** deleteFile on a normalised path: the file or empty directory there is removed, a
      missing entry in an existing directory is no error, a directory with entries is
      refused, and "/" is refused. */
  lemma DeleteFilePlain(fs: Tree, root: Path, filename: string)
    requires WellFormed(fs) && ValidRoot(root) && Parse(filename).Ok? && Plain(Parse(filename).value.names)
    ensures var t := Resolve(root, Parse(filename).value);
            var e := DeleteFile(fs, root, filename);
            && (t == [] ==> e == Effect(Err(CannotRemove), fs))
            && (t in fs && (fs[t].File? || Descendants(fs, t) == {}) ==> e == Effect(Ok(()), fs - {t}))
            && (t in fs && fs[t].Dir? && Descendants(fs, t) != {} ==> e == Effect(Err(DirectoryNotEmpty), fs))
            && (t !in fs && t != [] && IsDir(fs, Parent(t)) ==> e == Effect(Ok(()), fs))
  {
    ResolvePlain(root, Parse(filename).value);
    var t := Resolve(root, Parse(filename).value);
    if t in fs {
      LocateExisting(fs, t);
    } else if t != [] {
      LocatePlain(fs, t);
    }
  }

  /** Deleting what was just deleted succeeds and changes nothing, whatever the path. */
  lemma DeleteFileIdempotent(fs: Tree, root: Path, filename: string)
    requires WellFormed(fs) && DeleteFile(fs, root, filename).result.Ok?
    ensures var after := DeleteFile(fs, root, filename).fs;
            DeleteFile(after, root, filename) == Effect(Ok(()), after)
  {
    DeleteIfExistsIdempotent(fs, Resolve(root, Parse(filename).value));
  }

  /** Files.deleteIfExists again on the same path, after it succeeded, finds nothing to do. */
  lemma DeleteIfExistsIdempotent(fs: Tree, names: seq<string>)
    requires DeleteIfExists(fs, names).result.Ok?
    ensures var after := DeleteIfExists(fs, names).fs;
            DeleteIfExists(after, names) == Effect(Ok(()), after)
  {
    var after := DeleteIfExists(fs, names).fs;
    WalkInSmallerTree(fs, after, [], names);
    match Locate(after, names)
    case NoEntry =>
    case NotADirectory =>
      assert false;
    case Found(a) =>
      assert Locate(fs, names) == Found(a);
      if Exists(fs, a) {
        assert after == fs - {a} && a != [];
      }
      assert !Exists(after, a);
  }

  /** deleteFile has no containment check: "../x" deletes the file x beside the root. */
  lemma DeleteFileEscapes(fs: Tree, root: Path, x: string)
    requires WellFormed(fs) && ValidRoot(root) && IsDir(fs, root) && IsPlainName(x)
    requires Parent(root) + [x] in fs && fs[Parent(root) + [x]].File?
    ensures !StartsWith(Parent(root) + [x], root)
    ensures DeleteFile(fs, root, "../" + x) == Effect(Ok(()), fs - {Parent(root) + [x]})
  {
    ParseUpThenName(x);
    assert Parent(root) + [root[|root| - 1]] == root;
    LocateSibling(fs, root, x);
  }

  /** deleteFile has no containment check: an absolute path deletes that file wherever it is. */
  lemma DeleteFileAbsolute(fs: Tree, root: Path, q: Path)
    requires WellFormed(fs) && q in fs && fs[q].File?
    ensures DeleteFile(fs, root, PathString(q)) == Effect(Ok(()), fs - {q})
  {
    ParsePathString(q);
    LocateExisting(fs, q);
  }

  /** rmdir refuses a last name ".." with ENOTEMPTY, which Files.deleteIfExists reports as
      DirectoryNotEmptyException, and a last name "." with EINVAL; neither changes anything. */
  lemma DeleteFileDotNames(fs: Tree, root: Path, x: string)
    requires WellFormed(fs) && ValidRoot(root) && IsPlainName(x) && IsDir(fs, root + [x])
    ensures DeleteFile(fs, root, x + "/..") == Effect(Err(DirectoryNotEmpty), fs)
    ensures DeleteFile(fs, root, x + "/.") == Effect(Err(CannotRemove), fs)
  {
    ParseChildDots(x);
    AncestorsAreDirs(fs, root + [x]);
    assert (root + [x])[..|root|] == root;
    LocateBelow(fs, root, [x, ".."]);
    LocateBelow(fs, root, [x, "."]);
    WalkChildDots(fs, root, x);
    DeleteIfExistsRefused(fs, root + [x, ".."], root);
    DeleteIfExistsRefused(fs, root + [x, "."], root + [x]);
  }

  /** rmdir refuses the entry a lookup ending in "." or ".." finds, and nothing changes. */
  lemma DeleteIfExistsRefused(fs: Tree, names: seq<string>, at: Path)
    requires Locate(fs, names) == Found(at) && Exists(fs, at) && EndsWithDot(names)
    ensures DeleteIfExists(fs, names) == Effect(Err(RefusedRemoval(names)), fs)
  {
  }

  // ---------------------------------------------------------------------------------------
  // deleteDirectory

  /** Removing a set of entries that holds everything below each of its members keeps a
      tree well formed. */
  lemma RemoveDownwardClosedKeepsWellFormed(fs: Tree, gone: set<Path>)
    requires WellFormed(fs)
    requires forall p, q :: p in gone && q in fs && p < q ==> q in gone
    ensures WellFormed(fs - gone)
  {
  }

  /** deleteDirectory removes entries and changes nothing else; it keeps the tree well
      formed. */
  lemma DeleteDirectoryFrame(fs: Tree, root: Path, directoryPath: string)
    requires WellFormed(fs)
    ensures var after := DeleteDirectory(fs, root, directoryPath).fs;
            && (forall p :: p in after ==> p in fs && after[p] == fs[p])
            && WellFormed(after)
  {
    match Parse(directoryPath)
    case Err(_) =>
    case Ok(v) =>
      var names := Resolve(root, v);
      match Locate(fs, names)
      case Found(at) =>
        var through := DeepestBelow(Waypoints([], names), at);
        if through.Some? {
          RemoveDownwardClosedKeepsWellFormed(fs, Subtree(fs, through.value));
        } else {
          RemoveDownwardClosedKeepsWellFormed(fs, Descendants(fs, at));
          RemoveDownwardClosedKeepsWellFormed(fs, Subtree(fs, at));
        }
      case _ =>
  }

  /** Along plain names the lookup only passes through directories above where it ends. */
  lemma {:induction false} WaypointsAbove(cur: Path, names: seq<string>)
    requires Plain(names)
    ensures forall q :: q in Waypoints(cur, names) ==> q < cur + names
    decreases |names|
  {
    if names != [] {
      var next := Step(cur, names[0]);
      assert next == cur + [names[0]];
      WaypointsAbove(next, names[1..]);
      assert next + names[1..] == cur + names;
      assert cur < cur + names;
    }
  }

  /** The lookup of `a + b` passes through the directories of `a`, then those of `b` from
      where `a` ends. */
  lemma {:induction false} WaypointsAppend(cur: Path, a: seq<string>, b: seq<string>)
    ensures Waypoints(cur, a + b) == Waypoints(cur, a) + Waypoints(Fold(cur, a), b)
    decreases |a|
  {
    if a == [] {
      assert a + b == b;
    } else {
      assert (a + b)[0] == a[0] && (a + b)[1..] == a[1..] + b;
      WaypointsAppend(Step(cur, a[0]), a[1..], b);
    }
  }

  /** Where a lookup succeeds, every directory it passed through is there. */
  lemma {:induction false} WaypointsAreDirs(fs: Tree, cur: Path, names: seq<string>)
    requires Walk(fs, cur, names).Found?
    ensures forall q :: q in Waypoints(cur, names) ==> IsDir(fs, q)
    decreases |names|
  {
    if names != [] {
      WaypointsAreDirs(fs, Step(cur, names[0]), names[1..]);
    }
  }

  /** When the caller's path runs through a directory below the entry it names,
      deleteRecursively fails with NoSuchFile. The entry itself and everything outside it
      stay. What goes includes one of those directories and everything below whatever
      goes. */
  lemma DeleteRecursivelyThrough(fs: Tree, names: seq<string>, at: Path, w: Path)
    requires WellFormed(fs) && Locate(fs, names) == Found(at) && Exists(fs, at)
    requires w in Waypoints([], names) && at < w
    ensures var e := DeleteRecursively(fs, names);
            && e.result == Err(NoSuchFile)
            && Exists(e.fs, at)
            && (forall p :: p in fs && !(at < p) ==> p in e.fs && e.fs[p] == fs[p])
            && (forall p :: p in e.fs ==> p in fs && e.fs[p] == fs[p])
            && (exists v :: v in Waypoints([], names) && at < v && v in fs && v !in e.fs)
            && (forall p, q :: p in fs && p !in e.fs && q in fs && p < q ==> q !in e.fs)
  {
    var v := DeepestBelow(Waypoints([], names), at).value;
    DeleteRecursivelyStopsAt(fs, names, at, v);
    WaypointsAreDirs(fs, [], names);
    RemoveSubtreeBelow(fs, at, v);
  }

  /** Removing the subtree of `v`, strictly below `at`, keeps `at` and everything else not
      below `at`, changes no entry, and removes everything below whatever it removes. */
  lemma RemoveSubtreeBelow(fs: Tree, at: Path, v: Path)
    requires at < v
    ensures var after := fs - Subtree(fs, v);
            && (forall p :: p in fs && !(at < p) ==> p in after && after[p] == fs[p])
            && (forall p :: p in after ==> p in fs && after[p] == fs[p])
            && (v in fs ==> v !in after)
            && (forall p, q :: p in fs && p !in after && q in fs && p < q ==> q !in after)
  {
    var after := fs - Subtree(fs, v);
    forall p | p in fs && v <= p
      ensures at < p
    {
      assert p[..|v|] == v;
      assert p[..|at|] == v[..|at|];
    }
    forall p, q | p in fs && p !in after && q in fs && p < q
      ensures q !in after
    {
      assert v <= p;
      assert q[..|p|] == p;
      assert q[..|v|] == p[..|v|];
    }
  }

  /** In a well-formed tree nothing lies below a path that is not an entry. */
  lemma NothingBelowMissing(fs: Tree, t: Path)
    requires WellFormed(fs) && t != [] && t !in fs
    ensures Subtree(fs, t) == {}
  {
    forall p | p in fs && t <= p
      ensures false
    {
      assert t != p;
      EntryBelowIsDir(fs, t, p);
    }
  }

  /** FileSystemUtils.deleteRecursively on a normalised path other than "/" removes the
      entry and everything below it, and is no error when there is nothing there. On "/"
      it empties the tree and then fails. */
  lemma DeleteRecursivelyPlain(fs: Tree, t: Path)
    requires WellFormed(fs) && Plain(t)
    ensures t != [] ==> DeleteRecursively(fs, t) == Effect(Ok(()), fs - Subtree(fs, t))
    ensures t == [] ==> DeleteRecursively(fs, t) == Effect(Err(CannotRemove), map[])
  {
    WaypointsAbove([], t);
    assert [] + t == t;
    assert DeepestBelow(Waypoints([], t), t).None?;
    if t in fs {
      LocateExisting(fs, t);
    } else if t != [] {
      NothingBelowMissing(fs, t);
      assert fs - Subtree(fs, t) == fs;
      WalkNormalizes(fs, [], t);
      FoldPlain([], t);
      assert [] + t == t;
    } else {
      assert forall p :: p in fs ==> p in Descendants(fs, t);
      assert fs - Descendants(fs, t) == map[];
    }
  }

  /** deleteDirectory on a normalised path below the root removes the entry and everything
      below it, and is no error when there is nothing there. On "/" it empties the tree and
      then fails. */
  lemma DeleteDirectoryPlain(fs: Tree, root: Path, directoryPath: string)
    requires WellFormed(fs) && ValidRoot(root) && Parse(directoryPath).Ok? && Plain(Parse(directoryPath).value.names)
    ensures var t := Resolve(root, Parse(directoryPath).value);
            var e := DeleteDirectory(fs, root, directoryPath);
            && (t != [] ==> e == Effect(Ok(()), fs - Subtree(fs, t)))
            && (t == [] ==> e == Effect(Err(CannotRemove), map[]))
  {
    ResolvePlain(root, Parse(directoryPath).value);
    DeleteRecursivelyPlain(fs, Resolve(root, Parse(directoryPath).value));
  }

  /** Deleting a directory that was just deleted succeeds and changes nothing, whatever the
      path. */
  lemma DeleteDirectoryIdempotent(fs: Tree, root: Path, directoryPath: string)
    requires DeleteDirectory(fs, root, directoryPath).result.Ok?
    ensures var after := DeleteDirectory(fs, root, directoryPath).fs;
            DeleteDirectory(after, root, directoryPath) == Effect(Ok(()), after)
  {
    var names := Resolve(root, Parse(directoryPath).value);
    var after := DeleteDirectory(fs, root, directoryPath).fs;
    WalkNormalizes(fs, [], names);
    WalkNormalizes(after, [], names);
  }

  /** After deleteDirectory on a normalised path that was there, nothing at or below it is
      left: reading any of it fails with NoSuchFile. */
  lemma DeleteDirectoryThenRead(fs: Tree, root: Path, directoryPath: string, filename: string)
    requires WellFormed(fs) && ValidRoot(root) && Parse(directoryPath).Ok? && Plain(Parse(directoryPath).value.names)
    requires Resolve(root, Parse(directoryPath).value) in fs
    requires Parse(filename).Ok? && Plain(Parse(filename).value.names)
    requires StartsWith(Resolve(root, Parse(filename).value), Resolve(root, Parse(directoryPath).value))
    ensures var after := DeleteDirectory(fs, root, directoryPath).fs;
            && (forall p :: p in after ==> !StartsWith(p, Resolve(root, Parse(directoryPath).value)))
            && ReadFile(after, root, filename) == Err(NoSuchFile)
  {
    ResolvePlain(root, Parse(directoryPath).value);
    ResolvePlain(root, Parse(filename).value);
    var t := Resolve(root, Parse(directoryPath).value);
    var u := Resolve(root, Parse(filename).value);
    DeleteDirectoryPlain(fs, root, directoryPath);
    DeleteDirectoryFrame(fs, root, directoryPath);
    var after := fs - Subtree(fs, t);
    AncestorsAreDirs(fs, t);
    forall j | 0 <= j < |t|
      ensures IsDir(after, u[..j])
    {
      assert u[..j] == t[..j];
    }
    if |u| > |t| {
      assert u[..|t|] == t;
      WalkToFirstMissing(after, u, 0, |t|);
      assert u[..0] == [] && u[0..] == u;
    } else {
      assert u == t;
      LocatePlain(after, u);
      assert Parent(u) == t[..|t| - 1];
    }
  }

  /** deleteDirectory("s/..") names the root through root/s. Once root/s and everything
      below it are gone, the next lookup through root/s fails: the call ends with NoSuchFile,
      and the root and everything outside root/s stay. */
  lemma DeleteDirectoryUpFromChild(fs: Tree, root: Path, x: string)
    requires WellFormed(fs) && ValidRoot(root) && IsPlainName(x) && IsDir(fs, root + [x])
    ensures DeleteDirectory(fs, root, x + "/..") == Effect(Err(NoSuchFile), fs - Subtree(fs, root + [x]))
    ensures root in fs - Subtree(fs, root + [x])
  {
    ParseChildDots(x);
    AncestorsAreDirs(fs, root + [x]);
    assert (root + [x])[..|root|] == root;
    LocateBelow(fs, root, [x, ".."]);
    WalkChildDots(fs, root, x);
    DeepestIn(Waypoints([], root), [root, root + [x]], root, root + [x]);
    DeleteRecursivelyStopsAt(fs, root + [x, ".."], root, root + [x]);
  }

  lemma JoinFive(a: string, b: string, c: string, d: string, g: string)
    ensures Join([a, b, c, d, g]) == a + "/" + b + "/" + c + "/" + d + "/" + g
  {
    var names := [a, b, c, d, g];
    assert names[1..] == [b, c, d, g];
    assert [b, c, d, g][1..] == [c, d, g];
    assert [c, d, g][1..] == [d, g];
    assert [d, g][1..] == [g];
    assert Join([d, g]) == d + "/" + g;
    assert Join([c, d, g]) == c + "/" + (d + "/" + g);
    assert Join([b, c, d, g]) == b + "/" + (c + "/" + (d + "/" + g));
    assert Join(names) == a + "/" + (b + "/" + (c + "/" + (d + "/" + g)));
  }

  /** "e/f/../../e" parses as the relative names e, f, "..", "..", e. */
  lemma ParseThroughChild(e: string, f: string)
    requires IsPlainName(e) && IsPlainName(f)
    ensures Parse(e + "/" + f + "/../../" + e) == Ok(PathValue(false, [e, f, "..", "..", e]))
  {
    JoinFive(e, f, "..", "..", e);
    var x := e + "/" + f;
    assert "/../../" == "/" + ".." + "/" + ".." + "/";
    assert x + "/../../" == x + "/" + ".." + "/" + ".." + "/";
    ParseJoined([e, f, "..", "..", e]);
  }

  /** One step of a lookup from a directory: the first name moves on from it. */
  lemma WalkFromDir(fs: Tree, cur: Path, names: seq<string>)
    requires names != [] && IsDir(fs, cur)
    ensures Walk(fs, cur, names) == Walk(fs, Step(cur, names[0]), names[1..])
    ensures Waypoints(cur, names) == [cur] + Waypoints(Step(cur, names[0]), names[1..])
  {
  }

  /** Looking up e, f, "..", "..", e from a directory r goes down to r/e/f, back up to r and
      ends at r/e. */
  lemma WalkThroughChild(fs: Tree, r: Path, e: string, f: string)
    requires IsPlainName(e) && IsPlainName(f)
    requires IsDir(fs, r) && IsDir(fs, r + [e]) && IsDir(fs, r + [e, f])
    ensures Walk(fs, r, [e, f, "..", "..", e]) == Found(r + [e])
    ensures Waypoints(r, [e, f, "..", "..", e]) == [r, r + [e], r + [e, f], r + [e], r]
  {
    var down := r + [e, f];
    assert Step(r, e) == r + [e];
    assert Step(r + [e], f) == down;
    assert Step(down, "..") == r + [e] by {
      assert down[..|down| - 1] == r + [e];
    }
    assert Step(r + [e], "..") == r by {
      assert (r + [e])[..|r|] == r;
    }
    WalkFromDir(fs, r, [e]);
    assert Walk(fs, r, [e]) == Found(r + [e]) && Waypoints(r, [e]) == [r];
    WalkFromDir(fs, r + [e], ["..", e]);
    assert ["..", e][1..] == [e];
    WalkFromDir(fs, down, ["..", "..", e]);
    assert ["..", "..", e][1..] == ["..", e];
    WalkFromDir(fs, r + [e], [f, "..", "..", e]);
    assert [f, "..", "..", e][1..] == ["..", "..", e];
    WalkFromDir(fs, r, [e, f, "..", "..", e]);
    assert [e, f, "..", "..", e][1..] == [f, "..", "..", e];
  }

  /** When the lookup passes through a directory below the entry it finds, and `w` is the
      deepest of them, deleteRecursively removes what is at and below `w` and fails. */
  lemma DeleteRecursivelyStopsAt(fs: Tree, names: seq<string>, at: Path, w: Path)
    requires Locate(fs, names) == Found(at) && Exists(fs, at)
    requires DeepestBelow(Waypoints([], names), at) == Some(w)
    ensures DeleteRecursively(fs, names) == Effect(Err(NoSuchFile), fs - Subtree(fs, w))
  {
  }

  /** deleteRecursively of root/e/f/../../e removes root/e/f with everything below it and
      then fails with NoSuchFile. */
  lemma DeleteRecursivelyThroughChild(fs: Tree, root: Path, e: string, f: string)
    requires WellFormed(fs) && ValidRoot(root) && IsPlainName(e) && IsPlainName(f)
    requires IsDir(fs, root + [e, f])
    ensures DeleteRecursively(fs, root + [e, f, "..", "..", e])
         == Effect(Err(NoSuchFile), fs - Subtree(fs, root + [e, f]))
  {
    var down := root + [e, f];
    var names := root + [e, f, "..", "..", e];
    AncestorsAreDirs(fs, down);
    assert down[..|root|] == root && down[..|root| + 1] == root + [e];
    LocateBelow(fs, root, [e, f, "..", "..", e]);
    WalkThroughChild(fs, root, e, f);
    DeepestThroughChild(Waypoints([], root), root, e, f);
    DeleteRecursivelyStopsAt(fs, names, root + [e], down);
  }

  /** Of the directories on the way down to root/e/f and back, root/e/f is the deepest one
      below root/e. */
  lemma DeepestThroughChild(ws0: seq<Path>, root: Path, e: string, f: string)
    requires forall q :: q in ws0 ==> |q| < |root|
    ensures DeepestBelow(ws0 + [root, root + [e], root + [e, f], root + [e], root], root + [e])
         == Some(root + [e, f])
  {
    var tail := [root, root + [e], root + [e, f], root + [e], root];
    assert root + [e] < root + [e, f] by {
      assert (root + [e, f])[..|root| + 1] == root + [e];
    }
    forall q | q in tail && root + [e] < q
      ensures q == root + [e, f]
    {
    }
    DeepestIn(ws0, tail, root + [e], root + [e, f]);
  }

  /** deleteDirectory("e/f/../../e") names root/e through root/e/f. Once root/e/f and
      everything below it are gone, the next lookup through root/e/f fails: the call ends
      with NoSuchFile, and root/e itself stays. */
  lemma DeleteDirectoryThroughChild(fs: Tree, root: Path, e: string, f: string)
    requires WellFormed(fs) && ValidRoot(root) && IsPlainName(e) && IsPlainName(f)
    requires IsDir(fs, root + [e, f])
    ensures DeleteDirectory(fs, root, e + "/" + f + "/../../" + e)
         == Effect(Err(NoSuchFile), fs - Subtree(fs, root + [e, f]))
    ensures root + [e] in fs - Subtree(fs, root + [e, f])
  {
    ParseThroughChild(e, f);
    DeleteRecursivelyThroughChild(fs, root, e, f);
    AncestorsAreDirs(fs, root + [e, f]);
    assert (root + [e, f])[..|root| + 1] == root + [e];
  }

  // ---------------------------------------------------------------------------------------
  // readFile

  /** readFile on a normalised path returns the bytes of the file there and fails on
      anything else. */
  lemma ReadFilePlain(fs: Tree, root: Path, filename: string)
    requires WellFormed(fs) && ValidRoot(root) && Parse(filename).Ok? && Plain(Parse(filename).value.names)
    ensures var t := Resolve(root, Parse(filename).value);
            var r := ReadFile(fs, root, filename);
            && (r.Ok? <==> t in fs && fs[t].File?)
            && (r.Ok? ==> r.value == fs[t].content)
            && (IsDir(fs, t) ==> r == Err(IsADirectory))
  {
    ResolvePlain(root, Parse(filename).value);
    var t := Resolve(root, Parse(filename).value);
    if t in fs {
      LocateExisting(fs, t);
    } else if t != [] {
      WalkNormalizes(fs, [], t);
      FoldPlain([], t);
      assert [] + t == t;
    }
  }

  /** readFile has no containment check: "../x" reads the file x beside the root. */
  lemma ReadFileEscapes(fs: Tree, root: Path, x: string)
    requires WellFormed(fs) && ValidRoot(root) && IsDir(fs, root) && IsPlainName(x)
    requires Parent(root) + [x] in fs && fs[Parent(root) + [x]].File?
    ensures !StartsWith(Parent(root) + [x], root)
    ensures ReadFile(fs, root, "../" + x) == Ok(fs[Parent(root) + [x]].content)
  {
    ParseUpThenName(x);
    assert Parent(root) + [root[|root| - 1]] == root;
    LocateSibling(fs, root, x);
  }

  /** readFile has no containment check: an absolute path reads that file wherever it is. */
  lemma ReadFileAbsolute(fs: Tree, root: Path, q: Path)
    requires WellFormed(fs) && q in fs && fs[q].File?
    ensures ReadFile(fs, root, PathString(q)) == Ok(fs[q].content)
  {
    ParsePathString(q);
    LocateExisting(fs, q);
  }
}
