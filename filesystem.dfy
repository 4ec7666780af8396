/** The abstract filesystem the storage adapter works on, and how the operating system
    finds the entry a (possibly unnormalised) absolute path names. */
module FileSystem {
  import opened Paths

  newtype byte = b: int | 0 <= b < 256

  /** What a path holds: a regular file with its bytes, or a directory. */
  datatype Node = File(content: seq<byte>) | Dir

  /** Every entry of the filesystem by its absolute path. "/" is not a key: it always
      exists and is a directory. */
  type Tree = map<Path, Node>

  function Parent(p: Path): Path
    requires |p| > 0
  {
    p[..|p| - 1]
  }

  predicate Exists(fs: Tree, p: Path) {
    p == [] || p in fs
  }

  predicate IsDir(fs: Tree, p: Path) {
    p == [] || (p in fs && fs[p].Dir?)
  }

  /** A tree as an operating system keeps it: every entry is named by plain names and
      sits in a directory. */
  predicate WellFormed(fs: Tree) {
    forall p :: p in fs ==> |p| > 0 && Plain(p) && IsDir(fs, Parent(p))
  }

  /** The entries strictly below `d`. */
  function Descendants(fs: Tree, d: Path): set<Path> {
    set p | p in fs && d < p
  }

  /** `d` (when it is an entry) and everything below it. */
  function Subtree(fs: Tree, d: Path): set<Path> {
    set p | p in fs && d <= p
  }

  /** Where a path lookup ends: at a location (which may or may not exist), or with
      ENOENT or ENOTDIR from a component on the way. */
  datatype Lookup = Found(at: Path) | NoEntry | NotADirectory

  /** The kernel's lookup of `names` starting in directory `cur`: each name is looked up
      in the directory reached so far, which must exist and be a directory; "." stays,
      ".." goes to the parent ("/" is its own parent). Without symbolic links the
      location reached is the lexically normalised path. */
  function Walk(fs: Tree, cur: Path, names: seq<string>): Lookup
    decreases |names|
  {
    if names == [] then Found(cur)
    else if !Exists(fs, cur) then NoEntry
    else if !IsDir(fs, cur) then NotADirectory
    else Walk(fs, Step(cur, names[0]), names[1..])
  }

  /** When the lookup succeeds it ends where lexical normalisation ends: on a tree without
      symbolic links, Path.normalize and the kernel agree. The model has no symbolic links
      and Walk moves with the same Step as Fold, so this holds by construction; what it
      adds is that a failed check on the way (NoEntry, NotADirectory) is the only way the
      two can part. */
  lemma {:induction false} WalkNormalizes(fs: Tree, cur: Path, names: seq<string>)
    ensures Walk(fs, cur, names).Found? ==> Walk(fs, cur, names).at == Fold(cur, names)
    decreases |names|
  {
    if names != [] {
      WalkNormalizes(fs, Step(cur, names[0]), names[1..]);
    }
  }

  /** The lookup of an absolute path. */
  function Locate(fs: Tree, names: seq<string>): Lookup {
    Walk(fs, [], names)
  }

  /** Everything above an existing entry of a well-formed tree is a directory. */
  lemma {:induction false} AncestorsAreDirs(fs: Tree, p: Path)
    requires WellFormed(fs) && Exists(fs, p)
    ensures forall i :: 0 <= i < |p| ==> IsDir(fs, p[..i])
    decreases |p|
  {
    if p != [] {
      var q := Parent(p);
      AncestorsAreDirs(fs, q);
      forall i | 0 <= i < |p|
        ensures IsDir(fs, p[..i])
      {
        if i < |q| {
          assert p[..i] == q[..i];
        } else {
          assert p[..i] == q;
        }
      }
    }
  }

  /** Every prefix of `d` from length `i` on, short of `d` itself, is a directory. */
  predicate DirsOnTheWay(fs: Tree, d: Path, i: nat)
    decreases |d| - i
  {
    i >= |d| || (IsDir(fs, d[..i]) && DirsOnTheWay(fs, d, i + 1))
  }

  /** Looking up the plain path `d` from its prefix of length `i` succeeds, and reaches
      `d`, exactly when every prefix on the way is a directory. */
  lemma {:induction false} WalkPlain(fs: Tree, d: Path, i: nat)
    requires Plain(d) && i <= |d|
    ensures Walk(fs, d[..i], d[i..]).Found? <==> DirsOnTheWay(fs, d, i)
    ensures Walk(fs, d[..i], d[i..]).Found? ==> Walk(fs, d[..i], d[i..]).at == d
    decreases |d| - i
  {
    if i == |d| {
      assert d[..i] == d && d[i..] == [];
    } else {
      WalkPlain(fs, d, i + 1);
      if IsDir(fs, d[..i]) {
        assert d[i..][0] == d[i] && d[i..][1..] == d[i + 1..];
        assert IsPlainName(d[i]);
        assert Step(d[..i], d[i]) == d[..i + 1];
      }
    }
  }

  lemma {:induction false} DirsOnTheWayFromParent(fs: Tree, d: Path, i: nat)
    requires WellFormed(fs) && |d| > 0 && IsDir(fs, Parent(d)) && i <= |d|
    ensures DirsOnTheWay(fs, d, i)
    decreases |d| - i
  {
    if i < |d| {
      DirsOnTheWayFromParent(fs, d, i + 1);
      if i < |d| - 1 {
        AncestorsAreDirs(fs, Parent(d));
        assert d[..i] == Parent(d)[..i];
      }
    }
  }

  lemma {:induction false} DirsOnTheWayToParent(fs: Tree, d: Path, i: nat)
    requires |d| > 0 && i < |d| && DirsOnTheWay(fs, d, i)
    ensures IsDir(fs, Parent(d))
    decreases |d| - i
  {
    if i < |d| - 1 {
      DirsOnTheWayToParent(fs, d, i + 1);
    }
  }

  /** In a well-formed tree a normalised path is found exactly when its parent is a
      directory, and then at the path itself. */
  lemma LocatePlain(fs: Tree, d: Path)
    requires WellFormed(fs) && Plain(d)
    ensures Locate(fs, d).Found? <==> (d == [] || IsDir(fs, Parent(d)))
    ensures Locate(fs, d).Found? ==> Locate(fs, d).at == d
  {
    WalkPlain(fs, d, 0);
    assert d[..0] == [] && d[0..] == d;
    if d != [] {
      if IsDir(fs, Parent(d)) {
        DirsOnTheWayFromParent(fs, d, 0);
      }
      if DirsOnTheWay(fs, d, 0) {
        DirsOnTheWayToParent(fs, d, 0);
      }
    }
  }

  /** An existing entry of a well-formed tree is found by its own path. */
  lemma LocateExisting(fs: Tree, d: Path)
    requires WellFormed(fs) && d in fs
    ensures Locate(fs, d) == Found(d)
  {
    LocatePlain(fs, d);
    AncestorsAreDirs(fs, d);
    assert d[..|d| - 1] == Parent(d);
  }

  /** Looking up `a + b` is looking up `a` and, from where that ends, `b`. */
  lemma {:induction false} WalkAppend(fs: Tree, cur: Path, a: seq<string>, b: seq<string>)
    ensures Walk(fs, cur, a + b) ==
      (match Walk(fs, cur, a)
       case Found(m) => Walk(fs, m, b)
       case NoEntry => NoEntry
       case NotADirectory => NotADirectory)
    decreases |a|
  {
    if a == [] {
      assert a + b == b;
    } else {
      assert (a + b)[0] == a[0] && (a + b)[1..] == a[1..] + b;
      if Exists(fs, cur) && IsDir(fs, cur) {
        WalkAppend(fs, Step(cur, a[0]), a[1..], b);
      }
    }
  }

  /** Removing entries cannot make a lookup reach another place or fail with ENOTDIR
      where it did not before. */
  lemma {:induction false} WalkInSmallerTree(fs: Tree, small: Tree, cur: Path, names: seq<string>)
    requires forall p :: p in small ==> p in fs && small[p] == fs[p]
    ensures Walk(small, cur, names).Found? ==> Walk(fs, cur, names) == Walk(small, cur, names)
    ensures Walk(small, cur, names).NotADirectory? ==> Walk(fs, cur, names).NotADirectory?
    decreases |names|
  {
    if names != [] && Exists(small, cur) && IsDir(small, cur) {
      WalkInSmallerTree(fs, small, Step(cur, names[0]), names[1..]);
    }
  }
}
