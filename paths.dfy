/** Path arithmetic as java.nio does it for Unix paths, without touching a filesystem:
    turning a string into a path value (Paths.get), joining it to the storage root
    (Path.resolve), collapsing "." and ".." (Path.normalize), printing a path
    (Path.toString) and segment-wise containment (Path.startsWith). */
module Paths {
  import opened Outcomes

  /** An absolute path, as the sequence of its names below "/". `[]` is "/" itself. */
  type Path = seq<string>

  /** What Paths.get builds from a string: absolute or relative, and its names
      (empty names, i.e. repeated or trailing separators, are already gone). */
  datatype PathValue = PathValue(absolute: bool, names: seq<string>)

  /** A name Paths.get can produce: not empty, no separator, no NUL. */
  predicate ValidName(x: string) {
    x != "" && '/' !in x && '\0' !in x
  }

  /** A name a directory can hold: a valid name other than "." and "..". */
  predicate IsPlainName(x: string) {
    ValidName(x) && x != "." && x != ".."
  }

  predicate ValidNames(p: seq<string>) {
    forall i :: 0 <= i < |p| ==> ValidName(p[i])
  }

  /** A normalised path: only plain names. */
  predicate Plain(p: seq<string>) {
    forall i :: 0 <= i < |p| ==> IsPlainName(p[i])
  }

  /** Length of the name at the head of `s`, up to the first separator. */
  function NameLength(s: string): (n: nat)
    ensures n <= |s|
    ensures forall i :: 0 <= i < n ==> s[i] != '/'
    ensures n < |s| ==> s[n] == '/'
  {
    if s == [] || s[0] == '/' then 0 else 1 + NameLength(s[1..])
  }

  /** The names of a path string, as UnixPath parses it: separators split names,
      and empty names (from "//" or a trailing "/") disappear. */
  function Split(s: string): (names: seq<string>)
    ensures forall i :: 0 <= i < |names| ==> names[i] != "" && '/' !in names[i]
    ensures '\0' !in s ==> ValidNames(names)
    decreases |s|
  {
    if s == [] then []
    else if s[0] == '/' then Split(s[1..])
    else
      var n := NameLength(s);
      assert '\0' !in s ==> '\0' !in s[..n] && '\0' !in s[n..] by {
        assert forall c :: c in s[..n] ==> c in s;
        assert forall c :: c in s[n..] ==> c in s;
      }
      [s[..n]] + Split(s[n..])
  }

  /** Names joined by single separators. */
  function Join(names: seq<string>): string {
    if names == [] then ""
    else if |names| == 1 then names[0]
    else names[0] + "/" + Join(names[1..])
  }

  /** Path.toString of an absolute path. */
  function PathString(p: Path): (r: string)
    ensures |r| > 0 && r[0] == '/'
  {
    "/" + Join(p)
  }

  /** Paths.get(s): a NUL character is rejected; a leading separator makes the path absolute. */
  function Parse(s: string): (r: Result<PathValue, Fault>)
    ensures r.Ok? <==> '\0' !in s
    ensures r.Ok? ==> ValidNames(r.value.names)
    ensures r.Ok? ==> (r.value.absolute <==> |s| > 0 && s[0] == '/')
  {
    if '\0' in s then Err(InvalidPath)
    else Ok(PathValue(|s| > 0 && s[0] == '/', Split(s)))
  }

  /** One step of Path.normalize on an absolute path: "." is dropped, ".." removes the
      previous name, and a ".." at "/" is dropped because nothing is above "/". */
  function Step(acc: Path, name: string): Path {
    if name == "." then acc
    else if name == ".." then (if acc == [] then [] else acc[..|acc| - 1])
    else acc + [name]
  }

  /** Normalising the names `names` on top of the already normal path `acc`. */
  function Fold(acc: Path, names: seq<string>): (r: Path)
    ensures Plain(acc) && ValidNames(names) ==> Plain(r)
    decreases |names|
  {
    if names == [] then acc else Fold(Step(acc, names[0]), names[1..])
  }

  /** Path.normalize of an absolute path: the result has no "." or ".." left. */
  function Normalize(names: seq<string>): (r: Path)
    ensures ValidNames(names) ==> Plain(r)
  {
    Fold([], names)
  }

  /** Path.resolve: an absolute argument replaces the root; a relative one is appended. */
  function Resolve(root: Path, v: PathValue): (r: Path)
    ensures !v.absolute ==> root <= r
  {
    if v.absolute then v.names else root + v.names
  }

  /** root.resolve(s).normalize().toAbsolutePath(), for an absolute root. The path is
      already absolute after resolve, so toAbsolutePath changes nothing. */
  function Resolved(root: Path, s: string): (r: Result<Path, Fault>)
    ensures r.Ok? <==> '\0' !in s
    ensures Plain(root) && r.Ok? ==> Plain(r.value)
  {
    match Parse(s)
    case Err(e) => Err(e)
    case Ok(v) => Ok(Normalize(Resolve(root, v)))
  }

  /** Path.startsWith for absolute paths: the names of `base` are a prefix of the names of
      `p`. A string prefix is not enough: "/data/rootX" does not start with "/data/root". */
  predicate StartsWith(p: Path, base: Path)
    ensures StartsWith(p, base) <==> |base| <= |p| && forall i :: 0 <= i < |base| ==> p[i] == base[i]
  {
    base <= p
  }

  // ---------------------------------------------------------------------------------------
  // Parsing and printing

  lemma {:induction false} NameLengthOfName(x: string, rest: string)
    requires ValidName(x) && (rest == [] || rest[0] == '/')
    ensures NameLength(x + rest) == |x|
    decreases |x|
  {
    if |x| > 1 {
      assert (x + rest)[1..] == x[1..] + rest;
      NameLengthOfName(x[1..], rest);
    } else {
      assert (x + rest)[1..] == rest;
    }
  }

  /** Splitting a string that is a name, a separator and more gives that name first. */
  lemma SplitName(x: string, rest: string)
    requires ValidName(x)
    ensures Split(x + "/" + rest) == [x] + Split(rest)
  {
    var s := x + "/" + rest;
    NameLengthOfName(x, "/" + rest);
    assert s == x + ("/" + rest);
    assert s[..|x|] == x;
    assert s[|x|..] == "/" + rest;
    assert ("/" + rest)[1..] == rest;
  }

  /** Printing names with separators and parsing them back gives the same names. */
  lemma {:induction false} SplitJoin(names: seq<string>)
    requires ValidNames(names)
    ensures Split(Join(names)) == names
  {
    if |names| == 1 {
      var x := names[0];
      NameLengthOfName(x, "");
      assert x + "" == x;
      assert x[..|x|] == x && x[|x|..] == "";
    } else if |names| > 1 {
      SplitName(names[0], Join(names[1..]));
      SplitJoin(names[1..]);
    }
  }

  lemma {:induction false} JoinHasNoNul(names: seq<string>)
    requires ValidNames(names)
    ensures '\0' !in Join(names)
  {
    if |names| > 1 {
      JoinHasNoNul(names[1..]);
      assert forall c :: c in Join(names) ==> c in names[0] || c == '/' || c in Join(names[1..]);
    }
  }

  /** Path.toString and Paths.get are inverse on absolute paths. */
  lemma ParsePathString(p: Path)
    requires ValidNames(p)
    ensures Parse(PathString(p)) == Ok(PathValue(true, p))
  {
    JoinHasNoNul(p);
    SplitJoin(p);
    assert PathString(p)[1..] == Join(p);
  }

  /** Two different absolute paths never print the same. */
  lemma PathStringInjective(p: Path, q: Path)
    requires ValidNames(p) && ValidNames(q) && PathString(p) == PathString(q)
    ensures p == q
  {
    ParsePathString(p);
    ParsePathString(q);
  }

  lemma {:induction false} NameLengthConcat(a: string, c: string)
    requires NameLength(a) < |a| || c == [] || c[0] == '/'
    ensures NameLength(a + c) == NameLength(a)
    decreases |a|
  {
    if a != [] && a[0] != '/' {
      assert (a + c)[1..] == a[1..] + c;
      NameLengthConcat(a[1..], c);
    }
  }

  /** A separator between two strings separates their names. */
  lemma {:induction false} SplitConcat(a: string, b: string)
    ensures Split(a + "/" + b) == Split(a) + Split(b)
    decreases |a|
  {
    var s := a + "/" + b;
    if a == [] {
      assert s == "/" + b && s[1..] == b;
    } else if a[0] == '/' {
      assert s[1..] == a[1..] + "/" + b;
      SplitConcat(a[1..], b);
    } else {
      var n := NameLength(a);
      assert s == a + ("/" + b);
      NameLengthConcat(a, "/" + b);
      assert s[..n] == a[..n];
      if n < |a| {
        assert s[n..] == a[n..] + "/" + b;
        SplitConcat(a[n..], b);
      } else {
        assert s[n..] == "/" + b && ("/" + b)[1..] == b;
        assert a[n..] == [];
      }
    }
  }

  lemma {:induction false} JoinSnoc(p: seq<string>, x: string)
    requires p != []
    ensures Join(p + [x]) == Join(p) + "/" + x
  {
    if |p| > 1 {
      assert (p + [x])[1..] == p[1..] + [x];
      JoinSnoc(p[1..], x);
    }
  }

  /** Containment is segment-wise: the sibling `parent/m` of a root `parent/n` whose
      string `n` is a proper prefix of `m` (say "root" and "rootX") is not under the root,
      although the root's string is a prefix of the sibling's string. */
  lemma SiblingIsNotUnder(parent: Path, n: string, m: string)
    requires n < m
    ensures PathString(parent + [n]) <= PathString(parent + [m])
    ensures !StartsWith(parent + [m], parent + [n])
  {
    assert (parent + [m])[|parent|] == m;
    assert (parent + [n])[|parent|] == n;
    if parent != [] {
      JoinSnoc(parent, n);
      JoinSnoc(parent, m);
      assert PathString(parent + [n]) == "/" + Join(parent) + "/" + n;
      assert PathString(parent + [m]) == "/" + Join(parent) + "/" + m;
    } else {
      assert Join([n]) == n && Join([m]) == m;
    }
  }

  // ---------------------------------------------------------------------------------------
  // Normalisation

  lemma {:induction false} FoldAppend(acc: Path, a: seq<string>, b: seq<string>)
    ensures Fold(acc, a + b) == Fold(Fold(acc, a), b)
    decreases |a|
  {
    if a != [] {
      assert (a + b)[0] == a[0] && (a + b)[1..] == a[1..] + b;
      FoldAppend(Step(acc, a[0]), a[1..], b);
    } else {
      assert a + b == b;
    }
  }

  /** Normalising plain names just appends them. */
  lemma {:induction false} FoldPlain(acc: Path, names: seq<string>)
    requires Plain(names)
    ensures Fold(acc, names) == acc + names
    decreases |names|
  {
    if names != [] {
      FoldPlain(acc + [names[0]], names[1..]);
      assert acc + [names[0]] + names[1..] == acc + names;
    }
  }

  /** A normal root stays as it is: normalising root + names normalises names on top of root. */
  lemma NormalizeUnder(root: Path, names: seq<string>)
    requires Plain(root)
    ensures Normalize(root + names) == Fold(root, names)
  {
    FoldAppend([], root, names);
    FoldPlain([], root);
    assert [] + root == root;
  }

  /** Normalisation is idempotent. */
  lemma NormalizeIdempotent(names: seq<string>)
    requires ValidNames(names)
    ensures Normalize(Normalize(names)) == Normalize(names)
  {
    FoldPlain([], Normalize(names));
  }

  lemma {:induction false} FoldWithoutDotDot(root: Path, acc: Path, names: seq<string>)
    requires StartsWith(acc, root) && ".." !in names
    ensures StartsWith(Fold(acc, names), root)
    decreases |names|
  {
    if names != [] {
      assert names[0] != "..";
      assert ".." !in names[1..] by { assert forall x :: x in names[1..] ==> x in names; }
      FoldWithoutDotDot(root, Step(acc, names[0]), names[1..]);
    }
  }

  /** Only ".." can lead out of the root: a relative path without ".." always resolves
      to the root or below it. */
  lemma WithoutDotDotStaysInside(root: Path, names: seq<string>)
    requires Plain(root) && ".." !in names
    ensures StartsWith(Normalize(root + names), root)
  {
    NormalizeUnder(root, names);
    FoldWithoutDotDot(root, root, names);
  }
}
