/** The storage operations of FileSystemStorageAdapter and the java.nio.file.Files calls
    they make, each as a function from the tree before the call to its result and the tree
    after it. */
module Storage {
  import opened Outcomes
  import opened Paths
  import opened FileSystem

  /** The outcome of an operation and the tree it leaves behind. */
  datatype Effect<T> = Effect(result: Result<T, Fault>, fs: Tree)

  /** The storage root as the adapter keeps it: absolute, normalised and not "/". */
  predicate ValidRoot(root: Path) {
    |root| > 0 && Plain(root)
  }

  /** The last name is "." or "..": rmdir refuses such a path. */
  predicate EndsWithDot(names: seq<string>) {
    |names| > 0 && (names[|names| - 1] == "." || names[|names| - 1] == "..")
  }

  /** How Files.delete reports a removal rmdir refuses: ENOTEMPTY for a last name "..",
      which it turns into DirectoryNotEmptyException; EINVAL for a last name "." and EBUSY
      for "/", which become a plain FileSystemException. */
  function RefusedRemoval(names: seq<string>): Fault {
    if |names| > 0 && names[|names| - 1] == ".." then DirectoryNotEmpty else CannotRemove
  }

  /** The directories the kernel looks the names up in, in order, while it resolves
      `names` from `cur`. */
  function Waypoints(cur: Path, names: seq<string>): seq<Path>
    decreases |names|
  {
    if names == [] then [] else [cur] + Waypoints(Step(cur, names[0]), names[1..])
  }

  /** The deepest of `ws` strictly below `at` (the first of equally deep ones), if any. */
  function DeepestBelow(ws: seq<Path>, at: Path): (w: Option<Path>)
    ensures w.Some? ==> w.value in ws && at < w.value
    ensures w.Some? ==> forall q :: q in ws && at < q ==> |q| <= |w.value|
    ensures w.None? <==> forall q :: q in ws ==> !(at < q)
  {
    if ws == [] then None
    else
      var rest := DeepestBelow(ws[1..], at);
      assert forall q :: q in ws <==> q == ws[0] || q in ws[1..];
      if !(at < ws[0]) then rest
      else if rest.Some? && |rest.value| > |ws[0]| then rest
      else Some(ws[0])
  }

  // ---------------------------------------------------------------------------------------
  // The java.nio.file.Files operations the adapter calls, on the path the kernel is given

  /** Files.write on a normalised path: creates or truncates a regular file; it does not
      create a missing parent directory and cannot write over a directory. */
  function Write(fs: Tree, dest: Path, content: seq<byte>): (r: Effect<()>)
    ensures r.result.Err? ==> r.fs == fs
    ensures r.result.Ok? ==> r.fs.Keys == fs.Keys + {dest} && r.fs[dest] == File(content)
    ensures forall q :: q in fs && q != dest ==> q in r.fs && r.fs[q] == fs[q]
  {
    match Locate(fs, dest)
    case NoEntry => Effect(Err(NoSuchFile), fs)
    case NotADirectory => Effect(Err(Fault.NotADirectory), fs)
    case Found(_) =>
      if IsDir(fs, dest) then Effect(Err(IsADirectory), fs)
      else Effect(Ok(()), fs[dest := File(content)])
  }

  /** The longest prefix of `d`, no longer than `j`, that exists: Files.createDirectories
      climbs from the parent until it finds one ("/" always exists). */
  function NearestExisting(fs: Tree, d: Path, j: nat): (k: nat)
    requires j <= |d|
    ensures k <= j && Exists(fs, d[..k])
    ensures forall i :: k < i <= j ==> !Exists(fs, d[..i])
    decreases j
  {
    if j == 0 then (assert d[..0] == []; 0)
    else if Exists(fs, d[..j]) then j
    else NearestExisting(fs, d, j - 1)
  }

  /** The directories created below the existing prefix `d[..k]`, down to `d`. */
  function Chain(d: Path, k: nat): map<Path, Node> {
    map i | k < i <= |d| :: d[..i] := Dir
  }

  /** No prefix of `d`, `d` included, is a regular file. */
  predicate NoFileOnTheWay(fs: Tree, d: Path) {
    forall i :: 0 <= i <= |d| ==> !(d[..i] in fs && fs[d[..i]].File?)
  }

  /** `after` keeps every entry of `fs` as it was and adds only directories on the path `d`. */
  predicate AddsDirectoriesOn(fs: Tree, after: Tree, d: Path) {
    && (forall p :: p in fs ==> p in after && after[p] == fs[p])
    && (forall p :: p in after && p !in fs ==> p <= d && after[p] == Dir)
  }

  /** Files.createDirectories on a normalised path: an existing directory is fine; an
      existing file is FileAlreadyExistsException; a file as nearest existing ancestor
      fails with ENOTDIR; otherwise every missing directory down to `d` is created. */
  function CreateDirectories(fs: Tree, d: Path): (r: Effect<()>)
    ensures r.result.Err? ==> r.fs == fs
    ensures fs.Keys <= r.fs.Keys
  {
    if IsDir(fs, d) then Effect(Ok(()), fs)
    else if d in fs then Effect(Err(AlreadyExists), fs)
    else
      var k := NearestExisting(fs, d, |d| - 1);
      if !IsDir(fs, d[..k]) then Effect(Err(Fault.NotADirectory), fs)
      else Effect(Ok(()), fs + Chain(d, k))
  }

  /** Files.deleteIfExists on a path that is not normalised, which the kernel resolves: a
      path that cannot be found is not an error, but one that runs through a file is; a
      directory goes only if it is empty; rmdir refuses "/" and a last name "." or "..". */
  function DeleteIfExists(fs: Tree, names: seq<string>): (r: Effect<()>)
    ensures r.result.Err? ==> r.fs == fs
    ensures forall q :: q in r.fs ==> q in fs && r.fs[q] == fs[q]
  {
    match Locate(fs, names)
    case NoEntry => Effect(Ok(()), fs)
    case NotADirectory => Effect(Err(Fault.NotADirectory), fs)
    case Found(at) =>
      if !Exists(fs, at) then Effect(Ok(()), fs)
      else if at == [] || EndsWithDot(names) then Effect(Err(RefusedRemoval(names)), fs)
      else if fs[at].Dir? && Descendants(fs, at) != {} then Effect(Err(DirectoryNotEmpty), fs)
      else Effect(Ok(()), fs - {at})
  }

  /** FileSystemUtils.deleteRecursively on a path that is not normalised. There is nothing
      to do when Files.exists says the path is not there. Otherwise Files.walkFileTree
      removes every entry below it, each directory after its contents, and then the entry
      itself, reaching every one of them through the caller's path; rmdir refuses that last
      removal for "/" and for a last name "." or "..".
      When the caller's path runs through a directory below the entry, removing that
      directory makes the next lookup through it fail with NoSuchFileException. Which
      entries are gone by then depends on the directory order: the model takes the order
      that reaches the deepest such directory first, so exactly that directory and what is
      below it are gone. */
  function DeleteRecursively(fs: Tree, names: seq<string>): (r: Effect<()>)
    ensures r.fs.Keys <= fs.Keys
  {
    match Locate(fs, names)
    case Found(at) =>
      if !Exists(fs, at) then Effect(Ok(()), fs)
      else
        var through := DeepestBelow(Waypoints([], names), at);
        if through.Some? then Effect(Err(NoSuchFile), fs - Subtree(fs, through.value))
        else if at == [] || EndsWithDot(names) then Effect(Err(RefusedRemoval(names)), fs - Descendants(fs, at))
        else Effect(Ok(()), fs - Subtree(fs, at))
    case _ => Effect(Ok(()), fs)
  }

  /** Files.readAllBytes on a path that is not normalised. */
  function ReadAllBytes(fs: Tree, names: seq<string>): (r: Result<seq<byte>, Fault>)
    ensures r.Ok? ==> File(r.value) in fs.Values
  {
    match Locate(fs, names)
    case NoEntry => Err(NoSuchFile)
    case NotADirectory => Err(Fault.NotADirectory)
    case Found(at) =>
      if !Exists(fs, at) then Err(NoSuchFile)
      else if IsDir(fs, at) then Err(IsADirectory)
      else Ok(fs[at].content)
  }

  /** What Files.walk(start) may yield for an existing normalised `start`: `start` first,
      then every entry below it exactly once, each directory before the entries inside it. */
  predicate IsWalk(fs: Tree, start: Path, xs: seq<Path>) {
    |xs| > 0 && xs[0] == start && IsListing(fs, start, xs[1..])
  }

  /** Every entry below `root` exactly once, each directory before the entries inside it. */
  predicate IsListing(fs: Tree, root: Path, xs: seq<Path>) {
    && (forall i :: 0 <= i < |xs| ==> xs[i] in Descendants(fs, root))
    && (forall p :: p in Descendants(fs, root) ==> p in xs)
    && (forall i, j :: 0 <= i < j < |xs| ==> xs[i] != xs[j])
    && ParentsFirst(root, xs)
  }

  /** Each entry deeper than the first level below `root` comes after its parent. */
  predicate ParentsFirst(root: Path, xs: seq<Path>) {
    forall i :: 0 <= i < |xs| && |xs[i]| > |root| + 1 ==> Parent(xs[i]) in xs[..i]
  }

  // ---------------------------------------------------------------------------------------
  // The adapter's operations

  /** storeFile: resolve and normalise, require the parent of the destination to start with
      the root (getParent of "/" is null), then Files.write. */
  function StoreFile(fs: Tree, root: Path, filename: string, content: seq<byte>): (r: Effect<()>)
    ensures r.result.Err? ==> r.fs == fs
    ensures fs.Keys <= r.fs.Keys
  {
    match Resolved(root, filename)
    case Err(e) => Effect(Err(e), fs)
    case Ok(dest) =>
      if dest == [] then Effect(Err(NullPointer), fs)
      else if !StartsWith(Parent(dest), root) then Effect(Err(PathEscape), fs)
      else Write(fs, dest, content)
  }

  /** createDirectory: resolve and normalise, require the path itself to start with the
      root, then Files.createDirectories. */
  function CreateDirectory(fs: Tree, root: Path, directoryPath: string): (r: Effect<()>)
    ensures r.result.Err? ==> r.fs == fs
    ensures fs.Keys <= r.fs.Keys
  {
    match Resolved(root, directoryPath)
    case Err(e) => Effect(Err(e), fs)
    case Ok(target) =>
      if !StartsWith(target, root) then Effect(Err(PathEscape), fs)
      else CreateDirectories(fs, target)
  }

  /** deleteFile: root.resolve(filename), with no normalisation and no containment check,
      then Files.deleteIfExists. */
  function DeleteFile(fs: Tree, root: Path, filename: string): (r: Effect<()>)
    ensures r.result.Err? ==> r.fs == fs
    ensures forall q :: q in r.fs ==> q in fs && r.fs[q] == fs[q]
  {
    match Parse(filename)
    case Err(e) => Effect(Err(e), fs)
    case Ok(v) => DeleteIfExists(fs, Resolve(root, v))
  }

  /** deleteDirectory: root.resolve(directoryPath), with no normalisation and no containment
      check, then FileSystemUtils.deleteRecursively. */
  function DeleteDirectory(fs: Tree, root: Path, directoryPath: string): (r: Effect<()>)
    ensures r.fs.Keys <= fs.Keys
  {
    match Parse(directoryPath)
    case Err(e) => Effect(Err(e), fs)
    case Ok(v) => DeleteRecursively(fs, Resolve(root, v))
  }

  /** readFile: root.resolve(filename), with no normalisation and no containment check,
      then Files.readAllBytes. */
  function ReadFile(fs: Tree, root: Path, filename: string): (r: Result<seq<byte>, Fault>)
    ensures r.Ok? ==> File(r.value) in fs.Values
  {
    match Parse(filename)
    case Err(e) => Err(e)
    case Ok(v) => ReadAllBytes(fs, Resolve(root, v))
  }
}
