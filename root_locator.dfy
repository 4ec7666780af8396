/** How FileSystemStorageAdapter chooses its storage root at start-up: the configured
    location when it is given and usable, else the per-user application directory when it
    is usable, else a directory under the temporary directory, taken without a check. */
module RootLocator {
  import opened Outcomes
  import opened Paths
  import opened FileSystem
  import Storage
  import StorageProperties

  /** What the program learns from its surroundings: the system properties user.home,
      os.name and java.io.tmpdir, the working directory relative paths are resolved
      against, and the entries the process may read, write and search (the access(2)
      checks behind File.canRead, File.canWrite, File.canExecute and Files.isWritable). */
  datatype Environment = Environment(
    userHome: string,
    osName: string,
    tmpDir: string,
    workingDirectory: Path,
    readable: set<Path>,
    writable: set<Path>,
    executable: set<Path>)

  /** Which candidate the root came from. */
  datatype Source = Configured | ApplicationData | Temporary

  /** The candidate chosen and the path value the adapter keeps. */
  datatype Selection = Selection(source: Source, location: PathValue)

  // ---------------------------------------------------------------------------------------
  // java.lang.String

  /** String.trim drops every character up to U+0020, not only spaces. */
  predicate IsBlankChar(c: char) {
    c <= ' '
  }

  predicate IsBlank(s: string) {
    forall i :: 0 <= i < |s| ==> IsBlankChar(s[i])
  }

  /** How many blanks `s` starts with. */
  function LeadingBlanks(s: string): (n: nat)
    ensures n <= |s|
    ensures forall i :: 0 <= i < n ==> IsBlankChar(s[i])
    ensures n < |s| ==> !IsBlankChar(s[n])
  {
    if s == [] || !IsBlankChar(s[0]) then 0 else 1 + LeadingBlanks(s[1..])
  }

  /** The length of `s` without its trailing blanks. */
  function TrailingStart(s: string): (m: nat)
    ensures m <= |s|
    ensures forall i :: m <= i < |s| ==> IsBlankChar(s[i])
    ensures m > 0 ==> !IsBlankChar(s[m - 1])
  {
    if s == [] || !IsBlankChar(s[|s| - 1]) then |s| else TrailingStart(s[..|s| - 1])
  }

  /** String.trim: the part of `s` between its leading and trailing blanks. It is empty
      exactly when `s` is all blanks, and otherwise starts and ends with a non-blank. */
  function Trim(s: string): (r: string)
    ensures |r| <= |s|
    ensures r == "" <==> IsBlank(s)
    ensures r != "" ==> !IsBlankChar(r[0]) && !IsBlankChar(r[|r| - 1])
  {
    var n := LeadingBlanks(s);
    var m := TrailingStart(s);
    if n < m then s[n..m] else ""
  }

  /** String.toLowerCase on the ASCII letters. */
  function LowerChar(c: char): char {
    if 'A' <= c <= 'Z' then (c as int + 32) as char else c
  }

  function Lower(s: string): (r: string)
    ensures |r| == |s|
    ensures forall i :: 0 <= i < |s| ==> r[i] == LowerChar(s[i])
  {
    if s == [] then [] else [LowerChar(s[0])] + Lower(s[1..])
  }

  /** `w` occurs in `s` starting at index `i`. */
  predicate OccursAt(s: string, w: string, i: int) {
    0 <= i <= |s| - |w| && s[i..i + |w|] == w
  }

  /** String.contains: `w` occurs in `s` at some position. */
  function Contains(s: string, w: string): (r: bool)
    ensures r <==> exists i :: OccursAt(s, w, i)
    decreases |s|
  {
    if |s| < |w| then false
    else if s[..|w|] == w then (assert OccursAt(s, w, 0); true)
    else (ContainsInTail(s, w); Contains(s[1..], w))
  }

  /** Past a mismatch at the front, `w` occurs in `s` exactly when it occurs in `s[1..]`. */
  lemma ContainsInTail(s: string, w: string)
    requires |s| >= |w| && s[..|w|] != w
    ensures (exists i :: OccursAt(s, w, i)) <==> (exists j :: OccursAt(s[1..], w, j))
  {
    if exists i :: OccursAt(s, w, i) {
      var i :| OccursAt(s, w, i);
      assert i > 0;
      assert s[1..][i - 1..i - 1 + |w|] == s[i..i + |w|];
      assert OccursAt(s[1..], w, i - 1);
    }
    if exists j :: OccursAt(s[1..], w, j) {
      var j :| OccursAt(s[1..], w, j);
      assert s[j + 1..j + 1 + |w|] == s[1..][j..j + |w|];
      assert OccursAt(s, w, j + 1);
    }
  }

  // ---------------------------------------------------------------------------------------
  // Building the candidate paths

  /** The path string Paths.get(first, more...) parses: the non-empty segments of `more`
      appended to `first`, with a separator between two non-empty parts. */
  function JoinSegments(acc: string, more: seq<string>): string
    decreases |more|
  {
    if more == [] then acc
    else if more[0] == "" then JoinSegments(acc, more[1..])
    else JoinSegments(if acc == "" then more[0] else acc + "/" + more[0], more[1..])
  }

  function GetPath(first: string, more: seq<string>): Result<PathValue, Fault> {
    Parse(JoinSegments(first, more))
  }

  /** The operating system is taken for Windows when its lower-cased name contains "windows". */
  predicate IsWindows(osName: string) {
    Contains(Lower(osName), "windows")
  }

  /** The per-user directory: AppData/Local/FilesManager under the home directory on
      Windows, .filesmanager under it elsewhere. */
  function ApplicationDataPath(env: Environment): Result<PathValue, Fault> {
    if IsWindows(env.osName) then GetPath(env.userHome, ["AppData", "Local", "FilesManager"])
    else GetPath(env.userHome, [".filesmanager"])
  }

  /** The last resort: filesmanager under the temporary directory. */
  function TemporaryPath(env: Environment): Result<PathValue, Fault> {
    GetPath(env.tmpDir, ["filesmanager"])
  }

  // ---------------------------------------------------------------------------------------
  // What the checks see of the filesystem

  /** Path.toAbsolutePath: a relative path is taken against the working directory. */
  function Absolute(env: Environment, v: PathValue): Path {
    Resolve(env.workingDirectory, v)
  }

  /** The normalised absolute path a candidate names: the root the adapter works under. */
  function RootPath(env: Environment, v: PathValue): Path {
    Normalize(Absolute(env, v))
  }

  /** The entry `v` leads to, when Files.exists would say it exists. */
  function Find(env: Environment, fs: Tree, v: PathValue): Option<Path> {
    match Locate(fs, Absolute(env, v))
    case Found(at) => if Exists(fs, at) then Some(at) else None
    case _ => None
  }

  /** Path.getParent: every name but the last; null for a path without names and for a
      relative path of one name. */
  function ParentValue(v: PathValue): (r: Option<PathValue>)
    ensures r.None? <==> v.names == [] || (!v.absolute && |v.names| == 1)
    ensures r.Some? ==> r.value.absolute == v.absolute && r.value.names + [v.names[|v.names| - 1]] == v.names
  {
    if v.names == [] || (!v.absolute && |v.names| == 1) then None
    else Some(PathValue(v.absolute, v.names[..|v.names| - 1]))
  }

  /** isLocationUsable: a missing path is usable when its parent is not null, exists and is
      writable; an existing one when it is readable, writable and searchable. */
  predicate Usable(env: Environment, fs: Tree, v: PathValue) {
    match Find(env, fs, v)
    case Some(at) => at in env.readable && at in env.writable && at in env.executable
    case None =>
      match ParentValue(v)
      case None => false
      case Some(parent) =>
        match Find(env, fs, parent)
        case None => false
        case Some(at) => at in env.writable
  }

  /** What the usability check means for a normalised absolute candidate: an existing one
      is usable exactly when it is readable, writable and searchable; a missing one in an
      existing directory exactly when that directory is writable; one whose parent is
      missing never. */
  lemma UsableOnTree(env: Environment, fs: Tree, p: Path)
    requires WellFormed(fs) && Plain(p) && p != []
    ensures p in fs ==>
      (Usable(env, fs, PathValue(true, p)) <==> p in env.readable && p in env.writable && p in env.executable)
    ensures p !in fs && IsDir(fs, Parent(p)) ==>
      (Usable(env, fs, PathValue(true, p)) <==> Parent(p) in env.writable)
    ensures !Exists(fs, Parent(p)) ==> !Usable(env, fs, PathValue(true, p))
  {
    var up := Parent(p);
    assert ParentValue(PathValue(true, p)) == Some(PathValue(true, up));
    assert Plain(up);
    if p in fs {
      LocateExisting(fs, p);
    } else {
      LocatePlain(fs, p);
      if up != [] {
        LocatePlain(fs, up);
        if up in fs {
          LocateExisting(fs, up);
        }
      }
    }
  }

  /** The configured location is passed over: it is null or blank, or names a path that
      is not usable. */
  predicate ConfiguredSkipped(env: Environment, fs: Tree, configuredLocation: Option<string>) {
    || configuredLocation.None?
    || Trim(configuredLocation.value) == ""
    || (Parse(configuredLocation.value).Ok? && !Usable(env, fs, Parse(configuredLocation.value).value))
  }

  /** The decision of initializeStorageLocation, before the chosen directory is created. A
      path string with a NUL in it fails with InvalidPathException before any later
      candidate is considered. */
  function Choose(env: Environment, fs: Tree, configuredLocation: Option<string>): Result<Selection, Fault> {
    if configuredLocation.Some? && Trim(configuredLocation.value) != "" then
      match Parse(configuredLocation.value)
      case Err(e) => Err(e)
      case Ok(v) => if Usable(env, fs, v) then Ok(Selection(Configured, v)) else ChooseFallback(env, fs)
    else ChooseFallback(env, fs)
  }

  function ChooseFallback(env: Environment, fs: Tree): Result<Selection, Fault> {
    match ApplicationDataPath(env)
    case Err(e) => Err(e)
    case Ok(v) =>
      if Usable(env, fs, v) then Ok(Selection(ApplicationData, v))
      else
        match TemporaryPath(env)
        case Err(e) => Err(e)
        case Ok(t) => Ok(Selection(Temporary, t))
  }

  // ---------------------------------------------------------------------------------------
  // A reference definition: the first usable candidate, the last one unconditionally

  datatype Candidate = Candidate(source: Source, path: Result<PathValue, Fault>)

  function Candidates(env: Environment, configuredLocation: Option<string>): (cs: seq<Candidate>)
    ensures |cs| >= 2
  {
    (if configuredLocation.Some? && Trim(configuredLocation.value) != ""
     then [Candidate(Configured, Parse(configuredLocation.value))] else [])
    + [Candidate(ApplicationData, ApplicationDataPath(env)), Candidate(Temporary, TemporaryPath(env))]
  }

  /** Tries the candidates in order; a path that cannot be built stops the search. */
  function FirstUsable(env: Environment, fs: Tree, cs: seq<Candidate>): (r: Result<Selection, Fault>)
    requires |cs| > 0
    ensures r.Ok? ==> exists i :: 0 <= i < |cs| && cs[i] == Candidate(r.value.source, Ok(r.value.location))
  {
    match cs[0].path
    case Err(e) => Err(e)
    case Ok(v) =>
      if |cs| == 1 || Usable(env, fs, v) then Ok(Selection(cs[0].source, v))
      else
        assert forall i :: 0 <= i < |cs| - 1 ==> cs[1..][i] == cs[i + 1];
        FirstUsable(env, fs, cs[1..])
  }

  /** Past the configured location, the cascade is the first usable of the two others. */
  lemma FallbackIsFirstUsable(env: Environment, fs: Tree)
    ensures ChooseFallback(env, fs) == FirstUsable(env, fs,
      [Candidate(ApplicationData, ApplicationDataPath(env)), Candidate(Temporary, TemporaryPath(env))])
  {
    var tail := [Candidate(ApplicationData, ApplicationDataPath(env)), Candidate(Temporary, TemporaryPath(env))];
    assert tail[1..] == [Candidate(Temporary, TemporaryPath(env))];
  }

  /** The cascade is the first usable candidate, with the temporary directory last. */
  lemma ChooseIsFirstUsable(env: Environment, fs: Tree, configuredLocation: Option<string>)
    ensures Choose(env, fs, configuredLocation) == FirstUsable(env, fs, Candidates(env, configuredLocation))
  {
    var cs := Candidates(env, configuredLocation);
    var tail := [Candidate(ApplicationData, ApplicationDataPath(env)), Candidate(Temporary, TemporaryPath(env))];
    FallbackIsFirstUsable(env, fs);
    if configuredLocation.Some? && Trim(configuredLocation.value) != "" {
      var first := Candidate(Configured, Parse(configuredLocation.value));
      assert cs == [first] + tail;
      assert cs[0] == first && cs[1..] == tail;
    } else {
      assert cs == tail;
    }
  }

  // ---------------------------------------------------------------------------------------
  // Which candidate is chosen

  /** When the configured location is passed over the fallback decides; otherwise the
      configured location is chosen, or its string is refused by Paths.get. */
  lemma ChooseCases(env: Environment, fs: Tree, configuredLocation: Option<string>)
    ensures ConfiguredSkipped(env, fs, configuredLocation) ==>
      Choose(env, fs, configuredLocation) == ChooseFallback(env, fs)
    ensures !ConfiguredSkipped(env, fs, configuredLocation) ==>
      && configuredLocation.Some? && !IsBlank(configuredLocation.value)
      && (|| (Parse(configuredLocation.value).Err? && Choose(env, fs, configuredLocation) == Err(InvalidPath))
          || (Parse(configuredLocation.value).Ok? && Usable(env, fs, Parse(configuredLocation.value).value)
              && Choose(env, fs, configuredLocation) == Ok(Selection(Configured, Parse(configuredLocation.value).value))))
  {
    if configuredLocation.Some? && Trim(configuredLocation.value) != "" {
      match Parse(configuredLocation.value)
      case Err(e) =>
      case Ok(v) =>
        if !Usable(env, fs, v) {
          assert Choose(env, fs, configuredLocation) == ChooseFallback(env, fs);
        }
    }
  }

  /** The fallback takes the application directory when it is usable and the temporary
      directory otherwise; it fails only when a path cannot be built. */
  lemma FallbackCases(env: Environment, fs: Tree)
    ensures ApplicationDataPath(env).Err? ==> ChooseFallback(env, fs) == Err(ApplicationDataPath(env).error)
    ensures ApplicationDataPath(env).Ok? && Usable(env, fs, ApplicationDataPath(env).value) ==>
      ChooseFallback(env, fs) == Ok(Selection(ApplicationData, ApplicationDataPath(env).value))
    ensures ApplicationDataPath(env).Ok? && !Usable(env, fs, ApplicationDataPath(env).value) ==>
      ChooseFallback(env, fs) ==
        (match TemporaryPath(env)
         case Err(e) => Err(e)
         case Ok(t) => Ok(Selection(Temporary, t)))
  {
  }

  /** The configured location is chosen exactly when it is given, not blank and usable. */
  lemma ConfiguredChosen(env: Environment, fs: Tree, configuredLocation: Option<string>, v: PathValue)
    ensures Choose(env, fs, configuredLocation) == Ok(Selection(Configured, v)) <==>
      && configuredLocation.Some?
      && !IsBlank(configuredLocation.value)
      && Parse(configuredLocation.value) == Ok(v)
      && Usable(env, fs, v)
  {
    ChooseCases(env, fs, configuredLocation);
    FallbackCases(env, fs);
  }

  /** The application directory is chosen exactly when the configured location is passed
      over and the application directory is usable. */
  lemma ApplicationDataChosen(env: Environment, fs: Tree, configuredLocation: Option<string>, v: PathValue)
    ensures Choose(env, fs, configuredLocation) == Ok(Selection(ApplicationData, v)) <==>
      && ConfiguredSkipped(env, fs, configuredLocation)
      && ApplicationDataPath(env) == Ok(v)
      && Usable(env, fs, v)
  {
    ChooseCases(env, fs, configuredLocation);
    FallbackCases(env, fs);
  }

  /** The temporary directory is chosen, with no check of its own, exactly when both other
      candidates are passed over. */
  lemma TemporaryChosen(env: Environment, fs: Tree, configuredLocation: Option<string>, t: PathValue)
    ensures Choose(env, fs, configuredLocation) == Ok(Selection(Temporary, t)) <==>
      && ConfiguredSkipped(env, fs, configuredLocation)
      && ApplicationDataPath(env).Ok?
      && !Usable(env, fs, ApplicationDataPath(env).value)
      && TemporaryPath(env) == Ok(t)
  {
    ChooseCases(env, fs, configuredLocation);
    FallbackCases(env, fs);
  }

  /** The decision itself fails only on a path string with a NUL. */
  lemma ChooseFails(env: Environment, fs: Tree, configuredLocation: Option<string>)
    ensures Choose(env, fs, configuredLocation).Err? ==> Choose(env, fs, configuredLocation).error == InvalidPath
    ensures Choose(env, fs, configuredLocation).Err? <==>
      || (configuredLocation.Some? && !IsBlank(configuredLocation.value) && '\0' in configuredLocation.value)
      || (ConfiguredSkipped(env, fs, configuredLocation)
          && (ApplicationDataPath(env).Err?
              || (!Usable(env, fs, ApplicationDataPath(env).value) && TemporaryPath(env).Err?)))
  {
    ChooseCases(env, fs, configuredLocation);
    FallbackCases(env, fs);
  }

  // ---------------------------------------------------------------------------------------
  // Creating the chosen directory

  /** initializeStorageLocation: the chosen candidate is created with Files.createDirectories.
      An IOException there ends start-up with a RuntimeException; no later candidate is
      tried, not even for the configured location or the application directory. */
  function InitializeStorageLocation(env: Environment, fs: Tree, configuredLocation: Option<string>): Storage.Effect<Selection> {
    match Choose(env, fs, configuredLocation)
    case Err(e) => Storage.Effect(Err(e), fs)
    case Ok(sel) => CreateRoot(fs, RootPath(env, sel.location), sel)
  }

  /** The Files.createDirectories call at the end of initializeStorageLocation. */
  function CreateRoot(fs: Tree, root: Path, sel: Selection): Storage.Effect<Selection> {
    var created := Storage.CreateDirectories(fs, root);
    if created.result.Err? then Storage.Effect(Err(BootstrapFailure), created.fs)
    else Storage.Effect(Ok(sel), created.fs)
  }

  /** Appending valid names to valid names gives valid names. */
  lemma ValidNamesAppend(a: seq<string>, b: seq<string>)
    requires ValidNames(a) && ValidNames(b)
    ensures ValidNames(a + b)
  {
    forall i | 0 <= i < |a + b|
      ensures ValidName((a + b)[i])
    {
      if i >= |a| {
        assert (a + b)[i] == b[i - |a|];
      }
    }
  }

  /** Every candidate the decision can return was built by Paths.get, so its names are valid. */
  lemma ChooseValidNames(env: Environment, fs: Tree, configuredLocation: Option<string>)
    ensures Choose(env, fs, configuredLocation).Ok? ==> ValidNames(Choose(env, fs, configuredLocation).value.location.names)
  {
    var c := Choose(env, fs, configuredLocation);
    if c.Ok? {
      ChooseIsFirstUsable(env, fs, configuredLocation);
      var cs := Candidates(env, configuredLocation);
      var i :| 0 <= i < |cs| && cs[i] == Candidate(c.value.source, Ok(c.value.location));
      CandidatesParsed(env, configuredLocation, i);
    }
  }

  /** Every candidate path is the result of Paths.get on some string. */
  lemma CandidatesParsed(env: Environment, configuredLocation: Option<string>, i: nat)
    requires i < |Candidates(env, configuredLocation)|
    ensures exists s :: Candidates(env, configuredLocation)[i].path == Parse(s)
  {
    var cs := Candidates(env, configuredLocation);
    var k := |cs| - 2;
    if i == k {
      if IsWindows(env.osName) {
        assert cs[i].path == Parse(JoinSegments(env.userHome, ["AppData", "Local", "FilesManager"]));
      } else {
        assert cs[i].path == Parse(JoinSegments(env.userHome, [".filesmanager"]));
      }
    } else if i == k + 1 {
      assert cs[i].path == Parse(JoinSegments(env.tmpDir, ["filesmanager"]));
    } else {
      assert cs[i].path == Parse(configuredLocation.value);
    }
  }

  /** The chosen candidate, taken against a valid working directory, normalises to a path of
      plain names. */
  lemma RootPathPlain(env: Environment, v: PathValue)
    requires ValidNames(env.workingDirectory) && ValidNames(v.names)
    ensures Plain(RootPath(env, v))
  {
    if !v.absolute {
      ValidNamesAppend(env.workingDirectory, v.names);
    }
  }

  /** Creating the root succeeds exactly when no file stands on the way to it; every
      directory down to it then exists and nothing else changed. A failure changes nothing. */
  lemma CreateRootOutcome(fs: Tree, root: Path, sel: Selection)
    requires WellFormed(fs) && Plain(root)
    ensures var e := CreateRoot(fs, root, sel);
            && (e.result.Ok? <==> Storage.NoFileOnTheWay(fs, root))
            && (e.result.Ok? ==> e.result.value == sel && IsDir(e.fs, root) && Storage.AddsDirectoriesOn(fs, e.fs, root))
            && (e.result.Err? ==> e.result.error == BootstrapFailure && e.fs == fs)
            && WellFormed(e.fs)
  {
    StorageProperties.CreateDirectoriesOutcome(fs, root);
    assert root[..|root|] == root;
  }

  /** Start-up succeeds exactly when the chosen candidate's directory can be created: every
      directory down to it then exists and nothing else changed. It fails with
      BootstrapFailure exactly when a file stands on the way to the chosen directory, and
      then the tree is as it was. */
  lemma InitializeOutcome(env: Environment, fs: Tree, configuredLocation: Option<string>)
    requires WellFormed(fs) && ValidNames(env.workingDirectory)
    ensures var e := InitializeStorageLocation(env, fs, configuredLocation);
            var c := Choose(env, fs, configuredLocation);
            && (e.result.Ok? ==> c == Ok(e.result.value))
            && (e.result.Ok? ==> IsDir(e.fs, RootPath(env, e.result.value.location)))
            && (e.result.Ok? ==> Storage.AddsDirectoriesOn(fs, e.fs, RootPath(env, e.result.value.location)))
            && (e.result == Err(BootstrapFailure) <==>
                  c.Ok? && !Storage.NoFileOnTheWay(fs, RootPath(env, c.value.location)))
            && (e.result.Err? ==> e.fs == fs)
            && WellFormed(e.fs)
  {
    var c := Choose(env, fs, configuredLocation);
    if c.Ok? {
      ChooseValidNames(env, fs, configuredLocation);
      RootPathPlain(env, c.value.location);
      CreateRootOutcome(fs, RootPath(env, c.value.location), c.value);
    } else {
      ChooseFails(env, fs, configuredLocation);
    }
  }

  // ---------------------------------------------------------------------------------------
  // The layout of the application directory

  lemma JoinTwo(a: string, x: string)
    requires a != "" && x != ""
    ensures JoinSegments(a, [x]) == a + "/" + x
  {
    assert [x][1..] == [];
  }

  lemma JoinFour(a: string, x: string, y: string, z: string)
    requires a != "" && x != "" && y != "" && z != ""
    ensures JoinSegments(a, [x, y, z]) == a + "/" + x + "/" + y + "/" + z
  {
    assert [x, y, z][1..] == [y, z];
    assert [y, z][1..] == [z];
    JoinTwo(a + "/" + x + "/" + y, z);
  }

  /** Under a non-empty home directory the application directory is home/AppData/Local/
      FilesManager when the OS name contains "windows" in any letter case, and
      home/.filesmanager otherwise. */
  lemma ApplicationDataLayout(env: Environment)
    requires env.userHome != ""
    ensures IsWindows(env.osName) ==> ApplicationDataPath(env) == Parse(env.userHome + "/AppData/Local/FilesManager")
    ensures !IsWindows(env.osName) ==> ApplicationDataPath(env) == Parse(env.userHome + "/.filesmanager")
  {
    if IsWindows(env.osName) {
      JoinFour(env.userHome, "AppData", "Local", "FilesManager");
      assert env.userHome + "/" + "AppData" + "/" + "Local" + "/" + "FilesManager"
          == env.userHome + "/AppData/Local/FilesManager";
    } else {
      JoinTwo(env.userHome, ".filesmanager");
      assert env.userHome + "/" + ".filesmanager" == env.userHome + "/.filesmanager";
    }
  }

  /** The test looks for "windows" anywhere in the name, whatever the letter case: any
      name with a part that lower-cases to "windows" ("Windows 11", "WINDOWS") counts. */
  lemma WindowsAnywhere(before: string, w: string, after: string)
    requires Lower(w) == "windows"
    ensures IsWindows(before + w + after)
  {
    var s := before + w + after;
    var l := Lower(s);
    forall i | 0 <= i < |w|
      ensures l[|before| + i] == Lower(w)[i]
    {
      assert s[|before| + i] == w[i];
    }
    assert l[|before|..|before| + |w|] == Lower(w);
    assert OccursAt(l, "windows", |before|);
  }

  /** With no home directory the application directory is the relative path .filesmanager
      (on a system that is not Windows), which has no parent: it is usable only if it
      already exists. */
  lemma NoHomeNeedsExistingDirectory(env: Environment, fs: Tree)
    requires env.userHome == "" && !IsWindows(env.osName)
    ensures ApplicationDataPath(env) == Ok(PathValue(false, [".filesmanager"]))
    ensures Usable(env, fs, PathValue(false, [".filesmanager"])) ==> Find(env, fs, PathValue(false, [".filesmanager"])).Some?
  {
    assert [".filesmanager"][1..] == [];
    assert JoinSegments("", [".filesmanager"]) == ".filesmanager";
    SplitName(".filesmanager", "");
    assert ".filesmanager" + "/" + "" == ".filesmanager/";
    assert Split("") == [];
    assert Split(".filesmanager/") == [".filesmanager"];
    assert Split(".filesmanager") == [".filesmanager"] by {
      NameLengthOfName(".filesmanager", "");
      assert ".filesmanager" + "" == ".filesmanager";
      assert ".filesmanager"[..13] == ".filesmanager";
      assert ".filesmanager"[13..] == "";
    }
  }
}
