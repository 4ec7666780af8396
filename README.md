# FilesManager storage adapter in Dafny

This project models the core of the FilesManager service: the `FileSystemStorageAdapter`,
which keeps uploaded files under one storage root, and the path strings that `FileController`
builds before it calls the adapter.

- **Paths** (`paths.dfy`). The model does the path arithmetic of `java.nio` for Unix paths:
  - `Paths.get` splits a string into names.
  - `Path.resolve` joins a caller string to the root. An absolute argument replaces the root.
  - `Path.normalize` drops `.`, cancels `name/..`, and drops a `..` at `/`.
  - `Path.startsWith` compares name by name, so `/data/rootX` is not under `/data/root`.
  - `Path.toString` prints a path.

  A path is the sequence of its names below `/`.
- **Filesystem** (`filesystem.dfy`, `storage.dfy`). The disk is a map from absolute paths to
  `File(bytes)` or `Dir`, and `/` always exists.
  - The kernel lookup of a path that is not normalised is `Walk`. It walks name by name and
    fails with ENOENT or ENOTDIR on the way.
  - Each `java.nio.file.Files` call the adapter makes is a function from the tree before the call
    to its result and the tree after it: `write`, `createDirectories`, `deleteIfExists`,
    `readAllBytes` and `walk`. So is Spring's `FileSystemUtils.deleteRecursively`.
- **The disk as an object** (`files.dfy`). `Disk` is a class with a mutable `fs` field. Its
  methods perform those calls step by step:
  - `createDirectories` climbs to the nearest existing ancestor, then creates directories top
    down.
  - `deleteRecursively` removes the deepest remaining entry first. When the path given to it
    runs through a directory below its own target, it stops with `NoSuchFileException` once
    that directory is gone.
  - `walk` lists each directory before what it holds.

  Each method is proved to agree with its function.
- **The adapter** (`storage_adapter.dfy`). `FileSystemStorageAdapter` has the six operations of
  the storage port. Each returns a `Result` where the Java code throws.
  - `createDirectory` checks that the normalised path starts with the root.
  - `storeFile` checks that the parent of the normalised path starts with the root, and
    `Files.write` does not create a missing parent.
  - `deleteFile`, `deleteDirectory` and `readFile` resolve the caller's string against the
    root with no normalisation and no containment check. `storage_properties.dfy` proves
    what they do, including that `../x` and absolute paths reach outside the root.
- **Root selection** (`root_locator.dfy`). The start-up decision takes three candidates in
  order:
  - the configured location, when it is not blank and is usable;
  - the per-user application directory, when it is usable;
  - a directory under the temporary directory, taken without a check.

  The chosen directory is then created. The system properties, the working directory and the
  access permissions are inputs.
- **Controller paths** (`controller.dfy`):
  - `targetPath` with `_` read as `/`, plus the file name, gives the upload path;
  - `_` read as `/` gives the directory to create;
  - the delete paths are handed on unchanged;
  - the listing is printed path by path.

Points of the code that the model keeps as written:
- `storeFile` does not create missing parent directories.
- `deleteFile`, `deleteDirectory` and `readFile` have no containment check.
- `deleteDirectory` on a missing target succeeds, because `deleteRecursively` returns `false`
  and does not throw.
- `listFiles` returns the walked paths, which are under the root and not relative to it.
- At start-up a failure to create the chosen directory ends start-up; no later candidate is
  tried.
- The temporary directory is never checked for usability.

## Model

| member | source | states |
|---|---|---|
| Paths.Parse | src/main/java/com/filesmanager/infra/adapters/FileSystemStorageAdapter.java:117 | `Paths.get` succeeds exactly when the string has no NUL; the path is absolute exactly when the string starts with `/`; every name is non-empty and separator-free |
| Paths.Split | src/main/java/com/filesmanager/infra/adapters/FileSystemStorageAdapter.java:117 | the names of a path string are non-empty and hold no separator |
| Paths.Fold | src/main/java/com/filesmanager/infra/adapters/FileSystemStorageAdapter.java:101 | normalising names on top of a normalised path keeps it normalised |
| Paths.Normalize | src/main/java/com/filesmanager/infra/adapters/FileSystemStorageAdapter.java:101 | `normalize` leaves only plain names: no `.`, no `..` |
| Paths.Resolved | src/main/java/com/filesmanager/infra/adapters/FileSystemStorageAdapter.java:101 | `root.resolve(s).normalize().toAbsolutePath()` fails only on a NUL, and is normalised under a normalised root |
| Paths.NormalizeUnder | src/main/java/com/filesmanager/infra/adapters/FileSystemStorageAdapter.java:101 | normalising root + names keeps the normalised root and normalises the names on top of it |
| Paths.NormalizeIdempotent | src/main/java/com/filesmanager/infra/adapters/FileSystemStorageAdapter.java:101 | normalising twice is normalising once |
| Paths.WithoutDotDotStaysInside | src/main/java/com/filesmanager/infra/adapters/FileSystemStorageAdapter.java:101-102 | a relative path with no `..` always resolves to the root or below it |
| Paths.SiblingIsNotUnder | src/main/java/com/filesmanager/infra/adapters/FileSystemStorageAdapter.java:102 | `startsWith` is segment-wise: `/p/rootX` is not under `/p/root` although its string extends the root's string |
| Paths.SplitJoin | src/main/java/com/filesmanager/app/controllers/FileController.java:52 | printing names with separators and parsing them back gives the same names |
| Paths.ParsePathString | src/main/java/com/filesmanager/app/controllers/FileController.java:52 | `Path.toString` of an absolute path parses back to the same path |
| Paths.PathStringInjective | src/main/java/com/filesmanager/app/controllers/FileController.java:52 | two different paths never print the same |
| Paths.SplitConcat | src/main/java/com/filesmanager/app/controllers/FileController.java:38 | a separator between two strings separates their names |
| Paths.PathString | src/main/java/com/filesmanager/app/controllers/FileController.java:52 | `Path.toString` of an absolute path starts with `/`; `Paths.ParsePathString` and `Paths.PathStringInjective` state that it parses back and is one-to-one |
| Paths.Step | src/main/java/com/filesmanager/infra/adapters/FileSystemStorageAdapter.java:101 | no contract of its own: one step of `normalize`; `Paths.Fold`, `Paths.NormalizeUnder` and `FileSystem.WalkNormalizes` state what stepping name by name gives |
| Paths.Resolve | src/main/java/com/filesmanager/infra/adapters/FileSystemStorageAdapter.java:146 | `resolve` of a relative path keeps the root as a prefix; `StorageProperties.DeleteFileAbsolute` and `StorageProperties.ReadFileAbsolute` show that an absolute one replaces it |
| Paths.StartsWith | src/main/java/com/filesmanager/infra/adapters/FileSystemStorageAdapter.java:102 | `startsWith` holds exactly when every name of the base equals the name at the same position; `Paths.SiblingIsNotUnder` shows it is not a string prefix test |
| FileSystem.WalkNormalizes | src/main/java/com/filesmanager/infra/adapters/FileSystemStorageAdapter.java:146-147 | when the kernel lookup of an unnormalised path succeeds, it ends where lexical normalisation ends (by construction: no symbolic links, and the lookup steps as normalisation does) |
| FileSystem.AncestorsAreDirs | src/main/java/com/filesmanager/infra/adapters/FileSystemStorageAdapter.java:105 | in a well-formed tree every ancestor of an existing entry is a directory |
| FileSystem.LocatePlain | src/main/java/com/filesmanager/infra/adapters/FileSystemStorageAdapter.java:121 | a normalised path is found exactly when its parent is a directory, and then at itself |
| FileSystem.LocateExisting | src/main/java/com/filesmanager/infra/adapters/FileSystemStorageAdapter.java:172-173 | an existing entry is found by its own path |
| FileSystem.WalkAppend | src/main/java/com/filesmanager/infra/adapters/FileSystemStorageAdapter.java:146 | looking up `a + b` is looking up `a`, then `b` from there |
| FileSystem.WalkInSmallerTree | src/main/java/com/filesmanager/infra/adapters/FileSystemStorageAdapter.java:147 | removing entries never makes a lookup reach another place |
| FileSystem.Walk | src/main/java/com/filesmanager/infra/adapters/FileSystemStorageAdapter.java:146-147 | no contract of its own: the kernel lookup; `FileSystem.WalkNormalizes`, `FileSystem.WalkAppend`, `FileSystem.LocatePlain` and `FileSystem.WalkInSmallerTree` state where it ends and when it fails |
| Storage.NearestExisting | src/main/java/com/filesmanager/infra/adapters/FileSystemStorageAdapter.java:105 | the climb of `createDirectories` stops at the longest existing prefix |
| Storage.Write | src/main/java/com/filesmanager/infra/adapters/FileSystemStorageAdapter.java:121 | `Files.write` that fails changes nothing; one that succeeds sets the destination to the new bytes, adds no other entry and changes no other; `StorageProperties.StoreFileOutcome` states when it fails |
| Storage.CreateDirectories | src/main/java/com/filesmanager/infra/adapters/FileSystemStorageAdapter.java:105 | a failure changes nothing and success never removes an entry; `StorageProperties.CreateDirectoriesOutcome` states exactly when it fails and what it adds |
| Storage.DeleteIfExists | src/main/java/com/filesmanager/infra/adapters/FileSystemStorageAdapter.java:147 | a failure changes nothing, and it only ever removes entries, never changing one; `StorageProperties.DeleteFileFrame` and `StorageProperties.DeleteFilePlain` state which entry goes |
| Storage.DeleteRecursively | src/main/java/com/filesmanager/infra/adapters/FileSystemStorageAdapter.java:160 | it only ever removes entries; `StorageProperties.DeleteRecursivelyPlain` and `StorageProperties.DeleteRecursivelyThrough` state which |
| Storage.DeepestBelow | src/main/java/com/filesmanager/infra/adapters/FileSystemStorageAdapter.java:160 | picks a waypoint strictly below the target that is at least as deep as every other one, and none exactly when no waypoint lies below the target |
| Storage.ReadAllBytes | src/main/java/com/filesmanager/infra/adapters/FileSystemStorageAdapter.java:173 | the bytes returned are the content of a file in the tree; `StorageProperties.ReadFilePlain` states which file |
| Storage.StoreFile | src/main/java/com/filesmanager/infra/adapters/FileSystemStorageAdapter.java:115-128 | a refused or failed store changes nothing and a store never removes an entry; `StorageProperties.StoreFileOutcome` states exactly when it succeeds and what it writes |
| Storage.CreateDirectory | src/main/java/com/filesmanager/infra/adapters/FileSystemStorageAdapter.java:99-112 | a failure changes nothing and success never removes an entry; `StorageProperties.CreateDirectoryOutcome` states the rest |
| Storage.DeleteFile | src/main/java/com/filesmanager/infra/adapters/FileSystemStorageAdapter.java:144-154 | a failure changes nothing, and it only removes entries; `StorageProperties.DeleteFileFrame` and `StorageProperties.DeleteFilePlain` state which |
| Storage.DeleteDirectory | src/main/java/com/filesmanager/infra/adapters/FileSystemStorageAdapter.java:157-167 | it only removes entries; `StorageProperties.DeleteDirectoryFrame` and `StorageProperties.DeleteDirectoryPlain` state which |
| Storage.ReadFile | src/main/java/com/filesmanager/infra/adapters/FileSystemStorageAdapter.java:170-179 | the bytes returned are the content of a file in the tree; `StorageProperties.ReadFilePlain` states which file |
| StorageProperties.StoreFileOutcome | src/main/java/com/filesmanager/infra/adapters/FileSystemStorageAdapter.java:117-121 | `storeFile` succeeds exactly when the destination is strictly below the root, its parent is a directory and it is not one; it then sets only that entry to the new bytes, replacing old content; a destination not strictly below the root is `PathEscape` (or `NullPointer` for `/`); a failure changes nothing |
| StorageProperties.StoreFileRejectsTheRoot | src/main/java/com/filesmanager/infra/adapters/FileSystemStorageAdapter.java:118-119 | `""` and `"."` name the root and are refused with no change |
| StorageProperties.StoreFileRejectsUpFromChild | src/main/java/com/filesmanager/infra/adapters/FileSystemStorageAdapter.java:118-119 | `"x/.."` is refused with no change |
| StorageProperties.StoreFileRejectsSibling | src/main/java/com/filesmanager/infra/adapters/FileSystemStorageAdapter.java:118-119 | `"../x"` is refused with no change |
| StorageProperties.StoreFileNeedsTheParent | src/main/java/com/filesmanager/infra/adapters/FileSystemStorageAdapter.java:121 | a missing parent directory is `NoSuchFile` and nothing is created |
| StorageProperties.StoreFileKeepsWellFormed | src/main/java/com/filesmanager/infra/adapters/FileSystemStorageAdapter.java:121 | `storeFile` keeps every entry inside a directory |
| StorageProperties.StoreThenRead | src/main/java/com/filesmanager/infra/adapters/FileSystemStorageAdapter.java:117-173 | after a successful store of a normalised name, `readFile` of the same name returns exactly the stored bytes |
| StorageProperties.StoreThenReadThroughMissingDirectory | src/main/java/com/filesmanager/infra/adapters/FileSystemStorageAdapter.java:117-173 | `storeFile` normalises and `readFile` does not: `"x/../y"` is stored as `y`, and reading it back by the same name fails when `x` is missing |
| StorageProperties.ReadThroughMissing | src/main/java/com/filesmanager/infra/adapters/FileSystemStorageAdapter.java:172-173 | reading through a missing directory fails with `NoSuchFile` |
| StorageProperties.CreateDirectoriesOutcome | src/main/java/com/filesmanager/infra/adapters/FileSystemStorageAdapter.java:105 | `createDirectories` succeeds exactly when no prefix is a file; every prefix is then a directory and only directories on the path are added; a failure changes nothing |
| StorageProperties.CreateDirectoryOutcome | src/main/java/com/filesmanager/infra/adapters/FileSystemStorageAdapter.java:101-105 | `createDirectory` succeeds exactly when the normalised path starts with the root and has no file on the way; then every prefix is a directory and nothing else changes; outside the root it is `PathEscape` with no change |
| StorageProperties.CreateDirectoryKeepsWellFormed | src/main/java/com/filesmanager/infra/adapters/FileSystemStorageAdapter.java:105 | `createDirectory` keeps every entry inside a directory |
| StorageProperties.CreateDirectoryIdempotent | src/main/java/com/filesmanager/infra/adapters/FileSystemStorageAdapter.java:105 | creating the same directory again succeeds with no change |
| StorageProperties.CreateDirectoryListed | src/main/java/com/filesmanager/infra/adapters/FileSystemStorageAdapter.java:101-135 | every directory created between the root and the target is an entry below the root, so it is listed |
| StorageProperties.CreateDirectoryOfTheRoot | src/main/java/com/filesmanager/infra/adapters/FileSystemStorageAdapter.java:101-105 | `""` and `"."` name the root, which is accepted with no change |
| StorageProperties.CreateDirectoryRejectsSibling | src/main/java/com/filesmanager/infra/adapters/FileSystemStorageAdapter.java:101-104 | `"../m"` is refused with no change |
| StorageProperties.CreateDirectoryRejectsPrefixSibling | src/main/java/com/filesmanager/infra/adapters/FileSystemStorageAdapter.java:102-103 | the absolute path `/p/rootX` is refused although the root's string is a prefix of it |
| StorageProperties.LocateSibling | src/main/java/com/filesmanager/infra/adapters/FileSystemStorageAdapter.java:146 | the kernel resolves `root/../x` to the sibling `x`, outside the root |
| StorageProperties.DeleteFileFrame | src/main/java/com/filesmanager/infra/adapters/FileSystemStorageAdapter.java:146-147 | `deleteFile` removes at most one entry, one with nothing below it; a failure changes nothing |
| StorageProperties.DeleteFileKeepsWellFormed | src/main/java/com/filesmanager/infra/adapters/FileSystemStorageAdapter.java:147 | `deleteFile` keeps every entry inside a directory |
| StorageProperties.DeleteFilePlain | src/main/java/com/filesmanager/infra/adapters/FileSystemStorageAdapter.java:146-147 | on a normalised name: a file or empty directory goes, a missing entry is no error, a non-empty directory is refused, `/` is refused |
| StorageProperties.DeleteFileIdempotent | src/main/java/com/filesmanager/infra/adapters/FileSystemStorageAdapter.java:146-147 | deleting again what was just deleted succeeds with no change, for any name |
| StorageProperties.DeleteIfExistsIdempotent | src/main/java/com/filesmanager/infra/adapters/FileSystemStorageAdapter.java:147 | `Files.deleteIfExists` repeated after a success finds nothing to do and changes nothing |
| StorageProperties.DeleteFileEscapes | src/main/java/com/filesmanager/infra/adapters/FileSystemStorageAdapter.java:146-147 | with no containment check, `"../x"` deletes the file beside the root |
| StorageProperties.DeleteFileAbsolute | src/main/java/com/filesmanager/infra/adapters/FileSystemStorageAdapter.java:146-147 | an absolute name deletes that file wherever it is |
| StorageProperties.DeleteFileDotNames | src/main/java/com/filesmanager/infra/adapters/FileSystemStorageAdapter.java:146-147 | `"x/.."` is refused as `DirectoryNotEmpty` and `"x/."` as `CannotRemove`, both with no change |
| StorageProperties.DeleteDirectoryFrame | src/main/java/com/filesmanager/infra/adapters/FileSystemStorageAdapter.java:159-160 | `deleteDirectory` only removes entries, never changes one, and keeps the tree well formed |
| StorageProperties.DeleteRecursivelyPlain | src/main/java/com/filesmanager/infra/adapters/FileSystemStorageAdapter.java:160 | `deleteRecursively` on a normalised path other than `/` succeeds and removes the entry and everything below it, so a missing target is no error; on `/` it removes everything below and then fails on the root itself |
| StorageProperties.WaypointsAreDirs | src/main/java/com/filesmanager/infra/adapters/FileSystemStorageAdapter.java:160 | every directory a successful lookup passes through is a directory of the tree |
| StorageProperties.DeleteRecursivelyThrough | src/main/java/com/filesmanager/infra/adapters/FileSystemStorageAdapter.java:159-160 | when the path runs through a directory below its target, the call fails with `NoSuchFile`; the target and everything not below it stay unchanged, no entry changes, one of those directories goes, and whatever goes takes everything below it |
| StorageProperties.DeleteRecursivelyThroughChild | src/main/java/com/filesmanager/infra/adapters/FileSystemStorageAdapter.java:160 | `root/e/f/../../e` removes exactly `root/e/f` and what is below it, then fails with `NoSuchFile` |
| StorageProperties.DeleteDirectoryPlain | src/main/java/com/filesmanager/infra/adapters/FileSystemStorageAdapter.java:159-160 | on a normalised name, exactly the entry and the entries below it go, and everything else stays; a name that resolves to `/` fails after emptying the tree |
| StorageProperties.DeleteDirectoryIdempotent | src/main/java/com/filesmanager/infra/adapters/FileSystemStorageAdapter.java:159-160 | deleting again what was just deleted succeeds with no change |
| StorageProperties.DeleteDirectoryThenRead | src/main/java/com/filesmanager/infra/adapters/FileSystemStorageAdapter.java:159-173 | after `deleteDirectory`, nothing at or below it is left and reading anything there is `NoSuchFile` |
| StorageProperties.DeleteDirectoryUpFromChild | src/main/java/com/filesmanager/infra/adapters/FileSystemStorageAdapter.java:159-160 | `"x/.."` removes `x` with everything below it and fails with `NoSuchFile`; the root stays |
| StorageProperties.DeleteDirectoryThroughChild | src/main/java/com/filesmanager/infra/adapters/FileSystemStorageAdapter.java:159-160 | `"e/f/../../e"` removes `e/f` with everything below it and fails with `NoSuchFile`; `e` stays |
| StorageProperties.ReadFilePlain | src/main/java/com/filesmanager/infra/adapters/FileSystemStorageAdapter.java:172-173 | `readFile` of a normalised name returns the file's bytes exactly when a file is there; a directory is `IsADirectory` |
| StorageProperties.ReadFileEscapes | src/main/java/com/filesmanager/infra/adapters/FileSystemStorageAdapter.java:172-173 | with no containment check, `"../x"` reads the file beside the root |
| StorageProperties.ReadFileAbsolute | src/main/java/com/filesmanager/infra/adapters/FileSystemStorageAdapter.java:172-173 | an absolute name reads that file wherever it is |
| Files.Disk.Write | src/main/java/com/filesmanager/infra/adapters/FileSystemStorageAdapter.java:121 | `Files.write` changes the tree as `Storage.Write` says |
| Files.Disk.NearestExisting | src/main/java/com/filesmanager/infra/adapters/FileSystemStorageAdapter.java:105 | the climbing loop stops at the nearest existing ancestor |
| Files.Disk.CreateBelow | src/main/java/com/filesmanager/infra/adapters/FileSystemStorageAdapter.java:105 | the creating loop adds exactly the missing directories down to the target |
| Files.Disk.CreateDirectories | src/main/java/com/filesmanager/infra/adapters/FileSystemStorageAdapter.java:105 | `Files.createDirectories` changes the tree as `Storage.CreateDirectories` says |
| Files.Disk.DeleteIfExists | src/main/java/com/filesmanager/infra/adapters/FileSystemStorageAdapter.java:147 | `Files.deleteIfExists` changes the tree as `Storage.DeleteIfExists` says |
| Files.Disk.DeleteRecursively | src/main/java/com/filesmanager/infra/adapters/FileSystemStorageAdapter.java:160 | removing deepest first keeps the tree well formed and ends as `Storage.DeleteRecursively` says, including the stop with `NoSuchFile` when the path runs through a directory below its target |
| Files.Disk.ReadAllBytes | src/main/java/com/filesmanager/infra/adapters/FileSystemStorageAdapter.java:173 | `Files.readAllBytes` answers as `Storage.ReadAllBytes` says |
| Files.Disk.Walk | src/main/java/com/filesmanager/infra/adapters/FileSystemStorageAdapter.java:133 | `Files.walk` yields the start, then every entry below it exactly once, each after its parent; it fails exactly when the start is missing |
| StorageAdapter.Except | src/main/java/com/filesmanager/infra/adapters/FileSystemStorageAdapter.java:134 | the filter keeps exactly the walked paths that differ from the root, and never adds one |
| StorageAdapter.WalkWithoutStart | src/main/java/com/filesmanager/infra/adapters/FileSystemStorageAdapter.java:133-135 | the walk without its start lists every entry strictly below the root exactly once |
| StorageAdapter.FileSystemStorageAdapter.Create | src/main/java/com/filesmanager/infra/adapters/FileSystemStorageAdapter.java:25-27 | the constructor runs the start-up decision on the disk and keeps the created root |
| StorageAdapter.FileSystemStorageAdapter.CreateDirectory | src/main/java/com/filesmanager/infra/adapters/FileSystemStorageAdapter.java:99-112 | the method's result and new tree are those of `Storage.CreateDirectory` |
| StorageAdapter.FileSystemStorageAdapter.StoreFile | src/main/java/com/filesmanager/infra/adapters/FileSystemStorageAdapter.java:115-128 | the method's result and new tree are those of `Storage.StoreFile` |
| StorageAdapter.FileSystemStorageAdapter.ListFiles | src/main/java/com/filesmanager/infra/adapters/FileSystemStorageAdapter.java:131-141 | the listing succeeds exactly when the root exists; it then holds exactly the entries strictly below the root, each once, each directory before its contents |
| StorageAdapter.FileSystemStorageAdapter.DeleteFile | src/main/java/com/filesmanager/infra/adapters/FileSystemStorageAdapter.java:144-154 | the method's result and new tree are those of `Storage.DeleteFile` |
| StorageAdapter.FileSystemStorageAdapter.DeleteDirectory | src/main/java/com/filesmanager/infra/adapters/FileSystemStorageAdapter.java:157-167 | the method's result and new tree are those of `Storage.DeleteDirectory` |
| StorageAdapter.FileSystemStorageAdapter.ReadFile | src/main/java/com/filesmanager/infra/adapters/FileSystemStorageAdapter.java:170-179 | the method answers as `Storage.ReadFile` |
| RootLocator.Trim | src/main/java/com/filesmanager/infra/adapters/FileSystemStorageAdapter.java:32 | `trim` is empty exactly when the string is all blanks, and otherwise starts and ends with a non-blank |
| RootLocator.LeadingBlanks | src/main/java/com/filesmanager/infra/adapters/FileSystemStorageAdapter.java:32 | counts exactly the leading characters up to U+0020 |
| RootLocator.TrailingStart | src/main/java/com/filesmanager/infra/adapters/FileSystemStorageAdapter.java:32 | cuts exactly the trailing characters up to U+0020 |
| RootLocator.Lower | src/main/java/com/filesmanager/infra/adapters/FileSystemStorageAdapter.java:47 | lower-cases character by character |
| RootLocator.Contains | src/main/java/com/filesmanager/infra/adapters/FileSystemStorageAdapter.java:47 | `contains` is true exactly when the word occurs at some position |
| RootLocator.ParentValue | src/main/java/com/filesmanager/infra/adapters/FileSystemStorageAdapter.java:78 | `getParent` is null exactly for a path without names and for a relative path of one name; otherwise it has the same absoluteness, and adding back the last name gives the path |
| RootLocator.Usable | src/main/java/com/filesmanager/infra/adapters/FileSystemStorageAdapter.java:74-96 | no contract of its own: `isLocationUsable`; `RootLocator.UsableOnTree` and `RootLocator.NoHomeNeedsExistingDirectory` state what it answers |
| RootLocator.GetPath | src/main/java/com/filesmanager/infra/adapters/FileSystemStorageAdapter.java:49-52 | no contract of its own: `Paths.get(first, more...)`; `RootLocator.ApplicationDataLayout` states the paths it builds |
| RootLocator.ApplicationDataPath | src/main/java/com/filesmanager/infra/adapters/FileSystemStorageAdapter.java:43-53 | no contract of its own; `RootLocator.ApplicationDataLayout` states the Windows and other layouts |
| RootLocator.TemporaryPath | src/main/java/com/filesmanager/infra/adapters/FileSystemStorageAdapter.java:62 | no contract of its own; `RootLocator.ChooseFails` and `RootLocator.TemporaryChosen` state when it is reached and how it fails |
| RootLocator.Choose | src/main/java/com/filesmanager/infra/adapters/FileSystemStorageAdapter.java:32-62 | no contract of its own: the decision; `RootLocator.ChooseIsFirstUsable` ties it to the first usable candidate, and `RootLocator.ConfiguredChosen`, `RootLocator.ApplicationDataChosen`, `RootLocator.TemporaryChosen` and `RootLocator.ChooseFails` state each outcome |
| RootLocator.InitializeStorageLocation | src/main/java/com/filesmanager/infra/adapters/FileSystemStorageAdapter.java:29-72 | no contract of its own; `RootLocator.InitializeOutcome` states its result and new tree |
| RootLocator.CreateRoot | src/main/java/com/filesmanager/infra/adapters/FileSystemStorageAdapter.java:64-71 | no contract of its own; `RootLocator.CreateRootOutcome` states its result and new tree |
| RootLocator.UsableOnTree | src/main/java/com/filesmanager/infra/adapters/FileSystemStorageAdapter.java:77-90 | an existing candidate is usable exactly when it is readable, writable and executable; a missing one exactly when its parent exists and is writable; one with a missing parent never |
| RootLocator.FirstUsable | src/main/java/com/filesmanager/infra/adapters/FileSystemStorageAdapter.java:32-65 | the ordered search only ever returns one of the candidates, with its path |
| RootLocator.ChooseIsFirstUsable | src/main/java/com/filesmanager/infra/adapters/FileSystemStorageAdapter.java:32-65 | the decision is the first usable candidate in order, the temporary directory last and unconditionally |
| RootLocator.ConfiguredChosen | src/main/java/com/filesmanager/infra/adapters/FileSystemStorageAdapter.java:32-37 | the configured path is chosen exactly when it is non-blank and usable |
| RootLocator.ApplicationDataChosen | src/main/java/com/filesmanager/infra/adapters/FileSystemStorageAdapter.java:43-58 | the application directory is chosen exactly when the configured path is passed over and it is usable |
| RootLocator.TemporaryChosen | src/main/java/com/filesmanager/infra/adapters/FileSystemStorageAdapter.java:62-65 | the temporary directory is chosen, with no check of its own, exactly when both others are passed over |
| RootLocator.ChooseFails | src/main/java/com/filesmanager/infra/adapters/FileSystemStorageAdapter.java:33-62 | the decision fails only with `InvalidPath`, exactly when the path string it reaches holds a NUL |
| RootLocator.CreateRootOutcome | src/main/java/com/filesmanager/infra/adapters/FileSystemStorageAdapter.java:64-70 | creating the chosen root succeeds exactly when no file is on the way; otherwise `BootstrapFailure` with no change |
| RootLocator.InitializeOutcome | src/main/java/com/filesmanager/infra/adapters/FileSystemStorageAdapter.java:29-71 | start-up returns the decided candidate with its directory created, or fails with `BootstrapFailure` exactly when a file stands on the way, changing nothing |
| RootLocator.ApplicationDataLayout | src/main/java/com/filesmanager/infra/adapters/FileSystemStorageAdapter.java:47-53 | the application directory is `home/AppData/Local/FilesManager` when the OS name contains "windows" in any case, `home/.filesmanager` otherwise |
| RootLocator.WindowsAnywhere | src/main/java/com/filesmanager/infra/adapters/FileSystemStorageAdapter.java:47 | any OS name with a part that lower-cases to "windows" counts as Windows |
| RootLocator.NoHomeNeedsExistingDirectory | src/main/java/com/filesmanager/infra/adapters/FileSystemStorageAdapter.java:52-80 | with an empty home the candidate is the relative `.filesmanager`, which has no parent and is usable only if it exists |
| Controller.Replace | src/main/java/com/filesmanager/app/controllers/FileController.java:99 | `replace('_', '/')` keeps the length and changes exactly the `_` positions, to `/` |
| Controller.UploadPath | src/main/java/com/filesmanager/app/controllers/FileController.java:37-38 | the path is null exactly when no target is given and the file name is null; `Controller.UploadPathShape` states its shape |
| Controller.DirectoryPath | src/main/java/com/filesmanager/app/controllers/FileController.java:99 | the translated path has the same length and no `_` left |
| Controller.UploadFile | src/main/java/com/filesmanager/app/controllers/FileController.java:37-39 | a failed upload changes nothing and an upload never removes an entry; `Controller.UploadIntoTarget` states where the bytes go |
| Controller.CreateDirectoryRequest | src/main/java/com/filesmanager/app/controllers/FileController.java:99-100 | a failure changes nothing and success never removes an entry; `Controller.CreateDirectoryRequestSplits` states what is created |
| Controller.DeleteFileRequest | src/main/java/com/filesmanager/app/controllers/FileController.java:66 | a failure changes nothing and it only removes entries; `Controller.DeleteFileRequestKeepsUnderscore` states which |
| Controller.DeleteDirectoryRequest | src/main/java/com/filesmanager/app/controllers/FileController.java:82 | it only removes entries; `Controller.DeleteDirectoryRequestKeepsUnderscore` states which |
| Controller.UploadPathShape | src/main/java/com/filesmanager/app/controllers/FileController.java:37-38 | with no target the path is the file name; otherwise it ends with `"/" + filename`, has no `_` before that, keeps every other target character and parses as the target's names then the file name's; a null name is written `null` |
| Controller.UploadPathOfThree | src/main/java/com/filesmanager/app/controllers/FileController.java:38 | target `a_b_c` with file `f` gives `a/b/c/f` |
| Controller.UploadIntoTarget | src/main/java/com/filesmanager/app/controllers/FileController.java:37-39 | uploading `f` into `a_b_c` stores it at `a/b/c/f` below the root, changing nothing else |
| Controller.CreateDirectoryRequestSplits | src/main/java/com/filesmanager/app/controllers/FileController.java:99-100 | creating `x_y` creates the directories `x` and `x/y` below the root |
| Controller.DeleteFileRequestKeepsUnderscore | src/main/java/com/filesmanager/app/controllers/FileController.java:66 | deleting `x_y` removes the file named `x_y`: no translation |
| Controller.DeleteDirectoryRequestKeepsUnderscore | src/main/java/com/filesmanager/app/controllers/FileController.java:82 | deleting the directory `x_y` does not touch `x/y`, which creating `x_y` made, and reports success |
| Controller.ListResponse | src/main/java/com/filesmanager/app/controllers/FileController.java:51-53 | same length and order as the port's list, each path printed |
| Controller.ListResponseFaithful | src/main/java/com/filesmanager/app/controllers/FileController.java:51-53 | each printed path parses back to the listed path, and distinct paths print distinctly |

## Left out

- Real I/O failures are not modelled. This covers disk full, permission denied on write or
  delete, device errors and the partial state a failing `deleteRecursively` leaves. The
  operations fail only for the path reasons the tree shows: a missing entry, a file on the way,
  a directory where a file is wanted, or a non-empty directory.
- Storage.DeleteRecursively: when the path runs through a directory below its own target
  (`e/f/../../e`, `s/..`), Java's `walkFileTree` fails with `NoSuchFileException` at the
  first lookup after that directory is removed, and which entries are gone by then depends on
  the order in which the directory lists its entries. The model fixes the order that reaches
  the deepest such directory first, so exactly that directory's subtree is removed.
  `StorageProperties.DeleteRecursivelyThrough` states what holds for every order.
- Symbolic links are not modelled, so a lookup that succeeds always agrees with lexical
  normalisation.
- Concurrency is not modelled: calls are taken one at a time.
- The adapter keeps the normalised absolute form of the chosen root. A relative or unnormalised
  configured root, and a root equal to `/`, are outside the model: an adapter over `/` is not
  `Valid()`. `Files.createDirectories` at start-up is taken on the normalised path.
- `Files.walk` leaves sibling order open. The model lists entries in any order that puts each
  directory before its contents. `Disk.Walk` takes the shortest remaining entry as one such
  order.
- `listFiles` is modelled on a normalised absolute root. The printed paths are then absolute.
- SecurityException in `isLocationUsable` is not modelled: the permission sets answer every
  check.
- The system properties `user.home`, `os.name` and `java.io.tmpdir` are fields of the
  environment value. A null property (a NullPointerException in Java) is not modelled.
- RootLocator.Lower: only ASCII letters are lower-cased. Java's locale-sensitive
  `toLowerCase` also maps other letters.
- Java strings are UTF-16. Here they are sequences of characters, so `trim` and `replace` work
  on characters.
- Paths use Unix syntax with `/` as the separator, also for the Windows candidate.
- Spring wiring, logging, `ResponseEntity` and the status codes are not modelled. Neither are
  the response messages, `MultipartFile.getBytes()` and its IOException, the API
  documentation configuration, and the port interface, which has no behaviour of its own.
- `getRootLocation` returns the root field, which is a field of the adapter.
