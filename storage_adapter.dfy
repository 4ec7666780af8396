/** FileSystemStorageAdapter: the storage port implementation that keeps the files under one
    root directory of the local filesystem. Each operation computes a path from the root
    and the caller's string and makes one call on the disk. */
module StorageAdapter {
  import opened Outcomes
  import opened Paths
  import opened FileSystem
  import Storage
  import StorageProperties
  import opened Files
  import RootLocator

  /** The paths of `xs` other than `x`, in their order: the stream filter of listFiles. */
  function Except(xs: seq<Path>, x: Path): (ys: seq<Path>)
    ensures |ys| <= |xs|
    ensures forall y :: y in ys <==> y in xs && y != x
  {
    if xs == [] then []
    else (if xs[0] == x then [] else [xs[0]]) + Except(xs[1..], x)
  }

  /** Filtering out a path that is not there changes nothing. */
  lemma {:induction false} ExceptAbsent(xs: seq<Path>, x: Path)
    requires x !in xs
    ensures Except(xs, x) == xs
  {
    if xs != [] {
      assert xs[0] != x;
      assert x !in xs[1..];
      ExceptAbsent(xs[1..], x);
    }
  }

  /** Dropping the start from what Files.walk yields leaves a listing of what is below it. */
  lemma WalkWithoutStart(fs: Tree, start: Path, xs: seq<Path>)
    requires Storage.IsWalk(fs, start, xs)
    ensures Storage.IsListing(fs, start, Except(xs, start))
  {
    var below := xs[1..];
    assert xs == [start] + below;
    assert start !in below by {
      forall i | 0 <= i < |below|
        ensures below[i] != start
      {
        assert below[i] in Descendants(fs, start);
      }
    }
    ExceptAbsent(below, start);
    assert Except(xs, start) == Except(below, start);
    assert Except(xs, start) == below;
  }

  class FileSystemStorageAdapter {
    /** The root chosen when the adapter was built; it never changes. */
    const rootLocation: Path
    /** The filesystem the adapter works on. */
    const disk: Disk

    predicate Valid()
      reads this, disk
    {
      Storage.ValidRoot(rootLocation) && WellFormed(disk.fs)
    }

    /** The adapter over `d` with the root `location`. */
    constructor (d: Disk, location: Path)
      ensures disk == d && rootLocation == location
      ensures Storage.ValidRoot(location) && WellFormed(d.fs) ==> Valid()
    {
      disk := d;
      rootLocation := location;
    }

    /** The Java constructor: initializeStorageLocation picks the root and creates it on the
        disk; the adapter then works under the normalised absolute form of that root. */
    static method Create(d: Disk, env: RootLocator.Environment, configuredLocation: Option<string>)
      returns (r: Result<FileSystemStorageAdapter, Fault>)
      requires WellFormed(d.fs) && ValidNames(env.workingDirectory)
      modifies d
      ensures var e := RootLocator.InitializeStorageLocation(env, old(d.fs), configuredLocation);
              && d.fs == e.fs
              && r.Ok? == e.result.Ok?
              && (r.Err? ==> r.error == e.result.error)
              && (r.Ok? ==> fresh(r.value) && r.value.disk == d)
              && (r.Ok? ==> r.value.rootLocation == RootLocator.RootPath(env, e.result.value.location))
              && (r.Ok? ==> IsDir(d.fs, r.value.rootLocation))
              && (r.Ok? && r.value.rootLocation != [] ==> r.value.Valid())
    {
      RootLocator.InitializeOutcome(env, d.fs, configuredLocation);
      RootLocator.ChooseValidNames(env, d.fs, configuredLocation);
      var chosen := RootLocator.Choose(env, d.fs, configuredLocation);
      if chosen.Err? {
        return Err(chosen.error);
      }
      var location := RootLocator.RootPath(env, chosen.value.location);
      RootLocator.RootPathPlain(env, chosen.value.location);
      var created := d.CreateDirectories(location);
      if created.Err? {
        return Err(BootstrapFailure);
      }
      var adapter := new FileSystemStorageAdapter(d, location);
      r := Ok(adapter);
    }

    /** createDirectory: normalise, check containment, Files.createDirectories. */
    method CreateDirectory(directoryPath: string) returns (r: Result<(), Fault>)
      requires Valid()
      modifies disk
      ensures Valid()
      ensures Storage.CreateDirectory(old(disk.fs), rootLocation, directoryPath) == Storage.Effect(r, disk.fs)
    {
      StorageProperties.CreateDirectoryKeepsWellFormed(disk.fs, rootLocation, directoryPath);
      var newDir := Resolved(rootLocation, directoryPath);
      if newDir.Err? {
        return Err(newDir.error);
      }
      if !StartsWith(newDir.value, rootLocation) {
        return Err(PathEscape);
      }
      r := disk.CreateDirectories(newDir.value);
    }

    /** storeFile: normalise, check that the parent is inside the root, Files.write. */
    method StoreFile(filename: string, content: seq<byte>) returns (r: Result<(), Fault>)
      requires Valid()
      modifies disk
      ensures Valid()
      ensures Storage.StoreFile(old(disk.fs), rootLocation, filename, content) == Storage.Effect(r, disk.fs)
    {
      StorageProperties.StoreFileKeepsWellFormed(disk.fs, rootLocation, filename, content);
      var destinationFile := Resolved(rootLocation, filename);
      if destinationFile.Err? {
        return Err(destinationFile.error);
      }
      var dest := destinationFile.value;
      if dest == [] {
        return Err(NullPointer);
      }
      if !StartsWith(Parent(dest), rootLocation) {
        return Err(PathEscape);
      }
      r := disk.Write(dest, content);
    }

    /** listFiles: Files.walk from the root, without the root itself. */
    method ListFiles() returns (r: Result<seq<Path>, Fault>)
      requires Valid()
      ensures r.Ok? <==> rootLocation in disk.fs
      ensures r.Ok? ==> Storage.IsListing(disk.fs, rootLocation, r.value)
    {
      var walked := disk.Walk(rootLocation);
      if walked.Err? {
        return Err(walked.error);
      }
      WalkWithoutStart(disk.fs, rootLocation, walked.value);
      r := Ok(Except(walked.value, rootLocation));
    }

    /** deleteFile: resolve without normalising, Files.deleteIfExists. */
    method DeleteFile(filename: string) returns (r: Result<(), Fault>)
      requires Valid()
      modifies disk
      ensures Valid()
      ensures Storage.DeleteFile(old(disk.fs), rootLocation, filename) == Storage.Effect(r, disk.fs)
    {
      StorageProperties.DeleteFileKeepsWellFormed(disk.fs, rootLocation, filename);
      var file := Parse(filename);
      if file.Err? {
        return Err(file.error);
      }
      r := disk.DeleteIfExists(Resolve(rootLocation, file.value));
    }

    /** deleteDirectory: resolve without normalising, FileSystemUtils.deleteRecursively. */
    method DeleteDirectory(directoryPath: string) returns (r: Result<(), Fault>)
      requires Valid()
      modifies disk
      ensures Valid()
      ensures Storage.DeleteDirectory(old(disk.fs), rootLocation, directoryPath) == Storage.Effect(r, disk.fs)
    {
      var directory := Parse(directoryPath);
      if directory.Err? {
        return Err(directory.error);
      }
      r := disk.DeleteRecursively(Resolve(rootLocation, directory.value));
    }

    /** readFile: resolve without normalising, Files.readAllBytes. */
    method ReadFile(filename: string) returns (r: Result<seq<byte>, Fault>)
      requires Valid()
      ensures r == Storage.ReadFile(disk.fs, rootLocation, filename)
    {
      var file := Parse(filename);
      if file.Err? {
        return Err(file.error);
      }
      r := disk.ReadAllBytes(Resolve(rootLocation, file.value));
    }
  }
}
