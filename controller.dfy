/** The path strings FileController builds before it calls the storage port: the upload
    destination made from the target directory and the original file name, the directory
    to create with '_' standing for the separator, the delete paths handed on as they
    are, and the listing printed path by path. */
module Controller {
  import opened Outcomes
  import opened Paths
  import opened FileSystem
  import Storage
  import StorageProperties

  /** String.replace(char, char): every `from` becomes `to`, everything else stays. */
  function Replace(s: string, from: char, to: char): (r: string)
    ensures |r| == |s|
    ensures forall i :: 0 <= i < |s| ==> r[i] == (if s[i] == from then to else s[i])
  {
    if s == [] then [] else [if s[0] == from then to else s[0]] + Replace(s[1..], from, to)
  }

  /** Java string concatenation writes a null reference as "null". */
  function Text(s: Option<string>): string {
    if s.Some? then s.value else "null"
  }

  /** uploadFile: the original file name alone when no target directory is given, else
      the target with '_' read as '/', a separator and the file name. None stands for a
      null file name handed on as it is. */
  function UploadPath(targetPath: string, originalFilename: Option<string>): (r: Option<string>)
    ensures r.None? <==> targetPath == "" && originalFilename.None?
  {
    if targetPath == "" then originalFilename
    else Some(Replace(targetPath, '_', '/') + "/" + Text(originalFilename))
  }

  /** createDirectory: '_' is read as the separator. */
  function DirectoryPath(directoryPath: string): (r: string)
    ensures |r| == |directoryPath| && '_' !in r
  {
    Replace(directoryPath, '_', '/')
  }

  /** uploadFile calling storeFile; Paths.get of a null name throws NullPointerException. */
  function UploadFile(fs: Tree, root: Path, targetPath: string, originalFilename: Option<string>, content: seq<byte>): (r: Storage.Effect<()>)
    ensures r.result.Err? ==> r.fs == fs
    ensures fs.Keys <= r.fs.Keys
  {
    match UploadPath(targetPath, originalFilename)
    case None => Storage.Effect(Err(NullPointer), fs)
    case Some(p) => Storage.StoreFile(fs, root, p, content)
  }

  /** createDirectory calling the port with the translated path. */
  function CreateDirectoryRequest(fs: Tree, root: Path, directoryPath: string): (r: Storage.Effect<()>)
    ensures r.result.Err? ==> r.fs == fs
    ensures fs.Keys <= r.fs.Keys
  {
    Storage.CreateDirectory(fs, root, DirectoryPath(directoryPath))
  }

  /** deleteFile and deleteDirectory hand the path variable on unchanged. */
  function DeleteFileRequest(fs: Tree, root: Path, filename: string): (r: Storage.Effect<()>)
    ensures r.result.Err? ==> r.fs == fs
    ensures forall q :: q in r.fs ==> q in fs && r.fs[q] == fs[q]
  {
    Storage.DeleteFile(fs, root, filename)
  }

  function DeleteDirectoryRequest(fs: Tree, root: Path, directoryPath: string): (r: Storage.Effect<()>)
    ensures r.fs.Keys <= fs.Keys
  {
    Storage.DeleteDirectory(fs, root, directoryPath)
  }

  /** listFiles: each path of the port's list through Path.toString, in the same order. */
  function ListResponse(paths: seq<Path>): (r: seq<string>)
    ensures |r| == |paths|
    ensures forall i :: 0 <= i < |paths| ==> r[i] == PathString(paths[i])
  {
    if paths == [] then [] else [PathString(paths[0])] + ListResponse(paths[1..])
  }

  // ---------------------------------------------------------------------------------------
  // What the rewriting guarantees

  /** Without a target the storage path is the file name itself. With one it is the target
      with every '_' turned into '/' and nothing else changed, then "/" and the file name,
      whose own underscores stay; the adapter reads it as the target's names followed by the
      file name's. A null file name is written "null" after a target. */
  lemma UploadPathShape(targetPath: string, filename: string)
    ensures targetPath == "" ==> UploadPath(targetPath, Some(filename)) == Some(filename)
    ensures targetPath == "" ==> UploadPath(targetPath, None) == None
    ensures targetPath != "" ==> UploadPath(targetPath, None) == UploadPath(targetPath, Some("null"))
    ensures targetPath != "" ==>
      var p := UploadPath(targetPath, Some(filename)).value;
      && |p| == |targetPath| + 1 + |filename|
      && p[|targetPath|..] == "/" + filename
      && '_' !in p[..|targetPath|]
      && (forall i :: 0 <= i < |targetPath| && targetPath[i] != '_' ==> p[i] == targetPath[i])
      && Split(p) == Split(Replace(targetPath, '_', '/')) + Split(filename)
  {
    if targetPath != "" {
      var t := Replace(targetPath, '_', '/');
      var p := t + "/" + filename;
      assert p[..|targetPath|] == t;
      assert p[|targetPath|..] == "/" + filename;
      assert '_' !in t by {
        forall i | 0 <= i < |t|
          ensures t[i] != '_'
        {
        }
      }
      SplitConcat(t, filename);
    }
  }

  /** Replacing a character that does not occur changes nothing. */
  lemma {:induction false} ReplaceAbsent(s: string, from: char, to: char)
    requires from !in s
    ensures Replace(s, from, to) == s
  {
    if s != [] {
      assert from !in s[1..] by { assert forall c :: c in s[1..] ==> c in s; }
      ReplaceAbsent(s[1..], from, to);
    }
  }

  /** Replacing in a concatenation replaces in each part. */
  lemma {:induction false} ReplaceAppend(a: string, b: string, from: char, to: char)
    ensures Replace(a + b, from, to) == Replace(a, from, to) + Replace(b, from, to)
  {
    if a == [] {
      assert a + b == b;
    } else {
      assert (a + b)[1..] == a[1..] + b;
      ReplaceAppend(a[1..], b, from, to);
    }
  }

  /** "x_y" with names x and y free of underscores is the directory path "x/y". */
  lemma DirectoryPathOfTwo(x: string, y: string)
    requires '_' !in x && '_' !in y
    ensures DirectoryPath(x + "_" + y) == x + "/" + y
  {
    ReplaceAppend(x + "_", y, '_', '/');
    ReplaceAppend(x, "_", '_', '/');
    ReplaceAbsent(x, '_', '/');
    ReplaceAbsent(y, '_', '/');
  }

  /** A name that is a valid name on its own parses as that single relative name. */
  lemma ParseOneName(x: string)
    requires IsPlainName(x)
    ensures Parse(x) == Ok(PathValue(false, [x]))
  {
    assert Join([x]) == x;
    JoinHasNoNul([x]);
    SplitJoin([x]);
  }

  /** A directory path that resolves to `t` below the root, with no file on the way, is
      created with every directory on the way to it. */
  lemma CreateResolved(fs: Tree, root: Path, s: string, t: Path)
    requires WellFormed(fs) && Storage.ValidRoot(root)
    requires Resolved(root, s) == Ok(t) && StartsWith(t, root) && Storage.NoFileOnTheWay(fs, t)
    ensures var e := Storage.CreateDirectory(fs, root, s);
            e.result == Ok(()) && forall i :: 0 <= i <= |t| ==> IsDir(e.fs, t[..i])
  {
    StorageProperties.CreateDirectoryOutcome(fs, root, s);
  }

  /** "x/y" resolves to the entry y of the directory x of the root. */
  lemma ResolvedTwo(root: Path, x: string, y: string)
    requires Plain(root) && IsPlainName(x) && IsPlainName(y)
    ensures Resolved(root, x + "/" + y) == Ok(root + [x, y])
  {
    assert Join([x, y]) == x + "/" + y by {
      assert [x, y][1..] == [y];
    }
    JoinStartsWithFirst([x, y]);
    StorageProperties.ResolvedRelative(root, x + "/" + y, [x, y]);
    FoldPlain(root, [x, y]);
  }

  /** createDirectory reads "x_y" as the directory y inside x and creates both below the
      root. */
  lemma CreateDirectoryRequestSplits(fs: Tree, root: Path, x: string, y: string)
    requires WellFormed(fs) && Storage.ValidRoot(root)
    requires IsPlainName(x) && IsPlainName(y) && '_' !in x && '_' !in y
    requires Storage.NoFileOnTheWay(fs, root + [x, y])
    ensures var e := CreateDirectoryRequest(fs, root, x + "_" + y);
            && e.result == Ok(())
            && IsDir(e.fs, root + [x]) && IsDir(e.fs, root + [x, y])
  {
    var s := x + "/" + y;
    var t := root + [x, y];
    assert CreateDirectoryRequest(fs, root, x + "_" + y) == Storage.CreateDirectory(fs, root, s) by {
      DirectoryPathOfTwo(x, y);
    }
    ResolvedTwo(root, x, y);
    CreateResolved(fs, root, s, t);
    assert t[..|root| + 1] == root + [x];
    assert t[..|t|] == t;
  }

  /** deleteFile does not translate '_' either: "x_y" removes the file "x_y" of the root. */
  lemma DeleteFileRequestKeepsUnderscore(fs: Tree, root: Path, x: string, y: string)
    requires WellFormed(fs) && Storage.ValidRoot(root)
    requires IsPlainName(x) && IsPlainName(y)
    requires root + [x + "_" + y] in fs && fs[root + [x + "_" + y]].File?
    ensures DeleteFileRequest(fs, root, x + "_" + y) == Storage.Effect(Ok(()), fs - {root + [x + "_" + y]})
  {
    var n := x + "_" + y;
    UnderscoreJoinIsName(x, y);
    ParseOneName(n);
    StorageProperties.DeleteFilePlain(fs, root, n);
  }

  /** Two names joined by '_' are one name. */
  lemma UnderscoreJoinIsName(x: string, y: string)
    requires IsPlainName(x) && IsPlainName(y)
    ensures IsPlainName(x + "_" + y)
  {
    var n := x + "_" + y;
    assert forall c :: c in n ==> c in x || c == '_' || c in y;
    assert |n| > 1;
  }

  /** deleteDirectory does not translate '_': "x_y" names the single entry "x_y" of the root,
      so the directory x/y that createDirectory made from the same string stays, and the
      call reports success. */
  lemma DeleteDirectoryRequestKeepsUnderscore(fs: Tree, root: Path, x: string, y: string)
    requires WellFormed(fs) && Storage.ValidRoot(root)
    requires IsPlainName(x) && IsPlainName(y) && '_' !in x && '_' !in y
    requires root + [x + "_" + y] !in fs
    ensures IsPlainName(x + "_" + y)
    ensures DeleteDirectoryRequest(fs, root, x + "_" + y) == Storage.Effect(Ok(()), fs)
  {
    var n := x + "_" + y;
    UnderscoreJoinIsName(x, y);
    ParseOneName(n);
    StorageProperties.DeleteDirectoryPlain(fs, root, n);
    StorageProperties.NothingBelowMissing(fs, root + [n]);
    assert fs - {} == fs;
  }

  /** "_c" with c free of underscores becomes "/c". */
  lemma ReplaceLeadingUnderscore(c: string)
    requires '_' !in c
    ensures Replace("_" + c, '_', '/') == "/" + c
  {
    ReplaceAppend("_", c, '_', '/');
    ReplaceAbsent(c, '_', '/');
  }

  /** A target "a_b_c" with the file f is the storage path "a/b/c/f". */
  lemma UploadPathOfThree(a: string, b: string, c: string, f: string)
    requires '_' !in a && '_' !in b && '_' !in c
    ensures UploadPath(a + "_" + b + "_" + c, Some(f)) == Some(a + "/" + b + "/" + c + "/" + f)
  {
    var x := a + "_" + b;
    var y := "_" + c;
    assert x + y == a + "_" + b + "_" + c;
    ReplaceAppend(x, y, '_', '/');
    DirectoryPathOfTwo(a, b);
    ReplaceLeadingUnderscore(c);
    assert Replace(x + y, '_', '/') == (a + "/" + b) + ("/" + c);
    assert (a + "/" + b) + ("/" + c) == a + "/" + b + "/" + c;
  }

  lemma JoinFourNames(a: string, b: string, c: string, f: string)
    ensures Join([a, b, c, f]) == a + "/" + b + "/" + c + "/" + f
  {
    assert [a, b, c, f][1..] == [b, c, f];
    StorageProperties.JoinThree(b, c, f);
  }

  /** Storing under a relative path of plain names whose directory exists below the root
      writes the file there and changes nothing else. */
  lemma StoreRelative(fs: Tree, root: Path, names: seq<string>, content: seq<byte>)
    requires WellFormed(fs) && Storage.ValidRoot(root) && Plain(names) && names != []
    requires IsDir(fs, Parent(root + names)) && !IsDir(fs, root + names)
    ensures Storage.StoreFile(fs, root, Join(names), content)
         == Storage.Effect(Ok(()), fs[root + names := File(content)])
  {
    var s := Join(names);
    var dest := root + names;
    assert Resolved(root, s) == Ok(dest) by {
      JoinStartsWithFirst(names);
      StorageProperties.ResolvedRelative(root, s, names);
      FoldPlain(root, names);
    }
    assert root < dest;
    StoreResolved(fs, root, s, dest, content);
  }

  /** A file name that resolves to a destination below the root, in an existing directory,
      is stored there. */
  lemma StoreResolved(fs: Tree, root: Path, s: string, dest: Path, content: seq<byte>)
    requires WellFormed(fs) && Storage.ValidRoot(root)
    requires Resolved(root, s) == Ok(dest) && root < dest
    requires IsDir(fs, Parent(dest)) && !IsDir(fs, dest)
    ensures Storage.StoreFile(fs, root, s, content) == Storage.Effect(Ok(()), fs[dest := File(content)])
  {
    StorageProperties.StoreFileOutcome(fs, root, s, content);
  }

  /** A joined path starts with its first name. */
  lemma JoinStartsWithFirst(names: seq<string>)
    requires names != [] && names[0] != ""
    ensures |Join(names)| > 0 && Join(names)[0] == names[0][0]
  {
  }

  /** Uploading the file f with the target "a_b_c" (say "invoice.pdf" with
      "2025_Janvier_Factures") stores it at a/b/c/f below the root when that directory is
      there, and changes nothing else. */
  lemma UploadIntoTarget(fs: Tree, root: Path, a: string, b: string, c: string, f: string, content: seq<byte>)
    requires WellFormed(fs) && Storage.ValidRoot(root)
    requires IsPlainName(a) && IsPlainName(b) && IsPlainName(c) && IsPlainName(f)
    requires '_' !in a && '_' !in b && '_' !in c
    requires IsDir(fs, root + [a, b, c]) && !IsDir(fs, root + [a, b, c, f])
    ensures UploadFile(fs, root, a + "_" + b + "_" + c, Some(f), content)
         == Storage.Effect(Ok(()), fs[root + [a, b, c, f] := File(content)])
  {
    var names := [a, b, c, f];
    UploadPathOfThree(a, b, c, f);
    JoinFourNames(a, b, c, f);
    assert Parent(root + names) == root + [a, b, c];
    StoreRelative(fs, root, names, content);
  }

  /** The listed strings parse back to the listed paths, so distinct entries print
      distinctly and nothing is lost in the response. */
  lemma ListResponseFaithful(paths: seq<Path>)
    requires forall i :: 0 <= i < |paths| ==> ValidNames(paths[i])
    ensures forall i :: 0 <= i < |paths| ==> Parse(ListResponse(paths)[i]) == Ok(PathValue(true, paths[i]))
    ensures forall i, j :: 0 <= i < j < |paths| && paths[i] != paths[j] ==> ListResponse(paths)[i] != ListResponse(paths)[j]
  {
    forall i | 0 <= i < |paths|
      ensures Parse(ListResponse(paths)[i]) == Ok(PathValue(true, paths[i]))
    {
      ParsePathString(paths[i]);
    }
  }
}
