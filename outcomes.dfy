/** Optional values, results, and the kinds of failure the storage code can report.
    The Java code signals every failure by throwing; each exception it can throw
    becomes one constructor of Fault. */
module Outcomes {

  datatype Option<+T> = None | Some(value: T)

  datatype Result<+T, +E> = Ok(value: T) | Err(error: E)

  datatype Fault =
    | InvalidPath        // InvalidPathException from Paths.get: the string holds a NUL
    | NullPointer        // NullPointerException: a null file name, or getParent() of "/"
    | PathEscape         // the containment check rejected the resolved path
    | NoSuchFile         // NoSuchFileException (ENOENT)
    | NotADirectory      // FileSystemException (ENOTDIR): a component on the way is a file
    | IsADirectory       // IOException (EISDIR): a directory where a file is expected
    | AlreadyExists      // FileAlreadyExistsException: a file where a directory is wanted
    | DirectoryNotEmpty  // DirectoryNotEmptyException: ENOTEMPTY, also rmdir of a last name ".."
    | CannotRemove       // FileSystemException: rmdir refuses "/" (EBUSY) or a last name "." (EINVAL)
    | BootstrapFailure   // startup could not create the chosen storage root
}
