/** Shared vocabulary of the deduplicator: the outcome of a fallible
    filesystem operation and the path of a file in the scanned tree. */
module Io {

  /** The kinds of `std::io::Error` the core can run into. */
  datatype IoError =
    | NotFound          // `fs::metadata` or `fs::read_dir` finds nothing (or not a directory)
    | PermissionDenied  // `File::open` is refused
    | ReadFailed        // a read hits a byte the device cannot deliver
    | UnexpectedEof     // `read_exact` runs out of bytes
    | InvalidSeek       // a seek before the start of the file

  datatype Result<T> = Ok(value: T) | Err(error: IoError)

  datatype Option<T> = None | Some(value: T)

  /** A `PathBuf`: the root given on the command line followed by the
      names of the entries descended through. */
  type Path = seq<string>
}
