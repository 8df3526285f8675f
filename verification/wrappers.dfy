/** Failure-carrying values shared by every module of the model. An exception that the
    source lets propagate to its caller becomes an `Err`; an exception it catches becomes
    the fallback value the catching code returns. */
module Wrappers {

  datatype Option<+T> = None | Some(value: T)

  /** The exceptions the modelled code can raise, by their Python class. */
  datatype Error =
    | FileNotFound(path: string)      // open / os.remove / FaissStore.load on a missing path
    | NotImplemented                  // download_pdf with cache_mode "none" on S3
    | NoSuchKey(key: string)          // an S3 get/download of an object the bucket lacks
    | ValueError                      // dimension mismatch, inhomogeneous embedding rows
    | IndexError                      // a search id past the end of the metadata list
    | CollaboratorFailure             // any exception raised inside an external collaborator

  datatype Result<+T> = Ok(value: T) | Err(error: Error)

  type byte = bv8
}
