/** Option and Result, and the error values the version manager reports. */
module Wrappers {

  datatype Option<+T> = None | Some(value: T)

  datatype Result<+T, +E> = Ok(value: T) | Err(error: E)

  /** The errors of internal/manager, one constructor per `fmt.Errorf` or
      propagated library error. Library errors whose text is not visible are
      collapsed into `Io` with a short description of the failing call. */
  datatype Error =
    | InvalidVersionName                 // "invalid version name"
    | VersionPathNotFound(path: string)  // "version path not found: <path>"
    | RegistryOpenFailed                 // "failed to open system registry ..."
    | SetGorootFailed                    // "failed to set GOROOT: ..."
    | ReadPathFailed                     // "failed to read Path: ..."
    | SetPathFailed                      // "failed to set Path: ..."
    | NotManaged(sdkPath: string)        // "can only uninstall managed versions in <sdk>"
    | IllegalFilePath(path: string)      // "illegal file path: <path>"
    | Network                            // error from http.Get / json decoding
    | Io(call: string)                   // error from an os.* or zip call
}
