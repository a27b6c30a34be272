/** The installer's failure modes and the Result type that carries them.

    Every exception the stage3 pipeline can raise becomes one constructor of
    `Error`; every operation that can raise returns a `Result`, so that a
    failing step is a value and not control flow. */
module Results {

  datatype Error =
    | BadTimestamp(text: string)            // strptime raised ValueError on a name
    | NoTimestamps                          // max() of an empty list
    | HrefWithoutValue                      // an href attribute written without a value (None)
    | EmptyHref                             // href[-1] on the empty string
    | HttpStatus(status: int, reason: string) // a final response that is neither 200 nor a usable redirect
    | TooManyRedirects                      // the redirect recursion ran out of depth
    | NoReleaseFolders                      // no timestamped folder on the index page
    | NoArchives                            // no stage3 file in the release folder
    | DownloadFailed(url: string)           // urlretrieve raised
    | VerificationFailed(file: string)      // gpg --verify exited nonzero
    | RemoveFailed(file: string)            // rm of the signature exited nonzero
    | NoSignature                           // no .asc entry to verify
    | MoveFailed(file: string)              // mv of the archive into the target exited nonzero
    | TooFewPartitions(device: string)      // a device whose children list has fewer than two entries
    | NoPartitions                          // no block device has children

  datatype Result<+T> = Ok(value: T) | Err(error: Error) {

    predicate IsFailure() {
      Err?
    }

    function PropagateFailure<U>(): Result<U>
      requires Err?
    {
      Err(error)
    }

    function Extract(): T
      requires Ok?
    {
      value
    }
  }

  datatype Option<+T> = None | Some(value: T)
}
