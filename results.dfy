/** The failures the checked file reports, and the results that carry them. */
module Results {
  import opened Words

  /**
   * The error codes a checked-file operation can raise. ErrorBadChecksum
   * carries the page index, the computed and the stored checksum and the
   * physical length, as the source's message does; the file name and the
   * message text are not modelled.
   */
  datatype Error =
    | ErrorInternal
    | ErrorFileReadOnly
    | ErrorBadChecksum(page: nat, computed: uint32, stored: uint32, physicalLength: nat)
    | ErrorSeekFailed
    | ErrorReadFailed
    | ErrorWriteFailed

  /** A value, or the error that was thrown instead of producing it. */
  datatype Result<T> = Ok(value: T) | Err(error: Error)

  /** Completion of an operation that returns nothing, or the error it threw. */
  datatype Outcome = Pass | Fail(error: Error)
}
