/** Failure-carrying values shared by the whole model of the S3 helper package.

    Go distinguishes returned errors from runtime panics; both are values here.
    `SliceOutOfRange` is the only panic: a slice expression whose bounds are
    invalid (a negative bound, or `[1:]` on an empty string). */
module Outcomes {

  /** Why an operation did not produce a value. */
  datatype Failure =
    | NilClient          // "S3 client is nil"
    | UrlParseFailed     // url.Parse returned an error
    | PutObjectFailed    // the PutObject call returned an error
    | HeadObjectFailed   // the HeadObject call returned an error
    | PresignFailed      // the presigner returned an error
    | ListPageFailed     // a ListObjectsV2 page request returned an error
    | SliceOutOfRange    // runtime panic: slice bounds out of range

  /** True for the failures that are Go panics rather than returned errors. */
  predicate IsPanic(f: Failure) {
    f == SliceOutOfRange
  }

  /** Either a value or the reason there is none. */
  datatype Result<+T> = Ok(value: T) | Err(failure: Failure)

  /** An optional value; models a Go pointer that may be nil. */
  datatype Option<+T> = None | Some(value: T)
}
