/**
 * The exceptions the backend raises, as values.  Every service call that can
 * throw returns a Result; the exception mapper turns a Failure into a status.
 */
module Failures {
  import opened Wrappers

  /** Error codes the object-storage backend reports (subclasses of S3Exception). */
  datatype StorageError =
    | NoSuchBucket
    | NoSuchKey
    | BucketAlreadyExists
    | BucketNotEmpty
    | NoSuchUpload
    | InvalidArgument        // a part number outside 1..10000
    | InvalidRequest         // a copy of an object onto itself
    | MalformedManifest      // a completion manifest without parts
    | InvalidPartOrder       // a completion manifest not in ascending part order
    | InvalidPart            // a manifest entry that names no uploaded part or the wrong eTag
    | EntityTooSmall         // a completion whose part other than the last is under 5 MiB

  datatype Failure =
    | UserNotFound
    | GroupNotFound
    | UserNotInGroup
    | MembersNotFound
    | FileSharingNotFound
    | DuplicateResource
    | IllegalArgument
    | Forbidden
    | NonUniqueResult            // Hibernate's NonUniqueResultException from singleResult()
    | Storage(code: StorageError) // a backend fault, thrown as is or wrapped in a RuntimeException
    | Completion(message: Option<string>)  // java.util.concurrent.CompletionException
    | Wrapped(cause: Failure)    // a RuntimeException a service throws around another failure
    | TokenFailure

  datatype Result<+T> = Ok(value: T) | Err(error: Failure)
}
