// Results and the error vocabulary every layer of the gateway shares.
module Rgw {
  datatype Option<+T> = None | Some(value: T)

  datatype RgwError =
    | AccessDenied
    | InvalidAccessKeyId
    | SignatureDoesNotMatch
    | AuthorizationHeaderMalformed
    | NoSuchUser
    | UserAlreadyExists
    | KeyExists
    | NoSuchBucket
    | BucketAlreadyExists
    | BucketAlreadyOwnedByYou
    | BucketNotEmpty
    | InvalidBucketName
    | TooManyBuckets
    | NoSuchKey
    | InvalidRange
    | InvalidArgument
    | InvalidRequest
    | MalformedXml
    | InternalError

  // The message texts of InvalidArgument, InvalidRequest and the like are not modelled.
  datatype Result<+T> = Ok(value: T) | Err(error: RgwError) {
    predicate IsFailure() {
      Err?
    }

    function PropagateFailure<U>(): Result<U>
      requires Err?
    {
      Err(error)
    }

    function Extract(): T
      requires Ok?
    {
      value
    }
  }

  function Need(condition: bool, error: RgwError): Result<()> {
    if condition then Ok(()) else Err(error)
  }
}
