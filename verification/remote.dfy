/**
 * Outcomes of the asynchronous calls the screens make into the cloud
 * authentication and document services. The services themselves are not
 * modelled: every success or failure callback becomes a value of `Outcome`
 * that the caller supplies to the screen's step function.
 */
module Remote {
  import opened JavaLang

  /** The shortest password, in String.length units, that the registration form and the password dialog accept. */
  const MinPasswordLength := 6

  /** The exception classes the screens tell apart. */
  datatype ExceptionKind =
    | UserCollision   // the provider's "account already exists" exception
    | OtherError

  /** An exception delivered to a failure listener; getMessage() may be null. */
  datatype Exception = Exception(kind: ExceptionKind, message: Nullable<string>)

  /** The result a Task delivers to its listeners. */
  datatype Outcome<+T> = Success(value: T) | Failure(error: Exception)

  /** A user record as the authentication service reports it. */
  datatype AuthUser = AuthUser(uid: string, email: Nullable<string>, providers: seq<string>)
}
