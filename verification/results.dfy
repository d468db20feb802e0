/** Failure-compatible wrappers shared by every module of the model. */
module Results {

  datatype Option<+T> = None | Some(value: T)

  /** The outcome of an operation that can fail: a value or an error. */
  datatype Result<+T, +E> = Ok(value: T) | Err(error: E)
}

/**
 * The single error shape of the service layer: an HTTP-like status, a
 * machine-readable code and a human-readable message. Codes are kept as
 * strings, which is also what the error classes carry at run time.
 */
module Errors {

  datatype AppError = AppError(status: int, code: string, message: string)

  const ValidationError := "VALIDATION_ERROR"
  const InternalServerError := "INTERNAL_SERVER_ERROR"
  const Forbidden := "FORBIDDEN"
  const NotFound := "NOT_FOUND"
  const AlreadyExists := "ALREADY_EXISTS"
  const WorkspaceNotFound := "WORKSPACE_NOT_FOUND"
  const UserNotFound := "USER_NOT_FOUND"
  const EmailExists := "EMAIL_EXISTS"
  const InvalidCredentials := "INVALID_CREDENTIALS"
  const InvalidRefreshToken := "INVALID_REFRESH_TOKEN"
}

/**
 * Lookup by key in a table kept in insertion order: the earliest row whose
 * key matches. On a unique column, which is where the repositories look
 * rows up, this is the one row with that key.
 */
module Lookup {
  import opened Results

  function FirstWithKey<T, K(==)>(xs: seq<T>, key: T -> K, k: K): (r: Option<T>)
    ensures r.Some? ==> r.value in xs && key(r.value) == k
    ensures r.None? <==> forall i :: 0 <= i < |xs| ==> key(xs[i]) != k
  {
    if |xs| == 0 then None
    else if key(xs[0]) == k then Some(xs[0])
    else FirstWithKey(xs[1..], key, k)
  }

  /** With unique keys, every row is the one its own key finds. */
  lemma {:induction false} FirstWithKeyAt<T, K>(xs: seq<T>, key: T -> K, n: nat)
    requires n < |xs|
    requires forall i, j :: 0 <= i < j < |xs| ==> key(xs[i]) != key(xs[j])
    ensures FirstWithKey(xs, key, key(xs[n])) == Some(xs[n])
  {
    if n > 0 {
      assert key(xs[0]) != key(xs[n]);
      FirstWithKeyAt(xs[1..], key, n - 1);
    }
  }

  /** A row appended under a key no earlier row has is the one that key finds. */
  lemma {:induction false} FirstWithKeyOfLast<T, K>(xs: seq<T>, key: T -> K, x: T)
    requires forall i :: 0 <= i < |xs| ==> key(xs[i]) != key(x)
    ensures FirstWithKey(xs + [x], key, key(x)) == Some(x)
    decreases |xs|
  {
    if |xs| > 0 {
      assert (xs + [x])[1..] == xs[1..] + [x];
      FirstWithKeyOfLast(xs[1..], key, x);
    }
  }
}
