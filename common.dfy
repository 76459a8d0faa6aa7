/** Vocabulary shared by every part of the model: document identifiers,
    timestamps, optional request fields and the request outcome. */
module Common {

  /** A document identifier (a MongoDB ObjectId); articles, comments and
      users draw from one identifier space. */
  type Id = nat

  /** A point in time, as handed in by the caller in place of `new Date()`. */
  type Time = nat

  /** A strictly positive integer (pagination page numbers and sizes). */
  type Positive = n: nat | n >= 1 witness 1

  /** A request-body field that may be absent (`undefined`). */
  datatype Option<T> = None | Some(value: T)

  /** The outcome of a request: the JSON body of a success, or an HTTP
      status code with the `message` of the error body. */
  datatype Result<T> = Ok(value: T) | Err(status: nat, message: string)

  const BadRequest: nat := 400
  const Unauthorized: nat := 401
  const Forbidden: nat := 403
  const NotFound: nat := 404
  const ServerError: nat := 500

  /** JavaScript truthiness of an optional string: present and not empty. */
  predicate Truthy(s: Option<string>)
  {
    s.Some? && s.value != ""
  }

  function Min(a: int, b: int): int
  {
    if a <= b then a else b
  }
}
