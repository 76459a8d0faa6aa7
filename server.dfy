/** The decisions `server.js` makes itself: the CORS allow-list read from
    the `CORS_ORIGINS` setting and the origin check built on it, the reply
    to an unmatched route, and the global error handler. */
module Server {
  import opened Common
  import opened JsString

  /** `CORS_ORIGINS ? CORS_ORIGINS.split(',').map(o => o.trim()) : []`. */
  function AllowedOrigins(corsOrigins: Option<string>): (r: seq<string>)
    ensures !Truthy(corsOrigins) ==> r == []
    ensures Truthy(corsOrigins) ==>
      var parts := Split(corsOrigins.value, ',');
      |r| == |parts| && forall i :: 0 <= i < |r| ==> r[i] == Trim(parts[i])
  {
    if Truthy(corsOrigins) then
      var parts := Split(corsOrigins.value, ',');
      seq(|parts|, i requires 0 <= i < |parts| => Trim(parts[i]))
    else []
  }

  /** Writing the allowed origins out comma-separated gives them back,
      whatever whitespace surrounds each entry. */
  lemma AllowedOriginsOfList(origins: seq<string>, padded: seq<string>)
    requires |origins| >= 1 && |padded| == |origins|
    requires forall i :: 0 <= i < |origins| ==> ',' !in padded[i] && Trim(padded[i]) == origins[i]
    requires Join(padded, ',') != ""
    ensures AllowedOrigins(Some(Join(padded, ','))) == origins
  {
    var s := Join(padded, ',');
    SplitJoin(padded, ',');
    var r := AllowedOrigins(Some(s));
    assert |r| == |origins|;
    assert forall i :: 0 <= i < |r| ==> r[i] == Trim(padded[i]);
  }

  /** The origin callback: no origin (or an empty one) is let through, a
      listed origin too, any other is refused with an error naming it,
      which carries no status and so reaches the error handler as 500. */
  function CheckOrigin(allowed: seq<string>, origin: Option<string>): (r: Result<bool>)
    ensures r.Ok? <==> !Truthy(origin) || origin.value in allowed
    ensures r.Ok? ==> r.value
    ensures r.Err? ==> r == Err(ServerError, "CORS blocked for origin: " + origin.value)
  {
    if !Truthy(origin) then Ok(true)
    else if origin.value in allowed then Ok(true)
    else Err(ServerError, "CORS blocked for origin: " + origin.value)
  }

  /** Without a (non-empty) `CORS_ORIGINS`, every request that carries an
      origin is refused. */
  lemma UnsetOriginsRejectAll(corsOrigins: Option<string>, origin: string)
    requires !Truthy(corsOrigins) && origin != ""
    ensures CheckOrigin(AllowedOrigins(corsOrigins), Some(origin)).Err?
  {
  }

  /** The origins let through are exactly the trimmed entries of the
      setting. */
  lemma AllowedIffListed(corsOrigins: string, origin: string)
    requires corsOrigins != "" && origin != ""
    ensures CheckOrigin(AllowedOrigins(Some(corsOrigins)), Some(origin)).Ok? <==>
      exists i :: 0 <= i < |Split(corsOrigins, ',')| && Trim(Split(corsOrigins, ',')[i]) == origin
  {
    var allowed := AllowedOrigins(Some(corsOrigins));
    if origin in allowed {
      var i :| 0 <= i < |allowed| && allowed[i] == origin;
      assert Trim(Split(corsOrigins, ',')[i]) == origin;
    }
  }

  /** The reply of the final 404 handler. */
  datatype NotFoundReply = NotFoundReply(status: nat, message: string, path: string)

  function NotFoundHandler(originalUrl: string): (r: NotFoundReply)
    ensures r.status == NotFound && r.path == originalUrl
  {
    NotFoundReply(NotFound, "Route not found", originalUrl)
  }

  /** The parts of a thrown error the handler reads; `None` is undefined. */
  datatype ErrorInfo = ErrorInfo(status: Option<nat>, message: Option<string>, stack: Option<string>)

  /** The handler's reply; `stack` is `None` when the body has no stack. */
  datatype ErrorReply = ErrorReply(status: nat, message: string, stack: Option<string>)

  /** `err.status || 500`, `err.message || 'Something went wrong'`, and the
      stack only when `NODE_ENV` is `development`. */
  function ErrorHandler(err: ErrorInfo, nodeEnv: Option<string>): (r: ErrorReply)
    ensures r.status == (if err.status.Some? && err.status.value != 0 then err.status.value else ServerError)
    ensures r.status != 0
    ensures r.message == (if Truthy(err.message) then err.message.value else "Something went wrong")
    ensures r.message != ""
    ensures r.stack.Some? ==> nodeEnv == Some("development") && r.stack == err.stack
    ensures nodeEnv == Some("development") ==> r.stack == err.stack
  {
    ErrorReply(if err.status.Some? && err.status.value != 0 then err.status.value else ServerError,
               if Truthy(err.message) then err.message.value else "Something went wrong",
               if nodeEnv == Some("development") then err.stack else None)
  }
}
