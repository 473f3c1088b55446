/** Shared vocabulary of the four services: optional values, the outcome of one
    outbound HTTP call, the status codes the handlers write, and the two
    string operations (prefix test and prefix removal) used on the
    Authorization header. */
module Http {

  datatype Option<T> = None | Some(value: T) {
    function GetOr(default: T): T {
      match this
      case Some(v) => v
      case None => default
    }
  }

  /** What one outbound call to another node produced. `Unreachable` covers
      every transport failure (connection refused, the 2-second client
      timeout, a request that could not be built). `Response` carries the
      status code and the decoded body, `None` when the body did not decode
      (or was not decoded at all). */
  datatype Reply<T> = Unreachable | Response(status: int, body: Option<T>)

  /** The success rule of one outbound call, shared by the grade service's
      token introspection and the portal's fetches: the node was reached,
      answered 200, and its body decoded. Every other outcome is failure. */
  function FetchFromNode<T>(reply: Reply<T>): (r: Option<T>)
    ensures r.Some? <==> reply.Response? && reply.status == StatusOK && reply.body.Some?
    ensures r.Some? ==> r == reply.body
  {
    match reply
    case Unreachable => None
    case Response(status, body) => if status != StatusOK then None else body
  }

  const StatusOK: int := 200
  const StatusCreated: int := 201
  const StatusBadRequest: int := 400
  const StatusUnauthorized: int := 401
  const StatusForbidden: int := 403
  const StatusNotFound: int := 404
  const StatusMethodNotAllowed: int := 405
  const StatusConflict: int := 409

  const MethodPost: string := "POST"

  /** The scheme prefix of an Authorization header. */
  const Bearer: string := "Bearer "

  /** Go's strings.HasPrefix. */
  predicate HasPrefix(s: string, p: string) {
    |p| <= |s| && s[..|p|] == p
  }

  /** Go's strings.TrimPrefix: `s` without a leading `p`, or `s` itself. */
  function TrimPrefix(s: string, p: string): (r: string)
    ensures HasPrefix(s, p) ==> p + r == s
    ensures !HasPrefix(s, p) ==> r == s
  {
    if HasPrefix(s, p) then s[|p|..] else s
  }

  /** Removing a prefix that was just prepended gives back the original. */
  lemma TrimPrefixOfPrefixed(p: string, t: string)
    ensures HasPrefix(p + t, p)
    ensures TrimPrefix(p + t, p) == t
  {
  }
}
