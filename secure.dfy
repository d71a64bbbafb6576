/**
  The `secure` middleware: a request passes only when its `origin` header
  equals the configured front-end URL and its `x-quranara-secret` header
  equals the configured shared secret. Headers and environment variables are
  optional strings, compared with strict equality.
 */
module Middlewares {
  import opened Wrappers
  import opened Models

  const NoAuthorizationMessage := "you don't have authorization to access this server"

  /** `secure`: the argument of its one `next` call, `None` to let the
      request through, the exception otherwise. */
  function Secure(origin: Option<string>, secret: Option<string>, frontendUrl: Option<string>, quranaraSecret: Option<string>): (nextArg: Option<HttpException>)
    ensures nextArg.None? <==> origin == frontendUrl && secret == quranaraSecret
    ensures nextArg.Some? ==> nextArg.value == Forbidden(NoAuthorizationMessage)
  {
    if origin != frontendUrl then Some(Forbidden(NoAuthorizationMessage))
    else if secret != quranaraSecret then Some(Forbidden(NoAuthorizationMessage))
    else None
  }

  /** A wrong origin is refused whatever secret comes with it, and with the
      same exception as a wrong secret, so a caller cannot tell which
      check failed. */
  lemma FailuresIndistinguishable(origin: Option<string>, secret: Option<string>, secret': Option<string>,
                                  frontendUrl: Option<string>, quranaraSecret: Option<string>)
    requires origin != frontendUrl && secret' != quranaraSecret
    ensures Secure(origin, secret, frontendUrl, quranaraSecret) == Secure(frontendUrl, secret', frontendUrl, quranaraSecret)
  {
  }

  /** With a variable unset, a request that omits the header passes that check. */
  lemma AbsentHeaderMatchesUnsetVariable(secret: Option<string>, quranaraSecret: Option<string>)
    requires secret == quranaraSecret
    ensures Secure(None, secret, None, quranaraSecret) == None
  {
  }
}
