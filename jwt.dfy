/**
  The session-token signer (`createSession` / `verifySession`), with the
  HS256 cryptography made abstract: a token records the payload it carries
  and the key it was signed with, and a MAC is valid exactly when that key
  is the verifier's key. Anything else a client can present (a truncated
  string, a token signed under another key, random text) is `Malformed`
  or carries the wrong key. Time is whole seconds since the epoch.
 */
module Jwt {
  import opened Wrappers

  /** `setExpirationTime("1d")`: a token is valid for one day after signing. */
  const OneDayInSeconds := 86_400

  /** The claims given to `createSession`, plus the `exp` claim it adds. */
  datatype JwtPayload = JwtPayload(claims: map<string, string>, exp: int)

  datatype Token =
    | Signed(payload: JwtPayload, key: seq<bv8>)
    | Malformed(raw: string)

  /** `createSession(payload)`: sign `claims` under `key` at time `now`. */
  function CreateSession(claims: map<string, string>, key: seq<bv8>, now: int): (t: Token)
    ensures t.Signed? && t.payload.claims == claims
    ensures forall at :: VerifySession(t, key, at).Some? <==> at < now + OneDayInSeconds
  {
    Signed(JwtPayload(claims, now + OneDayInSeconds), key)
  }

  /** `verifySession(session)`: the payload of a token whose MAC checks out
      under `key` and whose `exp` lies strictly in the future; `None` for
      every other token. It never fails in any other way. */
  function VerifySession(t: Token, key: seq<bv8>, now: int): (r: Option<JwtPayload>)
    ensures r.Some? <==> t.Signed? && t.key == key && now < t.payload.exp
    ensures r.Some? ==> r.value == t.payload
  {
    match t
    case Signed(payload, signer) =>
      if signer == key && now < payload.exp then Some(payload) else None
    case Malformed(_) => None
  }

  /** A freshly signed token verifies, with its claims intact, up to one
      second before its expiry, and is rejected from the expiry instant on,
      whatever the signature. */
  lemma TokenLifetime(claims: map<string, string>, key: seq<bv8>, issued: int, at: int)
    ensures var t := CreateSession(claims, key, issued);
      && (at < issued + OneDayInSeconds ==> VerifySession(t, key, at) == Some(JwtPayload(claims, issued + OneDayInSeconds)))
      && (at >= issued + OneDayInSeconds ==> VerifySession(t, key, at) == None)
  {
  }

  /** A token signed under any other key never verifies. */
  lemma ForeignKeyRejected(claims: map<string, string>, signer: seq<bv8>, key: seq<bv8>, issued: int, at: int)
    requires signer != key
    ensures VerifySession(CreateSession(claims, signer, issued), key, at) == None
  {
  }
}
