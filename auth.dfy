/**
  The OTP manager, the session registry and the credential-cookie writer of
  the authentication layer, over the TTL store of module KvStore.

  OTPs live under `otp:<phone>` for two minutes and are consumed by a
  successful verification; sessions live under `session:<id>` for ninety
  days; the `_session` and `_user` cookies are written with an expiry of
  "now" plus a session lifetime, the `_user` one again on every profile
  change with the registry's remaining lifetime.
 */
module Auth {
  import opened Wrappers
  import opened KvStore
  import opened Jwt
  import opened Models

  const TwoMinutesInSeconds := 120
  const NinetyDaysInSeconds := 7_776_000
  const NinetyDaysInMilliSeconds := 7_776_000_000

  const SessionCookieName := "_session"
  const UserCookieName := "_user"

  /** What the application stores in Redis: an OTP code, or the compact form
      of a signed session token (represented here by the token itself). */
  datatype RedisValue = Text(text: string) | JwtText(token: Token)

  type Cache = Store<RedisValue>

  // ---------------------------------------------------------------- keys

  function OtpKey(phone: string): (k: string)
    ensures |k| == 4 + |phone| && k[..4] == "otp:" && k[4..] == phone
  {
    "otp:" + phone
  }

  function SessionKey(id: string): (k: string)
    ensures |k| == 8 + |id| && k[..8] == "session:" && k[8..] == id
  {
    "session:" + id
  }

  /** The two key spaces are disjoint, and each key names one phone or one user. */
  lemma KeySpaces(phone: string, phone': string, id: string, id': string)
    ensures OtpKey(phone) != SessionKey(id)
    ensures OtpKey(phone) == OtpKey(phone') <==> phone == phone'
    ensures SessionKey(id) == SessionKey(id') <==> id == id'
  {
    assert OtpKey(phone)[0] == 'o';
    assert SessionKey(id)[0] == 's';
  }

  // ---------------------------------------------------------------- OTP manager

  /** `if (!value)` on a GET reply: no value, or the empty string. */
  predicate Falsy(v: Option<RedisValue>): (b: bool)
    ensures b <==> v.None? || (v.value.Text? && |v.value.text| == 0)
  {
    v.None? || v.value == Text("")
  }

  datatype OtpStatus = OtpStatus(expired: bool, ttl: int)

  datatype OtpCheck = OtpCheck(expired: bool, matched: bool)

  /** `getOtp`: whether a usable code is waiting for `phone`, and for how long. */
  function OtpStatusOf(s: Cache, phone: string): (r: OtpStatus)
    ensures r.expired <==> Falsy(s.Get(OtpKey(phone)))
    ensures r.expired ==> r.ttl == 0
    ensures !r.expired ==> r.ttl == s.Ttl(OtpKey(phone)) && r.ttl > 0
  {
    if Falsy(s.Get(OtpKey(phone))) then OtpStatus(true, 0)
    else OtpStatus(false, s.Ttl(OtpKey(phone)))
  }

  method GetOtp(redis: Redis<RedisValue>, phone: string) returns (status: OtpStatus)
    ensures status == OtpStatusOf(redis.State(), phone)
  {
    var otp := redis.Get(OtpKey(phone));
    if Falsy(otp) {
      return OtpStatus(true, 0);
    }
    var ttl := redis.Ttl(OtpKey(phone));
    status := OtpStatus(false, ttl);
  }

  /** `saveOtpInRedis`: the store after issuing `otp` for `phone`. */
  function SaveOtp(s: Cache, phone: string, otp: string): (t: Cache)
    ensures t.Get(OtpKey(phone)) == Some(Text(otp)) && t.Ttl(OtpKey(phone)) == TwoMinutesInSeconds
    ensures t.now == s.now && t.entries - {OtpKey(phone)} == s.entries - {OtpKey(phone)}
  {
    s.Set(OtpKey(phone), Text(otp), TwoMinutesInSeconds)
  }

  method SaveOtpInRedis(redis: Redis<RedisValue>, phone: string, otp: string)
    modifies redis
    ensures redis.State() == SaveOtp(old(redis.State()), phone, otp)
  {
    redis.Set(OtpKey(phone), Text(otp), TwoMinutesInSeconds);
  }

  /** `verifyOtp`: the reply, and the store afterwards. A match consumes the
      code; a mismatch and a missing code change nothing. */
  function CheckOtp(s: Cache, phone: string, otp: string): (r: (OtpCheck, Cache))
    ensures Falsy(s.Get(OtpKey(phone))) ==> r == (OtpCheck(true, false), s)
    ensures !Falsy(s.Get(OtpKey(phone))) ==>
      !r.0.expired && (r.0.matched <==> s.Get(OtpKey(phone)) == Some(Text(otp)))
    ensures r.0.matched ==> r.1 == s.Del(OtpKey(phone))
    ensures !r.0.matched ==> r.1 == s
  {
    var saved := s.Get(OtpKey(phone));
    if Falsy(saved) then (OtpCheck(true, false), s)
    else if saved.value == Text(otp) then (OtpCheck(false, true), s.Del(OtpKey(phone)))
    else (OtpCheck(false, false), s)
  }

  method VerifyOtp(redis: Redis<RedisValue>, phone: string, otp: string) returns (result: OtpCheck)
    modifies redis
    ensures (result, redis.State()) == CheckOtp(old(redis.State()), phone, otp)
  {
    var savedOtp := redis.Get(OtpKey(phone));
    if Falsy(savedOtp) {
      return OtpCheck(true, false);
    }
    var isOtpMatch := savedOtp.value == Text(otp);
    if isOtpMatch {
      redis.Del(OtpKey(phone));
    }
    result := OtpCheck(false, isOtpMatch);
  }

  /** Right after issuing, `getOtp` reports the code live with a TTL that
      counts down from 120; from the 120th second on it reports it expired. */
  lemma OtpStatusCountsDown(s: Cache, phone: string, code: string, elapsed: nat)
    requires code != ""
    ensures elapsed < TwoMinutesInSeconds ==>
      OtpStatusOf(SaveOtp(s, phone, code).Advance(elapsed), phone) == OtpStatus(false, TwoMinutesInSeconds - elapsed)
    ensures elapsed >= TwoMinutesInSeconds ==>
      OtpStatusOf(SaveOtp(s, phone, code).Advance(elapsed), phone) == OtpStatus(true, 0)
  {
    var t := SaveOtp(s, phone, code);
    assert t.entries[OtpKey(phone)].expiresAt == s.now + TwoMinutesInSeconds;
  }

  /** Verification is one-shot: the issued code matches once, and the same
      code presented again is reported as expired. */
  lemma OtpSingleUse(s: Cache, phone: string, code: string)
    requires code != ""
    ensures var s1 := SaveOtp(s, phone, code);
      var (first, s2) := CheckOtp(s1, phone, code);
      && first == OtpCheck(false, true)
      && s2.Get(OtpKey(phone)) == None
      && CheckOtp(s2, phone, code) == (OtpCheck(true, false), s2)
  {
  }

  /** A wrong code does not burn the OTP: the store is unchanged, and the
      right code still matches at any later moment within the TTL. */
  lemma OtpSurvivesMismatch(s: Cache, phone: string, code: string, wrong: string, elapsed: nat)
    requires code != "" && wrong != code
    requires elapsed < TwoMinutesInSeconds
    ensures var s1 := SaveOtp(s, phone, code);
      && CheckOtp(s1, phone, wrong) == (OtpCheck(false, false), s1)
      && CheckOtp(s1.Advance(elapsed), phone, code).0 == OtpCheck(false, true)
  {
    var s1 := SaveOtp(s, phone, code);
    assert s1.entries[OtpKey(phone)].expiresAt == s.now + TwoMinutesInSeconds;
  }

  /** Once two minutes have passed, no code matches any more. */
  lemma OtpExpires(s: Cache, phone: string, code: string, attempt: string, elapsed: nat)
    requires elapsed >= TwoMinutesInSeconds
    ensures var s1 := SaveOtp(s, phone, code).Advance(elapsed);
      CheckOtp(s1, phone, attempt) == (OtpCheck(true, false), s1)
  {
    var s1 := SaveOtp(s, phone, code);
    assert s1.entries[OtpKey(phone)].expiresAt == s.now + TwoMinutesInSeconds;
  }

  /** Re-issuing replaces the earlier code: only the newer one matches. */
  lemma OtpReissueReplaces(s: Cache, phone: string, older: string, newer: string)
    requires newer != "" && older != newer
    ensures var s2 := SaveOtp(SaveOtp(s, phone, older), phone, newer);
      && CheckOtp(s2, phone, older) == (OtpCheck(false, false), s2)
      && CheckOtp(s2, phone, newer).0 == OtpCheck(false, true)
  {
  }

  /** An empty code is never usable: JavaScript reads the stored "" as no code. */
  lemma EmptyOtpReadsAsExpired(s: Cache, phone: string)
    ensures var s1 := SaveOtp(s, phone, "");
      && CheckOtp(s1, phone, "") == (OtpCheck(true, false), s1)
      && OtpStatusOf(s1, phone) == OtpStatus(true, 0)
  {
  }

  // ---------------------------------------------------------------- session registry

  /** `saveSessionInRedis`: the store after registering `session` for user `id`. */
  function SaveSession(s: Cache, session: Token, id: string): (t: Cache)
    ensures t.Get(SessionKey(id)) == Some(JwtText(session)) && t.Ttl(SessionKey(id)) == NinetyDaysInSeconds
    ensures t.now == s.now && t.entries - {SessionKey(id)} == s.entries - {SessionKey(id)}
  {
    s.Set(SessionKey(id), JwtText(session), NinetyDaysInSeconds)
  }

  method SaveSessionInRedis(redis: Redis<RedisValue>, session: Token, id: string)
    modifies redis
    ensures redis.State() == SaveSession(old(redis.State()), session, id)
  {
    redis.Set(SessionKey(id), JwtText(session), NinetyDaysInSeconds);
  }

  /** `removeSessionFromRedis`: the store after revoking user `id`'s session. */
  function RemoveSession(s: Cache, id: string): (t: Cache)
    ensures t.Get(SessionKey(id)) == None && t.Ttl(SessionKey(id)) == MissingKeyTtl
    ensures t.now == s.now && t.entries == s.entries - {SessionKey(id)}
  {
    s.Del(SessionKey(id))
  }

  method RemoveSessionFromRedis(redis: Redis<RedisValue>, id: string)
    modifies redis
    ensures redis.State() == RemoveSession(old(redis.State()), id)
  {
    redis.Del(SessionKey(id));
  }

  /** `removeAllSession`, called by the ban workflow; its definition is not
      part of this model and it is taken to be the single DEL of the user's
      registry entry. */
  method RemoveAllSession(redis: Redis<RedisValue>, id: string)
    modifies redis
    ensures redis.State() == RemoveSession(old(redis.State()), id)
  {
    redis.Del(SessionKey(id));
  }

  /** Registering or revoking a session leaves every OTP exactly as it was:
      `getOtp` and `verifyOtp` answer the same before and after. */
  lemma SessionWritesKeepOtps(s: Cache, session: Token, id: string, phone: string, otp: string)
    ensures OtpStatusOf(SaveSession(s, session, id), phone) == OtpStatusOf(s, phone)
    ensures OtpStatusOf(RemoveSession(s, id), phone) == OtpStatusOf(s, phone)
    ensures CheckOtp(SaveSession(s, session, id), phone, otp).0 == CheckOtp(s, phone, otp).0
    ensures CheckOtp(RemoveSession(s, id), phone, otp).0 == CheckOtp(s, phone, otp).0
  {
    KeySpaces(phone, phone, id, id);
    OtherKeysUnaffected(s, SaveSession(s, session, id), SessionKey(id), OtpKey(phone));
    OtherKeysUnaffected(s, RemoveSession(s, id), SessionKey(id), OtpKey(phone));
  }

  /** Issuing or consuming an OTP leaves every session entry as it was. */
  lemma OtpWritesKeepSessions(s: Cache, phone: string, otp: string, id: string)
    ensures SameAt(SaveOtp(s, phone, otp), s, SessionKey(id))
    ensures SameAt(CheckOtp(s, phone, otp).1, s, SessionKey(id))
  {
    KeySpaces(phone, phone, id, id);
    OtherKeysUnaffected(s, SaveOtp(s, phone, otp), OtpKey(phone), SessionKey(id));
    OtherKeysUnaffected(s, s.Del(OtpKey(phone)), OtpKey(phone), SessionKey(id));
  }

  // ---------------------------------------------------------------- credential cookies

  /** The attributes of a cookie: `cookiesOption` plus an expiry instant in
      milliseconds since the epoch. */
  datatype CookieOptions = CookieOptions(httpOnly: bool, path: string, sameSite: string, secure: bool, expires: int)

  /** A cookie's content: the session token, or the JSON text of a user object. */
  datatype CookieValue = SessionCookie(token: Token) | UserCookie(json: map<string, Json>)

  datatype Cookie = Cookie(value: CookieValue, options: CookieOptions)

  /** `{ ...cookiesOption, expires }`; `secure` only in production. */
  function CookieOptionsExpiring(production: bool, expires: int): (o: CookieOptions)
    ensures o.httpOnly && o.path == "/" && o.sameSite == "lax"
    ensures o.secure <==> production
    ensures o.expires == expires
  {
    CookieOptions(true, "/", "lax", production, expires)
  }

  /** The user object with `_id` and `password` deleted before serialising. */
  function PublicSnapshot(doc: UserDocument): (o: map<string, Json>)
    ensures "_id" !in o && "password" !in o
    ensures o.Keys == ToObject(doc).Keys - {"_id", "password"}
    ensures forall k :: k in o ==> o[k] == ToObject(doc)[k]
  {
    ToObject(doc) - {"_id", "password"}
  }

  /** The snapshot does not depend on the document's id or password hash. */
  lemma SnapshotHidesSecrets(doc: UserDocument, id: string, password: string)
    ensures PublicSnapshot(doc) == PublicSnapshot(UserDocument(id, doc.user.(password := password)))
  {
    var other := UserDocument(id, doc.user.(password := password));
    assert PublicSnapshot(doc).Keys == PublicSnapshot(other).Keys;
  }

  /** The cookie jar of the HTTP response being built. */
  class Response {
    var cookies: map<string, Cookie>

    constructor ()
      ensures cookies == map[]
    {
      cookies := map[];
    }

    /** `res.cookie(name, value, options)`. */
    method SetCookie(name: string, value: CookieValue, options: CookieOptions)
      modifies this
      ensures cookies == old(cookies)[name := Cookie(value, options)]
    {
      cookies := cookies[name := Cookie(value, options)];
    }
  }

  /** `setCredentialCookies`: both cookies, with one expiry ninety days after
      `now` (milliseconds); the `_user` cookie carries the public snapshot. */
  method SetCredentialCookies(res: Response, session: Token, user: UserDocument, now: int, production: bool)
    modifies res
    ensures res.cookies == old(res.cookies)
      [SessionCookieName := Cookie(SessionCookie(session), CookieOptionsExpiring(production, now + 1000 * NinetyDaysInSeconds))]
      [UserCookieName := Cookie(UserCookie(PublicSnapshot(user)), CookieOptionsExpiring(production, now + 1000 * NinetyDaysInSeconds))]
  {
    var expires := now + NinetyDaysInMilliSeconds;
    res.SetCookie(SessionCookieName, SessionCookie(session), CookieOptionsExpiring(production, expires));
    var snapshot := PublicSnapshot(user);
    res.SetCookie(UserCookieName, UserCookie(snapshot), CookieOptionsExpiring(production, expires));
  }

  /** The `_user` expiry `updateUserCredentialCookie` computes at `now`
      (milliseconds): now plus the registry's remaining TTL in milliseconds.
      With no registry entry Redis answers -2, so the cookie is born expired. */
  function ResyncExpiry(s: Cache, id: string, now: int): (e: int)
    ensures s.Live(SessionKey(id)) ==> now < e && e == now + 1000 * (s.entries[SessionKey(id)].expiresAt - s.now)
    ensures !s.Live(SessionKey(id)) ==> e == now - 2000
  {
    now + s.Ttl(SessionKey(id)) * 1000
  }

  /** `updateUserCredentialCookie`: rewrites `_user` alone, with the
      registry-derived expiry; the store and `_session` are untouched. */
  method UpdateUserCredentialCookie(res: Response, redis: Redis<RedisValue>, user: UserDocument, now: int, production: bool)
    modifies res
    ensures res.cookies == old(res.cookies)
      [UserCookieName := Cookie(UserCookie(PublicSnapshot(user)), CookieOptionsExpiring(production, ResyncExpiry(redis.State(), user.id, now)))]
  {
    var ttl := redis.Ttl(SessionKey(user.id));
    var expires := now + ttl * 1000;
    var snapshot := PublicSnapshot(user);
    res.SetCookie(UserCookieName, UserCookie(snapshot), CookieOptionsExpiring(production, expires));
  }

  /** The resynced cookie tracks the registry, not a fresh ninety days: with
      the session registered `elapsed` seconds ago, it expires `elapsed`
      seconds sooner than a cookie written at login at the same instant; and
      once the entry is revoked it is written already expired. */
  lemma ResyncTracksRegistry(s: Cache, session: Token, id: string, elapsed: nat, now: int)
    ensures elapsed < NinetyDaysInSeconds ==>
      ResyncExpiry(SaveSession(s, session, id).Advance(elapsed), id, now)
        == now + NinetyDaysInMilliSeconds - 1000 * elapsed
    ensures ResyncExpiry(RemoveSession(s, id), id, now) < now
  {
    var t := SaveSession(s, session, id);
    assert t.entries[SessionKey(id)].expiresAt == s.now + NinetyDaysInSeconds;
  }
}
