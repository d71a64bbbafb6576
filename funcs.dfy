/**
  The helpers of the utility module: pagination metadata, `mm:ss` and
  `hh:mm:ss` parsing, seconds to hours and minutes, the SCAN cursor loop and
  `getUser`. JavaScript numbers are modelled as integers, and the strings
  `timeToSeconds` parses as decimal digit strings.
 */
module Funcs {
  import opened Wrappers
  import opened Jwt
  import opened Models
  import opened KvStore
  import opened Auth

  // ---------------------------------------------------------------- pagination

  datatype PaginationData = PaginationData(page: int, limit: int, pagesCount: int, count: int)

  /** `createPaginationData`: `pagesCount` is the number of pages of `limit`
      items needed to hold `count` items, `Math.ceil(count / limit)`. */
  function CreatePaginationData(page: int, limit: int, count: int): (r: PaginationData)
    requires limit > 0 && count >= 0
    ensures r.page == page && r.limit == limit && r.count == count
    ensures count == 0 ==> r.pagesCount == 0
    ensures count > 0 ==> (r.pagesCount - 1) * limit < count <= r.pagesCount * limit
  {
    var pages := (count + limit - 1) / limit;
    CeilingDivision(count, limit, pages);
    PaginationData(page, limit, pages, count)
  }

  lemma CeilingDivision(count: int, limit: int, pages: int)
    requires limit > 0 && count >= 0 && pages == (count + limit - 1) / limit
    ensures count == 0 ==> pages == 0
    ensures count > 0 ==> (pages - 1) * limit < count <= pages * limit
  {
    var r := (count + limit - 1) % limit;
    assert count + limit - 1 == pages * limit + r && 0 <= r < limit;
    assert (pages - 1) * limit == pages * limit - limit;
  }

  /** The page count is the least number of pages that holds every item. */
  lemma PagesCountIsLeast(page: int, limit: int, count: int, pages: int)
    requires limit > 0 && count >= 0 && pages >= 0
    requires count <= pages * limit
    ensures CreatePaginationData(page, limit, count).pagesCount <= pages
  {
    var r := CreatePaginationData(page, limit, count);
    if count > 0 && r.pagesCount > pages {
      assert (r.pagesCount - 1) * limit >= pages * limit by {
        assert r.pagesCount - 1 >= pages;
        MultiplyMonotone(pages, r.pagesCount - 1, limit);
      }
    }
  }

  lemma MultiplyMonotone(a: int, b: int, k: int)
    requires a <= b && k >= 0
    ensures a * k <= b * k
  {
    assert b * k - a * k == (b - a) * k;
  }

  // ---------------------------------------------------------------- time strings

  /** `s.split(":")`, with JavaScript's semantics: `n` colons give `n + 1`
      parts, empty ones included. */
  function Split(s: string): (parts: seq<string>)
    ensures |parts| >= 1
  {
    if s == [] then [""]
    else
      var rest := Split(s[1..]);
      if s[0] == ':' then [""] + rest
      else [[s[0]] + rest[0]] + rest[1..]
  }

  lemma {:induction false} SplitNoColon(a: string)
    requires ':' !in a
    ensures Split(a) == [a]
  {
    if a != [] {
      SplitNoColon(a[1..]);
      assert [a[0]] + a[1..] == a;
    }
  }

  lemma {:induction false} SplitAtColon(a: string, b: string)
    requires ':' !in a
    ensures Split(a + ":" + b) == [a] + Split(b)
  {
    if a == [] {
      assert a + ":" + b == [':'] + b;
      assert (a + ":" + b)[1..] == b;
    } else {
      assert (a + ":" + b)[1..] == a[1..] + ":" + b;
      SplitAtColon(a[1..], b);
      assert [a[0]] + a[1..] == a;
    }
  }

  /** `split(":")` yields a single part exactly when there is no colon. */
  lemma {:induction false} SplitCountsColons(s: string)
    ensures |Split(s)| == 1 <==> ':' !in s
  {
    if s != [] {
      SplitCountsColons(s[1..]);
      assert s == [s[0]] + s[1..];
    }
  }

  /** The inverse of `Split`: the parts joined with colons. */
  function Join(parts: seq<string>): (s: string)
    requires |parts| >= 1
  {
    if |parts| == 1 then parts[0] else parts[0] + ":" + Join(parts[1..])
  }

  /** Splitting a joined sequence of colon-free parts gives the parts back. */
  lemma {:induction false} SplitJoin(parts: seq<string>)
    requires |parts| >= 1
    requires forall k :: 0 <= k < |parts| ==> ':' !in parts[k]
    ensures Split(Join(parts)) == parts
  {
    if |parts| == 1 {
      SplitNoColon(parts[0]);
    } else {
      SplitJoin(parts[1..]);
      SplitAtColon(parts[0], Join(parts[1..]));
      assert [parts[0]] + parts[1..] == parts;
    }
  }

  predicate IsDigit(c: char) {
    '0' <= c <= '9'
  }

  predicate AllDigits(d: string) {
    forall c :: c in d ==> IsDigit(c)
  }

  /** `Number(d)` for a string `d` of decimal digits; `Number("")` is 0.
      A digit string never reads as a negative number. */
  function DigitsValue(d: string): (v: int)
    ensures AllDigits(d) ==> v >= 0
  {
    if d == [] then 0
    else
      PrefixDigits(d);
      DigitsValue(d[..|d| - 1]) * 10 + (d[|d| - 1] as int - '0' as int)
  }

  lemma PrefixDigits(d: string)
    requires d != []
    ensures AllDigits(d) ==> AllDigits(d[..|d| - 1]) && IsDigit(d[|d| - 1])
  {
    if AllDigits(d) {
      assert d[|d| - 1] in d;
      forall c | c in d[..|d| - 1] ensures IsDigit(c) {
        assert c in d;
      }
    }
  }

  /** A time text: decimal digits separated by colons. */
  predicate IsTimeText(time: string) {
    forall c :: c in time ==> IsDigit(c) || c == ':'
  }

  /** `timeToSeconds`: two parts are minutes and seconds; three or more are
      hours, minutes and seconds (further parts are ignored); a single part
      leaves `minutes` and `seconds` undefined and the result is `NaN`,
      here `None`. */
  function TimeToSeconds(time: string): (r: Option<int>)
    requires IsTimeText(time)
    ensures r.None? <==> ':' !in time
  {
    SplitCountsColons(time);
    var parts := Split(time);
    if |parts| == 2 then Some(DigitsValue(parts[0]) * 60 + DigitsValue(parts[1]))
    else if |parts| == 1 then None
    else Some(DigitsValue(parts[0]) * 3600 + DigitsValue(parts[1]) * 60 + DigitsValue(parts[2]))
  }

  lemma ColonFreeDigits(d: string)
    requires AllDigits(d)
    ensures ':' !in d
  {
    assert !IsDigit(':');
  }

  /** Colon-joined digit strings form a time text. */
  lemma JoinedTimeText(a: string, b: string)
    requires IsTimeText(a) && IsTimeText(b)
    ensures IsTimeText(a + ":" + b)
  {
    forall c | c in a + ":" + b ensures IsDigit(c) || c == ':' {
      assert c in a || c == ':' || c in b;
    }
  }

  /** `timeToSeconds` reads the parts its input splits into. */
  lemma PartsValue(time: string, parts: seq<string>)
    requires IsTimeText(time) && Split(time) == parts
    ensures |parts| == 2 ==> TimeToSeconds(time) == Some(DigitsValue(parts[0]) * 60 + DigitsValue(parts[1]))
    ensures |parts| >= 3 ==> TimeToSeconds(time) == Some(DigitsValue(parts[0]) * 3600 + DigitsValue(parts[1]) * 60 + DigitsValue(parts[2]))
  {
  }

  /** Digit strings joined by colons form a time text that splits back into them. */
  lemma JoinedParts(parts: seq<string>)
    requires |parts| >= 1
    requires forall k :: 0 <= k < |parts| ==> AllDigits(parts[k])
    ensures Split(Join(parts)) == parts
  {
    forall k | 0 <= k < |parts| ensures ':' !in parts[k] {
      ColonFreeDigits(parts[k]);
    }
    SplitJoin(parts);
  }

  /** A time text read with its split known. */
  lemma ReadParts(parts: seq<string>)
    requires |parts| >= 2
    requires forall k :: 0 <= k < |parts| ==> AllDigits(parts[k])
    requires Split(Join(parts)) == parts
    ensures IsTimeText(Join(parts))
    ensures |parts| == 2 ==> TimeToSeconds(Join(parts)) == Some(DigitsValue(parts[0]) * 60 + DigitsValue(parts[1]))
    ensures |parts| >= 3 ==> TimeToSeconds(Join(parts)) == Some(DigitsValue(parts[0]) * 3600 + DigitsValue(parts[1]) * 60 + DigitsValue(parts[2]))
  {
    JoinIsTimeText(parts);
    PartsValue(Join(parts), parts);
  }

  lemma {:induction false} JoinIsTimeText(parts: seq<string>)
    requires |parts| >= 1
    requires forall k :: 0 <= k < |parts| ==> AllDigits(parts[k])
    ensures IsTimeText(Join(parts))
  {
    if |parts| > 1 {
      JoinIsTimeText(parts[1..]);
      JoinedTimeText(parts[0], Join(parts[1..]));
    }
  }

  /** `timeToSeconds("m:s")` is `m * 60 + s`. */
  lemma MinutesSecondsValue(m: string, s: string)
    requires AllDigits(m) && AllDigits(s)
    ensures IsTimeText(Join([m, s]))
    ensures TimeToSeconds(Join([m, s])) == Some(DigitsValue(m) * 60 + DigitsValue(s))
  {
    JoinedParts([m, s]);
    ReadParts([m, s]);
  }

  /** `timeToSeconds("h:m:s")` is `h * 3600 + m * 60 + s`. */
  lemma HoursMinutesSecondsValue(h: string, m: string, s: string)
    requires AllDigits(h) && AllDigits(m) && AllDigits(s)
    ensures IsTimeText(Join([h, m, s]))
    ensures TimeToSeconds(Join([h, m, s])) == Some(DigitsValue(h) * 3600 + DigitsValue(m) * 60 + DigitsValue(s))
  {
    JoinedParts([h, m, s]);
    ReadParts([h, m, s]);
  }

  /** A time text without a colon is not a time: `NaN`. */
  lemma SinglePartIsNaN(d: string)
    requires AllDigits(d)
    ensures IsTimeText(d) && TimeToSeconds(d) == None
  {
    ColonFreeDigits(d);
    SplitNoColon(d);
  }

  /** JavaScript's `%`: the remainder takes the sign of the dividend. */
  function JsRemainder(a: int, b: int): (r: int)
    requires b > 0
    ensures a >= 0 ==> 0 <= r < b
    ensures a < 0 ==> -b < r <= 0
    ensures (a - r) % b == 0
  {
    if a >= 0 then
      MultipleHasNoRemainder(a / b, b);
      a % b
    else
      var q := (-a) / b;
      assert a + (-a) % b == (-q) * b;
      MultipleHasNoRemainder(-q, b);
      -((-a) % b)
  }

  lemma MultipleHasNoRemainder(q: int, b: int)
    requires b > 0
    ensures (q * b) % b == 0
  {
    DivisionByBracket(q * b, b, q, 0);
  }

  /** `secondsToTimeArray`: whole hours, and whole minutes past the hour.
      For a negative input both are rounded down, as `Math.floor` does. */
  function SecondsToTimeArray(seconds: int): (r: (int, int))
    ensures seconds >= 0 ==>
      && r.0 >= 0 && 0 <= r.1 < 60
      && r.0 * 3600 + r.1 * 60 <= seconds < r.0 * 3600 + r.1 * 60 + 60
    ensures seconds < 0 ==> r.0 < 0 && -60 <= r.1 <= 0
    ensures r.0 * 3600 <= seconds < r.0 * 3600 + 3600
    ensures r.1 * 60 <= JsRemainder(seconds, 3600) < r.1 * 60 + 60
  {
    (seconds / 3600, JsRemainder(seconds, 3600) / 60)
  }

  /** Hours and minutes are determined by their bracket: whoever brackets
      `seconds` as above is `secondsToTimeArray`'s answer. */
  lemma TimeArrayUnique(seconds: nat, h: int, m: int)
    requires h >= 0 && 0 <= m < 60
    requires h * 3600 + m * 60 <= seconds < h * 3600 + m * 60 + 60
    ensures SecondsToTimeArray(seconds) == (h, m)
  {
    var rest := seconds - h * 3600;
    assert 0 <= rest < 3600;
    assert seconds / 3600 == h by {
      DivisionByBracket(seconds, 3600, h, rest);
    }
    assert seconds % 3600 == rest by {
      DivisionByBracket(seconds, 3600, h, rest);
    }
    assert rest / 60 == m by {
      DivisionByBracket(rest, 60, m, rest - m * 60);
    }
  }

  lemma DivisionByBracket(a: int, b: int, q: int, r: int)
    requires b > 0 && 0 <= r < b && a == q * b + r
    ensures a / b == q && a % b == r
  {
    var q', r' := a / b, a % b;
    assert a == q' * b + r' && 0 <= r' < b;
    assert (q' - q) * b == r - r' by {
      assert (q' - q) * b == q' * b - q * b;
    }
    if q' > q {
      MultiplyMonotone(1, q' - q, b);
    } else if q' < q {
      MultiplyMonotone(1, q - q', b);
    }
  }

  /** Round trip: reading `h:m:s` and converting back gives `[h, m]`. */
  lemma TimeRoundTrip(h: string, m: string, s: string)
    requires AllDigits(h) && AllDigits(m) && AllDigits(s)
    requires DigitsValue(m) < 60 && DigitsValue(s) < 60
    ensures IsTimeText(Join([h, m, s]))
    ensures var total := TimeToSeconds(Join([h, m, s]));
      total.Some? && SecondsToTimeArray(total.value) == (DigitsValue(h), DigitsValue(m))
  {
    HoursMinutesSecondsValue(h, m, s);
    TotalRoundTrip(TimeToSeconds(Join([h, m, s])), DigitsValue(h), DigitsValue(m), DigitsValue(s));
  }

  /** The arithmetic half of the round trip, on the values already read. */
  lemma TotalRoundTrip(total: Option<int>, hv: int, mv: int, sv: int)
    requires hv >= 0 && 0 <= mv < 60 && 0 <= sv < 60
    requires total == Some(hv * 3600 + mv * 60 + sv)
    ensures total.Some? && SecondsToTimeArray(total.value) == (hv, mv)
  {
    TimeArrayUnique(total.value, hv, mv);
  }

  // ---------------------------------------------------------------- SCAN loop

  /** One reply to `SCAN cursor MATCH pattern`: the next cursor and a batch of keys. */
  datatype ScanReply = ScanReply(cursor: string, keys: seq<string>)

  /** An iteration that sends `cursor` gets a reply with cursor "0" within `calls` calls. */
  ghost predicate Completes(scan: string -> ScanReply, cursor: string, calls: nat)
    decreases calls
  {
    calls > 0 && (scan(cursor).cursor == "0" || Completes(scan, scan(cursor).cursor, calls - 1))
  }

  /** The keys of every batch from the call that sends `cursor` up to and
      including the first reply whose cursor is "0", in order. */
  ghost function CollectFrom(scan: string -> ScanReply, cursor: string, calls: nat): (keys: seq<string>)
    requires Completes(scan, cursor, calls)
    decreases calls
  {
    var reply := scan(cursor);
    if reply.cursor == "0" then reply.keys
    else reply.keys + CollectFrom(scan, reply.cursor, calls - 1)
  }

  /** The collected keys do not depend on the bound used to show completion. */
  lemma {:induction false} CollectFromAnyBound(scan: string -> ScanReply, cursor: string, n: nat, m: nat)
    requires Completes(scan, cursor, n) && Completes(scan, cursor, m)
    ensures CollectFrom(scan, cursor, n) == CollectFrom(scan, cursor, m)
    decreases n
  {
    if scan(cursor).cursor != "0" {
      CollectFromAnyBound(scan, scan(cursor).cursor, n - 1, m - 1);
    }
  }

  /** `scanRedisKeys`: SCAN from cursor "0", once at least, following the
      returned cursors until one is "0", and concatenate the batches. The
      server's replies are given as `scan`, a function of the cursor; the
      ghost `calls` bounds the iteration, which Redis guarantees to end. */
  method ScanRedisKeys(scan: string -> ScanReply, ghost calls: nat) returns (keys: seq<string>)
    requires Completes(scan, "0", calls)
    ensures keys == CollectFrom(scan, "0", calls)
    ensures scan("0").keys <= keys
  {
    keys := [];
    var cursor := "0";
    ghost var left := calls;
    while true
      invariant Completes(scan, cursor, left)
      invariant keys + CollectFrom(scan, cursor, left) == CollectFrom(scan, "0", calls)
      invariant cursor == "0" ==> keys == [] && left == calls
      decreases left
    {
      var reply := scan(cursor);
      assert keys + CollectFrom(scan, cursor, left) == (keys + reply.keys) +
        (if reply.cursor == "0" then [] else CollectFrom(scan, reply.cursor, left - 1));
      cursor := reply.cursor;
      keys := keys + reply.keys;
      if cursor == "0" {
        break;
      }
      left := left - 1;
    }
  }

  // ---------------------------------------------------------------- getUser

  /** `getUser`: the user named by the `_id` claim of a verifying `_session`
      cookie, or `None`. The session registry is not consulted. */
  function GetUser(session: Option<Token>, key: seq<bv8>, now: int, users: map<string, User>): (r: Option<UserDocument>)
    ensures session.None? ==> r == None
    ensures session.Some? && VerifySession(session.value, key, now).None? ==> r == None
    ensures r.Some? ==>
      && session.Some? && VerifySession(session.value, key, now).Some?
      && var claims := VerifySession(session.value, key, now).value.claims;
      && "_id" in claims && claims["_id"] in users
      && r.value == UserDocument(claims["_id"], users[claims["_id"]])
    ensures session.Some? && VerifySession(session.value, key, now).Some? ==>
      var claims := VerifySession(session.value, key, now).value.claims;
      && ("_id" in claims && claims["_id"] in users ==> r == Some(UserDocument(claims["_id"], users[claims["_id"]])))
      && ("_id" !in claims || claims["_id"] !in users ==> r == None)
  {
    if session.None? || session.value == Malformed("") then None
    else
      var payload := VerifySession(session.value, key, now);
      if payload.None? then None
      else if "_id" in payload.value.claims && payload.value.claims["_id"] in users then
        var id := payload.value.claims["_id"];
        Some(UserDocument(id, users[id]))
      else None
  }

  /** The session cookie issued at login names its user for one day, and
      for nobody once the token has expired. */
  lemma LoginTokenResolves(id: string, key: seq<bv8>, issued: int, now: int, users: map<string, User>)
    requires id in users
    ensures var token := CreateSession(map["_id" := id], key, issued);
      && (now < issued + OneDayInSeconds ==> GetUser(Some(token), key, now, users) == Some(UserDocument(id, users[id])))
      && (now >= issued + OneDayInSeconds ==> GetUser(Some(token), key, now, users) == None)
  {
  }

  /** Revoking the registry entry does not stop `getUser` from trusting a
      still-valid token: it answers from the token alone. */
  lemma RevokedSessionStillResolves(s: Cache, id: string, key: seq<bv8>, issued: int, now: int, users: map<string, User>)
    requires id in users && now < issued + OneDayInSeconds
    ensures var token := CreateSession(map["_id" := id], key, issued);
      && RemoveSession(SaveSession(s, token, id), id).Get(SessionKey(id)) == None
      && GetUser(Some(token), key, now, users) == Some(UserDocument(id, users[id]))
  {
  }
}
