/**
  An abstract TTL key-value store with an explicit clock: the part of the
  Redis command set the authentication layer uses (GET, SET ... EX, DEL, TTL).
  Keys are strings; every key is written with an expiry, so the store never
  holds a key without one. Time is whole seconds.
 */
module KvStore {
  import opened Wrappers

  /** The TTL Redis reports for a key that does not exist (or has expired). */
  const MissingKeyTtl := -2

  /** A stored value with the instant (in seconds) at which it expires. */
  datatype Entry<V> = Entry(value: V, expiresAt: int)

  /** The server's state: its entries and its clock. Expired entries may remain
      in `entries`; they are invisible, as in Redis, which expires lazily. */
  datatype Store<V> = Store(entries: map<string, Entry<V>>, now: int) {

    /** `key` holds a value that has not yet expired. */
    predicate Live(key: string) {
      key in entries && now < entries[key].expiresAt
    }

    /** GET: the live value under `key`, if any. */
    function Get(key: string): (r: Option<V>)
      ensures r.Some? <==> Live(key)
      ensures r.Some? ==> r.value == entries[key].value
    {
      if Live(key) then Some(entries[key].value) else None
    }

    /** TTL: the remaining lifetime in seconds of a live key, -2 for any other. */
    function Ttl(key: string): (t: int)
      ensures Live(key) <==> t > 0
      ensures Live(key) ==> now + t == entries[key].expiresAt
      ensures !Live(key) ==> t == MissingKeyTtl
    {
      if Live(key) then entries[key].expiresAt - now else MissingKeyTtl
    }

    /** SET key value EX seconds: overwrite `key`, resetting its lifetime. Redis
        refuses an expiry that is not positive. */
    function Set(key: string, value: V, seconds: nat): (s: Store<V>)
      requires seconds > 0
      ensures s.Get(key) == Some(value) && s.Ttl(key) == seconds
      ensures s.now == now
      ensures s.entries - {key} == entries - {key}
    {
      Store(entries[key := Entry(value, now + seconds)], now)
    }

    /** DEL key: afterwards nothing is stored under `key`. */
    function Del(key: string): (s: Store<V>)
      ensures key !in s.entries && s.Get(key) == None
      ensures s.now == now
      ensures s.entries == entries - {key}
    {
      Store(entries - {key}, now)
    }

    /** The passage of `seconds` seconds. */
    function Advance(seconds: nat): (s: Store<V>)
      ensures s.entries == entries && s.now == now + seconds
      ensures forall key :: s.Live(key) ==> Live(key) && s.Ttl(key) == Ttl(key) - seconds
    {
      Store(entries, now + seconds)
    }
  }

  /** Two stores agree on `key`: the same live value with the same TTL. */
  ghost predicate SameAt<V>(s: Store<V>, t: Store<V>, key: string) {
    s.Get(key) == t.Get(key) && s.Ttl(key) == t.Ttl(key)
  }

  /** A write to one key is invisible at every other key. */
  lemma OtherKeysUnaffected<V>(s: Store<V>, t: Store<V>, written: string, key: string)
    requires t.now == s.now && t.entries - {written} == s.entries - {written}
    requires key != written
    ensures SameAt(s, t, key)
  {
    assert key in t.entries <==> key in (t.entries - {written});
    assert key in s.entries <==> key in (s.entries - {written});
    if key in s.entries {
      assert s.entries[key] == (s.entries - {written})[key];
      assert t.entries[key] == (t.entries - {written})[key];
    }
  }

  /** The connection the application holds: a mutable handle on the server state. */
  class Redis<V> {
    var entries: map<string, Entry<V>>
    var now: int

    function State(): (s: Store<V>)
      reads this
    {
      Store(entries, now)
    }

    constructor (start: int)
      ensures State() == Store(map[], start)
    {
      entries, now := map[], start;
    }

    method Get(key: string) returns (r: Option<V>)
      ensures r == State().Get(key)
    {
      r := State().Get(key);
    }

    method Ttl(key: string) returns (t: int)
      ensures t == State().Ttl(key)
    {
      t := State().Ttl(key);
    }

    method Set(key: string, value: V, seconds: nat)
      requires seconds > 0
      modifies this
      ensures State() == old(State()).Set(key, value, seconds)
    {
      entries := entries[key := Entry(value, now + seconds)];
    }

    method Del(key: string)
      modifies this
      ensures State() == old(State()).Del(key)
    {
      entries := entries - {key};
    }
  }
}
