/** The key/value store the extension server talks to (a Redis database
    opened with decoded string responses), reduced to what the handlers use:
    GET, SET, SETEX and the passage of time that makes TTL keys disappear. */
module Store {
  import opened Wrappers

  /** A stored string and, for a key written with a time-to-live, the last
      second (on the store's clock) at which the key can still be read. */
  datatype Entry = Entry(value: string, expiresAt: Option<int>)

  /** A key with a TTL is readable up to and including its expiry second;
      a key written without one never expires. */
  predicate Live(e: Entry, now: int)
    ensures e.expiresAt.None? ==> Live(e, now)
    ensures e.expiresAt.Some? && e.expiresAt.value < now ==> !Live(e, now)
  {
    e.expiresAt.None? || now <= e.expiresAt.value
  }

  /** Once expired, an entry stays expired as the clock moves on. */
  lemma ExpiredStaysExpired(e: Entry, now: int, later: int)
    requires !Live(e, now) && now <= later
    ensures !Live(e, later)
  {
  }

  /** GET: the value under `key`, or nothing when the key is absent or has
      expired. */
  function Lookup(entries: map<string, Entry>, now: int, key: string): (v: Option<string>)
    ensures v.Some? <==> key in entries && Live(entries[key], now)
    ensures v.Some? ==> v.value == entries[key].value
  {
    if key in entries && Live(entries[key], now) then Some(entries[key].value) else None
  }

  /** The store as a mutable object: its entries and its clock. */
  class TtlStore {
    var entries: map<string, Entry>
    var now: int

    /** A store holding `initial` at time `start`; which entries exist
        before the handlers run (block marks among them) is an input. */
    constructor (initial: map<string, Entry>, start: int)
      ensures entries == initial && now == start
    {
      entries := initial;
      now := start;
    }

    /** SET key value: stores `value` and drops any TTL the key had. */
    method Set(key: string, value: string)
      modifies this
      ensures entries == old(entries)[key := Entry(value, None)]
      ensures now == old(now)
    {
      entries := entries[key := Entry(value, None)];
    }

    /** SETEX key ttl value: stores `value`, readable for the next `ttl`
        seconds. */
    method SetEx(key: string, ttl: nat, value: string)
      requires ttl > 0
      modifies this
      ensures entries == old(entries)[key := Entry(value, Some(old(now) + ttl))]
      ensures now == old(now)
    {
      entries := entries[key := Entry(value, Some(now + ttl))];
    }

    /** Time passes; nothing is written. */
    method Advance(seconds: nat)
      modifies this
      ensures now == old(now) + seconds
      ensures entries == old(entries)
    {
      now := now + seconds;
    }
  }
}
