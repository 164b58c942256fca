/** The expiring key-value store behind the session cache, as the two Redis
    commands the services use see it: SETEX writes a value with a time to
    live, GET reads it back until it expires. Time is in milliseconds. */
module Redis {
  import opened Wrappers
  import Utf8

  /** A stored value and the last instant at which it is alive: Redis counts a
      key as expired only once the clock is past this instant. */
  datatype Entry = Entry(value: seq<Utf8.byte>, expiresAt: int)

  type Store = map<string, Entry>

  /** GET: the bytes under `key` if they are still alive at `now`. Reading does
      not touch the entry, so expiry is not sliding. This is the definition of
      what the store holds; SETEX below is stated through it. */
  function Get(store: Store, key: string, now: int): Option<seq<Utf8.byte>>
  {
    if key in store && now <= store[key].expiresAt then Some(store[key].value) else None
  }

  /** SETEX: the client encodes the string value as UTF-8; the entry replaces
      whatever was under `key` and lives for `ttlSeconds` from `now`. */
  function Setex(store: Store, key: string, ttlSeconds: nat, value: string, now: int): (r: Store)
    requires ttlSeconds > 0
    ensures r.Keys == store.Keys + {key}
    ensures forall t :: Get(r, key, t) == (if t <= now + ttlSeconds * 1000 then Some(Utf8.Encode(value)) else None)
    ensures forall k, t :: k != key ==> Get(r, k, t) == Get(store, k, t)
  {
    store[key := Entry(Utf8.Encode(value), now + ttlSeconds * 1000)]
  }
}
