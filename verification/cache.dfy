/** `MemoryCache` of app.py: a dictionary from key to (timestamp, value)
    whose lookups succeed while the entry is younger than the time-to-live.
    The clock `time.time()` is an explicit `now` parameter. */
module Cache {
  import opened Results

  datatype Entry<V> = Entry(ts: real, value: V)

  datatype MemoryCache<V> = MemoryCache(ttl: int, data: map<string, Entry<V>>)

  /** A fresh cache: `MemoryCache(ttl_seconds)`. */
  function Empty<V>(ttl: int): (c: MemoryCache<V>)
    ensures c.ttl == ttl && c.data == map[]
  {
    MemoryCache(ttl, map[])
  }

  /** `get`: the stored value when the key was set and strictly less than
      `ttl` seconds have passed since; nothing otherwise. */
  function Get<V>(c: MemoryCache<V>, key: string, now: real): (r: Option<V>)
    ensures r.Some? <==> key in c.data && now - c.data[key].ts < c.ttl as real
    ensures r.Some? ==> r.value == c.data[key].value
  {
    if key in c.data && now - c.data[key].ts < c.ttl as real then Some(c.data[key].value) else None
  }

  /** `set`: stamps the value with `now` under its key. Other keys keep their
      entries, and no key is ever dropped. */
  function Set<V>(c: MemoryCache<V>, key: string, value: V, now: real): (c': MemoryCache<V>)
    ensures c'.ttl == c.ttl
    ensures c'.data.Keys == c.data.Keys + {key}
    ensures c'.data[key] == Entry(now, value)
    ensures forall k :: k in c.data && k != key ==> c'.data[k] == c.data[k]
  {
    MemoryCache(c.ttl, c.data[key := Entry(now, value)])
  }

  /** A value set at `t0` is returned exactly while `now - t0 < ttl`. */
  lemma GetAfterSet<V>(c: MemoryCache<V>, key: string, value: V, t0: real, now: real)
    ensures Get(Set(c, key, value, t0), key, now) == (if now - t0 < c.ttl as real then Some(value) else None)
  {
  }

  /** Setting one key does not change what any other key returns. */
  lemma SetLeavesOtherKeys<V>(c: MemoryCache<V>, key: string, other: string, value: V, t0: real, now: real)
    requires other != key
    ensures Get(Set(c, key, value, t0), other, now) == Get(c, other, now)
  {
  }

  /** Once an entry has expired it stays expired until it is set again. */
  lemma ExpiryIsPermanent<V>(c: MemoryCache<V>, key: string, now: real, later: real)
    requires later >= now
    requires key in c.data && Get(c, key, now).None?
    ensures Get(c, key, later).None?
  {
  }
}
