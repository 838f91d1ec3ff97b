/**
 * The key-value cache behind `cacheManager` (a Redis store): each entry holds a value and
 * the instant, in milliseconds, at which its time to live runs out.
 */
module Cache {
  import opened Wrappers
  import opened Errors

  datatype Entry = Entry(value: int, expiresAt: int)

  /** What `get` sees at `nowMs`: the value of an entry whose time to live has not run out. */
  function Lookup(entries: map<string, Entry>, key: string, nowMs: int): (r: Option<int>)
    ensures r.Some? <==> key in entries && nowMs < entries[key].expiresAt
    ensures r.Some? ==> r.value == entries[key].value
  {
    if key in entries && nowMs < entries[key].expiresAt then Some(entries[key].value) else None
  }

  /** A write the store refused, for instance because the connection is down. */
  const StoreUnavailable: Failure := Crash("cache store unavailable")

  class Cache {
    var entries: map<string, Entry>

    constructor ()
      ensures entries == map[]
    {
      entries := map[];
    }

    /** `get(key)` at `nowMs`. */
    function Get(key: string, nowMs: int): Option<int>
      reads this
    {
      Lookup(entries, key, nowMs)
    }

    /**
     * `set(key, value, ttl)` at `nowMs` with a positive `ttl` in milliseconds: the entry
     * replaces any previous one at `key`. `fails` stands for a store that refuses the write.
     */
    method Set(key: string, value: int, ttl: int, nowMs: int, fails: bool) returns (r: Result<(), Failure>)
      requires 0 < ttl
      modifies this
      ensures fails ==> r == Err(StoreUnavailable) && entries == old(entries)
      ensures !fails ==> r == Ok(()) && entries == old(entries)[key := Entry(value, nowMs + ttl)]
    {
      if fails {
        r := Err(StoreUnavailable);
      } else {
        entries := entries[key := Entry(value, nowMs + ttl)];
        r := Ok(());
      }
    }
  }
}
