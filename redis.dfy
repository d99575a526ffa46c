/**
 * The part of Redis the gateway uses: string keys with an optional expiry,
 * integer counters, and the commands SET, EXPIRE, INCR, GET and MGET.
 *
 * Expiry is kept as an absolute deadline in milliseconds on the same clock as
 * the `now` the callers pass in; a key whose deadline has passed reads as
 * missing.
 */
module Redis {
  import opened Wrappers

  /** A stored string and, once EXPIRE has been applied, the instant it lapses. */
  datatype Entry = Entry(value: string, deadline: Option<int>)

  /** EXPIRE counts seconds; the clock counts milliseconds. */
  const MS_PER_SECOND := 1000

  /** The key is stored and its deadline, if it has one, has not been passed at `now`. */
  predicate Live(entries: map<string, Entry>, key: string, now: int) {
    key in entries && (entries[key].deadline.None? || now <= entries[key].deadline.value)
  }

  /** GET: the stored string of a live key, `None` (Redis nil) otherwise. */
  function Lookup(entries: map<string, Entry>, key: string, now: int): Option<string> {
    if Live(entries, key, now) then Some(entries[key].value) else None
  }

  /** The value INCR starts from: a counter never incremented reads as 0. */
  function CounterValue(counters: map<string, int>, name: string): int {
    if name in counters then counters[name] else 0
  }

  /** The replies of a multi-key GET, one per key in order. */
  function Values(entries: map<string, Entry>, keys: seq<string>, now: int): (vs: seq<Option<string>>)
    ensures |vs| == |keys|
    ensures forall i :: 0 <= i < |keys| ==> vs[i] == Lookup(entries, keys[i], now)
  {
    if keys == [] then [] else [Lookup(entries, keys[0], now)] + Values(entries, keys[1..], now)
  }

  /**
   * MGET: Redis refuses the command without keys (wrong number of
   * arguments), otherwise it answers one reply per key.
   */
  function MGet(entries: map<string, Entry>, keys: seq<string>, now: int): (r: Option<seq<Option<string>>>)
    ensures r.Some? <==> keys != []
    ensures r.Some? ==> |r.value| == |keys|
    ensures r.Some? ==> forall i :: 0 <= i < |keys| ==> r.value[i] == Lookup(entries, keys[i], now)
  {
    if keys == [] then None else Some(Values(entries, keys, now))
  }

  class Store {
    var entries: map<string, Entry>
    var counters: map<string, int>

    constructor ()
      ensures entries == map[] && counters == map[]
    {
      entries := map[];
      counters := map[];
    }

    /** SET: stores the value and drops any expiry the key had. */
    method Set(key: string, value: string)
      modifies this
      ensures entries == old(entries)[key := Entry(value, None)]
      ensures counters == old(counters)
    {
      entries := entries[key := Entry(value, None)];
    }

    /** EXPIRE: gives a live key a deadline `seconds` from `now`; a missing key is left missing. */
    method Expire(key: string, seconds: nat, now: int)
      modifies this
      ensures old(Live(entries, key, now)) ==>
        entries == old(entries)[key := Entry(old(entries)[key].value, Some(now + seconds * MS_PER_SECOND))]
      ensures !old(Live(entries, key, now)) ==> entries == old(entries)
      ensures counters == old(counters)
    {
      if Live(entries, key, now) {
        entries := entries[key := Entry(entries[key].value, Some(now + seconds * MS_PER_SECOND))];
      }
    }

    /** INCR: adds one to the counter (from 0 if absent) and returns the new value. */
    method Incr(name: string) returns (n: int)
      modifies this
      ensures n == old(CounterValue(counters, name)) + 1
      ensures counters == old(counters)[name := n]
      ensures entries == old(entries)
    {
      n := CounterValue(counters, name) + 1;
      counters := counters[name := n];
    }
  }
}
