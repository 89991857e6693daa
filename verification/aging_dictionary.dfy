/**
  A key-to-object dictionary whose entries age out after one container-wide
  time-to-live. Time is explicit: every operation that consults the clock
  takes the current instant `now` as a parameter, and every entry remembers
  the instant at which it was stored.

  Three details are assumptions of this model, not something the declared
  interface shows:
  - an entry's age is counted from the store that created it; a read does
    not restamp a live entry;
  - an entry whose age equals the time-to-live is expired (live means
    `now - insertedAt < ttl`);
  - a read that finds an expired entry evicts it before returning `None`.
 */
module AgingDictionary {
  import opened Wrappers

  /** An instant, in clock ticks. Signed: the wall clock may be set back. */
  type Time = int

  /** A stored object together with the instant it was stored. */
  datatype Entry<V> = Entry(value: V, insertedAt: Time)

  /** The whole state: the fixed time-to-live and the underlying mapping. */
  datatype Dictionary<K, V> = Dictionary(ttl: int, entries: map<K, Entry<V>>)

  /** The liveness rule: an entry is live while its age is below `ttl`. */
  predicate IsLive<V>(e: Entry<V>, ttl: int, now: Time)
  {
    now - e.insertedAt < ttl
  }

  /** What a caller can observe for `k` at `now`: the object while its entry
      is live, otherwise nothing. Present-but-expired and absent look alike. */
  function Visible<K(!new), V>(d: Dictionary<K, V>, k: K, now: Time): Option<V>
  {
    if k in d.entries && IsLive(d.entries[k], d.ttl, now) then Some(d.entries[k].value) else None
  }

  /** `initWithTtl:` — the designated initializer. */
  function InitWithTtl<K(!new), V>(ttl: int): (d: Dictionary<K, V>)
    ensures d.ttl == ttl
    ensures forall k, t :: Visible(d, k, t) == None
  {
    Dictionary(ttl, map[])
  }

  /** `dictionaryWithTtl:` — the class convenience constructor. */
  function DictionaryWithTtl<K(!new), V>(ttl: int): (d: Dictionary<K, V>)
    ensures d.ttl == ttl
    ensures forall k, t :: Visible(d, k, t) == None
    ensures d == InitWithTtl(ttl)
  {
    InitWithTtl(ttl)
  }

  /** `setObject:forKey:` — insert or overwrite, stamped with `now`. */
  function SetObjectForKey<K(!new), V>(d: Dictionary<K, V>, k: K, v: V, now: Time): (r: Dictionary<K, V>)
    ensures r.ttl == d.ttl
    ensures forall t :: Visible(r, k, t) == if t - now < d.ttl then Some(v) else None
    ensures forall k', t :: k' != k ==> Visible(r, k', t) == Visible(d, k', t)
  {
    Dictionary(d.ttl, d.entries[k := Entry(v, now)])
  }

  /** `setObject:forKeyedSubscript:` — the subscript spelling of a store. */
  function SetObjectForKeyedSubscript<K(!new), V>(d: Dictionary<K, V>, k: K, v: V, now: Time): (r: Dictionary<K, V>)
    ensures r == SetObjectForKey(d, k, v, now)
    ensures r.ttl == d.ttl
    ensures forall t :: Visible(r, k, t) == if t - now < d.ttl then Some(v) else None
  {
    SetObjectForKey(d, k, v, now)
  }

  /** `objectForKey:` — the object stored for `k` if its entry is still live;
      the second component is the state after the read, which has lost the
      entry for `k` if that entry was found expired. */
  function ObjectForKey<K(!new), V>(d: Dictionary<K, V>, k: K, now: Time): (r: (Option<V>, Dictionary<K, V>))
    ensures r.0 == Visible(d, k, now)
    ensures r.1.ttl == d.ttl
    // a read of an absent or live entry leaves the state as it was
    ensures k !in d.entries || IsLive(d.entries[k], d.ttl, now) ==> r.1 == d
    // an expired entry is gone after the read that found it
    ensures k in d.entries && !IsLive(d.entries[k], d.ttl, now) ==> k !in r.1.entries
    // no other entry is touched
    ensures r.1.entries - {k} == d.entries - {k}
    // a read never makes anything visible that was not visible before
    ensures forall k', t :: Visible(r.1, k', t).Some? ==> Visible(r.1, k', t) == Visible(d, k', t)
    ensures forall k', t :: k' != k ==> Visible(r.1, k', t) == Visible(d, k', t)
  {
    if k !in d.entries then
      (None, d)
    else if IsLive(d.entries[k], d.ttl, now) then
      (Some(d.entries[k].value), d)
    else
      (None, Dictionary(d.ttl, d.entries - {k}))
  }

  /** `objectForKeyedSubscript:` — the subscript spelling of a read. */
  function ObjectForKeyedSubscript<K(!new), V>(d: Dictionary<K, V>, k: K, now: Time): (r: (Option<V>, Dictionary<K, V>))
    ensures r == ObjectForKey(d, k, now)
    ensures r.0 == Visible(d, k, now)
  {
    ObjectForKey(d, k, now)
  }

  /** `removeObjectForKey:` — drop any entry for `k`, live or expired. */
  function RemoveObjectForKey<K(!new), V>(d: Dictionary<K, V>, k: K): (r: Dictionary<K, V>)
    ensures r.ttl == d.ttl
    ensures k !in r.entries
    ensures forall t :: Visible(r, k, t) == None
    ensures forall k', t :: k' != k ==> Visible(r, k', t) == Visible(d, k', t)
    ensures k !in d.entries ==> r == d
  {
    Dictionary(d.ttl, d.entries - {k})
  }

  /** Removing twice is removing once. */
  lemma RemoveIdempotent<K(!new), V>(d: Dictionary<K, V>, k: K)
    ensures RemoveObjectForKey(RemoveObjectForKey(d, k), k) == RemoveObjectForKey(d, k)
  {
  }

  /** A second store of the same key replaces the object and restarts its
      age: the earlier store leaves no trace. */
  lemma OverwriteRestartsAge<K(!new), V>(d: Dictionary<K, V>, k: K, v1: V, t1: Time, v2: V, t2: Time)
    ensures SetObjectForKey(SetObjectForKey(d, k, v1, t1), k, v2, t2) == SetObjectForKey(d, k, v2, t2)
  {
  }

  /** Read-your-write: directly after a store, and while younger than `ttl`,
      the key reads back the stored object, however old an earlier store of
      the same key was. */
  lemma ReadAfterSet<K(!new), V>(d: Dictionary<K, V>, k: K, v: V, at: Time, now: Time)
    requires now - at < d.ttl
    ensures ObjectForKey(SetObjectForKey(d, k, v, at), k, now) == (Some(v), SetObjectForKey(d, k, v, at))
  {
  }

  /** An entry found expired reads exactly like an absent one: same answer,
      same state afterwards. The caller cannot tell the two apart. */
  lemma ExpiredReadsLikeAbsent<K(!new), V>(d: Dictionary<K, V>, k: K, now: Time)
    requires k in d.entries && !IsLive(d.entries[k], d.ttl, now)
    ensures ObjectForKey(d, k, now) == ObjectForKey(RemoveObjectForKey(d, k), k, now)
    ensures ObjectForKey(d, k, now).0 == None
  {
  }

  /** Reading twice at the same instant is reading once. */
  lemma ReadIdempotent<K(!new), V>(d: Dictionary<K, V>, k: K, now: Time)
    ensures ObjectForKey(ObjectForKey(d, k, now).1, k, now) == ObjectForKey(d, k, now)
  {
  }

  /** With a time-to-live of zero or less, a read made directly after a
      store, at or after the store's instant, does not return the stored
      object. */
  lemma NonPositiveTtlHidesEverything<K(!new), V>(d: Dictionary<K, V>, k: K, v: V, at: Time, now: Time)
    requires d.ttl <= 0 && at <= now
    ensures ObjectForKey(SetObjectForKey(d, k, v, at), k, now).0 == None
  {
  }

  /** A worked timeline with a time-to-live of 10 ticks: store "a" at 0, it
      reads back at 5, is gone at 12, is stored again at 13 and reads back
      the new object at 14. */
  lemma ExampleTimeline()
    ensures var d0 := SetObjectForKey(InitWithTtl<string, int>(10), "a", 1, 0);
            var r1 := ObjectForKey(d0, "a", 5);
            var r2 := ObjectForKey(r1.1, "a", 12);
            var d3 := SetObjectForKey(r2.1, "a", 2, 13);
            r1.0 == Some(1) && r2.0 == None && "a" !in r2.1.entries && ObjectForKey(d3, "a", 14).0 == Some(2)
  {
  }
}
