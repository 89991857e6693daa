# Aging dictionary

A model of `RNBranchAgingDictionary`, the key-to-object dictionary of the
Branch React Native bridge whose entries age out. It copies the surface of
`NSMutableDictionary` — store, read and remove, each in a method and (for
store and read) a subscript spelling — and adds one container-wide, read-only
time-to-live `ttl`. An entry is visible only while it is younger than `ttl`.

Time is made explicit. Every store and read takes the current instant `now`
(an integer tick count), and every entry is kept as `(value, insertedAt)`.
The state is the immutable record `Dictionary(ttl, entries)`. The operations
are pure functions from state to state; a read returns the object it found
(or `None`, the model of `nil`) together with the state after the read.

Files:
- `wrappers.dfy`: `Option`.
- `aging_dictionary.dfy`: module `AgingDictionary` with the state, the
  liveness rule, the two constructors, store, read, remove, and lemmas about
  single calls.
- `traces.dfy`: module `Traces` with sequences of calls, a reference meaning
  built from each key's history of stores and removals, and the inductive
  lemmas that connect the two.

Only the class interface (`ios/RNBranchAgingDictionary.h`) is part of this
model; the implementation file `RNBranchAgingDictionary.m` is not. Three
behaviours the interface does not show are therefore ASSUMPTIONS of the model:
- the age: an entry's age is counted from the store that created it, and a
  read does not restamp a live entry (an aging cache that refreshes on access
  would answer differently, for instance in `ExampleTimeline`);
- the boundary: an entry whose age equals `ttl` is expired (live means
  `now - insertedAt < ttl`);
- a read that finds an expired entry evicts it from the mapping before
  returning `None`.

A negative `ttl` is accepted, as the interface's `NSTimeInterval` parameter
allows; no rejection is visible there, and failing fast on a negative `ttl`
is not modelled. `NonPositiveTtlHidesEverything` shows that with `ttl <= 0`
a stored object is not read back by a read made directly after its store,
at or after the store's instant; `Traces.ReadMatchesHistory` extends this to
any read after a whole trace.

## Model

| member | source | states |
|---|---|---|
| AgingDictionary.InitWithTtl | ios/RNBranchAgingDictionary.h:13-17 | the new dictionary has exactly the `ttl` passed in and no key is visible at any instant |
| AgingDictionary.DictionaryWithTtl | ios/RNBranchAgingDictionary.h:19 | the class convenience constructor is empty, keeps the given `ttl`, and yields the same state as `initWithTtl:` |
| AgingDictionary.SetObjectForKey | ios/RNBranchAgingDictionary.h:23 | after a store of `v` at `now`, the key reads `v` at every instant `t` with `t - now < ttl` and nothing otherwise; every other key reads as before at every instant; `ttl` is unchanged |
| AgingDictionary.SetObjectForKeyedSubscript | ios/RNBranchAgingDictionary.h:24 | the subscript store has exactly the effect of `setObject:forKey:` |
| AgingDictionary.ObjectForKey | ios/RNBranchAgingDictionary.h:26 | a read returns the object exactly while the key's entry is live; reading an absent or live key leaves the state as it was; an expired entry is evicted; no other entry is touched, nothing becomes visible that was not, and `ttl` is unchanged |
| AgingDictionary.ObjectForKeyedSubscript | ios/RNBranchAgingDictionary.h:27 | the subscript read returns what `objectForKey:` returns and leaves the same state |
| AgingDictionary.RemoveObjectForKey | ios/RNBranchAgingDictionary.h:29 | after removal the key reads nothing at any instant; other keys read as before; removing an absent key changes nothing; `ttl` is unchanged |
| AgingDictionary.RemoveIdempotent | ios/RNBranchAgingDictionary.h:29 | removing a key twice is the same as removing it once |
| AgingDictionary.OverwriteRestartsAge | ios/RNBranchAgingDictionary.h:23 | a second store of a key replaces the object and the timestamp; the first store leaves no trace |
| AgingDictionary.ReadAfterSet | ios/RNBranchAgingDictionary.h:23-26 | right after a store, a read younger than `ttl` returns the stored object and changes nothing, however old an earlier store of the key was |
| AgingDictionary.ExpiredReadsLikeAbsent | ios/RNBranchAgingDictionary.h:26 | a read of an expired key gives the same answer (`nil`) and the same resulting state as a read of an absent key |
| AgingDictionary.ReadIdempotent | ios/RNBranchAgingDictionary.h:26 | reading a key twice at the same instant is the same as reading it once |
| AgingDictionary.NonPositiveTtlHidesEverything | ios/RNBranchAgingDictionary.h:13-17 | with `ttl <= 0`, a read made directly after a store, at or after its instant, does not return the stored object |
| AgingDictionary.ExampleTimeline | ios/RNBranchAgingDictionary.h:23-26 | with `ttl` 10: store at 0, read at 5 gives the object, read at 12 gives nothing and evicts, store again at 13, read at 14 gives the new object |
| Traces.RunKeepsTtl | ios/RNBranchAgingDictionary.h:13 | no sequence of stores, reads and removals changes `ttl` |
| Traces.RunAgreesWithHistory | ios/RNBranchAgingDictionary.h:23-29 | after any trace from a fresh dictionary with no call later than `now`, a key with no surviving store has no entry, and a key with one holds that store or was evicted because it had expired |
| Traces.ReadMatchesHistory | ios/RNBranchAgingDictionary.h:23-29 | after such a trace, a read of any key returns the object of its last store not cancelled by a removal, exactly when that store is younger than `ttl`, and `nil` otherwise |
| Traces.NeverStoredReadsNothing | ios/RNBranchAgingDictionary.h:26 | a key that no call of a trace from a fresh dictionary ever stored reads as `nil` |
| Traces.ReadYourWrite | ios/RNBranchAgingDictionary.h:23-26 | after a store at `at` followed by calls that never store or remove that key, with no read of that key later than `now`, a read at `now` with `now - at < ttl` returns the stored object |
| Traces.HeldEntrySurvives | ios/RNBranchAgingDictionary.h:23-29 | an entry live at `now` is kept unchanged by every call that neither stores nor removes its key, as long as no read of its key happens later than `now` |

## Left out

- Thread safety: the interface shows no synchronisation, and the model is sequential.
- Clock arithmetic with `NSTimeInterval` and `NSDate`: these are floating point and read the wall clock. Time is an integer tick passed in by the caller.
- Object lifecycle, `NSCopying` copying of keys, and object identity and hashing: keys are compared by value.
- AgingDictionary.SetObjectForKeyedSubscript: `nil` keys and `nil` objects are not modelled (keys and objects are always present values), and the interface does not show how this class treats them; the `NSMutableDictionary` behaviour it names, where `setObject:forKey:` raises on `nil` and the subscript store with a `nil` object removes the key, is therefore outside the model, and the equality of the two store spellings is stated only for non-`nil` arguments.
- Rejection of a negative `ttl` at construction: the interface shows none, so the model accepts any `ttl`.
- Traces.ReadMatchesHistory, Traces.RunAgreesWithHistory: they assume no call in the trace happens later than the final read; Traces.ReadYourWrite and Traces.HeldEntrySurvives assume this only of the reads of the key concerned. A clock set back can make a read evict an entry that an earlier instant would still see.
