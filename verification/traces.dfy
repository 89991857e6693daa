/**
  Sequences of calls on one dictionary. A trace is replayed from left to
  right; its reference meaning is the history of stores and removals of
  each key, independent of how the dictionary keeps its entries.
 */
module Traces {
  import opened Wrappers
  import opened AgingDictionary

  /** One call on the public surface. Stores and reads consult the clock;
      a removal does not. */
  datatype Op<K, V> =
    | SetOp(key: K, value: V, at: Time)
    | GetOp(key: K, at: Time)
    | RemoveOp(key: K)

  /** The state after one call (the object a read returns is dropped). */
  function Apply<K(!new), V>(d: Dictionary<K, V>, op: Op<K, V>): Dictionary<K, V>
  {
    match op
    case SetOp(k, v, at) => SetObjectForKey(d, k, v, at)
    case GetOp(k, at) => ObjectForKey(d, k, at).1
    case RemoveOp(k) => RemoveObjectForKey(d, k)
  }

  /** The state after replaying `ops` in order, starting from `d`. */
  function Run<K(!new), V>(d: Dictionary<K, V>, ops: seq<Op<K, V>>): Dictionary<K, V>
  {
    if |ops| == 0 then d else Apply(Run(d, ops[..|ops| - 1]), ops[|ops| - 1])
  }

  /** The clock never shows a later instant than `now` during the call. */
  predicate NotAfter<K, V>(op: Op<K, V>, now: Time)
  {
    match op
    case SetOp(_, _, at) => at <= now
    case GetOp(_, at) => at <= now
    case RemoveOp(_) => true
  }

  /** Every call of the trace happened no later than `now`. */
  predicate ClockNotAfter<K, V>(ops: seq<Op<K, V>>, now: Time)
  {
    forall i :: 0 <= i < |ops| ==> NotAfter(ops[i], now)
  }

  /** Every read of `k` in the trace happened no later than `now`; only such
      a read can evict the entry for `k`. */
  predicate ReadsNotAfter<K(==), V>(ops: seq<Op<K, V>>, k: K, now: Time)
  {
    forall i :: 0 <= i < |ops| && ops[i].GetOp? && ops[i].key == k ==> ops[i].at <= now
  }

  /** The call stores or removes `k`. */
  ghost predicate Writes<K, V>(op: Op<K, V>, k: K)
  {
    (op.SetOp? || op.RemoveOp?) && op.key == k
  }

  /** The last store of `k` that no later removal of `k` cancelled. */
  ghost function LastWrite<K, V>(ops: seq<Op<K, V>>, k: K): Option<Entry<V>>
  {
    if |ops| == 0 then None
    else
      match ops[|ops| - 1]
      case SetOp(k', v, at) => if k' == k then Some(Entry(v, at)) else LastWrite(ops[..|ops| - 1], k)
      case RemoveOp(k') => if k' == k then None else LastWrite(ops[..|ops| - 1], k)
      case GetOp(_, _) => LastWrite(ops[..|ops| - 1], k)
  }

  /** The reference answer of a read of `k` at `now` after `ops`: the object
      of the last surviving store, if that store is younger than `ttl`. */
  ghost function HistoryRead<K, V>(ttl: int, ops: seq<Op<K, V>>, k: K, now: Time): Option<V>
  {
    match LastWrite(ops, k)
    case None => None
    case Some(e) => if IsLive(e, ttl, now) then Some(e.value) else None
  }

  /** How the entry for `k` in `d` stands to the history: no surviving store
      means no entry; a surviving store is either still held as stored or
      was evicted by a read, which can only happen once it has expired. */
  ghost predicate AgreesWithHistory<K(!new), V>(d: Dictionary<K, V>, ops: seq<Op<K, V>>, k: K, now: Time)
  {
    match LastWrite(ops, k)
    case None => k !in d.entries
    case Some(e) => (k in d.entries && d.entries[k] == e) || (k !in d.entries && !IsLive(e, d.ttl, now))
  }

  /** No call changes the time-to-live fixed at construction. */
  lemma {:induction false} RunKeepsTtl<K(!new), V>(d: Dictionary<K, V>, ops: seq<Op<K, V>>)
    ensures Run(d, ops).ttl == d.ttl
  {
    if |ops| > 0 {
      RunKeepsTtl(d, ops[..|ops| - 1]);
    }
  }

  /** Replaying any trace whose calls all happened no later than `now` from
      a fresh dictionary leaves every key's entry in agreement with its
      history. */
  lemma {:induction false} RunAgreesWithHistory<K(!new), V>(ttl: int, ops: seq<Op<K, V>>, k: K, now: Time)
    requires ClockNotAfter(ops, now)
    ensures AgreesWithHistory(Run(InitWithTtl(ttl), ops), ops, k, now)
  {
    var d0: Dictionary<K, V> := InitWithTtl(ttl);
    if |ops| > 0 {
      var pre := ops[..|ops| - 1];
      var op := ops[|ops| - 1];
      assert ClockNotAfter(pre, now) by {
        forall i | 0 <= i < |pre| ensures NotAfter(pre[i], now) {
          assert pre[i] == ops[i];
        }
      }
      assert NotAfter(op, now);
      RunAgreesWithHistory(ttl, pre, k, now);
      RunKeepsTtl(d0, pre);
      var dp := Run(d0, pre);
      assert Run(d0, ops) == Apply(dp, op);
      match op
      case SetOp(k', v, at) =>
      case RemoveOp(k') =>
      case GetOp(k', at) =>
        if k' == k && k in dp.entries && !IsLive(dp.entries[k], dp.ttl, at) {
          assert !IsLive(dp.entries[k], dp.ttl, now);
        }
    }
  }

  /** A read after any such trace answers exactly what the history says:
      the last surviving store's object while it is younger than `ttl`,
      and nothing otherwise. */
  lemma ReadMatchesHistory<K(!new), V>(ttl: int, ops: seq<Op<K, V>>, k: K, now: Time)
    requires ClockNotAfter(ops, now)
    ensures ObjectForKey(Run(InitWithTtl(ttl), ops), k, now).0 == HistoryRead(ttl, ops, k, now)
  {
    RunAgreesWithHistory(ttl, ops, k, now);
    RunKeepsTtl(InitWithTtl<K, V>(ttl), ops);
  }

  /** A key that no call of the trace ever stored reads as nothing. */
  lemma {:induction false} NeverStoredReadsNothing<K(!new), V>(ttl: int, ops: seq<Op<K, V>>, k: K, now: Time)
    requires forall i :: 0 <= i < |ops| ==> !(ops[i].SetOp? && ops[i].key == k)
    ensures ObjectForKey(Run(InitWithTtl(ttl), ops), k, now).0 == None
  {
    var d0: Dictionary<K, V> := InitWithTtl(ttl);
    if |ops| > 0 {
      var pre := ops[..|ops| - 1];
      assert forall i :: 0 <= i < |pre| ==> pre[i] == ops[i];
      NeverStoredReadsNothing(ttl, pre, k, now);
      RunKeepsTtl(d0, pre);
      var dp := Run(d0, pre);
      assert k !in dp.entries || !IsLive(dp.entries[k], ttl, now);
    }
  }

  /** Read-your-write over a trace: once `k` is stored at `at`, and no later
      call stores or removes `k`, a read at any `now` with `now - at < ttl`
      returns the stored object, provided no read of `k` came later than
      `now`. */
  lemma {:induction false} ReadYourWrite<K(!new), V>(d: Dictionary<K, V>, k: K, v: V, at: Time, ops: seq<Op<K, V>>, now: Time)
    requires forall i :: 0 <= i < |ops| ==> !Writes(ops[i], k)
    requires ReadsNotAfter(ops, k, now)
    requires now - at < d.ttl
    ensures ObjectForKey(Run(SetObjectForKey(d, k, v, at), ops), k, now).0 == Some(v)
  {
    HeldEntrySurvives(SetObjectForKey(d, k, v, at), k, Entry(v, at), ops, now);
  }

  /** The invariant behind read-your-write: an entry that is live at `now`
      survives every call that neither stores nor removes its key, as long
      as no read of its key happens later than `now`. */
  lemma {:induction false} HeldEntrySurvives<K(!new), V>(d: Dictionary<K, V>, k: K, e: Entry<V>, ops: seq<Op<K, V>>, now: Time)
    requires k in d.entries && d.entries[k] == e && IsLive(e, d.ttl, now)
    requires forall i :: 0 <= i < |ops| ==> !Writes(ops[i], k)
    requires ReadsNotAfter(ops, k, now)
    ensures Run(d, ops).ttl == d.ttl
    ensures k in Run(d, ops).entries && Run(d, ops).entries[k] == e
  {
    if |ops| > 0 {
      var pre := ops[..|ops| - 1];
      var op := ops[|ops| - 1];
      assert forall i :: 0 <= i < |pre| ==> pre[i] == ops[i];
      assert !Writes(op, k);
      assert op.GetOp? && op.key == k ==> op.at <= now;
      HeldEntrySurvives(d, k, e, pre, now);
    }
  }
}
