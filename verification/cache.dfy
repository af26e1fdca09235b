/** The process-wide in-memory cache with a five-minute time to live (src/lib/cache.ts).
    The clock is an explicit `now` in milliseconds, and the module-level map is threaded
    through as a value. */
module Cache {
  import opened Opt

  /** Five minutes, in milliseconds. */
  const DefaultTtl: int := 5 * 60 * 1000

  datatype Entry<T> = Entry(data: T, timestamp: int)

  type Store<T> = map<string, Entry<T>>

  /** The answer of a read together with the store it leaves behind. */
  datatype Read<T> = Read(value: Option<T>, store: Store<T>)

  /** An entry is served only while strictly younger than the time to live. */
  predicate Fresh<T>(e: Entry<T>, now: int) {
    now - e.timestamp < DefaultTtl
  }

  /** `getFromCache`: a fresh entry's data; otherwise nothing, dropping an expired entry. */
  function Get<T>(store: Store<T>, key: string, now: int): (r: Read<T>)
    ensures r.value.Some? <==> key in store && Fresh(store[key], now)
    ensures r.value.Some? ==> r.value.value == store[key].data
    ensures r.store.Keys <= store.Keys
    ensures r.value.None? ==> key !in r.store
    ensures forall k :: k in r.store ==> r.store[k] == store[k]
    ensures forall k :: k != key ==> (k in r.store <==> k in store)
  {
    if key in store && Fresh(store[key], now) then Read(Some(store[key].data), store)
    else if key in store then Read(None, store - {key})
    else Read(None, store)
  }

  /** `setInCache`: stores `data` under `key`, stamped with `now`. */
  function Set<T>(store: Store<T>, key: string, data: T, now: int): (r: Store<T>)
    ensures r.Keys == store.Keys + {key}
    ensures forall k :: k in store && k != key ==> r[k] == store[k]
  {
    store[key := Entry(data, now)]
  }

  /** A read at the instant of a write returns the value just written. */
  lemma GetAfterSet<T>(store: Store<T>, key: string, data: T, now: int)
    ensures Get(Set(store, key, data, now), key, now).value == Some(data)
  {
  }

  /** Nothing is served once `now - timestamp` reaches the time to live, nor for a missing key. */
  lemma ExpiredOrMissingIsAbsent<T>(store: Store<T>, key: string, now: int)
    requires key !in store || now - store[key].timestamp >= DefaultTtl
    ensures Get(store, key, now).value == None
  {
  }

  /** An expired read evicts the key, so a second read finds no entry at all. */
  lemma ExpiredReadEvicts<T>(store: Store<T>, key: string, now: int, later: int)
    requires key in store && now - store[key].timestamp >= DefaultTtl
    ensures key !in Get(store, key, now).store
    ensures Get(Get(store, key, now).store, key, later) == Read(None, Get(store, key, now).store)
  {
  }

  /** A fresh read leaves the store exactly as it was. */
  lemma FreshReadKeepsStore<T>(store: Store<T>, key: string, now: int)
    requires key in store && Fresh(store[key], now)
    ensures Get(store, key, now).store == store
  {
  }

  /** A write overrides any earlier entry and restarts its lifetime. */
  lemma SetOverwrites<T>(store: Store<T>, key: string, previous: T, data: T, t0: int, now: int)
    ensures Set(Set(store, key, previous, t0), key, data, now) == Set(store, key, data, now)
    ensures Set(store, key, data, now)[key] == Entry(data, now)
  {
  }

  /** Reads and writes on one key never disturb the entry of another key. */
  lemma OtherKeysUntouched<T>(store: Store<T>, key: string, other: string, data: T, now: int)
    requires other != key
    ensures other in Get(store, key, now).store <==> other in store
    ensures other in store ==> Get(store, key, now).store[other] == store[other]
    ensures other in Set(store, key, data, now) <==> other in store
    ensures other in store ==> Set(store, key, data, now)[other] == store[other]
  {
  }

  // ---------------------------------------------------------------------------------
  // Traces: no stale data is ever served.

  datatype Op<T> = ReadOp(key: string, at: int) | WriteOp(key: string, data: T, at: int)

  /** Applies one operation to the store. */
  function Apply<T>(store: Store<T>, op: Op<T>): Store<T> {
    match op
    case ReadOp(k, t) => Get(store, k, t).store
    case WriteOp(k, d, t) => Set(store, k, d, t)
  }

  /** The store after running `ops` from an empty cache. */
  function Replay<T>(ops: seq<Op<T>>): Store<T> {
    if ops == [] then map[] else Apply(Replay(ops[..|ops| - 1]), ops[|ops| - 1])
  }

  /** The most recent write to `key` in `ops`, as the entry it created. */
  function LastWrite<T>(ops: seq<Op<T>>, key: string): Option<Entry<T>> {
    if ops == [] then None
    else match ops[|ops| - 1]
      case WriteOp(k, d, t) => if k == key then Some(Entry(d, t)) else LastWrite(ops[..|ops| - 1], key)
      case ReadOp(_, _) => LastWrite(ops[..|ops| - 1], key)
  }

  /** The operations happen at non-decreasing times, all no later than `now`. */
  ghost predicate Chronological<T>(ops: seq<Op<T>>, now: int) {
    && (forall i, j :: 0 <= i < j < |ops| ==> ops[i].at <= ops[j].at)
    && (forall i :: 0 <= i < |ops| ==> ops[i].at <= now)
  }

  /** What the store holds after a trace: each present entry is the last write to its key, and
      a key whose last write is gone was evicted by a read at which that write had expired. */
  ghost predicate Tracks<T>(store: Store<T>, ops: seq<Op<T>>, now: int) {
    forall k :: (k in store ==> LastWrite(ops, k) == Some(store[k]))
      && (k !in store && LastWrite(ops, k).Some? ==> !Fresh(LastWrite(ops, k).value, now))
  }

  lemma {:induction false} ReplayTracks<T>(ops: seq<Op<T>>, now: int)
    requires Chronological(ops, now)
    ensures Tracks(Replay(ops), ops, now)
  {
    if ops != [] {
      var init := ops[..|ops| - 1];
      var op := ops[|ops| - 1];
      assert Chronological(init, op.at);
      ReplayTracks(init, op.at);
      var before := Replay(init);
      forall k
        ensures k in Replay(ops) ==> LastWrite(ops, k) == Some(Replay(ops)[k])
        ensures k !in Replay(ops) && LastWrite(ops, k).Some? ==> !Fresh(LastWrite(ops, k).value, now)
      {
        if LastWrite(init, k).Some? && k !in before {
          assert !Fresh(LastWrite(init, k).value, op.at);
        }
      }
    }
  }

  /** Replaying any chronological trace, a read serves exactly the most recent write to its
      key, and only while that write is younger than the time to live. */
  lemma {:induction false} ReadServesLastFreshWrite<T>(ops: seq<Op<T>>, key: string, now: int)
    requires Chronological(ops, now)
    ensures Get(Replay(ops), key, now).value ==
      (match LastWrite(ops, key)
       case Some(e) => if Fresh(e, now) then Some(e.data) else None
       case None => None)
  {
    ReplayTracks(ops, now);
  }
}
