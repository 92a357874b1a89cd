/**
 What every operation of `cachine/backends/inmemory/cache.py` does to the state of the cache.
 Keys are effective keys (namespace prefix included).  The clock is one sample per operation, in
 seconds of the Unix epoch; a deadline beyond the last `datetime` raises.  Removal is stated on
 sets of keys, and eviction through the victim that the access table determines; module
 InMemoryCacheClass proves that the in-place code does the same.
 */
module InMemoryModel {
  import opened Wrappers
  import opened Values
  import opened Usage

  datatype Policy = NoPolicy | Tracking(kind: Kind, table: Table)

  datatype Config = Config(ns: string, maxSize: Option<int>)

  datatype Cache = Cache(
    store: map<string, Value>,
    ttl: map<string, Option<real>>,
    tagToKeys: map<string, set<string>>,
    keyToTags: map<string, set<string>>,
    policy: Policy)

  // ---- Helpers of the source ----

  function Tracked(p: Policy): set<string> {
    if p.NoPolicy? then {} else p.table.stats.Keys
  }

  function NoteAccess(p: Policy, k: string): (r: Policy)
    ensures Tracked(r) == if p.NoPolicy? then {} else Tracked(p) + {k}
  {
    if p.NoPolicy? then p else p.(table := Access(p.table, k))
  }

  function NoteRemove(p: Policy, ks: set<string>): (r: Policy)
    ensures Tracked(r) == Tracked(p) - ks
  {
    if p.NoPolicy? then p else p.(table := Forget(p.table, ks))
  }

  predicate Expired(c: Cache, k: string, now: real) {
    k in c.ttl && c.ttl[k].Some? && c.ttl[k].value <= now
  }

  function Pruned(index: map<string, set<string>>, ks: set<string>): map<string, set<string>> {
    map t | t in index && index[t] - ks != {} :: index[t] - ks
  }

  /** Every trace of the keys ks disappears; tags that lose their last key disappear too. */
  function RemoveKeys(c: Cache, ks: set<string>): (r: Cache)
    ensures r.store.Keys == c.store.Keys - ks
    ensures Tracked(r.policy) == Tracked(c.policy) - ks
  {
    Cache(
      c.store - ks,
      c.ttl - ks,
      Pruned(c.tagToKeys, ks),
      c.keyToTags - ks,
      NoteRemove(c.policy, ks))
  }

  function CleanupIfExpired(c: Cache, k: string, now: real): Cache {
    if Expired(c, k, now) then RemoveKeys(c, {k}) else c
  }

  /** `_evict_if_needed`: victims leave until the store fits or the policy tracks nothing. */
  ghost function EvictDownTo(c: Cache, max: int): Cache
    decreases Tracked(c.policy)
  {
    if |c.store| <= max || c.policy.NoPolicy? then c
    else
      match Victim(c.policy.kind, c.policy.table)
      case None => c
      case Some(v) =>
        // An empty effective key is falsy: it leaves the policy only, and ends the loop.
        if v == "" then c.(policy := NoteRemove(c.policy, {v}))
        else
          assert Tracked(RemoveKeys(c, {v}).policy) < Tracked(c.policy);
          EvictDownTo(RemoveKeys(c, {v}), max)
  }

  ghost function EvictIfNeeded(cfg: Config, c: Cache): Cache {
    if cfg.maxSize.None? then c else EvictDownTo(c, cfg.maxSize.value)
  }

  // ---- Operations ----

  function DoGet(c: Cache, k: string, now: real): (Cache, Out) {
    if k in c.store && !Expired(c, k, now)
    then (c.(policy := NoteAccess(c.policy, k)), Hit(c.store[k]))
    else (CleanupIfExpired(c, k, now), Missing)
  }

  /** The entry as `set` leaves it when its TTL is absent or positive, before eviction. */
  function Put(c: Cache, k: string, v: Value, until: Option<real>): (r: Cache)
    ensures r.store.Keys == c.store.Keys + {k}
  {
    c.(store := c.store[k := v], ttl := c.ttl[k := until], policy := NoteAccess(c.policy, k))
  }

  /** The end of `datetime.max`; `now + timedelta(seconds=ttl)` raises from there on. */
  const LATEST: real := 253402300800.0

  predicate Overflows(ttl: Option<int>, now: real) {
    ttl.Some? && ttl.value > 0 && now + ttl.value as real >= LATEST
  }

  /** When the deadline raises, the value is written already, and nothing else happens. */
  ghost function DoSet(cfg: Config, c: Cache, k: string, v: Value, ttl: Option<int>, now: real): Cache {
    if ttl.Some? && ttl.value <= 0 then RemoveKeys(c, {k})
    else if Overflows(ttl, now) then c.(store := c.store[k := v])
    else EvictIfNeeded(cfg, Put(c, k, v, Until(ttl, now)))
  }

  function SetOut(ttl: Option<int>, now: real): Out {
    if Overflows(ttl, now) then Raised else Done
  }

  function DoDelete(c: Cache, k: string): (Cache, Out) {
    (RemoveKeys(c, {k}), Flag(k in c.store))
  }

  function DoExists(c: Cache, k: string, now: real): (Cache, Out) {
    (CleanupIfExpired(c, k, now), Flag(k in c.store && !Expired(c, k, now)))
  }

  function InNamespace(c: Cache, ns: string): set<string> {
    set k | k in c.store && ns <= k
  }

  function DoClear(cfg: Config, c: Cache, all: bool): Cache {
    if cfg.ns != "" && !all then RemoveKeys(c, InNamespace(c, cfg.ns))
    else
      // A policy of any kind is replaced by a fresh recency policy, or dropped.
      var renewed := if cfg.maxSize.Some? && cfg.maxSize.value != 0 then Tracking(Recency, EMPTY) else NoPolicy;
      Cache(map[], map[], map[], map[], if c.policy.NoPolicy? then NoPolicy else renewed)
  }

  ghost function DoGetOrSet(cfg: Config, c: Cache, k: string, v: Value, ttl: Option<int>, now: real): (Cache, Out) {
    var (read, out) := DoGet(c, k, now);
    if out.Hit? then (read, out)
    else (DoSet(cfg, read, k, v, ttl, now), if Overflows(ttl, now) then Raised else Hit(v))
  }

  function DoExpire(c: Cache, k: string, ttl: int, now: real): (Cache, Out) {
    if k !in c.store then (c, Flag(false))
    else if ttl <= 0 then (RemoveKeys(c, {k}), Flag(true))
    else if Overflows(Some(ttl), now) then (c, Raised)
    else (c.(ttl := c.ttl[k := Some(now + ttl as real)]), Flag(true))
  }

  function DoExpireAt(c: Cache, k: string, when: real, now: real): (Cache, Out) {
    if k !in c.store then (c, Flag(false))
    else if when <= now then (RemoveKeys(c, {k}), Flag(true))
    else (c.(ttl := c.ttl[k := Some(when)]), Flag(true))
  }

  function DoTouch(c: Cache, k: string, ttl: Option<int>, now: real): (Cache, Out) {
    if ttl.None? then (c, Flag(k in c.store)) else DoExpire(c, k, ttl.value, now)
  }

  function DoTtl(c: Cache, k: string, now: real): (Cache, Out) {
    var c' := CleanupIfExpired(c, k, now);
    if k !in c'.ttl || c'.ttl[k].None? then (c', Remaining(None))
    else
      var left := Truncate(c'.ttl[k].value - now);
      (c', Remaining(if left >= 0 then Some(left) else None))
  }

  function DoPersist(c: Cache, k: string): (Cache, Out) {
    if k !in c.store then (c, Flag(false))
    else (c.(ttl := c.ttl[k := None]), Flag(k in c.ttl && c.ttl[k].Some?))
  }

  /** Neither notes an access nor evicts; ignores expiry. */
  function DoIncr(c: Cache, k: string, delta: int, ttlIfNew: Option<int>, now: real): (Cache, Out) {
    var current := if k in c.store then c.store[k].AsInt() else Some(0);
    if current.None? then (c, Raised)
    else
      var n := current.value + delta;
      var timed := k !in c.store && ttlIfNew.Some? && ttlIfNew.value > 0;
      if timed && Overflows(ttlIfNew, now) then (c.(store := c.store[k := Number(n)]), Raised)
      else
        var ttl := if timed then c.ttl[k := Some(now + ttlIfNew.value as real)] else c.ttl;
        (c.(store := c.store[k := Number(n)], ttl := ttl), Total(n))
  }

  /** The keys that carry at least one of the tags. */
  function Carriers(c: Cache, tags: set<string>): set<string> {
    set k | k in c.keyToTags && c.keyToTags[k] * tags != {}
  }

  function DoInvalidateTags(c: Cache, tags: set<string>): (Cache, Out) {
    (RemoveKeys(c, Carriers(c, tags)), Total(|Carriers(c, tags)|))
  }

  /** `index.get(x, set())` */
  function Lookup(index: map<string, set<string>>, x: string): set<string> {
    if x in index then index[x] else {}
  }

  /** The tag index after k joined every tag of the set. */
  function WithKey(index: map<string, set<string>>, k: string, tags: set<string>): map<string, set<string>> {
    map t | t in index.Keys + tags :: Lookup(index, t) + (if t in tags then {k} else {})
  }

  function DoAddTags(c: Cache, k: string, tags: set<string>): Cache {
    if k !in c.store then c
    else c.(tagToKeys := WithKey(c.tagToKeys, k, tags), keyToTags := c.keyToTags[k := Lookup(c.keyToTags, k) + tags])
  }

  // ---- Runs ----

  datatype Op =
    | Get(key: string)
    | Set(key: string, value: Value, ttl: Option<int>)
    | Delete(key: string)
    | Exists(key: string)
    | Clear(all: bool)
    | GetOrSet(key: string, value: Value, ttl: Option<int>)
    | Expire(key: string, seconds: int)
    | ExpireAt(key: string, when: real)
    | Touch(key: string, ttl: Option<int>)
    | Ttl(key: string)
    | Persist(key: string)
    | Incr(key: string, delta: int, ttl: Option<int>)
    | InvalidateTags(tags: seq<string>)
    | AddTags(key: string, tags: seq<string>)

  /** One call at time `now`; the key and the tags are prefixed with the namespace. */
  ghost function Step(cfg: Config, c: Cache, now: real, op: Op): (Cache, Out) {
    match op
    case Get(k) => DoGet(c, cfg.ns + k, now)
    case Set(k, v, ttl) => (DoSet(cfg, c, cfg.ns + k, v, ttl, now), SetOut(ttl, now))
    case Delete(k) => DoDelete(c, cfg.ns + k)
    case Exists(k) => DoExists(c, cfg.ns + k, now)
    case Clear(all) => (DoClear(cfg, c, all), Done)
    case GetOrSet(k, v, ttl) => DoGetOrSet(cfg, c, cfg.ns + k, v, ttl, now)
    case Expire(k, s) => DoExpire(c, cfg.ns + k, s, now)
    case ExpireAt(k, when) => DoExpireAt(c, cfg.ns + k, when, now)
    case Touch(k, ttl) => DoTouch(c, cfg.ns + k, ttl, now)
    case Ttl(k) => DoTtl(c, cfg.ns + k, now)
    case Persist(k) => DoPersist(c, cfg.ns + k)
    case Incr(k, d, ttl) => DoIncr(c, cfg.ns + k, d, ttl, now)
    case InvalidateTags(tags) => DoInvalidateTags(c, Prefixed(cfg.ns, tags))
    case AddTags(k, tags) => (DoAddTags(c, cfg.ns + k, Prefixed(cfg.ns, tags)), Done)
  }

  datatype Call = Call(now: real, op: Op)

  ghost function Run(cfg: Config, c: Cache, calls: seq<Call>): Cache
    decreases |calls|
  {
    if calls == [] then c
    else Run(cfg, Step(cfg, c, calls[0].now, calls[0].op).0, calls[1..])
  }

  function Initial(policy: Policy): Cache {
    Cache(map[], map[], map[], map[], policy)
  }
}
