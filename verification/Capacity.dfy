/**
 How many keys the in-memory cache stores.  The size limit is kept but for keys that were written
 without making room: by `incr`, and by a `set` whose deadline raises after the value was written.
 The eviction loop itself makes the store fit exactly when what it cannot evict fits.
 */
module Capacity {
  import opened Wrappers
  import opened Values
  import opened Usage
  import opened InMemoryModel
  import opened InMemoryInvariants

  /** The keys that were stored without making room, by `incr` or a raising `set`, and not `set` since. */
  ghost function SparedAfter(cfg: Config, c: Cache, call: Call, spared: set<string>): set<string> {
    var c' := Step(cfg, c, call.now, call.op).0;
    match call.op
    case Incr(k, _, _) => AfterUnnoted(c, cfg.ns + k, spared)
    case Set(k, _, ttl) =>
      if Overflows(ttl, call.now) then AfterUnnoted(c, cfg.ns + k, spared) else (spared - {cfg.ns + k}) * c'.store.Keys
    case GetOrSet(k, _, ttl) =>
      if DoGet(c, cfg.ns + k, call.now).1.Hit? then spared
      else if Overflows(ttl, call.now) then (spared + {cfg.ns + k}) * c'.store.Keys
      else (spared - {cfg.ns + k}) * c'.store.Keys
    case _ => spared * c'.store.Keys
  }

  /** The key was written, but the policy was not told. */
  function AfterUnnoted(c: Cache, k: string, spared: set<string>): set<string> {
    if k in c.store then spared else spared + {k}
  }

  ghost predicate Bounded(c: Cache, max: int, spared: set<string>) {
    && c.policy.Tracking?
    && "" !in c.store
    && spared <= c.store.Keys
    && c.store.Keys - spared <= Tracked(c.policy)
    && |c.store.Keys - spared| <= max
  }

  lemma {:induction false} EvictionBounds(c: Cache, max: int, spared: set<string>)
    requires Inv(c) && c.policy.Tracking? && "" !in c.store && max >= 0
    requires c.store.Keys - spared <= Tracked(c.policy)
    ensures var c' := EvictDownTo(c, max);
            && c'.policy.Tracking? && c'.policy.kind == c.policy.kind
            && "" !in c'.store
            && c'.store.Keys - spared <= Tracked(c'.policy)
            && |c'.store.Keys - spared| <= max
    decreases Tracked(c.policy)
  {
    if |c.store| <= max {
      assert c.store.Keys - spared <= c.store.Keys;
      SubsetIsSmaller(c.store.Keys - spared, c.store.Keys);
      assert |c.store.Keys| == |c.store|;
    } else {
      var v := Victim(c.policy.kind, c.policy.table);
      if c.policy.table.stats != map[] { VictimExists(c.policy.kind, c.policy.table); }
      if v.Some? {
        assert v.value in Tracked(c.policy);
        RemoveKeepsInv(c, {v.value});
        assert Tracked(RemoveKeys(c, {v.value}).policy) < Tracked(c.policy);
        EvictionBounds(RemoveKeys(c, {v.value}), max, spared);
      } else {
        assert c.store.Keys - spared == {};
      }
    }
  }

  lemma {:induction false} RemovalKeepsBound(c: Cache, ks: set<string>, max: int, spared: set<string>)
    requires Bounded(c, max, spared)
    ensures Bounded(RemoveKeys(c, ks), max, spared * RemoveKeys(c, ks).store.Keys)
  {
    var c' := RemoveKeys(c, ks);
    SubsetIsSmaller(c'.store.Keys - spared * c'.store.Keys, c.store.Keys - spared);
  }

  lemma EvictedIsBounded(c: Cache, max: int, spared: set<string>)
    requires Inv(c) && c.policy.Tracking? && "" !in c.store && max >= 0
    requires c.store.Keys - spared <= Tracked(c.policy)
    ensures var c' := EvictDownTo(c, max); Bounded(c', max, spared * c'.store.Keys)
  {
    hide Inv, EvictDownTo;
    var c' := EvictDownTo(c, max);
    EvictionBounds(c, max, spared);
    assert c'.store.Keys - spared * c'.store.Keys == c'.store.Keys - spared;
  }

  lemma PutIsBounded(cfg: Config, c: Cache, k: string, v: Value, until: Option<real>, spared: set<string>)
    requires Inv(c) && k != "" && cfg.maxSize.Some? && cfg.maxSize.value >= 1
    requires Bounded(c, cfg.maxSize.value, spared)
    ensures var c' := EvictIfNeeded(cfg, Put(c, k, v, until));
            Bounded(c', cfg.maxSize.value, (spared - {k}) * c'.store.Keys)
  {
    hide Inv, EvictDownTo, Bounded;
    var put := Put(c, k, v, until);
    PutKeepsInv(c, k, v, until);
    PutIsTracked(c, k, v, until, cfg.maxSize.value, spared);
    EvictedIsBounded(put, cfg.maxSize.value, spared - {k});
  }

  lemma PutIsTracked(c: Cache, k: string, v: Value, until: Option<real>, max: int, spared: set<string>)
    requires Bounded(c, max, spared) && k != ""
    ensures var put := Put(c, k, v, until);
            put.policy.Tracking? && "" !in put.store && put.store.Keys - (spared - {k}) <= Tracked(put.policy)
  {}

  lemma {:induction false} SetKeepsBound(
    cfg: Config, c: Cache, k: string, v: Value, ttl: Option<int>, now: real, spared: set<string>)
    requires Inv(c) && k != "" && cfg.maxSize.Some? && cfg.maxSize.value >= 1
    requires Bounded(c, cfg.maxSize.value, spared) && !Overflows(ttl, now)
    ensures var c' := DoSet(cfg, c, k, v, ttl, now);
            Bounded(c', cfg.maxSize.value, (spared - {k}) * c'.store.Keys)
  {
    var max := cfg.maxSize.value;
    if ttl.Some? && ttl.value <= 0 {
      RemovalKeepsBound(c, {k}, max, spared);
      assert spared * RemoveKeys(c, {k}).store.Keys == (spared - {k}) * RemoveKeys(c, {k}).store.Keys;
    } else {
      PutIsBounded(cfg, c, k, v, Until(ttl, now), spared);
    }
  }

  ghost predicate NonEmptyKey(cfg: Config, op: Op) {
    op.Clear? || op.InvalidateTags? || cfg.ns + op.key != ""
  }

  /** Removing keys, and changes that keep every key and every access record, keep the bound. */
  lemma {:induction false} KeepsBound(c: Cache, c': Cache, ks: set<string>, max: int, spared: set<string>)
    requires Bounded(c, max, spared)
    requires c' == RemoveKeys(c, ks) ||
             (&& c'.store.Keys == c.store.Keys
              && c'.policy.Tracking? == c.policy.Tracking?
              && Tracked(c.policy) <= Tracked(c'.policy))
    ensures Bounded(c', max, spared * c'.store.Keys)
  {
    if c' == RemoveKeys(c, ks) {
      RemovalKeepsBound(c, ks, max, spared);
    } else {
      assert spared * c'.store.Keys == spared;
    }
  }

  lemma GetKeepsBound(c: Cache, k: string, now: real, max: int, spared: set<string>)
    requires Bounded(c, max, spared)
    ensures var c' := DoGet(c, k, now).0; Bounded(c', max, spared * c'.store.Keys)
  {
    hide Bounded, RemoveKeys;
    KeepsBound(c, DoGet(c, k, now).0, {k}, max, spared);
  }

  lemma CleanupKeepsBound(c: Cache, k: string, now: real, max: int, spared: set<string>)
    requires Bounded(c, max, spared)
    ensures var c' := CleanupIfExpired(c, k, now); Bounded(c', max, spared * c'.store.Keys)
  {
    hide Bounded, RemoveKeys;
    KeepsBound(c, CleanupIfExpired(c, k, now), {k}, max, spared);
  }

  lemma ExpireKeepsBound(c: Cache, k: string, ttl: int, now: real, max: int, spared: set<string>)
    requires Bounded(c, max, spared)
    ensures var c' := DoExpire(c, k, ttl, now).0; Bounded(c', max, spared * c'.store.Keys)
  {
    hide Bounded, RemoveKeys;
    KeepsBound(c, DoExpire(c, k, ttl, now).0, {k}, max, spared);
  }

  lemma ExpireAtKeepsBound(c: Cache, k: string, when: real, now: real, max: int, spared: set<string>)
    requires Bounded(c, max, spared)
    ensures var c' := DoExpireAt(c, k, when, now).0; Bounded(c', max, spared * c'.store.Keys)
  {
    hide Bounded, RemoveKeys;
    KeepsBound(c, DoExpireAt(c, k, when, now).0, {k}, max, spared);
  }

  lemma PersistKeepsBound(c: Cache, k: string, max: int, spared: set<string>)
    requires Bounded(c, max, spared)
    ensures var c' := DoPersist(c, k).0; Bounded(c', max, spared * c'.store.Keys)
  {
    hide Bounded;
    KeepsBound(c, DoPersist(c, k).0, {}, max, spared);
  }

  lemma AddTagsKeepsBound(c: Cache, k: string, tags: set<string>, max: int, spared: set<string>)
    requires Bounded(c, max, spared)
    ensures var c' := DoAddTags(c, k, tags); Bounded(c', max, spared * c'.store.Keys)
  {
    hide Bounded;
    KeepsBound(c, DoAddTags(c, k, tags), {}, max, spared);
  }

  lemma TouchKeepsBound(c: Cache, k: string, ttl: Option<int>, now: real, max: int, spared: set<string>)
    requires Bounded(c, max, spared)
    ensures var c' := DoTouch(c, k, ttl, now).0; Bounded(c', max, spared * c'.store.Keys)
  {
    hide Bounded, DoExpire;
    if ttl.Some? { ExpireKeepsBound(c, k, ttl.value, now, max, spared); } else { KeepsBound(c, c, {}, max, spared); }
  }

  lemma {:induction false} ClearKeepsBound(cfg: Config, c: Cache, all: bool, spared: set<string>)
    requires cfg.maxSize.Some? && cfg.maxSize.value >= 1 && Bounded(c, cfg.maxSize.value, spared)
    ensures var c' := DoClear(cfg, c, all); Bounded(c', cfg.maxSize.value, spared * c'.store.Keys)
  {
    if cfg.ns != "" && !all {
      KeepsBound(c, DoClear(cfg, c, all), InNamespace(c, cfg.ns), cfg.maxSize.value, spared);
    } else {
      assert |{} - spared * {}| == 0;
    }
  }

  lemma OneMoreSpared(store: set<string>, spared: set<string>, k: string)
    ensures (store + {k}) - (spared + {k}) == (store - spared) - {k}
    ensures k !in store ==> (store - spared) - {k} == store - spared
    ensures k in store ==> store + {k} == store
  {}

  /** A write that the policy is not told of. */
  lemma UnnotedKeepsBound(c: Cache, c': Cache, k: string, max: int, spared: set<string>)
    requires k != "" && Bounded(c, max, spared)
    requires c'.store.Keys == c.store.Keys + {k} && c'.policy == c.policy
    ensures Bounded(c', max, AfterUnnoted(c, k, spared))
  {
    hide Tracked;
    OneMoreSpared(c.store.Keys, spared, k);
  }

  lemma IncrWrites(c: Cache, k: string, delta: int, ttl: Option<int>, now: real)
    ensures var c' := DoIncr(c, k, delta, ttl, now).0;
            c'.policy == c.policy && (c'.store.Keys == c.store.Keys + {k})
  {}

  lemma {:induction false} IncrKeepsBound(
    c: Cache, k: string, delta: int, ttl: Option<int>, now: real, max: int, spared: set<string>)
    requires k != "" && Bounded(c, max, spared)
    ensures Bounded(DoIncr(c, k, delta, ttl, now).0, max, AfterUnnoted(c, k, spared))
  {
    hide Bounded, DoIncr, AfterUnnoted;
    IncrWrites(c, k, delta, ttl, now);
    UnnotedKeepsBound(c, DoIncr(c, k, delta, ttl, now).0, k, max, spared);
  }

  lemma RaisingSetKeepsBound(
    cfg: Config, c: Cache, k: string, v: Value, ttl: Option<int>, now: real, max: int, spared: set<string>)
    requires k != "" && Bounded(c, max, spared) && Overflows(ttl, now)
    ensures Bounded(DoSet(cfg, c, k, v, ttl, now), max, AfterUnnoted(c, k, spared))
  {
    hide Bounded, AfterUnnoted, EvictIfNeeded;
    UnnotedKeepsBound(c, DoSet(cfg, c, k, v, ttl, now), k, max, spared);
  }

  lemma {:induction false} SetAfterMissKeepsBound(
    cfg: Config, read: Cache, k: string, v: Value, ttl: Option<int>, now: real, kept: set<string>, spared: set<string>)
    requires Inv(read) && k != "" && cfg.maxSize.Some? && cfg.maxSize.value >= 1
             && Bounded(read, cfg.maxSize.value, kept)
    requires k !in read.store && kept == spared * read.store.Keys
    ensures var c' := DoSet(cfg, read, k, v, ttl, now);
            Bounded(c', cfg.maxSize.value,
                    (if Overflows(ttl, now) then spared + {k} else spared - {k}) * c'.store.Keys)
  {
    hide Inv, Bounded, DoSet, EvictIfNeeded;
    var c' := DoSet(cfg, read, k, v, ttl, now);
    SetStoresOnly(cfg, read, k, v, ttl, now);
    if Overflows(ttl, now) {
      RaisingSetKeepsBound(cfg, read, k, v, ttl, now, cfg.maxSize.value, kept);
      RaisingSetStores(cfg, read, k, v, ttl, now);
    } else {
      SetKeepsBound(cfg, read, k, v, ttl, now, kept);
    }
    SparedAfterMiss(read.store.Keys, c'.store.Keys, spared, k);
  }

  lemma SparedAfterMiss(read: set<string>, after: set<string>, spared: set<string>, k: string)
    requires after <= read + {k}
    ensures (spared * read - {k}) * after == (spared - {k}) * after
    ensures after == read + {k} ==> (spared + {k}) * after == spared * read + {k}
  {}

  lemma RaisingSetStores(cfg: Config, c: Cache, k: string, v: Value, ttl: Option<int>, now: real)
    requires Overflows(ttl, now)
    ensures var c' := DoSet(cfg, c, k, v, ttl, now); c'.store.Keys == c.store.Keys + {k} && c'.policy == c.policy
  {
    hide EvictIfNeeded;
  }

  lemma MissRemoves(c: Cache, k: string, now: real)
    requires Inv(c) && DoGet(c, k, now).1 == Missing
    ensures k !in DoGet(c, k, now).0.store
  {}

  lemma {:induction false} GetOrSetKeepsBound(
    cfg: Config, c: Cache, k: string, v: Value, ttl: Option<int>, now: real, spared: set<string>)
    requires Inv(c) && k != "" && cfg.maxSize.Some? && cfg.maxSize.value >= 1 && Bounded(c, cfg.maxSize.value, spared)
    requires DoGet(c, k, now).1 == Missing
    ensures var c' := DoSet(cfg, DoGet(c, k, now).0, k, v, ttl, now);
            Bounded(c', cfg.maxSize.value,
                    (if Overflows(ttl, now) then spared + {k} else spared - {k}) * c'.store.Keys)
  {
    MissRemoves(c, k, now);
    hide Inv, Bounded, DoSet, DoGet;
    var read := DoGet(c, k, now).0;
    GetKeepsBound(c, k, now, cfg.maxSize.value, spared);
    GetKeepsInv(c, k, now);
    SetAfterMissKeepsBound(cfg, read, k, v, ttl, now, spared * read.store.Keys, spared);
  }

  lemma DeadlineStepKeepsBound(cfg: Config, c: Cache, now: real, op: Op, max: int, spared: set<string>)
    requires Bounded(c, max, spared)
    requires op.Expire? || op.ExpireAt? || op.Touch?
    ensures var c' := Step(cfg, c, now, op).0; Bounded(c', max, spared * c'.store.Keys)
  {
    hide Bounded, DoExpire, DoExpireAt, DoTouch;
    match op
    case Expire(k, s) => ExpireKeepsBound(c, cfg.ns + k, s, now, max, spared);
    case ExpireAt(k, when) => ExpireAtKeepsBound(c, cfg.ns + k, when, now, max, spared);
    case Touch(k, ttl) => TouchKeepsBound(c, cfg.ns + k, ttl, now, max, spared);
  }

  lemma TtlStepKeepsBound(cfg: Config, c: Cache, now: real, op: Op, max: int, spared: set<string>)
    requires Bounded(c, max, spared)
    requires op.Persist? || op.Ttl?
    ensures var c' := Step(cfg, c, now, op).0; Bounded(c', max, spared * c'.store.Keys)
  {
    hide Bounded, DoPersist, CleanupIfExpired;
    match op
    case Persist(k) => PersistKeepsBound(c, cfg.ns + k, max, spared);
    case Ttl(k) => CleanupKeepsBound(c, cfg.ns + k, now, max, spared);
  }

  lemma {:induction false} RemovalStepKeepsBound(
    cfg: Config, c: Cache, now: real, op: Op, max: int, spared: set<string>)
    requires Bounded(c, max, spared)
    requires op.Delete? || op.InvalidateTags?
    ensures var c' := Step(cfg, c, now, op).0; Bounded(c', max, spared * c'.store.Keys)
  {
    hide Bounded, RemoveKeys, Carriers, Prefixed;
    match op
    case Delete(k) => RemovalKeepsBound(c, {cfg.ns + k}, max, spared);
    case InvalidateTags(tags) => RemovalKeepsBound(c, Carriers(c, Prefixed(cfg.ns, tags)), max, spared);
  }

  lemma PlainStepKeepsBound(cfg: Config, c: Cache, now: real, op: Op, max: int, spared: set<string>)
    requires Bounded(c, max, spared)
    requires op.Get? || op.Exists? || op.AddTags?
    ensures var c' := Step(cfg, c, now, op).0; Bounded(c', max, spared * c'.store.Keys)
  {
    hide Bounded, CleanupIfExpired, DoGet, DoAddTags, Prefixed;
    match op
    case Get(k) => GetKeepsBound(c, cfg.ns + k, now, max, spared);
    case Exists(k) => CleanupKeepsBound(c, cfg.ns + k, now, max, spared);
    case AddTags(k, tags) => AddTagsKeepsBound(c, cfg.ns + k, Prefixed(cfg.ns, tags), max, spared);
  }

  lemma {:induction false} GetOrSetStepKeepsBound(
    cfg: Config, c: Cache, k: string, v: Value, ttl: Option<int>, now: real, spared: set<string>)
    requires Inv(c) && k != "" && cfg.maxSize.Some? && cfg.maxSize.value >= 1 && Bounded(c, cfg.maxSize.value, spared)
    ensures var c' := DoGetOrSet(cfg, c, k, v, ttl, now).0;
            Bounded(c', cfg.maxSize.value,
                    if DoGet(c, k, now).1.Hit? then spared
                    else (if Overflows(ttl, now) then spared + {k} else spared - {k}) * c'.store.Keys)
  {
    hide Inv, Bounded, DoSet;
    if DoGet(c, k, now).1.Hit? {
      HitKeepsBound(c, k, now, cfg.maxSize.value, spared);
    } else {
      GetOrSetKeepsBound(cfg, c, k, v, ttl, now, spared);
    }
  }

  lemma HitKeepsBound(c: Cache, k: string, now: real, max: int, spared: set<string>)
    requires Bounded(c, max, spared) && DoGet(c, k, now).1.Hit?
    ensures Bounded(DoGet(c, k, now).0, max, spared)
  {
    KeepsBound(c, DoGet(c, k, now).0, {}, max, spared);
    assert spared * DoGet(c, k, now).0.store.Keys == spared;
  }

  lemma {:induction false} SetStepKeepsBound(
    cfg: Config, c: Cache, k: string, v: Value, ttl: Option<int>, now: real, spared: set<string>)
    requires Inv(c) && k != "" && cfg.maxSize.Some? && cfg.maxSize.value >= 1 && Bounded(c, cfg.maxSize.value, spared)
    ensures var c' := DoSet(cfg, c, k, v, ttl, now);
            Bounded(c', cfg.maxSize.value,
                    if Overflows(ttl, now) then AfterUnnoted(c, k, spared) else (spared - {k}) * c'.store.Keys)
  {
    hide Inv, Bounded, DoSet, AfterUnnoted;
    if Overflows(ttl, now) {
      RaisingSetKeepsBound(cfg, c, k, v, ttl, now, cfg.maxSize.value, spared);
    } else {
      SetKeepsBound(cfg, c, k, v, ttl, now, spared);
    }
  }

  lemma {:induction false} StepKeepsBound(cfg: Config, c: Cache, now: real, op: Op, spared: set<string>)
    requires Inv(c) && NonEmptyKey(cfg, op)
    requires cfg.maxSize.Some? && cfg.maxSize.value >= 1 && Bounded(c, cfg.maxSize.value, spared)
    ensures Bounded(Step(cfg, c, now, op).0, cfg.maxSize.value, SparedAfter(cfg, c, Call(now, op), spared))
  {
    hide Bounded, Inv, DoSet, DoGet, DoGetOrSet, DoIncr, DoClear, AfterUnnoted;
    var max := cfg.maxSize.value;
    if op.Expire? || op.ExpireAt? || op.Touch? {
      DeadlineStepKeepsBound(cfg, c, now, op, max, spared);
    } else if op.Persist? || op.Ttl? {
      TtlStepKeepsBound(cfg, c, now, op, max, spared);
    } else if op.Delete? || op.InvalidateTags? {
      RemovalStepKeepsBound(cfg, c, now, op, max, spared);
    } else if op.Get? || op.Exists? || op.AddTags? {
      PlainStepKeepsBound(cfg, c, now, op, max, spared);
    } else {
      match op
      case Set(k, v, ttl) => SetStepKeepsBound(cfg, c, cfg.ns + k, v, ttl, now, spared);
      case Clear(all) => ClearKeepsBound(cfg, c, all, spared);
      case GetOrSet(k, v, ttl) => GetOrSetStepKeepsBound(cfg, c, cfg.ns + k, v, ttl, now, spared);
      case Incr(k, d, ttl) => IncrKeepsBound(c, cfg.ns + k, d, ttl, now, max, spared);
    }
  }

  lemma {:induction false} SetStoresOnly(cfg: Config, c: Cache, k: string, v: Value, ttl: Option<int>, now: real)
    requires Inv(c)
    ensures DoSet(cfg, c, k, v, ttl, now).store.Keys <= c.store.Keys + {k}
  {
    hide Inv, EvictDownTo, RemoveKeys, Put;
    PutKeepsInv(c, k, v, Until(ttl, now));
    if cfg.maxSize.Some? { EvictKeepsInv(Put(c, k, v, Until(ttl, now)), cfg.maxSize.value); }
  }

  ghost function RunSpared(cfg: Config, c: Cache, calls: seq<Call>, spared: set<string>): set<string>
    decreases |calls|
  {
    if calls == [] then spared
    else RunSpared(cfg, Step(cfg, c, calls[0].now, calls[0].op).0, calls[1..], SparedAfter(cfg, c, calls[0], spared))
  }

  /**
   With a policy, a positive size and non-empty keys, after any run at most `max_size` stored keys
   are left beside those that `incr` or a raising `set` stored without making room.
   */
  lemma {:induction false} RunIsBounded(cfg: Config, c: Cache, calls: seq<Call>, spared: set<string>)
    requires Inv(c) && cfg.maxSize.Some? && cfg.maxSize.value >= 1
    requires forall i | 0 <= i < |calls| :: NonEmptyKey(cfg, calls[i].op)
    requires Bounded(c, cfg.maxSize.value, spared)
    ensures Bounded(Run(cfg, c, calls), cfg.maxSize.value, RunSpared(cfg, c, calls, spared))
    decreases |calls|
  {
    if calls != [] {
      var c' := Step(cfg, c, calls[0].now, calls[0].op).0;
      StepKeepsInv(cfg, c, calls[0].now, calls[0].op);
      StepKeepsBound(cfg, c, calls[0].now, calls[0].op, spared);
      RunIsBounded(cfg, c', calls[1..], SparedAfter(cfg, c, calls[0], spared));
    }
  }

  /** The call may store a key without making room. */
  predicate MayOverfill(call: Call) {
    match call.op
    case Incr(_, _, _) => true
    case Set(_, _, ttl) => Overflows(ttl, call.now)
    case GetOrSet(_, _, ttl) => Overflows(ttl, call.now)
    case _ => false
  }

  lemma {:induction false} NothingSpared(cfg: Config, c: Cache, calls: seq<Call>)
    requires forall i | 0 <= i < |calls| :: !MayOverfill(calls[i])
    ensures RunSpared(cfg, c, calls, {}) == {}
    decreases |calls|
  {
    if calls != [] {
      assert SparedAfter(cfg, c, calls[0], {}) == {};
      NothingSpared(cfg, Step(cfg, c, calls[0].now, calls[0].op).0, calls[1..]);
    }
  }

  /** Without `incr` and deadlines that raise, no run from an empty cache ever stores more than `max_size` keys. */
  lemma {:induction false} SizeIsBounded(cfg: Config, kind: Kind, calls: seq<Call>)
    requires cfg.maxSize.Some? && cfg.maxSize.value >= 1
    requires forall i | 0 <= i < |calls| :: NonEmptyKey(cfg, calls[i].op) && !MayOverfill(calls[i])
    ensures |Run(cfg, Initial(Tracking(kind, EMPTY)), calls).store| <= cfg.maxSize.value
  {
    var c := Initial(Tracking(kind, EMPTY));
    InitialHasInv(c.policy);
    assert c.store.Keys - {} == {};
    RunIsBounded(cfg, c, calls, {});
    NothingSpared(cfg, c, calls);
    var c' := Run(cfg, c, calls);
    assert c'.store.Keys - {} == c'.store.Keys;
    assert |c'.store.Keys| == |c'.store|;
  }

  /**
   Each call that may overfill does: on every cache and every new key, `incr`, a raising `set` and a
   raising `get_or_set` leave one stored key more, whatever the size limit and the policy are, and
   evict nothing.
   */
  lemma {:induction false} OverfillsAlways(cfg: Config, c: Cache, call: Call)
    requires MayOverfill(call) && cfg.ns + call.op.key !in c.store
    requires call.op.GetOrSet? ==> Inv(c)
    ensures var c' := Step(cfg, c, call.now, call.op).0;
            && c'.store.Keys == c.store.Keys + {cfg.ns + call.op.key}
            && |c'.store| == |c.store| + 1
            && c'.policy == c.policy
  {
    hide DoIncr, DoSet, EvictIfNeeded;
    var k, c' := cfg.ns + call.op.key, Step(cfg, c, call.now, call.op).0;
    match call.op {
      case Incr(_, d, ttl) => IncrWrites(c, k, d, ttl, call.now);
      case Set(_, v, ttl) => RaisingSetStores(cfg, c, k, v, ttl, call.now);
      case GetOrSet(_, v, ttl) =>
        assert DoGet(c, k, call.now) == (c, Missing);
        RaisingSetStores(cfg, c, k, v, ttl, call.now);
    }
    assert |c'.store| == |c'.store.Keys| && |c.store| == |c.store.Keys|;
  }

  /** Two `set` calls with a TTL of 10^12 seconds leave two untracked keys in a cache of size 1. */
  lemma RaisingSetsExceed(kind: Kind, v: Value)
    ensures var cfg := Config("", Some(1));
            var ttl := Some(1000000000000);
            var calls := [Call(0.0, Set("a", v, ttl)), Call(0.0, Set("b", v, ttl))];
            var c := Run(cfg, Initial(Tracking(kind, EMPTY)), calls);
            c.store.Keys == {"a", "b"} && Tracked(c.policy) == {}
  {
    var cfg, ttl := Config("", Some(1)), Some(1000000000000);
    var first, second := Call(0.0, Set("a", v, ttl)), Call(0.0, Set("b", v, ttl));
    var c := Initial(Tracking(kind, EMPTY));
    var c' := Step(cfg, c, 0.0, first.op).0;
    assert "" + "a" == "a" && "" + "b" == "b";
    assert [first, second][1..] == [second] && [second][1..] == [];
    assert Run(cfg, c', [second]) == Step(cfg, c', 0.0, second.op).0;
  }

  // ---- When the eviction loop makes the store fit ----

  /** The tracked keys that are used more than the empty one. */
  ghost function AboveEmpty(c: Cache): set<string>
    requires c.policy.Tracking? && "" in c.policy.table.stats
  {
    set k | k in c.policy.table.stats && Before(c.policy.kind, c.policy.table.stats[""], c.policy.table.stats[k])
  }

  /** What the loop cannot evict: untracked keys, and once the empty key is the victim, it and the keys above it. */
  ghost function Stay(c: Cache): set<string>
    requires c.policy.Tracking?
  {
    (c.store.Keys - Tracked(c.policy)) + (if "" in Tracked(c.policy) then {""} + AboveEmpty(c) else {})
  }

  ghost predicate TracksStored(c: Cache) {
    c.policy.Tracking? && WellFormed(c.policy.table) && Tracked(c.policy) <= c.store.Keys
  }

  lemma {:induction false} StayIsStored(c: Cache)
    requires TracksStored(c)
    ensures Stay(c) <= c.store.Keys && |Stay(c)| <= |c.store|
    ensures Tracked(c.policy) == {} ==> Stay(c) == c.store.Keys
  {
    SubsetIsSmaller(Stay(c), c.store.Keys);
    assert |c.store| == |c.store.Keys|;
  }

  lemma EmptyIsVictim(c: Cache)
    requires TracksStored(c) && IsVictim(c.policy.kind, c.policy.table, "")
    ensures Stay(c) == c.store.Keys
  {}

  lemma VictimDoesNotStay(c: Cache, v: string)
    requires TracksStored(c) && IsVictim(c.policy.kind, c.policy.table, v) && v != ""
    ensures TracksStored(RemoveKeys(c, {v})) && Stay(RemoveKeys(c, {v})) == Stay(c)
  {
    var c' := RemoveKeys(c, {v});
    assert c'.store.Keys - Tracked(c'.policy) == c.store.Keys - Tracked(c.policy);
    if "" in Tracked(c.policy) {
      assert Before(c.policy.kind, c.policy.table.stats[v], c.policy.table.stats[""]);
      assert AboveEmpty(c') == AboveEmpty(c);
    }
  }

  lemma NoVictim(c: Cache)
    requires TracksStored(c) && Victim(c.policy.kind, c.policy.table).None?
    ensures Tracked(c.policy) == {}
  {
    if c.policy.table.stats != map[] { VictimExists(c.policy.kind, c.policy.table); }
  }

  /** The eviction loop leaves at most `max_size` keys exactly when what it cannot evict fits. */
  lemma {:induction false} EvictionFitsIff(c: Cache, max: int)
    requires TracksStored(c)
    ensures |EvictDownTo(c, max).store| <= max <==> |Stay(c)| <= max
    decreases Tracked(c.policy)
  {
    hide WellFormed, Stay;
    StayIsStored(c);
    if |c.store| > max {
      assert |c.store| == |c.store.Keys|;
      var v := Victim(c.policy.kind, c.policy.table);
      if v.None? {
        NoVictim(c);
      } else if v.value == "" {
        EmptyIsVictim(c);
      } else {
        VictimDoesNotStay(c, v.value);
        var c' := RemoveKeys(c, {v.value});
        assert Tracked(c'.policy) < Tracked(c.policy);
        EvictionFitsIff(c', max);
      }
    }
  }

  /** In particular it does when everything stored is tracked under a non-empty key. */
  lemma {:induction false} TrackedFits(c: Cache, max: nat)
    requires TracksStored(c) && Tracked(c.policy) == c.store.Keys && "" !in c.store
    ensures |EvictDownTo(c, max).store| <= max
  {
    assert Stay(c) == {};
    EvictionFitsIff(c, max);
  }

  /** The empty key as the victim: two tracked keys stay in a cache of size 1. */
  lemma {:induction false} EmptyKeyDoesNotFit(kind: Kind, v: Value)
    ensures var stats := map["" := Stat(1, 0), "a" := Stat(1, 1)];
            var c := Cache(map["" := v, "a" := v], map[], map[], map[], Tracking(kind, Table(stats, 2)));
            TracksStored(c) && EvictDownTo(c, 1).store.Keys == {"", "a"}
  {
    var stats := map["" := Stat(1, 0), "a" := Stat(1, 1)];
    var c := Cache(map["" := v, "a" := v], map[], map[], map[], Tracking(kind, Table(stats, 2)));
    assert IsVictim(kind, c.policy.table, "");
    VictimIsUnique(kind, c.policy.table, "");
    assert |c.store| == |c.store.Keys| && c.store.Keys == {"", "a"};
  }

  /** Untracked keys: three counters stay in a cache of size 1 although no key is empty. */
  lemma CountersDoNotFit(kind: Kind, v: Value)
    ensures var c := Cache(map["a" := v, "b" := v, "c" := v], map[], map[], map[], Tracking(kind, EMPTY));
            TracksStored(c) && "" !in c.store && |EvictDownTo(c, 1).store| == 3
  {
    var c := Cache(map["a" := v, "b" := v, "c" := v], map[], map[], map[], Tracking(kind, EMPTY));
    assert c.store.Keys == {"a", "b", "c"} && |c.store| == |c.store.Keys|;
    assert forall k :: !IsVictim(kind, c.policy.table, k);
  }
}
