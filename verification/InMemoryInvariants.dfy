/** What every run of the in-memory cache keeps, what tag invalidation removes and `clear` replaces. */
module InMemoryInvariants {
  import opened Wrappers
  import opened Values
  import opened Usage
  import opened InMemoryModel

  // ---- The global invariant ----

  ghost predicate Inverse(tagToKeys: map<string, set<string>>, keyToTags: map<string, set<string>>) {
    forall t, k :: k in Lookup(tagToKeys, t) <==> t in Lookup(keyToTags, k)
  }

  ghost predicate Inv(c: Cache) {
    && c.ttl.Keys <= c.store.Keys
    && c.keyToTags.Keys <= c.store.Keys
    && Tracked(c.policy) <= c.store.Keys
    && Inverse(c.tagToKeys, c.keyToTags)
    && (forall t | t in c.tagToKeys :: c.tagToKeys[t] != {})
    && (c.policy.Tracking? ==> WellFormed(c.policy.table))
  }

  lemma RemoveKeepsInv(c: Cache, ks: set<string>)
    requires Inv(c)
    ensures Inv(RemoveKeys(c, ks))
  {
    var c' := RemoveKeys(c, ks);
    forall t, k ensures k in Lookup(c'.tagToKeys, t) <==> t in Lookup(c'.keyToTags, k) {
      assert k in Lookup(c.tagToKeys, t) <==> t in Lookup(c.keyToTags, k);
    }
  }

  lemma {:induction false} EvictKeepsInv(c: Cache, max: int)
    requires Inv(c)
    ensures Inv(EvictDownTo(c, max))
    ensures EvictDownTo(c, max).store.Keys <= c.store.Keys
    decreases Tracked(c.policy)
  {
    if |c.store| > max && c.policy.Tracking? {
      var v := Victim(c.policy.kind, c.policy.table);
      if v.Some? && v.value != "" {
        RemoveKeepsInv(c, {v.value});
        assert Tracked(RemoveKeys(c, {v.value}).policy) < Tracked(c.policy);
        EvictKeepsInv(RemoveKeys(c, {v.value}), max);
      }
    }
  }

  lemma NoteKeepsInv(c: Cache, k: string)
    requires Inv(c) && k in c.store
    ensures Inv(c.(policy := NoteAccess(c.policy, k)))
  {}

  lemma PutKeepsInv(c: Cache, k: string, v: Value, until: Option<real>)
    requires Inv(c)
    ensures Inv(Put(c, k, v, until))
  {
    if c.policy.Tracking? { AccessKeepsWellFormed(c.policy.table, k); }
  }

  lemma EvictIfNeededKeepsInv(cfg: Config, c: Cache)
    requires Inv(c)
    ensures Inv(EvictIfNeeded(cfg, c))
  {
    if cfg.maxSize.Some? { EvictKeepsInv(c, cfg.maxSize.value); }
  }

  lemma {:induction false} SetKeepsInv(cfg: Config, c: Cache, k: string, v: Value, ttl: Option<int>, now: real)
    requires Inv(c)
    ensures Inv(DoSet(cfg, c, k, v, ttl, now))
  {
    if ttl.Some? && ttl.value <= 0 {
      RemoveKeepsInv(c, {k});
    } else if Overflows(ttl, now) {
      StoreAndTtlKeepInv(c, c.store[k := v], c.ttl);
    } else {
      PutKeepsInv(c, k, v, Until(ttl, now));
      EvictIfNeededKeepsInv(cfg, Put(c, k, v, Until(ttl, now)));
    }
  }

  lemma CleanupKeepsInv(c: Cache, k: string, now: real)
    requires Inv(c)
    ensures Inv(CleanupIfExpired(c, k, now))
  {
    RemoveKeepsInv(c, {k});
  }

  lemma GetKeepsInv(c: Cache, k: string, now: real)
    requires Inv(c)
    ensures Inv(DoGet(c, k, now).0)
  {
    CleanupKeepsInv(c, k, now);
    if k in c.store { NoteKeepsInv(c, k); }
  }

  /** Operations that leave the tag indexes and the policy alone, and never lose a key. */
  lemma StoreAndTtlKeepInv(c: Cache, store: map<string, Value>, ttl: map<string, Option<real>>)
    requires Inv(c) && c.store.Keys <= store.Keys && ttl.Keys <= store.Keys
    ensures Inv(c.(store := store, ttl := ttl))
  {}

  lemma AddTagsKeepsInv(c: Cache, k: string, tags: set<string>)
    requires Inv(c)
    ensures Inv(DoAddTags(c, k, tags))
  {
    var c' := DoAddTags(c, k, tags);
    forall t, x ensures x in Lookup(c'.tagToKeys, t) <==> t in Lookup(c'.keyToTags, x) {
      assert x in Lookup(c.tagToKeys, t) <==> t in Lookup(c.keyToTags, x);
    }
  }

  lemma ExpireKeepsInv(c: Cache, k: string, ttl: int, now: real)
    requires Inv(c)
    ensures Inv(DoExpire(c, k, ttl, now).0)
  {
    RemoveKeepsInv(c, {k});
    if k in c.store { StoreAndTtlKeepInv(c, c.store, c.ttl[k := Some(now + ttl as real)]); }
  }

  lemma DeadlineKeepsInv(c: Cache, k: string, until: Option<real>)
    requires Inv(c) && k in c.store
    ensures Inv(c.(ttl := c.ttl[k := until]))
  {}

  lemma IncrKeepsInv(c: Cache, k: string, delta: int, ttl: Option<int>, now: real)
    requires Inv(c)
    ensures Inv(DoIncr(c, k, delta, ttl, now).0)
  {}

  lemma ExpireAtKeepsInv(c: Cache, k: string, when: real, now: real)
    requires Inv(c)
    ensures Inv(DoExpireAt(c, k, when, now).0)
  {
    hide RemoveKeys;
    RemoveKeepsInv(c, {k});
    if k in c.store { DeadlineKeepsInv(c, k, Some(when)); }
  }

  lemma PersistKeepsInv(c: Cache, k: string)
    requires Inv(c)
    ensures Inv(DoPersist(c, k).0)
  {
    if k in c.store { DeadlineKeepsInv(c, k, None); }
  }

  lemma ClearKeepsInv(cfg: Config, c: Cache, all: bool)
    requires Inv(c)
    ensures Inv(DoClear(cfg, c, all))
  {
    hide RemoveKeys;
    RemoveKeepsInv(c, InNamespace(c, cfg.ns));
  }

  /** Every operation keeps the invariant. */
  lemma StepKeepsInv(cfg: Config, c: Cache, now: real, op: Op)
    requires Inv(c)
    ensures Inv(Step(cfg, c, now, op).0)
  {
    hide Inv, RemoveKeys, DoGet, DoSet, CleanupIfExpired, DoClear, DoExpire, DoExpireAt, DoPersist, DoIncr, DoAddTags;
    match op
    case Get(k) => GetKeepsInv(c, cfg.ns + k, now);
    case Set(k, v, ttl) => SetKeepsInv(cfg, c, cfg.ns + k, v, ttl, now);
    case Delete(k) => RemoveKeepsInv(c, {cfg.ns + k});
    case Exists(k) => CleanupKeepsInv(c, cfg.ns + k, now);
    case Clear(all) => ClearKeepsInv(cfg, c, all);
    case GetOrSet(k, v, ttl) =>
      GetKeepsInv(c, cfg.ns + k, now);
      SetKeepsInv(cfg, DoGet(c, cfg.ns + k, now).0, cfg.ns + k, v, ttl, now);
    case Expire(k, s) => ExpireKeepsInv(c, cfg.ns + k, s, now);
    case ExpireAt(k, when) => ExpireAtKeepsInv(c, cfg.ns + k, when, now);
    case Touch(k, ttl) => if ttl.Some? { ExpireKeepsInv(c, cfg.ns + k, ttl.value, now); }
    case Ttl(k) => CleanupKeepsInv(c, cfg.ns + k, now);
    case Persist(k) => PersistKeepsInv(c, cfg.ns + k);
    case Incr(k, d, ttl) => IncrKeepsInv(c, cfg.ns + k, d, ttl, now);
    case InvalidateTags(tags) => RemoveKeepsInv(c, Carriers(c, Prefixed(cfg.ns, tags)));
    case AddTags(k, tags) => AddTagsKeepsInv(c, cfg.ns + k, Prefixed(cfg.ns, tags));
  }

  /**
   After any sequence of operations the two tag indexes are exact inverses without an empty
   entry, and every key with a TTL, a tag or an access record is a stored key.
   */
  lemma {:induction false} RunKeepsInv(cfg: Config, c: Cache, calls: seq<Call>)
    requires Inv(c)
    ensures Inv(Run(cfg, c, calls))
    decreases |calls|
  {
    if calls != [] {
      StepKeepsInv(cfg, c, calls[0].now, calls[0].op);
      RunKeepsInv(cfg, Step(cfg, c, calls[0].now, calls[0].op).0, calls[1..]);
    }
  }

  lemma {:induction false} InitialHasInv(policy: Policy)
    requires policy.Tracking? ==> policy.table == EMPTY
    ensures Inv(Initial(policy))
  {}

  // ---- Empty tag sets ----

  ghost predicate NoEmptyTagSet(c: Cache) {
    forall k | k in c.keyToTags :: c.keyToTags[k] != {}
  }

  ghost predicate FewerTagSets(c: Cache, c': Cache) {
    forall k | k in c'.keyToTags :: k in c.keyToTags && c'.keyToTags[k] == c.keyToTags[k]
  }

  lemma {:induction false} EvictionMakesNoTagSet(c: Cache, max: int)
    ensures FewerTagSets(c, EvictDownTo(c, max))
    decreases Tracked(c.policy)
  {
    if |c.store| > max && c.policy.Tracking? {
      var v := Victim(c.policy.kind, c.policy.table);
      if v.Some? && v.value != "" {
        assert Tracked(RemoveKeys(c, {v.value}).policy) < Tracked(c.policy);
        EvictionMakesNoTagSet(RemoveKeys(c, {v.value}), max);
      }
    }
  }

  lemma {:induction false} SetMakesNoTagSet(cfg: Config, c: Cache, k: string, v: Value, ttl: Option<int>, now: real)
    ensures FewerTagSets(c, DoSet(cfg, c, k, v, ttl, now))
  {
    if cfg.maxSize.Some? { EvictionMakesNoTagSet(Put(c, k, v, Until(ttl, now)), cfg.maxSize.value); }
  }

  lemma ReadMakesNoTagSet(cfg: Config, c: Cache, now: real, op: Op)
    requires op.Get? || op.Exists? || op.Ttl? || op.Delete? || op.Clear? || op.InvalidateTags?
    ensures FewerTagSets(c, Step(cfg, c, now, op).0)
  {
    hide Pruned, NoteRemove, NoteAccess, Carriers;
  }

  lemma DeadlineMakesNoTagSet(cfg: Config, c: Cache, now: real, op: Op)
    requires op.Expire? || op.ExpireAt? || op.Touch? || op.Persist? || op.Incr?
    ensures FewerTagSets(c, Step(cfg, c, now, op).0)
  {
    hide Pruned, NoteRemove;
  }

  lemma {:induction false} OthersMakeNoTagSet(cfg: Config, c: Cache, now: real, op: Op)
    requires !op.AddTags?
    ensures FewerTagSets(c, Step(cfg, c, now, op).0)
  {
    if op.Set? {
      SetMakesNoTagSet(cfg, c, cfg.ns + op.key, op.value, op.ttl, now);
    } else if op.GetOrSet? {
      ReadMakesNoTagSet(cfg, c, now, Get(op.key));
      SetMakesNoTagSet(cfg, DoGet(c, cfg.ns + op.key, now).0, cfg.ns + op.key, op.value, op.ttl, now);
    } else if op.Expire? || op.ExpireAt? || op.Touch? || op.Persist? || op.Incr? {
      DeadlineMakesNoTagSet(cfg, c, now, op);
    } else {
      ReadMakesNoTagSet(cfg, c, now, op);
    }
  }

  /** The set of a key's tags becomes empty exactly when an untagged stored key is given no tags. */
  lemma {:induction false} EmptyTagSetIff(cfg: Config, c: Cache, now: real, op: Op)
    requires NoEmptyTagSet(c)
    ensures !NoEmptyTagSet(Step(cfg, c, now, op).0)
            <==> op.AddTags? && op.tags == [] && cfg.ns + op.key in c.store && cfg.ns + op.key !in c.keyToTags
  {
    if op.AddTags? {
      var k, tags := cfg.ns + op.key, Prefixed(cfg.ns, op.tags);
      var c' := Step(cfg, c, now, op).0;
      if op.tags != [] { assert op.tags[0] in op.tags && cfg.ns + op.tags[0] in tags; }
      if k in c.store { assert c'.keyToTags[k] == Lookup(c.keyToTags, k) + tags; }
    } else {
      OthersMakeNoTagSet(cfg, c, now, op);
    }
  }

  // ---- Exact tag invalidation ----

  /** The stored keys that carry a tag of the list. */
  ghost function Tagged(cfg: Config, c: Cache, tags: seq<string>): set<string> {
    set k | k in c.store && exists i :: 0 <= i < |tags| && cfg.ns + tags[i] in Lookup(c.keyToTags, k)
  }

  lemma CarriersAreTagged(cfg: Config, c: Cache, tags: seq<string>)
    requires Inv(c)
    ensures Carriers(c, Prefixed(cfg.ns, tags)) == Tagged(cfg, c, tags)
  {
    var keys, tagged := Prefixed(cfg.ns, tags), Tagged(cfg, c, tags);
    forall k | k in Carriers(c, keys) ensures k in tagged {
      var t :| t in c.keyToTags[k] * keys;
      var tag :| tag in tags && t == cfg.ns + tag;
      var i :| 0 <= i < |tags| && tags[i] == tag;
    }
    forall k | k in tagged ensures k in Carriers(c, keys) {
      var i :| 0 <= i < |tags| && cfg.ns + tags[i] in Lookup(c.keyToTags, k);
      assert cfg.ns + tags[i] in c.keyToTags[k] * keys;
    }
  }

  lemma NoTagEntryRemains(cfg: Config, c: Cache, tags: seq<string>, i: nat)
    requires Inv(c) && i < |tags|
    ensures cfg.ns + tags[i] !in Pruned(c.tagToKeys, Tagged(cfg, c, tags))
  {
    var t := cfg.ns + tags[i];
    forall k | k in Lookup(c.tagToKeys, t) ensures k in Tagged(cfg, c, tags) {
      assert t in Lookup(c.keyToTags, k);
    }
  }

  /** Value, TTL, tags and access record of k are the same in both caches. */
  ghost predicate Untouched(c: Cache, c': Cache, k: string) {
    && (k in c'.store <==> k in c.store) && (k in c.store ==> c'.store[k] == c.store[k])
    && (k in c'.ttl <==> k in c.ttl) && (k in c.ttl ==> c'.ttl[k] == c.ttl[k])
    && Lookup(c'.keyToTags, k) == Lookup(c.keyToTags, k)
    && (k in Tracked(c'.policy) <==> k in Tracked(c.policy))
    && (k in Tracked(c.policy) ==> c'.policy.table.stats[k] == c.policy.table.stats[k])
  }

  /**
   `invalidate_tags` removes exactly the keys carrying a listed tag, returns how many, leaves
   no index entry of those tags, and does not touch the value, TTL, tags or access record of
   any other key.
   */
  lemma {:induction false} InvalidationIsExact(cfg: Config, c: Cache, now: real, tags: seq<string>)
    requires Inv(c)
    ensures var (c', out) := Step(cfg, c, now, InvalidateTags(tags));
            && c'.store.Keys == c.store.Keys - Tagged(cfg, c, tags)
            && out == Total(|Tagged(cfg, c, tags)|)
            && (forall i | 0 <= i < |tags| :: cfg.ns + tags[i] !in c'.tagToKeys)
            && (forall k | k !in Tagged(cfg, c, tags) :: Untouched(c, c', k))
  {
    hide Inv, Tagged, Untouched, RemoveKeys, Carriers, Pruned;
    CarriersAreTagged(cfg, c, tags);
    RemovalOutside(c, Tagged(cfg, c, tags));
    forall i | 0 <= i < |tags| ensures cfg.ns + tags[i] !in Pruned(c.tagToKeys, Tagged(cfg, c, tags)) {
      NoTagEntryRemains(cfg, c, tags, i);
    }
  }

  lemma RemovalOutside(c: Cache, ks: set<string>)
    ensures forall k | k !in ks :: Untouched(c, RemoveKeys(c, ks), k)
    ensures RemoveKeys(c, ks).tagToKeys == Pruned(c.tagToKeys, ks)
  {}

  // ---- What `clear` does to the policy ----

  /** `clear` keeps the kind of the policy exactly when it is namespaced, or would renew a recency policy by one. */
  lemma ClearKeepsPolicyIff(cfg: Config, c: Cache, all: bool)
    requires c.policy.Tracking?
    ensures var p := DoClear(cfg, c, all).policy;
            (p.Tracking? && p.kind == c.policy.kind)
            <==> (cfg.ns != "" && !all) || (c.policy.kind.Recency? && cfg.maxSize.Some? && cfg.maxSize.value != 0)
  {}

  lemma SubsetIsSmaller(a: set<string>, b: set<string>)
    requires a <= b
    ensures |a| <= |b|
  {
    assert b == a + (b - a);
  }
}
