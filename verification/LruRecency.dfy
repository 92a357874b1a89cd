/**
 What an access is good for in an LRU cache: a key that was just read or set stays while fewer
 other keys are set than the cache may hold.
 */
module LruRecency {
  import opened Wrappers
  import opened Values
  import opened Usage
  import opened InMemoryModel
  import opened InMemoryInvariants
  import opened LruInclusion
  import opened LruOutOfStep

  /** Every stored key is tracked, and only keys of `newer` were used after k. */
  ghost predicate Newest(c: Cache, k: string, newer: set<string>) {
    && Recent(c) && c.policy.table.stats.Keys == c.store.Keys && k in c.store
    && forall f | f in c.policy.table.stats && c.policy.table.stats[k].last < c.policy.table.stats[f].last :: f in newer
  }

  lemma OnlyNewer(c: Cache, k: string, newer: set<string>)
    requires Newest(c, k, newer) && IsVictim(Recency, c.policy.table, k)
    ensures |c.store| <= |newer| + 1
  {
    assert c.store.Keys <= newer + {k};
    SubsetIsSmaller(c.store.Keys, newer + {k});
    assert |newer + {k}| <= |newer| + 1 && |c.store| == |c.store.Keys|;
  }

  /** With room for k and the newer keys, k is never the victim. */
  lemma NotTheVictim(c: Cache, max: int, k: string, newer: set<string>, v: string)
    requires Newest(c, k, newer) && |newer| + 1 <= max < |c.store|
    requires IsVictim(Recency, c.policy.table, v)
    ensures v != k
  {
    if v == k { OnlyNewer(c, k, newer); }
  }

  lemma RemovalKeepsNewest(c: Cache, k: string, newer: set<string>, v: string)
    requires Newest(c, k, newer) && v != k
    ensures Newest(RemoveKeys(c, {v}), k, newer) && RemoveKeys(c, {v}).store[k] == c.store[k]
  {
    RemovalKeepsRecent(c, {v});
  }

  lemma {:induction false} EvictionKeepsNewest(c: Cache, max: int, k: string, newer: set<string>)
    requires Newest(c, k, newer) && |newer| + 1 <= max
    ensures Newest(EvictDownTo(c, max), k, newer) && EvictDownTo(c, max).store[k] == c.store[k]
    decreases Tracked(c.policy)
  {
    NewestIsRecent(c, k, newer);
    TheVictim(c);
    hide Newest, Recent, RemoveKeys, IsVictim;
    var v := Victim(Recency, c.policy.table);
    if |c.store| > max && v.Some? {
      NotTheVictim(c, max, k, newer, v.value);
      RemovalKeepsNewest(c, k, newer, v.value);
      EvictionKeepsNewest(RemoveKeys(c, {v.value}), max, k, newer);
    }
  }

  lemma NewestIsRecent(c: Cache, k: string, newer: set<string>)
    requires Newest(c, k, newer)
    ensures Recent(c) && c.policy.Tracking? && c.policy.kind == Recency && k in c.store
  {}

  lemma PutKeepsNewest(c: Cache, k: string, newer: set<string>, f: string, v: Value)
    requires Newest(c, k, newer) && f != k && f != ""
    ensures Newest(Put(c, f, v, None), k, newer + {f}) && Put(c, f, v, None).store[k] == c.store[k]
  {
    PutKeepsRecent(c, f, v, None);
  }

  lemma FirstPrefixed(ns: string, keys: seq<string>, newer: set<string>)
    requires keys != []
    ensures newer + Prefixed(ns, keys) == newer + {ns + keys[0]} + Prefixed(ns, keys[1..])
    ensures |newer + {ns + keys[0]}| <= |newer + Prefixed(ns, keys)|
  {
    assert keys == [keys[0]] + keys[1..];
    SubsetIsSmaller(newer + {ns + keys[0]}, newer + Prefixed(ns, keys));
  }

  lemma {:induction false} SetsKeepNewest(
    cfg: Config, c: Cache, k: string, newer: set<string>, keys: seq<string>, v: Value, now: real)
    requires cfg.maxSize.Some? && Newest(c, k, newer) && Others(cfg.ns, keys, k)
    requires |newer + Prefixed(cfg.ns, keys)| + 1 <= cfg.maxSize.value
    ensures var c' := Run(cfg, c, Sets(keys, v, now)); k in c'.store && k in c.store && c'.store[k] == c.store[k]
    decreases |keys|
  {
    hide Newest, Recent, Put, EvictDownTo, Prefixed;
    NewestIsRecent(c, k, newer);
    if keys != [] {
      var f := cfg.ns + keys[0];
      FirstSet(cfg, c, keys, v, now);
      FirstPrefixed(cfg.ns, keys, newer);
      PutKeepsNewest(c, k, newer, f, v);
      EvictionKeepsNewest(Put(c, f, v, None), cfg.maxSize.value, k, newer + {f});
      SetsKeepNewest(cfg, DoSet(cfg, c, f, v, None, now), k, newer + {f}, keys[1..], v, now);
    }
  }

  /** After the access nothing is newer than k. */
  lemma AccessMakesNewest(c: Cache, k: string)
    requires Recent(c) && c.policy.table.stats.Keys == c.store.Keys && k in c.store
    ensures Newest(c.(policy := NoteAccess(c.policy, k)), k, {})
  {
    AccessCovers(c.policy.table, c.store.Keys, k);
    assert c.store.Keys + {k} == c.store.Keys;
  }

  /**
   In every LRU cache that tracks all its keys: after a `get` that hits, sets of fewer other keys
   than the cache may hold leave the key with its value.
   */
  lemma {:induction false} HitProtects(
    cfg: Config, c: Cache, k: string, read: real, keys: seq<string>, v: Value, now: real)
    requires cfg.maxSize.Some? && Recent(c) && c.policy.table.stats.Keys == c.store.Keys
    requires DoGet(c, k, read).1.Hit?
    requires Others(cfg.ns, keys, k) && |Prefixed(cfg.ns, keys)| < cfg.maxSize.value
    ensures var c' := Run(cfg, DoGet(c, k, read).0, Sets(keys, v, now));
            k in c'.store && DoGet(c, k, read).1 == Hit(c'.store[k])
  {
    AccessMakesNewest(c, k);
    assert {} + Prefixed(cfg.ns, keys) == Prefixed(cfg.ns, keys);
    hide Newest, Recent, Covers;
    SetsKeepNewest(cfg, DoGet(c, k, read).0, k, {}, keys, v, now);
  }

  /** It is tight: one more of them, and the key is gone. */
  lemma {:induction false} HitProtectsNoMore(
    cfg: Config, c: Cache, k: string, read: real, keys: seq<string>, v: Value, now: real)
    requires cfg.maxSize.Some? && cfg.maxSize.value >= 1 && Recent(c)
    requires DoGet(c, k, read).1.Hit?
    requires Others(cfg.ns, keys, k) && |Prefixed(cfg.ns, keys)| >= cfg.maxSize.value
    ensures k !in Run(cfg, DoGet(c, k, read).0, Sets(keys, v, now)).store
  {
    AccessCovers(c.policy.table, c.store.Keys, k);
    assert c.store.Keys + {k} == c.store.Keys;
    assert Recent(DoGet(c, k, read).0);
    AgesOut(cfg, DoGet(c, k, read).0, k, keys, v, now);
  }
}
