/**
 The inclusion property of least-recently-used caches: on the same timed trace, a smaller cache
 never holds or serves anything that a larger one does not.  The trace may read, write, delete,
 clear, change TTLs and count; it uses no tags and no `get_or_set`.  Writes that the policy is not
 told of, which are counters and a `set` whose deadline raises, must hit a key that is in both
 caches or in neither; module LruOutOfStep shows that they must.
 */
module LruInclusion {
  import opened Wrappers
  import opened Values
  import opened Usage
  import opened InMemoryModel
  import opened InMemoryInvariants

  // ---- How the two caches are related ----

  type Ttls = map<string, Option<real>>

  /** Every stored key of the smaller cache has the same value and deadline in the larger one. */
  ghost predicate SameEntries(store: map<string, Value>, ttl: Ttls, store': map<string, Value>, ttl': Ttls) {
    && store.Keys <= store'.Keys
    && (forall k | k in store :: store[k] == store'[k])
    && (forall k | k in store :: (k in ttl <==> k in ttl') && (k in ttl ==> ttl[k] == ttl'[k]))
  }

  /** The table tracks only stored keys. */
  ghost predicate Covers(t: Table, keys: set<string>) {
    WellFormed(t) && t.stats.Keys <= keys && "" !in keys
  }

  ghost predicate Recent(c: Cache) {
    && c.ttl.Keys <= c.store.Keys
    && c.policy.Tracking? && c.policy.kind == Recency
    && Covers(c.policy.table, c.store.Keys)
  }

  /** The tracked keys of s appear in t in the same recency order. */
  ghost predicate SameOrder(s: Table, t: Table) {
    && s.stats.Keys <= t.stats.Keys
    && forall j, k | j in s.stats && k in s.stats ::
         s.stats[j].last < s.stats[k].last <==> t.stats[j].last < t.stats[k].last
  }

  /** The stored keys that are not tracked. */
  function Loose(c: Cache): set<string> {
    c.store.Keys - Tracked(c.policy)
  }

  /** The recency order of a is a subsequence of that of b, and what is not tracked is the same in both. */
  ghost predicate Related(a: Cache, b: Cache) {
    && Recent(a) && Recent(b) && SameEntries(a.store, a.ttl, b.store, b.ttl)
    && SameOrder(a.policy.table, b.policy.table)
    && Loose(a) == Loose(b)
  }

  /** a (of size m) is included in b (of size n). */
  ghost predicate Included(a: Cache, m: int, b: Cache, n: int) {
    Related(a, b) && |b.store.Keys - a.store.Keys| <= n - m
  }

  lemma KeyCount(a: set<string>, b: set<string>)
    requires a <= b
    ensures |b - a| == |b| - |a|
  {}

  // ---- Removals ----

  lemma ForgetKeepsOrder(s: Table, ka: set<string>, t: Table, kb: set<string>)
    requires SameOrder(s, t) && s.stats.Keys * kb <= ka
    ensures SameOrder(Forget(s, ka), Forget(t, kb))
  {}

  lemma RemovalKeepsLoose(a: Cache, ka: set<string>, b: Cache, kb: set<string>)
    requires Loose(a) == Loose(b) && Loose(a) * ka == Loose(b) * kb
    ensures Loose(RemoveKeys(a, ka)) == Loose(RemoveKeys(b, kb))
  {
    LooseAfterRemoval(a, ka);
    LooseAfterRemoval(b, kb);
    assert Loose(a) - ka == Loose(a) - Loose(a) * ka;
    assert Loose(b) - kb == Loose(b) - Loose(b) * kb;
  }

  lemma LooseAfterRemoval(c: Cache, ks: set<string>)
    ensures Loose(RemoveKeys(c, ks)) == Loose(c) - ks
  {}

  lemma RemovalKeepsEntries(
    store: map<string, Value>, ttl: Ttls, ka: set<string>, store': map<string, Value>, ttl': Ttls, kb: set<string>)
    requires SameEntries(store, ttl, store', ttl') && store.Keys * kb <= ka
    ensures SameEntries(store - ka, ttl - ka, store' - kb, ttl' - kb)
  {}

  lemma RemovalKeepsRecent(c: Cache, ks: set<string>)
    requires Recent(c)
    ensures Recent(RemoveKeys(c, ks))
  {}

  lemma {:induction false} RemovalKeepsRelated(a: Cache, ka: set<string>, b: Cache, kb: set<string>)
    requires Related(a, b) && a.store.Keys * kb <= ka && Loose(a) * ka == Loose(b) * kb
    ensures Related(RemoveKeys(a, ka), RemoveKeys(b, kb))
  {
    LooseIsStored(a, ka, kb);
    RemovalKeepsLoose(a, ka, b, kb);
    hide Covers, SameOrder, SameEntries, Loose;
    RemovalKeepsRecent(a, ka);
    RemovalKeepsRecent(b, kb);
    RemovalKeepsEntries(a.store, a.ttl, ka, b.store, b.ttl, kb);
    ForgetKeepsOrder(a.policy.table, ka, b.policy.table, kb);
  }

  lemma LooseIsStored(c: Cache, ka: set<string>, kb: set<string>)
    requires Recent(c) && c.store.Keys * kb <= ka
    ensures c.policy.table.stats.Keys * kb <= ka
  {}

  lemma {:induction false} RemovalKeepsIncluded(a: Cache, ka: set<string>, m: int, b: Cache, kb: set<string>, n: int)
    requires Included(a, m, b, n) && ka <= kb && a.store.Keys * kb <= ka
    ensures Included(RemoveKeys(a, ka), m, RemoveKeys(b, kb), n)
  {
    assert Loose(a) * ka == Loose(b) * kb;
    RemovalKeepsRelated(a, ka, b, kb);
    SubsetIsSmaller((b.store.Keys - kb) - (a.store.Keys - ka), b.store.Keys - a.store.Keys);
  }

  lemma RemovalFromLargerParts(a: Cache, b: Cache, k: string)
    requires Related(a, b) && k !in a.store
    ensures SameEntries(a.store, a.ttl, b.store - {k}, b.ttl - {k})
    ensures k !in a.policy.table.stats && k !in Loose(b)
  {}

  lemma LargerForgets(s: Table, t: Table, k: string)
    requires SameOrder(s, t) && k !in s.stats
    ensures SameOrder(s, Forget(t, {k}))
  {}

  /** Removal from the larger cache of a key the smaller one lacks. */
  lemma RemovalFromLarger(a: Cache, b: Cache, k: string)
    requires Related(a, b) && k !in a.store
    ensures Related(a, RemoveKeys(b, {k}))
  {
    hide Covers, Loose, SameEntries, SameOrder;
    RemovalFromLargerParts(a, b, k);
    LooseAfterRemoval(b, {k});
    assert Loose(b) - {k} == Loose(b);
    LargerForgets(a.policy.table, b.policy.table, k);
    RemovalKeepsRecent(b, {k});
  }

  lemma {:induction false} RemovalFromLargerKeepsIncluded(a: Cache, m: int, b: Cache, n: int, k: string)
    requires Included(a, m, b, n) && k !in a.store
    ensures Included(a, m, RemoveKeys(b, {k}), n)
  {
    RemovalFromLarger(a, b, k);
    SubsetIsSmaller(b.store.Keys - {k} - a.store.Keys, b.store.Keys - a.store.Keys);
  }

  // ---- Accesses ----

  lemma AccessCovers(t: Table, keys: set<string>, k: string)
    requires Covers(t, keys) && k != ""
    ensures Covers(Access(t, k), keys + {k})
  {}

  lemma AccessInBothKeepsOrder(s: Table, t: Table, k: string)
    requires WellFormed(s) && WellFormed(t) && SameOrder(s, t)
    ensures SameOrder(Access(s, k), Access(t, k))
  {}

  lemma AccessInLargerKeepsOrder(s: Table, t: Table, k: string)
    requires SameOrder(s, t) && k !in s.stats
    ensures SameOrder(s, Access(t, k))
  {}

  lemma StoredKey(a: Cache, b: Cache, k: string)
    requires Related(a, b) && k in b.store
    ensures k != "" && a.store.Keys <= b.store.Keys
    ensures k !in a.store ==> k in b.policy.table.stats && k !in a.policy.table.stats
  {
    if k !in a.store { assert k !in Loose(a); }
  }

  lemma RelatedTables(a: Cache, b: Cache)
    requires Related(a, b)
    ensures WellFormed(a.policy.table) && WellFormed(b.policy.table)
  {}

  lemma AccessKeepsLoose(a: Cache, b: Cache, k: string)
    requires a.policy.Tracking? && b.policy.Tracking? && Loose(a) == Loose(b)
    ensures Loose(b.(policy := NoteAccess(b.policy, k))) == Loose(b) - {k}
    ensures Loose(a.(policy := NoteAccess(a.policy, k))) == Loose(a) - {k}
  {}

  lemma {:induction false} AccessInBoth(a: Cache, b: Cache, k: string)
    requires Related(a, b) && k in a.store
    ensures Related(a.(policy := NoteAccess(a.policy, k)), b.(policy := NoteAccess(b.policy, k)))
  {
    SmallerKey(a, b, k);
    StoredKey(a, b, k);
    RelatedTables(a, b);
    hide SameOrder, Covers, SameEntries, Loose, WellFormed;
    assert a.store.Keys + {k} == a.store.Keys && b.store.Keys + {k} == b.store.Keys;
    AccessCovers(a.policy.table, a.store.Keys, k);
    AccessCovers(b.policy.table, b.store.Keys, k);
    AccessInBothKeepsOrder(a.policy.table, b.policy.table, k);
    AccessKeepsLoose(a, b, k);
  }

  lemma SmallerKey(a: Cache, b: Cache, k: string)
    requires Related(a, b) && k in a.store
    ensures k in b.store
  {}

  lemma AccessInLarger(a: Cache, b: Cache, k: string)
    requires Related(a, b) && k in b.store && k !in a.store
    ensures Related(a, b.(policy := NoteAccess(b.policy, k)))
  {
    StoredKey(a, b, k);
    assert Loose(b) - {k} == Loose(b);
    hide SameOrder, Covers, SameEntries, Loose;
    assert b.store.Keys + {k} == b.store.Keys;
    AccessCovers(b.policy.table, b.store.Keys, k);
    AccessInLargerKeepsOrder(a.policy.table, b.policy.table, k);
    AccessKeepsLoose(a, b, k);
  }

  // ---- Sets ----

  lemma PutKeepsEntries(
    store: map<string, Value>, ttl: Ttls, store': map<string, Value>, ttl': Ttls, k: string, v: Value,
    until: Option<real>)
    requires SameEntries(store, ttl, store', ttl')
    ensures SameEntries(store[k := v], ttl[k := until], store'[k := v], ttl'[k := until])
  {}

  lemma PutKeepsRecent(c: Cache, k: string, v: Value, until: Option<real>)
    requires Recent(c) && k != ""
    ensures Recent(Put(c, k, v, until)) && Put(c, k, v, until).store.Keys == c.store.Keys + {k}
    ensures Loose(Put(c, k, v, until)) == Loose(c) - {k}
  {
    AccessCovers(c.policy.table, c.store.Keys, k);
  }

  lemma {:induction false} PutKeepsRelated(a: Cache, b: Cache, k: string, v: Value, until: Option<real>)
    requires Related(a, b) && k != ""
    ensures Related(Put(a, k, v, until), Put(b, k, v, until))
  {
    RelatedTables(a, b);
    PutKeepsEntries(a.store, a.ttl, b.store, b.ttl, k, v, until);
    hide SameOrder, Covers, Loose, WellFormed;
    PutKeepsRecent(a, k, v, until);
    PutKeepsRecent(b, k, v, until);
    AccessInBothKeepsOrder(a.policy.table, b.policy.table, k);
  }

  // ---- Evictions ----

  /** The victim of the larger cache, if the smaller one tracks it, is its victim too. */
  lemma {:induction false} SameVictim(a: Cache, b: Cache, u: string, v: string)
    requires Related(a, b) && v in Tracked(a.policy)
    requires IsVictim(Recency, a.policy.table, u) && IsVictim(Recency, b.policy.table, v)
    ensures u == v
  {}

  lemma VictimLeavesSmaller(a: Cache, b: Cache, u: string)
    requires Related(a, b) && u in Tracked(a.policy)
    ensures Related(RemoveKeys(a, {u}), b)
  {
    assert Loose(RemoveKeys(a, {u})) == Loose(a);
  }

  lemma VictimLeavesLarger(a: Cache, b: Cache, v: string)
    requires Related(a, b) && v in Tracked(b.policy) && v !in Tracked(a.policy)
    ensures v !in a.store
  {
    assert v !in Loose(b);
  }

  lemma {:induction false} BothEvict(a: Cache, u: string, b: Cache, v: string)
    requires Related(a, b)
    requires IsVictim(Recency, a.policy.table, u) && IsVictim(Recency, b.policy.table, v)
    ensures Related(RemoveKeys(a, {u}), RemoveKeys(b, {v}))
  {
    assert v !in Loose(b);
    if v in Tracked(a.policy) {
      SameVictim(a, b, u, v);
      RemovalKeepsRelated(a, {u}, b, {v});
    } else {
      VictimLeavesLarger(a, b, v);
      VictimLeavesSmaller(a, b, u);
      RemovalFromLarger(RemoveKeys(a, {u}), b, v);
    }
  }

  /** Of a recency policy that tracks something, the victim is a stored key that is not empty. */
  lemma TheVictim(c: Cache)
    requires Recent(c)
    ensures var v := Victim(Recency, c.policy.table);
            && (v.None? ==> Tracked(c.policy) == {})
            && (v.Some? ==> v.value != "" && v.value in Tracked(c.policy) && v.value in c.store
                            && |RemoveKeys(c, {v.value}).store| == |c.store| - 1
                            && Tracked(RemoveKeys(c, {v.value}).policy) < Tracked(c.policy))
  {
    if c.policy.table.stats != map[] { VictimExists(Recency, c.policy.table); }
    var v := Victim(Recency, c.policy.table);
    if v.Some? {
      assert v.value in Tracked(c.policy);
      var c' := RemoveKeys(c, {v.value});
      assert c'.store.Keys == c.store.Keys - {v.value};
      assert |c'.store| == |c'.store.Keys| && |c.store| == |c.store.Keys|;
    }
  }

  lemma SmallerStore(a: Cache, b: Cache)
    requires Related(a, b)
    ensures |b.store.Keys - a.store.Keys| == |b.store| - |a.store|
    ensures Recent(a) && Recent(b) && a.policy.kind == Recency == b.policy.kind
    ensures Tracked(a.policy) <= Tracked(b.policy)
  {
    KeyCount(a.store.Keys, b.store.Keys);
    assert |b.store| == |b.store.Keys| && |a.store| == |a.store.Keys|;
  }

  /** Both eviction loops, which may run differently often, keep the smaller cache included. */
  lemma {:induction false} EvictionKeepsIncluded(a: Cache, m: int, b: Cache, n: int)
    requires Included(a, m, b, n)
    ensures Included(EvictDownTo(a, m), m, EvictDownTo(b, n), n)
    decreases Tracked(a.policy), Tracked(b.policy)
  {
    SmallerStore(a, b);
    hide Related, Recent, Tracked, RemoveKeys;
    if |a.store| > m {
      TheVictim(a);
      TheVictim(b);
      var u, v := Victim(Recency, a.policy.table), Victim(Recency, b.policy.table);
      if u.Some? && |b.store| <= n {
        VictimLeavesSmaller(a, b, u.value);
        SmallerStore(RemoveKeys(a, {u.value}), b);
        EvictionKeepsIncluded(RemoveKeys(a, {u.value}), m, b, n);
      } else if u.Some? && v.Some? {
        BothEvict(a, u.value, b, v.value);
        SmallerStore(RemoveKeys(a, {u.value}), RemoveKeys(b, {v.value}));
        EvictionKeepsIncluded(RemoveKeys(a, {u.value}), m, RemoveKeys(b, {v.value}), n);
      } else if |b.store| > n && v.Some? {
        VictimLeavesLarger(a, b, v.value);
        RemovalFromLarger(a, b, v.value);
        SmallerStore(a, RemoveKeys(b, {v.value}));
        EvictionKeepsIncluded(a, m, RemoveKeys(b, {v.value}), n);
      }
    }
  }

  /** A `set` in both caches, up to and including the evictions. */
  lemma {:induction false} PutKeepsIncluded(
    a: Cache, m: int, b: Cache, n: int, k: string, v: Value, until: Option<real>)
    requires k != "" && Included(a, m, b, n)
    ensures Included(EvictDownTo(Put(a, k, v, until), m), m, EvictDownTo(Put(b, k, v, until), n), n)
  {
    hide Related, EvictDownTo, Put;
    PutKeepsRelated(a, b, k, v, until);
    SubsetIsSmaller((b.store.Keys + {k}) - (a.store.Keys + {k}), b.store.Keys - a.store.Keys);
    EvictionKeepsIncluded(Put(a, k, v, until), m, Put(b, k, v, until), n);
  }

  // ---- Writes that the policy is not told of ----

  function Unnoted(c: Cache, k: string, v: Value, until: Option<Option<real>>): Cache {
    c.(store := c.store[k := v], ttl := if until.Some? then c.ttl[k := until.value] else c.ttl)
  }

  lemma SameDifference(a: set<string>, b: set<string>, k: string)
    requires k in b ==> k in a
    ensures (b + {k}) - (a + {k}) == b - a
  {}

  lemma UnnotedStores(c: Cache, k: string, v: Value, until: Option<Option<real>>)
    ensures Unnoted(c, k, v, until).store.Keys == c.store.Keys + {k}
  {}

  /** They keep the relation of the two caches when the key is in both or in neither. */
  lemma {:induction false} UnnotedKeepsIncluded(
    a: Cache, m: int, b: Cache, n: int, k: string, v: Value, until: Option<Option<real>>)
    requires Included(a, m, b, n) && k != "" && (k in b.store ==> k in a.store)
    ensures Included(Unnoted(a, k, v, until), m, Unnoted(b, k, v, until), n)
  {
    hide Related, Unnoted;
    UnnotedStores(a, k, v, until);
    UnnotedStores(b, k, v, until);
    UnnotedKeepsParts(a, b, k, v, until);
    SameDifference(a.store.Keys, b.store.Keys, k);
  }

  lemma UnnotedKeepsEntries(
    store: map<string, Value>, ttl: Ttls, store': map<string, Value>, ttl': Ttls, k: string, v: Value,
    until: Option<Option<real>>)
    requires SameEntries(store, ttl, store', ttl') && ttl.Keys <= store.Keys && ttl'.Keys <= store'.Keys
    requires k in store' ==> k in store
    ensures SameEntries(store[k := v], if until.Some? then ttl[k := until.value] else ttl,
                        store'[k := v], if until.Some? then ttl'[k := until.value] else ttl')
  {}

  lemma UnnotedKeepsRecent(c: Cache, k: string, v: Value, until: Option<Option<real>>)
    requires Recent(c) && k != ""
    ensures Recent(Unnoted(c, k, v, until))
    ensures Loose(Unnoted(c, k, v, until)) == Loose(c) + ({k} - Tracked(c.policy))
  {}

  lemma SameLoose(a: Cache, b: Cache, k: string)
    requires Related(a, b) && (k in b.store ==> k in a.store)
    ensures Loose(a) + ({k} - Tracked(a.policy)) == Loose(b) + ({k} - Tracked(b.policy))
  {
    if k in a.store { assert k in Loose(a) <==> k in Loose(b); }
  }

  lemma UnnotedKeepsParts(a: Cache, b: Cache, k: string, v: Value, until: Option<Option<real>>)
    requires Related(a, b) && k != "" && (k in b.store ==> k in a.store)
    ensures Related(Unnoted(a, k, v, until), Unnoted(b, k, v, until))
  {
    hide SameOrder, Loose, SameEntries, Covers, Tracked;
    SameLoose(a, b, k);
    UnnotedKeepsRecent(a, k, v, until);
    UnnotedKeepsRecent(b, k, v, until);
    UnnotedKeepsEntries(a.store, a.ttl, b.store, b.ttl, k, v, until);
  }

  lemma IncrIsUnnoted(c: Cache, k: string, delta: int, ttl: Option<int>, now: real)
    returns (v: Option<Value>, until: Option<Option<real>>)
    ensures DoIncr(c, k, delta, ttl, now).0 == if v.Some? then Unnoted(c, k, v.value, until) else c
    ensures v == (var n := if k in c.store then c.store[k].AsInt() else Some(0);
                  if n.Some? then Some(Number(n.value + delta)) else None)
    ensures until == if k !in c.store && ttl.Some? && ttl.value > 0 && !Overflows(ttl, now)
                     then Some(Until(ttl, now)) else None
  {
    var n := if k in c.store then c.store[k].AsInt() else Some(0);
    v := if n.Some? then Some(Number(n.value + delta)) else None;
    until := if k !in c.store && ttl.Some? && ttl.value > 0 && !Overflows(ttl, now)
             then Some(Until(ttl, now)) else None;
  }

  lemma SameValue(a: Cache, b: Cache, k: string)
    requires Related(a, b) && (k in b.store ==> k in a.store)
    ensures k in a.store <==> k in b.store
    ensures k in a.store ==> a.store[k] == b.store[k]
  {}

  lemma {:induction false} IncrKeepsIncluded(
    a: Cache, m: int, b: Cache, n: int, k: string, delta: int, ttl: Option<int>, now: real)
    requires Included(a, m, b, n) && k != "" && (k in b.store ==> k in a.store)
    ensures Included(DoIncr(a, k, delta, ttl, now).0, m, DoIncr(b, k, delta, ttl, now).0, n)
  {
    hide Related, DoIncr, Unnoted, Overflows;
    SameValue(a, b, k);
    var v, until := IncrIsUnnoted(a, k, delta, ttl, now);
    var w, until' := IncrIsUnnoted(b, k, delta, ttl, now);
    assert w == v && until' == until;
    if v.Some? { UnnotedKeepsIncluded(a, m, b, n, k, v.value, until); }
  }

  // ---- Whole traces ----

  ghost predicate TraceOp(ns: string, op: Op) {
    match op
    case Clear(_) => true
    case GetOrSet(_, _, _) => false
    case InvalidateTags(_) => false
    case AddTags(_, _) => false
    case _ => ns + op.key != ""
  }

  /** The call writes a key of which the policy is not told. */
  predicate IsUnnoted(now: real, op: Op) {
    op.Incr? || (op.Set? && Overflows(op.ttl, now))
  }

  /** Such writes hit a key that is in both caches or in neither. */
  ghost predicate InStep(ns: string, a: Cache, b: Cache, now: real, op: Op) {
    IsUnnoted(now, op) ==> (ns + op.key in b.store ==> ns + op.key in a.store)
  }

  /** What the smaller cache answers is the larger one's answer, or a miss. */
  ghost predicate SameHit(a: Out, b: Out) {
    a == b || a == Missing || a == Flag(false) || a == Remaining(None)
  }

  lemma SameKeysKeepIncluded(a: Cache, m: int, b: Cache, n: int, a': Cache, b': Cache)
    requires Included(a, m, b, n) && Related(a', b')
    requires a'.store.Keys == a.store.Keys && b'.store.Keys == b.store.Keys
    ensures Included(a', m, b', n)
  {}

  /** A key leaves the larger cache, and the smaller one if it is there. */
  lemma {:induction false} DropKeepsIncluded(a: Cache, m: int, b: Cache, n: int, k: string)
    requires Included(a, m, b, n)
    ensures Included(if k in a.store then RemoveKeys(a, {k}) else a, m, RemoveKeys(b, {k}), n)
  {
    if k in a.store {
      RemovalKeepsIncluded(a, {k}, m, b, {k}, n);
    } else {
      RemovalFromLargerKeepsIncluded(a, m, b, n, k);
    }
  }

  lemma SameExpiry(a: Cache, m: int, b: Cache, n: int, k: string, now: real)
    requires Included(a, m, b, n)
    ensures k in a.store ==> k in b.store && (Expired(a, k, now) <==> Expired(b, k, now))
    ensures Expired(a, k, now) ==> k in a.store
  {}

  lemma {:induction false} CleanupKeepsIncluded(a: Cache, m: int, b: Cache, n: int, k: string, now: real)
    requires Included(a, m, b, n)
    ensures Included(CleanupIfExpired(a, k, now), m, CleanupIfExpired(b, k, now), n)
  {
    hide Included;
    SameExpiry(a, m, b, n, k, now);
    DropKeepsIncluded(a, m, b, n, k);
  }

  lemma {:induction false} AccessKeepsIncluded(a: Cache, m: int, b: Cache, n: int, k: string)
    requires Included(a, m, b, n) && k in b.store
    ensures Included(if k in a.store then a.(policy := NoteAccess(a.policy, k)) else a, m,
                     b.(policy := NoteAccess(b.policy, k)), n)
  {
    var b' := b.(policy := NoteAccess(b.policy, k));
    if k in a.store {
      var a' := a.(policy := NoteAccess(a.policy, k));
      AccessInBoth(a, b, k);
      SameKeysKeepIncluded(a, m, b, n, a', b');
    } else {
      AccessInLarger(a, b, k);
      SameKeysKeepIncluded(a, m, b, n, a, b');
    }
  }

  lemma {:induction false} GetKeepsIncluded(a: Cache, m: int, b: Cache, n: int, k: string, now: real)
    requires Included(a, m, b, n)
    ensures Included(DoGet(a, k, now).0, m, DoGet(b, k, now).0, n)
  {
    hide Included;
    SameExpiry(a, m, b, n, k, now);
    if k in b.store && !Expired(b, k, now) {
      AccessKeepsIncluded(a, m, b, n, k);
    } else {
      CleanupKeepsIncluded(a, m, b, n, k, now);
    }
  }

  /** A new deadline in the larger cache, and in the smaller one if the key is there. */
  lemma DeadlineKeepsRelated(a: Cache, b: Cache, k: string, until: Option<real>)
    requires Related(a, b) && k in b.store
    ensures Related(if k in a.store then a.(ttl := a.ttl[k := until]) else a, b.(ttl := b.ttl[k := until]))
  {
    hide SameOrder, Covers;
  }

  lemma {:induction false} DeadlineKeepsIncluded(a: Cache, m: int, b: Cache, n: int, k: string, until: Option<real>)
    requires Included(a, m, b, n) && k in b.store
    ensures Included(if k in a.store then a.(ttl := a.ttl[k := until]) else a, m, b.(ttl := b.ttl[k := until]), n)
  {
    DeadlineKeepsRelated(a, b, k, until);
    SameKeysKeepIncluded(a, m, b, n,
                         if k in a.store then a.(ttl := a.ttl[k := until]) else a, b.(ttl := b.ttl[k := until]));
  }

  lemma {:induction false} ExpireKeepsIncluded(a: Cache, m: int, b: Cache, n: int, k: string, ttl: int, now: real)
    requires Included(a, m, b, n)
    ensures Included(DoExpire(a, k, ttl, now).0, m, DoExpire(b, k, ttl, now).0, n)
  {
    if k in b.store {
      if ttl <= 0 { DropKeepsIncluded(a, m, b, n, k); }
      else if !Overflows(Some(ttl), now) { DeadlineKeepsIncluded(a, m, b, n, k, Some(now + ttl as real)); }
    }
  }

  lemma {:induction false} ExpireAtKeepsIncluded(a: Cache, m: int, b: Cache, n: int, k: string, when: real, now: real)
    requires Included(a, m, b, n)
    ensures Included(DoExpireAt(a, k, when, now).0, m, DoExpireAt(b, k, when, now).0, n)
  {
    if k in b.store {
      if when > now { DeadlineKeepsIncluded(a, m, b, n, k, Some(when)); } else { DropKeepsIncluded(a, m, b, n, k); }
    }
  }

  lemma {:induction false} TouchKeepsIncluded(
    a: Cache, m: int, b: Cache, n: int, k: string, ttl: Option<int>, now: real)
    requires Included(a, m, b, n)
    ensures Included(DoTouch(a, k, ttl, now).0, m, DoTouch(b, k, ttl, now).0, n)
  {
    hide Included, DoExpire;
    if ttl.Some? { ExpireKeepsIncluded(a, m, b, n, k, ttl.value, now); }
  }

  lemma {:induction false} PersistKeepsIncluded(a: Cache, m: int, b: Cache, n: int, k: string)
    requires Included(a, m, b, n)
    ensures Included(DoPersist(a, k).0, m, DoPersist(b, k).0, n)
  {
    if k in b.store { DeadlineKeepsIncluded(a, m, b, n, k, None); }
  }

  lemma {:induction false} ClearKeepsIncluded(ca: Config, a: Cache, cb: Config, b: Cache, all: bool)
    requires ca.ns == cb.ns && ca.maxSize.Some? && cb.maxSize.Some? && 1 <= ca.maxSize.value <= cb.maxSize.value
    requires Included(a, ca.maxSize.value, b, cb.maxSize.value)
    ensures Included(DoClear(ca, a, all), ca.maxSize.value, DoClear(cb, b, all), cb.maxSize.value)
  {
    if ca.ns != "" && !all {
      RemovalKeepsIncluded(a, InNamespace(a, ca.ns), ca.maxSize.value, b, InNamespace(b, cb.ns), cb.maxSize.value);
    }
  }

  /** The operations that set or clear a deadline. */
  lemma {:induction false} DeadlineOpKeepsIncluded(
    cfg: Config, a: Cache, m: int, cfg': Config, b: Cache, n: int, now: real, op: Op)
    requires cfg.ns == cfg'.ns && Included(a, m, b, n)
    requires op.Expire? || op.ExpireAt? || op.Touch? || op.Persist?
    ensures Included(Step(cfg, a, now, op).0, m, Step(cfg', b, now, op).0, n)
  {
    hide Included, DoGet, DoSet, DoDelete, DoExists, DoClear, DoGetOrSet, DoTtl, DoIncr, DoInvalidateTags, DoAddTags,
      DoExpire, DoExpireAt, DoPersist, DoTouch;
    var k := cfg.ns + op.key;
    if op.Expire? { ExpireKeepsIncluded(a, m, b, n, k, op.seconds, now); }
    else if op.ExpireAt? { ExpireAtKeepsIncluded(a, m, b, n, k, op.when, now); }
    else if op.Touch? { TouchKeepsIncluded(a, m, b, n, k, op.ttl, now); }
    else { PersistKeepsIncluded(a, m, b, n, k); }
  }

  lemma {:induction false} ReadOrDeleteKeepsIncluded(
    cfg: Config, a: Cache, m: int, cfg': Config, b: Cache, n: int, now: real, op: Op)
    requires cfg.ns == cfg'.ns && Included(a, m, b, n)
    requires op.Get? || op.Delete? || op.Exists? || op.Ttl?
    ensures Included(Step(cfg, a, now, op).0, m, Step(cfg', b, now, op).0, n)
  {
    hide Included, DoGet, RemoveKeys, CleanupIfExpired;
    match op
    case Get(k) => GetKeepsIncluded(a, m, b, n, cfg.ns + k, now);
    case Delete(k) => RemovalKeepsIncluded(a, {cfg.ns + k}, m, b, {cfg.ns + k}, n);
    case Exists(k) => CleanupKeepsIncluded(a, m, b, n, cfg.ns + k, now);
    case Ttl(k) => CleanupKeepsIncluded(a, m, b, n, cfg.ns + k, now);
  }

  lemma {:induction false} StepKeepsIncluded(ca: Config, a: Cache, cb: Config, b: Cache, now: real, op: Op)
    requires ca.ns == cb.ns && ca.maxSize.Some? && cb.maxSize.Some? && 1 <= ca.maxSize.value <= cb.maxSize.value
    requires TraceOp(ca.ns, op) && InStep(ca.ns, a, b, now, op) && Included(a, ca.maxSize.value, b, cb.maxSize.value)
    ensures Included(Step(ca, a, now, op).0, ca.maxSize.value, Step(cb, b, now, op).0, cb.maxSize.value)
  {
    hide Included, DoSet, DoClear, DoIncr;
    if op.Expire? || op.ExpireAt? || op.Touch? || op.Persist? {
      DeadlineOpKeepsIncluded(ca, a, ca.maxSize.value, cb, b, cb.maxSize.value, now, op);
    } else if op.Clear? {
      ClearKeepsIncluded(ca, a, cb, b, op.all);
    } else if op.Set? {
      SetKeepsIncluded(ca, a, cb, b, ca.ns + op.key, op.value, op.ttl, now);
    } else if op.Incr? {
      IncrKeepsIncluded(a, ca.maxSize.value, b, cb.maxSize.value, ca.ns + op.key, op.delta, op.ttl, now);
    } else {
      ReadOrDeleteKeepsIncluded(ca, a, ca.maxSize.value, cb, b, cb.maxSize.value, now, op);
    }
  }

  /** A hit in the smaller cache is the same hit in the larger one. */
  lemma {:induction false} HitsAgree(ca: Config, a: Cache, cb: Config, b: Cache, now: real, op: Op)
    requires ca.ns == cb.ns && TraceOp(ca.ns, op) && InStep(ca.ns, a, b, now, op)
    requires SameEntries(a.store, a.ttl, b.store, b.ttl) && a.ttl.Keys <= a.store.Keys && b.ttl.Keys <= b.store.Keys
    ensures SameHit(Step(ca, a, now, op).1, Step(cb, b, now, op).1)
  {}

  lemma {:induction false} SetKeepsIncluded(
    ca: Config, a: Cache, cb: Config, b: Cache, k: string, v: Value, ttl: Option<int>, now: real)
    requires ca.maxSize.Some? && cb.maxSize.Some? && k != ""
    requires Included(a, ca.maxSize.value, b, cb.maxSize.value)
    requires Overflows(ttl, now) ==> (k in b.store ==> k in a.store)
    ensures Included(DoSet(ca, a, k, v, ttl, now), ca.maxSize.value, DoSet(cb, b, k, v, ttl, now), cb.maxSize.value)
  {
    hide Included, RemoveKeys, Put, EvictDownTo;
    if ttl.Some? && ttl.value <= 0 {
      RemovalKeepsIncluded(a, {k}, ca.maxSize.value, b, {k}, cb.maxSize.value);
    } else if Overflows(ttl, now) {
      UnnotedKeepsIncluded(a, ca.maxSize.value, b, cb.maxSize.value, k, v, None);
    } else {
      PutKeepsIncluded(a, ca.maxSize.value, b, cb.maxSize.value, k, v, Until(ttl, now));
    }
  }

  /** Each write of the trace that the policy is not told of hits a key in both caches or in neither. */
  ghost predicate RunInStep(ca: Config, a: Cache, cb: Config, b: Cache, calls: seq<Call>)
    decreases |calls|
  {
    calls == [] ||
    (var call := calls[0];
     && InStep(ca.ns, a, b, call.now, call.op)
     && RunInStep(ca, Step(ca, a, call.now, call.op).0, cb, Step(cb, b, call.now, call.op).0, calls[1..]))
  }

  lemma PlainRunIsInStep(ca: Config, a: Cache, cb: Config, b: Cache, calls: seq<Call>)
    requires forall i | 0 <= i < |calls| :: !IsUnnoted(calls[i].now, calls[i].op)
    ensures RunInStep(ca, a, cb, b, calls)
    decreases |calls|
  {
    if calls != [] {
      var a', b' := Step(ca, a, calls[0].now, calls[0].op).0, Step(cb, b, calls[0].now, calls[0].op).0;
      PlainRunIsInStep(ca, a', cb, b', calls[1..]);
    }
  }

  /**
   Inclusion over whole runs from empty caches: after every trace the smaller cache is included
   in the larger one, and whatever call comes next, a hit in the smaller is the same hit in the
   larger.
   */
  lemma {:induction false} LruInclusion(ca: Config, cb: Config, calls: seq<Call>, next: Call)
    requires ca.ns == cb.ns && ca.maxSize.Some? && cb.maxSize.Some? && 1 <= ca.maxSize.value <= cb.maxSize.value
    requires TraceOp(ca.ns, next.op) && forall i | 0 <= i < |calls| :: TraceOp(ca.ns, calls[i].op)
    requires RunInStep(ca, Initial(Tracking(Recency, EMPTY)), cb, Initial(Tracking(Recency, EMPTY)), calls)
    ensures var empty := Initial(Tracking(Recency, EMPTY));
            var a, b := Run(ca, empty, calls), Run(cb, empty, calls);
            && Included(a, ca.maxSize.value, b, cb.maxSize.value)
            && (InStep(ca.ns, a, b, next.now, next.op)
                ==> SameHit(Step(ca, a, next.now, next.op).1, Step(cb, b, next.now, next.op).1))
  {
    var empty := Initial(Tracking(Recency, EMPTY));
    RunKeepsIncluded(ca, empty, cb, empty, calls);
    var a, b := Run(ca, empty, calls), Run(cb, empty, calls);
    if InStep(ca.ns, a, b, next.now, next.op) { HitsAgree(ca, a, cb, b, next.now, next.op); }
  }

  lemma {:induction false} RunKeepsIncluded(ca: Config, a: Cache, cb: Config, b: Cache, calls: seq<Call>)
    requires ca.ns == cb.ns && ca.maxSize.Some? && cb.maxSize.Some? && 1 <= ca.maxSize.value <= cb.maxSize.value
    requires forall i | 0 <= i < |calls| :: TraceOp(ca.ns, calls[i].op)
    requires Included(a, ca.maxSize.value, b, cb.maxSize.value) && RunInStep(ca, a, cb, b, calls)
    ensures Included(Run(ca, a, calls), ca.maxSize.value, Run(cb, b, calls), cb.maxSize.value)
    decreases |calls|
  {
    if calls != [] {
      var call := calls[0];
      StepKeepsIncluded(ca, a, cb, b, call.now, call.op);
      RunKeepsIncluded(ca, Step(ca, a, call.now, call.op).0, cb, Step(cb, b, call.now, call.op).0, calls[1..]);
    }
  }
}
