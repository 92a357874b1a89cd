/**
 `InMemoryCache` of `cachine/backends/inmemory/cache.py`: the class with its maps changed in
 place.  Every method is proved to change the state as module InMemoryModel says, and to keep
 the global invariant of module InMemoryInvariants.
 */
module InMemoryCacheClass {
  import opened Wrappers
  import opened Values
  import opened Usage
  import opened Eviction
  import opened InMemoryModel
  import opened InMemoryInvariants
  import Proof = InMemoryMeetsSpec
  import S = InMemorySpec

  /** The policy object a cache holds, if any. */
  datatype PolicyObject = Nothing | LruObject(lru: LruEviction) | LfuObject(lfu: LfuEviction)

  function Footprint(p: PolicyObject): set<object> {
    match p
    case Nothing => {}
    case LruObject(lru) => {lru}
    case LfuObject(lfu) => {lfu}
  }

  ghost predicate PolicyValid(p: PolicyObject)
    reads Footprint(p)
  {
    match p
    case Nothing => true
    case LruObject(lru) => lru.Valid()
    case LfuObject(lfu) => lfu.Valid()
  }

  ghost function PolicyState(p: PolicyObject): Policy
    reads Footprint(p)
  {
    match p
    case Nothing => NoPolicy
    case LruObject(lru) => Tracking(Recency, lru.table)
    case LfuObject(lfu) => Tracking(Frequency, lfu.table)
  }

  // ---- Removals compose ----

  lemma RemovalsCompose(c: Cache, a: set<string>, b: set<string>)
    ensures RemoveKeys(RemoveKeys(c, a), b) == RemoveKeys(c, a + b)
  {
    var l, r := RemoveKeys(RemoveKeys(c, a), b), RemoveKeys(c, a + b);
    assert l.store == r.store && l.ttl == r.ttl && l.keyToTags == r.keyToTags;
    assert l.policy == r.policy by {
      if c.policy.Tracking? { assert c.policy.table.stats - a - b == c.policy.table.stats - (a + b); }
    }
    TagSetsCompose(c.tagToKeys, a, b);
  }

  lemma TagSetsCompose(index: map<string, set<string>>, a: set<string>, b: set<string>)
    ensures Pruned(Pruned(index, a), b) == Pruned(index, a + b)
  {
    forall t | t in index ensures index[t] - a - b == index[t] - (a + b) {}
  }

  /** The index after k has left the tags `done`. */
  ghost function PrunedIn(index: map<string, set<string>>, k: string, done: set<string>): map<string, set<string>> {
    map t | t in index && (t in done ==> index[t] - {k} != {}) :: if t in done then index[t] - {k} else index[t]
  }

  lemma NothingPruned(index: map<string, set<string>>, k: string)
    ensures PrunedIn(index, k, {}) == index
  {}

  lemma PrunedInOneMore(index: map<string, set<string>>, k: string, done: set<string>, t: string)
    requires t !in done
    ensures var now := PrunedIn(index, k, done);
            PrunedIn(index, k, done + {t}) ==
            if t !in now then now else if now[t] - {k} == {} then now - {t} else now[t := now[t] - {k}]
  {}

  lemma AllPruned(before: Cache, k: string, tags: set<string>)
    requires Inv(before) && tags == Lookup(before.keyToTags, k)
    ensures PrunedIn(before.tagToKeys, k, tags) == Pruned(before.tagToKeys, {k})
  {
    forall t | t in before.tagToKeys && t !in tags ensures before.tagToKeys[t] - {k} == before.tagToKeys[t] {
      assert k in Lookup(before.tagToKeys, t) <==> t in Lookup(before.keyToTags, k);
    }
  }

  class InMemoryCache {
    const cfg: Config
    var store: map<string, Value>
    var ttl: map<string, Option<real>>
    var tagToKeys: map<string, set<string>>
    var keyToTags: map<string, set<string>>
    var policy: PolicyObject

    ghost function Model(): Cache
      reads this, Footprint(policy)
    {
      Cache(store, ttl, tagToKeys, keyToTags, PolicyState(policy))
    }

    ghost predicate Valid()
      reads this, Footprint(policy)
    {
      PolicyValid(policy) && Inv(Model())
    }

    /** `eviction_policy or (LRUEviction() if max_size else None)`, for an unused policy object. */
    constructor (maxSize: Option<int>, evictionPolicy: PolicyObject, namespace: string)
      requires PolicyValid(evictionPolicy)
      requires evictionPolicy != Nothing ==> PolicyState(evictionPolicy).table == EMPTY
      ensures Valid() && (policy == evictionPolicy || fresh(Footprint(policy)))
      ensures cfg == Config(if namespace == "" then "" else namespace + ":", maxSize)
      ensures Model() == Initial(if evictionPolicy != Nothing then PolicyState(evictionPolicy)
                                 else if maxSize.Some? && maxSize.value != 0
                                 then Tracking(Recency, EMPTY) else NoPolicy)
    {
      cfg := Config(if namespace == "" then "" else namespace + ":", maxSize);
      store, ttl, tagToKeys, keyToTags := map[], map[], map[], map[];
      var chosen := evictionPolicy;
      if evictionPolicy == Nothing && maxSize.Some? && maxSize.value != 0 {
        var lru := new LruEviction();
        chosen := LruObject(lru);
      }
      policy := chosen;
    }

    // ---- Policy calls ----

    method NoteAccess(k: string)
      requires PolicyValid(policy)
      modifies Footprint(policy)
      ensures PolicyValid(policy)
      ensures PolicyState(policy) == InMemoryModel.NoteAccess(old(PolicyState(policy)), k)
    {
      match policy
      case Nothing =>
      case LruObject(lru) => lru.NoteAccess(k);
      case LfuObject(lfu) => lfu.NoteAccess(k);
    }

    method NoteRemove(k: string)
      requires PolicyValid(policy)
      modifies Footprint(policy)
      ensures PolicyValid(policy)
      ensures PolicyState(policy) == InMemoryModel.NoteRemove(old(PolicyState(policy)), {k})
    {
      match policy
      case Nothing =>
      case LruObject(lru) => lru.NoteRemove(k);
      case LfuObject(lfu) => lfu.NoteRemove(k);
    }

    method EvictOne() returns (victim: Option<string>)
      requires PolicyValid(policy) && policy != Nothing
      modifies Footprint(policy)
      ensures PolicyValid(policy)
      ensures var p := old(PolicyState(policy));
              && victim == Victim(p.kind, p.table)
              && PolicyState(policy) == if victim.Some? then InMemoryModel.NoteRemove(p, {victim.value}) else p
    {
      match policy
      case LruObject(lru) => victim := lru.EvictOne();
      case LfuObject(lfu) => victim := lfu.EvictOne();
    }

    // ---- Helpers ----

    /** `_remove_key` */
    method RemoveKey(k: string)
      requires Valid()
      modifies this, Footprint(policy)
      ensures Valid() && policy == old(policy)
      ensures Model() == RemoveKeys(old(Model()), {k})
    {
      hide Inv, Pruned, Tracked, InMemoryModel.NoteRemove;
      ghost var before := Model();
      RemoveKeepsInv(before, {k});
      DropEntry(k, before);
      assert PolicyValid(policy) && PolicyState(policy) == before.policy;
      NoteRemove(k);
    }

    /** The part of `_remove_key` on the maps. */
    method DropEntry(k: string, ghost before: Cache)
      requires Inv(before) && tagToKeys == before.tagToKeys && keyToTags == before.keyToTags
      modifies this`store, this`ttl, this`tagToKeys, this`keyToTags
      ensures store == old(store) - {k} && ttl == old(ttl) - {k} && keyToTags == old(keyToTags) - {k}
      ensures tagToKeys == Pruned(old(tagToKeys), {k})
    {
      hide Inv, Pruned;
      store := store - {k};
      ttl := ttl - {k};
      var tags := Lookup(keyToTags, k);
      keyToTags := keyToTags - {k};
      PruneTags(k, tags, before);
    }

    /** The loop of `_remove_key` over the tags of k. */
    method PruneTags(k: string, tags: set<string>, ghost before: Cache)
      requires Inv(before) && tags == Lookup(before.keyToTags, k) && tagToKeys == before.tagToKeys
      modifies this`tagToKeys
      ensures tagToKeys == Pruned(before.tagToKeys, {k})
    {
      hide PrunedIn;
      var todo := tags;
      NothingPruned(before.tagToKeys, k);
      assert tags - todo == {};
      while todo != {}
        invariant todo <= tags
        invariant tagToKeys == PrunedIn(before.tagToKeys, k, tags - todo)
      {
        var t :| t in todo;
        assert todo == (todo - {t}) + {t};
        todo := todo - {t};
        PrunedInOneMore(before.tagToKeys, k, tags - (todo + {t}), t);
        assert tags - todo == (tags - (todo + {t})) + {t};
        if t in tagToKeys {
          var s := tagToKeys[t] - {k};
          if s == {} {
            tagToKeys := tagToKeys - {t};
          } else {
            tagToKeys := tagToKeys[t := s];
          }
        }
      }
      assert tags - todo == tags;
      AllPruned(before, k, tags);
    }

    predicate IsExpired(k: string, now: real)
      reads this
    {
      k in ttl && ttl[k].Some? && ttl[k].value <= now
    }

    method CleanupIfExpired(k: string, now: real)
      requires Valid()
      modifies this, Footprint(policy)
      ensures Valid() && policy == old(policy)
      ensures Model() == InMemoryModel.CleanupIfExpired(old(Model()), k, now)
    {
      hide Inv;
      if IsExpired(k, now) {
        RemoveKey(k);
      }
    }

    /** `_evict_if_needed` */
    method EvictIfNeeded()
      requires Valid()
      modifies this, Footprint(policy)
      ensures Valid() && policy == old(policy)
      ensures Model() == InMemoryModel.EvictIfNeeded(cfg, old(Model()))
    {
      if cfg.maxSize.None? || policy == Nothing {
        return;
      }
      hide Inv, RemoveKeys, InMemoryModel.NoteRemove;
      var max := cfg.maxSize.value;
      while |store| > max
        invariant Valid() && policy == old(policy)
        invariant EvictDownTo(Model(), max) == EvictDownTo(old(Model()), max)
        decreases Tracked(PolicyState(policy))
      {
        ghost var before := Model();
        EvictionKeepsValid(before);
        var victim := EvictOne();
        if victim.None? || victim.value == "" {
          break;
        }
        RemovalAfterEviction(before, victim.value);
        RemoveKey(victim.value);
      }
    }

    // ---- Operations ----

    method Get(key: string, now: real) returns (value: Option<Value>)
      requires Valid()
      modifies this, Footprint(policy)
      ensures Valid() && policy == old(policy)
      ensures (Model(), if value.Some? then Hit(value.value) else Missing) == DoGet(old(Model()), cfg.ns + key, now)
    {
      hide Inv, RemoveKeys, InMemoryModel.NoteAccess, PolicyValid, PolicyState;
      GetKeepsInv(Model(), cfg.ns + key, now);
      var k := cfg.ns + key;
      if k in store && !IsExpired(k, now) {
        NoteAccess(k);
        return Some(store[k]);
      }
      CleanupIfExpired(k, now);
      value := None;
    }

    /** `datetime.now(timezone.utc) + timedelta(seconds=seconds)`; absent when it raises. */
    method Deadline(seconds: int, now: real) returns (until: Option<real>)
      requires seconds > 0
      ensures until == if Overflows(Some(seconds), now) then None else Some(now + seconds as real)
    {
      until := if now + seconds as real < LATEST then Some(now + seconds as real) else None;
    }

    /** `set`: it may raise when the value has been written already. */
    method Set(key: string, value: Value, seconds: Option<int>, now: real) returns (raised: bool)
      requires Valid()
      modifies this, Footprint(policy)
      ensures Valid() && policy == old(policy)
      ensures Model() == DoSet(cfg, old(Model()), cfg.ns + key, value, seconds, now)
      ensures (if raised then Raised else Done) == SetOut(seconds, now)
    {
      hide Inv, RemoveKeys, InMemoryModel.NoteAccess, InMemoryModel.EvictIfNeeded, Tracked, PolicyValid, PolicyState;
      ghost var before := Model();
      var k := cfg.ns + key;
      store := store[k := value];
      if seconds.None? {
        ttl := ttl[k := None];
      } else {
        if seconds.value <= 0 {
          WriteKeepsInv(before, k, value, ttl);
          RemoveKey(k);
          WriteThenRemove(before, k, value);
          return false;
        }
        var until := Deadline(seconds.value, now);
        if until.None? {
          WriteKeepsInv(before, k, value, ttl);
          return true;
        }
        ttl := ttl[k := until];
      }
      PutKeepsInv(before, k, value, Until(seconds, now));
      NoteAndEvict(k);
      raised := false;
    }

    /** The end of `set`, for an entry that stays. */
    method NoteAndEvict(k: string)
      requires PolicyValid(policy) && Inv(Model().(policy := InMemoryModel.NoteAccess(Model().policy, k)))
      modifies this, Footprint(policy)
      ensures Valid() && policy == old(policy)
      ensures Model()
              == InMemoryModel.EvictIfNeeded(cfg, old(Model().(policy := InMemoryModel.NoteAccess(Model().policy, k))))
    {
      hide Inv, InMemoryModel.NoteAccess, InMemoryModel.EvictIfNeeded;
      NoteAccess(k);
      EvictIfNeeded();
    }

    method Delete(key: string) returns (existed: bool)
      requires Valid()
      modifies this, Footprint(policy)
      ensures Valid() && policy == old(policy)
      ensures (Model(), Flag(existed)) == DoDelete(old(Model()), cfg.ns + key)
    {
      hide Inv, RemoveKeys;
      existed := cfg.ns + key in store;
      RemoveKey(cfg.ns + key);
    }

    method Exists(key: string, now: real) returns (present: bool)
      requires Valid()
      modifies this, Footprint(policy)
      ensures Valid() && policy == old(policy)
      ensures (Model(), Flag(present)) == DoExists(old(Model()), cfg.ns + key, now)
    {
      hide Inv, RemoveKeys;
      if IsExpired(cfg.ns + key, now) {
        CleanupIfExpired(cfg.ns + key, now);
        return false;
      }
      present := cfg.ns + key in store;
    }

    /** `get_or_set`; the result is absent when storing it raises. */
    method GetOrSet(key: string, computed: Value, seconds: Option<int>, now: real) returns (value: Option<Value>)
      requires Valid()
      modifies this, Footprint(policy)
      ensures Valid() && policy == old(policy)
      ensures (Model(), if value.Some? then Hit(value.value) else Raised)
              == DoGetOrSet(cfg, old(Model()), cfg.ns + key, computed, seconds, now)
    {
      hide Inv, RemoveKeys, DoSet, DoGet;
      var found := Get(key, now);
      if found.Some? {
        return found;
      }
      var raised := Set(key, computed, seconds, now);
      value := if raised then None else Some(computed);
    }

    /** `expire`; the result is absent when the deadline raises. */
    method Expire(key: string, seconds: int, now: real) returns (done: Option<bool>)
      requires Valid()
      modifies this, Footprint(policy)
      ensures Valid() && policy == old(policy)
      ensures (Model(), if done.Some? then Flag(done.value) else Raised)
              == DoExpire(old(Model()), cfg.ns + key, seconds, now)
    {
      hide Inv, RemoveKeys;
      ExpireKeepsInv(Model(), cfg.ns + key, seconds, now);
      var k := cfg.ns + key;
      if k !in store {
        return Some(false);
      }
      if seconds <= 0 {
        RemoveKey(k);
        return Some(true);
      }
      var until := Deadline(seconds, now);
      if until.None? {
        return None;
      }
      ttl := ttl[k := until];
      done := Some(true);
    }

    method ExpireAt(key: string, when: real, now: real) returns (done: bool)
      requires Valid()
      modifies this, Footprint(policy)
      ensures Valid() && policy == old(policy)
      ensures (Model(), Flag(done)) == DoExpireAt(old(Model()), cfg.ns + key, when, now)
    {
      hide Inv, RemoveKeys;
      var k := cfg.ns + key;
      if k !in store {
        return false;
      }
      if when <= now {
        RemoveKey(k);
        return true;
      }
      DeadlineKeepsInv(Model(), k, Some(when));
      ttl := ttl[k := Some(when)];
      done := true;
    }

    /** `touch`; the result is absent when the deadline raises. */
    method Touch(key: string, seconds: Option<int>, now: real) returns (done: Option<bool>)
      requires Valid()
      modifies this, Footprint(policy)
      ensures Valid() && policy == old(policy)
      ensures (Model(), if done.Some? then Flag(done.value) else Raised)
              == DoTouch(old(Model()), cfg.ns + key, seconds, now)
    {
      hide Inv, RemoveKeys;
      var k := cfg.ns + key;
      if k !in store {
        return Some(false);
      }
      if seconds.None? {
        return Some(true);
      }
      if seconds.value <= 0 {
        RemoveKey(k);
        return Some(true);
      }
      var until := Deadline(seconds.value, now);
      if until.None? {
        return None;
      }
      DeadlineKeepsInv(Model(), k, until);
      ttl := ttl[k := until];
      done := Some(true);
    }

    method Ttl(key: string, now: real) returns (seconds: Option<int>)
      requires Valid()
      modifies this, Footprint(policy)
      ensures Valid() && policy == old(policy)
      ensures (Model(), Remaining(seconds)) == DoTtl(old(Model()), cfg.ns + key, now)
    {
      hide Inv, RemoveKeys;
      var k := cfg.ns + key;
      CleanupIfExpired(k, now);
      if k !in ttl || ttl[k].None? {
        return None;
      }
      var left := Truncate(ttl[k].value - now);
      seconds := if left >= 0 then Some(left) else None;
    }

    method Persist(key: string) returns (hadTtl: bool)
      requires Valid()
      modifies this, Footprint(policy)
      ensures Valid() && policy == old(policy)
      ensures (Model(), Flag(hadTtl)) == DoPersist(old(Model()), cfg.ns + key)
    {
      hide Inv;
      var k := cfg.ns + key;
      if k !in store {
        return false;
      }
      DeadlineKeepsInv(Model(), k, None);
      hadTtl := k in ttl && ttl[k].Some?;
      ttl := ttl[k := None];
    }

    /** `incr`; the result is absent when the stored value is not a number or the deadline raises. */
    method Incr(key: string, delta: int, ttlIfNew: Option<int>, now: real) returns (total: Option<int>)
      requires Valid()
      modifies this, Footprint(policy)
      ensures Valid() && policy == old(policy)
      ensures (Model(), if total.Some? then Total(total.value) else Raised)
              == DoIncr(old(Model()), cfg.ns + key, delta, ttlIfNew, now)
    {
      hide Inv, PolicyValid, PolicyState;
      var k := cfg.ns + key;
      IncrKeepsInv(Model(), k, delta, ttlIfNew, now);
      var existed := k in store;
      var current := if existed then store[k].AsInt() else Some(0);
      if current.None? {
        return None;
      }
      var newVal := current.value + delta;
      store := store[k := Number(newVal)];
      if !existed && ttlIfNew.Some? {
        if ttlIfNew.value > 0 {
          var until := Deadline(ttlIfNew.value, now);
          if until.None? {
            return None;
          }
          ttl := ttl[k := until];
        }
      }
      total := Some(newVal);
    }

    method Decr(key: string, delta: int, now: real) returns (total: Option<int>)
      requires Valid()
      modifies this, Footprint(policy)
      ensures Valid() && policy == old(policy)
      ensures (Model(), if total.Some? then Total(total.value) else Raised)
              == DoIncr(old(Model()), cfg.ns + key, -delta, None, now)
    {
      hide Inv, DoIncr;
      total := Incr(key, -delta, None, now);
    }

    // ---- Tags and clearing ----

    /** `invalidate_tags`: the loops read the index that `_remove_key` shrinks meanwhile. */
    method InvalidateTags(tags: seq<string>) returns (removed: int)
      requires Valid()
      modifies this, Footprint(policy)
      ensures Valid() && policy == old(policy)
      ensures (Model(), Total(removed)) == DoInvalidateTags(old(Model()), Prefixed(cfg.ns, tags))
    {
      hide Inv, RemoveKeys, Carriers, Prefixed;
      ghost var before := Model();
      removed := 0;
      assert tags[..0] == [];
      NothingToRemove(before, cfg.ns);
      for i := 0 to |tags|
        invariant Valid() && policy == old(policy)
        invariant Model() == RemoveKeys(before, Carriers(before, Prefixed(cfg.ns, tags[..i])))
        invariant removed == |Carriers(before, Prefixed(cfg.ns, tags[..i]))|
      {
        OneMoreTag(before, cfg.ns, tags, i);
        var more := InvalidateOne(cfg.ns + tags[i], before, Carriers(before, Prefixed(cfg.ns, tags[..i])));
        removed := removed + more;
      }
      assert tags[..|tags|] == tags;
    }

    /** One turn of the loop, when the keys `gone` were removed already. */
    method InvalidateOne(t: string, ghost before: Cache, ghost gone: set<string>) returns (removed: int)
      requires Valid() && Inv(before) && Model() == RemoveKeys(before, gone)
      modifies this, Footprint(policy)
      ensures Valid() && policy == old(policy)
      ensures Model() == RemoveKeys(before, gone + (Carriers(before, {t}) - gone))
      ensures removed == |Carriers(before, {t}) - gone|
    {
      hide Inv, RemoveKeys, Carriers, PolicyValid, PolicyState;
      KeysOfTag(before, gone, t);
      removed := RemoveAll(Lookup(tagToKeys, t), before, gone);
      TagIsGone(before, gone, t);
      assert tagToKeys - {t} == tagToKeys;
      tagToKeys := tagToKeys - {t};
    }

    /** The inner loop: the keys of one tag, as they were listed before it. */
    method RemoveAll(keys: set<string>, ghost before: Cache, ghost gone: set<string>) returns (removed: int)
      requires Valid() && Inv(before) && Model() == RemoveKeys(before, gone)
      requires keys <= before.store.Keys - gone
      modifies this, Footprint(policy)
      ensures Valid() && policy == old(policy)
      ensures Model() == RemoveKeys(before, gone + keys) && removed == |keys|
    {
      hide Inv, RemoveKeys;
      var todo := keys;
      ghost var out := gone;
      removed := 0;
      while todo != {}
        invariant Valid() && policy == old(policy) && todo <= keys
        invariant todo !! out && out + todo == gone + keys && Model() == RemoveKeys(before, out)
        invariant removed == |keys| - |todo|
      {
        var k :| k in todo;
        RemovalsCompose(before, out, {k});
        OneMoved(out, todo, k);
        todo, out := todo - {k}, out + {k};
        if k in store {
          RemoveKey(k);
          removed := removed + 1;
        }
      }
      assert out == out + todo;
    }

    method AddTags(key: string, tags: seq<string>)
      requires Valid()
      modifies this, Footprint(policy)
      ensures Valid() && policy == old(policy)
      ensures Model() == DoAddTags(old(Model()), cfg.ns + key, Prefixed(cfg.ns, tags))
    {
      hide Inv, WithKey, Prefixed;
      ghost var before := Model();
      var k := cfg.ns + key;
      AddTagsKeepsInv(before, k, Prefixed(cfg.ns, tags));
      if k !in store {
        return;
      }
      LinkTags(k, tags);
    }

    /** The loop of `add_tags`. */
    method LinkTags(k: string, tags: seq<string>)
      modifies this`tagToKeys, this`keyToTags
      ensures tagToKeys == WithKey(old(tagToKeys), k, Prefixed(cfg.ns, tags))
      ensures keyToTags == old(keyToTags)[k := Lookup(old(keyToTags), k) + Prefixed(cfg.ns, tags)]
    {
      hide WithKey;
      var existing := Lookup(keyToTags, k);
      NoTagOfKey(tagToKeys, k);
      assert Prefixed(cfg.ns, tags[..0]) == {};
      for i := 0 to |tags|
        invariant keyToTags == old(keyToTags) && existing == Lookup(keyToTags, k) + Prefixed(cfg.ns, tags[..i])
        invariant tagToKeys == WithKey(old(tagToKeys), k, Prefixed(cfg.ns, tags[..i]))
      {
        var t := cfg.ns + tags[i];
        MoreTags(cfg.ns, tags, i);
        OneMoreTagOfKey(old(tagToKeys), k, Prefixed(cfg.ns, tags[..i]), t);
        tagToKeys := tagToKeys[t := Lookup(tagToKeys, t) + {k}];
        existing := existing + {t};
      }
      assert tags[..|tags|] == tags;
      keyToTags := keyToTags[k := existing];
    }

    method Clear(all: bool)
      requires Valid()
      modifies this, Footprint(policy)
      ensures Valid() && (policy == old(policy) || fresh(Footprint(policy)))
      ensures Model() == DoClear(cfg, old(Model()), all)
    {
      if cfg.ns != "" && !all {
        ClearNamespace();
      } else {
        store, ttl, tagToKeys, keyToTags := map[], map[], map[], map[];
        if policy != Nothing {
          if cfg.maxSize.Some? && cfg.maxSize.value != 0 {
            var lru := new LruEviction();
            policy := LruObject(lru);
          } else {
            policy := Nothing;
          }
        }
        InitialHasInv(PolicyState(policy));
      }
    }

    /** The loop of `clear` over a snapshot of the stored keys. */
    method ClearNamespace()
      requires Valid()
      modifies this, Footprint(policy)
      ensures Valid() && policy == old(policy)
      ensures Model() == RemoveKeys(old(Model()), InNamespace(old(Model()), cfg.ns))
    {
      hide Inv, RemoveKeys;
      ghost var before := Model();
      var keys := set k | k in store && cfg.ns <= k;
      NothingRemoved(before);
      var removed := RemoveAll(keys, before, {});
      assert {} + keys == InNamespace(before, cfg.ns);
    }

    // ---- Whole runs ----

    /** One call, by the method it names. */
    method Perform(now: real, op: Op) returns (out: Out)
      requires Valid()
      modifies this, Footprint(policy)
      ensures Valid() && (policy == old(policy) || fresh(Footprint(policy)))
      ensures (Model(), out) == Step(cfg, old(Model()), now, op)
    {
      hide Inv, PolicyValid, PolicyState, DoGet, DoSet, DoExpire, DoExpireAt, DoTouch, DoTtl, DoPersist, DoIncr,
        DoExists, DoDelete, DoClear, DoGetOrSet, DoInvalidateTags, DoAddTags;
      match op
      case Get(k) =>
        var value := Get(k, now);
        out := if value.Some? then Hit(value.value) else Missing;
      case Set(k, v, seconds) =>
        var raised := Set(k, v, seconds, now);
        out := if raised then Raised else Done;
      case Delete(k) =>
        var existed := Delete(k);
        out := Flag(existed);
      case Exists(k) =>
        var present := Exists(k, now);
        out := Flag(present);
      case Clear(all) =>
        Clear(all);
        out := Done;
      case GetOrSet(k, v, seconds) =>
        var value := GetOrSet(k, v, seconds, now);
        out := if value.Some? then Hit(value.value) else Raised;
      case Expire(k, seconds) =>
        var done := Expire(k, seconds, now);
        out := if done.Some? then Flag(done.value) else Raised;
      case ExpireAt(k, when) =>
        var done := ExpireAt(k, when, now);
        out := Flag(done);
      case Touch(k, seconds) =>
        var done := Touch(k, seconds, now);
        out := if done.Some? then Flag(done.value) else Raised;
      case Ttl(k) =>
        var seconds := Ttl(k, now);
        out := Remaining(seconds);
      case Persist(k) =>
        var hadTtl := Persist(k);
        out := Flag(hadTtl);
      case Incr(k, delta, seconds) =>
        var total := Incr(k, delta, seconds, now);
        out := if total.Some? then Total(total.value) else Raised;
      case InvalidateTags(tags) =>
        var removed := InvalidateTags(tags);
        out := Total(removed);
      case AddTags(k, tags) =>
        AddTags(k, tags);
        out := Done;
    }

    /**
     A sequence of calls on the object is the run that the lemmas about runs speak of, with its
     answers; so it gives the answers and leaves the entries of the specification.
     */
    method Replay(calls: seq<Call>) returns (outs: seq<Out>)
      requires Valid()
      modifies this, Footprint(policy)
      ensures Valid()
      ensures Model() == Run(cfg, old(Model()), calls) && outs == Proof.Results(cfg, old(Model()), calls)
      ensures forall s | Proof.Meets(old(Model()), s) ::
                outs == S.Results(cfg, s, calls) && Proof.Meets(Model(), S.Run(cfg, s, calls))
    {
      EveryRunMeets(cfg, Model(), calls);
      hide Inv, PolicyValid, PolicyState, Step, Proof.Meets;
      ghost var start := Model();
      assert calls[0..] == calls;
      outs := [];
      for i := 0 to |calls|
        invariant Valid() && (policy == old(policy) || fresh(Footprint(policy)))
        invariant Run(cfg, Model(), calls[i..]) == Run(cfg, start, calls)
        invariant outs + Proof.Results(cfg, Model(), calls[i..]) == Proof.Results(cfg, start, calls)
      {
        assert calls[i..][0] == calls[i] && calls[i..][1..] == calls[i + 1..];
        ghost var before := Model();
        var out := Perform(calls[i].now, calls[i].op);
        assert outs + Proof.Results(cfg, before, calls[i..])
               == (outs + [out]) + Proof.Results(cfg, Model(), calls[i + 1..]);
        outs := outs + [out];
      }
      assert calls[|calls|..] == [];
    }
  }

  lemma EveryRunMeets(cfg: Config, c: Cache, calls: seq<Call>)
    requires Inv(c)
    ensures forall s | Proof.Meets(c, s) ::
              && Proof.Results(cfg, c, calls) == S.Results(cfg, s, calls)
              && Proof.Meets(Run(cfg, c, calls), S.Run(cfg, s, calls))
  {
    forall s | Proof.Meets(c, s)
      ensures Proof.Results(cfg, c, calls) == S.Results(cfg, s, calls)
      ensures Proof.Meets(Run(cfg, c, calls), S.Run(cfg, s, calls))
    {
      Proof.RunMeetsSpec(cfg, c, s, calls);
    }
  }

  // ---- What the methods need to know about their steps ----

  lemma EvictionKeepsValid(c: Cache)
    requires Inv(c) && c.policy.Tracking?
    ensures var v := Victim(c.policy.kind, c.policy.table);
            && Inv(c.(policy := if v.Some? then NoteRemove(c.policy, {v.value}) else c.policy))
            && (v.Some? ==> v.value in Tracked(c.policy))
  {}

  /** The policy forgets its victim first; removing the key then gives the same state. */
  lemma RemovalAfterEviction(c: Cache, v: string)
    ensures RemoveKeys(c.(policy := NoteRemove(c.policy, {v})), {v}) == RemoveKeys(c, {v})
  {}

  lemma WriteKeepsInv(c: Cache, k: string, v: Value, ttl: map<string, Option<real>>)
    requires Inv(c) && ttl == c.ttl
    ensures Inv(c.(store := c.store[k := v]))
  {}

  lemma WriteThenRemove(c: Cache, k: string, v: Value)
    ensures RemoveKeys(c.(store := c.store[k := v]), {k}) == RemoveKeys(c, {k})
  {}

  lemma OneMoved(a: set<string>, b: set<string>, k: string)
    requires a !! b && k in b
    ensures a + {k} !! b - {k} && (a + {k}) + (b - {k}) == a + b && |b - {k}| == |b| - 1
  {}

  lemma NothingRemoved(c: Cache)
    requires Inv(c)
    ensures RemoveKeys(c, {}) == c
  {
    forall t | t in c.tagToKeys ensures c.tagToKeys[t] - {} == c.tagToKeys[t] {}
    assert Pruned(c.tagToKeys, {}) == c.tagToKeys;
  }

  lemma NothingToRemove(c: Cache, ns: string)
    requires Inv(c)
    ensures Carriers(c, Prefixed(ns, [])) == {} && RemoveKeys(c, {}) == c
  {
    NothingRemoved(c);
  }

  /** The keys that the index lists under t once the keys `gone` were removed. */
  lemma KeysOfTag(c: Cache, gone: set<string>, t: string)
    requires Inv(c)
    ensures Lookup(RemoveKeys(c, gone).tagToKeys, t) == Carriers(c, {t}) - gone
    ensures Carriers(c, {t}) <= c.store.Keys
  {
    forall k ensures k in Carriers(c, {t}) <==> k in Lookup(c.tagToKeys, t) {
      assert k in Lookup(c.tagToKeys, t) <==> t in Lookup(c.keyToTags, k);
      if t in Lookup(c.keyToTags, k) { assert t in c.keyToTags[k] * {t}; }
    }
  }

  lemma OneMoreTag(c: Cache, ns: string, tags: seq<string>, i: nat)
    requires i < |tags|
    ensures var t, gone := ns + tags[i], Carriers(c, Prefixed(ns, tags[..i]));
            && Carriers(c, Prefixed(ns, tags[..i + 1])) == gone + (Carriers(c, {t}) - gone)
            && |gone + (Carriers(c, {t}) - gone)| == |gone| + |Carriers(c, {t}) - gone|
  {}

  lemma MoreTags(ns: string, tags: seq<string>, i: nat)
    requires i < |tags|
    ensures Prefixed(ns, tags[..i + 1]) == Prefixed(ns, tags[..i]) + {ns + tags[i]}
  {}

  lemma TagIsGone(c: Cache, gone: set<string>, t: string)
    requires Inv(c)
    ensures t !in RemoveKeys(c, gone + (Carriers(c, {t}) - gone)).tagToKeys
  {
    KeysOfTag(c, gone + (Carriers(c, {t}) - gone), t);
  }

  lemma OneMoreTagOfKey(index: map<string, set<string>>, k: string, tags: set<string>, t: string)
    ensures var index' := WithKey(index, k, tags);
            index'[t := Lookup(index', t) + {k}] == WithKey(index, k, tags + {t})
  {
    var l, r := WithKey(index, k, tags)[t := Lookup(WithKey(index, k, tags), t) + {k}], WithKey(index, k, tags + {t});
    assert l.Keys == r.Keys;
    forall x | x in l ensures l[x] == r[x] {}
  }

  lemma NoTagOfKey(index: map<string, set<string>>, k: string)
    ensures WithKey(index, k, {}) == index
  {
    assert WithKey(index, k, {}).Keys == index.Keys;
    forall x | x in index ensures WithKey(index, k, {})[x] == index[x] {}
  }
}
