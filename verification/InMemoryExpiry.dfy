/**
 Which operations of the in-memory cache mind expiry: reads, deletions, deadlines, counters, and
 writes that need no room are compared with the same operation on the cache from which everything
 that has expired was removed first.  A write that evicts may pick another victim than on the
 purged cache, which may need none.
 */
module InMemoryExpiry {
  import opened Wrappers
  import opened Values
  import opened InMemoryModel
  import opened InMemoryInvariants

  /** The entries a reader can see, with their deadlines. */
  function Visible(c: Cache, now: real): map<string, (Value, Option<real>)> {
    map k | k in c.store && !Expired(c, k, now) :: (c.store[k], if k in c.ttl then c.ttl[k] else None)
  }

  function ExpiredKeys(c: Cache, now: real): set<string> {
    set k | k in c.store && Expired(c, k, now)
  }

  function PurgeAll(c: Cache, now: real): Cache {
    RemoveKeys(c, ExpiredKeys(c, now))
  }

  /** The operation shows and returns the same as after a purge. */
  ghost predicate AgreesWithEager(cfg: Config, c: Cache, now: real, op: Op) {
    var (lazy, out) := Step(cfg, c, now, op);
    var (eager, out') := Step(cfg, PurgeAll(c, now), now, op);
    Visible(lazy, now) == Visible(eager, now) && out == out'
  }

  /** A stored key that has expired and that nobody has removed yet. */
  predicate Unremoved(c: Cache, k: string, now: real) {
    k in c.store && Expired(c, k, now)
  }

  // ---- What a purge and a write show ----

  lemma PurgeKeeps(c: Cache, k: string, now: real)
    requires Inv(c)
    ensures var p := PurgeAll(c, now);
            && Visible(p, now) == Visible(c, now)
            && !Expired(p, k, now)
            && (k in p.store <==> k in c.store && !Expired(c, k, now))
            && (k in p.store ==> p.store[k] == c.store[k])
            && (k in p.store ==> (k in p.ttl <==> k in c.ttl) && (k in p.ttl ==> p.ttl[k] == c.ttl[k]))
    ensures Expired(c, k, now) ==> k in c.store
    ensures k in c.ttl ==> k in c.store
    ensures k in PurgeAll(c, now).ttl ==> k in PurgeAll(c, now).store
  {}

  lemma EntryShows(c: Cache, d: Cache, k: string, v: Value, until: Option<real>, now: real)
    requires d.store == c.store[k := v]
    requires d.ttl == c.ttl[k := until] || (until.None? && k !in c.ttl && d.ttl == c.ttl)
    ensures Visible(d, now)
            == if until.Some? && until.value <= now then Visible(c, now) - {k} else Visible(c, now)[k := (v, until)]
  {}

  lemma ValueShows(c: Cache, d: Cache, k: string, v: Value, now: real)
    requires k in c.store && d.store == c.store[k := v] && d.ttl == c.ttl
    ensures Visible(d, now)
            == if Expired(c, k, now) then Visible(c, now)
               else Visible(c, now)[k := (v, if k in c.ttl then c.ttl[k] else None)]
  {}

  lemma RemovalShows(c: Cache, k: string, now: real)
    ensures Visible(RemoveKeys(c, {k}), now) == Visible(c, now) - {k}
  {}

  lemma PolicyShowsNothing(c: Cache, k: string, now: real)
    ensures Visible(c.(policy := NoteAccess(c.policy, k)), now) == Visible(c, now)
  {}

  lemma IsVisible(c: Cache, k: string, now: real)
    ensures k in Visible(c, now) <==> k in c.store && !Expired(c, k, now)
  {}

  // ---- Operations that mind expiry ----

  lemma CleanupShows(c: Cache, k: string, now: real)
    requires Inv(c)
    ensures Visible(CleanupIfExpired(c, k, now), now) == Visible(c, now)
  {
    RemovalShows(c, k, now);
    IsVisible(c, k, now);
    hide RemoveKeys, Visible;
    if Expired(c, k, now) { assert Visible(c, now) - {k} == Visible(c, now); }
  }

  /** `get`, `exists` and `ttl` agree with the purged cache on every state. */
  lemma {:induction false} ReadsAgree(cfg: Config, c: Cache, now: real, op: Op)
    requires Inv(c) && (op.Get? || op.Exists? || op.Ttl?)
    ensures AgreesWithEager(cfg, c, now, op)
  {
    var k := cfg.ns + op.key;
    hide RemoveKeys, Visible, PurgeAll, Inv;
    var p := PurgeAll(c, now);
    PurgeKeeps(c, k, now);
    CleanupShows(c, k, now);
    PolicyShowsNothing(c, k, now);
    PolicyShowsNothing(p, k, now);
    if op.Ttl? { RemovedKey(c, k); }
  }

  lemma RemovedKey(c: Cache, k: string)
    ensures k !in RemoveKeys(c, {k}).ttl
  {}

  // ---- Operations that do not ----

  lemma {:induction false} PersistAgreesIff(cfg: Config, c: Cache, now: real, op: Op)
    requires Inv(c) && op.Persist?
    ensures AgreesWithEager(cfg, c, now, op) <==> !Unremoved(c, cfg.ns + op.key, now)
  {
    var k := cfg.ns + op.key;
    hide RemoveKeys, Visible, PurgeAll, Inv;
    var p := PurgeAll(c, now);
    PurgeKeeps(c, k, now);
    if k in c.store { EntryShows(c, c.(ttl := c.ttl[k := None]), k, c.store[k], None, now); }
    if k in p.store { EntryShows(p, p.(ttl := p.ttl[k := None]), k, p.store[k], None, now); }
  }

  lemma {:induction false} DeleteAgreesIff(cfg: Config, c: Cache, now: real, op: Op)
    requires Inv(c) && op.Delete?
    ensures AgreesWithEager(cfg, c, now, op) <==> !Unremoved(c, cfg.ns + op.key, now)
  {
    var k := cfg.ns + op.key;
    hide RemoveKeys, Visible, PurgeAll, Inv;
    PurgeKeeps(c, k, now);
    RemovalShows(c, k, now);
    RemovalShows(PurgeAll(c, now), k, now);
  }

  lemma {:induction false} ExpireAgreesIff(cfg: Config, c: Cache, now: real, op: Op)
    requires Inv(c) && op.Expire?
    ensures AgreesWithEager(cfg, c, now, op) <==> !Unremoved(c, cfg.ns + op.key, now)
  {
    var k := cfg.ns + op.key;
    hide RemoveKeys, Visible, PurgeAll, Inv, Overflows;
    var p, until := PurgeAll(c, now), Some(now + op.seconds as real);
    PurgeKeeps(c, k, now);
    if op.seconds <= 0 {
      RemovalShows(c, k, now);
      RemovalShows(p, k, now);
    } else if k in p.store {
      EntryShows(c, c.(ttl := c.ttl[k := until]), k, c.store[k], until, now);
      EntryShows(p, p.(ttl := p.ttl[k := until]), k, p.store[k], until, now);
    }
  }

  lemma {:induction false} TouchAgreesIff(cfg: Config, c: Cache, now: real, op: Op)
    requires Inv(c) && op.Touch?
    ensures AgreesWithEager(cfg, c, now, op) <==> !Unremoved(c, cfg.ns + op.key, now)
  {
    hide RemoveKeys, Visible, PurgeAll, Inv, DoExpire;
    PurgeKeeps(c, cfg.ns + op.key, now);
    if op.ttl.Some? { ExpireAgreesIff(cfg, c, now, Expire(op.key, op.ttl.value)); }
  }

  lemma {:induction false} ExpireAtAgreesIff(cfg: Config, c: Cache, now: real, op: Op)
    requires Inv(c) && op.ExpireAt?
    ensures AgreesWithEager(cfg, c, now, op) <==> !Unremoved(c, cfg.ns + op.key, now)
  {
    var k := cfg.ns + op.key;
    hide RemoveKeys, Visible, PurgeAll, Inv;
    var p := PurgeAll(c, now);
    PurgeKeeps(c, k, now);
    RemovalShows(c, k, now);
    RemovalShows(p, k, now);
    if k in c.store { EntryShows(c, c.(ttl := c.ttl[k := Some(op.when)]), k, c.store[k], Some(op.when), now); }
    if k in p.store { EntryShows(p, p.(ttl := p.ttl[k := Some(op.when)]), k, p.store[k], Some(op.when), now); }
  }

  /** `incr` on a stored key changes its value only, and on a new one writes a counter. */
  lemma IncrShows(c: Cache, k: string, delta: int, ttl: Option<int>, now: real)
    requires k in c.ttl ==> k in c.store
    ensures var (c', out) := DoIncr(c, k, delta, ttl, now);
            && (k in c.store && Expired(c, k, now) ==> k !in Visible(c', now))
            && (k !in c.store ==> k in Visible(c', now))
  {
    IsVisible(DoIncr(c, k, delta, ttl, now).0, k, now);
  }

  lemma {:induction false} SameIncr(c: Cache, d: Cache, k: string, delta: int, ttl: Option<int>, now: real)
    requires k in c.store && k in d.store && !Expired(c, k, now) && c.store[k] == d.store[k]
    requires (k in c.ttl <==> k in d.ttl) && (k in c.ttl ==> c.ttl[k] == d.ttl[k])
    requires Visible(c, now) == Visible(d, now)
    ensures var (c', out) := DoIncr(c, k, delta, ttl, now);
            var (d', out') := DoIncr(d, k, delta, ttl, now);
            out == out' && Visible(c', now) == Visible(d', now)
  {
    hide Visible;
    if c.store[k].AsInt().Some? {
      var v := Number(c.store[k].AsInt().value + delta);
      ValueShows(c, c.(store := c.store[k := v]), k, v, now);
      ValueShows(d, d.(store := d.store[k := v]), k, v, now);
    }
  }

  lemma {:induction false} SameNewCounter(c: Cache, d: Cache, k: string, delta: int, ttl: Option<int>, now: real)
    requires k !in c.store && k !in d.store && k !in c.ttl && k !in d.ttl
    requires Visible(c, now) == Visible(d, now)
    ensures var (c', out) := DoIncr(c, k, delta, ttl, now);
            var (d', out') := DoIncr(d, k, delta, ttl, now);
            out == out' && Visible(c', now) == Visible(d', now)
  {
    hide Visible;
    var until := if ttl.Some? && ttl.value > 0 && !Overflows(ttl, now) then Until(ttl, now) else None;
    EntryShows(c, DoIncr(c, k, delta, ttl, now).0, k, Number(delta), until, now);
    EntryShows(d, DoIncr(d, k, delta, ttl, now).0, k, Number(delta), until, now);
  }

  lemma {:induction false} IncrAgreesIff(cfg: Config, c: Cache, now: real, op: Op)
    requires Inv(c) && op.Incr?
    ensures AgreesWithEager(cfg, c, now, op) <==> !Unremoved(c, cfg.ns + op.key, now)
  {
    var k := cfg.ns + op.key;
    hide RemoveKeys, Visible, PurgeAll, Inv, DoIncr;
    var p := PurgeAll(c, now);
    PurgeKeeps(c, k, now);
    if Unremoved(c, k, now) {
      IncrShows(c, k, op.delta, op.ttl, now);
      IncrShows(p, k, op.delta, op.ttl, now);
    } else if k in c.store {
      SameIncr(c, p, k, op.delta, op.ttl, now);
    } else {
      SameNewCounter(c, p, k, op.delta, op.ttl, now);
    }
  }

  /**
   `delete`, `expire`, `expire_at`, `touch`, `persist` and `incr` do what they would do on the
   purged cache exactly when they do not meet an expired entry that is still stored.
   */
  lemma {:induction false} IgnoresExpiryIff(cfg: Config, c: Cache, now: real, op: Op)
    requires Inv(c)
    requires op.Delete? || op.Expire? || op.ExpireAt? || op.Touch? || op.Persist? || op.Incr?
    ensures AgreesWithEager(cfg, c, now, op) <==> !Unremoved(c, cfg.ns + op.key, now)
  {
    hide AgreesWithEager, Inv, Unremoved;
    match op
    case Delete(_) => DeleteAgreesIff(cfg, c, now, op);
    case Expire(_, _) => ExpireAgreesIff(cfg, c, now, op);
    case Touch(_, _) => TouchAgreesIff(cfg, c, now, op);
    case ExpireAt(_, _) => ExpireAtAgreesIff(cfg, c, now, op);
    case Persist(_) => PersistAgreesIff(cfg, c, now, op);
    case Incr(_, _, _) => IncrAgreesIff(cfg, c, now, op);
  }

  // ---- Writes that need no room ----

  predicate HasRoom(cfg: Config, c: Cache, k: string) {
    cfg.maxSize.Some? ==> |c.store.Keys + {k}| <= cfg.maxSize.value
  }

  lemma SetWithRoom(cfg: Config, c: Cache, k: string, v: Value, ttl: Option<int>, now: real)
    requires HasRoom(cfg, c, k) && !Overflows(ttl, now) && (ttl.Some? ==> ttl.value > 0)
    ensures DoSet(cfg, c, k, v, ttl, now) == Put(c, k, v, Until(ttl, now))
  {
    var put := Put(c, k, v, Until(ttl, now));
    assert |put.store| == |put.store.Keys|;
  }

  lemma RoomInSmaller(cfg: Config, c: Cache, d: Cache, k: string)
    requires HasRoom(cfg, c, k) && d.store.Keys <= c.store.Keys
    ensures HasRoom(cfg, d, k)
  {
    SubsetIsSmaller(d.store.Keys + {k}, c.store.Keys + {k});
  }

  /** What a `set` with room shows depends on what was visible, unless it raises. */
  lemma {:induction false} SetShows(cfg: Config, c: Cache, k: string, v: Value, ttl: Option<int>, now: real)
    requires HasRoom(cfg, c, k) && !Overflows(ttl, now)
    ensures Visible(DoSet(cfg, c, k, v, ttl, now), now)
            == if ttl.Some? && ttl.value <= 0 then Visible(c, now) - {k} else Visible(c, now)[k := (v, Until(ttl, now))]
  {
    hide Visible, RemoveKeys, EvictIfNeeded;
    if ttl.Some? && ttl.value <= 0 {
      RemovalShows(c, k, now);
    } else {
      SetWithRoom(cfg, c, k, v, ttl, now);
      EntryShows(c, Put(c, k, v, Until(ttl, now)), k, v, Until(ttl, now), now);
    }
  }

  /** A raising `set` gives a new key an entry without deadline, and leaves the deadline of a stored one. */
  lemma RaisingSetShows(cfg: Config, c: Cache, k: string, v: Value, ttl: Option<int>, now: real)
    requires Overflows(ttl, now) && (k in c.ttl ==> k in c.store)
    ensures Visible(DoSet(cfg, c, k, v, ttl, now), now)
            == if Expired(c, k, now) then Visible(c, now)
               else Visible(c, now)[k := (v, if k in c.ttl then c.ttl[k] else None)]
  {
    hide Visible, RemoveKeys, EvictIfNeeded;
    if k in c.store {
      ValueShows(c, DoSet(cfg, c, k, v, ttl, now), k, v, now);
    } else {
      EntryShows(c, DoSet(cfg, c, k, v, ttl, now), k, v, None, now);
    }
  }

  lemma PurgeStoresLess(c: Cache, now: real)
    ensures PurgeAll(c, now).store.Keys <= c.store.Keys
  {}

  /** With room, `set` agrees exactly when it does not raise on an expired entry that is still stored. */
  lemma {:induction false} SetAgreesIff(cfg: Config, c: Cache, now: real, op: Op)
    requires Inv(c) && op.Set? && HasRoom(cfg, c, cfg.ns + op.key)
    ensures AgreesWithEager(cfg, c, now, op) <==> !(Overflows(op.ttl, now) && Unremoved(c, cfg.ns + op.key, now))
  {
    var k := cfg.ns + op.key;
    hide RemoveKeys, Visible, PurgeAll, Inv, DoSet, HasRoom;
    var p := PurgeAll(c, now);
    PurgeKeeps(c, k, now);
    PurgeStoresLess(c, now);
    RoomInSmaller(cfg, c, p, k);
    if Overflows(op.ttl, now) {
      RaisingSetShows(cfg, c, k, op.value, op.ttl, now);
      RaisingSetShows(cfg, p, k, op.value, op.ttl, now);
      IsVisible(c, k, now);
    } else {
      SetShows(cfg, c, k, op.value, op.ttl, now);
      SetShows(cfg, p, k, op.value, op.ttl, now);
    }
  }

  /** What `get` leaves of the key when it misses. */
  lemma MissLeaves(c: Cache, k: string, now: real)
    requires Inv(c) && DoGet(c, k, now).1 == Missing
    ensures var read := DoGet(c, k, now).0;
            && k !in read.store && k !in read.ttl && read.store.Keys <= c.store.Keys
            && Visible(read, now) == Visible(c, now)
  {
    CleanupShows(c, k, now);
  }

  /** With room, `get_or_set` always agrees: its `get` removes the expired entry first. */
  lemma {:induction false} GetOrSetAgrees(cfg: Config, c: Cache, now: real, op: Op)
    requires Inv(c) && op.GetOrSet? && HasRoom(cfg, c, cfg.ns + op.key)
    ensures AgreesWithEager(cfg, c, now, op)
  {
    var k := cfg.ns + op.key;
    var p := PurgeAll(c, now);
    RemoveKeepsInv(c, ExpiredKeys(c, now));
    PurgeKeeps(c, k, now);
    PurgeStoresLess(c, now);
    hide RemoveKeys, Visible, PurgeAll, Inv, DoSet, HasRoom, Overflows;
    if DoGet(c, k, now).1.Hit? {
      PolicyShowsNothing(c, k, now);
      PolicyShowsNothing(p, k, now);
    } else {
      MissLeaves(c, k, now);
      MissLeaves(p, k, now);
      SetAfterMissAgrees(cfg, c, DoGet(c, k, now).0, DoGet(p, k, now).0, k, op.value, op.ttl, now);
    }
  }

  lemma {:induction false} SetAfterMissAgrees(
    cfg: Config, whole: Cache, c: Cache, d: Cache, k: string, v: Value, ttl: Option<int>, now: real)
    requires HasRoom(cfg, whole, k) && c.store.Keys <= whole.store.Keys && d.store.Keys <= whole.store.Keys
    requires k !in c.store && k !in c.ttl && k !in d.store && k !in d.ttl && Visible(c, now) == Visible(d, now)
    ensures Visible(DoSet(cfg, c, k, v, ttl, now), now) == Visible(DoSet(cfg, d, k, v, ttl, now), now)
  {
    hide Visible, DoSet, HasRoom;
    RoomInSmaller(cfg, whole, c, k);
    RoomInSmaller(cfg, whole, d, k);
    if Overflows(ttl, now) {
      RaisingSetShows(cfg, c, k, v, ttl, now);
      RaisingSetShows(cfg, d, k, v, ttl, now);
    } else {
      SetShows(cfg, c, k, v, ttl, now);
      SetShows(cfg, d, k, v, ttl, now);
    }
  }
}
