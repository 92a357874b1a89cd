/**
 The in-memory cache meets its specification: every operation of module InMemoryModel, and so every
 run of the class in module InMemoryCacheClass, shows the entries and gives the answers of module
 InMemorySpec, with the victims that the history of the calls determines.
 */
module InMemoryMeetsSpec {
  import opened Wrappers
  import opened Values
  import opened Usage
  import opened InMemoryModel
  import opened InMemoryInvariants
  import S = InMemorySpec

  // ---- What the cache stands for ----

  function EntryOf(c: Cache, k: string): S.Entry
    requires k in c.store
  {
    S.Entry(c.store[k], if k in c.ttl then c.ttl[k] else None, Lookup(c.keyToTags, k))
  }

  function Entries(c: Cache): map<string, S.Entry> {
    map k | k in c.store :: EntryOf(c, k)
  }

  ghost predicate SamePolicy(p: Policy, kind: Option<Kind>, history: seq<Event>) {
    match p
    case NoPolicy => kind.None?
    case Tracking(k, table) => kind == Some(k) && table == Digest(history)
  }

  ghost predicate Meets(c: Cache, s: S.State) {
    Entries(c) == s.entries && SamePolicy(c.policy, s.kind, s.history)
  }

  lemma SameKeys(c: Cache, s: S.State)
    requires Meets(c, s)
    ensures c.store.Keys == s.entries.Keys && |c.store| == |s.entries|
  {
    assert Entries(c).Keys == c.store.Keys;
    assert |c.store| == |c.store.Keys| && |s.entries| == |s.entries.Keys|;
  }

  /** The entry of one key, in the terms of the cache. */
  lemma SameEntry(c: Cache, s: S.State, k: string, now: real)
    requires Meets(c, s) && Inv(c)
    ensures k in c.store <==> k in s.entries
    ensures k in c.store ==>
              && s.entries[k].value == c.store[k]
              && s.entries[k].deadline == (if k in c.ttl then c.ttl[k] else None)
              && s.entries[k].tags == Lookup(c.keyToTags, k)
              && (S.Alive(s.entries[k], now) <==> !Expired(c, k, now))
    ensures k !in c.store ==> k !in c.ttl && k !in c.keyToTags && !Expired(c, k, now)
  {}

  // ---- Accesses and removals ----

  lemma {:induction false} DropsForget(h: seq<Event>, ks: set<string>)
    ensures Digest(h + S.Drops(ks)) == Forget(Digest(h), ks)
    decreases |ks|
  {
    hide Digest, Forget;
    if ks == {} {
      assert h + S.Drops(ks) == h;
      ForgetTwice(Digest(h), {}, {});
    } else {
      var k :| k in ks && S.Drops(ks) == [Dropped(k)] + S.Drops(ks - {k});
      OneEvent(h, Dropped(k));
      DropsForget(h + [Dropped(k)], ks - {k});
      assert h + S.Drops(ks) == (h + [Dropped(k)]) + S.Drops(ks - {k});
      ForgetTwice(Digest(h), {k}, ks - {k});
      assert {k} + (ks - {k}) == ks;
    }
  }

  lemma ForgetTwice(t: Table, a: set<string>, b: set<string>)
    ensures Forget(Forget(t, a), b) == Forget(t, a + b)
    ensures Forget(t, {}) == t
  {
    assert t.stats - a - b == t.stats - (a + b) && t.stats - {} == t.stats;
  }

  lemma OneEvent(h: seq<Event>, e: Event)
    ensures Digest(h + [e]) == if e.Accessed? then Access(Digest(h), e.key) else Forget(Digest(h), {e.key})
  {
    assert (h + [e])[..|h|] == h;
  }

  lemma EntriesRemoved(c: Cache, ks: set<string>)
    ensures Entries(RemoveKeys(c, ks)) == Entries(c) - ks
  {}

  lemma RemovalMeets(c: Cache, s: S.State, ks: set<string>)
    requires Meets(c, s)
    ensures Meets(RemoveKeys(c, ks), S.Removed(s, ks))
  {
    hide Entries;
    EntriesRemoved(c, ks);
    DropsForget(s.history, ks);
  }

  lemma AccessMeets(c: Cache, s: S.State, k: string)
    requires Meets(c, s)
    ensures Meets(c.(policy := NoteAccess(c.policy, k)), S.Access(s, k))
  {
    assert Entries(c.(policy := NoteAccess(c.policy, k))) == Entries(c);
    hide Entries;
    OneEvent(s.history, Accessed(k));
  }

  lemma LookMeets(c: Cache, s: S.State, k: string, now: real)
    requires Meets(c, s) && Inv(c)
    ensures Meets(CleanupIfExpired(c, k, now), S.Looked(s, now, k))
  {
    SameEntry(c, s, k, now);
    hide Meets, Inv;
    RemovalMeets(c, s, {k});
  }

  // ---- Evictions ----

  /** The victim of the table is the least used key of the history. */
  lemma SameVictim(p: Policy, kind: Option<Kind>, h: seq<Event>)
    requires p.Tracking? && SamePolicy(p, kind, h)
    ensures Victim(p.kind, p.table).None? <==> forall k :: !LeastUsed(p.kind, h, k)
    ensures forall k :: Victim(p.kind, p.table) == Some(k) <==> LeastUsed(p.kind, h, k)
  {
    forall k ensures Victim(p.kind, p.table) == Some(k) <==> LeastUsed(p.kind, h, k) {
      VictimByHistory(p.kind, h, k);
    }
  }

  lemma OneRemoved(c: Cache, s: S.State, k: string)
    requires Meets(c, s)
    ensures Meets(RemoveKeys(c, {k}), S.State(s.entries - {k}, s.kind, s.history + [Dropped(k)]))
  {
    hide Entries;
    EntriesRemoved(c, {k});
    OneEvent(s.history, Dropped(k));
  }

  lemma OneForgotten(c: Cache, s: S.State, k: string)
    requires Meets(c, s)
    ensures Meets(c.(policy := NoteRemove(c.policy, {k})), s.(history := s.history + [Dropped(k)]))
  {
    assert Entries(c.(policy := NoteRemove(c.policy, {k}))) == Entries(c);
    hide Entries;
    OneEvent(s.history, Dropped(k));
  }

  lemma {:induction false} EvictionMeets(c: Cache, s: S.State, max: int)
    requires Meets(c, s)
    ensures Meets(EvictDownTo(c, max), S.MakeRoom(s, max))
    decreases Tracked(c.policy)
  {
    SameKeys(c, s);
    hide Entries, RemoveKeys, NoteRemove, LeastUsed;
    if |c.store| > max && c.policy.Tracking? {
      SameVictim(c.policy, s.kind, s.history);
      var v := Victim(c.policy.kind, c.policy.table);
      if v.Some? {
        var k :| LeastUsed(s.kind.value, s.history, k);
        if k == "" {
          OneForgotten(c, s, k);
        } else {
          OneRemoved(c, s, k);
          assert Tracked(RemoveKeys(c, {k}).policy) < Tracked(c.policy);
          EvictionMeets(RemoveKeys(c, {k}), S.State(s.entries - {k}, s.kind, s.history + [Dropped(k)]), max);
        }
      }
    }
  }

  // ---- Writes ----

  lemma LatestIsEndOfTime()
    ensures LATEST == S.EndOfTime()
  {
    assert S.LeapYearsUntil(9999) == 2424 && S.LeapYearsUntil(1969) == 477;
  }

  /** The entry of k is written, with its deadline set, or kept when `until` is absent. */
  lemma WriteMeets(c: Cache, s: S.State, k: string, v: Value, until: Option<Option<real>>)
    requires Meets(c, s) && Inv(c)
    ensures var c' := c.(store := c.store[k := v], ttl := if until.Some? then c.ttl[k := until.value] else c.ttl);
            var old_ := if k in s.entries then s.entries[k].deadline else None;
            Meets(c', S.Write(s, k, v, if until.Some? then until.value else old_))
  {
    SameEntry(c, s, k, 0.0);
    var c' := c.(store := c.store[k := v], ttl := if until.Some? then c.ttl[k := until.value] else c.ttl);
    EntryWritten(c, c', k);
  }

  lemma EntryWritten(c: Cache, c': Cache, k: string)
    requires k in c'.store && c'.store.Keys == c.store.Keys + {k} && c'.keyToTags == c.keyToTags
    requires forall x | x != k && x in c.store :: c'.store[x] == c.store[x]
    requires forall x | x != k :: (x in c'.ttl <==> x in c.ttl) && (x in c.ttl ==> c'.ttl[x] == c.ttl[x])
    ensures Entries(c') == Entries(c)[k := EntryOf(c', k)]
  {}

  lemma DeadlineMeets(c: Cache, s: S.State, k: string, until: Option<real>)
    requires Meets(c, s) && Inv(c) && k in c.store
    ensures k in s.entries && Meets(c.(ttl := c.ttl[k := until]), S.Deadline(s, k, until))
  {
    SameEntry(c, s, k, 0.0);
    EntryWritten(c, c.(ttl := c.ttl[k := until]), k);
  }

  /** A `set` that stays: the entry is written and noted, and room is made. */
  lemma {:induction false} PutMeets(cfg: Config, c: Cache, s: S.State, k: string, v: Value, until: Option<real>)
    requires Meets(c, s) && Inv(c)
    ensures var written := S.Access(S.Write(s, k, v, until), k);
            Meets(EvictIfNeeded(cfg, Put(c, k, v, until)),
                  if cfg.maxSize.Some? then S.MakeRoom(written, cfg.maxSize.value) else written)
  {
    hide Meets, Inv, EvictDownTo, S.MakeRoom, S.Access, S.Write;
    var written := c.(store := c.store[k := v], ttl := c.ttl[k := until]);
    WriteMeets(c, s, k, v, Some(until));
    AccessMeets(written, S.Write(s, k, v, until), k);
    assert Put(c, k, v, until) == written.(policy := NoteAccess(written.policy, k));
    if cfg.maxSize.Some? {
      EvictionMeets(Put(c, k, v, until), S.Access(S.Write(s, k, v, until), k), cfg.maxSize.value);
    }
  }

  /** When a `set` raises, on either side. */
  lemma SameOverflow(seconds: int, now: real)
    requires seconds > 0
    ensures Overflows(Some(seconds), now) <==> now + seconds as real >= S.EndOfTime()
  {
    LatestIsEndOfTime();
  }

  lemma {:induction false} SetMeets(
    cfg: Config, c: Cache, s: S.State, k: string, v: Value, ttl: Option<int>, now: real)
    requires Meets(c, s) && Inv(c)
    ensures var (s', out) := S.Set(cfg, s, now, k, v, ttl);
            Meets(DoSet(cfg, c, k, v, ttl, now), s') && SetOut(ttl, now) == out
  {
    hide Meets, Inv, EvictIfNeeded, RemoveKeys, Put, S.EndOfTime, S.Access, S.Write, S.MakeRoom, S.Removed;
    match ttl
    case None => PutMeets(cfg, c, s, k, v, None);
    case Some(seconds) =>
      if seconds <= 0 {
        RemovalMeets(c, s, {k});
      } else {
        SameOverflow(seconds, now);
        if Overflows(ttl, now) { WriteMeets(c, s, k, v, None); }
        else { PutMeets(cfg, c, s, k, v, Some(now + seconds as real)); }
      }
  }

  lemma {:induction false} ExpireMeets(c: Cache, s: S.State, k: string, seconds: int, now: real)
    requires Meets(c, s) && Inv(c)
    ensures var (s', out) := S.Expire(s, now, k, seconds);
            Meets(DoExpire(c, k, seconds, now).0, s') && DoExpire(c, k, seconds, now).1 == out
  {
    LatestIsEndOfTime();
    SameEntry(c, s, k, now);
    hide Meets, Inv, RemoveKeys, S.EndOfTime;
    RemovalMeets(c, s, {k});
    if k in c.store { DeadlineMeets(c, s, k, Some(now + seconds as real)); }
  }

  lemma {:induction false} IncrStoredMeets(c: Cache, s: S.State, k: string, delta: int, ttl: Option<int>, now: real)
    requires Meets(c, s) && Inv(c) && k in c.store
    ensures var (s', out) := S.Incr(s, now, k, delta, ttl);
            Meets(DoIncr(c, k, delta, ttl, now).0, s') && DoIncr(c, k, delta, ttl, now).1 == out
  {
    SameEntry(c, s, k, now);
    hide Meets, Inv, S.EndOfTime;
    if c.store[k].AsInt().Some? {
      WriteMeets(c, s, k, Number(c.store[k].AsInt().value + delta), None);
    }
  }

  /** What either side does with a counter that is not stored. */
  lemma NewCounter(c: Cache, s: S.State, k: string, delta: int, ttl: Option<int>, now: real)
    requires k !in c.store && k !in s.entries
    ensures var timed := ttl.Some? && ttl.value > 0 && !Overflows(ttl, now);
            var until := if timed then Some(Some(now + ttl.value as real)) else None;
            && DoIncr(c, k, delta, ttl, now).0
               == c.(store := c.store[k := Number(delta)], ttl := if timed then c.ttl[k := until.value] else c.ttl)
            && S.Incr(s, now, k, delta, ttl).0 == S.Write(s, k, Number(delta), if timed then until.value else None)
            && DoIncr(c, k, delta, ttl, now).1 == S.Incr(s, now, k, delta, ttl).1
  {
    LatestIsEndOfTime();
    hide S.EndOfTime, S.Write;
  }

  lemma {:induction false} IncrNewMeets(c: Cache, s: S.State, k: string, delta: int, ttl: Option<int>, now: real)
    requires Meets(c, s) && Inv(c) && k !in c.store
    ensures var (s', out) := S.Incr(s, now, k, delta, ttl);
            Meets(DoIncr(c, k, delta, ttl, now).0, s') && DoIncr(c, k, delta, ttl, now).1 == out
  {
    SameEntry(c, s, k, now);
    hide Meets, Inv, DoIncr, S.Incr, S.Write, Overflows;
    NewCounter(c, s, k, delta, ttl, now);
    var timed := ttl.Some? && ttl.value > 0 && !Overflows(ttl, now);
    WriteMeets(c, s, k, Number(delta), if timed then Some(Some(now + ttl.value as real)) else None);
  }

  // ---- Tags and clearing ----

  lemma SameCarriers(cfg: Config, c: Cache, s: S.State, tags: seq<string>)
    requires Meets(c, s) && Inv(c)
    ensures Carriers(c, Prefixed(cfg.ns, tags)) == S.Carrying(s, cfg.ns, tags)
  {
    CarriersAreTagged(cfg, c, tags);
    forall k ensures k in Tagged(cfg, c, tags) <==> k in S.Carrying(s, cfg.ns, tags) {
      SameEntry(c, s, k, 0.0);
    }
  }

  lemma SamePrefixed(ns: string, tags: seq<string>)
    ensures Prefixed(ns, tags) == set i | 0 <= i < |tags| :: ns + tags[i]
  {}

  lemma EntryTagged(c: Cache, k: string, tags: set<string>)
    requires k in c.store
    ensures var c' := DoAddTags(c, k, tags);
            && c'.policy == c.policy
            && Entries(c') == Entries(c)[k := EntryOf(c, k).(tags := Lookup(c.keyToTags, k) + tags)]
  {
    hide WithKey;
    var c' := DoAddTags(c, k, tags);
    forall x | x in c.store && x != k ensures EntryOf(c', x) == EntryOf(c, x) {}
  }

  lemma AddTagsMeets(cfg: Config, c: Cache, s: S.State, k: string, tags: seq<string>)
    requires Meets(c, s) && k in c.store
    ensures k in s.entries && Meets(DoAddTags(c, k, Prefixed(cfg.ns, tags)), S.Tag(s, k, cfg.ns, tags))
  {
    EntriesAt(c, k);
    hide Entries, DoAddTags, SamePolicy, Prefixed;
    SamePrefixed(cfg.ns, tags);
    EntryTagged(c, k, Prefixed(cfg.ns, tags));
  }

  lemma EntriesAt(c: Cache, k: string)
    requires k in c.store
    ensures k in Entries(c) && Entries(c)[k] == EntryOf(c, k)
  {}

  lemma SameNamespace(c: Cache, s: S.State, ns: string)
    requires Meets(c, s)
    ensures InNamespace(c, ns) == set k | k in s.entries && S.BelongsTo(ns, k)
  {
    SameKeys(c, s);
  }

  lemma ClearedAllMeets(cfg: Config, c: Cache, s: S.State, now: real, all: bool)
    requires Meets(c, s) && (cfg.ns == "" || all)
    ensures Meets(DoClear(cfg, c, all), S.Step(cfg, s, now, Clear(all)).0)
  {
    assert Entries(DoClear(cfg, c, all)) == map[];
    hide Entries, RemoveKeys, S.Removed;
  }

  lemma {:induction false} ClearMeets(cfg: Config, c: Cache, s: S.State, now: real, all: bool)
    requires Meets(c, s)
    ensures Meets(DoClear(cfg, c, all), S.Step(cfg, s, now, Clear(all)).0)
  {
    hide Meets, RemoveKeys, S.Removed, InNamespace;
    if cfg.ns != "" && !all {
      SameNamespace(c, s, cfg.ns);
      RemovalMeets(c, s, InNamespace(c, cfg.ns));
    } else {
      ClearedAllMeets(cfg, c, s, now, all);
    }
  }

  // ---- Every operation ----

  ghost predicate StepMeets(cfg: Config, c: Cache, s: S.State, now: real, op: Op) {
    && Meets(Step(cfg, c, now, op).0, S.Step(cfg, s, now, op).0)
    && Step(cfg, c, now, op).1 == S.Step(cfg, s, now, op).1
  }

  lemma {:induction false} GetMeets(cfg: Config, c: Cache, s: S.State, now: real, op: Op)
    requires Meets(c, s) && Inv(c) && (op.Get? || op.Exists?)
    ensures StepMeets(cfg, c, s, now, op)
  {
    var k := cfg.ns + op.key;
    SameEntry(c, s, k, now);
    hide Meets, Inv, CleanupIfExpired, S.Looked;
    LookMeets(c, s, k, now);
    AccessMeets(c, s, k);
    if !Expired(c, k, now) { Unexpired(c, s, k, now); }
  }

  /** Nothing happens to a key that has not expired. */
  lemma Unexpired(c: Cache, s: S.State, k: string, now: real)
    requires !Expired(c, k, now) && (k in s.entries ==> S.Alive(s.entries[k], now))
    ensures CleanupIfExpired(c, k, now) == c && S.Looked(s, now, k) == s
  {}

  lemma {:induction false} GetOrSetMeets(cfg: Config, c: Cache, s: S.State, now: real, op: Op)
    requires Meets(c, s) && Inv(c) && op.GetOrSet?
    ensures StepMeets(cfg, c, s, now, op)
  {
    var k := cfg.ns + op.key;
    SameEntry(c, s, k, now);
    GetKeepsInv(c, k, now);
    hide Meets, Inv, CleanupIfExpired, S.Looked, DoSet, S.Set, S.EndOfTime;
    LookMeets(c, s, k, now);
    AccessMeets(c, s, k);
    if DoGet(c, k, now).1 == Missing {
      SetMeets(cfg, DoGet(c, k, now).0, S.Looked(s, now, k), k, op.value, op.ttl, now);
    }
  }

  lemma {:induction false} TtlMeets(cfg: Config, c: Cache, s: S.State, now: real, op: Op)
    requires Meets(c, s) && Inv(c) && op.Ttl?
    ensures StepMeets(cfg, c, s, now, op)
  {
    var k := cfg.ns + op.key;
    SameEntry(c, s, k, now);
    RemovedHasNoTtl(c, k);
    hide Meets, Inv, RemoveKeys, S.Looked;
    LookMeets(c, s, k, now);
  }

  lemma RemovedHasNoTtl(c: Cache, k: string)
    ensures k !in RemoveKeys(c, {k}).ttl
  {}

  lemma {:induction false} PersistMeets(cfg: Config, c: Cache, s: S.State, now: real, op: Op)
    requires Meets(c, s) && Inv(c) && (op.Persist? || op.ExpireAt? || op.Delete?)
    ensures StepMeets(cfg, c, s, now, op)
  {
    var k := cfg.ns + op.key;
    SameEntry(c, s, k, now);
    hide Meets, Inv, RemoveKeys;
    RemovalMeets(c, s, {k});
    if k in c.store { DeadlineMeets(c, s, k, if op.ExpireAt? then Some(op.when) else None); }
  }

  lemma {:induction false} TouchMeets(cfg: Config, c: Cache, s: S.State, now: real, op: Op)
    requires Meets(c, s) && Inv(c) && op.Touch?
    ensures StepMeets(cfg, c, s, now, op)
  {
    SameEntry(c, s, cfg.ns + op.key, now);
    hide Meets, Inv, DoExpire, S.Expire;
    if op.ttl.Some? { ExpireMeets(c, s, cfg.ns + op.key, op.ttl.value, now); }
  }

  lemma {:induction false} TagsMeet(cfg: Config, c: Cache, s: S.State, now: real, op: Op)
    requires Meets(c, s) && Inv(c) && (op.AddTags? || op.InvalidateTags?)
    ensures StepMeets(cfg, c, s, now, op)
  {
    if op.AddTags? { SameEntry(c, s, cfg.ns + op.key, now); }
    hide Meets, Inv, RemoveKeys, Carriers, DoAddTags, Prefixed, S.Carrying, S.Removed, S.Tag;
    if op.InvalidateTags? {
      SameCarriers(cfg, c, s, op.tags);
      RemovalMeets(c, s, S.Carrying(s, cfg.ns, op.tags));
    } else {
      if cfg.ns + op.key in c.store { AddTagsMeets(cfg, c, s, cfg.ns + op.key, op.tags); }
    }
  }

  /** Every operation gives the answer and leaves the entries and the history that the specification says. */
  lemma {:induction false} EveryStepMeets(cfg: Config, c: Cache, s: S.State, now: real, op: Op)
    requires Meets(c, s) && Inv(c)
    ensures StepMeets(cfg, c, s, now, op)
  {
    match op {
      case Get(_) => GetMeets(cfg, c, s, now, op);
      case Exists(_) => GetMeets(cfg, c, s, now, op);
      case GetOrSet(_, _, _) => GetOrSetMeets(cfg, c, s, now, op);
      case Ttl(_) => TtlMeets(cfg, c, s, now, op);
      case Persist(_) => PersistMeets(cfg, c, s, now, op);
      case ExpireAt(_, _) => PersistMeets(cfg, c, s, now, op);
      case Delete(_) => PersistMeets(cfg, c, s, now, op);
      case Touch(_, _) => TouchMeets(cfg, c, s, now, op);
      case AddTags(_, _) => TagsMeet(cfg, c, s, now, op);
      case InvalidateTags(_) => TagsMeet(cfg, c, s, now, op);
      case _ => WritesMeet(cfg, c, s, now, op);
    }
  }

  lemma {:induction false} WritesMeet(cfg: Config, c: Cache, s: S.State, now: real, op: Op)
    requires Meets(c, s) && Inv(c) && (op.Set? || op.Expire? || op.Incr? || op.Clear?)
    ensures StepMeets(cfg, c, s, now, op)
  {
    hide Meets, Inv, DoSet, DoExpire, DoIncr, DoClear, S.Set, S.Expire, S.Incr, S.Removed;
    match op
    case Set(k, v, ttl) => SetMeets(cfg, c, s, cfg.ns + k, v, ttl, now);
    case Expire(k, seconds) => ExpireMeets(c, s, cfg.ns + k, seconds, now);
    case Incr(k, delta, ttl) =>
      if cfg.ns + k in c.store { IncrStoredMeets(c, s, cfg.ns + k, delta, ttl, now); }
      else { IncrNewMeets(c, s, cfg.ns + k, delta, ttl, now); }
    case Clear(all) => ClearMeets(cfg, c, s, now, all);
  }

  // ---- Whole runs ----

  /** The answers of a sequence of calls. */
  ghost function Results(cfg: Config, c: Cache, calls: seq<Call>): (outs: seq<Out>)
    ensures |outs| == |calls|
    decreases |calls|
  {
    if calls == [] then []
    else
      var (c', out) := Step(cfg, c, calls[0].now, calls[0].op);
      [out] + Results(cfg, c', calls[1..])
  }

  /**
   Every run gives the answers of the specification, and leaves its entries and, in the policy, its
   history: what is stored, what is evicted and what is returned follow from the calls alone.
   */
  lemma {:induction false} RunMeetsSpec(cfg: Config, c: Cache, s: S.State, calls: seq<Call>)
    requires Meets(c, s) && Inv(c)
    ensures Meets(Run(cfg, c, calls), S.Run(cfg, s, calls))
    ensures Results(cfg, c, calls) == S.Results(cfg, s, calls)
    decreases |calls|
  {
    hide Meets, Inv, Step, S.Step;
    if calls != [] {
      var now, op := calls[0].now, calls[0].op;
      EveryStepMeets(cfg, c, s, now, op);
      StepKeepsInv(cfg, c, now, op);
      RunMeetsSpec(cfg, Step(cfg, c, now, op).0, S.Step(cfg, s, now, op).0, calls[1..]);
    }
  }

  lemma InitialMeets(policy: Policy)
    requires policy.Tracking? ==> policy.table == EMPTY
    ensures Meets(Initial(policy), S.Initial(if policy.Tracking? then Some(policy.kind) else None))
  {
    assert Entries(Initial(policy)) == map[];
  }
}
