/**
 When the inclusion of LRU caches is lost.  A write that the policy is not told of, of a key that
 only the larger cache holds, gives the smaller cache a key that it never evicts, while the larger
 one evicts it when enough other keys are set: inclusion survives whatever follows exactly in
 traces without such writes.
 */
module LruOutOfStep {
  import opened Wrappers
  import opened Values
  import opened Usage
  import opened InMemoryModel
  import opened InMemoryInvariants
  import opened LruInclusion

  // ---- Runs of plain sets ----

  /** One `set` without TTL for each key. */
  function Sets(keys: seq<string>, v: Value, now: real): (calls: seq<Call>)
    ensures |calls| == |keys|
  {
    seq(|keys|, i requires 0 <= i < |keys| => Call(now, Set(keys[i], v, None)))
  }

  lemma FirstSet(cfg: Config, c: Cache, keys: seq<string>, v: Value, now: real)
    requires keys != []
    ensures Run(cfg, c, Sets(keys, v, now))
            == Run(cfg, DoSet(cfg, c, cfg.ns + keys[0], v, None, now), Sets(keys[1..], v, now))
  {
    hide DoSet;
    assert Sets(keys, v, now)[1..] == Sets(keys[1..], v, now);
  }

  /** The keys are not empty, and none of them is k. */
  predicate Others(ns: string, keys: seq<string>, k: string) {
    forall i | 0 <= i < |keys| :: ns + keys[i] != "" && ns + keys[i] != k
  }

  lemma {:induction false} RunConcat(cfg: Config, c: Cache, s: seq<Call>, t: seq<Call>)
    ensures Run(cfg, c, s + t) == Run(cfg, Run(cfg, c, s), t)
    decreases |s|
  {
    hide Step;
    if s == [] {
      assert s + t == t;
    } else {
      assert (s + t)[0] == s[0] && (s + t)[1..] == s[1..] + t;
      RunConcat(cfg, Step(cfg, c, s[0].now, s[0].op).0, s[1..], t);
    }
  }

  // ---- A key that is not tracked is never evicted ----

  ghost predicate IsLoose(c: Cache, k: string) {
    k in c.store && k !in Tracked(c.policy)
  }

  lemma {:induction false} EvictionKeepsLoose(c: Cache, max: int, k: string)
    requires IsLoose(c, k)
    ensures IsLoose(EvictDownTo(c, max), k)
    decreases Tracked(c.policy)
  {
    if |c.store| > max && c.policy.Tracking? {
      var v := Victim(c.policy.kind, c.policy.table);
      if v.Some? && v.value != "" {
        assert Tracked(RemoveKeys(c, {v.value}).policy) < Tracked(c.policy);
        EvictionKeepsLoose(RemoveKeys(c, {v.value}), max, k);
      }
    }
  }

  lemma {:induction false} SetsKeepLoose(cfg: Config, c: Cache, keys: seq<string>, v: Value, now: real, k: string)
    requires IsLoose(c, k) && Others(cfg.ns, keys, k)
    ensures IsLoose(Run(cfg, c, Sets(keys, v, now)), k)
    decreases |keys|
  {
    if keys != [] {
      FirstSet(cfg, c, keys, v, now);
      var put := Put(c, cfg.ns + keys[0], v, None);
      assert IsLoose(put, k);
      if cfg.maxSize.Some? { EvictionKeepsLoose(put, cfg.maxSize.value, k); }
      SetsKeepLoose(cfg, DoSet(cfg, c, cfg.ns + keys[0], v, None, now), keys[1..], v, now, k);
    }
  }

  // ---- A tracked key is evicted once enough others are set ----

  /** k is tracked, and the keys in `newer` were used after it. */
  ghost predicate Older(c: Cache, k: string, newer: set<string>) {
    && c.policy.Tracking? && k in c.policy.table.stats
    && forall f | f in newer ::
         f in c.policy.table.stats && c.policy.table.stats[k].last < c.policy.table.stats[f].last
  }

  lemma {:induction false} EvictionKeepsRecent(c: Cache, max: int)
    requires Recent(c)
    ensures Recent(EvictDownTo(c, max)) && EvictDownTo(c, max).store.Keys <= c.store.Keys
    decreases Tracked(c.policy)
  {
    hide Covers;
    TheVictim(c);
    var v := Victim(Recency, c.policy.table);
    if |c.store| > max && v.Some? {
      RemovalKeepsRecent(c, {v.value});
      EvictionKeepsRecent(RemoveKeys(c, {v.value}), max);
    }
  }

  lemma VictimKeepsOlder(c: Cache, k: string, newer: set<string>, v: string)
    requires Older(c, k, newer) && IsVictim(Recency, c.policy.table, v) && v != k
    ensures Older(RemoveKeys(c, {v}), k, newer)
  {
    assert c.policy.table.stats[v].last < c.policy.table.stats[k].last;
  }

  /** The loop evicts k before the newer keys, and stops with k in place only when the store fits. */
  lemma {:induction false} EvictionKeepsOlder(c: Cache, max: int, k: string, newer: set<string>)
    requires Recent(c) && Older(c, k, newer)
    ensures var c' := EvictDownTo(c, max);
            k in c'.store ==> Older(c', k, newer) && |c'.store| <= max
    decreases Tracked(c.policy)
  {
    hide Covers, IsVictim, Older;
    TheVictim(c);
    OlderIsTracked(c, k, newer);
    var v := Victim(Recency, c.policy.table);
    if |c.store| > max && v.Some? {
      var c' := RemoveKeys(c, {v.value});
      RemovalKeepsRecent(c, {v.value});
      if v.value == k {
        EvictionKeepsRecent(c', max);
      } else {
        VictimKeepsOlder(c, k, newer, v.value);
        EvictionKeepsOlder(c', max, k, newer);
      }
    }
  }

  lemma OlderIsTracked(c: Cache, k: string, newer: set<string>)
    requires Older(c, k, newer)
    ensures k in Tracked(c.policy)
  {}

  lemma PutKeepsOlder(c: Cache, k: string, newer: set<string>, f: string, v: Value)
    requires Recent(c) && Older(c, k, newer) && f != k && f != ""
    ensures Older(Put(c, f, v, None), k, newer + {f})
  {}

  lemma SetKeepsOlder(cfg: Config, c: Cache, k: string, newer: set<string>, f: string, v: Value, now: real)
    requires cfg.maxSize.Some? && Recent(c) && f != k && f != "" && (k in c.store ==> Older(c, k, newer))
    ensures var c' := DoSet(cfg, c, f, v, None, now);
            Recent(c') && (k in c'.store ==> Older(c', k, newer + {f}) && |c'.store| <= cfg.maxSize.value)
  {
    hide Recent, Older, Put, EvictDownTo;
    var put := Put(c, f, v, None);
    PutKeepsRecent(c, f, v, None);
    EvictionKeepsRecent(put, cfg.maxSize.value);
    if k in c.store {
      PutKeepsOlder(c, k, newer, f, v);
      EvictionKeepsOlder(put, cfg.maxSize.value, k, newer + {f});
    }
  }

  lemma {:induction false} SetsKeepOlder(
    cfg: Config, c: Cache, k: string, newer: set<string>, keys: seq<string>, v: Value, now: real)
    requires cfg.maxSize.Some? && Recent(c) && Others(cfg.ns, keys, k)
    requires k in c.store ==> Older(c, k, newer)
    ensures var c' := Run(cfg, c, Sets(keys, v, now));
            && Recent(c')
            && (k in c'.store ==> Older(c', k, newer + Prefixed(cfg.ns, keys)))
            && (k in c'.store && (keys != [] || |c.store| <= cfg.maxSize.value) ==> |c'.store| <= cfg.maxSize.value)
    decreases |keys|
  {
    hide Recent, Older, DoSet;
    if keys == [] {
      assert newer + Prefixed(cfg.ns, keys) == newer;
    } else {
      var f := cfg.ns + keys[0];
      FirstSet(cfg, c, keys, v, now);
      SetKeepsOlder(cfg, c, k, newer, f, v, now);
      SetsKeepOlder(cfg, DoSet(cfg, c, f, v, None, now), k, newer + {f}, keys[1..], v, now);
      assert keys == [keys[0]] + keys[1..];
      assert newer + Prefixed(cfg.ns, keys) == newer + {f} + Prefixed(cfg.ns, keys[1..]);
    }
  }

  /** After as many other keys as the cache may hold, a tracked key is gone. */
  lemma {:induction false} AgesOut(cfg: Config, c: Cache, k: string, keys: seq<string>, v: Value, now: real)
    requires cfg.maxSize.Some? && cfg.maxSize.value >= 1
    requires Recent(c) && k in Tracked(c.policy)
    requires Others(cfg.ns, keys, k) && |Prefixed(cfg.ns, keys)| >= cfg.maxSize.value
    ensures k !in Run(cfg, c, Sets(keys, v, now)).store
  {
    var newer := Prefixed(cfg.ns, keys);
    SetsKeepOlder(cfg, c, k, {}, keys, v, now);
    assert {} + newer == newer;
    var c' := Run(cfg, c, Sets(keys, v, now));
    assert keys == [] ==> newer == {};
    if k in c'.store { OlderFits(c', k, newer); }
  }

  lemma OlderFits(c: Cache, k: string, newer: set<string>)
    requires Recent(c) && Older(c, k, newer)
    ensures |newer| + 1 <= |c.store|
  {
    OlderIsStored(c, k, newer);
    assert |newer + {k}| == |newer| + 1;
    SubsetIsSmaller(newer + {k}, c.store.Keys);
    assert |c.store.Keys| == |c.store|;
  }

  lemma OlderIsStored(c: Cache, k: string, newer: set<string>)
    requires Recent(c) && Older(c, k, newer)
    ensures newer + {k} <= c.store.Keys && k !in newer
  {}

  // ---- Enough other keys ----

  function Xs(n: nat): (s: string)
    ensures |s| == n
  {
    seq(n, i requires 0 <= i < n => 'x')
  }

  /** n keys that are longer than k, each longer than the one before. */
  function Longer(k: string, n: nat): (keys: seq<string>)
    ensures |keys| == n && forall i | 0 <= i < n :: |keys[i]| == |k| + 1 + i
  {
    if n == 0 then [] else Longer(k, n - 1) + [Xs(|k| + n)]
  }

  lemma LongerAreOthers(ns: string, k: string, n: nat)
    ensures Others(ns, Longer(k, n), k)
  {
    forall i | 0 <= i < n ensures |ns + Longer(k, n)[i]| > |k| {}
  }

  lemma PrefixedOneMore(ns: string, names: seq<string>, last: string)
    ensures Prefixed(ns, names + [last]) == Prefixed(ns, names) + {ns + last}
  {}

  lemma {:induction false} LongerAreDistinct(ns: string, k: string, n: nat)
    ensures |Prefixed(ns, Longer(k, n))| == n
    ensures forall t | t in Prefixed(ns, Longer(k, n)) :: |t| <= |ns| + |k| + n
  {
    if n == 0 {
      assert Prefixed(ns, Longer(k, n)) == {};
    } else {
      hide Prefixed;
      var rest, last := Longer(k, n - 1), Xs(|k| + n);
      LongerAreDistinct(ns, k, n - 1);
      PrefixedOneMore(ns, rest, last);
      assert |ns + last| == |ns| + |k| + n;
      assert ns + last !in Prefixed(ns, rest);
    }
  }

  // ---- One write out of step ----

  /** The smaller cache keeps an untracked key for ever, the larger one evicts it. */
  lemma {:induction false} Diverges(
    ca: Config, a: Cache, cb: Config, b: Cache, k: string, keys: seq<string>, w: Value, now: real)
    requires ca.ns == cb.ns && cb.maxSize.Some? && cb.maxSize.value >= 1
    requires IsLoose(a, k) && Recent(b) && k in Tracked(b.policy)
    requires Others(ca.ns, keys, k) && |Prefixed(ca.ns, keys)| >= cb.maxSize.value
    ensures k in Run(ca, a, Sets(keys, w, now)).store
    ensures k !in Run(cb, b, Sets(keys, w, now)).store
  {
    SetsKeepLoose(ca, a, keys, w, now, k);
    AgesOut(cb, b, k, keys, w, now);
  }

  /**
   For all sizes and all included caches: after a write out of step, plain sets of as many other
   keys as the larger cache may hold leave its key in the smaller cache and not in the larger.
   */
  lemma {:induction false} OutOfStepBreaks(
    ca: Config, a: Cache, cb: Config, b: Cache, k: string, v: Value, until: Option<Option<real>>,
    keys: seq<string>, w: Value, now: real)
    requires ca.ns == cb.ns && ca.maxSize.Some? && cb.maxSize.Some? && 1 <= ca.maxSize.value <= cb.maxSize.value
    requires Included(a, ca.maxSize.value, b, cb.maxSize.value) && k in b.store && k !in a.store
    requires Others(ca.ns, keys, k) && |Prefixed(ca.ns, keys)| >= cb.maxSize.value
    ensures k in Run(ca, Unnoted(a, k, v, until), Sets(keys, w, now)).store
    ensures k !in Run(cb, Unnoted(b, k, v, until), Sets(keys, w, now)).store
  {
    StoredKey(a, b, k);
    UnnotedKeepsRecent(b, k, v, until);
    Diverges(ca, Unnoted(a, k, v, until), cb, Unnoted(b, k, v, until), k, keys, w, now);
  }

  ghost predicate IsTrace(ns: string, calls: seq<Call>) {
    forall i | 0 <= i < |calls| :: TraceOp(ns, calls[i].op)
  }

  /** Calls of a trace that the policy is told of. */
  ghost predicate PlainTrace(ns: string, calls: seq<Call>) {
    forall i | 0 <= i < |calls| :: TraceOp(ns, calls[i].op) && !IsUnnoted(calls[i].now, calls[i].op)
  }

  lemma SetsArePlain(ns: string, keys: seq<string>, k: string, v: Value, now: real)
    requires Others(ns, keys, k)
    ensures PlainTrace(ns, Sets(keys, v, now))
  {}

  /** Whatever plain calls follow, the smaller cache holds only keys of the larger one. */
  ghost predicate StaysIncluded(ca: Config, a: Cache, cb: Config, b: Cache) {
    forall calls | PlainTrace(ca.ns, calls) :: Run(ca, a, calls).store.Keys <= Run(cb, b, calls).store.Keys
  }

  lemma {:induction false} IncludedStays(ca: Config, a: Cache, cb: Config, b: Cache)
    requires ca.ns == cb.ns && ca.maxSize.Some? && cb.maxSize.Some? && 1 <= ca.maxSize.value <= cb.maxSize.value
    requires Included(a, ca.maxSize.value, b, cb.maxSize.value)
    ensures StaysIncluded(ca, a, cb, b)
  {
    hide Included, TraceOp;
    forall calls | PlainTrace(ca.ns, calls) ensures Run(ca, a, calls).store.Keys <= Run(cb, b, calls).store.Keys {
      PlainRunIsInStep(ca, a, cb, b, calls);
      RunKeepsIncluded(ca, a, cb, b, calls);
      IncludedKeys(Run(ca, a, calls), ca.maxSize.value, Run(cb, b, calls), cb.maxSize.value);
    }
  }

  lemma IncludedKeys(a: Cache, m: int, b: Cache, n: int)
    requires Included(a, m, b, n)
    ensures a.store.Keys <= b.store.Keys && Recent(b)
  {}

  lemma {:induction false} DivergedDoesNotStay(ca: Config, a: Cache, cb: Config, b: Cache, k: string)
    requires ca.ns == cb.ns && cb.maxSize.Some? && cb.maxSize.value >= 1
    requires IsLoose(a, k) && Recent(b) && k in Tracked(b.policy)
    ensures !StaysIncluded(ca, a, cb, b)
  {
    hide IsLoose, Recent, Tracked;
    var keys := Longer(k, cb.maxSize.value);
    LongerAreOthers(ca.ns, k, cb.maxSize.value);
    LongerAreDistinct(ca.ns, k, cb.maxSize.value);
    SetsArePlain(ca.ns, keys, k, NoneValue, 0.0);
    Diverges(ca, a, cb, b, k, keys, NoneValue, 0.0);
  }

  /**
   From all included caches: after a write that the policy is not told of, inclusion of the keys
   survives every plain trace exactly when the key was in both caches or in neither.
   */
  lemma {:induction false} UnnotedStaysIncludedIff(
    ca: Config, a: Cache, cb: Config, b: Cache, k: string, v: Value, until: Option<Option<real>>)
    requires ca.ns == cb.ns && ca.maxSize.Some? && cb.maxSize.Some? && 1 <= ca.maxSize.value <= cb.maxSize.value
    requires Included(a, ca.maxSize.value, b, cb.maxSize.value) && k != ""
    ensures StaysIncluded(ca, Unnoted(a, k, v, until), cb, Unnoted(b, k, v, until)) <==> (k in b.store ==> k in a.store)
  {
    if k in b.store ==> k in a.store {
      UnnotedKeepsIncluded(a, ca.maxSize.value, b, cb.maxSize.value, k, v, until);
      IncludedStays(ca, Unnoted(a, k, v, until), cb, Unnoted(b, k, v, until));
    } else {
      StoredKey(a, b, k);
      UnnotedKeepsRecent(b, k, v, until);
      DivergedDoesNotStay(ca, Unnoted(a, k, v, until), cb, Unnoted(b, k, v, until), k);
    }
  }

  // ---- Whole traces ----

  /** Inclusion holds at every point of the trace and survives every plain trace from there. */
  ghost predicate KeepsIncluded(ca: Config, a: Cache, cb: Config, b: Cache, calls: seq<Call>) {
    forall i | 0 <= i <= |calls| :: StaysIncluded(ca, Run(ca, a, calls[..i]), cb, Run(cb, b, calls[..i]))
  }

  lemma KeepsIncludedStep(ca: Config, a: Cache, cb: Config, b: Cache, calls: seq<Call>)
    requires calls != []
    ensures var a', b' := Step(ca, a, calls[0].now, calls[0].op).0, Step(cb, b, calls[0].now, calls[0].op).0;
            KeepsIncluded(ca, a, cb, b, calls)
            <==> StaysIncluded(ca, a, cb, b) && KeepsIncluded(ca, a', cb, b', calls[1..])
  {
    hide Step, StaysIncluded;
    var a', b' := Step(ca, a, calls[0].now, calls[0].op).0, Step(cb, b, calls[0].now, calls[0].op).0;
    assert calls[..0] == [];
    forall i | 1 <= i <= |calls|
      ensures Run(ca, a, calls[..i]) == Run(ca, a', calls[1..][..i - 1])
      ensures Run(cb, b, calls[..i]) == Run(cb, b', calls[1..][..i - 1])
    {
      assert calls[..i][0] == calls[0] && calls[..i][1..] == calls[1..][..i - 1];
    }
    if KeepsIncluded(ca, a, cb, b, calls) {
      forall i | 0 <= i <= |calls[1..]|
        ensures StaysIncluded(ca, Run(ca, a', calls[1..][..i]), cb, Run(cb, b', calls[1..][..i]))
      {
        assert StaysIncluded(ca, Run(ca, a, calls[..i + 1]), cb, Run(cb, b, calls[..i + 1]));
      }
      assert StaysIncluded(ca, Run(ca, a, calls[..0]), cb, Run(cb, b, calls[..0]));
    }
    if StaysIncluded(ca, a, cb, b) && KeepsIncluded(ca, a', cb, b', calls[1..]) {
      forall i | 0 <= i <= |calls| ensures StaysIncluded(ca, Run(ca, a, calls[..i]), cb, Run(cb, b, calls[..i])) {
        if i > 0 { assert StaysIncluded(ca, Run(ca, a', calls[1..][..i - 1]), cb, Run(cb, b', calls[1..][..i - 1])); }
      }
    }
  }

  /** A call out of step leaves the key untracked in the smaller cache and tracked in the larger one. */
  lemma OutOfStepCall(ca: Config, a: Cache, cb: Config, b: Cache, now: real, op: Op)
    requires ca.ns == cb.ns && Related(a, b) && !InStep(ca.ns, a, b, now, op)
    ensures var k := ca.ns + op.key;
            && IsLoose(Step(ca, a, now, op).0, k)
            && Recent(Step(cb, b, now, op).0) && k in Tracked(Step(cb, b, now, op).0.policy)
  {
    var k := ca.ns + op.key;
    StoredKey(a, b, k);
    hide Related, EvictIfNeeded, Covers, DoIncr, Put;
    if op.Incr? {
      var v, until := IncrIsUnnoted(a, k, op.delta, op.ttl, now);
      var w, until' := IncrIsUnnoted(b, k, op.delta, op.ttl, now);
      RelatedIsRecent(a, b);
      if w.Some? { UnnotedKeepsRecent(b, k, w.value, until'); }
    } else {
      RelatedIsRecent(a, b);
      UnnotedKeepsRecent(b, k, op.value, None);
    }
  }

  lemma RelatedIsRecent(a: Cache, b: Cache)
    requires Related(a, b)
    ensures Recent(a) && Recent(b)
  {}

  /**
   From all included caches and for all traces: inclusion is kept at every point of the trace, and
   through every plain trace from there, exactly when the trace has no write out of step.
   */
  lemma {:induction false} KeepsIncludedIff(ca: Config, a: Cache, cb: Config, b: Cache, calls: seq<Call>)
    requires ca.ns == cb.ns && ca.maxSize.Some? && cb.maxSize.Some? && 1 <= ca.maxSize.value <= cb.maxSize.value
    requires Included(a, ca.maxSize.value, b, cb.maxSize.value)
    requires IsTrace(ca.ns, calls)
    ensures KeepsIncluded(ca, a, cb, b, calls) <==> RunInStep(ca, a, cb, b, calls)
    decreases |calls|
  {
    hide Step, StaysIncluded, TraceOp, InStep, IsLoose;
    IncludedStays(ca, a, cb, b);
    if calls == [] {
      NoCalls(ca, a, cb, b, calls);
    } else {
      var call := calls[0];
      var a', b' := Step(ca, a, call.now, call.op).0, Step(cb, b, call.now, call.op).0;
      KeepsIncludedStep(ca, a, cb, b, calls);
      if InStep(ca.ns, a, b, call.now, call.op) {
        StepKeepsIncluded(ca, a, cb, b, call.now, call.op);
        KeepsIncludedIff(ca, a', cb, b', calls[1..]);
      } else {
        OutOfStepDoesNotStay(ca, a, cb, b, call.now, call.op);
        NotAtOnce(ca, a', cb, b', calls[1..]);
      }
    }
  }

  lemma NoCalls(ca: Config, a: Cache, cb: Config, b: Cache, calls: seq<Call>)
    requires calls == []
    ensures KeepsIncluded(ca, a, cb, b, calls) <==> StaysIncluded(ca, a, cb, b)
  {
    hide StaysIncluded;
    assert calls[..0] == [];
  }

  lemma NotAtOnce(ca: Config, a: Cache, cb: Config, b: Cache, calls: seq<Call>)
    requires !StaysIncluded(ca, a, cb, b)
    ensures !KeepsIncluded(ca, a, cb, b, calls)
  {
    hide StaysIncluded;
    assert calls[..0] == [];
    assert !StaysIncluded(ca, Run(ca, a, calls[..0]), cb, Run(cb, b, calls[..0]));
  }

  lemma OutOfStepDoesNotStay(ca: Config, a: Cache, cb: Config, b: Cache, now: real, op: Op)
    requires ca.ns == cb.ns && ca.maxSize.Some? && cb.maxSize.Some? && cb.maxSize.value >= 1
    requires Included(a, ca.maxSize.value, b, cb.maxSize.value) && !InStep(ca.ns, a, b, now, op)
    ensures !StaysIncluded(ca, Step(ca, a, now, op).0, cb, Step(cb, b, now, op).0)
  {
    hide StaysIncluded, Step, IsLoose;
    OutOfStepCall(ca, a, cb, b, now, op);
    DivergedDoesNotStay(ca, Step(ca, a, now, op).0, cb, Step(cb, b, now, op).0, ca.ns + op.key);
  }

  // ---- Which sizes lose it ----

  lemma {:induction false} RoomForAll(cfg: Config, c: Cache, keys: seq<string>, v: Value, now: real, k: string)
    requires cfg.maxSize.Some? && |c.store| + |keys| <= cfg.maxSize.value && k in c.store
    ensures k in Run(cfg, c, Sets(keys, v, now)).store
    decreases |keys|
  {
    if keys != [] {
      FirstSet(cfg, c, keys, v, now);
      var put := Put(c, cfg.ns + keys[0], v, None);
      assert put.store.Keys == c.store.Keys + {cfg.ns + keys[0]};
      assert |put.store| == |put.store.Keys| && |c.store| == |c.store.Keys|;
      assert DoSet(cfg, c, cfg.ns + keys[0], v, None, now) == put;
      RoomForAll(cfg, put, keys[1..], v, now, k);
    }
  }

  /** Set x and as many other keys as the smaller cache may hold. */
  function Overtaken(ns: string, x: string, m: nat, v: Value, now: real): seq<Call> {
    [Call(now, Set(x, v, None))] + Sets(Longer(ns + x, m), v, now)
  }

  /** Then set x with a deadline that raises, and as many other keys as the larger cache may hold. */
  function Lost(ns: string, x: string, m: nat, n: nat, v: Value, ttl: Option<int>, now: real): seq<Call> {
    Overtaken(ns, x, m, v, now) + ([Call(now, Set(x, v, ttl))] + Sets(Longer(ns + x, n), v, now))
  }

  lemma FirstKey(cfg: Config, x: string, v: Value, now: real)
    requires cfg.maxSize.Some? && cfg.maxSize.value >= 1 && cfg.ns + x != ""
    ensures var c := Step(cfg, Initial(Tracking(Recency, EMPTY)), now, Set(x, v, None)).0;
            Recent(c) && c.store.Keys == {cfg.ns + x} && cfg.ns + x in Tracked(c.policy)
  {
    var put := Put(Initial(Tracking(Recency, EMPTY)), cfg.ns + x, v, None);
    assert put.store.Keys == {cfg.ns + x} && |put.store| == |put.store.Keys|;
    assert Step(cfg, Initial(Tracking(Recency, EMPTY)), now, Set(x, v, None)).0 == put;
  }

  lemma OneThenMore(cfg: Config, c: Cache, call: Call, more: seq<Call>)
    ensures Run(cfg, c, [call] + more) == Run(cfg, Step(cfg, c, call.now, call.op).0, more)
  {
    hide Step;
    assert ([call] + more)[1..] == more;
  }

  lemma {:induction false} OvertakenIsGone(cfg: Config, x: string, v: Value, now: real)
    requires cfg.maxSize.Some? && cfg.maxSize.value >= 1 && cfg.ns + x != ""
    ensures cfg.ns + x !in
            Run(cfg, Initial(Tracking(Recency, EMPTY)), Overtaken(cfg.ns, x, cfg.maxSize.value, v, now)).store
  {
    hide Recent, Tracked, Step;
    var empty, m := Initial(Tracking(Recency, EMPTY)), cfg.maxSize.value;
    var first, keys := Call(now, Set(x, v, None)), Longer(cfg.ns + x, m);
    FirstKey(cfg, x, v, now);
    OneThenMore(cfg, empty, first, Sets(keys, v, now));
    LongerAreOthers(cfg.ns, cfg.ns + x, m);
    LongerAreDistinct(cfg.ns, cfg.ns + x, m);
    AgesOut(cfg, Step(cfg, empty, now, first.op).0, cfg.ns + x, keys, v, now);
  }

  lemma {:induction false} OvertakenFits(cfg: Config, x: string, m: nat, v: Value, now: real)
    requires cfg.maxSize.Some? && m < cfg.maxSize.value && cfg.ns + x != ""
    ensures cfg.ns + x in Run(cfg, Initial(Tracking(Recency, EMPTY)), Overtaken(cfg.ns, x, m, v, now)).store
  {
    hide Recent, Tracked, Step;
    var empty, first := Initial(Tracking(Recency, EMPTY)), Call(now, Set(x, v, None));
    FirstKey(cfg, x, v, now);
    OneThenMore(cfg, empty, first, Sets(Longer(cfg.ns + x, m), v, now));
    var c := Step(cfg, empty, now, first.op).0;
    assert |c.store| == |c.store.Keys|;
    RoomForAll(cfg, c, Longer(cfg.ns + x, m), v, now, cfg.ns + x);
  }

  lemma OvertakenIsPlain(ns: string, x: string, m: nat, v: Value, now: real)
    requires ns + x != ""
    ensures PlainTrace(ns, Overtaken(ns, x, m, v, now))
  {
    LongerAreOthers(ns, ns + x, m);
    SetsArePlain(ns, Longer(ns + x, m), ns + x, v, now);
  }

  lemma {:induction false} PlainRunIncludes(ca: Config, cb: Config, calls: seq<Call>)
    requires ca.ns == cb.ns && ca.maxSize.Some? && cb.maxSize.Some? && 1 <= ca.maxSize.value <= cb.maxSize.value
    requires PlainTrace(ca.ns, calls)
    ensures var empty := Initial(Tracking(Recency, EMPTY));
            Included(Run(ca, empty, calls), ca.maxSize.value, Run(cb, empty, calls), cb.maxSize.value)
  {
    var empty := Initial(Tracking(Recency, EMPTY));
    PlainRunIsInStep(ca, empty, cb, empty, calls);
    RunKeepsIncluded(ca, empty, cb, empty, calls);
  }

  lemma RaisingSetIsUnnoted(cfg: Config, c: Cache, x: string, v: Value, ttl: Option<int>, now: real)
    requires Overflows(ttl, now)
    ensures Step(cfg, c, now, Set(x, v, ttl)).0 == Unnoted(c, cfg.ns + x, v, None)
  {
    hide EvictIfNeeded;
  }

  /** For all sizes m < n, keys, values and deadlines that raise, a trace from empty caches loses inclusion. */
  lemma {:induction false} RaisingSetBreaksInclusion(
    ca: Config, cb: Config, x: string, v: Value, ttl: Option<int>, now: real)
    requires ca.ns == cb.ns && ca.maxSize.Some? && cb.maxSize.Some? && 1 <= ca.maxSize.value < cb.maxSize.value
    requires ca.ns + x != "" && Overflows(ttl, now)
    ensures var empty := Initial(Tracking(Recency, EMPTY));
            var calls := Lost(ca.ns, x, ca.maxSize.value, cb.maxSize.value, v, ttl, now);
            ca.ns + x in Run(ca, empty, calls).store && ca.ns + x !in Run(cb, empty, calls).store
  {
    hide Step, Included, Unnoted, TraceOp;
    var empty, m, n, k := Initial(Tracking(Recency, EMPTY)), ca.maxSize.value, cb.maxSize.value, ca.ns + x;
    var before, keys := Overtaken(ca.ns, x, m, v, now), Longer(k, n);
    var raising, after := Call(now, Set(x, v, ttl)), Sets(keys, v, now);
    var a, b := Run(ca, empty, before), Run(cb, empty, before);
    OvertakenIsGone(ca, x, v, now);
    OvertakenFits(cb, x, m, v, now);
    OvertakenIsPlain(ca.ns, x, m, v, now);
    PlainRunIncludes(ca, cb, before);
    RaisingSetIsUnnoted(ca, a, x, v, ttl, now);
    RaisingSetIsUnnoted(cb, b, x, v, ttl, now);
    LongerAreOthers(ca.ns, k, n);
    LongerAreDistinct(ca.ns, k, n);
    OutOfStepBreaks(ca, a, cb, b, k, v, None, keys, v, now);
    RunConcat(ca, empty, before, [raising] + after);
    RunConcat(cb, empty, before, [raising] + after);
    OneThenMore(ca, a, raising, after);
    OneThenMore(cb, b, raising, after);
  }

  /** All traces without tags and `get_or_set`, writes out of step or not. */
  ghost predicate EveryTraceIncludes(ca: Config, cb: Config) {
    forall calls | IsTrace(ca.ns, calls) ::
      Run(ca, Initial(Tracking(Recency, EMPTY)), calls).store.Keys
      <= Run(cb, Initial(Tracking(Recency, EMPTY)), calls).store.Keys
  }

  lemma {:induction false} EqualSizesAreInStep(ca: Config, a: Cache, cb: Config, b: Cache, calls: seq<Call>)
    requires ca.ns == cb.ns && ca.maxSize.Some? && ca.maxSize == cb.maxSize && 1 <= ca.maxSize.value
    requires IsTrace(ca.ns, calls)
    requires Included(a, ca.maxSize.value, b, cb.maxSize.value)
    ensures RunInStep(ca, a, cb, b, calls)
    decreases |calls|
  {
    if calls != [] {
      SameKeys(a, b, ca.maxSize.value);
      hide Included, Step, TraceOp;
      StepKeepsIncluded(ca, a, cb, b, calls[0].now, calls[0].op);
      var a', b' := Step(ca, a, calls[0].now, calls[0].op).0, Step(cb, b, calls[0].now, calls[0].op).0;
      EqualSizesAreInStep(ca, a', cb, b', calls[1..]);
    }
  }

  lemma SameKeys(a: Cache, b: Cache, n: int)
    requires Included(a, n, b, n)
    ensures a.store.Keys == b.store.Keys
  {}

  lemma LostIsTrace(ns: string, x: string, m: nat, n: nat, v: Value, ttl: Option<int>, now: real)
    requires ns + x != ""
    ensures IsTrace(ns, Lost(ns, x, m, n, v, ttl, now))
  {
    LongerAreOthers(ns, ns + x, m);
    LongerAreOthers(ns, ns + x, n);
  }

  /** Every trace keeps a cache of size m included in one of size n exactly when m == n. */
  lemma {:induction false} EveryTraceIncludesIff(ca: Config, cb: Config)
    requires ca.ns == cb.ns && ca.maxSize.Some? && cb.maxSize.Some? && 1 <= ca.maxSize.value <= cb.maxSize.value
    ensures EveryTraceIncludes(ca, cb) <==> ca.maxSize == cb.maxSize
  {
    hide TraceOp, Included;
    var empty := Initial(Tracking(Recency, EMPTY));
    if ca.maxSize == cb.maxSize {
      forall calls | IsTrace(ca.ns, calls)
        ensures Run(ca, empty, calls).store.Keys <= Run(cb, empty, calls).store.Keys
      {
        EmptyIsIncluded(ca.maxSize.value);
        EqualSizesAreInStep(ca, empty, cb, empty, calls);
        RunKeepsIncluded(ca, empty, cb, empty, calls);
        IncludedKeys(Run(ca, empty, calls), ca.maxSize.value, Run(cb, empty, calls), cb.maxSize.value);
      }
    } else {
      var ttl := Some(1000000000000);
      LostIsTrace(ca.ns, "x", ca.maxSize.value, cb.maxSize.value, NoneValue, ttl, 0.0);
      RaisingSetBreaksInclusion(ca, cb, "x", NoneValue, ttl, 0.0);
    }
  }

  lemma EmptyIsIncluded(n: int)
    ensures Included(Initial(Tracking(Recency, EMPTY)), n, Initial(Tracking(Recency, EMPTY)), n)
  {}
}
