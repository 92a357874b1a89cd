/**
 What the cache holds and what callers get, over whole runs in which only the decorator writes:
 results of the function for that very key.
 */
module ProtocolIntegrity {
  import opened Wrappers
  import opened Values
  import opened Swr
  import opened Protocol

  ghost predicate Produced(h: History, key: string, v: Value) {
    (key, v) in h.produced
  }

  /** The entry of the key decodes to a result for that key that may be cached. */
  ghost predicate Sound(cfg: Config, s: State, key: string) {
    key in s.cache ==> Produced(s.history, key, Decode(s.cache[key]).0) && Storable(cfg, Decode(s.cache[key]).0)
  }

  ghost predicate SoundAnswer(h: History, key: string, ret: Outcome) {
    ret.Answer? ==> Produced(h, key, ret.v)
  }

  ghost predicate SoundThread(cfg: Config, h: History, th: Thread) {
    match th.pc
    case Storing(_, result) => Produced(h, th.key, result) && Storable(cfg, result)
    case Releasing(_, ret) => SoundAnswer(h, th.key, ret)
    case Firing(_, ret) => SoundAnswer(h, th.key, ret)
    case Returned(ret) => SoundAnswer(h, th.key, ret)
    case _ => true
  }

  ghost predicate Integrity(cfg: Config, s: State) {
    && (forall k | k in s.cache :: Sound(cfg, s, k))
    && (forall t | 0 <= t < |s.threads| :: SoundThread(cfg, s.history, s.threads[t]))
  }

  /** A result that is stored bare does not look like an envelope. */
  predicate Unambiguous(cfg: Config, s: State, step: Step)
    requires Enabled(cfg, s, step)
  {
    step.Act? && step.move.Store? ==>
      !(s.threads[step.t].pc.result.Envelope? && step.move.site.Plain? && (step.move.ttl.None? || cfg.stale.None?))
  }

  predicate UnambiguousRun(cfg: Config, s: State, steps: seq<Step>)
    requires IsRun(cfg, s, steps)
    decreases |steps|
  {
    steps == [] || (Unambiguous(cfg, s, steps[0]) && UnambiguousRun(cfg, Next(cfg, s, steps[0]), steps[1..]))
  }

  lemma HistoryGrows(s: State, th: Thread, move: Move)
    ensures s.history.produced <= HistoryAfter(s, th, move).produced
  {}

  lemma MoveKeepsThread(cfg: Config, s: State, t: nat, move: Move)
    requires Enabled(cfg, s, Act(t, move)) && Integrity(cfg, s)
    ensures var th := s.threads[t];
            SoundThread(cfg, HistoryAfter(s, th, move), th.(pc := PcAfter(cfg, s, th, move)))
  {}

  lemma MoveKeepsEntry(cfg: Config, s: State, t: nat, move: Move, k: string)
    requires Enabled(cfg, s, Act(t, move)) && Integrity(cfg, s) && Unambiguous(cfg, s, Act(t, move))
    ensures Sound(cfg, Next(cfg, s, Act(t, move)), k)
  {}

  lemma StepKeepsIntegrity(cfg: Config, s: State, step: Step)
    requires Enabled(cfg, s, step) && Integrity(cfg, s) && Unambiguous(cfg, s, step)
    ensures Integrity(cfg, Next(cfg, s, step))
  {
    var s' := Next(cfg, s, step);
    match step
    case Call(_) =>
    case Drop(k) =>
      forall x | x in s'.cache ensures Sound(cfg, s', x) { assert Sound(cfg, s, x); }
    case Act(t, move) =>
      HistoryGrows(s, s.threads[t], move);
      MoveKeepsThread(cfg, s, t, move);
      forall x | x in s'.cache ensures Sound(cfg, s', x) { MoveKeepsEntry(cfg, s, t, move, x); }
      forall u | 0 <= u < |s'.threads| ensures SoundThread(cfg, s'.history, s'.threads[u]) {
        if u < |s.threads| && u != t { assert SoundThread(cfg, s.history, s.threads[u]); }
      }
  }

  lemma {:induction false} RunKeepsIntegrity(cfg: Config, s: State, steps: seq<Step>)
    requires IsRun(cfg, s, steps) && Integrity(cfg, s) && UnambiguousRun(cfg, s, steps)
    ensures Integrity(cfg, Run(cfg, s, steps))
    decreases |steps|
  {
    if steps != [] {
      StepKeepsIntegrity(cfg, s, steps[0]);
      RunKeepsIntegrity(cfg, Next(cfg, s, steps[0]), steps[1..]);
    }
  }

  /**
   After any run from an empty cache: every entry decodes to a result of the function for its key,
   which passed `condition` and is not None unless `cache_none`; and every answer a caller got,
   fresh, stale, computed or read after a wait, is such a result too.
   */
  lemma CacheIntegrity(cfg: Config, steps: seq<Step>)
    requires IsRun(cfg, IDLE, steps) && UnambiguousRun(cfg, IDLE, steps)
    ensures var s := Run(cfg, IDLE, steps);
            && (forall k | k in s.cache ::
                  var v := Decode(s.cache[k]).0;
                  (k, v) in s.history.produced && cfg.condition(v) == Some(true) && (v.NoneValue? ==> cfg.cacheNone))
            && (forall t | 0 <= t < |s.threads| && s.threads[t].pc.Returned? && s.threads[t].pc.ret.Answer? ::
                  (s.threads[t].key, s.threads[t].pc.ret.v) in s.history.produced)
  {
    RunKeepsIntegrity(cfg, IDLE, steps);
    var s := Run(cfg, IDLE, steps);
    forall t | 0 <= t < |s.threads| && s.threads[t].pc.Returned? && s.threads[t].pc.ret.Answer?
      ensures (s.threads[t].key, s.threads[t].pc.ret.v) in s.history.produced
    {
      assert SoundThread(cfg, s.history, s.threads[t]);
    }
    forall k | k in s.cache ensures Sound(cfg, s, k) {}
  }

  /** A result that is stored bare and looks like an envelope is not read back. */
  lemma {:induction false} AmbiguousIsMisread(
    cfg: Config, s: State, t: nat, site: Site, ttl: Option<real>, draw: nat, now: real, raise: bool)
    requires Enabled(cfg, s, Act(t, Store(site, ttl, draw, now, raise)))
    requires ttl.Some? ==> Truncate(ttl.value) > 0 && (cfg.stale.Some? ==> Truncate(ttl.value) + cfg.stale.value > 0)
    ensures var s' := Next(cfg, s, Act(t, Store(site, ttl, draw, now, raise)));
            var key := s.threads[t].key;
            && key in s'.cache
            && (Decode(s'.cache[key]).0 == s.threads[t].pc.result
                <==> Unambiguous(cfg, s, Act(t, Store(site, ttl, draw, now, raise))))
  {}

  /**
   What a store leaves under its key, for all TTLs, jitters and stale windows: the bare result
   without a TTL or a stale window at the plain sites, and an envelope that is fresh until
   int(ttl) and the jitter have passed otherwise; nothing when the time to live is not positive.
   */
  lemma StoreWrites(cfg: Config, s: State, t: nat, site: Site, ttl: Option<real>, draw: nat, now: real, raise: bool)
    requires Enabled(cfg, s, Act(t, Store(site, ttl, draw, now, raise)))
    ensures var key, v := s.threads[t].key, s.threads[t].pc.result;
            var cache := Next(cfg, s, Act(t, Store(site, ttl, draw, now, raise))).cache;
            var bare := site.Plain? && (ttl.None? || cfg.stale.None?);
            var freshUntil := if ttl.None? then None else Some(now + (Truncate(ttl.value) + draw) as real);
            var window := if cfg.stale.Some? then cfg.stale.value else 0;
            var lives := ttl.None? || (if bare then Truncate(ttl.value) else Truncate(ttl.value) + draw + window) > 0;
            cache == if lives then s.cache[key := if bare then v else Envelope(v, freshUntil)] else s.cache - {key}
  {}

  // ---- What does not write ----

  /** Neither a cacheable result for the key nor a drop of it. */
  ghost predicate Fruitless(cfg: Config, s: State, step: Step, key: string)
    requires Enabled(cfg, s, step)
  {
    && step != Drop(key)
    && (step.Act? && step.move.Compute? && s.threads[step.t].key == key && step.move.result.Some? ==>
          !Storable(cfg, step.move.result.value))
  }

  ghost predicate FruitlessRun(cfg: Config, s: State, steps: seq<Step>, key: string)
    requires IsRun(cfg, s, steps)
    decreases |steps|
  {
    steps == [] || (Fruitless(cfg, s, steps[0], key) && FruitlessRun(cfg, Next(cfg, s, steps[0]), steps[1..], key))
  }

  ghost predicate NobodyStores(s: State, key: string) {
    forall t | 0 <= t < |s.threads| && s.threads[t].key == key :: !s.threads[t].pc.Storing?
  }

  ghost predicate SameEntry(a: map<string, Value>, b: map<string, Value>, key: string) {
    (key in a <==> key in b) && (key in a && key in b ==> a[key] == b[key])
  }

  lemma FruitlessStep(cfg: Config, s: State, step: Step, key: string)
    requires Enabled(cfg, s, step) && NobodyStores(s, key) && Fruitless(cfg, s, step, key)
    ensures NobodyStores(Next(cfg, s, step), key) && SameEntry(s.cache, Next(cfg, s, step).cache, key)
  {}

  /**
   Calls that raise, give None without `cache_none`, or fail `condition` leave the entry of their
   key as it was, whatever happens under other keys and however the calls are interleaved.
   */
  lemma {:induction false} FailuresLeaveEntry(cfg: Config, s: State, steps: seq<Step>, key: string)
    requires IsRun(cfg, s, steps) && NobodyStores(s, key) && FruitlessRun(cfg, s, steps, key)
    ensures SameEntry(s.cache, Run(cfg, s, steps).cache, key)
    decreases |steps|
  {
    if steps != [] {
      FruitlessStep(cfg, s, steps[0], key);
      FailuresLeaveEntry(cfg, Next(cfg, s, steps[0]), steps[1..], key);
    }
  }
}
