/**
 The timing of the decorator over the in-memory backend, with and without a stale window: when
 exactly an entry is served, over every run that leaves it alone.
 */
module SwrTiming {
  import opened Wrappers
  import opened Values
  import opened InMemoryModel
  import opened InMemoryInvariants
  import opened Lifetime
  import opened Swr

  /**
   Two-sided timing of the envelope.  A result encoded at time `computed` and stored at `stored`
   is read at `read`, and the decision is taken at `decided`.  Undisturbed, it is served exactly
   when the read comes before the backend's deadline and the decision no later than the end of
   the stale window; what is served is the result, and it is fresh up to the beginning of that
   window.  Storing it must not have raised.  A negative
   stale window shortens the backend's deadline and nothing else.
   */
  lemma ServedIff(cfg: Config, c: Cache, calls: seq<Call>, k: string, v: Value, ttl: real, draw: nat, stale: int,
                  computed: real, stored: real, read: real, decided: real)
    requires cfg.maxSize.None? && computed <= stored <= read <= decided && Quiet(cfg, calls, k, stored, read)
    requires Truncate(ttl) + draw + stale > 0
    ensures var (envelope, seconds) := Encode(Plain, v, Some(ttl), draw, Some(stale), computed);
            var end := computed + (Truncate(ttl) + draw + if stale > 0 then stale else 0) as real;
            var out := DoGet(Run(cfg, DoSet(cfg, c, k, envelope, seconds, stored), calls), k, read).1;
            SetOut(seconds, stored) == Done ==>
              && ((out.Hit? && Decide(Decode(out.value).1, Some(stale), decided) != Recompute)
                  <==> read < stored + (Truncate(ttl) + draw + stale) as real && decided <= end)
              && (out.Hit? ==> Decode(out.value).0 == v && read - stored < (Truncate(ttl) + draw + stale) as real)
              && (out.Hit? ==> (Decide(Decode(out.value).1, Some(stale), decided) == ServeFresh
                                <==> decided <= computed + (Truncate(ttl) + draw) as real))
  {
    var (envelope, seconds) := Encode(Plain, v, Some(ttl), draw, Some(stale), computed);
    ReadIffBeforeDeadline(cfg, c, calls, k, envelope, seconds.value, stored, read);
  }

  /** The end of the stale window of a result encoded at `computed`. */
  function EndOfStale(ttl: real, draw: nat, stale: int, computed: real): real {
    computed + (Truncate(ttl) + draw + stale) as real
  }

  /**
   Seen from a caller that reads and decides at one instant: served at every instant from the
   store up to the end of the stale window, never after it.
   */
  lemma ServedUntilEndOfStale(
    cfg: Config, c: Cache, calls: seq<Call>, k: string, v: Value, ttl: real, draw: nat, stale: int,
                              computed: real, stored: real, t: real)
    requires cfg.maxSize.None? && computed <= stored <= t && Quiet(cfg, calls, k, stored, t)
    requires stale >= 0 && Truncate(ttl) + draw + stale > 0
    ensures var (envelope, seconds) := Encode(Plain, v, Some(ttl), draw, Some(stale), computed);
            var out := DoGet(Run(cfg, DoSet(cfg, c, k, envelope, seconds, stored), calls), k, t).1;
            var served := out.Hit? && Decide(Decode(out.value).1, Some(stale), t) != Recompute;
            SetOut(seconds, stored) == Done ==>
              && (t < EndOfStale(ttl, draw, stale, computed) ==> served)
              && (t > EndOfStale(ttl, draw, stale, computed) ==> !served)
  {
    ServedIff(cfg, c, calls, k, v, ttl, draw, stale, computed, stored, t, t);
  }

  // ---- Without a stale window ----

  /**
   With a TTL of at least a second and no stale window a result is read exactly while less than
   int(ttl) seconds have passed since the store, and then it is fresh, whatever the jitter.
   */
  lemma RawServedIff(cfg: Config, c: Cache, calls: seq<Call>, k: string, v: Value, ttl: real, draw: nat,
                     computed: real, stored: real, read: real, decided: real)
    requires cfg.maxSize.None? && stored <= read && Quiet(cfg, calls, k, stored, read)
    requires Truncate(ttl) > 0
    ensures var (value, seconds) := Encode(Plain, v, Some(ttl), draw, None, computed);
            var out := DoGet(Run(cfg, DoSet(cfg, c, k, value, seconds, stored), calls), k, read).1;
            stored + Truncate(ttl) as real < LATEST ==>
              && (out.Hit? <==> read < stored + Truncate(ttl) as real)
              && (out.Hit? && !v.Envelope? ==>
                    Decode(out.value).0 == v && Decide(Decode(out.value).1, None, decided) == ServeFresh)
  {
    var (value, seconds) := Encode(Plain, v, Some(ttl), draw, None, computed);
    assert seconds == Some(Truncate(ttl));
    ReadIffBeforeDeadline(cfg, c, calls, k, value, Truncate(ttl), stored, read);
  }

  /** Without a TTL it is read and fresh at every later instant, with a stale window or not. */
  lemma RawServedForEver(cfg: Config, c: Cache, calls: seq<Call>, k: string, v: Value, draw: nat, stale: Option<int>,
                         computed: real, stored: real, read: real, decided: real)
    requires cfg.maxSize.None? && stored <= read && Quiet(cfg, calls, k, stored, read)
    ensures var (value, seconds) := Encode(Plain, v, None, draw, stale, computed);
            var out := DoGet(Run(cfg, DoSet(cfg, c, k, value, seconds, stored), calls), k, read).1;
            && out == Hit(v)
            && (!v.Envelope? ==> Decode(v).0 == v && Decide(Decode(v).1, stale, decided) == ServeFresh)
  {
    var (value, seconds) := Encode(Plain, v, None, draw, stale, computed);
    assert seconds == None;
    ReadForEver(cfg, c, calls, k, value, stored, read);
  }

  /** With a TTL under a second there is nothing to read. */
  lemma RawNotServed(cfg: Config, c: Cache, calls: seq<Call>, k: string, v: Value, ttl: real, draw: nat,
                     computed: real, stored: real, read: real)
    requires Inv(c) && cfg.maxSize.None? && stored <= read && Quiet(cfg, calls, k, stored, read)
    requires Truncate(ttl) <= 0
    ensures var (value, seconds) := Encode(Plain, v, Some(ttl), draw, None, computed);
            DoGet(Run(cfg, DoSet(cfg, c, k, value, seconds, stored), calls), k, read).1 == Missing
  {
    var (value, seconds) := Encode(Plain, v, Some(ttl), draw, None, computed);
    assert seconds == Some(Truncate(ttl));
    NothingToRead(cfg, c, calls, k, value, Truncate(ttl), stored, read);
  }

  // ---- The refresh task of the async wrapper ----

  /** It always wraps the result: without a TTL for ever, with one until the end of the stale window. */
  lemma AsyncRefreshTimes(v: Value, ttl: Option<real>, draw: nat, stale: int, computed: real)
    ensures var (envelope, seconds) := Encode(AsyncRefresh, v, ttl, draw, Some(stale), computed);
            && Decode(envelope).0 == v
            && (ttl.None? ==> seconds == None && Decode(envelope).1 == None)
            && (ttl.Some? ==>
                  && seconds == Some(Truncate(ttl.value) + draw + stale)
                  && Decode(envelope).1 == Some(computed + (Truncate(ttl.value) + draw) as real))
  {}
}
