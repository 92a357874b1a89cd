/**
 What the decorator of `cachine/decorators/cached.py` writes into the cache and how it reads it
 back: the TTLs of `_compute_ttls`, the envelope, and the decision between fresh, stale and
 expired.
 */
module Swr {
  import opened Wrappers
  import opened Values

  datatype Ttls = Ttls(store: int, freshFor: int, freshUntil: real)

  /** `_compute_ttls`, with the jitter drawn; `stale` is the stale window, 0 when there is none. */
  function ComputeTtls(ttl: real, draw: nat, stale: Option<int>, now: real): Ttls {
    var freshFor := Truncate(ttl) + draw;
    Ttls(freshFor + (if stale.Some? then stale.value else 0), freshFor, now + freshFor as real)
  }

  /** The places that store a result; the refresh task of the async wrapper always wraps it. */
  datatype Site = Plain | AsyncRefresh

  /** The value and the TTL in seconds that are handed to the backend. */
  function Encode(
    site: Site, v: Value, ttl: Option<real>, draw: nat, stale: Option<int>, now: real): (Value, Option<int>) {
    if site.Plain? && (ttl.None? || stale.None?) then
      // Without a stale window the result itself is stored; the jitter is not used.
      (v, if ttl.None? then None else Some(Truncate(ttl.value)))
    else if ttl.None? then (Envelope(v, None), None)
    else
      var t := ComputeTtls(ttl.value, draw, stale, now);
      (Envelope(v, Some(t.freshUntil)), Some(t.store))
  }

  /** `_get_cached_entry` on a stored value: the result and its fresh-until time. */
  function Decode(stored: Value): (Value, Option<real>) {
    match stored
    case Envelope(v, freshUntil) => (v, freshUntil)
    case _ => (stored, None)
  }

  /** Reading back gives the result exactly unless it is stored bare and looks like an envelope. */
  lemma DecodeEncode(site: Site, v: Value, ttl: Option<real>, draw: nat, stale: Option<int>, now: real)
    ensures Decode(Encode(site, v, ttl, draw, stale, now).0).0 == v
            <==> !(v.Envelope? && site.Plain? && (ttl.None? || stale.None?))
  {
    assert v.Envelope? ==> Depth(v) == 1 + Depth(v.v);
  }

  /** How many envelopes are wrapped around each other. */
  function Depth(v: Value): nat {
    if v.Envelope? then 1 + Depth(v.v) else 0
  }

  /**
   The jitter drawn has an effect on the deadline exactly when there is a TTL and a stale window,
   or the site always wraps.
   */
  lemma {:induction false} JitterMattersIff(
    site: Site, v: Value, ttl: Option<real>, draw: nat, draw': nat, stale: Option<int>, now: real)
    requires draw != draw'
    ensures Encode(site, v, ttl, draw, stale, now).1 != Encode(site, v, ttl, draw', stale, now).1
            <==> ttl.Some? && (stale.Some? || site.AsyncRefresh?)
  {}

  datatype Decision = ServeFresh | ServeStale | Recompute

  /** What the first read does with a hit. */
  function Decide(freshUntil: Option<real>, stale: Option<int>, now: real): Decision {
    if freshUntil.None? || now <= freshUntil.value then ServeFresh
    else if stale.Some? && now <= freshUntil.value + stale.value as real then ServeStale
    else Recompute
  }
}
