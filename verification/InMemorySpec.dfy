/**
 What `InMemoryCache` of `cachine/backends/inmemory/cache.py` promises, said without its data
 structures: one map from keys to entries with value, deadline and tags, and the history of
 accesses and removals, which alone determines what is evicted.  It shares no function with module
 InMemoryModel; module InMemoryMeetsSpec proves that every run agrees with it.
 */
module InMemorySpec {
  import opened Wrappers
  import opened Values
  import opened Usage
  import M = InMemoryModel

  datatype Entry = Entry(value: Value, deadline: Option<real>, tags: set<string>)

  /** `kind` is the policy, if there is one. */
  datatype State = State(entries: map<string, Entry>, kind: Option<Kind>, history: seq<Event>)

  // ---- Time ----

  predicate Alive(e: Entry, now: real) {
    e.deadline.None? || now < e.deadline.value
  }

  function LeapYearsUntil(year: nat): nat {
    year / 4 - year / 100 + year / 400
  }

  /** The epoch second at which the year 9999 ends, where `datetime` ends. */
  function EndOfTime(): real {
    (((9999 - 1969) * 365 + LeapYearsUntil(9999) - LeapYearsUntil(1969)) * 86400) as real
  }

  // ---- Accesses, removals and evictions ----

  function Access(s: State, k: string): State {
    s.(history := s.history + [Accessed(k)])
  }

  /** The removals of a set of keys, in some order. */
  ghost function Drops(ks: set<string>): seq<Event>
    decreases |ks|
  {
    if ks == {} then []
    else
      var k :| k in ks;
      [Dropped(k)] + Drops(ks - {k})
  }

  ghost function Removed(s: State, ks: set<string>): State {
    State(s.entries - ks, s.kind, s.history + Drops(ks))
  }

  /** While there is no room, the least used key leaves; an empty key leaves the policy only, and ends it. */
  ghost function MakeRoom(s: State, max: int): State
    decreases Digest(s.history).stats.Keys
  {
    if |s.entries| <= max || s.kind.None? || forall k :: !LeastUsed(s.kind.value, s.history, k) then s
    else
      var k :| LeastUsed(s.kind.value, s.history, k);
      LeastUsedIsTracked(s.kind.value, s.history, k);
      if k == "" then s.(history := s.history + [Dropped(k)])
      else MakeRoom(State(s.entries - {k}, s.kind, s.history + [Dropped(k)]), max)
  }

  lemma LeastUsedIsTracked(kind: Kind, h: seq<Event>, k: string)
    requires LeastUsed(kind, h, k)
    ensures k in Digest(h).stats
    ensures Digest(h + [Dropped(k)]) == Forget(Digest(h), {k})
  {
    VictimByHistory(kind, h, k);
    assert (h + [Dropped(k)])[..|h|] == h;
  }

  // ---- Operations ----

  /** Writes the entry; its tags stay, those of a new entry are none. */
  function Write(s: State, k: string, v: Value, deadline: Option<real>): State {
    s.(entries := s.entries[k := Entry(v, deadline, if k in s.entries then s.entries[k].tags else {})])
  }

  ghost function Set(cfg: M.Config, s: State, now: real, k: string, v: Value, ttl: Option<int>): (State, Out) {
    match ttl
    case None =>
      var written := Access(Write(s, k, v, None), k);
      (if cfg.maxSize.Some? then MakeRoom(written, cfg.maxSize.value) else written, Done)
    case Some(seconds) =>
      if seconds <= 0 then (Removed(s, {k}), Done)
      else if now + seconds as real >= EndOfTime() then
        // The value is written by now; the deadline is that of the old entry.
        (Write(s, k, v, if k in s.entries then s.entries[k].deadline else None), Raised)
      else
        var written := Access(Write(s, k, v, Some(now + seconds as real)), k);
        (if cfg.maxSize.Some? then MakeRoom(written, cfg.maxSize.value) else written, Done)
  }

  /** What reads leave: an expired entry is removed. */
  ghost function Looked(s: State, now: real, k: string): State {
    if k in s.entries && !Alive(s.entries[k], now) then Removed(s, {k}) else s
  }

  predicate Found(s: State, now: real, k: string) {
    k in s.entries && Alive(s.entries[k], now)
  }

  function Deadline(s: State, k: string, deadline: Option<real>): State
    requires k in s.entries
  {
    s.(entries := s.entries[k := s.entries[k].(deadline := deadline)])
  }

  /** `expire`, and `touch` with a TTL; both find an expired entry too. */
  ghost function Expire(s: State, now: real, k: string, seconds: int): (State, Out) {
    if k !in s.entries then (s, Flag(false))
    else if seconds <= 0 then (Removed(s, {k}), Flag(true))
    else if now + seconds as real >= EndOfTime() then (s, Raised)
    else (Deadline(s, k, Some(now + seconds as real)), Flag(true))
  }

  /** What `int()` makes of a stored value. */
  function AsNumber(v: Value): Option<int> {
    match v
    case NoneValue => None
    case Number(n) => Some(n)
    case Envelope(_, _) => None
    case Object(_, i) => i
  }

  function Incr(s: State, now: real, k: string, delta: int, ttl: Option<int>): (State, Out) {
    if k in s.entries then
      var e := s.entries[k];
      match AsNumber(e.value)
      case None => (s, Raised)
      case Some(n) => (Write(s, k, Number(n + delta), e.deadline), Total(n + delta))
    else if ttl.None? || ttl.value <= 0 then (Write(s, k, Number(delta), None), Total(delta))
    else if now + ttl.value as real >= EndOfTime() then (Write(s, k, Number(delta), None), Raised)
    else (Write(s, k, Number(delta), Some(now + ttl.value as real)), Total(delta))
  }

  predicate BelongsTo(ns: string, k: string) {
    |ns| <= |k| && k[..|ns|] == ns
  }

  /** The keys whose entry carries one of the tags. */
  ghost function Carrying(s: State, ns: string, tags: seq<string>): set<string> {
    set k | k in s.entries && exists i :: 0 <= i < |tags| && ns + tags[i] in s.entries[k].tags
  }

  ghost function Tag(s: State, k: string, ns: string, tags: seq<string>): State
    requires k in s.entries
  {
    var e := s.entries[k];
    s.(entries := s.entries[k := e.(tags := e.tags + set i | 0 <= i < |tags| :: ns + tags[i])])
  }

  /** One call at time `now`. */
  ghost function Step(cfg: M.Config, s: State, now: real, op: M.Op): (State, Out) {
    match op
    case Get(key) =>
      var k := cfg.ns + key;
      if Found(s, now, k) then (Access(s, k), Hit(s.entries[k].value)) else (Looked(s, now, k), Missing)
    case Set(key, v, ttl) => Set(cfg, s, now, cfg.ns + key, v, ttl)
    case Delete(key) => (Removed(s, {cfg.ns + key}), Flag(cfg.ns + key in s.entries))
    case Exists(key) => (Looked(s, now, cfg.ns + key), Flag(Found(s, now, cfg.ns + key)))
    case Clear(all) =>
      if cfg.ns != "" && !all then (Removed(s, set k | k in s.entries && BelongsTo(cfg.ns, k)), Done)
      else
        var lru := s.kind.Some? && cfg.maxSize.Some? && cfg.maxSize.value != 0;
        (State(map[], if lru then Some(Recency) else None, []), Done)
    case GetOrSet(key, v, ttl) =>
      var k := cfg.ns + key;
      if Found(s, now, k) then (Access(s, k), Hit(s.entries[k].value))
      else
        var (s', out) := Set(cfg, Looked(s, now, k), now, k, v, ttl);
        (s', if out == Raised then Raised else Hit(v))
    case Expire(key, seconds) => Expire(s, now, cfg.ns + key, seconds)
    case ExpireAt(key, when) =>
      var k := cfg.ns + key;
      if k !in s.entries then (s, Flag(false))
      else if when <= now then (Removed(s, {k}), Flag(true))
      else (Deadline(s, k, Some(when)), Flag(true))
    case Touch(key, ttl) =>
      if ttl.Some? then Expire(s, now, cfg.ns + key, ttl.value) else (s, Flag(cfg.ns + key in s.entries))
    case Ttl(key) =>
      var k := cfg.ns + key;
      (Looked(s, now, k),
       Remaining(if Found(s, now, k) && s.entries[k].deadline.Some?
                 then Some((s.entries[k].deadline.value - now).Floor) else None))
    case Persist(key) =>
      var k := cfg.ns + key;
      if k !in s.entries then (s, Flag(false)) else (Deadline(s, k, None), Flag(s.entries[k].deadline.Some?))
    case Incr(key, delta, ttl) => Incr(s, now, cfg.ns + key, delta, ttl)
    case InvalidateTags(tags) =>
      (Removed(s, Carrying(s, cfg.ns, tags)), Total(|Carrying(s, cfg.ns, tags)|))
    case AddTags(key, tags) =>
      (if cfg.ns + key in s.entries then Tag(s, cfg.ns + key, cfg.ns, tags) else s, Done)
  }

  ghost function Run(cfg: M.Config, s: State, calls: seq<M.Call>): State
    decreases |calls|
  {
    if calls == [] then s else Run(cfg, Step(cfg, s, calls[0].now, calls[0].op).0, calls[1..])
  }

  ghost function Results(cfg: M.Config, s: State, calls: seq<M.Call>): (outs: seq<Out>)
    ensures |outs| == |calls|
    decreases |calls|
  {
    if calls == [] then []
    else
      var (s', out) := Step(cfg, s, calls[0].now, calls[0].op);
      [out] + Results(cfg, s', calls[1..])
  }

  function Initial(kind: Option<Kind>): State {
    State(map[], kind, [])
  }
}
