/**
 How long an entry of the in-memory backend lives when nobody writes, deletes or re-times it: up to
 its deadline, and for ever without one.
 */
module Lifetime {
  import opened Wrappers
  import opened Values
  import opened InMemoryModel
  import opened InMemoryInvariants

  /** Calls that may write, delete or re-time the entry of the effective key k. */
  ghost predicate Disturbs(cfg: Config, op: Op, k: string) {
    match op
    case Clear(_) => true
    case InvalidateTags(_) => true
    case Get(_) => false
    case Exists(_) => false
    case Ttl(_) => false
    case AddTags(_, _) => false
    case Touch(x, ttl) => cfg.ns + x == k && ttl.Some?
    case _ => cfg.ns + op.key == k
  }

  ghost predicate Quiet(cfg: Config, calls: seq<Call>, k: string, from: real, to: real) {
    && (forall i | 0 <= i < |calls| :: from <= calls[i].now <= to && !Disturbs(cfg, calls[i].op, k))
    && (forall i, j | 0 <= i < j < |calls| :: calls[i].now <= calls[j].now)
  }

  /** The entry as it was stored. */
  ghost predicate Stored(c: Cache, k: string, v: Value, until: Option<real>) {
    k in c.store && c.store[k] == v && k in c.ttl && c.ttl[k] == until
  }

  /** The entry is as it was stored, or it was dropped at or after its deadline. */
  ghost predicate Kept(c: Cache, k: string, v: Value, until: Option<real>, now: real) {
    && (k in c.store ==> Stored(c, k, v, until))
    && (k !in c.store ==> until.Some? && until.value <= now && k !in c.ttl)
  }

  lemma SetOfOther(
    cfg: Config, c: Cache, x: string, w: Value, ttl: Option<int>, k: string, v: Value, until: Option<real>, now: real)
    requires cfg.maxSize.None? && x != k && Kept(c, k, v, until, now)
    ensures Kept(DoSet(cfg, c, x, w, ttl, now), k, v, until, now)
  {}

  lemma ReadKeeps(cfg: Config, c: Cache, now: real, op: Op, k: string, v: Value, until: Option<real>)
    requires Kept(c, k, v, until, now) && (op.Get? || op.Exists? || op.Ttl? || op.AddTags?)
    ensures Kept(Step(cfg, c, now, op).0, k, v, until, now)
  {}

  lemma {:induction false} QuietStep(cfg: Config, c: Cache, now: real, op: Op, k: string, v: Value, until: Option<real>)
    requires cfg.maxSize.None? && !Disturbs(cfg, op, k) && Kept(c, k, v, until, now)
    ensures Kept(Step(cfg, c, now, op).0, k, v, until, now)
  {
    hide Kept, RemoveKeys, DoGet, DoSet;
    if op.Get? || op.Exists? || op.Ttl? || op.AddTags? {
      ReadKeeps(cfg, c, now, op, k, v, until);
    } else {
      var x := cfg.ns + op.key;
      match op
      case Set(_, w, ttl) => SetOfOther(cfg, c, x, w, ttl, k, v, until, now);
      case GetOrSet(_, w, ttl) =>
        ReadKeeps(cfg, c, now, Get(op.key), k, v, until);
        SetOfOther(cfg, DoGet(c, x, now).0, x, w, ttl, k, v, until, now);
      case Persist(_) => InPlaceKeeps(cfg, c, now, op, k, v, until);
      case Incr(_, _, _) => InPlaceKeeps(cfg, c, now, op, k, v, until);
      case _ => OthersKeep(cfg, c, now, op, k, v, until);
    }
  }

  lemma OthersKeep(cfg: Config, c: Cache, now: real, op: Op, k: string, v: Value, until: Option<real>)
    requires !Disturbs(cfg, op, k) && Kept(c, k, v, until, now)
    requires op.Delete? || op.Expire? || op.ExpireAt? || op.Touch?
    ensures Kept(Step(cfg, c, now, op).0, k, v, until, now)
  {
    hide Pruned, NoteRemove;
  }

  lemma InPlaceKeeps(cfg: Config, c: Cache, now: real, op: Op, k: string, v: Value, until: Option<real>)
    requires !Disturbs(cfg, op, k) && Kept(c, k, v, until, now) && (op.Persist? || op.Incr?)
    ensures Kept(Step(cfg, c, now, op).0, k, v, until, now)
  {}

  lemma {:induction false} QuietRun(
    cfg: Config, c: Cache, calls: seq<Call>, k: string, v: Value, until: Option<real>, from: real, to: real)
    requires cfg.maxSize.None? && Quiet(cfg, calls, k, from, to) && from <= to
    requires Kept(c, k, v, until, from)
    ensures Kept(Run(cfg, c, calls), k, v, until, to)
    decreases |calls|
  {
    if calls != [] {
      var call := calls[0];
      QuietStep(cfg, c, call.now, call.op, k, v, until);
      QuietRun(cfg, Step(cfg, c, call.now, call.op).0, calls[1..], k, v, until, call.now, to);
    }
  }

  /**
   An entry that was set with a TTL and left alone is read back at every instant before its
   deadline, and at none after it, if storing it did not raise.
   */
  lemma ReadIffBeforeDeadline(
    cfg: Config, c: Cache, calls: seq<Call>, k: string, v: Value, seconds: int, set_: real, read: real)
    requires cfg.maxSize.None? && seconds > 0 && set_ <= read && Quiet(cfg, calls, k, set_, read)
    ensures var out := DoGet(Run(cfg, DoSet(cfg, c, k, v, Some(seconds), set_), calls), k, read).1;
            SetOut(Some(seconds), set_) == Done ==> out == if read < set_ + seconds as real then Hit(v) else Missing
  {
    if SetOut(Some(seconds), set_) == Done {
      var until := Some(set_ + seconds as real);
      var c' := DoSet(cfg, c, k, v, Some(seconds), set_);
      assert Stored(c', k, v, until);
      QuietRun(cfg, c', calls, k, v, until, set_, read);
    }
  }

  /** An entry that was set without a TTL and left alone is read back at every later instant, and has no TTL. */
  lemma ReadForEver(cfg: Config, c: Cache, calls: seq<Call>, k: string, v: Value, set_: real, read: real)
    requires cfg.maxSize.None? && set_ <= read && Quiet(cfg, calls, k, set_, read)
    ensures var after := Run(cfg, DoSet(cfg, c, k, v, None, set_), calls);
            && SetOut(None, set_) == Done
            && DoGet(after, k, read).1 == Hit(v) && DoTtl(after, k, read).1 == Remaining(None)
  {
    var c' := DoSet(cfg, c, k, v, None, set_);
    assert Stored(c', k, v, None);
    QuietRun(cfg, c', calls, k, v, None, set_, read);
  }

  /** After a `set` with a TTL that is not positive there is nothing to read, as long as nobody writes. */
  lemma NothingToRead(
    cfg: Config, c: Cache, calls: seq<Call>, k: string, v: Value, seconds: int, set_: real, read: real)
    requires Inv(c) && cfg.maxSize.None? && seconds <= 0 && set_ <= read && Quiet(cfg, calls, k, set_, read)
    ensures DoGet(Run(cfg, DoSet(cfg, c, k, v, Some(seconds), set_), calls), k, read).1 == Missing
  {
    // The entry is not there, as one whose deadline has passed.
    var until := Some(set_);
    var c' := DoSet(cfg, c, k, v, Some(seconds), set_);
    assert Kept(c', k, v, until, set_);
    QuietRun(cfg, c', calls, k, v, until, set_, read);
  }

  /** A new entry whose `set` raised has no deadline at all: it is read back at every later instant. */
  lemma RaisingSetHasNoDeadline(cfg: Config, c: Cache, k: string, v: Value, seconds: int, set_: real, read: real)
    requires Inv(c) && k !in c.store && SetOut(Some(seconds), set_) == Raised
    ensures DoGet(DoSet(cfg, c, k, v, Some(seconds), set_), k, read).1 == Hit(v)
  {
    hide RemoveKeys, EvictIfNeeded;
  }
}
