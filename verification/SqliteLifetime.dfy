/**
 How long a row of the SQLite backend can be read when nobody writes, deletes or re-times it: up to
 its deadline, and for ever without one.
 */
module SqliteLifetime {
  import opened Wrappers
  import opened Values
  import opened SqliteModel

  /** Calls that may write, delete or re-time the row of the effective key k. */
  ghost predicate Disturbs(ns: string, op: Op, k: string) {
    match op
    case Clear(_) => true
    case InvalidateTags(_) => true
    case Get(_) => false
    case Exists(_) => false
    case Ttl(_) => false
    case AddTags(_, _) => false
    case Touch(x, ttl) => ns + x == k && ttl.Some?
    case _ => ns + op.key == k
  }

  ghost predicate Quiet(ns: string, calls: seq<Call>, k: string, from: real, to: real) {
    && Monotone(calls, from)
    && (forall i | 0 <= i < |calls| :: calls[i].now <= to && !Disturbs(ns, calls[i].op, k))
  }

  /** The row is as it was written, or it was purged at or after its deadline. */
  ghost predicate Kept(db: Db, k: string, v: Value, until: Option<real>, now: real) {
    && (k in db.data ==> db.data[k] == Row(v, until))
    && (k !in db.data ==> until.Some? && until.value <= now)
  }

  lemma QuietStep(ns: string, db: Db, call: Call, k: string, v: Value, until: Option<real>)
    requires !Disturbs(ns, call.op, k) && Kept(db, k, v, until, call.now)
    ensures Kept(Step(ns, db, call).0, k, v, until, call.now)
  {}

  lemma {:induction false} QuietRun(
    ns: string, db: Db, calls: seq<Call>, k: string, v: Value, until: Option<real>, from: real, to: real)
    requires Quiet(ns, calls, k, from, to) && from <= to && Kept(db, k, v, until, from)
    ensures Kept(Run(ns, db, calls), k, v, until, to)
    decreases |calls|
  {
    if calls != [] {
      QuietStep(ns, db, calls[0], k, v, until);
      QuietRun(ns, Step(ns, db, calls[0]).0, calls[1..], k, v, until, calls[0].now, to);
    }
  }

  /** A row that was set with a TTL and left alone is read back exactly before its deadline. */
  lemma ReadIffBeforeDeadline(
    ns: string, db: Db, calls: seq<Call>, k: string, v: Value, seconds: int, set_: real, read: real)
    requires seconds > 0 && set_ <= read && Quiet(ns, calls, k, set_, read)
    ensures var out := DoGet(Run(ns, DoSet(db, k, v, Some(seconds), set_), calls), k, read).1;
            out == if read < set_ + seconds as real then Hit(v) else Missing
  {
    QuietRun(ns, DoSet(db, k, v, Some(seconds), set_), calls, k, v, Some(set_ + seconds as real), set_, read);
  }

  /** A row that was set without a TTL and left alone is read back at every later instant, and has no TTL. */
  lemma ReadForEver(ns: string, db: Db, calls: seq<Call>, k: string, v: Value, set_: real, read: real)
    requires set_ <= read && Quiet(ns, calls, k, set_, read)
    ensures var after := Run(ns, DoSet(db, k, v, None, set_), calls);
            DoGet(after, k, read).1 == Hit(v) && DoTtl(after, k, read).1 == Remaining(None)
  {
    QuietRun(ns, DoSet(db, k, v, None, set_), calls, k, v, None, set_, read);
  }
}
