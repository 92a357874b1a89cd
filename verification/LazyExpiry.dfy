/**
 Lazy expiry is invisible: the SQLite cache, which purges a row only when it touches it, gives
 the same results and the same visible entries as a cache that purges every expired row before
 each operation.
 */
module LazyExpiry {
  import opened Wrappers
  import opened Values
  import opened SqliteModel
  import Like

  // ---- The eager specification, which shares no operation with the model ----

  /** The entries a reader can see at time t. */
  function Visible(m: Data, t: real): Data {
    map k | k in m && (m[k].expires.None? || t < m[k].expires.value) :: m[k]
  }

  function EagerDeadline(p: Data, k: string, until: Option<real>): (Data, Out) {
    if k in p then (p[k := p[k].(expires := until)], Flag(true)) else (p, Flag(false))
  }

  function EagerPut(p: Data, k: string, v: Value, ttl: Option<int>, now: real): Data {
    match ttl
    case None => p[k := Row(v, None)]
    case Some(seconds) => if seconds <= 0 then p - {k} else p[k := Row(v, Some(now + seconds as real))]
  }

  function EagerIncr(p: Data, k: string, delta: int, ttl: Option<int>, now: real): (Data, Out) {
    if k !in p then
      var expires := if ttl.Some? && ttl.value > 0 then Some(now + ttl.value as real) else None;
      (p[k := Row(Number(delta), expires)], Total(delta))
    else
      match p[k].value
      case Number(n) => (p[k := Row(Number(n + delta), p[k].expires)], Total(n + delta))
      case Object(_, Some(n)) => (p[k := Row(Number(n + delta), p[k].expires)], Total(n + delta))
      case _ => (p, Raised)
  }

  /** Everything, or the keys that do not begin with the namespace, up to the case of ASCII letters. */
  ghost function EagerClear(ns: string, p: Data, all: bool): Data {
    map k | k in p && !all && !Like.FoldedPrefix(ns, k) :: p[k]
  }

  /** One operation on the entries p, all of which are live; tags are not part of this view. */
  ghost function EagerOp(ns: string, p: Data, now: real, op: Op): (Data, Out) {
    match op
    case Get(k) => (p, if ns + k in p then Hit(p[ns + k].value) else Missing)
    case Set(k, v, ttl) => (EagerPut(p, ns + k, v, ttl, now), Done)
    case Delete(k) => (p - {ns + k}, Flag(ns + k in p))
    case Exists(k) => (p, Flag(ns + k in p))
    case Clear(all) =>
      if ns == "" && !all then (p, Raised) else (EagerClear(ns, p, all), Done)
    case GetOrSet(k, v, ttl) =>
      if ns + k in p then (p, Hit(p[ns + k].value)) else (EagerPut(p, ns + k, v, ttl, now), Hit(v))
    case Expire(k, s) =>
      if s <= 0 then (p - {ns + k}, Flag(ns + k in p)) else EagerDeadline(p, ns + k, Some(now + s as real))
    case ExpireAt(k, when) =>
      if when <= now then (p - {ns + k}, Flag(ns + k in p)) else EagerDeadline(p, ns + k, Some(when))
    case Touch(k, ttl) =>
      if ttl.None? then (p, Flag(ns + k in p))
      else if ttl.value <= 0 then (p - {ns + k}, Flag(ns + k in p))
      else EagerDeadline(p, ns + k, Some(now + ttl.value as real))
    case Ttl(k) =>
      (p, Remaining(if ns + k in p && p[ns + k].expires.Some?
          then Some((p[ns + k].expires.value - now).Floor) else None))
    case Persist(k) =>
      if ns + k in p && p[ns + k].expires.Some? then EagerDeadline(p, ns + k, None) else (p, Flag(false))
    case Incr(k, d, ttl) => EagerIncr(p, ns + k, d, ttl, now)
    case AddTags(_, _) => (p, Done)
    case InvalidateTags(_) => (p, Done)
  }

  /** Everything that has expired is purged first. */
  ghost function EagerStep(ns: string, m: Data, call: Call): (Data, Out) {
    EagerOp(ns, Visible(m, call.now), call.now, call.op)
  }

  ghost function EagerRun(ns: string, m: Data, calls: seq<Call>): Data
    decreases |calls|
  {
    if calls == [] then m else EagerRun(ns, EagerStep(ns, m, calls[0]).0, calls[1..])
  }

  ghost function EagerResults(ns: string, m: Data, calls: seq<Call>): (outs: seq<Out>)
    ensures |outs| == |calls|
    decreases |calls|
  {
    if calls == [] then []
    else
      var (m', out) := EagerStep(ns, m, calls[0]);
      [out] + EagerResults(ns, m', calls[1..])
  }

  // ---- Agreement of one step ----

  /** What is visible later depends only on what is visible now. */
  lemma VisibleLater(m: Data, t: real, t': real)
    requires t <= t'
    ensures Visible(Visible(m, t), t') == Visible(m, t')
  {}

  /** The operations that delete a key and report whether there was a row. */
  predicate IsRemoval(call: Call) {
    match call.op
    case Delete(_) => true
    case Expire(_, s) => s <= 0
    case ExpireAt(_, when) => when <= call.now
    case Touch(_, ttl) => ttl.Some? && ttl.value <= 0
    case _ => false
  }

  /** The row of the key is there although it has expired. */
  predicate Unpurged(m: Data, k: string, now: real) {
    k in m && m[k].expires.Some? && m[k].expires.value <= now
  }

  /** The call removes a row that has expired and that nobody has purged yet. */
  predicate MeetsUnpurged(ns: string, db: Db, call: Call) {
    IsRemoval(call) && Unpurged(db.data, ns + call.op.key, call.now)
  }

  ghost predicate InScope(ns: string, db: Db, call: Call) {
    && !call.op.InvalidateTags?
    && (call.op.Persist? ==> !Unpurged(db.data, ns + call.op.key, call.now))
  }

  lemma RemovalAgrees(db: Db, k: string, now: real)
    ensures Visible(DoDelete(db, k).0.data, now) == Visible(db.data, now) - {k}
    ensures DoDelete(db, k).1 == Flag(k in Visible(db.data, now) || Unpurged(db.data, k, now))
  {}

  lemma PutAgrees(db: Db, k: string, v: Value, ttl: Option<int>, now: real)
    ensures Visible(DoSet(db, k, v, ttl, now).data, now) == EagerPut(Visible(db.data, now), k, v, ttl, now)
  {}

  lemma PurgeAgrees(db: Db, k: string, now: real)
    ensures Visible(Purge(db, k, now).data, now) == Visible(db.data, now)
    ensures k in Purge(db, k, now).data <==> k in Visible(db.data, now)
    ensures k in Visible(db.data, now) ==> Purge(db, k, now).data[k] == Visible(db.data, now)[k]
  {}

  lemma DeadlineAgrees(db: Db, k: string, until: real, now: real)
    requires until > now
    ensures Visible(SetDeadline(db, k, until, now).0.data, now)
            == EagerDeadline(Visible(db.data, now), k, Some(until)).0
    ensures SetDeadline(db, k, until, now).1 == EagerDeadline(Visible(db.data, now), k, Some(until)).1
  {}

  lemma ClearAgrees(ns: string, db: Db, all: bool, now: real)
    ensures Visible(DoClear(ns, db, all).0.data, now) == EagerOp(ns, Visible(db.data, now), now, Clear(all)).0
    ensures DoClear(ns, db, all).1 == EagerOp(ns, Visible(db.data, now), now, Clear(all)).1
  {
    forall k ensures Cleared(ns, all, k) <==> all || Like.FoldedPrefix(ns, k) { Like.EscapingIsExact(ns, k); }
    hide Cleared;
  }

  lemma IncrAgrees(db: Db, k: string, delta: int, ttl: Option<int>, now: real)
    ensures var (p, out) := EagerIncr(Visible(db.data, now), k, delta, ttl, now);
            Visible(DoIncr(db, k, delta, ttl, now).0.data, now) == p && DoIncr(db, k, delta, ttl, now).1 == out
  {}

  /** `persist` meets the eager specification exactly when it does not hit an unpurged expired row. */
  lemma PersistAgreesIff(db: Db, k: string, now: real)
    ensures (Visible(DoPersist(db, k).0.data, now), DoPersist(db, k).1)
            == EagerOp("", Visible(db.data, now), now, Persist(k))
            <==> !Unpurged(db.data, k, now)
  {
    assert "" + k == k;
    if Unpurged(db.data, k, now) {
      assert DoPersist(db, k).1 == Flag(true);
    } else {
      var p, db' := Visible(db.data, now), DoPersist(db, k).0;
      assert k in db.data <==> k in p;
      if k in p && p[k].expires.Some? {
        assert Visible(db'.data, now) == p[k := p[k].(expires := None)];
      } else {
        assert db' == db;
      }
    }
  }

  /** The instance that `persist` revives: a row that expired at time 5, persisted at time 7. */
  lemma {:induction false} PersistRevives()
    ensures var db := Db(map["k" := Row(Number(1), Some(5.0))], {});
            && "k" !in Visible(db.data, 7.0)
            && DoPersist(db, "k").1 == Flag(true)
            && "k" in Visible(DoPersist(db, "k").0.data, 7.0)
  {}

  lemma ReadAgrees(ns: string, db: Db, call: Call)
    requires call.op.Get? || call.op.Exists? || call.op.Ttl? || call.op.GetOrSet?
    ensures Visible(Step(ns, db, call).0.data, call.now) == EagerStep(ns, db.data, call).0
    ensures Step(ns, db, call).1 == EagerStep(ns, db.data, call).1
  {
    var k := ns + call.op.key;
    PurgeAgrees(db, k, call.now);
    if call.op.GetOrSet? { PutAgrees(Purge(db, k, call.now), k, call.op.value, call.op.ttl, call.now); }
  }

  lemma DeadlineOpAgrees(ns: string, db: Db, call: Call)
    requires InScope(ns, db, call)
    requires call.op.Expire? || call.op.ExpireAt? || call.op.Touch? || call.op.Persist?
    ensures Visible(Step(ns, db, call).0.data, call.now) == EagerStep(ns, db.data, call).0
    ensures Step(ns, db, call).1 == EagerStep(ns, db.data, call).1 <==> !MeetsUnpurged(ns, db, call)
    ensures MeetsUnpurged(ns, db, call) ==>
              Step(ns, db, call).1 == Flag(true) && EagerStep(ns, db.data, call).1 == Flag(false)
  {
    var k := ns + call.op.key;
    RemovalAgrees(db, k, call.now);
    match call.op
    case Expire(_, s) => if s > 0 { DeadlineAgrees(db, k, call.now + s as real, call.now); }
    case ExpireAt(_, when) => if when > call.now { DeadlineAgrees(db, k, when, call.now); }
    case Touch(_, ttl) =>
      if ttl.None? { PurgeAgrees(db, k, call.now); }
      else if ttl.value > 0 { DeadlineAgrees(db, k, call.now + ttl.value as real, call.now); }
    case Persist(_) => PersistAgreesIff(db, k, call.now);
  }

  /**
   Each operation agrees with the eager one: the same entries are visible afterwards, and the
   results are equal exactly when it is not a removal that hits an expired row nobody has purged
   yet, which reports a deletion.
   */
  lemma {:induction false} StepAgrees(ns: string, db: Db, call: Call)
    requires InScope(ns, db, call)
    ensures Visible(Step(ns, db, call).0.data, call.now) == EagerStep(ns, db.data, call).0
    ensures Step(ns, db, call).1 == EagerStep(ns, db.data, call).1 <==> !MeetsUnpurged(ns, db, call)
    ensures MeetsUnpurged(ns, db, call) ==>
              Step(ns, db, call).1 == Flag(true) && EagerStep(ns, db.data, call).1 == Flag(false)
  {
    if call.op.Get? || call.op.Exists? || call.op.Ttl? || call.op.GetOrSet? {
      ReadAgrees(ns, db, call);
    } else if call.op.Expire? || call.op.ExpireAt? || call.op.Touch? || call.op.Persist? {
      DeadlineOpAgrees(ns, db, call);
    } else {
      match call.op
      case Set(k, v, ttl) => PutAgrees(db, ns + k, v, ttl, call.now);
      case Delete(k) => RemovalAgrees(db, ns + k, call.now);
      case Clear(all) => ClearAgrees(ns, db, all, call.now);
      case Incr(k, d, ttl) => IncrAgrees(db, ns + k, d, ttl, call.now);
      case AddTags(_, _) =>
    }
  }

  // ---- Whole runs ----

  ghost predicate RunInScope(ns: string, db: Db, calls: seq<Call>)
    decreases |calls|
  {
    calls == [] || (InScope(ns, db, calls[0]) && RunInScope(ns, Step(ns, db, calls[0]).0, calls[1..]))
  }

  /**
   Over every run with a clock that does not go back, the lazy cache and the eager one show the
   same entries at every later time, and a call gives the same result exactly when it does not
   remove a row that has expired and is still there at that point of the run.
   */
  lemma {:induction false} LazyEqualsEager(ns: string, db: Db, m: Data, calls: seq<Call>, t: real, later: real)
    requires Monotone(calls, t) && RunInScope(ns, db, calls)
    requires Visible(db.data, t) == Visible(m, t)
    requires t <= later && forall i | 0 <= i < |calls| :: calls[i].now <= later
    ensures Visible(Run(ns, db, calls).data, later) == Visible(EagerRun(ns, m, calls), later)
    ensures forall i | 0 <= i < |calls| ::
              Results(ns, db, calls)[i] == EagerResults(ns, m, calls)[i]
              <==> !MeetsUnpurged(ns, Run(ns, db, calls[..i]), calls[i])
    decreases |calls|
  {
    if calls == [] {
      VisibleLater(db.data, t, later);
      VisibleLater(m, t, later);
    } else {
      var call, rest := calls[0], calls[1..];
      VisibleLater(db.data, t, call.now);
      VisibleLater(m, t, call.now);
      StepAgrees(ns, db, call);
      assert EagerStep(ns, m, call) == EagerStep(ns, db.data, call);
      var db', m' := Step(ns, db, call).0, EagerStep(ns, m, call).0;
      VisibleLater(db'.data, call.now, call.now);
      forall i | 0 <= i < |rest| ensures call.now <= rest[i].now && rest[i].now <= later {
        assert rest[i] == calls[i + 1];
      }
      LazyEqualsEager(ns, db', m', rest, call.now, later);
      LaterResults(ns, db, m, calls);
    }
  }

  /** After the first call, results and tables are those of the rest of the run. */
  lemma LaterResults(ns: string, db: Db, m: Data, calls: seq<Call>)
    requires calls != []
    ensures var db', m', rest := Step(ns, db, calls[0]).0, EagerStep(ns, m, calls[0]).0, calls[1..];
            && Results(ns, db, calls)[0] == Step(ns, db, calls[0]).1
            && EagerResults(ns, m, calls)[0] == EagerStep(ns, m, calls[0]).1
            && Run(ns, db, calls[..0]) == db
            && forall i | 1 <= i < |calls| ::
                 && Results(ns, db, calls)[i] == Results(ns, db', rest)[i - 1]
                 && EagerResults(ns, m, calls)[i] == EagerResults(ns, m', rest)[i - 1]
                 && Run(ns, db, calls[..i]) == Run(ns, db', rest[..i - 1])
  {
    hide Step, EagerStep, Run, Results, EagerResults;
    FirstResult(ns, db, m, calls);
    forall i | 1 <= i < |calls|
      ensures Run(ns, db, calls[..i]) == Run(ns, Step(ns, db, calls[0]).0, calls[1..][..i - 1])
    {
      RunOfRest(ns, db, calls, i);
    }
    NothingRun(ns, db, calls[..0]);
  }

  lemma FirstResult(ns: string, db: Db, m: Data, calls: seq<Call>)
    requires calls != []
    ensures Results(ns, db, calls) == [Step(ns, db, calls[0]).1] + Results(ns, Step(ns, db, calls[0]).0, calls[1..])
    ensures EagerResults(ns, m, calls)
            == [EagerStep(ns, m, calls[0]).1] + EagerResults(ns, EagerStep(ns, m, calls[0]).0, calls[1..])
  {}

  lemma NothingRun(ns: string, db: Db, calls: seq<Call>)
    requires calls == []
    ensures Run(ns, db, calls) == db
  {}

  lemma RunOfRest(ns: string, db: Db, calls: seq<Call>, i: nat)
    requires 1 <= i < |calls|
    ensures Run(ns, db, calls[..i]) == Run(ns, Step(ns, db, calls[0]).0, calls[1..][..i - 1])
  {
    hide Step;
    assert calls[..i][0] == calls[0] && calls[..i][1..] == calls[1..][..i - 1];
  }
}
