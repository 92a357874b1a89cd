/**
 The counters of `cachine/backends/sqlite/async_.py`: coroutines that run `incr` and `decr` as
 awaited statements under one lock, interleaved at every await, any of which may raise.  The
 reference is the atomic `incr` of module SqliteModel.
 */
module AsyncCounter {
  import opened Wrappers
  import opened Values
  import opened SqliteModel

  /** What the coroutine awaits next. */
  datatype Pc =
    | Locking
    | Beginning
    | Selecting
    | Writing(current: Option<int>, now: real)
    | Committing(total: int, now: real)
    | RollingBack
    | Finished(out: Out)

  datatype Coroutine = Coroutine(key: string, delta: int, ttl: Option<int>, pc: Pc)

  /** A committed increment: who, the call, and what it returned. */
  datatype Commit = Commit(who: nat, call: Call, out: Out)

  /** `saved` is what a rollback restores; `log` holds the commits in their order. */
  datatype State = State(coroutines: seq<Coroutine>, lock: Option<nat>, db: Db, saved: Option<Db>, log: seq<Commit>)

  function Start(db: Db): State {
    State([], None, db, None, [])
  }

  /** A new coroutine, or one that resumes: what it awaited succeeds or raises. */
  datatype Event = Create(key: string, delta: int, ttl: Option<int>) | Resume(i: nat, ok: bool, now: real)

  predicate Enabled(s: State, e: Event) {
    e.Resume? ==>
      && e.i < |s.coroutines| && !s.coroutines[e.i].pc.Finished?
      && (s.coroutines[e.i].pc.Locking? && e.ok ==> s.lock.None?)
  }

  function To(s: State, i: nat, pc: Pc): State
    requires i < |s.coroutines|
  {
    s.(coroutines := s.coroutines[i := s.coroutines[i].(pc := pc)])
  }

  /** The SELECT, and the conversion of a live value, which may raise too. */
  function AfterSelect(db: Db, k: string, now: real): Pc {
    if k in db.data && Live(db.data[k], now) then
      var current := db.data[k].value.AsInt();
      if current.Some? then Writing(current, now) else RollingBack
    else Writing(None, now)
  }

  /** The UPDATE of an existing counter, the UPSERT of a new one. */
  function AfterWrite(db: Db, k: string, c: Coroutine): (Db, int)
    requires c.pc.Writing? && (c.pc.current.Some? ==> k in db.data)
  {
    match c.pc.current
    case Some(current) =>
      (db.(data := db.data[k := db.data[k].(value := Number(current + c.delta))]), current + c.delta)
    case None =>
      var until := if c.ttl.Some? && c.ttl.value > 0 then Some(c.pc.now + c.ttl.value as real) else None;
      (db.(data := db.data[k := Row(Number(c.delta), until)]), c.delta)
  }

  function Next(ns: string, s: State, e: Event): State
    requires Enabled(s, e) && Inv(ns, s)
  {
    match e
    case Create(key, delta, ttl) => s.(coroutines := s.coroutines + [Coroutine(key, delta, ttl, Locking)])
    case Resume(i, ok, now) =>
      var c := s.coroutines[i];
      var k := ns + c.key;
      match c.pc {
        case Locking => if ok then To(s, i, Beginning).(lock := Some(i)) else To(s, i, Finished(Raised))
        case Beginning =>
          if ok then To(s, i, Selecting).(saved := Some(s.db)) else To(s, i, Finished(Raised)).(lock := None)
        case Selecting => To(s, i, if ok then AfterSelect(s.db, k, now) else RollingBack)
        case Writing(_, t) =>
          if ok then
            var (db, total) := AfterWrite(s.db, k, c);
            To(s, i, Committing(total, t)).(db := db)
          else To(s, i, RollingBack)
        case Committing(total, t) =>
          if ok then
            To(s, i, Finished(Total(total))).(lock := None, saved := None,
              log := s.log + [Commit(i, Call(t, Incr(c.key, c.delta, c.ttl)), Total(total))])
          else To(s, i, RollingBack)
        case _ => To(s, i, Finished(Raised)).(db := s.saved.value, lock := None, saved := None)
      }
  }

  // ---- One at a time ----

  predicate Critical(pc: Pc) {
    !pc.Locking? && !pc.Finished?
  }

  predicate InTransaction(pc: Pc) {
    Critical(pc) && !pc.Beginning?
  }

  /** How the tables relate to the saved ones while a coroutine is in its transaction. */
  predicate Progress(ns: string, c: Coroutine, db: Db, saved: Db) {
    var k := ns + c.key;
    match c.pc
    case Selecting => db == saved
    case Writing(current, now) =>
      && db == saved
      && (current.Some? <==> k in db.data && Live(db.data[k], now))
      && (current.Some? ==> current == db.data[k].value.AsInt())
    case Committing(total, now) => DoIncr(saved, k, c.delta, c.ttl, now) == (db, Total(total))
    case _ => true
  }

  /** Exactly the holder of the lock is past it, and a transaction is open only in its hands. */
  predicate Inv(ns: string, s: State) {
    && (forall i | 0 <= i < |s.coroutines| :: Critical(s.coroutines[i].pc) <==> s.lock == Some(i))
    && (s.lock.Some? ==> s.lock.value < |s.coroutines|)
    && (s.saved.Some? <==> s.lock.Some? && InTransaction(s.coroutines[s.lock.value].pc))
    && (s.saved.Some? ==> Progress(ns, s.coroutines[s.lock.value], s.db, s.saved.value))
  }

  lemma {:induction false} StepKeepsInv(ns: string, s: State, e: Event)
    requires Enabled(s, e) && Inv(ns, s)
    ensures Inv(ns, Next(ns, s, e))
  {}

  predicate IsRun(ns: string, s: State, events: seq<Event>)
    requires Inv(ns, s)
    decreases |events|
  {
    if events == [] then true
    else
      && Enabled(s, events[0])
      && (StepKeepsInv(ns, s, events[0]); IsRun(ns, Next(ns, s, events[0]), events[1..]))
  }

  function After(ns: string, s: State, events: seq<Event>): (s': State)
    requires Inv(ns, s) && IsRun(ns, s, events)
    ensures Inv(ns, s')
    decreases |events|
  {
    if events == [] then s
    else
      StepKeepsInv(ns, s, events[0]);
      After(ns, Next(ns, s, events[0]), events[1..])
  }

  // ---- A coroutine that is not disturbed ----

  /** n resumptions of one coroutine, none of which raises. */
  function Resumptions(i: nat, now: real, n: nat): (events: seq<Event>)
    ensures |events| == n
  {
    seq(n, j requires 0 <= j < n => Resume(i, true, now))
  }

  lemma ResumeOnce(ns: string, s: State, i: nat, now: real, n: nat)
    requires n > 0 && Inv(ns, s) && Enabled(s, Resume(i, true, now))
    ensures Inv(ns, Next(ns, s, Resume(i, true, now)))
    ensures IsRun(ns, Next(ns, s, Resume(i, true, now)), Resumptions(i, now, n - 1)) ==>
              && IsRun(ns, s, Resumptions(i, now, n))
              && After(ns, s, Resumptions(i, now, n))
                 == After(ns, Next(ns, s, Resume(i, true, now)), Resumptions(i, now, n - 1))
  {
    StepKeepsInv(ns, s, Resume(i, true, now));
    assert Resumptions(i, now, n)[1..] == Resumptions(i, now, n - 1);
  }

  /**
   A coroutine that waits for the lock while nobody holds it, and is resumed without a raise and
   without others in between, returns what the atomic increment returns, which raises only on a
   live value that is not a number, and leaves the tables as that does, with the lock free.
   */
  lemma {:induction false} UndisturbedReturns(ns: string, s: State, i: nat, now: real)
    requires Inv(ns, s) && s.lock.None? && i < |s.coroutines| && s.coroutines[i].pc.Locking?
    ensures var c := s.coroutines[i];
            var (db, out) := DoIncr(s.db, ns + c.key, c.delta, c.ttl, now);
            var events := Resumptions(i, now, if out == Raised then 4 else 5);
            && IsRun(ns, s, events)
            && i < |After(ns, s, events).coroutines|
            && After(ns, s, events).coroutines[i].pc == Finished(out)
            && After(ns, s, events).db == db && After(ns, s, events).lock.None?
  {
    var c, e := s.coroutines[i], Resume(i, true, now);
    var n := if DoIncr(s.db, ns + c.key, c.delta, c.ttl, now).1 == Raised then 4 else 5;
    ResumeOnce(ns, s, i, now, n);
    var s1 := Next(ns, s, e);
    ResumeOnce(ns, s1, i, now, n - 1);
    var s2 := Next(ns, s1, e);
    ResumeOnce(ns, s2, i, now, n - 2);
    var s3 := Next(ns, s2, e);
    ResumeOnce(ns, s3, i, now, n - 3);
    var s4 := Next(ns, s3, e);
    if n == 5 { ResumeOnce(ns, s4, i, now, 1); }
    assert Resumptions(i, now, 0) == [];
  }

  // ---- Interleaved runs are serial runs in commit order ----

  /** The tables without the open transaction. */
  function Committed(s: State): Db {
    if s.saved.Some? then s.saved.value else s.db
  }

  function Calls(log: seq<Commit>): (calls: seq<Call>)
    ensures |calls| == |log|
  {
    seq(|log|, i requires 0 <= i < |log| => log[i].call)
  }

  function Outs(log: seq<Commit>): (outs: seq<Out>)
    ensures |outs| == |log|
  {
    seq(|log|, i requires 0 <= i < |log| => log[i].out)
  }

  /** A coroutine returned n exactly when it is in the log, once, with this result and its own arguments. */
  ghost predicate Logged(s: State) {
    && (forall j | 0 <= j < |s.log| ::
          && s.log[j].who < |s.coroutines|
          && s.coroutines[s.log[j].who].pc == Finished(s.log[j].out)
          && s.log[j].out.Total?
          && CallOf(s.coroutines[s.log[j].who], s.log[j].call))
    && (forall j, j' | 0 <= j < j' < |s.log| :: s.log[j].who != s.log[j'].who)
    && (forall i | 0 <= i < |s.coroutines| && s.coroutines[i].pc.Finished? && s.coroutines[i].pc.out.Total? ::
          exists j :: 0 <= j < |s.log| && s.log[j].who == i)
  }

  predicate CallOf(c: Coroutine, call: Call) {
    call.op == Incr(c.key, c.delta, c.ttl)
  }

  ghost predicate Serial(ns: string, db0: Db, s: State) {
    && Committed(s) == Run(ns, db0, Calls(s.log))
    && Outs(s.log) == Results(ns, db0, Calls(s.log))
  }

  /** Runs of the tables, one call longer. */
  lemma {:induction false} RunOneMore(ns: string, db: Db, calls: seq<Call>, call: Call)
    ensures Run(ns, db, calls + [call]) == Step(ns, Run(ns, db, calls), call).0
    ensures Results(ns, db, calls + [call]) == Results(ns, db, calls) + [Step(ns, Run(ns, db, calls), call).1]
    decreases |calls|
  {
    if calls == [] {
      assert calls + [call] == [call] && [call][1..] == [];
    } else {
      assert (calls + [call])[1..] == calls[1..] + [call];
      RunOneMore(ns, Step(ns, db, calls[0]).0, calls[1..], call);
    }
  }

  /** Only a commit changes the committed tables and the log. */
  lemma {:induction false} OnlyCommitsCount(ns: string, s: State, e: Event)
    requires Enabled(s, e) && Inv(ns, s)
    ensures var s' := Next(ns, s, e);
            if e.Resume? && e.ok && s.coroutines[e.i].pc.Committing? then
              var c := s.coroutines[e.i];
              var call := Call(c.pc.now, Incr(c.key, c.delta, c.ttl));
              && s'.log == s.log + [Commit(e.i, call, Total(c.pc.total))]
              && (Committed(s'), Total(c.pc.total)) == Step(ns, Committed(s), call)
            else s'.log == s.log && Committed(s') == Committed(s)
  {}

  lemma StepKeepsSerial(ns: string, db0: Db, s: State, e: Event)
    requires Enabled(s, e) && Inv(ns, s) && Serial(ns, db0, s)
    ensures Serial(ns, db0, Next(ns, s, e))
  {
    OnlyCommitsCount(ns, s, e);
    var s' := Next(ns, s, e);
    if s'.log != s.log {
      var commit := s'.log[|s.log|];
      assert Calls(s'.log) == Calls(s.log) + [commit.call];
      assert Outs(s'.log) == Outs(s.log) + [commit.out];
      RunOneMore(ns, db0, Calls(s.log), commit.call);
    }
  }

  /** Of the coroutines only the resumed one moves, and it returns a value exactly by committing. */
  lemma WhoMoves(ns: string, s: State, e: Event)
    requires Enabled(s, e) && Inv(ns, s)
    ensures var s' := Next(ns, s, e);
            if e.Create? then
              s'.coroutines == s.coroutines + [Coroutine(e.key, e.delta, e.ttl, Locking)] && s'.log == s.log
            else
              var pc := s.coroutines[e.i].pc;
              && s'.coroutines == s.coroutines[e.i := s.coroutines[e.i].(pc := s'.coroutines[e.i].pc)]
              && (if pc.Committing? && e.ok then s'.coroutines[e.i].pc == Finished(Total(pc.total))
                  else s'.log == s.log && (s'.coroutines[e.i].pc.Finished? ==> s'.coroutines[e.i].pc.out == Raised))
  {}

  lemma StepKeepsLogged(ns: string, s: State, e: Event)
    requires Enabled(s, e) && Inv(ns, s) && Logged(s)
    ensures Logged(Next(ns, s, e))
  {
    hide Next, Inv, Committed;
    WhoMoves(ns, s, e);
    OnlyCommitsCount(ns, s, e);
    var s' := Next(ns, s, e);
    forall i | 0 <= i < |s'.coroutines| && s'.coroutines[i].pc.Finished? && s'.coroutines[i].pc.out.Total?
      ensures exists j :: 0 <= j < |s'.log| && s'.log[j].who == i
    {
      if i < |s.coroutines| && s.coroutines[i].pc.Finished? {
        var j :| 0 <= j < |s.log| && s.log[j].who == i;
        assert s'.log[j].who == i;
      } else {
        assert s'.log[|s.log|].who == i;
      }
    }
  }

  lemma {:induction false} RunIsSerial(ns: string, db0: Db, s: State, events: seq<Event>)
    requires Inv(ns, s) && IsRun(ns, s, events) && Serial(ns, db0, s) && Logged(s)
    ensures Serial(ns, db0, After(ns, s, events)) && Logged(After(ns, s, events))
    decreases |events|
  {
    if events != [] {
      StepKeepsInv(ns, s, events[0]);
      StepKeepsSerial(ns, db0, s, events[0]);
      StepKeepsLogged(ns, s, events[0]);
      RunIsSerial(ns, db0, Next(ns, s, events[0]), events[1..]);
    }
  }

  // ---- Conservation ----

  function SumFor(calls: seq<Call>, key: string): int
    requires forall i | 0 <= i < |calls| :: calls[i].op.Incr?
  {
    if calls == [] then 0
    else (if calls[0].op.key == key then calls[0].op.delta else 0) + SumFor(calls[1..], key)
  }

  /** The row of key holds n and does not expire before any of the calls. */
  ghost predicate Counter(ns: string, db: Db, key: string, n: int, calls: seq<Call>) {
    && ns + key in db.data && db.data[ns + key].value.AsInt() == Some(n)
    && (forall i | 0 <= i < |calls| :: Live(db.data[ns + key], calls[i].now))
  }

  lemma SameKey(ns: string, a: string, b: string)
    ensures ns + a == ns + b <==> a == b
  {
    assert (ns + a)[|ns|..] == a && (ns + b)[|ns|..] == b;
  }

  lemma {:induction false} CountersAddUp(ns: string, db: Db, key: string, n: int, calls: seq<Call>)
    requires forall i | 0 <= i < |calls| :: calls[i].op.Incr?
    requires Counter(ns, db, key, n, calls)
    ensures var end := Run(ns, db, calls);
            ns + key in end.data && end.data[ns + key].value.AsInt() == Some(n + SumFor(calls, key))
    ensures forall i | 0 <= i < |calls| && calls[i].op.key == key ::
              Results(ns, db, calls)[i] == Total(n + SumFor(calls[..i + 1], key))
    decreases |calls|
  {
    if calls != [] {
      var call := calls[0];
      SameKey(ns, call.op.key, key);
      var db' := Step(ns, db, call).0;
      var d := if call.op.key == key then call.op.delta else 0;
      assert Counter(ns, db', key, n + d, calls[1..]);
      CountersAddUp(ns, db', key, n + d, calls[1..]);
      forall i | 0 <= i < |calls| && calls[i].op.key == key
        ensures Results(ns, db, calls)[i] == Total(n + SumFor(calls[..i + 1], key))
      {
        assert calls[..i + 1][1..] == calls[1..][..i];
      }
    }
  }

  /**
   Serializability.  After any interleaving of increments and decrements of any keys, with awaits
   that raise anywhere, the committed tables and the values returned are those of the atomic
   increments in commit order; exactly the coroutines that returned a value are among them.
   */
  lemma AsyncIsSerial(ns: string, db0: Db, events: seq<Event>)
    requires IsRun(ns, Start(db0), events)
    ensures var s := After(ns, Start(db0), events);
            && Logged(s)
            && Committed(s) == Run(ns, db0, Calls(s.log))
            && Outs(s.log) == Results(ns, db0, Calls(s.log))
            && (forall i | 0 <= i < |Calls(s.log)| :: Calls(s.log)[i].op.Incr?)
  {
    RunIsSerial(ns, db0, Start(db0), events);
    var s := After(ns, Start(db0), events);
    forall i | 0 <= i < |Calls(s.log)| ensures Calls(s.log)[i].op.Incr? {
      assert CallOf(s.coroutines[s.log[i].who], s.log[i].call);
    }
  }

  /**
   Conservation.  On a counter that stays alive the values returned are the running totals in
   commit order, and it holds its initial value plus the committed deltas.
   */
  lemma AsyncCountersAddUp(ns: string, db0: Db, events: seq<Event>, key: string, n: int)
    requires IsRun(ns, Start(db0), events)
    requires Counter(ns, db0, key, n, Calls(After(ns, Start(db0), events).log))
    ensures var s := After(ns, Start(db0), events);
            var calls := Calls(s.log);
            && (forall i | 0 <= i < |calls| :: calls[i].op.Incr?)
            && (forall i | 0 <= i < |calls| && calls[i].op.key == key ::
                  Outs(s.log)[i] == Total(n + SumFor(calls[..i + 1], key)))
            && ns + key in Committed(s).data
            && Committed(s).data[ns + key].value.AsInt() == Some(n + SumFor(calls, key))
  {
    hide After, IsRun, Committed, Run, Results, Calls, Logged, Counter;
    AsyncIsSerial(ns, db0, events);
    CountersAddUp(ns, db0, key, n, Calls(After(ns, Start(db0), events).log));
  }
}
