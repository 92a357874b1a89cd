/**
 Who may compute at the same time: a conservation law between the calls that hold a group, its
 registration, the followers that fell through and the releases that found nothing; mutual
 exclusion when woken followers find what was stored; and a run that breaks it without that.
 */
module ProtocolExclusion {
  import opened Wrappers
  import opened Values
  import opened Singleflight
  import opened Swr
  import opened Protocol
  import opened ProtocolLiveness

  /** The calls that hold the group of the key. */
  function Holding(key: string): Thread -> nat {
    (th: Thread) => if th.key == key && Holds(th.pc) then 1 else 0
  }

  function Holders(s: State, key: string): nat {
    Sum(s.threads, Holding(key))
  }

  predicate Balanced(s: State, key: string) {
    Holders(s, key) + s.history.emptyPops[key]
    == (if key in s.reg.events then 1 else 0) + s.history.fell[key]
  }

  lemma NoneHeldAtStart(cfg: Config, s: State, th: Thread, move: Move, key: string)
    requires CanMove(cfg, s.reg, th, move)
    ensures Sum(Spawned(cfg, s, th, move), Holding(key)) == 0
  {}

  function Count(b: bool): nat {
    if b then 1 else 0
  }

  /** A move keeps the balance of its own group and does not concern any other. */
  lemma MoveKeepsBalance(cfg: Config, s: State, th: Thread, move: Move, key: string)
    requires cfg.singleflight && CanMove(cfg, s.reg, th, move)
    ensures var h, h' := s.history, HistoryAfter(s, th, move);
            var events, events' := s.reg.events, RegAfter(s.reg, th, move).events;
            if key == th.key then
              Count(Holds(PcAfter(cfg, s, th, move))) + h'.emptyPops[key] + Count(key in events) + h.fell[key]
              == Count(Holds(th.pc)) + h.emptyPops[key] + Count(key in events') + h'.fell[key]
            else
              && h'.emptyPops[key] == h.emptyPops[key]
              && h'.fell[key] == h.fell[key]
              && (key in events' <==> key in events)
  {}

  lemma StepKeepsBalance(cfg: Config, s: State, step: Step, key: string)
    requires cfg.singleflight && Enabled(cfg, s, step) && Balanced(s, key)
    ensures Balanced(Next(cfg, s, step), key)
  {
    hide PcAfter, RegAfter, CacheAfter, HistoryAfter, Spawned, CanMove;
    SumAfter(cfg, s, step, Holding(key));
    if step.Act? {
      NoneHeldAtStart(cfg, s, s.threads[step.t], step.move, key);
      MoveKeepsBalance(cfg, s, s.threads[step.t], step.move, key);
    }
  }

  /** The law holds over every run. */
  lemma {:induction false} RunKeepsBalance(cfg: Config, s: State, steps: seq<Step>, key: string)
    requires cfg.singleflight && IsRun(cfg, s, steps) && Balanced(s, key)
    ensures Balanced(Run(cfg, s, steps), key)
    decreases |steps|
  {
    if steps != [] {
      StepKeepsBalance(cfg, s, steps[0], key);
      RunKeepsBalance(cfg, Next(cfg, s, steps[0]), steps[1..], key);
    }
  }

  lemma {:induction false} SumAtLeast(threads: seq<Thread>, t: nat, weight: Thread -> nat)
    requires t < |threads|
    ensures weight(threads[t]) <= Sum(threads, weight)
  {
    if t > 0 { SumAtLeast(threads[1..], t - 1, weight); }
  }

  lemma {:induction false} SumOfTwo(threads: seq<Thread>, t: nat, u: nat, weight: Thread -> nat)
    requires t < u < |threads|
    ensures weight(threads[t]) + weight(threads[u]) <= Sum(threads, weight)
  {
    if t == 0 { SumAtLeast(threads[1..], u - 1, weight); }
    else { SumOfTwo(threads[1..], t - 1, u - 1, weight); }
  }

  lemma {:induction false} OneOfSum(threads: seq<Thread>, key: string) returns (t: nat)
    requires Sum(threads, Holding(key)) >= 1
    ensures t < |threads| && Holding(key)(threads[t]) == 1
  {
    t := 0;
    if Holding(key)(threads[0]) == 0 {
      t := OneOfSum(threads[1..], key);
      t := t + 1;
    }
  }

  lemma {:induction false} TwoOfSum(threads: seq<Thread>, key: string) returns (t: nat, u: nat)
    requires Sum(threads, Holding(key)) >= 2
    ensures t < u < |threads| && Holding(key)(threads[t]) == 1 && Holding(key)(threads[u]) == 1
  {
    if Holding(key)(threads[0]) == 0 {
      t, u := TwoOfSum(threads[1..], key);
      t, u := t + 1, u + 1;
    } else {
      u := OneOfSum(threads[1..], key);
      t, u := 0, u + 1;
    }
  }

  /** A registered group is held by the call that registered it. */
  lemma RegisteredIsHeld(s: State, key: string)
    requires Live(s.threads, s.reg) && key in s.reg.events
    ensures Holders(s, key) >= 1
  {
    var e := s.reg.events[key];
    var u :| 0 <= u < |s.threads| && Own(s.threads[u].pc) == Some(e);
    assert OwnGroup(s.threads[u]);
    SumAtLeast(s.threads, u, Holding(key));
  }

  ghost predicate TwoHold(s: State, key: string) {
    exists t, u :: 0 <= t < u < |s.threads| && Holding(key)(s.threads[t]) == 1 && Holding(key)(s.threads[u]) == 1
  }

  /**
   After any run: the calls that hold a group, with the releases that found no event, are as many
   as its registration and the followers that fell through; this says exactly when two calls hold
   a group at once.  While no follower of the group has fallen through, no two do, and it is
   registered exactly while one does.
   */
  lemma HoldersOfGroup(cfg: Config, cache: map<string, Value>, steps: seq<Step>, key: string)
    requires cfg.singleflight && IsRun(cfg, IDLE.(cache := cache), steps)
    ensures var s := Run(cfg, IDLE.(cache := cache), steps);
            && Balanced(s, key)
            && (TwoHold(s, key)
                <==> (if key in s.reg.events then 1 else 0) + s.history.fell[key] >= s.history.emptyPops[key] + 2)
            && (s.history.fell[key] == 0 ==> !TwoHold(s, key))
            && (s.history.fell[key] == 0 ==> (key in s.reg.events <==> Holders(s, key) == 1))
  {
    var start := IDLE.(cache := cache);
    var s := Run(cfg, start, steps);
    RunKeepsBalance(cfg, start, steps, key);
    RunKeepsLive(cfg, start, steps);
    if key in s.reg.events { RegisteredIsHeld(s, key); }
    if TwoHold(s, key) {
      var t, u :| 0 <= t < u < |s.threads| && Holding(key)(s.threads[t]) == 1 && Holding(key)(s.threads[u]) == 1;
      SumOfTwo(s.threads, t, u, Holding(key));
    } else if Holders(s, key) >= 2 {
      var t, u := TwoOfSum(s.threads, key);
    }
  }

  // ---- Retention: what a woken follower reads is still there ----

  /** A thread of this key is past a store, or a follower has been or is being woken. */
  ghost predicate Awaits(th: Thread, reg: Registry) {
    || th.pc.Releasing?
    || th.pc.Firing?
    || th.pc.Rereading?
    || (th.pc.Waiting? && th.pc.ev in reg.fired)
  }

  /**
   The results of the key are cacheable, storing them succeeds and leaves an entry, and the entry
   is not dropped between the store and the second read of the followers.
   */
  ghost predicate Retains(cfg: Config, s: State, step: Step, key: string)
    requires Enabled(cfg, s, step)
  {
    match step
    case Call(_) => true
    case Drop(k) =>
      k == key ==> forall t | 0 <= t < |s.threads| && s.threads[t].key == key :: !Awaits(s.threads[t], s.reg)
    case Act(t, move) =>
      s.threads[t].key == key ==>
        match move
        case Compute(result) => result.Some? && Storable(cfg, result.value)
        case Store(site, ttl, draw, now, _) =>
          var seconds := Encode(site, s.threads[t].pc.result, ttl, draw, cfg.stale, now).1;
          seconds.Some? ==> seconds.value > 0
        case StoreFails => false
        case _ => true
  }

  ghost predicate RetainingRun(cfg: Config, s: State, steps: seq<Step>, key: string)
    requires IsRun(cfg, s, steps)
    decreases |steps|
  {
    steps == [] || (Retains(cfg, s, steps[0], key) && RetainingRun(cfg, Next(cfg, s, steps[0]), steps[1..], key))
  }

  /** The events that were popped and are about to be set. */
  ghost function FiringEvents(threads: seq<Thread>): set<EventId> {
    set u | 0 <= u < |threads| && threads[u].pc.Firing? :: threads[u].pc.popped
  }

  /** A registered event has been neither popped nor set, and numbers are not used twice. */
  ghost predicate Unfired(firing: set<EventId>, reg: Registry) {
    && (forall e | e in reg.fired + firing :: e.serial < reg.next)
    && (forall k | k in reg.events :: reg.events[k].serial < reg.next && reg.events[k] !in reg.fired + firing)
  }

  ghost predicate Retained(s: State, key: string) {
    forall t | 0 <= t < |s.threads| && s.threads[t].key == key && Awaits(s.threads[t], s.reg) :: key in s.cache
  }

  lemma OnlyPopFires(cfg: Config, s: State, th: Thread, move: Move)
    requires CanMove(cfg, s.reg, th, move)
    ensures var pc := PcAfter(cfg, s, th, move);
            && (pc.Firing? ==> move.Pop? && th.key in s.reg.events && pc.popped == s.reg.events[th.key])
            && (move.Fire? ==> th.pc.Firing?)
    ensures forall i | 0 <= i < |Spawned(cfg, s, th, move)| :: Spawned(cfg, s, th, move)[i].pc == Acquiring
  {}

  lemma FiringAfter(cfg: Config, s: State, t: nat, move: Move)
    requires Enabled(cfg, s, Act(t, move))
    ensures var th, events := s.threads[t], s.reg.events;
            FiringEvents(Next(cfg, s, Act(t, move)).threads)
            <= FiringEvents(s.threads) + (if move.Pop? && th.key in events then {events[th.key]} else {})
    ensures move.Fire? ==> s.threads[t].pc.Firing? && s.threads[t].pc.popped in FiringEvents(s.threads)
  {
    var th := s.threads[t];
    hide PcAfter, CanMove, Spawned, RegAfter, CacheAfter, HistoryAfter;
    OnlyPopFires(cfg, s, th, move);
    MovedAt(s.threads, t, th.(pc := PcAfter(cfg, s, th, move)), Spawned(cfg, s, th, move));
  }

  lemma {:induction false} StepKeepsUnfired(cfg: Config, s: State, step: Step)
    requires cfg.singleflight && Enabled(cfg, s, step) && Live(s.threads, s.reg)
    requires Unfired(FiringEvents(s.threads), s.reg)
    ensures Unfired(FiringEvents(Next(cfg, s, step).threads), Next(cfg, s, step).reg)
  {
    hide FiringEvents, PcAfter, CanMove, Spawned, CacheAfter, HistoryAfter, Covered, OwnGroup;
    match step
    case Act(t, move) => FiringAfter(cfg, s, t, move);
    case Call(key) => CallFiresNothing(s.threads, Thread(key, false, Reading));
    case Drop(_) =>
  }

  lemma CallFiresNothing(threads: seq<Thread>, th: Thread)
    requires !th.pc.Firing?
    ensures FiringEvents(threads + [th]) == FiringEvents(threads)
  {
    assert forall u | 0 <= u < |threads| :: (threads + [th])[u] == threads[u];
  }

  lemma StepKeepsRetained(cfg: Config, s: State, step: Step, key: string)
    requires cfg.singleflight && Enabled(cfg, s, step) && Live(s.threads, s.reg)
             && Unfired(FiringEvents(s.threads), s.reg)
    requires Retains(cfg, s, step, key) && Retained(s, key)
    ensures Retained(Next(cfg, s, step), key)
    ensures Next(cfg, s, step).history.fell[key] == s.history.fell[key]
  {}

  lemma {:induction false} RunKeepsRetained(cfg: Config, s: State, steps: seq<Step>, key: string)
    requires cfg.singleflight && IsRun(cfg, s, steps) && RetainingRun(cfg, s, steps, key)
    requires Live(s.threads, s.reg) && Unfired(FiringEvents(s.threads), s.reg) && Retained(s, key)
    ensures Retained(Run(cfg, s, steps), key)
    ensures Run(cfg, s, steps).history.fell[key] == s.history.fell[key]
    decreases |steps|
  {
    if steps != [] {
      StepKeepsLive(cfg, s, steps[0]);
      StepKeepsUnfired(cfg, s, steps[0]);
      StepKeepsRetained(cfg, s, steps[0], key);
      RunKeepsRetained(cfg, Next(cfg, s, steps[0]), steps[1..], key);
    }
  }

  /**
   Mutual exclusion under retention: no two calls, leaders or refreshers, hold the group of the
   key at once; it is registered exactly while one does; and a woken follower finds an entry.
   */
  lemma MutualExclusion(cfg: Config, cache: map<string, Value>, steps: seq<Step>, key: string)
    requires cfg.singleflight && IsRun(cfg, IDLE.(cache := cache), steps)
    requires RetainingRun(cfg, IDLE.(cache := cache), steps, key)
    ensures var s := Run(cfg, IDLE.(cache := cache), steps);
            && !TwoHold(s, key)
            && (key in s.reg.events <==> Holders(s, key) == 1)
            && (forall t | 0 <= t < |s.threads| && s.threads[t].key == key && s.threads[t].pc.Rereading? ::
                  && key in s.cache
                  && Enabled(cfg, s, Act(t, Reread))
                  && Next(cfg, s, Act(t, Reread)).threads[t].pc == Returned(Answer(Decode(s.cache[key]).0)))
  {
    RunKeepsRetained(cfg, IDLE.(cache := cache), steps, key);
    HoldersOfGroup(cfg, cache, steps, key);
  }

  // ---- Without retention ----

  lemma {:induction false} RunOneMore(cfg: Config, s: State, steps: seq<Step>, step: Step)
    requires IsRun(cfg, s, steps) && Enabled(cfg, Run(cfg, s, steps), step)
    ensures IsRun(cfg, s, steps + [step]) && Run(cfg, s, steps + [step]) == Next(cfg, Run(cfg, s, steps), step)
    decreases |steps|
  {
    if steps == [] {
      assert steps + [step] == [step] && [step][1..] == [];
    } else {
      assert (steps + [step])[1..] == steps[1..] + [step];
      RunOneMore(cfg, Next(cfg, s, steps[0]), steps[1..], step);
    }
  }

  /** The state of three calls for one key, with an empty cache. */
  function Three(key: string, a: Pc, b: Pc, c: Pc, reg: Registry, history: History): State {
    State([Thread(key, false, a), Thread(key, false, b), Thread(key, false, c)], reg, map[], history)
  }

  /** One more step of a run of three calls. */
  lemma Extend(cfg: Config, steps: seq<Step>, s: State, step: Step, s': State) returns (longer: seq<Step>)
    requires IsRun(cfg, IDLE, steps) && Run(cfg, IDLE, steps) == s
    requires Enabled(cfg, s, step) && Next(cfg, s, step) == s'
    ensures longer == steps + [step] && IsRun(cfg, IDLE, longer) && Run(cfg, IDLE, longer) == s'
  {
    longer := steps + [step];
    RunOneMore(cfg, IDLE, steps, step);
  }

  /** Three calls miss; one becomes the leader and the others wait. */
  lemma TwoWait(cfg: Config, key: string) returns (steps: seq<Step>)
    requires cfg.singleflight
    ensures IsRun(cfg, IDLE, steps)
    ensures var e := EventId(key, 0);
            Run(cfg, IDLE, steps)
            == Three(key, Computing(Some(e)), Waiting(e), Waiting(e), Registry(map[key := e], {}, 1), IDLE.history)
  {
    var e, h := EventId(key, 0), IDLE.history;
    var reg := Registry(map[key := e], {}, 1);
    var caller := Thread(key, false, Reading);
    var s0, s1, s2 := IDLE, IDLE.(threads := [caller]), IDLE.(threads := [caller, caller]);
    var s3 := Three(key, Reading, Reading, Reading, NO_EVENTS, h);
    var s4 := Three(key, Acquiring, Reading, Reading, NO_EVENTS, h);
    var s5 := Three(key, Acquiring, Acquiring, Reading, NO_EVENTS, h);
    var s6 := Three(key, Acquiring, Acquiring, Acquiring, NO_EVENTS, h);
    var s7 := Three(key, Computing(Some(e)), Acquiring, Acquiring, reg, h);
    var s8 := Three(key, Computing(Some(e)), Waiting(e), Acquiring, reg, h);
    var s9 := Three(key, Computing(Some(e)), Waiting(e), Waiting(e), reg, h);
    steps := [];
    steps := Extend(cfg, steps, s0, Call(key), s1);
    steps := Extend(cfg, steps, s1, Call(key), s2);
    steps := Extend(cfg, steps, s2, Call(key), s3);
    steps := Extend(cfg, steps, s3, Act(0, Read(0.0)), s4);
    steps := Extend(cfg, steps, s4, Act(1, Read(0.0)), s5);
    steps := Extend(cfg, steps, s5, Act(2, Read(0.0)), s6);
    steps := Extend(cfg, steps, s6, Act(0, Acquire), s7);
    steps := Extend(cfg, steps, s7, Act(1, Acquire), s8);
    steps := Extend(cfg, steps, s8, Act(2, Acquire), s9);
  }

  /**
   The leader's function raises, both followers miss and fall through, and two calls compute at
   once while the group is not even registered.
   */
  lemma FallThroughBreaksExclusion(cfg: Config, key: string) returns (steps: seq<Step>)
    requires cfg.singleflight
    ensures IsRun(cfg, IDLE, steps) && TwoHold(Run(cfg, IDLE, steps), key)
    ensures key !in Run(cfg, IDLE, steps).reg.events && Run(cfg, IDLE, steps).history.fell[key] == 2
  {
    var e, h, done := EventId(key, 0), IDLE.history, Returned(Failure);
    var popped, fired := Registry(map[], {}, 1), Registry(map[], {e}, 1);
    var reg := Registry(map[key := e], {}, 1);
    var h1 := h.(fell := multiset{key});
    var h2 := h.(fell := multiset{key, key});
    var s0 := Three(key, Computing(Some(e)), Waiting(e), Waiting(e), reg, h);
    var s1 := Three(key, Releasing(Some(e), Failure), Waiting(e), Waiting(e), reg, h);
    var s2 := Three(key, Firing(e, Failure), Waiting(e), Waiting(e), popped, h);
    var s3 := Three(key, done, Waiting(e), Waiting(e), fired, h);
    var s4 := Three(key, done, Rereading, Waiting(e), fired, h);
    var s5 := Three(key, done, Rereading, Rereading, fired, h);
    var s6 := Three(key, done, Computing(None), Rereading, fired, h1);
    var s7 := Three(key, done, Computing(None), Computing(None), fired, h2);
    steps := TwoWait(cfg, key);
    steps := Extend(cfg, steps, s0, Act(0, Compute(None)), s1);
    steps := Extend(cfg, steps, s1, Act(0, Pop), s2);
    steps := Extend(cfg, steps, s2, Act(0, Move.Fire), s3);
    steps := Extend(cfg, steps, s3, Act(1, Wake), s4);
    steps := Extend(cfg, steps, s4, Act(2, Wake), s5);
    steps := Extend(cfg, steps, s5, Act(1, Reread), s6);
    steps := Extend(cfg, steps, s6, Act(2, Reread), s7);
    assert Holding(key)(s7.threads[1]) == 1 && Holding(key)(s7.threads[2]) == 1;
  }
}
