/**
 No lost wake-up and no deadlock: in every reachable state each waiting thread is about to be
 woken or already is, some unfinished thread can move, and only finitely many moves are left.
 */
module ProtocolLiveness {
  import opened Wrappers
  import opened Values
  import opened Singleflight
  import opened Protocol

  /** A call that took the group with event e has not yet released it. */
  ghost predicate Led(threads: seq<Thread>, e: EventId) {
    exists u :: 0 <= u < |threads| && Own(threads[u].pc) == Some(e)
  }

  /** A thread popped e and is about to set it. */
  ghost predicate AboutToFire(threads: seq<Thread>, e: EventId) {
    exists u :: 0 <= u < |threads| && threads[u].pc.Firing? && threads[u].pc.popped == e
  }

  ghost predicate Registered(reg: Registry, e: EventId) {
    e.group in reg.events && reg.events[e.group] == e
  }

  /** The events a thread mentions are events of its own group. */
  predicate OwnGroup(th: Thread) {
    && (Own(th.pc).Some? ==> Own(th.pc).value.group == th.key)
    && (th.pc.Waiting? ==> th.pc.ev.group == th.key)
    && (th.pc.Firing? ==> th.pc.popped.group == th.key)
  }

  /** Waiting for e is not in vain: e is set, popped and about to be set, or its release is pending. */
  ghost predicate Covered(threads: seq<Thread>, reg: Registry, e: EventId) {
    e in reg.fired || AboutToFire(threads, e) || (Registered(reg, e) && Led(threads, e))
  }

  ghost predicate Live(threads: seq<Thread>, reg: Registry) {
    && (forall t | 0 <= t < |threads| :: OwnGroup(threads[t]))
    && (forall k | k in reg.events :: reg.events[k].group == k && Led(threads, reg.events[k]))
    && (forall t | 0 <= t < |threads| && threads[t].pc.Waiting? :: Covered(threads, reg, threads[t].pc.ev))
  }

  // ---- Every step keeps it ----

  /** The threads after a move: one changed, and perhaps a refresher more. */
  function Moved(threads: seq<Thread>, t: nat, th: Thread, spawned: seq<Thread>): seq<Thread>
    requires t < |threads|
  {
    threads[t := th] + spawned
  }

  lemma MovedAt(threads: seq<Thread>, t: nat, th: Thread, spawned: seq<Thread>)
    requires t < |threads|
    ensures var after := Moved(threads, t, th, spawned);
            && |after| == |threads| + |spawned| && after[t] == th
            && (forall u | 0 <= u < |threads| && u != t :: after[u] == threads[u])
            && (forall u | 0 <= u < |spawned| :: after[|threads| + u] == spawned[u])
  {}

  lemma LedAfter(threads: seq<Thread>, t: nat, th: Thread, spawned: seq<Thread>, e: EventId)
    requires t < |threads| && Led(threads, e)
    requires Own(threads[t].pc) == Some(e) ==> Own(th.pc) == Some(e)
    ensures Led(Moved(threads, t, th, spawned), e)
  {
    MovedAt(threads, t, th, spawned);
    var u :| 0 <= u < |threads| && Own(threads[u].pc) == Some(e);
    assert Own(Moved(threads, t, th, spawned)[u].pc) == Some(e);
  }

  lemma AboutToFireAfter(threads: seq<Thread>, t: nat, th: Thread, spawned: seq<Thread>, e: EventId)
    requires t < |threads| && AboutToFire(threads, e)
    requires threads[t].pc.Firing? ==> threads[t].pc.popped != e
    ensures AboutToFire(Moved(threads, t, th, spawned), e)
  {
    MovedAt(threads, t, th, spawned);
    var u :| 0 <= u < |threads| && threads[u].pc.Firing? && threads[u].pc.popped == e;
    assert Moved(threads, t, th, spawned)[u].pc.popped == e;
  }

  /** What a move does to the event of the thread, to the registry and to the waiting. */
  lemma MoveEffects(cfg: Config, s: State, th: Thread, move: Move)
    requires CanMove(cfg, s.reg, th, move) && OwnGroup(th)
    requires forall k | k in s.reg.events :: s.reg.events[k].group == k
    ensures var th' := th.(pc := PcAfter(cfg, s, th, move));
            && OwnGroup(th')
            && (Own(th.pc).Some? && !move.Pop? && cfg.singleflight ==> Own(th'.pc) == Own(th.pc))
            && (th'.pc.Waiting? ==> Registered(s.reg, th'.pc.ev))
            && (move.Acquire? && th.key !in s.reg.events ==> Own(th'.pc) == Some(EventId(th.key, s.reg.next)))
            && (move.Pop? && th.key in s.reg.events ==> th'.pc.Firing? && th'.pc.popped == s.reg.events[th.key])
  {}

  /** Whether an event that is registered, or was, stays covered. */
  lemma CoveredAfter(cfg: Config, s: State, t: nat, move: Move, e: EventId)
    requires cfg.singleflight && t < |s.threads| && CanMove(cfg, s.reg, s.threads[t], move) && Live(s.threads, s.reg)
    requires Covered(s.threads, s.reg, e)
    ensures var th := s.threads[t];
            var th' := th.(pc := PcAfter(cfg, s, th, move));
            Covered(Moved(s.threads, t, th', Spawned(cfg, s, th, move)), RegAfter(s.reg, th, move), e)
  {
    var th := s.threads[t];
    var th' := th.(pc := PcAfter(cfg, s, th, move));
    var spawned := Spawned(cfg, s, th, move);
    MoveEffects(cfg, s, th, move);
    MovedAt(s.threads, t, th', spawned);
    if e in s.reg.fired {
    } else if AboutToFire(s.threads, e) {
      if !(th.pc.Firing? && th.pc.popped == e) { AboutToFireAfter(s.threads, t, th', spawned, e); }
    } else if move.Pop? && th.key == e.group {
      assert Moved(s.threads, t, th', spawned)[t].pc.popped == e;
    } else {
      LedAfter(s.threads, t, th', spawned, e);
    }
  }

  lemma RegisteredAfter(cfg: Config, s: State, t: nat, move: Move, k: string)
    requires cfg.singleflight && t < |s.threads| && CanMove(cfg, s.reg, s.threads[t], move) && Live(s.threads, s.reg)
    requires k in RegAfter(s.reg, s.threads[t], move).events
    ensures var th := s.threads[t];
            var th' := th.(pc := PcAfter(cfg, s, th, move));
            var e := RegAfter(s.reg, th, move).events[k];
            e.group == k && Led(Moved(s.threads, t, th', Spawned(cfg, s, th, move)), e)
  {
    var th := s.threads[t];
    var th' := th.(pc := PcAfter(cfg, s, th, move));
    var spawned := Spawned(cfg, s, th, move);
    MoveEffects(cfg, s, th, move);
    MovedAt(s.threads, t, th', spawned);
    if k in s.reg.events {
      LedAfter(s.threads, t, th', spawned, s.reg.events[k]);
    } else {
      assert Own(Moved(s.threads, t, th', spawned)[t].pc) == Some(EventId(k, s.reg.next));
    }
  }

  lemma ActKeepsLive(cfg: Config, s: State, t: nat, move: Move)
    requires cfg.singleflight && Enabled(cfg, s, Act(t, move)) && Live(s.threads, s.reg)
    ensures var s' := Next(cfg, s, Act(t, move)); Live(s'.threads, s'.reg)
  {
    var s' := Next(cfg, s, Act(t, move));
    var th := s.threads[t];
    var th' := th.(pc := PcAfter(cfg, s, th, move));
    var spawned := Spawned(cfg, s, th, move);
    assert s'.threads == Moved(s.threads, t, th', spawned);
    MoveEffects(cfg, s, th, move);
    MovedAt(s.threads, t, th', spawned);
    forall k | k in s'.reg.events
      ensures s'.reg.events[k].group == k && Led(s'.threads, s'.reg.events[k])
    {
      RegisteredAfter(cfg, s, t, move, k);
    }
    forall u | 0 <= u < |s'.threads| ensures OwnGroup(s'.threads[u]) {
      if u < |s.threads| && u != t { assert s'.threads[u] == s.threads[u]; }
    }
    forall u | 0 <= u < |s'.threads| && s'.threads[u].pc.Waiting?
      ensures Covered(s'.threads, s'.reg, s'.threads[u].pc.ev)
    {
      WaitingAfter(cfg, s, t, move, u);
    }
  }

  lemma WaitingAfter(cfg: Config, s: State, t: nat, move: Move, u: nat)
    requires cfg.singleflight && Enabled(cfg, s, Act(t, move)) && Live(s.threads, s.reg)
    requires u < |Next(cfg, s, Act(t, move)).threads| && Next(cfg, s, Act(t, move)).threads[u].pc.Waiting?
    ensures var s' := Next(cfg, s, Act(t, move)); Covered(s'.threads, s'.reg, s'.threads[u].pc.ev)
  {
    var s' := Next(cfg, s, Act(t, move));
    var th := s.threads[t];
    var th' := th.(pc := PcAfter(cfg, s, th, move));
    var spawned := Spawned(cfg, s, th, move);
    assert s'.threads == Moved(s.threads, t, th', spawned);
    MoveEffects(cfg, s, th, move);
    MovedAt(s.threads, t, th', spawned);
    if u < |s.threads| {
      CoveredAfter(cfg, s, t, move, s'.threads[u].pc.ev);
    }
  }

  lemma LiveWithMore(threads: seq<Thread>, reg: Registry, more: Thread)
    requires Live(threads, reg) && more.pc == Reading
    ensures Live(threads + [more], reg)
  {
    var after := threads + [more];
    forall e | Led(threads, e) ensures Led(after, e) {
      var u :| 0 <= u < |threads| && Own(threads[u].pc) == Some(e);
      assert Own(after[u].pc) == Some(e);
    }
    forall e | AboutToFire(threads, e) ensures AboutToFire(after, e) {
      var u :| 0 <= u < |threads| && threads[u].pc.Firing? && threads[u].pc.popped == e;
      assert after[u].pc.popped == e;
    }
  }

  lemma StepKeepsLive(cfg: Config, s: State, step: Step)
    requires cfg.singleflight && Enabled(cfg, s, step) && Live(s.threads, s.reg)
    ensures Live(Next(cfg, s, step).threads, Next(cfg, s, step).reg)
  {
    match step
    case Call(key) => LiveWithMore(s.threads, s.reg, Thread(key, false, Reading));
    case Drop(_) =>
    case Act(t, move) => ActKeepsLive(cfg, s, t, move);
  }

  /** No wake-up is lost, over every run. */
  lemma {:induction false} RunKeepsLive(cfg: Config, s: State, steps: seq<Step>)
    requires cfg.singleflight && IsRun(cfg, s, steps) && Live(s.threads, s.reg)
    ensures Live(Run(cfg, s, steps).threads, Run(cfg, s, steps).reg)
    decreases |steps|
  {
    if steps != [] {
      StepKeepsLive(cfg, s, steps[0]);
      RunKeepsLive(cfg, Next(cfg, s, steps[0]), steps[1..]);
    }
  }

  // ---- No deadlock ----

  ghost predicate Finished(s: State) {
    forall t | 0 <= t < |s.threads| :: s.threads[t].pc.Returned?
  }

  ghost predicate SomeThreadCanMove(cfg: Config, s: State) {
    exists t: nat, move :: Enabled(cfg, s, Act(t, move))
  }

  lemma UnlessWaitingItMoves(cfg: Config, s: State, t: nat)
    requires t < |s.threads| && !s.threads[t].pc.Returned?
    requires s.threads[t].pc.Waiting? ==> s.threads[t].pc.ev in s.reg.fired
    ensures SomeThreadCanMove(cfg, s)
  {
    var move :=
      match s.threads[t].pc
      case Reading => Read(0.0)
      case Acquiring => Acquire
      case Waiting(_) => Wake
      case Rereading => Reread
      case Computing(_) => Compute(None)
      case Storing(_, _) => StoreFails
      case Releasing(_, _) => Pop
      case _ => Fire;
    assert Enabled(cfg, s, Act(t, move));
  }

  lemma NoDeadlock(cfg: Config, s: State)
    requires Live(s.threads, s.reg)
    ensures SomeThreadCanMove(cfg, s) <==> !Finished(s)
  {
    if !Finished(s) {
      var t :| 0 <= t < |s.threads| && !s.threads[t].pc.Returned?;
      if s.threads[t].pc.Waiting? && s.threads[t].pc.ev !in s.reg.fired {
        var e := s.threads[t].pc.ev;
        if AboutToFire(s.threads, e) {
          var u :| 0 <= u < |s.threads| && s.threads[u].pc.Firing? && s.threads[u].pc.popped == e;
          UnlessWaitingItMoves(cfg, s, u);
        } else {
          var u :| 0 <= u < |s.threads| && Own(s.threads[u].pc) == Some(e);
          UnlessWaitingItMoves(cfg, s, u);
        }
      } else {
        UnlessWaitingItMoves(cfg, s, t);
      }
    }
  }

  // ---- Every call returns ----

  /** How many moves a thread can still make, with the refresher it may start. */
  function MovesLeft(th: Thread): nat {
    match th.pc
    case Reading => 8
    case Acquiring => if th.refresher then 5 else 7
    case Waiting(_) => 6
    case Rereading => 5
    case Computing(_) => 4
    case Storing(_, _) => 3
    case Releasing(_, _) => 2
    case Firing(_, _) => 1
    case Returned(_) => 0
  }

  function Moves(steps: seq<Step>): nat {
    if steps == [] then 0 else (if steps[0].Act? then 1 else 0) + Moves(steps[1..])
  }

  function Calls(steps: seq<Step>): nat {
    if steps == [] then 0 else (if steps[0].Call? then 1 else 0) + Calls(steps[1..])
  }

  lemma MoveIsOneLess(cfg: Config, s: State, th: Thread, move: Move)
    requires CanMove(cfg, s.reg, th, move)
    ensures MovesLeft(th.(pc := PcAfter(cfg, s, th, move))) + Sum(Spawned(cfg, s, th, move), MovesLeft) < MovesLeft(th)
  {}

  /** However they are interleaved, threads make at most eight moves per call. */
  lemma {:induction false} BoundedWork(cfg: Config, s: State, steps: seq<Step>)
    requires IsRun(cfg, s, steps)
    ensures Moves(steps) + Sum(Run(cfg, s, steps).threads, MovesLeft)
            <= Sum(s.threads, MovesLeft) + 8 * Calls(steps)
    decreases |steps|
  {
    if steps != [] {
      SumAfter(cfg, s, steps[0], MovesLeft);
      match steps[0] {
        case Act(t, move) => MoveIsOneLess(cfg, s, s.threads[t], move);
        case _ =>
      }
      BoundedWork(cfg, Next(cfg, s, steps[0]), steps[1..]);
    }
  }

  /** From every live state, moves of its threads alone let all of them return. */
  lemma {:induction false} CanFinish(cfg: Config, s: State) returns (steps: seq<Step>)
    requires cfg.singleflight && Live(s.threads, s.reg)
    ensures forall i | 0 <= i < |steps| :: steps[i].Act?
    ensures IsRun(cfg, s, steps) && Finished(Run(cfg, s, steps))
    decreases Sum(s.threads, MovesLeft)
  {
    NoDeadlock(cfg, s);
    if Finished(s) {
      steps := [];
    } else {
      var t: nat, move :| Enabled(cfg, s, Act(t, move));
      StepKeepsLive(cfg, s, Act(t, move));
      SumAfter(cfg, s, Act(t, move), MovesLeft);
      MoveIsOneLess(cfg, s, s.threads[t], move);
      var rest := CanFinish(cfg, Next(cfg, s, Act(t, move)));
      steps := [Act(t, move)] + rest;
      assert steps[1..] == rest;
    }
  }

  /**
   No lost wake-up and no deadlock.  After any run, at most eight moves per call have been made,
   every thread that waits is covered, and the run is stuck only when every call has returned.
   */
  lemma EveryCallReturns(cfg: Config, cache: map<string, Value>, steps: seq<Step>)
    requires cfg.singleflight && IsRun(cfg, IDLE.(cache := cache), steps)
    ensures var s := Run(cfg, IDLE.(cache := cache), steps);
            && Moves(steps) <= 8 * Calls(steps)
            && (forall t | 0 <= t < |s.threads| && s.threads[t].pc.Waiting? ::
                  Covered(s.threads, s.reg, s.threads[t].pc.ev))
            && (SomeThreadCanMove(cfg, s) <==> !Finished(s))
  {
    RunKeepsLive(cfg, IDLE.(cache := cache), steps);
    BoundedWork(cfg, IDLE.(cache := cache), steps);
    NoDeadlock(cfg, Run(cfg, IDLE.(cache := cache), steps));
  }
}
