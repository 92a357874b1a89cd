/**
 The calls of a decorated function as a state machine, after `cachine/decorators/cached.py`: any
 number of callers and background refreshers, over any keys, interleaved at every read, lock
 section, wait, computation, store and event.
 */
module Protocol {
  import opened Wrappers
  import opened Values
  import opened Singleflight
  import opened Swr

  /** What a call gives back; a refresher that is not the leader gives nothing. */
  datatype Outcome = Answer(v: Value) | Failure | NoAnswer

  /**
   Where a call stands.  From Computing to Releasing it runs inside the `try` whose `finally`
   releases the group, and `own` is the event it created when it became the leader; a follower
   that fell through has none.
   */
  datatype Pc =
    | Reading
    | Acquiring
    | Waiting(ev: EventId)
    | Rereading
    | Computing(own: Option<EventId>)
    | Storing(own: Option<EventId>, result: Value)
    | Releasing(own: Option<EventId>, ret: Outcome)
    | Firing(popped: EventId, ret: Outcome)
    | Returned(ret: Outcome)

  datatype Thread = Thread(key: string, refresher: bool, pc: Pc)

  /** Arguments of the decorator; `condition` gives nothing when it raises. */
  datatype Config = Config(
    singleflight: bool, cacheNone: bool, condition: Value -> Option<bool>, stale: Option<int>, jitter: nat)

  /**
   What happened so far: the followers that missed on their second read, the releases that found
   no event, and the results that the function produced, all by key.
   */
  datatype History = History(fell: multiset<string>, emptyPops: multiset<string>, produced: set<(string, Value)>)

  datatype State = State(threads: seq<Thread>, reg: Registry, cache: map<string, Value>, history: History)

  const IDLE := State([], NO_EVENTS, map[], History(multiset{}, multiset{}, {}))

  /**
   A store may raise before it writes anything (StoreFails), or once the entry is there (`raises`):
   in the backend, after the value was written, or in the functions that give the tags.
   */
  datatype Move =
    | Read(now: real)
    | ReadFails
    | Acquire
    | Wake
    | Reread
    | Compute(result: Option<Value>)  // None: the function raised
    | Store(site: Site, ttl: Option<real>, draw: nat, now: real, raises: bool)
    | StoreFails
    | Pop
    | Fire

  /** A new call, a move of one thread, or an entry dropped by the backend (expiry, eviction, deletion). */
  datatype Step = Call(key: string) | Act(t: nat, move: Move) | Drop(key: string)

  predicate Storable(cfg: Config, v: Value) {
    (v.NoneValue? ==> cfg.cacheNone) && cfg.condition(v) == Some(true)
  }

  /** The call is between taking the group (or falling through) and releasing it. */
  predicate Holds(pc: Pc) {
    pc.Computing? || pc.Storing? || pc.Releasing?
  }

  function Own(pc: Pc): Option<EventId> {
    if Holds(pc) then pc.own else None
  }

  predicate CanMove(cfg: Config, reg: Registry, th: Thread, move: Move) {
    match move
    case Read(_) => th.pc.Reading?
    case ReadFails => th.pc.Reading? || th.pc.Rereading?
    case Acquire => th.pc.Acquiring?
    case Wake => th.pc.Waiting? && th.pc.ev in reg.fired
    case Reread => th.pc.Rereading?
    case Compute(_) => th.pc.Computing?
    case Store(site, _, draw, _, _) => th.pc.Storing? && draw <= cfg.jitter && (site.AsyncRefresh? ==> th.refresher)
    case StoreFails => th.pc.Storing?
    case Pop => th.pc.Releasing?
    case Fire => th.pc.Firing?
  }

  /** The `finally` clause comes next, which releases only with singleflight on. */
  function Finish(cfg: Config, own: Option<EventId>, ret: Outcome): Pc {
    if cfg.singleflight then Releasing(own, ret) else Returned(ret)
  }

  function FirstRead(cfg: Config, cache: map<string, Value>, key: string, now: real): Decision {
    if key in cache then Decide(Decode(cache[key]).1, cfg.stale, now) else Recompute
  }

  function AfterCompute(cfg: Config, own: Option<EventId>, result: Option<Value>): Pc {
    if result.None? then Finish(cfg, own, Failure)
    else
      var v := result.value;
      if v.NoneValue? && !cfg.cacheNone then Finish(cfg, own, Answer(v))
      else
        match cfg.condition(v)
        case None => Finish(cfg, own, Failure)
        case Some(ok) => if ok then Storing(own, v) else Finish(cfg, own, Answer(v))
  }

  function PcAfter(cfg: Config, s: State, th: Thread, move: Move): Pc
    requires CanMove(cfg, s.reg, th, move)
  {
    match move
    case Read(now) =>
      if FirstRead(cfg, s.cache, th.key, now).Recompute? then
        if cfg.singleflight then Acquiring else Computing(None)
      else Returned(Answer(Decode(s.cache[th.key]).0))
    case ReadFails => Returned(Failure)
    case Acquire =>
      if th.key !in s.reg.events then Computing(Some(EventId(th.key, s.reg.next)))
      else if th.refresher then Returned(NoAnswer)
      else Waiting(s.reg.events[th.key])
    case Wake => Rereading
    case Reread => if th.key in s.cache then Returned(Answer(Decode(s.cache[th.key]).0)) else Computing(None)
    case Compute(result) => AfterCompute(cfg, th.pc.own, result)
    case Store(_, _, _, _, raises) => Finish(cfg, th.pc.own, if raises then Failure else Answer(th.pc.result))
    case StoreFails => Finish(cfg, th.pc.own, Failure)
    case Pop => if th.key in s.reg.events then Firing(s.reg.events[th.key], th.pc.ret) else Returned(th.pc.ret)
    case Fire => Returned(th.pc.ret)
  }

  function RegAfter(reg: Registry, th: Thread, move: Move): Registry {
    match move
    case Acquire => if th.key in reg.events then reg else Register(reg, th.key)
    case Pop => Unregister(reg, th.key)
    case Fire => if th.pc.Firing? then Singleflight.Fire(reg, th.pc.popped) else reg
    case _ => reg
  }

  /** The backend's `set`, where a time to live that is not positive leaves nothing to read. */
  function Written(cache: map<string, Value>, key: string, stored: (Value, Option<int>)): map<string, Value> {
    if stored.1.Some? && stored.1.value <= 0 then cache - {key} else cache[key := stored.0]
  }

  function CacheAfter(cfg: Config, cache: map<string, Value>, th: Thread, move: Move): map<string, Value> {
    if move.Store? && th.pc.Storing? then
      Written(cache, th.key, Encode(move.site, th.pc.result, move.ttl, move.draw, cfg.stale, move.now))
    else cache
  }

  function HistoryAfter(s: State, th: Thread, move: Move): History {
    match move
    case Reread => if th.key in s.cache then s.history else s.history.(fell := s.history.fell + multiset{th.key})
    case Pop =>
      if th.key in s.reg.events then s.history else s.history.(emptyPops := s.history.emptyPops + multiset{th.key})
    case Compute(Some(v)) => s.history.(produced := s.history.produced + {(th.key, v)})
    case _ => s.history
  }

  /** A stale hit starts a refresher, which tries to become the leader. */
  function Spawned(cfg: Config, s: State, th: Thread, move: Move): seq<Thread> {
    if move.Read? && cfg.singleflight && FirstRead(cfg, s.cache, th.key, move.now).ServeStale?
    then [Thread(th.key, true, Acquiring)]
    else []
  }

  predicate Enabled(cfg: Config, s: State, step: Step) {
    step.Act? ==> step.t < |s.threads| && CanMove(cfg, s.reg, s.threads[step.t], step.move)
  }

  function Next(cfg: Config, s: State, step: Step): State
    requires Enabled(cfg, s, step)
  {
    match step
    case Call(key) => s.(threads := s.threads + [Thread(key, false, Reading)])
    case Drop(key) => s.(cache := s.cache - {key})
    case Act(t, move) =>
      var th := s.threads[t];
      State(s.threads[t := th.(pc := PcAfter(cfg, s, th, move))] + Spawned(cfg, s, th, move),
            RegAfter(s.reg, th, move),
            CacheAfter(cfg, s.cache, th, move),
            HistoryAfter(s, th, move))
  }

  // ---- Runs ----

  /** Every step can be taken when its turn comes. */
  predicate IsRun(cfg: Config, s: State, steps: seq<Step>)
    decreases |steps|
  {
    steps == [] || (Enabled(cfg, s, steps[0]) && IsRun(cfg, Next(cfg, s, steps[0]), steps[1..]))
  }

  function Run(cfg: Config, s: State, steps: seq<Step>): State
    requires IsRun(cfg, s, steps)
    decreases |steps|
  {
    if steps == [] then s else Run(cfg, Next(cfg, s, steps[0]), steps[1..])
  }

  // ---- Sums over the threads ----

  function Sum(threads: seq<Thread>, weight: Thread -> nat): nat {
    if threads == [] then 0 else weight(threads[0]) + Sum(threads[1..], weight)
  }

  lemma {:induction false} SumUpdate(threads: seq<Thread>, t: nat, th: Thread, weight: Thread -> nat)
    requires t < |threads|
    ensures Sum(threads[t := th], weight) + weight(threads[t]) == Sum(threads, weight) + weight(th)
  {
    if t == 0 {
      assert threads[t := th][1..] == threads[1..];
    } else {
      assert threads[t := th][1..] == threads[1..][t - 1 := th];
      SumUpdate(threads[1..], t - 1, th, weight);
    }
  }

  lemma {:induction false} SumAppend(threads: seq<Thread>, more: seq<Thread>, weight: Thread -> nat)
    ensures Sum(threads + more, weight) == Sum(threads, weight) + Sum(more, weight)
  {
    if threads == [] {
      assert threads + more == more;
    } else {
      assert (threads + more)[1..] == threads[1..] + more;
      SumAppend(threads[1..], more, weight);
    }
  }

  /** A step changes the sum by the weight of the thread that moves and of the threads that start. */
  lemma SumAfter(cfg: Config, s: State, step: Step, weight: Thread -> nat)
    requires Enabled(cfg, s, step)
    ensures var s' := Next(cfg, s, step);
            match step
            case Call(key) => Sum(s'.threads, weight) == Sum(s.threads, weight) + weight(Thread(key, false, Reading))
            case Drop(_) => s'.threads == s.threads
            case Act(t, move) =>
              var th := s.threads[t];
              Sum(s'.threads, weight) + weight(th)
              == Sum(s.threads, weight)
                 + weight(th.(pc := PcAfter(cfg, s, th, move)))
                 + Sum(Spawned(cfg, s, th, move), weight)
  {
    match step
    case Call(key) => SumAppend(s.threads, [Thread(key, false, Reading)], weight);
    case Drop(_) =>
    case Act(t, move) =>
      var th := s.threads[t];
      var th' := th.(pc := PcAfter(cfg, s, th, move));
      SumUpdate(s.threads, t, th', weight);
      SumAppend(s.threads[t := th'], Spawned(cfg, s, th, move), weight);
  }
}
