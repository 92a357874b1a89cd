/**
 What every call of a decorated function gives back, over every run: said in terms of what the call
 itself read, computed and met, which is recorded beside the protocol.
 */
module ProtocolAnswers {
  import opened Wrappers
  import opened Values
  import opened Singleflight
  import opened Swr
  import opened Protocol

  // ---- The record ----

  /** What happened to one call: an entry it found or did not find, and whether what it called raised. */
  datatype Deed =
    | Saw(entry: Option<Value>, now: real)
    | SawAgain(entry: Option<Value>)
    | ReadRaised
    | Asked(leads: bool)
    | Made(result: Option<Value>)  // None: the function raised
    | Stored(raised: bool)
    | NotStored

  function EntryAt(s: State, key: string): Option<Value> {
    if key in s.cache then Some(s.cache[key]) else None
  }

  function DeedOf(s: State, th: Thread, move: Move): seq<Deed> {
    match move
    case Read(now) => [Saw(EntryAt(s, th.key), now)]
    case ReadFails => [ReadRaised]
    case Acquire => [Asked(th.key !in s.reg.events)]
    case Reread => [SawAgain(EntryAt(s, th.key))]
    case Compute(result) => [Made(result)]
    case Store(_, _, _, _, raises) => [Stored(raises)]
    case StoreFails => [NotStored]
    case _ => []
  }

  /** The deeds of thread t over a run. */
  ghost function Deeds(cfg: Config, s: State, steps: seq<Step>, t: nat): seq<Deed>
    requires IsRun(cfg, s, steps)
    decreases |steps|
  {
    if steps == [] then []
    else
      (if steps[0].Act? && steps[0].t == t then DeedOf(s, s.threads[t], steps[0].move) else [])
      + Deeds(cfg, Next(cfg, s, steps[0]), steps[1..], t)
  }

  // ---- What the decorator promises ----

  /** The result that an entry holds. */
  function Payload(entry: Value): Value {
    match entry
    case Envelope(v, _) => v
    case _ => entry
  }

  predicate FreshHit(deed: Deed) {
    && deed.Saw? && deed.entry.Some?
    && match deed.entry.value
       case Envelope(_, Some(freshUntil)) => deed.now <= freshUntil
       case _ => true
  }

  predicate StaleHit(cfg: Config, deed: Deed) {
    && deed.Saw? && deed.entry.Some? && !FreshHit(deed)
    && cfg.stale.Some?
    && match deed.entry.value
       case Envelope(_, Some(freshUntil)) => deed.now <= freshUntil + cfg.stale.value as real
       case _ => false
  }

  predicate Served(cfg: Config, deed: Deed) {
    FreshHit(deed) || StaleHit(cfg, deed)
  }

  predicate Missed(cfg: Config, deed: Deed) {
    deed.Saw? && !Served(cfg, deed)
  }

  /** What comes before a computation: a miss, and with singleflight the group or a second miss. */
  predicate Prelude(cfg: Config, refresher: bool, deeds: seq<Deed>) {
    if refresher then deeds == [Asked(true)]
    else
      && deeds != [] && Missed(cfg, deeds[0])
      && (if cfg.singleflight then deeds[1..] == [Asked(true)] || deeds[1..] == [Asked(false), SawAgain(None)]
          else |deeds| == 1)
  }

  /** `condition` is asked about the result and raises. */
  predicate ConditionRaises(cfg: Config, v: Value) {
    (v.NoneValue? ==> cfg.cacheNone) && cfg.condition(v).None?
  }

  predicate Kept(cfg: Config, v: Value) {
    (v.NoneValue? ==> cfg.cacheNone) && cfg.condition(v) == Some(true)
  }

  /** What a call that computed gives back, by what it computed and how storing went. */
  predicate DueAfter(cfg: Config, made: Option<Value>, rest: seq<Deed>, ret: Outcome) {
    match made
    case None => rest == [] && ret == Failure
    case Some(v) =>
      if Kept(cfg, v) then
        || (rest == [Stored(false)] && ret == Answer(v))
        || (rest == [Stored(true)] && ret == Failure)
        || (rest == [NotStored] && ret == Failure)
      else rest == [] && ret == if ConditionRaises(cfg, v) then Failure else Answer(v)
  }

  /** The call computed after its first n deeds. */
  predicate Computed(cfg: Config, refresher: bool, deeds: seq<Deed>, n: nat, ret: Outcome) {
    && n < |deeds| && Prelude(cfg, refresher, deeds[..n])
    && deeds[n].Made? && DueAfter(cfg, deeds[n].result, deeds[n + 1..], ret)
  }

  /** All ways in which a call may end, with what it gives back. */
  ghost predicate Due(cfg: Config, refresher: bool, deeds: seq<Deed>, ret: Outcome) {
    || (!refresher && deeds == [ReadRaised] && ret == Failure)
    || (!refresher && |deeds| == 1 && Served(cfg, deeds[0]) && ret == Answer(Payload(deeds[0].entry.value)))
    || (!refresher && |deeds| == 3 && Missed(cfg, deeds[0]) && deeds[1] == Asked(false)
        && deeds[2].SawAgain? && deeds[2].entry.Some? && ret == Answer(Payload(deeds[2].entry.value)))
    || (!refresher && |deeds| == 3 && Missed(cfg, deeds[0]) && deeds[1..] == [Asked(false), ReadRaised]
        && ret == Failure)
    || (refresher && deeds == [Asked(false)] && ret == NoAnswer)
    || exists n: nat :: Computed(cfg, refresher, deeds, n, ret)
  }

  // ---- The record of a call fits where it stands ----

  ghost predicate Fits(cfg: Config, th: Thread, deeds: seq<Deed>) {
    match th.pc
    case Reading => !th.refresher && deeds == []
    case Acquiring =>
      && cfg.singleflight
      && if th.refresher then deeds == [] else |deeds| == 1 && Missed(cfg, deeds[0])
    case Waiting(_) => Followed(cfg, th.refresher, deeds)
    case Rereading => Followed(cfg, th.refresher, deeds)
    case Computing(_) => Prelude(cfg, th.refresher, deeds)
    case Storing(_, v) =>
      && deeds != [] && Prelude(cfg, th.refresher, deeds[..|deeds| - 1])
      && deeds[|deeds| - 1] == Made(Some(v)) && Kept(cfg, v)
    case Releasing(_, ret) => Due(cfg, th.refresher, deeds, ret)
    case Firing(_, ret) => Due(cfg, th.refresher, deeds, ret)
    case Returned(ret) => Due(cfg, th.refresher, deeds, ret)
  }

  predicate Followed(cfg: Config, refresher: bool, deeds: seq<Deed>) {
    cfg.singleflight && !refresher && |deeds| == 2 && Missed(cfg, deeds[0]) && deeds[1] == Asked(false)
  }

  /** The first read serves what the record says, and recomputes otherwise. */
  lemma FirstReadServes(cfg: Config, s: State, key: string, now: real)
    ensures var d, deed := FirstRead(cfg, s.cache, key, now), Saw(EntryAt(s, key), now);
            && (d.ServeFresh? <==> FreshHit(deed))
            && (d.ServeStale? <==> StaleHit(cfg, deed))
            && (Served(cfg, deed) ==> key in s.cache && Decode(s.cache[key]).0 == Payload(s.cache[key]))
  {}

  lemma ReadFits(cfg: Config, s: State, th: Thread, move: Move, deeds: seq<Deed>)
    requires CanMove(cfg, s.reg, th, move) && Fits(cfg, th, deeds)
    requires move.Read? || move.ReadFails? || move.Acquire? || move.Wake? || move.Reread?
    ensures Fits(cfg, th.(pc := PcAfter(cfg, s, th, move)), deeds + DeedOf(s, th, move))
  {
    if move.Read? { FirstReadServes(cfg, s, th.key, move.now); }
    var after := deeds + DeedOf(s, th, move);
    assert |deeds| == 1 ==> deeds == [deeds[0]];
    assert |deeds| == 2 ==> deeds == [deeds[0], deeds[1]];
  }

  lemma ComputeFits(cfg: Config, s: State, th: Thread, move: Move, deeds: seq<Deed>)
    requires CanMove(cfg, s.reg, th, move) && Fits(cfg, th, deeds) && move.Compute?
    ensures Fits(cfg, th.(pc := PcAfter(cfg, s, th, move)), deeds + [Made(move.result)])
  {
    var after, n := deeds + [Made(move.result)], |deeds|;
    assert after[..n] == deeds && after[n + 1..] == [] && after[n] == Made(move.result);
    hide Prelude, Missed;
    var pc := PcAfter(cfg, s, th, move);
    if pc.Releasing? || pc.Returned? { assert Computed(cfg, th.refresher, after, n, pc.ret); }
  }

  lemma StoreFits(cfg: Config, s: State, th: Thread, move: Move, deeds: seq<Deed>)
    requires CanMove(cfg, s.reg, th, move) && Fits(cfg, th, deeds) && (move.Store? || move.StoreFails?)
    ensures Fits(cfg, th.(pc := PcAfter(cfg, s, th, move)), deeds + DeedOf(s, th, move))
  {
    var after, n := deeds + DeedOf(s, th, move), |deeds| - 1;
    assert after[..n] == deeds[..n] && after[n] == deeds[n] && after[n + 1..] == DeedOf(s, th, move);
    hide Prelude, Missed;
    var pc := PcAfter(cfg, s, th, move);
    assert Computed(cfg, th.refresher, after, n, pc.ret);
  }

  lemma MoveFits(cfg: Config, s: State, th: Thread, move: Move, deeds: seq<Deed>)
    requires CanMove(cfg, s.reg, th, move) && Fits(cfg, th, deeds)
    ensures Fits(cfg, th.(pc := PcAfter(cfg, s, th, move)), deeds + DeedOf(s, th, move))
  {
    if move.Compute? {
      ComputeFits(cfg, s, th, move, deeds);
    } else if move.Store? || move.StoreFails? {
      StoreFits(cfg, s, th, move, deeds);
    } else if move.Pop? || move.Fire? {
      assert deeds + DeedOf(s, th, move) == deeds;
    } else {
      ReadFits(cfg, s, th, move, deeds);
    }
  }

  /** The record of thread t fits; a thread that has not started has none. */
  ghost predicate ThreadFits(cfg: Config, s: State, t: nat, deeds: seq<Deed>) {
    if t < |s.threads| then Fits(cfg, s.threads[t], deeds) else deeds == []
  }

  lemma StepFits(cfg: Config, s: State, step: Step, t: nat, deeds: seq<Deed>)
    requires Enabled(cfg, s, step) && ThreadFits(cfg, s, t, deeds)
    ensures var more := if step.Act? && step.t == t then DeedOf(s, s.threads[t], step.move) else [];
            ThreadFits(cfg, Next(cfg, s, step), t, deeds + more)
  {
    assert deeds + [] == deeds;
    if step.Act? {
      if step.t == t { MoveFits(cfg, s, s.threads[t], step.move, deeds); }
      hide PcAfter, Due, Prelude, Missed;
    }
  }

  lemma {:induction false} RunFits(cfg: Config, s: State, steps: seq<Step>, t: nat, deeds: seq<Deed>)
    requires IsRun(cfg, s, steps) && ThreadFits(cfg, s, t, deeds)
    ensures ThreadFits(cfg, Run(cfg, s, steps), t, deeds + Deeds(cfg, s, steps, t))
    decreases |steps|
  {
    hide ThreadFits, Next;
    if steps == [] {
      assert deeds + [] == deeds;
    } else {
      var more := if steps[0].Act? && steps[0].t == t then DeedOf(s, s.threads[t], steps[0].move) else [];
      StepFits(cfg, s, steps[0], t, deeds);
      RunFits(cfg, Next(cfg, s, steps[0]), steps[1..], t, deeds + more);
      assert deeds + (more + Deeds(cfg, Next(cfg, s, steps[0]), steps[1..], t))
             == (deeds + more) + Deeds(cfg, Next(cfg, s, steps[0]), steps[1..], t);
    }
  }

  // ---- Every answer is due ----

  /** After any run, every call that has returned gave back what its own record makes due. */
  lemma AnswersAreDue(cfg: Config, cache: map<string, Value>, steps: seq<Step>, t: nat)
    requires IsRun(cfg, IDLE.(cache := cache), steps)
    ensures var s := Run(cfg, IDLE.(cache := cache), steps);
            t < |s.threads| && s.threads[t].pc.Returned? ==>
              Due(cfg, s.threads[t].refresher, Deeds(cfg, IDLE.(cache := cache), steps, t), s.threads[t].pc.ret)
  {
    var start := IDLE.(cache := cache);
    RunFits(cfg, start, steps, t, []);
    assert [] + Deeds(cfg, start, steps, t) == Deeds(cfg, start, steps, t);
    hide Due;
  }

  /** Something the call relied on raised: a read, the function, `condition`, or the store. */
  ghost predicate MetRaise(cfg: Config, deeds: seq<Deed>) {
    exists i :: 0 <= i < |deeds| &&
      match deeds[i]
      case ReadRaised => true
      case Made(None) => true
      case Made(Some(v)) => ConditionRaises(cfg, v)
      case Stored(raised) => raised
      case NotStored => true
      case _ => false
  }

  ghost predicate Did(deeds: seq<Deed>, deed: Deed) {
    exists i :: 0 <= i < |deeds| && deeds[i] == deed
  }

  lemma PreludeIsQuiet(cfg: Config, refresher: bool, deeds: seq<Deed>)
    requires Prelude(cfg, refresher, deeds)
    ensures !MetRaise(cfg, deeds)
    ensures forall i | 0 <= i < |deeds| :: !deeds[i].Made? && !deeds[i].Stored? && !deeds[i].NotStored?
    ensures forall i | 0 <= i < |deeds| && deeds[i].Saw? :: !Served(cfg, deeds[i])
    ensures forall i | 0 <= i < |deeds| && deeds[i].SawAgain? :: deeds[i].entry.None?
    ensures refresher ==> !Did(deeds, Asked(false))
  {
    if !refresher {
      assert forall i | 1 <= i < |deeds| :: deeds[i] == deeds[1..][i - 1];
    }
  }

  lemma LaterDeeds(deeds: seq<Deed>, n: nat)
    requires n < |deeds|
    ensures forall i | 0 <= i < n :: deeds[i] == deeds[..n][i]
    ensures forall i | n < i < |deeds| :: deeds[i] == deeds[n + 1..][i - n - 1]
  {}

  /** The facts about a call that computed, from the shape of its record. */
  lemma ComputedFacts(cfg: Config, refresher: bool, deeds: seq<Deed>, n: nat, ret: Outcome)
    requires Computed(cfg, refresher, deeds, n, ret)
    ensures ret.Failure? <==> MetRaise(cfg, deeds)
    ensures !ret.NoAnswer? && (refresher ==> !Did(deeds, Asked(false)))
    ensures forall i | 0 <= i < |deeds| && deeds[i].Made? :: i == n
    ensures forall i | 0 <= i < |deeds| && deeds[i].Saw? :: !Served(cfg, deeds[i])
    ensures forall i | 0 <= i < |deeds| && deeds[i].SawAgain? :: deeds[i].entry.None?
    ensures deeds[n].result.Some? && !MetRaise(cfg, deeds) ==> ret == Answer(deeds[n].result.value)
    ensures deeds[n].result.Some? ==>
              (Kept(cfg, deeds[n].result.value)
               <==> Did(deeds, Stored(false)) || Did(deeds, Stored(true)) || Did(deeds, NotStored))
  {
    PreludeIsQuiet(cfg, refresher, deeds[..n]);
    LaterDeeds(deeds, n);
    hide Prelude, Served;
    if deeds[n].result.Some? && Kept(cfg, deeds[n].result.value) { assert deeds[n + 1..][0] == deeds[n + 1]; }
  }

  /**
   After any run, for every call that has returned: a call that computed a result and met no raise
   gives back exactly that result, cached or not, and hands it to the store exactly when it is to
   be kept; a first read that is served, and a second read that hits, give back what the entry of
   that moment holds; a failure means that something raised, and nothing at all is given back only
   by a refresher that did not lead.
   */
  lemma AnswersFollowDeeds(cfg: Config, cache: map<string, Value>, steps: seq<Step>, t: nat)
    requires IsRun(cfg, IDLE.(cache := cache), steps)
    ensures var s, deeds := Run(cfg, IDLE.(cache := cache), steps), Deeds(cfg, IDLE.(cache := cache), steps, t);
            t < |s.threads| && s.threads[t].pc.Returned? ==>
              var ret := s.threads[t].pc.ret;
              && (ret.Failure? <==> MetRaise(cfg, deeds))
              && (ret.NoAnswer? <==> s.threads[t].refresher && Did(deeds, Asked(false)))
              && (forall i | 0 <= i < |deeds| && deeds[i].Made? && deeds[i].result.Some? && !MetRaise(cfg, deeds) ::
                    ret == Answer(deeds[i].result.value))
              && (forall i | 0 <= i < |deeds| && deeds[i].Made? && deeds[i].result.Some? ::
                    Kept(cfg, deeds[i].result.value)
                    <==> Did(deeds, Stored(false)) || Did(deeds, Stored(true)) || Did(deeds, NotStored))
              && (forall i | 0 <= i < |deeds| && deeds[i].Saw? && Served(cfg, deeds[i]) ::
                    ret == Answer(Payload(deeds[i].entry.value)))
              && (forall i | 0 <= i < |deeds| && deeds[i].SawAgain? && deeds[i].entry.Some? ::
                    ret == Answer(Payload(deeds[i].entry.value)))
  {
    AnswersAreDue(cfg, cache, steps, t);
    var s := Run(cfg, IDLE.(cache := cache), steps);
    if t < |s.threads| && s.threads[t].pc.Returned? {
      DueFacts(cfg, s.threads[t].refresher, Deeds(cfg, IDLE.(cache := cache), steps, t), s.threads[t].pc.ret);
    }
  }

  lemma DueFacts(cfg: Config, refresher: bool, deeds: seq<Deed>, ret: Outcome)
    requires Due(cfg, refresher, deeds, ret)
    ensures ret.Failure? <==> MetRaise(cfg, deeds)
    ensures ret.NoAnswer? <==> refresher && Did(deeds, Asked(false))
    ensures forall i | 0 <= i < |deeds| && deeds[i].Made? && deeds[i].result.Some? && !MetRaise(cfg, deeds) ::
              ret == Answer(deeds[i].result.value)
    ensures forall i | 0 <= i < |deeds| && deeds[i].Made? && deeds[i].result.Some? ::
              Kept(cfg, deeds[i].result.value)
              <==> Did(deeds, Stored(false)) || Did(deeds, Stored(true)) || Did(deeds, NotStored)
    ensures forall i | 0 <= i < |deeds| && deeds[i].Saw? && Served(cfg, deeds[i]) ::
              ret == Answer(Payload(deeds[i].entry.value))
    ensures forall i | 0 <= i < |deeds| && deeds[i].SawAgain? && deeds[i].entry.Some? ::
              ret == Answer(Payload(deeds[i].entry.value))
  {
    if n: nat :| Computed(cfg, refresher, deeds, n, ret) {
      ComputedFacts(cfg, refresher, deeds, n, ret);
      hide Computed, Served, Kept, MetRaise;
    } else {
      ShortFacts(cfg, refresher, deeds, ret);
      hide Served, Kept, MetRaise;
    }
  }

  /** The ways to end without computing. */
  lemma ShortFacts(cfg: Config, refresher: bool, deeds: seq<Deed>, ret: Outcome)
    requires Due(cfg, refresher, deeds, ret) && !exists n: nat :: Computed(cfg, refresher, deeds, n, ret)
    ensures ret.Failure? <==> MetRaise(cfg, deeds)
    ensures ret.NoAnswer? <==> refresher && Did(deeds, Asked(false))
    ensures forall i | 0 <= i < |deeds| :: !deeds[i].Made?
    ensures forall i | 0 <= i < |deeds| && deeds[i].Saw? && Served(cfg, deeds[i]) ::
              ret == Answer(Payload(deeds[i].entry.value))
    ensures forall i | 0 <= i < |deeds| && deeds[i].SawAgain? && deeds[i].entry.Some? ::
              ret == Answer(Payload(deeds[i].entry.value))
  {
    assert deeds != [] && deeds[0] == deeds[..1][0];
    if |deeds| == 3 { assert deeds[1..][0] == deeds[1] && deeds[1..][1] == deeds[2]; }
    if ret.Failure? { assert deeds[|deeds| - 1] == ReadRaised; }
    if ret.NoAnswer? { assert deeds[0] == Asked(false); }
  }

  // ---- Refreshers ----

  /**
   A first read starts a refresher of its key exactly when singleflight is on and it served a stale
   entry, and no other move starts a thread.
   */
  lemma RefresherIffStale(cfg: Config, s: State, t: nat, move: Move)
    requires Enabled(cfg, s, Act(t, move))
    ensures var key, s' := s.threads[t].key, Next(cfg, s, Act(t, move));
            if cfg.singleflight && move.Read? && StaleHit(cfg, Saw(EntryAt(s, key), move.now))
            then |s'.threads| == |s.threads| + 1 && s'.threads[|s.threads|] == Thread(key, true, Acquiring)
            else |s'.threads| == |s.threads|
  {
    if move.Read? { FirstReadServes(cfg, s, s.threads[t].key, move.now); }
  }
}
