/**
 Whole traces of a policy object of `cachine/strategies/eviction.py`: what `evict_one` returns,
 said in terms of the calls that came before.
 */
module EvictionTraces {
  import opened Wrappers
  import opened Usage
  import Eviction

  datatype PolicyCall = NoteAccess(key: string) | NoteRemove(key: string) | EvictOne

  /** What one call does to the table, as the methods of both policies promise, and to the history. */
  ghost function StepOf(kind: Kind, t: Table, call: PolicyCall): (Table, seq<Event>) {
    match call
    case NoteAccess(k) => (Access(t, k), [Accessed(k)])
    case NoteRemove(k) => (Forget(t, {k}), [Dropped(k)])
    case EvictOne =>
      match Victim(kind, t)
      case None => (t, [])
      case Some(v) => (Forget(t, {v}), [Dropped(v)])
  }

  ghost function TableAfter(kind: Kind, t: Table, calls: seq<PolicyCall>): Table
    decreases |calls|
  {
    if calls == [] then t else TableAfter(kind, StepOf(kind, t, calls[0]).0, calls[1..])
  }

  ghost function HistoryOf(kind: Kind, t: Table, calls: seq<PolicyCall>): seq<Event>
    decreases |calls|
  {
    if calls == [] then []
    else StepOf(kind, t, calls[0]).1 + HistoryOf(kind, StepOf(kind, t, calls[0]).0, calls[1..])
  }

  lemma StepIsDigested(kind: Kind, h: seq<Event>, call: PolicyCall)
    ensures StepOf(kind, Digest(h), call).0 == Digest(h + StepOf(kind, Digest(h), call).1)
  {
    var e := StepOf(kind, Digest(h), call).1;
    if e == [] {
      assert h + e == h;
    } else {
      var g := h + [e[0]];
      assert h + e == g && g[..|g| - 1] == h;
    }
  }

  lemma {:induction false} TraceIsDigested(kind: Kind, h: seq<Event>, calls: seq<PolicyCall>)
    ensures TableAfter(kind, Digest(h), calls) == Digest(h + HistoryOf(kind, Digest(h), calls))
    decreases |calls|
  {
    hide StepOf, Digest;
    if calls == [] {
      assert h + [] == h;
    } else {
      var (t, e) := StepOf(kind, Digest(h), calls[0]);
      StepIsDigested(kind, h, calls[0]);
      TraceIsDigested(kind, h + e, calls[1..]);
      assert h + (e + HistoryOf(kind, t, calls[1..])) == (h + e) + HistoryOf(kind, t, calls[1..]);
    }
  }

  /**
   After every trace of `note_access`, `note_remove` and `evict_one`, the next `evict_one` returns
   exactly the tracked key that was used least since it was last inserted, and nothing only when
   nothing is tracked.
   */
  lemma EvictionByTrace(kind: Kind, calls: seq<PolicyCall>, k: string)
    ensures var h := HistoryOf(kind, EMPTY, calls);
            && (Victim(kind, TableAfter(kind, EMPTY, calls)) == Some(k) <==> LeastUsed(kind, h, k))
            && (Victim(kind, TableAfter(kind, EMPTY, calls)).None? <==> forall j :: Accesses(h, j) == {})
  {
    TraceIsDigested(kind, [], calls);
    assert [] + HistoryOf(kind, EMPTY, calls) == HistoryOf(kind, EMPTY, calls);
    VictimByHistory(kind, HistoryOf(kind, EMPTY, calls), k);
  }

  // ---- On the objects ----

  lemma {:induction false} TableOneMore(kind: Kind, t: Table, calls: seq<PolicyCall>, i: nat)
    requires i < |calls|
    ensures TableAfter(kind, t, calls[..i + 1]) == StepOf(kind, TableAfter(kind, t, calls[..i]), calls[i]).0
    decreases i
  {
    hide StepOf;
    assert calls[..i + 1][0] == calls[0] && calls[..i + 1][1..] == calls[1..][..i];
    if i > 0 {
      assert calls[..i][0] == calls[0] && calls[..i][1..] == calls[1..][..i - 1];
      TableOneMore(kind, StepOf(kind, t, calls[0]).0, calls[1..], i - 1);
    }
  }

  /** The answers of `evict_one` are the least used keys of the calls before it, None when nothing is tracked. */
  ghost predicate RightAnswers(kind: Kind, calls: seq<PolicyCall>, answers: seq<Option<string>>) {
    && |answers| == |calls|
    && (forall i, k | 0 <= i < |calls| && calls[i].EvictOne? ::
          answers[i] == Some(k) <==> LeastUsed(kind, HistoryOf(kind, EMPTY, calls[..i]), k))
    && (forall i | 0 <= i < |calls| && calls[i].EvictOne? ::
          answers[i].None? <==> forall j :: Accesses(HistoryOf(kind, EMPTY, calls[..i]), j) == {})
  }

  lemma AnswersAreRight(kind: Kind, calls: seq<PolicyCall>, answers: seq<Option<string>>)
    requires |answers| == |calls|
    requires forall i | 0 <= i < |calls| && calls[i].EvictOne? ::
               answers[i] == Victim(kind, TableAfter(kind, EMPTY, calls[..i]))
    ensures RightAnswers(kind, calls, answers)
  {
    hide LeastUsed, HistoryOf, TableAfter, Victim, Accesses;
    forall i, k | 0 <= i < |calls| && calls[i].EvictOne?
      ensures answers[i] == Some(k) <==> LeastUsed(kind, HistoryOf(kind, EMPTY, calls[..i]), k)
      ensures answers[i].None? <==> forall j :: Accesses(HistoryOf(kind, EMPTY, calls[..i]), j) == {}
    {
      EvictionByTrace(kind, calls[..i], k);
    }
    forall i | 0 <= i < |calls| && calls[i].EvictOne?
      ensures answers[i].None? <==> forall j :: Accesses(HistoryOf(kind, EMPTY, calls[..i]), j) == {}
    {
      EvictionByTrace(kind, calls[..i], "");
    }
  }

  /** A whole trace on an LRU object that is new. */
  method ReplayLru(lru: Eviction.LruEviction, calls: seq<PolicyCall>) returns (answers: seq<Option<string>>)
    requires lru.Valid() && lru.table == EMPTY
    modifies lru
    ensures lru.Valid() && lru.table == TableAfter(Recency, EMPTY, calls)
    ensures RightAnswers(Recency, calls, answers)
  {
    hide TableAfter, RightAnswers, Access, Forget, WellFormed;
    answers := [];
    StartOfTrace(Recency, calls);
    for i := 0 to |calls|
      invariant lru.Valid() && lru.table == TableAfter(Recency, EMPTY, calls[..i])
      invariant |answers| == i
      invariant forall j | 0 <= j < i && calls[j].EvictOne? ::
                  answers[j] == Victim(Recency, TableAfter(Recency, EMPTY, calls[..j]))
    {
      TableOneMore(Recency, EMPTY, calls, i);
      var answer := None;
      match calls[i] {
        case NoteAccess(k) => lru.NoteAccess(k);
        case NoteRemove(k) => lru.NoteRemove(k);
        case EvictOne => answer := lru.EvictOne();
      }
      answers := answers + [answer];
    }
    assert calls[..|calls|] == calls;
    AnswersAreRight(Recency, calls, answers);
  }

  /** A whole trace on an LFU object that is new. */
  method ReplayLfu(lfu: Eviction.LfuEviction, calls: seq<PolicyCall>) returns (answers: seq<Option<string>>)
    requires lfu.Valid() && lfu.table == EMPTY
    modifies lfu
    ensures lfu.Valid() && lfu.table == TableAfter(Frequency, EMPTY, calls)
    ensures RightAnswers(Frequency, calls, answers)
  {
    hide TableAfter, RightAnswers, Access, Forget, WellFormed;
    answers := [];
    StartOfTrace(Frequency, calls);
    for i := 0 to |calls|
      invariant lfu.Valid() && lfu.table == TableAfter(Frequency, EMPTY, calls[..i])
      invariant |answers| == i
      invariant forall j | 0 <= j < i && calls[j].EvictOne? ::
                  answers[j] == Victim(Frequency, TableAfter(Frequency, EMPTY, calls[..j]))
    {
      TableOneMore(Frequency, EMPTY, calls, i);
      var answer := None;
      match calls[i] {
        case NoteAccess(k) => lfu.NoteAccess(k);
        case NoteRemove(k) => lfu.NoteRemove(k);
        case EvictOne => answer := lfu.EvictOne();
      }
      answers := answers + [answer];
    }
    assert calls[..|calls|] == calls;
    AnswersAreRight(Frequency, calls, answers);
  }

  lemma StartOfTrace(kind: Kind, calls: seq<PolicyCall>)
    ensures TableAfter(kind, EMPTY, calls[..0]) == EMPTY
  {}
}
