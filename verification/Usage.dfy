/**
 The plain access history that both eviction policies of `cachine/strategies/eviction.py`
 refine: for every tracked key, how often it was accessed since it was last inserted and when
 it was accessed last.  A recency policy orders keys by the time of last access; a frequency
 policy orders them by the count and breaks ties by that time.
 */
module Usage {
  import opened Wrappers

  datatype Stat = Stat(count: nat, last: nat)

  datatype Kind = Recency | Frequency

  /** `clock` counts the accesses noted so far. */
  datatype Table = Table(stats: map<string, Stat>, clock: nat)

  const EMPTY := Table(map[], 0)

  predicate Before(kind: Kind, a: Stat, b: Stat) {
    match kind
    case Recency => a.last < b.last
    case Frequency => a.count < b.count || (a.count == b.count && a.last < b.last)
  }

  /** Every access time is in the past and belongs to one key only. */
  ghost predicate WellFormed(t: Table) {
    && (forall k | k in t.stats :: 1 <= t.stats[k].count && t.stats[k].last < t.clock)
    && (forall j, k | j in t.stats && k in t.stats && j != k :: t.stats[j].last != t.stats[k].last)
  }

  function Access(t: Table, k: string): (r: Table)
    ensures r.stats.Keys == t.stats.Keys + {k}
  {
    var count := if k in t.stats then t.stats[k].count else 0;
    Table(t.stats[k := Stat(count + 1, t.clock)], t.clock + 1)
  }

  function Forget(t: Table, ks: set<string>): (r: Table)
    ensures r.stats.Keys == t.stats.Keys - ks
  {
    Table(t.stats - ks, t.clock)
  }

  ghost predicate IsVictim(kind: Kind, t: Table, k: string) {
    && k in t.stats
    && forall j | j in t.stats && j != k :: Before(kind, t.stats[k], t.stats[j])
  }

  /** The key an eviction has to pick: the least one in the order of the policy. */
  ghost function Victim(kind: Kind, t: Table): (v: Option<string>)
    ensures v.Some? ==> IsVictim(kind, t, v.value)
    ensures v.None? ==> forall k :: !IsVictim(kind, t, k)
  {
    if exists k :: IsVictim(kind, t, k) then
      var k :| IsVictim(kind, t, k);
      Some(k)
    else
      None
  }

  lemma VictimIsUnique(kind: Kind, t: Table, k: string)
    requires IsVictim(kind, t, k)
    ensures Victim(kind, t) == Some(k)
  {}

  lemma AccessKeepsWellFormed(t: Table, k: string)
    requires WellFormed(t)
    ensures WellFormed(Access(t, k))
  {}

  lemma BeforeIsTransitive(kind: Kind, a: Stat, b: Stat, c: Stat)
    requires Before(kind, a, b) && Before(kind, b, c)
    ensures Before(kind, a, c)
  {}

  /** Adding one key to a table keeps the old victim or makes the new key the victim. */
  lemma VictimAfterAdding(kind: Kind, t: Table, k: string, v: string)
    requires WellFormed(t) && k in t.stats
    requires IsVictim(kind, Forget(t, {k}), v)
    ensures exists w :: IsVictim(kind, t, w)
  {
    assert v in t.stats && v != k;
    if Before(kind, t.stats[k], t.stats[v]) {
      forall j | j in t.stats && j != k ensures Before(kind, t.stats[k], t.stats[j]) {
        if j != v {
          assert j in Forget(t, {k}).stats;
          BeforeIsTransitive(kind, t.stats[k], t.stats[v], t.stats[j]);
        }
      }
      assert IsVictim(kind, t, k);
    } else {
      assert Before(kind, t.stats[v], t.stats[k]);
      forall j | j in t.stats && j != v ensures Before(kind, t.stats[v], t.stats[j]) {
        if j != k { assert j in Forget(t, {k}).stats; }
      }
      assert IsVictim(kind, t, v);
    }
  }

  /** Some key is the victim as soon as any key is tracked. */
  lemma {:induction false} VictimExists(kind: Kind, t: Table)
    requires WellFormed(t) && t.stats != map[]
    ensures Victim(kind, t).Some?
    decreases |t.stats.Keys|
  {
    var k :| k in t.stats;
    var rest := Forget(t, {k});
    assert rest.stats.Keys == t.stats.Keys - {k};
    if rest.stats == map[] {
      assert rest.stats.Keys == {};
      assert t.stats.Keys == {k};
      assert IsVictim(kind, t, k);
    } else {
      VictimExists(kind, rest);
      VictimAfterAdding(kind, t, k, Victim(kind, rest).value);
    }
  }

  // ---- The table is a faithful digest of the whole history ----

  datatype Event = Accessed(key: string) | Dropped(key: string)

  ghost function Digest(h: seq<Event>): Table {
    if h == [] then EMPTY
    else
      match h[|h| - 1]
      case Accessed(k) => Access(Digest(h[..|h| - 1]), k)
      case Dropped(k) => Forget(Digest(h[..|h| - 1]), {k})
  }

  /** The position of the latest removal of k, or -1. */
  ghost function LastDrop(h: seq<Event>, k: string): (p: int)
    ensures -1 <= p < |h|
    ensures p >= 0 ==> h[p] == Dropped(k)
    ensures forall i | p < i < |h| :: h[i] != Dropped(k)
  {
    if h == [] then -1
    else if h[|h| - 1] == Dropped(k) then |h| - 1
    else LastDrop(h[..|h| - 1], k)
  }

  /** The positions at which k was accessed since it was last inserted. */
  ghost function Accesses(h: seq<Event>, k: string): set<nat> {
    set i: nat | LastDrop(h, k) < i < |h| && h[i] == Accessed(k)
  }

  ghost predicate Latest(h: seq<Event>, k: string, i: nat) {
    i in Accesses(h, k) && forall j | j in Accesses(h, k) :: j <= i
  }

  /** How many accesses, of any key, happened before position i. */
  ghost function ClockAt(h: seq<Event>, i: nat): nat
    requires i <= |h|
  {
    if i == 0 then 0 else ClockAt(h, i - 1) + (if h[i - 1].Accessed? then 1 else 0)
  }

  lemma {:induction false} ClockGrows(h: seq<Event>, i: nat, j: nat)
    requires i < j <= |h| && h[i].Accessed?
    ensures ClockAt(h, i) < ClockAt(h, j)
    decreases j
  {
    if i + 1 < j { ClockGrows(h, i, j - 1); }
  }

  lemma {:induction false} ClockOfPrefix(h: seq<Event>, e: Event, i: nat)
    requires i <= |h|
    ensures ClockAt(h + [e], i) == ClockAt(h, i)
  {
    if i > 0 { ClockOfPrefix(h, e, i - 1); }
  }

  /** What one more event does to the accesses of k. */
  lemma AccessesAfter(h: seq<Event>, e: Event, k: string)
    ensures e == Accessed(k) ==> Accesses(h + [e], k) == Accesses(h, k) + {|h|}
    ensures e == Dropped(k) ==> Accesses(h + [e], k) == {}
    ensures e.key != k ==> Accesses(h + [e], k) == Accesses(h, k)
  {}

  ghost predicate Matches(h: seq<Event>, t: Table, k: string) {
    && (k in t.stats <==> Accesses(h, k) != {})
    && (k in t.stats ==>
          && t.stats[k].count == |Accesses(h, k)|
          && exists i: nat :: i < |h| && Latest(h, k, i) && t.stats[k].last == ClockAt(h, i))
  }

  lemma {:induction false} MatchesAfterAccess(h: seq<Event>, t: Table, k: string)
    requires Matches(h, t, k) && t.clock == ClockAt(h, |h|)
    ensures Matches(h + [Accessed(k)], Access(t, k), k)
  {
    var e := Accessed(k);
    AccessesAfter(h, e, k);
    ClockOfPrefix(h, e, |h|);
    assert Latest(h + [e], k, |h|);
    assert k !in t.stats ==> Accesses(h + [e], k) == {|h|};
  }

  lemma MatchesAfterOther(h: seq<Event>, t: Table, e: Event, t': Table, k: string)
    requires Matches(h, t, k) && e.key != k
    requires k in t'.stats <==> k in t.stats
    requires k in t.stats ==> t'.stats[k] == t.stats[k]
    ensures Matches(h + [e], t', k)
  {
    AccessesAfter(h, e, k);
    if k in t.stats {
      var i: nat :| i < |h| && Latest(h, k, i) && t.stats[k].last == ClockAt(h, i);
      ClockOfPrefix(h, e, i);
      assert Latest(h + [e], k, i);
    }
  }

  /**
   The digest of every history tracks exactly the keys accessed since their last removal, with
   the number of those accesses and the time of the latest one.
   */
  lemma {:induction false} DigestIsHistory(h: seq<Event>, k: string)
    ensures Digest(h).clock == ClockAt(h, |h|)
    ensures Matches(h, Digest(h), k)
  {
    if h != [] {
      var n := |h| - 1;
      var g, e := h[..n], h[n];
      assert h == g + [e];
      DigestIsHistory(g, k);
      ClockOfPrefix(g, e, n);
      if e == Accessed(k) {
        MatchesAfterAccess(g, Digest(g), k);
      } else if e == Dropped(k) {
        AccessesAfter(g, e, k);
      } else {
        MatchesAfterOther(g, Digest(g), e, Digest(h), k);
      }
    }
  }

  lemma {:induction false} DigestIsWellFormed(h: seq<Event>)
    ensures WellFormed(Digest(h))
  {
    if h != [] { DigestIsWellFormed(h[..|h| - 1]); }
  }

  /** k loses against j: fewer accesses since insertion, or as many and an older latest one. */
  ghost predicate UsedLess(kind: Kind, h: seq<Event>, k: string, j: string) {
    || (kind.Frequency? && |Accesses(h, k)| < |Accesses(h, j)|)
    || ((kind.Frequency? ==> |Accesses(h, k)| == |Accesses(h, j)|)
        && exists a: nat, b: nat :: Latest(h, k, a) && Latest(h, j, b) && a < b)
  }

  /** k is tracked, and every other tracked key was used more since it was last inserted. */
  ghost predicate LeastUsed(kind: Kind, h: seq<Event>, k: string) {
    Accesses(h, k) != {} && forall j | j != k && Accesses(h, j) != {} :: UsedLess(kind, h, k, j)
  }

  lemma LatestIsUnique(h: seq<Event>, k: string, a: nat, b: nat)
    requires Latest(h, k, a) && Latest(h, k, b)
    ensures a == b
  {}

  lemma ClockOrder(h: seq<Event>, k: string, j: string, a: nat, b: nat)
    requires Latest(h, k, a) && Latest(h, j, b) && a < |h| && b < |h|
    ensures ClockAt(h, a) < ClockAt(h, b) <==> a < b
  {
    if a < b { ClockGrows(h, a, b); }
    if b < a { ClockGrows(h, b, a); }
  }

  lemma BeforeIsUsedLess(kind: Kind, h: seq<Event>, k: string, j: string)
    requires k in Digest(h).stats && j in Digest(h).stats
    ensures Before(kind, Digest(h).stats[k], Digest(h).stats[j]) <==> UsedLess(kind, h, k, j)
  {
    DigestIsHistory(h, k);
    DigestIsHistory(h, j);
    var a: nat :| a < |h| && Latest(h, k, a) && Digest(h).stats[k].last == ClockAt(h, a);
    var b: nat :| b < |h| && Latest(h, j, b) && Digest(h).stats[j].last == ClockAt(h, b);
    ClockOrder(h, k, j, a, b);
    forall a', b' | Latest(h, k, a') && Latest(h, j, b') ensures a' == a && b' == b {
      LatestIsUnique(h, k, a, a');
      LatestIsUnique(h, j, b, b');
    }
  }

  /**
   For every history, the victim is exactly the tracked key that was used least in the sense
   of the policy, and there is none only when nothing is tracked.
   */
  lemma VictimByHistory(kind: Kind, h: seq<Event>, k: string)
    ensures Victim(kind, Digest(h)) == Some(k) <==> LeastUsed(kind, h, k)
    ensures Victim(kind, Digest(h)).None? <==> forall j :: Accesses(h, j) == {}
  {
    var t := Digest(h);
    DigestIsWellFormed(h);
    forall j ensures j in t.stats <==> Accesses(h, j) != {} { DigestIsHistory(h, j); }
    if k in t.stats {
      forall j | j in t.stats
        ensures Before(kind, t.stats[k], t.stats[j]) <==> UsedLess(kind, h, k, j)
      {
        BeforeIsUsedLess(kind, h, k, j);
      }
      if IsVictim(kind, t, k) { VictimIsUnique(kind, t, k); }
    }
    if t.stats != map[] { VictimExists(kind, t); }
    if Victim(kind, t).Some? { assert Victim(kind, t).value in t.stats; }
  }
}
