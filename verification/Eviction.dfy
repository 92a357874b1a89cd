/**
 The eviction policies of `cachine/strategies/eviction.py`, with their structures changed in
 place.  Each keeps, as ghost state, the plain access table of module Usage; `Valid()` ties the
 real structures to it, and `EvictOne` is proved to return the victim that the table determines.
 */
module Eviction {
  import opened Wrappers
  import opened Usage

  // ---- Insertion-ordered keys ----

  /** The order that remains when k is popped from an ordered dictionary. */
  function Without(s: seq<string>, k: string): (r: seq<string>)
    ensures |r| <= |s|
    ensures forall x :: x in r <==> x in s && x != k
  {
    if s == [] then []
    else (if s[0] == k then [] else [s[0]]) + Without(s[1..], k)
  }

  /** s lists keys in the order of their latest access. */
  ghost predicate InAccessOrder(s: seq<string>, stats: map<string, Stat>) {
    && (forall i | 0 <= i < |s| :: s[i] in stats)
    && (forall i, j | 0 <= i < j < |s| :: stats[s[i]].last < stats[s[j]].last)
  }

  lemma {:induction false} WithoutKeepsOrder(
    s: seq<string>, k: string, stats: map<string, Stat>, stats': map<string, Stat>)
    requires InAccessOrder(s, stats)
    requires forall x | x in s && x != k :: x in stats' && stats'[x] == stats[x]
    ensures InAccessOrder(Without(s, k), stats')
  {
    if s != [] {
      var rest := Without(s[1..], k);
      assert InAccessOrder(s[1..], stats);
      WithoutKeepsOrder(s[1..], k, stats, stats');
      forall x | x in rest ensures stats[s[0]].last < stats[x].last {
        var i :| 0 <= i < |s[1..]| && s[1..][i] == x;
        assert s[i + 1] == x;
      }
    }
  }

  lemma AppendKeepsOrder(s: seq<string>, k: string, stats: map<string, Stat>)
    requires InAccessOrder(s, stats) && k in stats
    requires forall x | x in s :: stats[x].last < stats[k].last
    ensures InAccessOrder(s + [k], stats)
  {}

  // ---- LRUEviction ----

  class LruEviction {
    var order: seq<string>
    ghost var table: Table

    ghost predicate Valid()
      reads this
    {
      && WellFormed(table)
      && InAccessOrder(order, table.stats)
      && forall k :: k in order <==> k in table.stats
    }

    constructor ()
      ensures Valid() && table == EMPTY
    {
      order, table := [], EMPTY;
    }

    method NoteAccess(k: string)
      requires Valid()
      modifies this
      ensures Valid() && table == Access(old(table), k)
    {
      ghost var before := table;
      table := Access(table, k);
      AccessKeepsWellFormed(before, k);
      WithoutKeepsOrder(order, k, before.stats, table.stats);
      AppendKeepsOrder(Without(order, k), k, table.stats);
      if k in order {
        order := Without(order, k) + [k];
      } else {
        WithoutAbsent(order, k);
        order := order + [k];
      }
    }

    method NoteRemove(k: string)
      requires Valid()
      modifies this
      ensures Valid() && table == Forget(old(table), {k})
    {
      ghost var before := table;
      table := Forget(table, {k});
      WithoutKeepsOrder(order, k, before.stats, table.stats);
      order := Without(order, k);
    }

    method EvictOne() returns (victim: Option<string>)
      requires Valid()
      modifies this
      ensures Valid() && victim == Victim(Recency, old(table))
      ensures table == if victim.Some? then Forget(old(table), {victim.value}) else old(table)
    {
      if order == [] {
        victim := None;
      } else {
        var k := order[0];
        assert IsVictim(Recency, table, k);
        VictimIsUnique(Recency, table, k);
        order, table := order[1..], Forget(table, {k});
        victim := Some(k);
      }
    }
  }

  lemma {:induction false} WithoutAbsent(s: seq<string>, k: string)
    requires k !in s
    ensures Without(s, k) == s
  {
    if s != [] { WithoutAbsent(s[1..], k); }
  }

  // ---- LFUEviction ----

  predicate IsLeast(s: set<nat>, m: nat) {
    m in s && forall x | x in s :: m <= x
  }

  lemma {:induction false} LeastExists(s: set<nat>)
    requires s != {}
    ensures exists m :: IsLeast(s, m)
  {
    var x :| x in s;
    if s == {x} {
      assert IsLeast(s, x);
    } else {
      LeastExists(s - {x});
      var m :| IsLeast(s - {x}, m);
      assert s == (s - {x}) + {x};
      assert IsLeast(s, if x < m then x else m);
    }
  }

  /** `min(keys, default=None)` */
  function Least(s: set<nat>): (m: Option<nat>)
    ensures m.None? <==> s == {}
    ensures m.Some? ==> m.value in s && forall x | x in s :: m.value <= x
  {
    if s == {} then None
    else
      LeastExists(s);
      var m :| IsLeast(s, m);
      Some(m)
  }

  type Buckets = map<nat, seq<string>>

  function At(buckets: Buckets, f: nat): seq<string> {
    if f in buckets then buckets[f] else []
  }

  /** s holds exactly the keys accessed f times, oldest access first. */
  ghost predicate IsBucket(s: seq<string>, f: nat, stats: map<string, Stat>) {
    && InAccessOrder(s, stats)
    && forall k :: k in s <==> k in stats && stats[k].count == f
  }

  /** Every tracked key lies in the bucket of its frequency and in no other; no bucket is empty. */
  ghost predicate BucketsHold(freq: map<string, nat>, buckets: Buckets, stats: map<string, Stat>) {
    && freq.Keys == stats.Keys
    && (forall k | k in freq :: freq[k] == stats[k].count)
    && (forall f | f in buckets :: buckets[f] != [])
    && (forall f: nat :: IsBucket(At(buckets, f), f, stats))
  }

  /** stats' differs from stats at most in the key k. */
  ghost predicate SameBut(stats: map<string, Stat>, stats': map<string, Stat>, k: string) {
    forall x | x != k :: (x in stats' <==> x in stats) && (x in stats ==> stats'[x] == stats[x])
  }

  lemma {:induction false} BucketWithout(
    s: seq<string>, f: nat, k: string, stats: map<string, Stat>, stats': map<string, Stat>)
    requires IsBucket(s, f, stats) && SameBut(stats, stats', k)
    requires k in stats' ==> stats'[k].count != f
    ensures IsBucket(Without(s, k), f, stats')
  {
    WithoutKeepsOrder(s, k, stats, stats');
  }

  lemma BucketAppended(s: seq<string>, f: nat, k: string, stats: map<string, Stat>, stats': map<string, Stat>)
    requires IsBucket(s, f, stats) && SameBut(stats, stats', k) && k !in s
    requires k in stats' && stats'[k].count == f
    requires forall x | x in stats :: stats[x].last < stats'[k].last
    ensures IsBucket(s + [k], f, stats')
  {}

  lemma BucketsElsewhere(
    freq: map<string, nat>, buckets: Buckets, stats: map<string, Stat>, stats': map<string, Stat>, k: string)
    requires BucketsHold(freq, buckets, stats) && SameBut(stats, stats', k)
    ensures forall f: nat | (k in stats ==> stats[k].count != f) && (k in stats' ==> stats'[k].count != f)
              :: IsBucket(At(buckets, f), f, stats')
  {}

  /** The buckets after `pop(key)` and `del` of a bucket that became empty. */
  function Popped(buckets: Buckets, f: nat, k: string): Buckets {
    var s := Without(At(buckets, f), k);
    if s == [] then buckets - {f} else buckets[f := s]
  }

  /** The buckets after `buckets[f][key] = None`. */
  function Pushed(buckets: Buckets, f: nat, k: string): Buckets {
    buckets[f := At(buckets, f) + [k]]
  }

  lemma PoppedAt(buckets: Buckets, f: nat, k: string)
    ensures var popped := Popped(buckets, f, k);
            forall g: nat :: At(popped, g) == if g == f then Without(At(buckets, f), k) else At(buckets, g)
    ensures (forall g | g in buckets :: buckets[g] != [])
            ==> forall g | g in Popped(buckets, f, k) :: Popped(buckets, f, k)[g] != []
  {}

  lemma PoppedHolds(freq: map<string, nat>, buckets: Buckets, t: Table, k: string)
    requires BucketsHold(freq, buckets, t.stats) && k in freq
    ensures BucketsHold(freq - {k}, Popped(buckets, freq[k], k), Forget(t, {k}).stats)
  {
    var stats' := Forget(t, {k}).stats;
    var f := freq[k];
    BucketsElsewhere(freq, buckets, t.stats, stats', k);
    assert IsBucket(At(buckets, f), f, t.stats);
    BucketWithout(At(buckets, f), f, k, t.stats, stats');
    PoppedAt(buckets, f, k);
    hide IsBucket, Popped, At, Without;
    forall g: nat ensures IsBucket(At(Popped(buckets, f, k), g), g, stats') {
      assert g != f ==> IsBucket(At(buckets, g), g, stats');
    }
  }

  lemma PushedHolds(freq: map<string, nat>, buckets: Buckets, t: Table, k: string, f: nat, stats': map<string, Stat>)
    requires WellFormed(t) && BucketsHold(freq, buckets, t.stats) && k !in freq
    requires k in stats' && stats'[k] == Stat(f, t.clock) && SameBut(t.stats, stats', k)
    ensures BucketsHold(freq[k := f], Pushed(buckets, f, k), stats')
  {
    BucketsElsewhere(freq, buckets, t.stats, stats', k);
    assert k !in At(buckets, f);
    BucketAppended(At(buckets, f), f, k, t.stats, stats');
    forall g: nat ensures IsBucket(At(Pushed(buckets, f, k), g), g, stats') {
      if g != f { assert At(Pushed(buckets, f, k), g) == At(buckets, g); }
    }
  }

  lemma BucketOfKey(freq: map<string, nat>, buckets: Buckets, t: Table, k: string)
    requires BucketsHold(freq, buckets, t.stats) && k in freq
    ensures freq[k] in buckets && k in buckets[freq[k]]
  {
    assert IsBucket(At(buckets, freq[k]), freq[k], t.stats);
  }

  lemma BucketsArePositive(freq: map<string, nat>, buckets: Buckets, t: Table)
    requires WellFormed(t) && BucketsHold(freq, buckets, t.stats)
    ensures forall f | f in buckets :: 1 <= f
  {
    forall f | f in buckets ensures 1 <= f {
      assert IsBucket(At(buckets, f), f, t.stats);
      assert buckets[f][0] in buckets[f];
    }
  }

  /** The head of the lowest bucket is the victim. */
  lemma HeadIsVictim(freq: map<string, nat>, buckets: Buckets, t: Table, m: nat)
    requires BucketsHold(freq, buckets, t.stats)
    requires Least(buckets.Keys) == Some(m)
    ensures IsVictim(Frequency, t, buckets[m][0])
    ensures buckets[m][0] in freq && freq[buckets[m][0]] == m
    ensures Without(buckets[m], buckets[m][0]) == buckets[m][1..]
  {
    var k := buckets[m][0];
    WithoutHead(At(buckets, m), t.stats);
    assert IsBucket(At(buckets, m), m, t.stats);
    assert k in buckets[m];
    forall j | j in t.stats && j != k ensures Before(Frequency, t.stats[k], t.stats[j]) {
      BucketOfKey(freq, buckets, t, j);
    }
  }

  lemma NoEmptyBucket(freq: map<string, nat>, buckets: Buckets, stats: map<string, Stat>)
    requires BucketsHold(freq, buckets, stats)
    ensures forall f | f in buckets :: buckets[f] != []
  {}

  lemma NoBucketNoKey(freq: map<string, nat>, buckets: Buckets, t: Table)
    requires BucketsHold(freq, buckets, t.stats) && buckets == map[]
    ensures t.stats == map[]
  {
    if t.stats != map[] {
      var j :| j in t.stats;
      BucketOfKey(freq, buckets, t, j);
    }
  }

  lemma UntrackedIsForgotten(freq: map<string, nat>, buckets: Buckets, t: Table, k: string)
    requires BucketsHold(freq, buckets, t.stats) && k !in freq
    ensures Forget(t, {k}) == t
  {
    assert t.stats - {k} == t.stats;
  }

  lemma {:induction false} WithoutHead(s: seq<string>, stats: map<string, Stat>)
    requires s != [] && InAccessOrder(s, stats)
    ensures Without(s, s[0]) == s[1..]
  {
    assert s[0] !in s[1..];
    WithoutAbsent(s[1..], s[0]);
  }

  lemma LeastIsUnique(s: set<nat>, m: nat)
    requires m in s && forall x | x in s :: m <= x
    ensures Least(s) == Some(m)
  {}

  /** A first access puts k into bucket 1, which then is the lowest. */
  lemma FirstAccessHolds(freq: map<string, nat>, buckets: Buckets, t: Table, k: string)
    requires WellFormed(t) && BucketsHold(freq, buckets, t.stats) && k !in freq
    ensures BucketsHold(freq[k := 1], Pushed(buckets, 1, k), Access(t, k).stats)
    ensures Least(Pushed(buckets, 1, k).Keys) == Some(1)
    ensures forall f | f in buckets :: 1 <= f
  {
    PushedHolds(freq, buckets, t, k, 1, Access(t, k).stats);
    BucketsArePositive(freq, buckets, t);
    LeastIsUnique(Pushed(buckets, 1, k).Keys, 1);
  }

  lemma LeastAfterMove(keys: set<nat>, f: nat, emptied: bool)
    requires f in keys
    ensures var least := Least(keys);
            Least((if emptied then keys - {f} else keys) + {f + 1})
            == if emptied && least == Some(f) then Some(f + 1) else least
  {
    var least := Least(keys);
    LeastIsUnique((if emptied then keys - {f} else keys) + {f + 1},
                  if emptied && least == Some(f) then f + 1 else least.value);
  }

  /** A further access puts k, popped from its old bucket, into the next one. */
  lemma FurtherAccessHolds(freq: map<string, nat>, popped: Buckets, t: Table, k: string)
    requires WellFormed(t) && k in freq && k in t.stats && freq[k] == t.stats[k].count
    requires BucketsHold(freq - {k}, popped, Forget(t, {k}).stats)
    ensures BucketsHold(freq[k := freq[k] + 1], Pushed(popped, freq[k] + 1, k), Access(t, k).stats)
  {
    var f := freq[k];
    var freq0, t0 := freq - {k}, Forget(t, {k});
    assert freq0[k := f + 1] == freq[k := f + 1];
    assert SameBut(t0.stats, Access(t, k).stats, k);
    hide BucketsHold, SameBut;
    PushedHolds(freq0, popped, t0, k, f + 1, Access(t, k).stats);
  }

  /** The lowest bucket changes only if k was alone in it. */
  lemma LeastAfterAccess(buckets: Buckets, f: nat, k: string)
    requires f in buckets
    ensures var emptied := Without(buckets[f], k) == [];
            var least := Least(buckets.Keys);
            Least(Pushed(Popped(buckets, f, k), f + 1, k).Keys)
            == if emptied && least == Some(f) then Some(f + 1) else least
  {
    var emptied := Without(buckets[f], k) == [];
    assert Pushed(Popped(buckets, f, k), f + 1, k).Keys
           == (if emptied then buckets.Keys - {f} else buckets.Keys) + {f + 1};
    LeastAfterMove(buckets.Keys, f, emptied);
  }

  lemma FrequencyIsCount(freq: map<string, nat>, buckets: Buckets, stats: map<string, Stat>, k: string)
    requires BucketsHold(freq, buckets, stats) && k in freq
    ensures k in stats && freq[k] == stats[k].count
  {}

  lemma AccessHolds(freq: map<string, nat>, buckets: Buckets, t: Table, k: string, f: nat)
    requires WellFormed(t) && BucketsHold(freq, buckets, t.stats) && k in freq && f == freq[k]
    ensures BucketsHold(freq[k := f + 1], Pushed(Popped(buckets, f, k), f + 1, k), Access(t, k).stats)
  {
    hide *;
    FrequencyIsCount(freq, buckets, t.stats, k);
    PoppedHolds(freq, buckets, t, k);
    FurtherAccessHolds(freq, Popped(buckets, f, k), t, k);
  }

  class LfuEviction {
    var freq: map<string, nat>
    var buckets: Buckets
    var minFreq: Option<nat>
    ghost var table: Table

    ghost predicate Valid()
      reads this
    {
      && WellFormed(table)
      && BucketsHold(freq, buckets, table.stats)
      && minFreq == Least(buckets.Keys)
    }

    constructor ()
      ensures Valid() && table == EMPTY
    {
      freq, buckets, minFreq, table := map[], map[], None, EMPTY;
    }

    method NoteAccess(k: string)
      requires Valid()
      modifies this
      ensures Valid() && table == Access(old(table), k)
    {
      ghost var t := table;
      table := Access(table, k);
      AccessKeepsWellFormed(t, k);
      if k !in freq {
        FirstAccessHolds(freq, buckets, t, k);
        freq := freq[k := 1];
        buckets := buckets[1 := At(buckets, 1) + [k]];
        if minFreq.None? || minFreq.value > 1 {
          minFreq := Some(1);
        }
        return;
      }
      MoveUp(k, t);
    }

    /** The part of `note_access` for a key that is already tracked. */
    method MoveUp(k: string, ghost t: Table)
      requires WellFormed(t) && BucketsHold(freq, buckets, t.stats) && k in freq
      requires minFreq == Least(buckets.Keys)
      modifies this`freq, this`buckets, this`minFreq
      ensures BucketsHold(freq, buckets, Access(t, k).stats)
      ensures minFreq == Least(buckets.Keys)
    {
      hide BucketsHold, WellFormed, Access, Without, Least, At, Popped;
      var f := freq[k];
      var nf := f + 1;
      BucketOfKey(freq, buckets, t, k);
      AccessHolds(freq, buckets, t, k, f);
      LeastAfterAccess(buckets, f, k);
      PopFrom(f, k);
      freq := freq[k := nf];
      buckets := buckets[nf := At(buckets, nf) + [k]];
    }

    method PopFrom(f: nat, k: string)
      requires f in buckets
      modifies this`buckets, this`minFreq
      ensures buckets == Popped(old(buckets), f, k)
      ensures minFreq == if Without(old(buckets)[f], k) == [] && old(minFreq) == Some(f)
                         then Some(f + 1) else old(minFreq)
    {
      buckets := buckets[f := Without(buckets[f], k)];
      if buckets[f] == [] {
        buckets := buckets - {f};
        if minFreq == Some(f) {
          minFreq := Some(f + 1);
        }
      }
    }

    method NoteRemove(k: string)
      requires Valid()
      modifies this
      ensures Valid() && table == Forget(old(table), {k})
    {
      hide BucketsHold;
      ghost var t := table;
      table := Forget(table, {k});
      if k in freq {
        BucketOfKey(freq, buckets, t, k);
        PoppedHolds(freq, buckets, t, k);
        var f := freq[k];
        freq := freq - {k};
        if f in buckets {
          ghost var popped := Popped(buckets, f, k);
          buckets := buckets[f := Without(buckets[f], k)];
          if buckets[f] == [] {
            buckets := buckets - {f};
            assert buckets == popped;
            if minFreq == Some(f) {
              minFreq := Least(buckets.Keys);
            } else {
              LeastIsUnique(buckets.Keys, minFreq.value);
            }
          } else {
            LeastIsUnique(buckets.Keys, minFreq.value);
          }
        }
      } else {
        UntrackedIsForgotten(freq, buckets, t, k);
      }
    }

    method EvictOne() returns (victim: Option<string>)
      requires Valid()
      modifies this
      ensures Valid() && victim == Victim(Frequency, old(table))
      ensures table == if victim.Some? then Forget(old(table), {victim.value}) else old(table)
    {
      hide BucketsHold;
      if minFreq.None? {
        NoBucketNoKey(freq, buckets, table);
        return None;
      }
      var m := minFreq.value;
      NoEmptyBucket(freq, buckets, table.stats);
      if m !in buckets || buckets[m] == [] {
        // The recovery branch of the source can never be reached.
        assert false;
      }
      var k := buckets[m][0];
      HeadIsVictim(freq, buckets, table, m);
      VictimIsUnique(Frequency, table, k);
      PoppedHolds(freq, buckets, table, k);
      ghost var popped := Popped(buckets, m, k);
      buckets := buckets[m := buckets[m][1..]];
      freq := freq - {k};
      table := Forget(table, {k});
      if buckets[m] == [] {
        buckets := buckets - {m};
        assert buckets == popped;
        minFreq := Least(buckets.Keys);
      } else {
        LeastIsUnique(buckets.Keys, m);
      }
      victim := Some(k);
    }
  }
}
