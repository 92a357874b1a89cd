/**
 Rate limiting with `incr(key, delta=1, ttl_if_new=W)` on one key of the SQLite cache: the calls
 fall into windows that start at least W apart, each counting 1, 2, 3, ...
 */
module FixedWindow {
  import opened Wrappers
  import opened Values
  import opened SqliteModel

  /** The results of a run of calls at the given times. */
  function Counts(db: Db, k: string, w: int, times: seq<real>): (outs: seq<Out>)
    ensures |outs| == |times|
    decreases |times|
  {
    if times == [] then []
    else
      var (db', out) := DoIncr(db, k, 1, Some(w), times[0]);
      [out] + Counts(db', k, w, times[1..])
  }

  ghost predicate NotDecreasing(times: seq<real>) {
    forall i, j | 0 <= i < j < |times| :: times[i] <= times[j]
  }

  /** The key is absent or has expired when the first call comes. */
  ghost predicate FreshAt(db: Db, k: string, times: seq<real>) {
    times != [] && k in db.data ==> !Live(db.data[k], times[0])
  }

  // ---- Windows ----

  /** The count of a call and the time at which its window was opened. */
  datatype Mark = Mark(count: int, start: real)

  /** What a call at time t makes of the mark of the call before it. */
  ghost function Next(prev: Option<Mark>, w: int, t: real): Mark {
    if prev.Some? && t < prev.value.start + w as real then Mark(prev.value.count + 1, prev.value.start)
    else Mark(1, t)
  }

  ghost function Marks(prev: Option<Mark>, w: int, times: seq<real>): (marks: seq<Mark>)
    ensures |marks| == |times|
    decreases |times|
  {
    if times == [] then [] else [Next(prev, w, times[0])] + Marks(Some(Next(prev, w, times[0])), w, times[1..])
  }

  /** The row holds the count and the deadline of the window. */
  ghost predicate Holds(db: Db, k: string, w: int, prev: Option<Mark>, times: seq<real>) {
    match prev
    case None => FreshAt(db, k, times)
    case Some(m) => k in db.data && db.data[k] == Row(Number(m.count), Some(m.start + w as real))
  }

  lemma {:induction false} CountsFollowMarks(db: Db, k: string, w: int, prev: Option<Mark>, times: seq<real>)
    requires w > 0 && Holds(db, k, w, prev, times)
    ensures forall i | 0 <= i < |times| :: Counts(db, k, w, times)[i] == Total(Marks(prev, w, times)[i].count)
    decreases |times|
  {
    if times != [] {
      var (db', out) := DoIncr(db, k, 1, Some(w), times[0]);
      CountsFollowMarks(db', k, w, Some(Next(prev, w, times[0])), times[1..]);
    }
  }

  lemma {:induction false} MarkAt(prev: Option<Mark>, w: int, times: seq<real>, i: nat)
    requires i < |times|
    ensures var marks := Marks(prev, w, times);
            marks[i] == Next(if i == 0 then prev else Some(marks[i - 1]), w, times[i])
    decreases |times|
  {
    if i > 0 { MarkAt(Some(Next(prev, w, times[0])), w, times[1..], i - 1); }
  }

  /** Every call lies in its window, and a count of 1 is the call that opened it. */
  lemma {:induction false} CallInWindow(w: int, times: seq<real>, i: nat)
    requires w > 0 && i < |times| && NotDecreasing(times)
    ensures var m := Marks(None, w, times)[i];
            && m.start <= times[i] < m.start + w as real
            && 1 <= m.count
            && (m.count == 1 ==> m.start == times[i])
  {
    MarkAt(None, w, times, i);
    if i > 0 {
      CallInWindow(w, times, i - 1);
      assert times[i - 1] <= times[i];
    }
  }

  /** Two calls share a window and count on, or their windows start at least w apart. */
  lemma {:induction false} WindowsApart(w: int, times: seq<real>, i: nat, j: nat)
    requires w > 0 && i < j < |times| && NotDecreasing(times)
    ensures var m, m' := Marks(None, w, times)[i], Marks(None, w, times)[j];
            || (m'.start == m.start && m'.count == m.count + (j - i))
            || m'.start >= m.start + w as real
    decreases j
  {
    MarkAt(None, w, times, j);
    CallInWindow(w, times, j - 1);
    if i < j - 1 { WindowsApart(w, times, i, j - 1); }
  }

  /**
   The results of the calls are 1, 2, 3, ... in each of a series of windows: every call belongs
   to a window that is open for w seconds, the calls of one window count consecutively from the
   one that opened it, and windows start at least w apart.
   */
  lemma CallsFormWindows(db: Db, k: string, w: int, times: seq<real>)
    requires w > 0 && NotDecreasing(times) && FreshAt(db, k, times)
    ensures exists starts: seq<real> :: |starts| == |times| && InWindows(Counts(db, k, w, times), starts, w, times)
  {
    var marks := Marks(None, w, times);
    var starts := seq(|times|, i requires 0 <= i < |times| => marks[i].start);
    CountsFollowMarks(db, k, w, None, times);
    forall i | 0 <= i < |times|
      ensures Counts(db, k, w, times)[i].Total? && Opens(Counts(db, k, w, times)[i].n, starts[i], w, times[i])
    {
      CallInWindow(w, times, i);
    }
    forall i, j | 0 <= i < j < |times|
      ensures Counts(db, k, w, times)[j].Total? && Counts(db, k, w, times)[i].Total?
      ensures || (starts[j] == starts[i] && Counts(db, k, w, times)[j].n == Counts(db, k, w, times)[i].n + (j - i))
              || starts[j] >= starts[i] + w as real
    {
      WindowsApart(w, times, i, j);
    }
    assert InWindows(Counts(db, k, w, times), starts, w, times);
  }

  ghost predicate Opens(count: int, start: real, w: int, t: real) {
    start <= t < start + w as real && 1 <= count && (count == 1 ==> start == t)
  }

  ghost predicate InWindows(counts: seq<Out>, starts: seq<real>, w: int, times: seq<real>)
    requires |counts| == |starts| == |times|
  {
    && (forall i | 0 <= i < |times| :: counts[i].Total? && Opens(counts[i].n, starts[i], w, times[i]))
    && (forall i, j | 0 <= i < j < |times| ::
          || (starts[j] == starts[i] && counts[j].n == counts[i].n + (j - i))
          || starts[j] >= starts[i] + w as real)
  }

  // ---- Rate limiting ----

  lemma {:induction false} DistinctCounts(s: set<nat>, counts: seq<Out>, lo: int, hi: int)
    requires forall i | i in s :: i < |counts| && counts[i].Total? && lo <= counts[i].n <= hi
    requires forall i, j | i in s && j in s && i != j :: counts[i].n != counts[j].n
    requires lo <= hi + 1
    ensures |s| <= hi - lo + 1
    decreases hi - lo + 1
  {
    if lo == hi + 1 {
      assert s == {};
    } else {
      var rest := set i | i in s && counts[i].n != hi;
      DistinctCounts(rest, counts, lo, hi - 1);
      if rest != s {
        var top :| top in s && counts[top].n == hi;
        assert s == rest + {top};
      }
    }
  }

  /** The calls of the half-open interval [a, a + w) that see a count of at most n. */
  ghost function Admitted(counts: seq<Out>, times: seq<real>, w: int, a: real, n: int): set<nat>
    requires |counts| == |times|
  {
    set i: nat | i < |times| && a <= times[i] < a + w as real && counts[i].Total? && counts[i].n <= n
  }

  lemma SameWindowDistinct(counts: seq<Out>, starts: seq<real>, w: int, times: seq<real>, i: nat, j: nat)
    requires |counts| == |starts| == |times| && InWindows(counts, starts, w, times)
    requires i < |times| && j < |times| && i != j && starts[i] < starts[j] + w as real
             && starts[j] < starts[i] + w as real
    ensures counts[i].n != counts[j].n
  {}

  /** Calls whose windows start less than w apart share a window, so their counts differ. */
  lemma OneWindowAdmits(
    counts: seq<Out>, starts: seq<real>, w: int, times: seq<real>, s: set<nat>, from: real, lo: int, n: int)
    requires |counts| == |starts| == |times| && InWindows(counts, starts, w, times) && lo <= n + 1
    requires forall i | i in s :: i < |times| && from <= starts[i] < from + w as real && lo <= counts[i].n <= n
    ensures |s| <= n - lo + 1
  {
    forall i, j | i in s && j in s && i != j ensures counts[i].n != counts[j].n {
      SameWindowDistinct(counts, starts, w, times, i, j);
    }
    hide InWindows;
    DistinctCounts(s, counts, lo, n);
  }

  /**
   In any half-open interval as long as the window, fewer than 2n calls see a count of at most
   n: those of the window that is open when the interval begins, which no longer include its
   first call, and those of the one window that starts in the interval.
   */
  lemma RateLimit(db: Db, k: string, w: int, times: seq<real>, a: real, n: int)
    requires w > 0 && n >= 1 && NotDecreasing(times) && FreshAt(db, k, times)
    ensures |Admitted(Counts(db, k, w, times), times, w, a, n)| <= 2 * n - 1
  {
    CallsFormWindows(db, k, w, times);
    var counts := Counts(db, k, w, times);
    var starts: seq<real> :| |starts| == |times| && InWindows(counts, starts, w, times);
    AdmittedBound(counts, starts, w, times, a, n);
  }

  lemma AdmittedBound(counts: seq<Out>, starts: seq<real>, w: int, times: seq<real>, a: real, n: int)
    requires |counts| == |starts| == |times| && InWindows(counts, starts, w, times) && n >= 1
    ensures |Admitted(counts, times, w, a, n)| <= 2 * n - 1
  {
    var s := Admitted(counts, times, w, a, n);
    var early := set i | i in s && starts[i] < a;
    var late := set i | i in s && starts[i] >= a;
    assert s == early + late;
    forall i | i in s ensures Opens(counts[i].n, starts[i], w, times[i]) {}
    OneWindowAdmits(counts, starts, w, times, early, a - w as real, 2, n);
    OneWindowAdmits(counts, starts, w, times, late, a, 1, n);
  }

  // ---- The bound is reached ----

  /** One call, n - 1 calls shortly before its window ends, and n calls at its end. */
  function Burst(n: nat, w: int): (times: seq<real>)
    ensures |times| == 2 * n
  {
    seq(2 * n, i requires 0 <= i < 2 * n => if i == 0 then 0.0 else if i < n then w as real - 0.5 else w as real)
  }

  lemma {:induction false} BurstMarks(n: nat, w: int, i: nat)
    requires n >= 1 && w > 0 && i < 2 * n
    ensures Marks(None, w, Burst(n, w))[i] == if i < n then Mark(i + 1, 0.0) else Mark(i - n + 1, w as real)
  {
    MarkAt(None, w, Burst(n, w), i);
    if i > 0 { BurstMarks(n, w, i - 1); }
  }

  lemma {:induction false} FirstNumbers(lo: nat, hi: nat, s: set<nat>)
    requires lo <= hi && forall i: nat :: i in s <==> lo <= i < hi
    ensures |s| == hi - lo
    decreases hi
  {
    if lo < hi {
      FirstNumbers(lo, hi - 1, s - {hi - 1});
      assert hi - 1 in s;
    } else {
      assert s == {};
    }
  }

  /**
   For every limit n, window and absent key there is a run in which exactly 2n - 1 calls of one
   half-open interval as long as the window see a count of at most n.
   */
  lemma {:induction false} RateLimitIsTight(db: Db, k: string, n: nat, w: int)
    requires n >= 1 && w > 0 && k !in db.data
    ensures var times := Burst(n, w);
            && NotDecreasing(times) && FreshAt(db, k, times)
            && |Admitted(Counts(db, k, w, times), times, w, w as real - 0.5, n)| == 2 * n - 1
  {
    var times := Burst(n, w);
    CountsFollowMarks(db, k, w, None, times);
    forall i: nat | i < 2 * n
      ensures Counts(db, k, w, times)[i] == Total(if i < n then i + 1 else i - n + 1)
    {
      BurstMarks(n, w, i);
    }
    FirstNumbers(1, 2 * n, Admitted(Counts(db, k, w, times), times, w, w as real - 0.5, n));
  }

  /** In every run and every half-open interval as long as the window at most n calls see a count of at most n. */
  ghost predicate KeepsLimit(w: int, n: int) {
    forall db, k, times, a | NotDecreasing(times) && FreshAt(db, k, times) ::
      |Admitted(Counts(db, k, w, times), times, w, a, n)| <= n
  }

  /** A limit of n calls per window is a limit of n calls per interval of its length exactly when n is 1. */
  lemma KeepsLimitIff(w: int, n: nat)
    requires w > 0 && n >= 1
    ensures KeepsLimit(w, n) <==> n == 1
  {
    if n == 1 {
      forall db, k, times, a | NotDecreasing(times) && FreshAt(db, k, times)
        ensures |Admitted(Counts(db, k, w, times), times, w, a, n)| <= n
      {
        RateLimit(db, k, w, times, a, n);
      }
    } else {
      RateLimitIsTight(Db(map[], {}), "", n, w);
    }
  }
}
