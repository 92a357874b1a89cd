/**
 Tags in the SQLite cache are sticky: once a key was tagged, overwriting it, letting it expire,
 purging it and setting it again do not lose the tag.  Only deleting, clearing or invalidating
 the key does.
 */
module StickyTags {
  import opened Values
  import opened SqliteModel
  import Like

  /** The call deletes k, clears its namespace or invalidates a tag it carries. */
  ghost predicate Untags(ns: string, db: Db, call: Call, k: string) {
    match call.op
    case Delete(x) => ns + x == k
    case Set(x, _, ttl) => ns + x == k && ttl.Some? && ttl.value <= 0
    case GetOrSet(x, _, ttl) =>
      && ns + x == k && ttl.Some? && ttl.value <= 0
      && (k in db.data ==> db.data[k].expires.Some? && db.data[k].expires.value <= call.now)
    case Expire(x, s) => ns + x == k && s <= 0
    case ExpireAt(x, when) => ns + x == k && when <= call.now
    case Touch(x, ttl) => ns + x == k && ttl.Some? && ttl.value <= 0
    case Clear(all) => all || (ns != "" && Like.FoldedPrefix(ns, k))
    case InvalidateTags(tags) => Hit(ns, db, tags, k)
    case _ => false
  }

  /** A tag row of k survives a call exactly when the call does not untag k. */
  lemma {:induction false} TagSurvivesIff(ns: string, db: Db, call: Call, t: string, k: string)
    requires (t, k) in db.tags
    ensures (t, k) in Step(ns, db, call).0.tags <==> !Untags(ns, db, call, k)
  {
    if call.op.InvalidateTags? {
      HitIsTagged(ns, db, call.op.tags, k);
      var tags := Prefixed(ns, call.op.tags);
      if t in tags { assert (t, k) in db.tags && (t, k).0 in tags; }
    } else if call.op.Clear? {
      Like.EscapingIsExact(ns, k);
    }
  }

  /** No call creates a tag row but `add_tags` on a key whose row is there. */
  lemma {:induction false} TagsComeFromAddTags(ns: string, db: Db, call: Call, t: string, k: string)
    requires (t, k) !in db.tags
    ensures (t, k) in Step(ns, db, call).0.tags <==>
            && call.op.AddTags? && ns + call.op.key == k && k in db.data
            && exists i :: 0 <= i < |call.op.tags| && t == ns + call.op.tags[i]
  {}

  lemma HitIsTagged(ns: string, db: Db, tags: seq<string>, k: string)
    ensures k in KeysTagged(db, Prefixed(ns, tags)) <==> Hit(ns, db, tags, k)
  {}

  ghost predicate NeverUntagged(ns: string, db: Db, calls: seq<Call>, k: string)
    decreases |calls|
  {
    calls == [] || (!Untags(ns, db, calls[0], k) && NeverUntagged(ns, Step(ns, db, calls[0]).0, calls[1..], k))
  }

  lemma {:induction false} TagSurvivesRun(ns: string, db: Db, calls: seq<Call>, t: string, k: string)
    requires (t, k) in db.tags && NeverUntagged(ns, db, calls, k)
    ensures (t, k) in Run(ns, db, calls).tags
    decreases |calls|
  {
    if calls != [] {
      TagSurvivesIff(ns, db, calls[0], t, k);
      TagSurvivesRun(ns, Step(ns, db, calls[0]).0, calls[1..], t, k);
    }
  }

  /**
   A key tagged while present, whatever happened to it since short of being untagged, is gone
   after `invalidate_tags` with that tag.
   */
  lemma TaggedKeyIsInvalidated(ns: string, db: Db, key: string, tags: seq<string>, tag: string, tagged: real,
                               calls: seq<Call>, invalidated: seq<string>, now: real)
    requires ns + key in db.data && tag in tags && tag in invalidated
    requires NeverUntagged(ns, Step(ns, db, Call(tagged, AddTags(key, tags))).0, calls, ns + key)
    ensures var after := Run(ns, Step(ns, db, Call(tagged, AddTags(key, tags))).0, calls);
            ns + key !in Step(ns, after, Call(now, InvalidateTags(invalidated))).0.data
  {
    var db' := Step(ns, db, Call(tagged, AddTags(key, tags))).0;
    var t, k := ns + tag, ns + key;
    assert t in Prefixed(ns, tags) && t in Prefixed(ns, invalidated);
    assert (t, k) in db'.tags;
    TagSurvivesRun(ns, db', calls, t, k);
    assert (t, k) in Run(ns, db', calls).tags && (t, k).0 in Prefixed(ns, invalidated);
  }

  /** The keys with a tag row for a listed tag. */
  ghost predicate Hit(ns: string, db: Db, tags: seq<string>, k: string) {
    exists i :: 0 <= i < |tags| && (ns + tags[i], k) in db.tags
  }

  /**
   `invalidate_tags` removes the data rows of exactly the keys with a tag row for a listed tag,
   counts those rows, removes all their tag rows, and leaves every other row as it was.
   */
  lemma {:induction false} InvalidationIsExact(ns: string, db: Db, now: real, tags: seq<string>)
    ensures var (db', out) := Step(ns, db, Call(now, InvalidateTags(tags)));
            && out == Total(|db.data| - |db'.data|)
            && (forall k :: k in db'.data <==> k in db.data && !Hit(ns, db, tags, k))
            && (forall k | k in db'.data :: db'.data[k] == db.data[k])
            && (forall t, k :: (t, k) in db'.tags <==> (t, k) in db.tags && !Hit(ns, db, tags, k))
  {}

  /**
   Clearing a namespace leaves a data row of another colon-free one alone exactly when the two
   names differ by more than ASCII case, and a tag row likewise, whether its data row is there or
   was purged.
   */
  lemma ClearSparesIff(a: string, b: string, db: Db, key: string, t: string)
    requires a != "" && ':' !in a && ':' !in b
    ensures var db', k := DoClear(a + ":", db, false).0, b + ":" + key;
            && (k in db.data ==> (k in db'.data <==> !Like.SameFolded(a, b)))
            && ((t, k) in db.tags ==> ((t, k) in db'.tags <==> !Like.SameFolded(a, b)))
            && (k in db'.data ==> k in db.data && db'.data[k] == db.data[k])
            && ((t, k) in db'.tags ==> (t, k) in db.tags)
  {
    Like.NamespacePattern(a, b, key);
  }
}
