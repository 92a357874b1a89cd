/**
 `SQLiteCache` of `cachine/backends/sqlite/sync.py`: a connection with its two tables, changed
 by SQL statements and transactions, and the operations of the cache as sequences of them.
 Every operation is proved to change the tables as module SqliteModel says, to look to its caller
 like the operation of a cache that purges first, and to lose tag rows only where it untags.
 */
module SqliteCacheClass {
  import opened Wrappers
  import opened Values
  import opened SqliteModel
  import opened LazyExpiry
  import Like
  import StickyTags

  // ---- What a caller relies on ----

  /** What the call shows and returns is what a cache that purges first shows and returns. */
  ghost predicate LooksEager(ns: string, before: Db, after: Db, call: Call, out: Out) {
    && Visible(after.data, call.now) == EagerStep(ns, before.data, call).0
    && (out == EagerStep(ns, before.data, call).1 <==> !MeetsUnpurged(ns, before, call))
  }

  /** Tag rows disappear exactly where the call untags their key, and appear only by `add_tags`. */
  ghost predicate TagsStick(ns: string, before: Db, after: Db, call: Call) {
    && (forall t, k | (t, k) in before.tags :: (t, k) in after.tags <==> !StickyTags.Untags(ns, before, call, k))
    && (forall t, k | (t, k) in after.tags && (t, k) !in before.tags ::
          call.op.AddTags? && k == ns + call.op.key && k in before.data)
  }

  lemma {:induction false} EveryCallSticks(ns: string, db: Db, call: Call)
    ensures TagsStick(ns, db, Step(ns, db, call).0, call)
  {
    hide StickyTags.Untags, Step, Prefixed;
    forall t, k | (t, k) in db.tags
      ensures (t, k) in Step(ns, db, call).0.tags <==> !StickyTags.Untags(ns, db, call, k)
    {
      StickyTags.TagSurvivesIff(ns, db, call, t, k);
    }
    forall t, k | (t, k) in Step(ns, db, call).0.tags && (t, k) !in db.tags
      ensures call.op.AddTags? && k == ns + call.op.key && k in db.data
    {
      StickyTags.TagsComeFromAddTags(ns, db, call, t, k);
    }
  }

  lemma EveryCallLooks(ns: string, db: Db, call: Call)
    requires InScope(ns, db, call)
    ensures LooksEager(ns, db, Step(ns, db, call).0, call, Step(ns, db, call).1)
    ensures TagsStick(ns, db, Step(ns, db, call).0, call)
  {
    StepAgrees(ns, db, call);
    EveryCallSticks(ns, db, call);
  }

  /** For the calls that take no clock sample. */
  lemma {:induction false} AtEveryTime(ns: string, db: Db, op: Op)
    ensures forall now: real :: TagsStick(ns, db, Step(ns, db, Call(now, op)).0, Call(now, op))
    ensures forall now: real | InScope(ns, db, Call(now, op)) ::
              LooksEager(ns, db, Step(ns, db, Call(now, op)).0, Call(now, op), Step(ns, db, Call(now, op)).1)
  {
    forall now: real ensures TagsStick(ns, db, Step(ns, db, Call(now, op)).0, Call(now, op)) {
      EveryCallSticks(ns, db, Call(now, op));
    }
    forall now: real | InScope(ns, db, Call(now, op))
      ensures LooksEager(ns, db, Step(ns, db, Call(now, op)).0, Call(now, op), Step(ns, db, Call(now, op)).1)
    {
      EveryCallLooks(ns, db, Call(now, op));
    }
  }

  /** Exactly the keys with a tag row for a listed tag lose their rows, and the data rows among them are counted. */
  ghost predicate InvalidatedExactly(ns: string, before: Db, after: Db, names: seq<string>, removed: int) {
    && removed == |before.data| - |after.data|
    && (forall k :: k in after.data <==> k in before.data && !StickyTags.Hit(ns, before, names, k))
    && (forall k | k in after.data :: after.data[k] == before.data[k])
    && (forall t, k :: (t, k) in after.tags <==> (t, k) in before.tags && !StickyTags.Hit(ns, before, names, k))
  }

  lemma InvalidationIsExact(ns: string, db: Db, names: seq<string>)
    ensures var (after, out) := DoInvalidateTags(db, Prefixed(ns, names));
            InvalidatedExactly(ns, db, after, names, out.n)
  {
    StickyTags.InvalidationIsExact(ns, db, 0.0, names);
    hide StickyTags.Hit, KeysTagged, TagRowsWithout, Prefixed;
  }

  // ---- Statements that change rows ----

  datatype Write =
    | PutRow(key: string, row: Row)
    | PutValue(key: string, value: Value)
    | DropExpired(key: string, now: real)
    | DropRows(keys: set<string>)
    | PutTagRows(ns: string, added: seq<string>, key: string)
    | DropTagRows(keys: set<string>)
    | DropTagNames(names: set<string>)

  function Effect(db: Db, w: Write): Db {
    match w
    case PutRow(k, row) => db.(data := db.data[k := row])
    case PutValue(k, v) => if k in db.data then db.(data := db.data[k := db.data[k].(value := v)]) else db
    case DropExpired(k, now) => Purge(db, k, now)
    case DropRows(keys) => db.(data := db.data - keys)
    case PutTagRows(ns, names, k) => db.(tags := db.tags + set t | t in Prefixed(ns, names) :: (t, k))
    case DropTagRows(keys) => db.(tags := TagRowsWithout(db.tags, keys, {}))
    case DropTagNames(names) => db.(tags := TagRowsWithout(db.tags, {}, names))
  }

  function Effects(db: Db, body: seq<Write>): Db
    decreases |body|
  {
    if body == [] then db else Effects(Effect(db, body[0]), body[1..])
  }

  class Connection {
    var data: Data
    var tags: set<(string, string)>
    /** The tables as they were at `BEGIN IMMEDIATE`, inside a transaction. */
    var snapshot: Option<Db>

    ghost function Model(): Db
      reads this
    {
      Db(data, tags)
    }

    constructor ()
      ensures Model() == Db(map[], {}) && snapshot.None?
    {
      data, tags, snapshot := map[], {}, None;
    }

    // ---- Transactions ----

    method Begin()
      requires snapshot.None?
      modifies this`snapshot
      ensures snapshot == Some(Model())
    {
      snapshot := Some(Db(data, tags));
    }

    method Commit()
      modifies this`snapshot
      ensures snapshot.None?
    {
      snapshot := None;
    }

    method Rollback()
      requires snapshot.Some?
      modifies this
      ensures Model() == old(snapshot).value && snapshot.None?
    {
      data, tags, snapshot := snapshot.value.data, snapshot.value.tags, None;
    }

    // ---- Statements on cache_data ----

    /** DELETE ... WHERE key = ? AND expires_at IS NOT NULL AND expires_at <= ? */
    method DeleteExpired(k: string, now: real)
      modifies this`data
      ensures Model() == Purge(old(Model()), k, now)
    {
      if k in data && data[k].expires.Some? && data[k].expires.value <= now {
        data := data - {k};
      }
    }

    /** SELECT value, expires_at ... WHERE key = ? */
    method Select(k: string) returns (row: Option<Row>)
      ensures row == if k in data then Some(data[k]) else None
    {
      row := if k in data then Some(data[k]) else None;
    }

    /** INSERT ... ON CONFLICT(key) DO UPDATE */
    method Upsert(k: string, row: Row)
      modifies this`data
      ensures data == old(data)[k := row]
    {
      data := data[k := row];
    }

    method DeleteRow(k: string) returns (rowcount: nat)
      modifies this`data
      ensures data == old(data) - {k} && rowcount == if k in old(data) then 1 else 0
    {
      rowcount := if k in data then 1 else 0;
      data := data - {k};
    }

    method DeleteRows(keys: set<string>) returns (rowcount: nat)
      modifies this`data
      ensures data == old(data) - keys && rowcount == |old(data).Keys * keys|
    {
      rowcount := |data.Keys * keys|;
      data := data - keys;
    }

    /** UPDATE ... SET expires_at = ? WHERE key = ? AND (expires_at IS NULL OR expires_at > ?) */
    method UpdateDeadline(k: string, until: real, now: real) returns (rowcount: nat)
      modifies this`data
      ensures (Model(), Flag(rowcount != 0)) == SetDeadline(old(Model()), k, until, now)
    {
      rowcount := 0;
      if k in data && (data[k].expires.None? || data[k].expires.value > now) {
        data := data[k := data[k].(expires := Some(until))];
        rowcount := 1;
      }
    }

    /** UPDATE ... SET expires_at = NULL WHERE key = ? AND expires_at IS NOT NULL */
    method UpdateNoDeadline(k: string) returns (rowcount: nat)
      modifies this`data
      ensures (Model(), Flag(rowcount != 0)) == DoPersist(old(Model()), k)
    {
      rowcount := 0;
      if k in data && data[k].expires.Some? {
        data := data[k := data[k].(expires := None)];
        rowcount := 1;
      }
    }

    /** UPDATE ... SET value = ? WHERE key = ? */
    method UpdateValue(k: string, v: Value)
      modifies this`data
      ensures data == if k in old(data) then old(data)[k := old(data)[k].(value := v)] else old(data)
    {
      if k in data {
        data := data[k := data[k].(value := v)];
      }
    }

    // ---- Statements on cache_tags ----

    /** DELETE ... WHERE key IN (...) */
    method DeleteTagRows(keys: set<string>)
      modifies this`tags
      ensures tags == TagRowsWithout(old(tags), keys, {})
    {
      tags := set p | p in tags && p.1 !in keys;
    }

    /** DELETE ... WHERE tag IN (...) */
    method DeleteTagRowsNamed(names: set<string>)
      modifies this`tags
      ensures tags == TagRowsWithout(old(tags), {}, names)
    {
      tags := set p | p in tags && p.0 !in names;
    }

    /** SELECT DISTINCT key ... WHERE tag IN (...) */
    method SelectTagged(names: set<string>) returns (keys: set<string>)
      ensures keys == KeysTagged(Model(), names)
    {
      keys := set p | p in tags && p.0 in names :: p.1;
    }

    /** DELETE ... WHERE key LIKE ? ESCAPE '\\', on both tables */
    method DeleteLike(pattern: string, ghost ns: string)
      requires pattern == Like.LikePrefixPattern(ns)
      modifies this`data, this`tags
      ensures Model() == Db(RowsKept(old(data), ns, false), TagRowsKept(old(tags), ns, false))
    {
      tags := set p | p in tags && !Like.Matches(pattern, p.1);
      data := map k | k in data && !Like.Matches(pattern, k) :: data[k];
    }

    method DeleteEverything(ghost ns: string)
      modifies this`data, this`tags
      ensures Model() == Db(RowsKept(old(data), ns, true), TagRowsKept(old(tags), ns, true))
    {
      ghost var kept := RowsKept(data, ns, true);
      assert kept.Keys == {};
      data, tags := map[], {};
    }

    /** `executemany` of INSERT OR IGNORE, one pair after the other. */
    method InsertTagRows(ns: string, names: seq<string>, k: string)
      modifies this`tags
      ensures tags == old(tags) + set t | t in Prefixed(ns, names) :: (t, k)
    {
      for i := 0 to |names|
        invariant tags == old(tags) + set t | t in Prefixed(ns, names[..i]) :: (t, k)
      {
        assert names[..i + 1] == names[..i] + [names[i]];
        assert Prefixed(ns, names[..i + 1]) == Prefixed(ns, names[..i]) + {ns + names[i]};
        tags := tags + {(ns + names[i], k)};
      }
      assert names[..|names|] == names;
    }

    // ---- The context manager ----

    method Execute(w: Write)
      modifies this`data, this`tags
      ensures Model() == Effect(old(Model()), w)
    {
      match w
      case PutRow(k, row) => Upsert(k, row);
      case PutValue(k, v) => UpdateValue(k, v);
      case DropExpired(k, now) => DeleteExpired(k, now);
      case DropRows(keys) => var _ := DeleteRows(keys);
      case PutTagRows(ns, names, k) => InsertTagRows(ns, names, k);
      case DropTagRows(keys) => DeleteTagRows(keys);
      case DropTagNames(names) => DeleteTagRowsNamed(names);
    }

    /**
     `_transaction` around any statements: the body runs whole, or it raises after its first `done`
     statements and neither table shows that it ever began.
     */
    method InTransaction(body: seq<Write>, done: nat) returns (raised: bool)
      requires snapshot.None?
      modifies this
      ensures raised <==> done < |body|
      ensures Model() == if raised then old(Model()) else Effects(old(Model()), body)
      ensures snapshot.None?
    {
      hide Effect;
      ghost var before := Model();
      Begin();
      assert body[0..] == body;
      for i := 0 to |body|
        invariant snapshot == Some(before) && i <= done
        invariant Effects(Model(), body[i..]) == Effects(before, body)
      {
        if i == done {
          Rollback();
          return true;
        }
        assert body[i..][0] == body[i] && body[i..][1..] == body[i + 1..];
        Execute(body[i]);
      }
      Commit();
      raised := false;
    }
  }

  class SqliteCache {
    const ns: string
    const conn: Connection

    constructor (conn: Connection, namespace: string)
      ensures this.conn == conn && ns == if namespace == "" then "" else namespace + ":"
    {
      this.conn := conn;
      ns := if namespace == "" then "" else namespace + ":";
    }

    ghost function Model(): Db
      reads this, conn
    {
      conn.Model()
    }

    /** No transaction is open between operations. */
    ghost predicate Valid()
      reads this, conn
    {
      conn.snapshot.None?
    }

    method Get(key: string, now: real) returns (value: Option<Value>)
      requires Valid()
      modifies conn
      ensures Valid() && (Model(), if value.Some? then Hit(value.value) else Missing)
              == DoGet(old(Model()), ns + key, now)
      ensures LooksEager(ns, old(Model()), Model(), Call(now, Op.Get(key)),
                         if value.Some? then Hit(value.value) else Missing)
      ensures TagsStick(ns, old(Model()), Model(), Call(now, Op.Get(key)))
    {
      EveryCallLooks(ns, Model(), Call(now, Op.Get(key)));
      conn.DeleteExpired(ns + key, now);
      var row := conn.Select(ns + key);
      value := if row.Some? then Some(row.value.value) else None;
    }

    method Delete(key: string) returns (deleted: bool)
      requires Valid()
      modifies conn
      ensures Valid() && (Model(), Flag(deleted)) == DoDelete(old(Model()), ns + key)
      ensures forall now: real :: LooksEager(ns, old(Model()), Model(), Call(now, Op.Delete(key)), Flag(deleted))
      ensures forall now: real :: TagsStick(ns, old(Model()), Model(), Call(now, Op.Delete(key)))
    {
      AtEveryTime(ns, Model(), Op.Delete(key));
      var rowcount := conn.DeleteRow(ns + key);
      conn.DeleteTagRows({ns + key});
      deleted := rowcount != 0;
    }

    method Set(key: string, value: Value, ttl: Option<int>, now: real)
      requires Valid()
      modifies conn
      ensures Valid() && Model() == DoSet(old(Model()), ns + key, value, ttl, now)
      ensures LooksEager(ns, old(Model()), Model(), Call(now, Op.Set(key, value, ttl)), Done)
      ensures TagsStick(ns, old(Model()), Model(), Call(now, Op.Set(key, value, ttl)))
    {
      EveryCallLooks(ns, Model(), Call(now, Op.Set(key, value, ttl)));
      if ttl.Some? && ttl.value <= 0 {
        var _ := Delete(key);
        return;
      }
      conn.Upsert(ns + key, Row(value, if ttl.None? then None else Some(now + ttl.value as real)));
    }

    method Exists(key: string, now: real) returns (present: bool)
      requires Valid()
      modifies conn
      ensures Valid() && (Model(), Flag(present)) == DoExists(old(Model()), ns + key, now)
      ensures LooksEager(ns, old(Model()), Model(), Call(now, Op.Exists(key)), Flag(present))
      ensures TagsStick(ns, old(Model()), Model(), Call(now, Op.Exists(key)))
    {
      EveryCallLooks(ns, Model(), Call(now, Op.Exists(key)));
      conn.DeleteExpired(ns + key, now);
      var row := conn.Select(ns + key);
      present := row.Some?;
    }

    /** `clear`; fails without a namespace unless everything is to go. */
    method Clear(all: bool) returns (raised: bool)
      requires Valid()
      modifies conn
      ensures Valid() && (Model(), if raised then Raised else Done) == DoClear(ns, old(Model()), all)
      ensures forall now: real ::
                LooksEager(ns, old(Model()), Model(), Call(now, Op.Clear(all)), if raised then Raised else Done)
      ensures forall now: real :: TagsStick(ns, old(Model()), Model(), Call(now, Op.Clear(all)))
    {
      AtEveryTime(ns, Model(), Op.Clear(all));
      raised := false;
      if all || ns == "" {
        if !all && ns == "" {
          return true;
        }
        conn.DeleteEverything(ns);
        return;
      }
      conn.DeleteLike(Like.LikePrefixPattern(ns), ns);
    }

    method GetOrSet(key: string, computed: Value, ttl: Option<int>, now: real) returns (value: Value)
      requires Valid()
      modifies conn
      ensures Valid() && (Model(), Hit(value)) == DoGetOrSet(old(Model()), ns + key, computed, ttl, now)
      ensures LooksEager(ns, old(Model()), Model(), Call(now, Op.GetOrSet(key, computed, ttl)), Hit(value))
      ensures TagsStick(ns, old(Model()), Model(), Call(now, Op.GetOrSet(key, computed, ttl)))
    {
      EveryCallLooks(ns, Model(), Call(now, Op.GetOrSet(key, computed, ttl)));
      var found := Get(key, now);
      if found.Some? {
        return found.value;
      }
      Set(key, computed, ttl, now);
      value := computed;
    }

    method Expire(key: string, seconds: int, now: real) returns (done: bool)
      requires Valid()
      modifies conn
      ensures Valid() && (Model(), Flag(done)) == DoExpire(old(Model()), ns + key, seconds, now)
      ensures LooksEager(ns, old(Model()), Model(), Call(now, Op.Expire(key, seconds)), Flag(done))
      ensures TagsStick(ns, old(Model()), Model(), Call(now, Op.Expire(key, seconds)))
    {
      EveryCallLooks(ns, Model(), Call(now, Op.Expire(key, seconds)));
      if seconds <= 0 {
        done := Delete(key);
      } else {
        var rowcount := conn.UpdateDeadline(ns + key, now + seconds as real, now);
        done := rowcount != 0;
      }
    }

    method ExpireAt(key: string, when: real, now: real) returns (done: bool)
      requires Valid()
      modifies conn
      ensures Valid() && (Model(), Flag(done)) == DoExpireAt(old(Model()), ns + key, when, now)
      ensures LooksEager(ns, old(Model()), Model(), Call(now, Op.ExpireAt(key, when)), Flag(done))
      ensures TagsStick(ns, old(Model()), Model(), Call(now, Op.ExpireAt(key, when)))
    {
      EveryCallLooks(ns, Model(), Call(now, Op.ExpireAt(key, when)));
      if when <= now {
        done := Delete(key);
      } else {
        var rowcount := conn.UpdateDeadline(ns + key, when, now);
        done := rowcount != 0;
      }
    }

    method Touch(key: string, ttl: Option<int>, now: real) returns (done: bool)
      requires Valid()
      modifies conn
      ensures Valid() && (Model(), Flag(done)) == DoTouch(old(Model()), ns + key, ttl, now)
      ensures LooksEager(ns, old(Model()), Model(), Call(now, Op.Touch(key, ttl)), Flag(done))
      ensures TagsStick(ns, old(Model()), Model(), Call(now, Op.Touch(key, ttl)))
    {
      EveryCallLooks(ns, Model(), Call(now, Op.Touch(key, ttl)));
      if ttl.None? {
        done := Exists(key, now);
      } else {
        done := Expire(key, ttl.value, now);
      }
    }

    method Ttl(key: string, now: real) returns (seconds: Option<int>)
      requires Valid()
      modifies conn
      ensures Valid() && (Model(), Remaining(seconds)) == DoTtl(old(Model()), ns + key, now)
      ensures LooksEager(ns, old(Model()), Model(), Call(now, Op.Ttl(key)), Remaining(seconds))
      ensures TagsStick(ns, old(Model()), Model(), Call(now, Op.Ttl(key)))
    {
      EveryCallLooks(ns, Model(), Call(now, Op.Ttl(key)));
      conn.DeleteExpired(ns + key, now);
      var row := conn.Select(ns + key);
      if row.None? || row.value.expires.None? {
        return None;
      }
      var left := Truncate(row.value.expires.value - now);
      seconds := if left >= 0 then Some(left) else None;
    }

    method Persist(key: string) returns (done: bool)
      requires Valid()
      modifies conn
      ensures Valid() && (Model(), Flag(done)) == DoPersist(old(Model()), ns + key)
      ensures forall now: real | !Unpurged(old(Model()).data, ns + key, now) ::
                LooksEager(ns, old(Model()), Model(), Call(now, Op.Persist(key)), Flag(done))
      ensures forall now: real :: TagsStick(ns, old(Model()), Model(), Call(now, Op.Persist(key)))
    {
      AtEveryTime(ns, Model(), Op.Persist(key));
      var rowcount := conn.UpdateNoDeadline(ns + key);
      done := rowcount != 0;
    }

    /** `incr`; the result is absent when the stored value is not a number. */
    method Incr(key: string, delta: int, ttlIfNew: Option<int>, now: real) returns (total: Option<int>)
      requires Valid()
      modifies conn
      ensures Valid()
      ensures (Model(), if total.Some? then Total(total.value) else Raised)
              == DoIncr(old(Model()), ns + key, delta, ttlIfNew, now)
      ensures LooksEager(ns, old(Model()), Model(), Call(now, Op.Incr(key, delta, ttlIfNew)),
                         if total.Some? then Total(total.value) else Raised)
      ensures TagsStick(ns, old(Model()), Model(), Call(now, Op.Incr(key, delta, ttlIfNew)))
    {
      EveryCallLooks(ns, Model(), Call(now, Op.Incr(key, delta, ttlIfNew)));
      var k := ns + key;
      conn.Begin();
      var row := conn.Select(k);
      if row.Some? && Live(row.value, now) {
        var current := row.value.value.AsInt();
        if current.None? {
          conn.Rollback();
          return None;
        }
        total := Some(current.value + delta);
        conn.UpdateValue(k, Number(total.value));
      } else {
        total := Some(delta);
        var until := if ttlIfNew.Some? && ttlIfNew.value > 0 then Some(now + ttlIfNew.value as real) else None;
        conn.Upsert(k, Row(Number(delta), until));
      }
      conn.Commit();
    }

    method Decr(key: string, delta: int, now: real) returns (total: Option<int>)
      requires Valid()
      modifies conn
      ensures Valid()
      ensures (Model(), if total.Some? then Total(total.value) else Raised)
              == DoIncr(old(Model()), ns + key, -delta, None, now)
    {
      total := Incr(key, -delta, None, now);
    }

    method AddTags(key: string, names: seq<string>)
      requires Valid()
      modifies conn
      ensures Valid() && Model() == DoAddTags(old(Model()), ns + key, Prefixed(ns, names))
      ensures forall now: real :: LooksEager(ns, old(Model()), Model(), Call(now, Op.AddTags(key, names)), Done)
      ensures forall now: real :: TagsStick(ns, old(Model()), Model(), Call(now, Op.AddTags(key, names)))
    {
      AtEveryTime(ns, Model(), Op.AddTags(key, names));
      if names == [] {
        assert old(Model()).tags + (set t | t in Prefixed(ns, names) :: (t, ns + key)) == old(Model()).tags;
        return;
      }
      conn.Begin();
      var row := conn.Select(ns + key);
      if row.Some? {
        conn.InsertTagRows(ns, names, ns + key);
      }
      conn.Commit();
    }

    method InvalidateTags(names: seq<string>) returns (removed: int)
      requires Valid()
      modifies conn
      ensures Valid() && (Model(), Total(removed)) == DoInvalidateTags(old(Model()), Prefixed(ns, names))
      ensures InvalidatedExactly(ns, old(Model()), Model(), names, removed)
      ensures forall now: real :: TagsStick(ns, old(Model()), Model(), Call(now, Op.InvalidateTags(names)))
    {
      hide DoInvalidateTags, InvalidatedExactly, TagsStick, LooksEager;
      InvalidationIsExact(ns, Model(), names);
      AtEveryTime(ns, Model(), Op.InvalidateTags(names));
      removed := RunInvalidation(names);
    }

    /** The statements of `invalidate_tags`. */
    method RunInvalidation(names: seq<string>) returns (removed: int)
      requires Valid()
      modifies conn
      ensures Valid() && (Model(), Total(removed)) == DoInvalidateTags(old(Model()), Prefixed(ns, names))
    {
      hide Prefixed, KeysTagged, TagRowsWithout;
      var tags := Prefixed(ns, names);
      ghost var before := Model();
      if names == [] {
        NoNames(before, ns);
        NoKeysTagged(before, tags);
        return 0;
      }
      conn.Begin();
      var keys := conn.SelectTagged(tags);
      if keys == {} {
        conn.DeleteTagRowsNamed(tags);
        conn.Commit();
        NoKeysTagged(before, tags);
        return 0;
      }
      removed := conn.DeleteRows(keys);
      conn.DeleteTagRows(keys);
      conn.DeleteTagRowsNamed(tags);
      conn.Commit();
      TagRowsTwice(before.tags, keys, tags);
    }

    // ---- Whole runs ----

    /** One call, by the method it names. */
    method Perform(call: Call) returns (out: Out)
      requires Valid()
      modifies conn
      ensures Valid() && (Model(), out) == Step(ns, old(Model()), call)
    {
      hide DoGet, DoSet, DoDelete, DoExists, DoClear, DoGetOrSet, DoExpire, DoExpireAt, DoTouch, DoTtl, DoPersist,
        DoIncr, DoAddTags, DoInvalidateTags, LooksEager, TagsStick, InvalidatedExactly, Prefixed, Unpurged;
      match call.op
      case Get(k) =>
        var value := Get(k, call.now);
        out := if value.Some? then Hit(value.value) else Missing;
      case Set(k, v, ttl) =>
        Set(k, v, ttl, call.now);
        out := Done;
      case Delete(k) =>
        var deleted := Delete(k);
        out := Flag(deleted);
      case Exists(k) =>
        var present := Exists(k, call.now);
        out := Flag(present);
      case Clear(all) =>
        var raised := Clear(all);
        out := if raised then Raised else Done;
      case GetOrSet(k, v, ttl) =>
        var value := GetOrSet(k, v, ttl, call.now);
        out := Hit(value);
      case Expire(k, seconds) =>
        var done := Expire(k, seconds, call.now);
        out := Flag(done);
      case ExpireAt(k, when) =>
        var done := ExpireAt(k, when, call.now);
        out := Flag(done);
      case Touch(k, ttl) =>
        var done := Touch(k, ttl, call.now);
        out := Flag(done);
      case Ttl(k) =>
        var seconds := Ttl(k, call.now);
        out := Remaining(seconds);
      case Persist(k) =>
        var done := Persist(k);
        out := Flag(done);
      case Incr(k, delta, ttl) =>
        var total := Incr(k, delta, ttl, call.now);
        out := if total.Some? then Total(total.value) else Raised;
      case AddTags(k, names) =>
        AddTags(k, names);
        out := Done;
      case InvalidateTags(names) =>
        var removed := InvalidateTags(names);
        out := Total(removed);
    }

    /**
     A sequence of calls on the object is a run of the model.  When no call is outside the scope
     of lazy expiry and the clock does not go back, it shows what the eager cache shows.
     */
    method Replay(calls: seq<Call>) returns (outs: seq<Out>)
      requires Valid()
      modifies conn
      ensures Valid() && Model() == Run(ns, old(Model()), calls) && outs == Results(ns, old(Model()), calls)
      ensures forall t, later | Monotone(calls, t) && t <= later && RunInScope(ns, old(Model()), calls)
                                && (forall i | 0 <= i < |calls| :: calls[i].now <= later) ::
                Visible(Model().data, later) == Visible(EagerRun(ns, Visible(old(Model()).data, t), calls), later)
    {
      ghost var start := Model();
      EagerAllAlong(ns, start, calls);
      hide Step, Monotone, RunInScope, Visible, EagerRun;
      outs := [];
      assert calls[0..] == calls;
      for i := 0 to |calls|
        invariant Valid()
        invariant Run(ns, Model(), calls[i..]) == Run(ns, start, calls)
        invariant outs + Results(ns, Model(), calls[i..]) == Results(ns, start, calls)
      {
        assert calls[i..][0] == calls[i] && calls[i..][1..] == calls[i + 1..];
        ghost var before := Model();
        var out := Perform(calls[i]);
        assert outs + Results(ns, before, calls[i..]) == (outs + [out]) + Results(ns, Model(), calls[i + 1..]);
        outs := outs + [out];
      }
      assert calls[|calls|..] == [];
    }
  }

  lemma EagerAllAlong(ns: string, db: Db, calls: seq<Call>)
    ensures forall t, later | Monotone(calls, t) && t <= later && RunInScope(ns, db, calls)
                              && (forall i | 0 <= i < |calls| :: calls[i].now <= later) ::
              Visible(Run(ns, db, calls).data, later) == Visible(EagerRun(ns, Visible(db.data, t), calls), later)
  {
    forall t, later | Monotone(calls, t) && t <= later && RunInScope(ns, db, calls)
                      && (forall i | 0 <= i < |calls| :: calls[i].now <= later)
      ensures Visible(Run(ns, db, calls).data, later) == Visible(EagerRun(ns, Visible(db.data, t), calls), later)
    {
      VisibleLater(db.data, t, t);
      LazyEqualsEager(ns, db, Visible(db.data, t), calls, t, later);
    }
  }

  /** When no key carries a listed tag, no tag row of those names exists either. */
  lemma NoKeysTagged(db: Db, tags: set<string>)
    requires KeysTagged(db, tags) == {}
    ensures DoInvalidateTags(db, tags) == (db, Total(0))
    ensures TagRowsWithout(db.tags, {}, tags) == db.tags
  {
    assert forall p | p in db.tags && p.0 in tags :: p.1 in KeysTagged(db, tags);
    assert TagRowsWithout(db.tags, {}, tags) == db.tags;
    assert db.data - {} == db.data && db.data.Keys * {} == {};
  }

  lemma NoNames(db: Db, ns: string)
    ensures KeysTagged(db, Prefixed(ns, [])) == {}
  {}

  lemma TagRowsTwice(rows: set<(string, string)>, keys: set<string>, names: set<string>)
    ensures TagRowsWithout(TagRowsWithout(rows, keys, {}), {}, names) == TagRowsWithout(rows, keys, names)
  {}
}
