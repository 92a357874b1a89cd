/**
 What every operation of `cachine/backends/sqlite/sync.py` does to its two tables: `cache_data`,
 a map from keys to rows, and `cache_tags`, a set of (tag, key) pairs.  Keys and tags are
 prefixed with the namespace; the clock is one sample per operation, in seconds.
 */
module SqliteModel {
  import opened Wrappers
  import opened Values
  import Like

  datatype Row = Row(value: Value, expires: Option<real>)

  type Data = map<string, Row>

  datatype Db = Db(data: Data, tags: set<(string, string)>)

  predicate Live(row: Row, now: real) {
    row.expires.None? || row.expires.value > now
  }

  /** `_cleanup_if_expired`: the row goes, its tag rows stay. */
  function Purge(db: Db, k: string, now: real): Db {
    if k in db.data && !Live(db.data[k], now) then db.(data := db.data - {k}) else db
  }

  function DoGet(db: Db, k: string, now: real): (Db, Out) {
    var db' := Purge(db, k, now);
    (db', if k in db'.data then Hit(db'.data[k].value) else Missing)
  }

  /** The tag rows that are left when those of the keys and of the tags are deleted. */
  function TagRowsWithout(rows: set<(string, string)>, keys: set<string>, names: set<string>): set<(string, string)> {
    set p | p in rows && p.1 !in keys && p.0 !in names
  }

  function DoDelete(db: Db, k: string): (Db, Out) {
    (Db(db.data - {k}, TagRowsWithout(db.tags, {k}, {})), Flag(k in db.data))
  }

  function DoSet(db: Db, k: string, v: Value, ttl: Option<int>, now: real): Db {
    if ttl.Some? && ttl.value <= 0 then DoDelete(db, k).0
    else db.(data := db.data[k := Row(v, Until(ttl, now))])
  }

  function DoExists(db: Db, k: string, now: real): (Db, Out) {
    var db' := Purge(db, k, now);
    (db', Flag(k in db'.data))
  }

  /** The keys that a namespaced `clear` deletes. */
  predicate Cleared(ns: string, all: bool, k: string) {
    all || Like.Matches(Like.LikePrefixPattern(ns), k)
  }

  function RowsKept(data: Data, ns: string, all: bool): Data {
    map k | k in data && !Cleared(ns, all, k) :: data[k]
  }

  function TagRowsKept(tags: set<(string, string)>, ns: string, all: bool): set<(string, string)> {
    set p | p in tags && !Cleared(ns, all, p.1)
  }

  function DoClear(ns: string, db: Db, all: bool): (Db, Out) {
    if ns == "" && !all then (db, Raised) else (Db(RowsKept(db.data, ns, all), TagRowsKept(db.tags, ns, all)), Done)
  }

  function DoGetOrSet(db: Db, k: string, v: Value, ttl: Option<int>, now: real): (Db, Out) {
    var (read, out) := DoGet(db, k, now);
    if out.Hit? then (read, out) else (DoSet(read, k, v, ttl, now), Hit(v))
  }

  /** The guarded UPDATE of `expire` and `expire_at`. */
  function SetDeadline(db: Db, k: string, until: real, now: real): (Db, Out) {
    if k in db.data && Live(db.data[k], now)
    then (db.(data := db.data[k := db.data[k].(expires := Some(until))]), Flag(true))
    else (db, Flag(false))
  }

  function DoExpire(db: Db, k: string, ttl: int, now: real): (Db, Out) {
    if ttl <= 0 then DoDelete(db, k) else SetDeadline(db, k, now + ttl as real, now)
  }

  function DoExpireAt(db: Db, k: string, when: real, now: real): (Db, Out) {
    if when <= now then DoDelete(db, k) else SetDeadline(db, k, when, now)
  }

  function DoTouch(db: Db, k: string, ttl: Option<int>, now: real): (Db, Out) {
    if ttl.None? then DoExists(db, k, now) else DoExpire(db, k, ttl.value, now)
  }

  function DoTtl(db: Db, k: string, now: real): (Db, Out) {
    var db' := Purge(db, k, now);
    if k !in db'.data || db'.data[k].expires.None? then (db', Remaining(None))
    else
      var left := Truncate(db'.data[k].expires.value - now);
      (db', Remaining(if left >= 0 then Some(left) else None))
  }

  /** Not guarded: an expired row that is still there comes back to life. */
  function DoPersist(db: Db, k: string): (Db, Out) {
    if k in db.data && db.data[k].expires.Some?
    then (db.(data := db.data[k := db.data[k].(expires := None)]), Flag(true))
    else (db, Flag(false))
  }

  /** One transaction; a value that is not a number raises and rolls back. */
  function DoIncr(db: Db, k: string, delta: int, ttlIfNew: Option<int>, now: real): (Db, Out) {
    if k in db.data && Live(db.data[k], now) then
      var current := db.data[k].value.AsInt();
      if current.None? then (db, Raised)
      else
        var total := current.value + delta;
        (db.(data := db.data[k := db.data[k].(value := Number(total))]), Total(total))
    else
      var until := if ttlIfNew.Some? && ttlIfNew.value > 0 then Some(now + ttlIfNew.value as real) else None;
      (db.(data := db.data[k := Row(Number(delta), until)]), Total(delta))
  }

  /** Only a key whose row is there is tagged, expired or not. */
  function DoAddTags(db: Db, k: string, tags: set<string>): Db {
    if k !in db.data then db else db.(tags := db.tags + set t | t in tags :: (t, k))
  }

  function KeysTagged(db: Db, tags: set<string>): set<string> {
    set p | p in db.tags && p.0 in tags :: p.1
  }

  function DoInvalidateTags(db: Db, tags: set<string>): (Db, Out) {
    var keys := KeysTagged(db, tags);
    (Db(db.data - keys, TagRowsWithout(db.tags, keys, tags)), Total(|db.data.Keys * keys|))
  }

  // ---- Runs ----

  datatype Op =
    | Get(key: string)
    | Set(key: string, value: Value, ttl: Option<int>)
    | Delete(key: string)
    | Exists(key: string)
    | Clear(all: bool)
    | GetOrSet(key: string, value: Value, ttl: Option<int>)
    | Expire(key: string, seconds: int)
    | ExpireAt(key: string, when: real)
    | Touch(key: string, ttl: Option<int>)
    | Ttl(key: string)
    | Persist(key: string)
    | Incr(key: string, delta: int, ttl: Option<int>)
    | AddTags(key: string, tags: seq<string>)
    | InvalidateTags(tags: seq<string>)

  datatype Call = Call(now: real, op: Op)

  function Step(ns: string, db: Db, call: Call): (Db, Out) {
    match call.op
    case Get(k) => DoGet(db, ns + k, call.now)
    case Set(k, v, ttl) => (DoSet(db, ns + k, v, ttl, call.now), Done)
    case Delete(k) => DoDelete(db, ns + k)
    case Exists(k) => DoExists(db, ns + k, call.now)
    case Clear(all) => DoClear(ns, db, all)
    case GetOrSet(k, v, ttl) => DoGetOrSet(db, ns + k, v, ttl, call.now)
    case Expire(k, s) => DoExpire(db, ns + k, s, call.now)
    case ExpireAt(k, when) => DoExpireAt(db, ns + k, when, call.now)
    case Touch(k, ttl) => DoTouch(db, ns + k, ttl, call.now)
    case Ttl(k) => DoTtl(db, ns + k, call.now)
    case Persist(k) => DoPersist(db, ns + k)
    case Incr(k, d, ttl) => DoIncr(db, ns + k, d, ttl, call.now)
    case AddTags(k, tags) => (DoAddTags(db, ns + k, Prefixed(ns, tags)), Done)
    case InvalidateTags(tags) => DoInvalidateTags(db, Prefixed(ns, tags))
  }

  /** The tables after a sequence of calls. */
  function Run(ns: string, db: Db, calls: seq<Call>): Db
    decreases |calls|
  {
    if calls == [] then db else Run(ns, Step(ns, db, calls[0]).0, calls[1..])
  }

  /** Their results. */
  function Results(ns: string, db: Db, calls: seq<Call>): (outs: seq<Out>)
    ensures |outs| == |calls|
    decreases |calls|
  {
    if calls == [] then []
    else
      var (db', out) := Step(ns, db, calls[0]);
      [out] + Results(ns, db', calls[1..])
  }

  /** The clock never runs backwards, and starts no earlier than t. */
  ghost predicate Monotone(calls: seq<Call>, t: real) {
    && (forall i | 0 <= i < |calls| :: t <= calls[i].now)
    && (forall i, j | 0 <= i < j < |calls| :: calls[i].now <= calls[j].now)
  }
}
