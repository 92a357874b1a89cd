/**
 The values that caches hold, the results of their operations, and how arguments become deadlines
 and prefixed names.  Values are modelled as far as the program looks into them: `None`, integers,
 the decorator's envelope (a dictionary with `"__cachine__": 1` and a `"fu"` entry), and any other
 object, for which `int(...)` either gives an integer or raises.
 */
module Values {
  import opened Wrappers

  datatype Value =
    | NoneValue
    | Number(n: int)
    | Envelope(v: Value, freshUntil: Option<real>)
    | Object(id: nat, asInt: Option<int>)
  {
    /** `int(value)`; absent when it raises. */
    function AsInt(): Option<int> {
      match this
      case Number(n) => Some(n)
      case Object(_, i) => i
      case _ => None
    }
  }

  /** What a cache operation returns. */
  datatype Out =
    | Done
    | Hit(value: Value)
    | Missing
    | Flag(b: bool)
    | Remaining(seconds: Option<int>)
    | Total(n: int)
    | Raised

  /** `int(x)` on a float: truncation toward zero. */
  function Truncate(x: real): (n: int)
    ensures x >= 0.0 ==> n as real <= x < n as real + 1.0
    ensures x < 0.0 ==> n as real - 1.0 < x <= n as real
    ensures x >= 0.0 <==> n >= 0 && (n == 0 ==> x >= 0.0)
  {
    if x >= 0.0 then x.Floor else -((-x).Floor)
  }

  // ---- What both backends make of their arguments ----

  /** The deadline of an entry that is written at `now`. */
  function Until(ttl: Option<int>, now: real): Option<real> {
    if ttl.None? then None else Some(now + ttl.value as real)
  }

  function Prefixed(ns: string, names: seq<string>): set<string> {
    set t | t in names :: ns + t
  }
}
