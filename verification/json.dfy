/** The decoded JSON tree that the store is merged from. */
module Json {

  /** A decoded JSON value. An object is a sequence of entries; the order of the sequence stands
      for one iteration order of the decoder's map. */
  datatype Value =
    | Obj(entries: seq<(string, Value)>)
    | Arr(items: seq<Value>)
    | Str(s: string)
    | Num(n: real)
    | Bool(b: bool)
    | Null

  /** No object reachable through objects from `v` (including `v` itself) is, or holds, a null.
      Arrays are opaque leaves, so nulls inside arrays do not count. */
  predicate NullFree(v: Value)
    decreases v
  {
    match v
    case Null => false
    case Obj(es) => forall i | 0 <= i < |es| :: NullFree(es[i].1)
    case _ => true
  }
}
