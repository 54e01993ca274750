/** The small slice of Python's data model that the helpers rely on: `None`,
    the exceptions a call can raise, JSON-style dictionary values, `dict.get`
    and the `==` comparison between such values. */
module Python {

  /** `Optional[T]`: a value or Python's `None`. */
  datatype Option<+T> = None | Some(value: T)

  /** The exceptions the modelled helpers can raise. */
  datatype Exception =
    | AttributeError  // attribute lookup on `None`, e.g. `None.keys()`
    | IndexError      // sequence index out of range

  /** What a Python call does: it returns a value or raises an exception. */
  datatype Outcome<+T> = Returns(value: T) | Raises(error: Exception)

  /** A scalar JSON value as decoded into Python (`null` becomes `None`). */
  datatype Json = Null | Bool(b: bool) | Int(i: int) | Str(s: string)

  /** A Python `dict` decoded from a JSON object. */
  type Dict = map<string, Json>

  /** `d.get(key)`: the stored value, or `None` when the key is absent.
      A key stored with value `null` and an absent key both read as `None`. */
  function Get(d: Dict, key: string): (v: Json)
    ensures key !in d ==> v == Null
    ensures key in d ==> v == d[key]
  {
    if key in d then d[key] else Null
  }

  /** The integer a numeric value stands for in a comparison: Python's `bool`
      is a subclass of `int`, so `True == 1` and `False == 0`. */
  function Numeric(v: Json): Option<int>
  {
    match v
    case Bool(b) => Some(if b then 1 else 0)
    case Int(i) => Some(i)
    case _ => None
  }

  /** Python's `a == b` on two JSON scalars. */
  predicate Equal(a: Json, b: Json)
  {
    if Numeric(a).Some? || Numeric(b).Some? then Numeric(a) == Numeric(b)
    else a == b
  }

  /** Python's `==` on these values is an equivalence relation that agrees
      with identity except that a boolean equals the integer it stands for. */
  lemma EqualIsEquivalence(a: Json, b: Json, c: Json)
    ensures Equal(a, a)
    ensures Equal(a, b) == Equal(b, a)
    ensures Equal(a, b) && Equal(b, c) ==> Equal(a, c)
    ensures Equal(a, b) <==> (a == b || (Numeric(a).Some? && Numeric(a) == Numeric(b)))
  {
  }
}
