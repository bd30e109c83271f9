/** Dynamically typed attribute values as they come from a scenario document,
    with the bits of Python semantics the engine relies on: truthiness and str(). */
module Values {

  datatype Option<+T> = None | Some(value: T)

  /** A scalar or nested value. Dictionaries keep their insertion order, as Python's do. */
  datatype Value =
    | Null
    | Bool(b: bool)
    | Int(i: int)
    | Str(s: string)
    | List(items: seq<Value>)
    | Dict(entries: seq<(string, Value)>)

  /** Python truthiness: None, False, 0, "" and empty containers are false. */
  predicate Truthy(v: Value)
  {
    match v
    case Null => false
    case Bool(b) => b
    case Int(i) => i != 0
    case Str(s) => s != ""
    case List(items) => items != []
    case Dict(entries) => entries != []
  }

  /** True for the values the snapshot stringifies (Python list and dict). */
  predicate IsComposite(v: Value)
  {
    v.List? || v.Dict?
  }

  /** The mapping a dictionary denotes; a later entry for the same key wins. */
  function ToMap(entries: seq<(string, Value)>): (m: map<string, Value>)
    ensures forall k :: k in m <==> exists i :: 0 <= i < |entries| && entries[i].0 == k
    decreases |entries|
  {
    if entries == [] then map[]
    else
      var last := entries[|entries| - 1];
      var m := ToMap(entries[..|entries| - 1])[last.0 := last.1];
      assert forall i :: 0 <= i < |entries| - 1 ==> entries[..|entries| - 1][i] == entries[i];
      m
  }

  function DigitChar(d: nat): char
    requires d < 10
  {
    "0123456789"[d]
  }

  function NatToString(n: nat): string
    decreases n
  {
    if n < 10 then [DigitChar(n)] else NatToString(n / 10) + [DigitChar(n % 10)]
  }

  function IntToString(i: int): string
  {
    if i < 0 then "-" + NatToString(-i) else NatToString(i)
  }

  function Join(parts: seq<string>, sep: string): string
  {
    if parts == [] then ""
    else if |parts| == 1 then parts[0]
    else parts[0] + sep + Join(parts[1..], sep)
  }

  /** Python repr() of a value: strings are quoted, containers rendered recursively. */
  function Repr(v: Value): string
  {
    match v
    case Null => "None"
    case Bool(b) => if b then "True" else "False"
    case Int(i) => IntToString(i)
    case Str(s) => "'" + s + "'"
    case List(items) =>
      "[" + Join(seq(|items|, k requires 0 <= k < |items| => Repr(items[k])), ", ") + "]"
    case Dict(entries) =>
      "{" + Join(seq(|entries|, k requires 0 <= k < |entries| =>
                       assert entries[k] in entries;
                       "'" + entries[k].0 + "': " + Repr(entries[k].1)), ", ") + "}"
  }

  /** Python str(): like repr() except that a top-level string is not quoted. */
  function Stringify(v: Value): string
  {
    if v.Str? then v.s else Repr(v)
  }
}
