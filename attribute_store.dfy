/** The attribute bag every entity carries (BaseModel): the current attribute map and a
    per-year log holding, for each year, the last value written to each attribute. */
module AttributeStore {
  import opened Values

  type Attributes = map<string, Value>

  datatype Store = Store(attributes: Attributes, history: map<int, Attributes>)
  {
    /** get_attribute: with a year, the value logged for that year if there is one;
        otherwise (or without a year) the current value, Null when absent. */
    function Get(name: string, year: Option<int>): Value
    {
      if year.Some? && year.value in history && name in history[year.value] then
        history[year.value][name]
      else if name in attributes then attributes[name]
      else Null
    }

    /** set_attribute: write the current value and log it under `year`, creating the
        year's log on demand. */
    function Write(name: string, value: Value, year: int): (r: Store)
      ensures r.Get(name, None) == value && r.Get(name, Some(year)) == value
      ensures r.attributes.Keys == attributes.Keys + {name}
      ensures forall a :: a in attributes && a != name ==> r.attributes[a] == attributes[a]
      ensures r.history.Keys == history.Keys + {year}
      ensures r.history[year].Keys == YearLog(year).Keys + {name}
      ensures forall y :: y in history && y != year ==> r.history[y] == history[y]
      ensures forall a :: a in YearLog(year) && a != name ==> r.history[year][a] == YearLog(year)[a]
    {
      Store(attributes[name := value], history[year := YearLog(year)[name := value]])
    }

    /** The attributes logged for `year` so far (empty when the year has no entry). */
    function YearLog(year: int): Attributes
    {
      if year in history then history[year] else map[]
    }
  }

  /** The store of a freshly built entity: the supplied attributes (none: empty) and no history. */
  function Fresh(initial: Option<Attributes>): (s: Store)
    ensures s.history == map[]
    ensures initial.Some? ==> s.attributes == initial.value
    ensures initial.None? ==> s.attributes == map[]
  {
    Store(if initial.Some? then initial.value else map[], map[])
  }

  /** A recorded call set_attribute(name, value, year). */
  datatype WriteOp = WriteOp(name: string, value: Value, year: int)

  /** The store after performing the writes in order. */
  function Replay(s: Store, ops: seq<WriteOp>): Store
    decreases |ops|
  {
    if ops == [] then s
    else
      var last := ops[|ops| - 1];
      Replay(s, ops[..|ops| - 1]).Write(last.name, last.value, last.year)
  }

  /** The value of the last write to `name` in `year`, if any. */
  function LastInYear(ops: seq<WriteOp>, name: string, year: int): Option<Value>
    decreases |ops|
  {
    if ops == [] then None
    else
      var last := ops[|ops| - 1];
      if last.name == name && last.year == year then Some(last.value)
      else LastInYear(ops[..|ops| - 1], name, year)
  }

  /** The value of the last write to `name` in any year, if any. */
  function LastWrite(ops: seq<WriteOp>, name: string): Option<Value>
    decreases |ops|
  {
    if ops == [] then None
    else
      var last := ops[|ops| - 1];
      if last.name == name then Some(last.value) else LastWrite(ops[..|ops| - 1], name)
  }

  /** Two writes to one attribute in one year leave only the second in the log and in
      the current value. */
  lemma LastWriteWins(s: Store, name: string, v1: Value, v2: Value, year: int)
    ensures s.Write(name, v1, year).Write(name, v2, year) == s.Write(name, v2, year)
  {
    var twice, once := s.Write(name, v1, year).Write(name, v2, year), s.Write(name, v2, year);
    assert twice.attributes == once.attributes;
    assert twice.history[year] == once.history[year];
    assert twice.history == once.history;
  }

  /** Some write of `init + [last]` uses `year` iff one of `init` does, or `last` does. */
  lemma UsesYearSplit(ops: seq<WriteOp>, init: seq<WriteOp>, last: WriteOp, year: int)
    requires ops == init + [last]
    ensures (exists i :: 0 <= i < |ops| && ops[i].year == year) <==>
              (exists i :: 0 <= i < |init| && init[i].year == year) || last.year == year
  {
    assert ops[|init|] == last;
    if exists i :: 0 <= i < |ops| && ops[i].year == year {
      var j :| 0 <= j < |ops| && ops[j].year == year;
      if j < |init| { assert init[j] == ops[j]; }
    }
    if exists i :: 0 <= i < |init| && init[i].year == year {
      var j :| 0 <= j < |init| && init[j].year == year;
      assert ops[j] == init[j];
    }
    if last.year == year {
      assert ops[|init|].year == year;
    }
  }

  /** The years logged are those logged before plus exactly the years some write used. */
  lemma {:induction false} ReplayYears(s: Store, ops: seq<WriteOp>, year: int)
    ensures year in Replay(s, ops).history <==>
              year in s.history || exists i :: 0 <= i < |ops| && ops[i].year == year
    decreases |ops|
  {
    if ops != [] {
      ReplayYears(s, ops[..|ops| - 1], year);
      UsesYearSplit(ops, ops[..|ops| - 1], ops[|ops| - 1], year);
    }
  }

  /** One write adds exactly its own attribute to its own year's log. */
  lemma WriteYearLog(s: Store, n: string, v: Value, y: int, name: string, year: int)
    ensures name in s.Write(n, v, y).YearLog(year) <==>
              name in s.YearLog(year) || (n == name && y == year)
  {
  }

  /** Some write targeted `name` in `year` exactly when a last such write exists. */
  lemma {:induction false} LastInYearExists(ops: seq<WriteOp>, name: string, year: int)
    ensures LastInYear(ops, name, year).Some? <==>
              exists i :: 0 <= i < |ops| && ops[i].name == name && ops[i].year == year
    decreases |ops|
  {
    if ops != [] {
      var init := ops[..|ops| - 1];
      LastInYearExists(init, name, year);
      if exists i :: 0 <= i < |init| && init[i].name == name && init[i].year == year {
        var j :| 0 <= j < |init| && init[j].name == name && init[j].year == year;
        assert ops[j] == init[j];
      }
      if exists i :: 0 <= i < |ops| && ops[i].name == name && ops[i].year == year {
        var j :| 0 <= j < |ops| && ops[j].name == name && ops[j].year == year;
        if j < |init| { assert init[j] == ops[j]; }
      }
    }
  }

  /** An attribute is in a year's log after the writes iff it was logged there before or
      some write targeted that attribute in that year. */
  lemma {:induction false} ReplayLogged(s: Store, ops: seq<WriteOp>, name: string, year: int)
    ensures name in Replay(s, ops).YearLog(year) <==>
              name in s.YearLog(year) ||
              exists i :: 0 <= i < |ops| && ops[i].name == name && ops[i].year == year
    decreases |ops|
  {
    LastInYearExists(ops, name, year);
    if ops != [] {
      var init := ops[..|ops| - 1];
      var last := ops[|ops| - 1];
      ReplayLogged(s, init, name, year);
      LastInYearExists(init, name, year);
      WriteYearLog(Replay(s, init), last.name, last.value, last.year, name, year);
    }
  }

  /** The value logged for an attribute in a year is the last write to it in that year;
      without such a write the year's entry for it is what it was before. */
  lemma {:induction false} ReplayLoggedValue(s: Store, ops: seq<WriteOp>, name: string, year: int)
    ensures LastInYear(ops, name, year).Some? ==>
              name in Replay(s, ops).YearLog(year) &&
              Replay(s, ops).YearLog(year)[name] == LastInYear(ops, name, year).value
    ensures LastInYear(ops, name, year).None? && name in s.YearLog(year) ==>
              name in Replay(s, ops).YearLog(year) &&
              Replay(s, ops).YearLog(year)[name] == s.YearLog(year)[name]
    decreases |ops|
  {
    if ops != [] {
      ReplayLoggedValue(s, ops[..|ops| - 1], name, year);
    }
  }

  /** The current value of an attribute after the writes is its last write, in whatever year;
      an attribute never written keeps its previous value (or stays absent). */
  lemma {:induction false} ReplayCurrent(s: Store, ops: seq<WriteOp>, name: string)
    ensures LastWrite(ops, name).Some? ==> Replay(s, ops).Get(name, None) == LastWrite(ops, name).value
    ensures LastWrite(ops, name).None? ==> Replay(s, ops).Get(name, None) == s.Get(name, None)
    decreases |ops|
  {
    if ops != [] {
      ReplayCurrent(s, ops[..|ops| - 1], name);
    }
  }

  /** Reading a year for which an attribute was never logged gives its current value. */
  lemma FallBackToCurrent(s: Store, ops: seq<WriteOp>, name: string, year: int)
    requires year !in s.history || name !in s.history[year]
    requires forall i :: 0 <= i < |ops| ==> !(ops[i].name == name && ops[i].year == year)
    ensures Replay(s, ops).Get(name, Some(year)) == Replay(s, ops).Get(name, None)
  {
    ReplayLogged(s, ops, name, year);
  }
}
