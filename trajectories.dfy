/** transform_yearly_results_to_trajectories: results keyed year -> category -> records are
    regrouped as category -> model id -> the records of that model, each tagged with its year,
    years ascending. */
module Trajectories {
  import opened Values
  import opened Snapshots
  import opened Runs

  /** A record as a dict from field name to value. */
  type Row = map<string, Value>

  /** One year's data: its categories in dict order, each with its list of records. */
  type YearData = seq<(string, seq<Row>)>

  /** The transform's input: year -> that year's data. */
  type Yearly = map<int, YearData>

  /** A model id as a dict key. Python hashes True and 1 (False and 0) to the same key. */
  datatype Key = NoneKey | NumKey(n: int) | StrKey(s: string)

  /** The grouping the transform returns: category -> model id -> trajectory. */
  type Traj = map<string, map<Key, seq<Row>>>

  /** One record visited by the loops, with the year and category it was found under. */
  datatype Entry = Entry(year: int, category: string, row: Row)

  /** Why the transform raised, and on which record. */
  datatype Failure =
    | MissingId(at: Entry)    // KeyError: the record has no 'model_id'
    | Unhashable(at: Entry)   // TypeError: the model id is a list or a dict

  /** The transform's result: the grouping, or the exception that ended it. */
  datatype Outcome = Done(traj: Traj) | Raised(failure: Failure)

  /** Python equality on the values that can be dict keys: numbers compare by value with
      booleans as 0 and 1, strings by content, None only with None. */
  predicate PyEquals(v: Value, w: Value)
    requires !IsComposite(v) && !IsComposite(w)
  {
    match v
    case Null => w.Null?
    case Str(s) => w.Str? && w.s == s
    case Bool(_) => (w.Bool? || w.Int?) && NumberOf(v) == NumberOf(w)
    case Int(_) => (w.Bool? || w.Int?) && NumberOf(v) == NumberOf(w)
    case _ => false
  }

  /** The number a boolean or integer stands for. */
  function NumberOf(v: Value): int
    requires v.Bool? || v.Int?
  {
    if v.Bool? then (if v.b then 1 else 0) else v.i
  }

  /** The dict key of a model id; None when Python cannot hash it (TypeError). */
  function KeyOf(v: Value): (r: Option<Key>)
    ensures r.None? <==> IsComposite(v)
  {
    match v
    case Null => Some(NoneKey)
    case Bool(b) => Some(NumKey(if b then 1 else 0))
    case Int(i) => Some(NumKey(i))
    case Str(s) => Some(StrKey(s))
    case _ => None
  }

  /** Two hashable model ids land on the same key exactly when Python finds them equal. */
  lemma KeyOfEquality(v: Value, w: Value)
    requires !IsComposite(v) && !IsComposite(w)
    ensures KeyOf(v) == KeyOf(w) <==> PyEquals(v, w)
  {
  }

  /** `{'year': year, **record}`: the record with its year added; a field named year in the
      record overrides the injected one. */
  function WithYear(year: int, row: Row): Row
  {
    map["year" := Int(year)] + row
  }

  /** The tagged record has the record's fields and a year; the record's own fields, a year
      among them, win over the injected one. */
  lemma WithYearFields(year: int, row: Row)
    ensures WithYear(year, row).Keys == row.Keys + {"year"}
    ensures WithYear(year, row)["year"] == if "year" in row then row["year"] else Int(year)
    ensures forall k :: k in row ==> WithYear(year, row)[k] == row[k]
  {
  }

  /** The key an entry is grouped under, if it has a hashable model id. */
  function EntryKey(e: Entry): Option<Key>
  {
    if "model_id" in e.row then KeyOf(e.row["model_id"]) else None
  }

  /** An entry on which the transform raises. */
  predicate Bad(e: Entry)
  {
    EntryKey(e).None?
  }

  /** The exception a bad entry raises: KeyError before any hashing is attempted. */
  function FailureOf(e: Entry): Failure
  {
    if "model_id" !in e.row then MissingId(e) else Unhashable(e)
  }

  /** The trajectory stored for (category, key), empty when there is none. */
  function Get(t: Traj, c: string, k: Key): seq<Row>
  {
    if c in t && k in t[c] then t[c][k] else []
  }

  /** `trajectories[category][model_id].append(row)` on nested defaultdicts. */
  function Append(t: Traj, c: string, k: Key, row: Row): Traj
  {
    var inner := if c in t then t[c] else map[];
    var list := if k in inner then inner[k] else [];
    t[c := inner[k := list + [row]]]
  }

  /** The append extends the one trajectory it names and leaves every other as it was. */
  lemma AppendGet(t: Traj, c: string, k: Key, row: Row)
    ensures Append(t, c, k, row).Keys == t.Keys + {c}
    ensures Append(t, c, k, row)[c].Keys == (if c in t then t[c].Keys else {}) + {k}
    ensures forall c', k' :: Get(Append(t, c, k, row), c', k') ==
                            if c' == c && k' == k then Get(t, c, k) + [row] else Get(t, c', k')
  {
  }

  /** The transform's effect on one visited record. */
  function Step(s: Outcome, e: Entry): Outcome
  {
    match s
    case Raised(_) => s
    case Done(t) =>
      match EntryKey(e)
      case None => Raised(FailureOf(e))
      case Some(k) => Done(Append(t, e.category, k, WithYear(e.year, e.row)))
  }

  /** The transform's effect on a sequence of visited records, from a given start. */
  function FoldFrom(s: Outcome, es: seq<Entry>): Outcome
    decreases |es|
  {
    if es == [] then s else Step(FoldFrom(s, es[..|es| - 1]), es[|es| - 1])
  }

  /** The records of one category list, in list order. */
  function VisitCategory(year: int, c: string, rows: seq<Row>): (es: seq<Entry>)
    ensures |es| == |rows|
    ensures forall j :: 0 <= j < |rows| ==> es[j] == Entry(year, c, rows[j])
  {
    seq(|rows|, j requires 0 <= j < |rows| => Entry(year, c, rows[j]))
  }

  /** The records of one year, category by category in dict order. */
  function VisitYear(year: int, data: YearData): seq<Entry>
    decreases |data|
  {
    if data == [] then []
    else VisitYear(year, data[..|data| - 1]) + VisitCategory(year, data[|data| - 1].0, data[|data| - 1].1)
  }

  /** The records of the given years, year by year. */
  function VisitYears(yearly: Yearly, ys: seq<int>): seq<Entry>
    requires forall i :: 0 <= i < |ys| ==> ys[i] in yearly
    decreases |ys|
  {
    if ys == [] then []
    else VisitYears(yearly, ys[..|ys| - 1]) + VisitYear(ys[|ys| - 1], yearly[ys[|ys| - 1]])
  }

  /** Some year of a non-empty set. */
  lemma PickYear(s: set<int>) returns (x: int)
    requires s != {}
    ensures x in s
  {
    if forall y :: y !in s {
      assert false;
    }
    x :| x in s;
  }

  /** A set of years has a least element. */
  lemma {:induction false} LeastOf(s: set<int>) returns (m: int)
    requires s != {}
    ensures m in s && forall y :: y in s ==> m <= y
    decreases |s|
  {
    var x := PickYear(s);
    var rest := s - {x};
    if rest == {} {
      assert s == {x};
      m := x;
    } else {
      var m' := LeastOf(rest);
      assert forall y :: y in s ==> y == x || y in rest;
      m := if x < m' then x else m';
    }
  }

  lemma MinExists(s: set<int>)
    requires s != {}
    ensures exists m :: m in s && forall y :: y in s ==> m <= y
  {
    var m := LeastOf(s);
  }

  /** The least year of a non-empty set. */
  function Min(s: set<int>): (m: int)
    requires s != {}
    ensures m in s && forall y :: y in s ==> m <= y
  {
    MinExists(s);
    var m :| m in s && forall y :: y in s ==> m <= y;
    m
  }

  /** `sorted(yearly_results.keys())`: years of the set, strictly ascending, as many as the
      set has (so each once; SortedYearsCovers shows none is missing). */
  function SortedYears(s: set<int>): (ys: seq<int>)
    ensures |ys| == |s|
    ensures forall i :: 0 <= i < |ys| ==> ys[i] in s
    ensures forall i, j :: 0 <= i < j < |ys| ==> ys[i] < ys[j]
    decreases |s|
  {
    if s == {} then []
    else
      var m := Min(s);
      var rest := SortedYears(s - {m});
      var ys := [m] + rest;
      assert forall i :: 0 < i < |ys| ==> ys[i] == rest[i - 1];
      forall j | 0 <= j < |rest| ensures m < rest[j] {
        assert rest[j] in s - {m};
      }
      ys
  }

  /** Every year of the set is visited. */
  lemma {:induction false} SortedYearsCovers(s: set<int>)
    ensures forall y :: y in s ==> y in SortedYears(s)
    decreases |s|
  {
    if s != {} {
      var m := Min(s);
      SortedYearsCovers(s - {m});
      assert forall y :: y in s ==> y == m || y in s - {m};
    }
  }

  /** Every record of the input, in the order the loops visit them. */
  function Visits(yearly: Yearly): seq<Entry>
  {
    VisitYears(yearly, SortedYears(yearly.Keys))
  }

  /** What the transform returns for the given input. */
  function Trajectories(yearly: Yearly): Outcome
  {
    FoldFrom(Done(map[]), Visits(yearly))
  }

  // ---------------------------------------------------------------------------------------
  // The nested loops

  /** The innermost loop: the records of one category list, appended one by one. */
  method AddCategory(t: Traj, year: int, category: string, rows: seq<Row>) returns (r: Outcome)
    ensures r == FoldFrom(Done(t), VisitCategory(year, category, rows))
  {
    var traj := t;
    var j := 0;
    while j < |rows|
      invariant 0 <= j <= |rows|
      invariant FoldFrom(Done(t), VisitCategory(year, category, rows[..j])) == Done(traj)
    {
      var e := Entry(year, category, rows[j]);
      var key := EntryKey(e);
      if key.None? {
        CategoryRaises(t, year, category, rows, j);
        return Raised(FailureOf(e));
      }
      CategoryStep(t, traj, year, category, rows, j);
      traj := Append(traj, category, key.value, WithYear(year, rows[j]));
      j := j + 1;
    }
    assert rows[..j] == rows;
    r := Done(traj);
  }

  /** A good record of a category list extends its trajectory. */
  lemma CategoryStep(t: Traj, traj: Traj, year: int, category: string, rows: seq<Row>, j: nat)
    requires j < |rows| && FoldFrom(Done(t), VisitCategory(year, category, rows[..j])) == Done(traj)
    requires EntryKey(Entry(year, category, rows[j])).Some?
    ensures FoldFrom(Done(t), VisitCategory(year, category, rows[..j + 1])) ==
            Done(Append(traj, category, EntryKey(Entry(year, category, rows[j])).value, WithYear(year, rows[j])))
  {
    VisitCategorySnoc(year, category, rows, j);
  }

  /** A bad record of a category list ends the transform with its exception. */
  lemma CategoryRaises(t: Traj, year: int, category: string, rows: seq<Row>, j: nat)
    requires j < |rows| && FoldFrom(Done(t), VisitCategory(year, category, rows[..j])).Done?
    requires Bad(Entry(year, category, rows[j]))
    ensures FoldFrom(Done(t), VisitCategory(year, category, rows)) == Raised(FailureOf(Entry(year, category, rows[j])))
  {
    VisitCategorySnoc(year, category, rows, j);
    VisitCategoryPrefix(year, category, rows, j + 1);
    RaisedPrefix(Done(t), VisitCategory(year, category, rows[..j + 1]), VisitCategory(year, category, rows));
  }

  /** The middle loop: the categories of one year, in dict order. */
  method AddYear(t: Traj, year: int, data: YearData) returns (r: Outcome)
    ensures r == FoldFrom(Done(t), VisitYear(year, data))
  {
    var traj := t;
    var c := 0;
    while c < |data|
      invariant 0 <= c <= |data|
      invariant FoldFrom(Done(t), VisitYear(year, data[..c])) == Done(traj)
    {
      var (category, rows) := data[c];
      r := AddCategory(traj, year, category, rows);
      YearStep(t, traj, year, data, c);
      if r.Raised? {
        YearRaises(t, year, data, c);
        return;
      }
      traj := r.traj;
      c := c + 1;
    }
    assert data[..c] == data;
    r := Done(traj);
  }

  /** One more category of a year continues from where the previous ones left off. */
  lemma YearStep(t: Traj, traj: Traj, year: int, data: YearData, c: nat)
    requires c < |data| && FoldFrom(Done(t), VisitYear(year, data[..c])) == Done(traj)
    ensures FoldFrom(Done(t), VisitYear(year, data[..c + 1])) ==
            FoldFrom(Done(traj), VisitCategory(year, data[c].0, data[c].1))
  {
    VisitYearSnoc(year, data, c);
    FoldFromAppend(Done(t), VisitYear(year, data[..c]), VisitCategory(year, data[c].0, data[c].1));
  }

  /** A category that raises ends the year, and the transform, with its exception. */
  lemma YearRaises(t: Traj, year: int, data: YearData, c: nat)
    requires c < |data| && FoldFrom(Done(t), VisitYear(year, data[..c + 1])).Raised?
    ensures FoldFrom(Done(t), VisitYear(year, data)) == FoldFrom(Done(t), VisitYear(year, data[..c + 1]))
  {
    VisitYearPrefix(year, data, c + 1);
    RaisedPrefix(Done(t), VisitYear(year, data[..c + 1]), VisitYear(year, data));
  }

  /** transform_yearly_results_to_trajectories: the years in ascending order, each year's
      records appended to the trajectory of their category and model id. */
  method Transform(yearly: Yearly) returns (r: Outcome)
    ensures r == Trajectories(yearly)
  {
    var years := SortedYears(yearly.Keys);
    var traj: Traj := map[];
    var i := 0;
    while i < |years|
      invariant 0 <= i <= |years|
      invariant FoldFrom(Done(map[]), VisitYears(yearly, years[..i])) == Done(traj)
    {
      r := AddYear(traj, years[i], yearly[years[i]]);
      YearsStep(traj, yearly, years, i);
      if r.Raised? {
        YearsRaise(yearly, years, i);
        return;
      }
      traj := r.traj;
      i := i + 1;
    }
    assert years[..i] == years;
    r := Done(traj);
  }

  /** One more year continues from where the previous ones left off. */
  lemma YearsStep(traj: Traj, yearly: Yearly, ys: seq<int>, i: nat)
    requires i < |ys| && forall j :: 0 <= j < |ys| ==> ys[j] in yearly
    requires FoldFrom(Done(map[]), VisitYears(yearly, ys[..i])) == Done(traj)
    ensures FoldFrom(Done(map[]), VisitYears(yearly, ys[..i + 1])) ==
            FoldFrom(Done(traj), VisitYear(ys[i], yearly[ys[i]]))
  {
    VisitYearsSnoc(yearly, ys, i);
    FoldFromAppend(Done(map[]), VisitYears(yearly, ys[..i]), VisitYear(ys[i], yearly[ys[i]]));
  }

  /** A year that raises ends the transform with its exception. */
  lemma YearsRaise(yearly: Yearly, ys: seq<int>, i: nat)
    requires i < |ys| && forall j :: 0 <= j < |ys| ==> ys[j] in yearly
    requires FoldFrom(Done(map[]), VisitYears(yearly, ys[..i + 1])).Raised?
    ensures FoldFrom(Done(map[]), VisitYears(yearly, ys)) == FoldFrom(Done(map[]), VisitYears(yearly, ys[..i + 1]))
  {
    VisitYearsPrefix(yearly, ys, i + 1);
    RaisedPrefix(Done(map[]), VisitYears(yearly, ys[..i + 1]), VisitYears(yearly, ys));
  }

  // ---------------------------------------------------------------------------------------
  // How the visit order decomposes

  lemma VisitCategorySnoc(year: int, c: string, rows: seq<Row>, j: nat)
    requires j < |rows|
    ensures VisitCategory(year, c, rows[..j + 1]) == VisitCategory(year, c, rows[..j]) + [Entry(year, c, rows[j])]
  {
  }

  lemma VisitCategoryPrefix(year: int, c: string, rows: seq<Row>, j: nat)
    requires j <= |rows|
    ensures VisitCategory(year, c, rows[..j]) <= VisitCategory(year, c, rows)
  {
  }

  lemma VisitYearSnoc(year: int, data: YearData, c: nat)
    requires c < |data|
    ensures VisitYear(year, data[..c + 1]) == VisitYear(year, data[..c]) + VisitCategory(year, data[c].0, data[c].1)
  {
    assert data[..c + 1][..c] == data[..c];
  }

  lemma {:induction false} VisitYearPrefix(year: int, data: YearData, c: nat)
    requires c <= |data|
    ensures VisitYear(year, data[..c]) <= VisitYear(year, data)
    decreases |data| - c
  {
    if c < |data| {
      VisitYearPrefix(year, data, c + 1);
      VisitYearSnoc(year, data, c);
    } else {
      assert data[..c] == data;
    }
  }

  lemma VisitYearsSnoc(yearly: Yearly, ys: seq<int>, i: nat)
    requires i < |ys| && forall j :: 0 <= j < |ys| ==> ys[j] in yearly
    ensures VisitYears(yearly, ys[..i + 1]) == VisitYears(yearly, ys[..i]) + VisitYear(ys[i], yearly[ys[i]])
  {
    assert ys[..i + 1][..i] == ys[..i];
  }

  lemma {:induction false} VisitYearsPrefix(yearly: Yearly, ys: seq<int>, i: nat)
    requires i <= |ys| && forall j :: 0 <= j < |ys| ==> ys[j] in yearly
    ensures VisitYears(yearly, ys[..i]) <= VisitYears(yearly, ys)
    decreases |ys| - i
  {
    if i < |ys| {
      VisitYearsPrefix(yearly, ys, i + 1);
      VisitYearsSnoc(yearly, ys, i);
    } else {
      assert ys[..i] == ys;
    }
  }

  // ---------------------------------------------------------------------------------------
  // The fold

  /** Folding a concatenation is folding its parts one after the other. */
  lemma {:induction false} FoldFromAppend(s: Outcome, a: seq<Entry>, b: seq<Entry>)
    ensures FoldFrom(s, a + b) == FoldFrom(FoldFrom(s, a), b)
    decreases |b|
  {
    if b == [] {
      assert a + b == a;
    } else {
      var init := b[..|b| - 1];
      FoldFromAppend(s, a, init);
      assert (a + b)[..|a + b| - 1] == a + init;
    }
  }

  /** Once the transform has raised, the records after it change nothing. */
  lemma {:induction false} RaisedPrefix(s: Outcome, p: seq<Entry>, es: seq<Entry>)
    requires p <= es && FoldFrom(s, p).Raised?
    ensures FoldFrom(s, es) == FoldFrom(s, p)
    decreases |es|
  {
    if |es| > |p| {
      RaisedPrefix(s, p, es[..|es| - 1]);
    } else {
      assert es == p;
    }
  }

  /** The records with the given category and key, in visiting order. */
  function Matching(es: seq<Entry>, c: string, k: Key): (ms: seq<Entry>)
    ensures |ms| <= |es|
    decreases |es|
  {
    if es == [] then []
    else
      var last := es[|es| - 1];
      Matching(es[..|es| - 1], c, k) + (if last.category == c && EntryKey(last) == Some(k) then [last] else [])
  }

  /** The stored form of matching records: each with its year added. */
  function Rows(ms: seq<Entry>): (rs: seq<Row>)
    ensures |rs| == |ms|
    ensures forall i :: 0 <= i < |ms| ==> rs[i] == WithYear(ms[i].year, ms[i].row)
  {
    seq(|ms|, i requires 0 <= i < |ms| => WithYear(ms[i].year, ms[i].row))
  }

  lemma RowsAppend(a: seq<Entry>, b: seq<Entry>)
    ensures Rows(a + b) == Rows(a) + Rows(b)
  {
  }

  /** The categories of some records. */
  function Categories(es: seq<Entry>): set<string>
    decreases |es|
  {
    if es == [] then {} else Categories(es[..|es| - 1]) + {es[|es| - 1].category}
  }

  /** Every list in a grouping has at least one record: a key is only created by an append. */
  predicate NoEmptyLists(t: Traj)
  {
    forall c, k :: c in t && k in t[c] ==> t[c][k] != []
  }

  /** A run without a raise groups every record under its category and key, in order: the
      trajectory of (c, k) is exactly the matching records with their years. */
  lemma {:induction false} FoldGroups(es: seq<Entry>)
    requires FoldFrom(Done(map[]), es).Done?
    ensures var t := FoldFrom(Done(map[]), es).traj;
            forall c, k :: Get(t, c, k) == Rows(Matching(es, c, k))
    decreases |es|
  {
    if es != [] {
      var init, last := es[..|es| - 1], es[|es| - 1];
      FoldGroups(init);
      var t0, t := FoldFrom(Done(map[]), init).traj, FoldFrom(Done(map[]), es).traj;
      AppendGet(t0, last.category, EntryKey(last).value, WithYear(last.year, last.row));
      forall c, k ensures Get(t, c, k) == Rows(Matching(es, c, k)) {
        RowsAppend(Matching(init, c, k), if last.category == c && EntryKey(last) == Some(k) then [last] else []);
      }
    }
  }

  /** The categories of a grouping are those of its records, and none of its lists is empty:
      a category without records never appears. */
  lemma {:induction false} FoldShape(es: seq<Entry>)
    requires FoldFrom(Done(map[]), es).Done?
    ensures FoldFrom(Done(map[]), es).traj.Keys == Categories(es)
    ensures NoEmptyLists(FoldFrom(Done(map[]), es).traj)
    decreases |es|
  {
    if es != [] {
      var init := es[..|es| - 1];
      FoldShape(init);
      var t0, t := FoldFrom(Done(map[]), init).traj, FoldFrom(Done(map[]), es).traj;
      var last := es[|es| - 1];
      AppendGet(t0, last.category, EntryKey(last).value, WithYear(last.year, last.row));
      forall c, k | c in t && k in t[c] ensures t[c][k] != [] {
        assert t[c][k] == Get(t, c, k);
        if c in t0 && k in t0[c] {
          assert Get(t0, c, k) == t0[c][k];
        }
      }
    }
  }

  /** One record keeps the transform going exactly when it was going and the record is good. */
  lemma StepDone(s: Outcome, e: Entry)
    ensures Step(s, e).Done? <==> s.Done? && !Bad(e)
  {
  }

  /** The transform completes exactly when no record is bad. */
  lemma {:induction false} FoldDone(s: Traj, es: seq<Entry>)
    ensures FoldFrom(Done(s), es).Done? <==> forall i :: 0 <= i < |es| ==> !Bad(es[i])
    decreases |es|
  {
    if es != [] {
      var init, last := es[..|es| - 1], es[|es| - 1];
      FoldDone(s, init);
      StepDone(FoldFrom(Done(s), init), last);
      assert forall i :: 0 <= i < |init| ==> init[i] == es[i];
      if !Bad(last) && forall i :: 0 <= i < |init| ==> !Bad(init[i]) {
        assert forall i :: 0 <= i < |es| ==> !Bad(es[i]) by {
          forall i | 0 <= i < |es| ensures !Bad(es[i]) {
            if i < |init| {
              assert es[i] == init[i];
            }
          }
        }
      }
    }
  }

  /** When the transform raises, it does so on the first bad record in visiting order, with
      KeyError for a missing id and TypeError for an unhashable one. */
  lemma {:induction false} FoldFirstFailure(s: Traj, es: seq<Entry>)
    requires FoldFrom(Done(s), es).Raised?
    ensures exists i :: 0 <= i < |es| && Bad(es[i]) && (forall j :: 0 <= j < i ==> !Bad(es[j])) &&
                        FoldFrom(Done(s), es).failure == FailureOf(es[i])
    decreases |es|
  {
    var init, last := es[..|es| - 1], es[|es| - 1];
    assert forall j :: 0 <= j < |init| ==> init[j] == es[j];
    if FoldFrom(Done(s), init).Raised? {
      FoldFirstFailure(s, init);
      var i :| 0 <= i < |init| && Bad(init[i]) && (forall j :: 0 <= j < i ==> !Bad(init[j])) &&
               FoldFrom(Done(s), init).failure == FailureOf(init[i]);
      assert Bad(es[i]) && forall j :: 0 <= j < i ==> !Bad(es[j]);
    } else {
      FoldDone(s, init);
      assert Bad(es[|es| - 1]) && forall j :: 0 <= j < |es| - 1 ==> !Bad(es[j]);
    }
  }

  /** No record is later than the given year. */
  predicate NotAfter(es: seq<Entry>, year: int)
  {
    forall i :: 0 <= i < |es| ==> es[i].year <= year
  }

  /** The records are in ascending year order. */
  predicate YearsAscend(es: seq<Entry>)
  {
    forall i, j :: 0 <= i < j < |es| ==> es[i].year <= es[j].year
  }

  lemma {:induction false} MatchingNotAfter(es: seq<Entry>, c: string, k: Key, year: int)
    requires NotAfter(es, year)
    ensures NotAfter(Matching(es, c, k), year)
    decreases |es|
  {
    if es != [] {
      var init := es[..|es| - 1];
      assert forall i :: 0 <= i < |init| ==> init[i] == es[i];
      MatchingNotAfter(init, c, k, year);
    }
  }

  /** Matching keeps the visiting order, so years that ascend in the visit ascend in every
      trajectory. */
  lemma {:induction false} MatchingAscends(es: seq<Entry>, c: string, k: Key)
    requires YearsAscend(es)
    ensures YearsAscend(Matching(es, c, k))
    decreases |es|
  {
    if es != [] {
      var init, last := es[..|es| - 1], es[|es| - 1];
      assert forall i :: 0 <= i < |init| ==> init[i] == es[i];
      MatchingAscends(init, c, k);
      MatchingNotAfter(init, c, k, last.year);
    }
  }

  /** The positions of the records with the given category and key. */
  function Positions(es: seq<Entry>, c: string, k: Key): (ps: set<nat>)
    ensures forall p :: p in ps ==> p < |es|
  {
    set p: nat | p < |es| && es[p].category == c && EntryKey(es[p]) == Some(k)
  }

  lemma PositionsSnoc(es: seq<Entry>, c: string, k: Key)
    requires es != []
    ensures var last := es[|es| - 1];
            Positions(es, c, k) ==
              Positions(es[..|es| - 1], c, k) + (if last.category == c && EntryKey(last) == Some(k) then {|es| - 1} else {})
  {
    var init := es[..|es| - 1];
    assert forall p :: 0 <= p < |init| ==> init[p] == es[p];
  }

  /** Each matching record is kept once per occurrence: a trajectory is as long as the number
      of positions holding its category and key, duplicates included. */
  lemma {:induction false} MatchingCount(es: seq<Entry>, c: string, k: Key)
    ensures |Matching(es, c, k)| == |Positions(es, c, k)|
    decreases |es|
  {
    if es == [] {
      assert Positions(es, c, k) == {};
    } else {
      var init := es[..|es| - 1];
      MatchingCount(init, c, k);
      PositionsSnoc(es, c, k);
      assert |es| - 1 !in Positions(init, c, k);
    }
  }

  // ---------------------------------------------------------------------------------------
  // The visit order against the input

  /** Every record of a year's visit carries that year. */
  lemma {:induction false} VisitYearIs(year: int, data: YearData)
    ensures forall i :: 0 <= i < |VisitYear(year, data)| ==> VisitYear(year, data)[i].year == year
    decreases |data|
  {
    if data != [] {
      VisitYearIs(year, data[..|data| - 1]);
    }
  }

  /** Years come in ascending order in the visit, none after the last year visited. */
  lemma {:induction false} VisitYearsAscend(yearly: Yearly, ys: seq<int>)
    requires forall i :: 0 <= i < |ys| ==> ys[i] in yearly
    requires forall i, j :: 0 <= i < j < |ys| ==> ys[i] < ys[j]
    ensures YearsAscend(VisitYears(yearly, ys))
    ensures ys != [] ==> NotAfter(VisitYears(yearly, ys), ys[|ys| - 1])
    decreases |ys|
  {
    if ys != [] {
      var init, y := ys[..|ys| - 1], ys[|ys| - 1];
      VisitYearsAscend(yearly, init);
      VisitYearIs(y, yearly[y]);
      var a, b := VisitYears(yearly, init), VisitYear(y, yearly[y]);
      if init != [] {
        assert init[|init| - 1] < y;
      }
      assert NotAfter(a, y);
      var es := a + b;
      assert forall i :: 0 <= i < |es| ==> es[i] == if i < |a| then a[i] else b[i - |a|];
    }
  }

  /** Record j of category c of a year's data is visited. */
  lemma {:induction false} VisitYearHas(year: int, data: YearData, c: nat, j: nat)
    requires c < |data| && j < |data[c].1|
    ensures Entry(year, data[c].0, data[c].1[j]) in VisitYear(year, data)
    decreases |data|
  {
    var init := data[..|data| - 1];
    if c < |init| {
      assert init[c] == data[c];
      VisitYearHas(year, init, c, j);
    } else {
      assert VisitCategory(year, data[c].0, data[c].1)[j] == Entry(year, data[c].0, data[c].1[j]);
    }
  }

  /** Record j of category c of year ys[n] is visited. */
  lemma {:induction false} VisitYearsHas(yearly: Yearly, ys: seq<int>, n: nat, c: nat, j: nat)
    requires forall i :: 0 <= i < |ys| ==> ys[i] in yearly
    requires n < |ys| && c < |yearly[ys[n]]| && j < |yearly[ys[n]][c].1|
    ensures Entry(ys[n], yearly[ys[n]][c].0, yearly[ys[n]][c].1[j]) in VisitYears(yearly, ys)
    decreases |ys|
  {
    var init := ys[..|ys| - 1];
    if n < |init| {
      assert init[n] == ys[n];
      VisitYearsHas(yearly, init, n, c, j);
    } else {
      VisitYearHas(ys[n], yearly[ys[n]], c, j);
    }
  }

  /** Visited record n of a year is record j of its category c. */
  lemma {:induction false} VisitYearFrom(year: int, data: YearData, n: nat) returns (c: nat, j: nat)
    requires n < |VisitYear(year, data)|
    ensures c < |data| && j < |data[c].1|
    ensures VisitYear(year, data)[n] == Entry(year, data[c].0, data[c].1[j])
    decreases |data|
  {
    var init := data[..|data| - 1];
    var a := VisitYear(year, init);
    if n < |a| {
      c, j := VisitYearFrom(year, init, n);
      assert init[c] == data[c];
    } else {
      c, j := |data| - 1, n - |a|;
    }
  }

  /** Visited record n is record j of category c of the year ys[m]. */
  lemma {:induction false} VisitYearsFrom(yearly: Yearly, ys: seq<int>, n: nat) returns (m: nat, c: nat, j: nat)
    requires forall i :: 0 <= i < |ys| ==> ys[i] in yearly
    requires n < |VisitYears(yearly, ys)|
    ensures m < |ys| && c < |yearly[ys[m]]| && j < |yearly[ys[m]][c].1|
    ensures VisitYears(yearly, ys)[n] == Entry(ys[m], yearly[ys[m]][c].0, yearly[ys[m]][c].1[j])
    decreases |ys|
  {
    var init := ys[..|ys| - 1];
    var a := VisitYears(yearly, init);
    if n < |a| {
      m, c, j := VisitYearsFrom(yearly, init, n);
      assert init[m] == ys[m];
    } else {
      m := |ys| - 1;
      c, j := VisitYearFrom(ys[m], yearly[ys[m]], n - |a|);
    }
  }

  /** Visited record n is record j of category c of some year y of the input. */
  lemma VisitsFrom(yearly: Yearly, n: nat) returns (y: int, c: nat, j: nat)
    requires n < |Visits(yearly)|
    ensures y in yearly && c < |yearly[y]| && j < |yearly[y][c].1|
    ensures Visits(yearly)[n] == Entry(y, yearly[y][c].0, yearly[y][c].1[j])
  {
    var ys := SortedYears(yearly.Keys);
    var m;
    m, c, j := VisitYearsFrom(yearly, ys, n);
    y := ys[m];
  }

  /** Every record of every year of the input is visited. */
  lemma VisitsHas(yearly: Yearly, y: int, c: nat, j: nat)
    requires y in yearly && c < |yearly[y]| && j < |yearly[y][c].1|
    ensures Entry(y, yearly[y][c].0, yearly[y][c].1[j]) in Visits(yearly)
  {
    var ys := SortedYears(yearly.Keys);
    SortedYearsCovers(yearly.Keys);
    var n :| 0 <= n < |ys| && ys[n] == y;
    VisitYearsHas(yearly, ys, n, c, j);
  }

  lemma {:induction false} CategoriesAppend(a: seq<Entry>, b: seq<Entry>)
    ensures Categories(a + b) == Categories(a) + Categories(b)
    decreases |b|
  {
    if b == [] {
      assert a + b == a;
    } else {
      CategoriesAppend(a, b[..|b| - 1]);
      assert (a + b)[..|a + b| - 1] == a + b[..|b| - 1];
    }
  }

  lemma {:induction false} CategoriesOfCategory(year: int, c: string, rows: seq<Row>)
    ensures Categories(VisitCategory(year, c, rows)) == if rows == [] then {} else {c}
    decreases |rows|
  {
    if rows != [] {
      var init := rows[..|rows| - 1];
      CategoriesOfCategory(year, c, init);
      assert VisitCategory(year, c, rows)[..|rows| - 1] == VisitCategory(year, c, init);
    }
  }

  /** The categories of a year's visit: those of its categories with a non-empty list. */
  lemma {:induction false} CategoriesOfYear(year: int, data: YearData)
    ensures forall c :: c in Categories(VisitYear(year, data)) <==>
              exists i :: 0 <= i < |data| && data[i].0 == c && data[i].1 != []
    decreases |data|
  {
    if data != [] {
      var init, last := data[..|data| - 1], data[|data| - 1];
      CategoriesOfYear(year, init);
      CategoriesAppend(VisitYear(year, init), VisitCategory(year, last.0, last.1));
      CategoriesOfCategory(year, last.0, last.1);
      assert forall i :: 0 <= i < |init| ==> init[i] == data[i];
    }
  }

  /** The categories of the visit of some years: those with a non-empty list in one of them. */
  lemma {:induction false} CategoriesOfYears(yearly: Yearly, ys: seq<int>)
    requires forall i :: 0 <= i < |ys| ==> ys[i] in yearly
    ensures forall c :: c in Categories(VisitYears(yearly, ys)) <==>
              exists n, i :: 0 <= n < |ys| && 0 <= i < |yearly[ys[n]]| && yearly[ys[n]][i].0 == c && yearly[ys[n]][i].1 != []
    decreases |ys|
  {
    if ys != [] {
      var init, y := ys[..|ys| - 1], ys[|ys| - 1];
      CategoriesOfYears(yearly, init);
      CategoriesAppend(VisitYears(yearly, init), VisitYear(y, yearly[y]));
      CategoriesOfYear(y, yearly[y]);
      assert forall n :: 0 <= n < |init| ==> init[n] == ys[n];
    }
  }

  /** A good record is in the matching records of its own category and key. */
  lemma {:induction false} MatchingHas(es: seq<Entry>, e: Entry)
    requires e in es && EntryKey(e).Some?
    ensures e in Matching(es, e.category, EntryKey(e).value)
    decreases |es|
  {
    var init := es[..|es| - 1];
    if e != es[|es| - 1] {
      var i :| 0 <= i < |es| && es[i] == e;
      assert init[i] == e;
      MatchingHas(init, e);
    }
  }

  // ---------------------------------------------------------------------------------------
  // What the transform promises

  /** Without a raise, every trajectory is exactly the records of its category and model id
      in visiting order, each tagged with its year; a model id is a key under its category
      exactly when it has records there; and each record of each year is in the trajectory of
      its category and id. */
  lemma TrajectoriesGroups(yearly: Yearly)
    requires Trajectories(yearly).Done?
    ensures var t := Trajectories(yearly).traj;
            forall c, k :: Get(t, c, k) == Rows(Matching(Visits(yearly), c, k))
    ensures var t := Trajectories(yearly).traj;
            forall c, k :: c in t ==> (k in t[c] <==> Matching(Visits(yearly), c, k) != [])
    ensures forall y, c, j :: y in yearly && 0 <= c < |yearly[y]| && 0 <= j < |yearly[y][c].1| ==>
              var e := Entry(y, yearly[y][c].0, yearly[y][c].1[j]);
              EntryKey(e).Some? && e in Matching(Visits(yearly), e.category, EntryKey(e).value)
  {
    var es := Visits(yearly);
    FoldGroups(es);
    FoldShape(es);
    FoldDone(map[], es);
    forall y, c, j | y in yearly && 0 <= c < |yearly[y]| && 0 <= j < |yearly[y][c].1|
      ensures var e := Entry(y, yearly[y][c].0, yearly[y][c].1[j]);
              EntryKey(e).Some? && e in Matching(es, e.category, EntryKey(e).value)
    {
      VisitsHas(yearly, y, c, j);
      MatchingHas(es, Entry(y, yearly[y][c].0, yearly[y][c].1[j]));
    }
  }

  /** Without a raise, the categories of the result are exactly those with at least one
      record in some year: a category whose lists are all empty does not appear. */
  lemma TrajectoriesCategories(yearly: Yearly)
    requires Trajectories(yearly).Done?
    ensures forall c :: c in Trajectories(yearly).traj <==>
              exists y, i :: y in yearly && 0 <= i < |yearly[y]| && yearly[y][i].0 == c && yearly[y][i].1 != []
  {
    var ys := SortedYears(yearly.Keys);
    FoldShape(Visits(yearly));
    CategoriesOfYears(yearly, ys);
    SortedYearsCovers(yearly.Keys);
  }

  /** Each trajectory lists its records year by year, ascending. */
  lemma TrajectoryYearsAscend(yearly: Yearly, c: string, k: Key)
    ensures YearsAscend(Matching(Visits(yearly), c, k))
  {
    VisitYearsAscend(yearly, SortedYears(yearly.Keys));
    MatchingAscends(Visits(yearly), c, k);
  }

  /** The transform raises exactly when some year holds a record without a model id or with
      one Python cannot hash. */
  lemma TrajectoriesRaise(yearly: Yearly)
    ensures Trajectories(yearly).Raised? <==>
              exists y, c, j :: y in yearly && 0 <= c < |yearly[y]| && 0 <= j < |yearly[y][c].1| &&
                                Bad(Entry(y, yearly[y][c].0, yearly[y][c].1[j]))
  {
    var es := Visits(yearly);
    FoldDone(map[], es);
    if Trajectories(yearly).Raised? {
      var n :| 0 <= n < |es| && Bad(es[n]);
      var y, c, j := VisitsFrom(yearly, n);
    }
    if exists y, c, j :: y in yearly && 0 <= c < |yearly[y]| && 0 <= j < |yearly[y][c].1| &&
                         Bad(Entry(y, yearly[y][c].0, yearly[y][c].1[j])) {
      var y, c, j :| y in yearly && 0 <= c < |yearly[y]| && 0 <= j < |yearly[y][c].1| &&
                     Bad(Entry(y, yearly[y][c].0, yearly[y][c].1[j]));
      VisitsHas(yearly, y, c, j);
    }
  }

  // ---------------------------------------------------------------------------------------
  // On the engine's own results

  /** The engine's results as the transform reads them: each record as its dict. */
  function AsYearly(results: Results): (y: Yearly)
    ensures y.Keys == results.Keys
  {
    map year | year in results :: AsYearData(results[year])
  }

  function AsYearData(snap: Snapshot): (d: YearData)
    ensures |d| == |snap|
    ensures forall c :: 0 <= c < |snap| ==> d[c].0 == snap[c].0 && |d[c].1| == |snap[c].1|
    ensures forall c, j :: 0 <= c < |snap| && 0 <= j < |snap[c].1| ==> d[c].1[j] == snap[c].1[j].Fields()
  {
    seq(|snap|, c requires 0 <= c < |snap| =>
      (snap[c].0, seq(|snap[c].1|, j requires 0 <= j < |snap[c].1| => snap[c].1[j].Fields())))
  }

  /** The engine's snapshots always carry a model id, so on them the transform never raises
      KeyError; it can only raise TypeError, for a list or dict model id. */
  lemma EngineResultsHaveIds(results: Results)
    ensures Trajectories(AsYearly(results)).Raised? ==>
              Trajectories(AsYearly(results)).failure.Unhashable?
  {
    var es := Visits(AsYearly(results));
    if FoldFrom(Done(map[]), es).Raised? {
      EngineVisitsHaveIds(results);
      FoldFirstFailure(map[], es);
      var n :| 0 <= n < |es| && Bad(es[n]) && FoldFrom(Done(map[]), es).failure == FailureOf(es[n]);
      assert "model_id" in es[n].row;
    }
  }

  /** Every record the transform visits in the engine's results has a model_id field. */
  lemma EngineVisitsHaveIds(results: Results)
    ensures var es := Visits(AsYearly(results));
            forall n :: 0 <= n < |es| ==> "model_id" in es[n].row
  {
    var yearly := AsYearly(results);
    forall n | 0 <= n < |Visits(yearly)| ensures "model_id" in Visits(yearly)[n].row {
      var y, c, j := VisitsFrom(yearly, n);
      EngineRecordHasId(results, y, c, j);
    }
  }

  /** Every record of the engine's results has a model_id field. */
  lemma EngineRecordHasId(results: Results, y: int, c: nat, j: nat)
    requires y in AsYearly(results) && c < |AsYearly(results)[y]| && j < |AsYearly(results)[y][c].1|
    ensures "model_id" in AsYearly(results)[y][c].1[j]
  {
    assert AsYearly(results)[y] == AsYearData(results[y]);
  }
}
