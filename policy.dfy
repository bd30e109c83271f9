/** The behaviour specific to policy entities (PolicyModel): a `policy_type` default at
    construction, and an `is_active` flag derived each year from optional start/end bounds. */
module Policies {
  import opened Values
  import opened AttributeStore

  /** Constructor default: `policy_type` is always present, Null when not supplied. */
  function WithPolicyType(attrs: Attributes): (r: Attributes)
    ensures r.Keys == attrs.Keys + {"policy_type"}
    ensures forall k :: k in attrs ==> r[k] == attrs[k]
    ensures "policy_type" !in attrs ==> r["policy_type"] == Null
  {
    if "policy_type" in attrs then attrs else attrs["policy_type" := Null]
  }

  /** How a bound attribute takes part in `current_year < bound`: absent, a number, or a
      value Python refuses to compare with an int (TypeError). */
  datatype Bound = Unbounded | Limit(n: int) | Incomparable

  /** A bound as update_state reads it: only None means "no bound"; booleans compare as 0/1. */
  function AsBound(v: Value): Bound
  {
    match v
    case Null => Unbounded
    case Bool(b) => Limit(if b then 1 else 0)
    case Int(i) => Limit(i)
    case _ => Incomparable
  }

  /** A bound as is_policy_active reads it: every falsy value (None, 0, "", ...) means "no bound". */
  function AsTruthyBound(v: Value): Bound
  {
    if !Truthy(v) then Unbounded else AsBound(v)
  }

  /** Whether `year` passes a pair of bounds; None when a comparison would raise. */
  function Within(lo: Bound, hi: Bound, year: int): Option<bool>
  {
    if lo.Incomparable? || hi.Incomparable? then None
    else Some(!(lo.Limit? && year < lo.n) && !(hi.Limit? && year > hi.n))
  }

  /** The status update_state computes for `year` from `start_year` and `end_year`. */
  function Status(s: Store, year: int): Option<bool>
  {
    Within(AsBound(s.Get("start_year", None)), AsBound(s.Get("end_year", None)), year)
  }

  /** is_policy_active: the same test, but bounds are tested by truthiness. */
  function IsPolicyActive(s: Store, year: int): Option<bool>
  {
    Within(AsTruthyBound(s.Get("start_year", None)), AsTruthyBound(s.Get("end_year", None)), year)
  }

  /** Python's `v == b` for a stored value and a bool (True == 1, False == 0). */
  predicate EqualsBool(v: Value, b: bool)
  {
    match v
    case Bool(c) => c == b
    case Int(i) => i == (if b then 1 else 0)
    case _ => false
  }

  /** The reference reading of activity: start <= year <= end, an absent bound being open. */
  predicate InWindow(start: Option<int>, end: Option<int>, year: int)
  {
    (start.None? || start.value <= year) && (end.None? || year <= end.value)
  }

  /** A bound attribute holding an integer or nothing. */
  function IntBound(v: Value): Option<int>
    requires v.Null? || v.Int?
  {
    if v.Int? then Some(v.i) else None
  }

  /** update_state: recompute the status and write `is_active` only when it differs from
      the current value. None when a bound cannot be compared with an int. */
  function UpdateState(s: Store, year: int): (r: Option<Store>)
    ensures r.None? <==> Status(s, year).None?
    ensures r.Some? ==> EqualsBool(r.value.Get("is_active", None), Status(s, year).value)
    ensures r.Some? && EqualsBool(s.Get("is_active", None), Status(s, year).value) ==> r.value == s
    ensures r.Some? && !EqualsBool(s.Get("is_active", None), Status(s, year).value) ==>
              r.value == s.Write("is_active", Bool(Status(s, year).value), year)
  {
    match Status(s, year)
    case None => None
    case Some(active) =>
      if EqualsBool(s.Get("is_active", None), active) then Some(s)
      else Some(s.Write("is_active", Bool(active), year))
  }

  /** With integer (or absent) bounds, the status is exactly start <= year <= end; a bound
      that is a string or a container makes the update fail. */
  lemma StatusIsWindow(s: Store, year: int)
    ensures var lo, hi := s.Get("start_year", None), s.Get("end_year", None);
            (lo.Null? || lo.Int?) && (hi.Null? || hi.Int?) ==>
              Status(s, year) == Some(InWindow(IntBound(lo), IntBound(hi), year))
    ensures var lo, hi := s.Get("start_year", None), s.Get("end_year", None);
            Status(s, year).None? <==> (lo.Str? || lo.List? || lo.Dict? || hi.Str? || hi.List? || hi.Dict?)
  {
  }

  /** start_year=2025, end_year=2028: active from 2025 through 2028, inactive in 2024 and 2029. */
  lemma WorkedExample(s: Store)
    requires s.Get("start_year", None) == Int(2025) && s.Get("end_year", None) == Int(2028)
    ensures forall y :: 2025 <= y <= 2028 ==> Status(s, y) == Some(true)
    ensures Status(s, 2024) == Some(false) && Status(s, 2029) == Some(false)
  {
  }

  /** A second update in the same year changes neither the attributes nor the history. */
  lemma {:induction false} UpdateIdempotent(s: Store, year: int)
    requires UpdateState(s, year).Some?
    ensures UpdateState(UpdateState(s, year).value, year) == UpdateState(s, year)
  {
    var s' := UpdateState(s, year).value;
    assert s'.Get("start_year", None) == s.Get("start_year", None);
    assert s'.Get("end_year", None) == s.Get("end_year", None);
  }

  /** The update touches no attribute but `is_active`, and no log entry but
      `is_active` in the current year. */
  lemma UpdateFrame(s: Store, year: int, a: string, y: int)
    requires UpdateState(s, year).Some?
    ensures a != "is_active" ==> UpdateState(s, year).value.Get(a, None) == s.Get(a, None)
    ensures (a, y) != ("is_active", year) ==>
              UpdateState(s, year).value.YearLog(y).Keys * {a} == s.YearLog(y).Keys * {a} &&
              (a in s.YearLog(y) ==> UpdateState(s, year).value.YearLog(y)[a] == s.YearLog(y)[a])
  {
  }

  /** For absent or non-zero integer bounds, is_policy_active agrees with update_state. */
  lemma {:induction false} TruthyTestAgrees(s: Store, year: int)
    requires var lo := s.Get("start_year", None); lo.Null? || (lo.Int? && lo.i != 0)
    requires var hi := s.Get("end_year", None); hi.Null? || (hi.Int? && hi.i != 0)
    ensures IsPolicyActive(s, year) == Status(s, year)
  {
    assert AsTruthyBound(s.Get("start_year", None)) == AsBound(s.Get("start_year", None));
    assert AsTruthyBound(s.Get("end_year", None)) == AsBound(s.Get("end_year", None));
  }

  /** A bound of 0 is a real bound for update_state but no bound for is_policy_active:
      with end_year = 0 the two disagree for every positive year. */
  lemma ZeroBoundDisagrees(s: Store, year: int)
    requires s.Get("start_year", None) == Null && s.Get("end_year", None) == Int(0)
    requires year > 0
    ensures Status(s, year) == Some(false)
    ensures IsPolicyActive(s, year) == Some(true)
  {
  }

  /** update_state called once per year, in the given order; None as soon as one call fails. */
  function UpdateSeries(s: Store, years: seq<int>): Option<Store>
    decreases |years|
  {
    if years == [] then Some(s)
    else
      match UpdateSeries(s, years[..|years| - 1])
      case None => None
      case Some(s') => UpdateState(s', years[|years| - 1])
  }

  predicate StrictlyIncreasing(years: seq<int>)
  {
    forall i, j :: 0 <= i < j < |years| ==> years[i] < years[j]
  }

  /** The first update of `s`, in year `y`, writes `is_active`: the value the store holds
      (None unless the scenario supplied one) is not `==` to the status. */
  predicate WritesFirst(s: Store, y: int)
  {
    Status(s, y).Some? && !EqualsBool(s.Get("is_active", None), Status(s, y).value)
  }

  /** A policy whose scenario supplies no `is_active` writes it on its first update, as long
      as the update does not fail. */
  lemma FreshPolicyWritesFirst(s: Store, y: int)
    requires "is_active" !in s.attributes && ComparableBounds(s)
    ensures WritesFirst(s, y)
  {
  }

  /** Whether the update in year k of `years` is expected to log `is_active`: in the first
      year when it writes, later when the status differs from the year before. */
  predicate Flips(s: Store, years: seq<int>, k: int)
    requires 0 <= k < |years|
  {
    if k == 0 then WritesFirst(s, years[0]) else Status(s, years[k]) != Status(s, years[k - 1])
  }

  /** `is_active` is logged in the first of `years` when the first update writes it, and in
      each later one whose status differs from the status of the year before it. */
  predicate LoggedOnFlips(r: Store, s: Store, years: seq<int>)
  {
    forall k {:trigger r.YearLog(years[k])} :: 0 <= k < |years| ==>
      ("is_active" in r.YearLog(years[k]) <==> Flips(s, years, k))
  }

  lemma FlipAt(r: Store, s: Store, years: seq<int>, k: int)
    requires LoggedOnFlips(r, s, years) && 0 <= k < |years|
    ensures "is_active" in r.YearLog(years[k]) <==> Flips(s, years, k)
  {
  }

  /** `is_active` is logged in no year outside `years`. */
  predicate LoggedOnlyIn(r: Store, years: seq<int>)
  {
    forall y :: y in r.history && "is_active" in r.history[y] ==> y in years
  }

  /** Neither bound is a value Python refuses to compare with an int. */
  predicate ComparableBounds(s: Store)
  {
    AsBound(s.Get("start_year", None)) != Incomparable && AsBound(s.Get("end_year", None)) != Incomparable
  }

  /** What holds of a new policy store `s` after one update per year of `years`. */
  predicate AfterSeries(r: Store, s: Store, years: seq<int>)
  {
    && r.Get("start_year", None) == s.Get("start_year", None)
    && r.Get("end_year", None) == s.Get("end_year", None)
    && (years != [] ==> Status(s, years[|years| - 1]).Some? &&
                         EqualsBool(r.Get("is_active", None), Status(s, years[|years| - 1]).value))
    && (years == [] ==> r == s)
    && LoggedOnFlips(r, s, years)
    && LoggedOnlyIn(r, years)
  }

  /** An update in year `y` leaves every other year's log as it was. */
  lemma UpdateKeepsOtherYears(p: Store, y: int, z: int)
    requires UpdateState(p, y).Some? && z != y
    ensures UpdateState(p, y).value.YearLog(z) == p.YearLog(z)
  {
  }

  /** The year of an update is logged iff the update wrote `is_active`. */
  lemma {:induction false} NewYearLogged(s: Store, p: Store, init: seq<int>, y: int)
    requires s.history == map[] && ComparableBounds(s)
    requires AfterSeries(p, s, init)
    requires y !in init
    ensures Status(p, y) == Status(s, y) && UpdateState(p, y).Some?
    ensures "is_active" in UpdateState(p, y).value.YearLog(y) <==>
              if init == [] then WritesFirst(s, y) else Status(s, y) != Status(s, init[|init| - 1])
  {
    assert Status(p, y) == Status(s, y);
    assert "is_active" !in p.YearLog(y);
    if init != [] {
      var v, last := p.Get("is_active", None), Status(s, init[|init| - 1]).value;
      assert EqualsBool(v, last);
      assert EqualsBool(v, Status(s, y).value) <==> Status(s, y).value == last;
    }
  }

  /** After one more yearly update, every year of the series is logged exactly on a flip:
      the earlier years keep their logs and the new year is logged iff its status flipped. */
  lemma {:induction false} FlipStepLogs(s: Store, p: Store, r: Store, init: seq<int>, y: int)
    requires LoggedOnFlips(p, s, init)
    requires forall j :: 0 <= j < |init| ==> r.YearLog(init[j]) == p.YearLog(init[j])
    requires "is_active" in r.YearLog(y) <==>
               if init == [] then WritesFirst(s, y) else Status(s, y) != Status(s, init[|init| - 1])
    ensures LoggedOnFlips(r, s, init + [y])
  {
    var years := init + [y];
    forall k | 0 <= k < |years|
      ensures "is_active" in r.YearLog(years[k]) <==> Flips(s, years, k)
    {
      if k < |init| {
        assert years[k] == init[k];
        FlipAt(p, s, init, k);
        if k > 0 { assert years[k - 1] == init[k - 1]; }
      } else {
        assert years[k] == y;
        if k > 0 { assert years[k - 1] == init[|init| - 1]; }
      }
    }
  }

  /** One more yearly update keeps the logging pattern: the new year is logged iff its
      status differs from the previous year's (or it is the first year). */
  lemma {:induction false} FlipStep(s: Store, p: Store, init: seq<int>, y: int)
    requires s.history == map[] && ComparableBounds(s)
    requires AfterSeries(p, s, init)
    requires forall j :: 0 <= j < |init| ==> init[j] < y
    ensures UpdateState(p, y).Some?
    ensures AfterSeries(UpdateState(p, y).value, s, init + [y])
  {
    assert y !in init;
    NewYearLogged(s, p, init, y);
    var r := UpdateState(p, y).value;
    forall j | 0 <= j < |init| ensures r.YearLog(init[j]) == p.YearLog(init[j]) {
      UpdateKeepsOtherYears(p, y, init[j]);
    }
    FlipStepLogs(s, p, r, init, y);
    forall z | z in r.history && "is_active" in r.history[z] ensures z in init + [y] {
      if z != y {
        UpdateKeepsOtherYears(p, y, z);
      }
    }
    UpdateFrame(p, y, "start_year", y);
    UpdateFrame(p, y, "end_year", y);
  }

  /** Over consecutive yearly updates of a new policy with comparable bounds, `is_active` is
      logged in the first year when the value the scenario supplied (None when it supplied
      none) is not `==` to the status, and afterwards exactly in the years where the status
      flips. */
  lemma {:induction false} LoggedOnlyOnFlip(s: Store, years: seq<int>)
    requires s.history == map[]
    requires ComparableBounds(s)
    requires StrictlyIncreasing(years)
    ensures UpdateSeries(s, years).Some?
    ensures AfterSeries(UpdateSeries(s, years).value, s, years)
    decreases |years|
  {
    if years == [] {
      assert UpdateSeries(s, years) == Some(s);
    } else {
      var init := years[..|years| - 1];
      var y := years[|years| - 1];
      assert years == init + [y];
      LoggedOnlyOnFlip(s, init);
      FlipStep(s, UpdateSeries(s, init).value, init, y);
    }
  }
}
