/** SimulationManager: loads a scenario into a registry of entity objects, keeps the modules
    in registration order, runs the year loop and stores a snapshot per year. Every method is
    specified by the functions of Loading, SimModules, Snapshots and Runs on the registry's
    value. */
module Manager {
  import opened Values
  import opened AttributeStore
  import opened Entities
  import opened Loading
  import opened Snapshots
  import opened SimModules
  import opened Runs

  /** A parsed scenario document (a top-level mapping): the keys the engine reads, and how
      many other keys it has. */
  datatype Scenario = Scenario(
    startYear: Option<int>,
    endYear: Option<int>,
    globalParameters: Option<Value>,
    modelsInitialState: Option<Value>,
    otherKeys: nat)
  {
    /** `not scenario_data`: the mapping has no keys at all. */
    predicate IsEmpty()
    {
      startYear.None? && endYear.None? && globalParameters.None? && modelsInitialState.None? &&
      otherKeys == 0
    }

    function StartYear(): int
    {
      if startYear.Some? then startYear.value else 2025
    }

    function EndYear(): int
    {
      if endYear.Some? then endYear.value else 2040
    }

    function GlobalParameters(): Value
    {
      if globalParameters.Some? then globalParameters.value else Dict([])
    }

    /** The categories of `models_initial_state` (default {}); None when it is present but not
        a mapping, so that `.items()` raises. */
    function ModelsConfig(): Option<seq<(string, Value)>>
    {
      if modelsInitialState.None? then Some([])
      else if modelsInitialState.value.Dict? then Some(modelsInitialState.value.entries)
      else None
    }
  }

  /** The empty mapping, what the manager holds before any scenario is loaded. */
  const EmptyScenario := Scenario(None, None, None, None, 0)

  /** A scenario that came from a mapping: its categories have distinct keys. */
  predicate WellFormed(s: Scenario)
  {
    s.ModelsConfig().Some? ==> DistinctKeys(s.ModelsConfig().value)
  }

  /** The entity objects held by a registry. */
  function Members(ms: seq<(string, seq<Entity>)>): set<Entity>
  {
    set c, e | 0 <= c < |ms| && e in ms[c].1 :: e
  }

  /** No entity object appears twice in a list. */
  predicate NoDuplicates(es: seq<Entity>)
  {
    forall j1, j2 :: 0 <= j1 < j2 < |es| ==> es[j1] != es[j2]
  }

  /** No entity object is in both lists. */
  predicate Disjoint(a: seq<Entity>, b: seq<Entity>)
  {
    forall e :: e in a ==> e !in b
  }

  /** No entity object is held twice by a registry. */
  predicate DistinctEntities(ms: seq<(string, seq<Entity>)>)
  {
    (forall c :: 0 <= c < |ms| ==> NoDuplicates(ms[c].1)) &&
    (forall c1, c2 :: 0 <= c1 < |ms| && 0 <= c2 < |ms| && c1 != c2 ==> Disjoint(ms[c1].1, ms[c2].1))
  }

  /** The values of a list of entities. */
  function StatesOf(es: seq<Entity>): (r: seq<EntityState>)
    reads set e | e in es
    ensures |r| == |es|
  {
    if es == [] then [] else StatesOf(es[..|es| - 1]) + [es[|es| - 1].State()]
  }

  /** The values of entities that a step did not touch are the same as before it. */
  twostate lemma StatesUnchanged(es: seq<Entity>)
    requires forall e :: e in es ==> old(allocated(e)) && unchanged(e)
    ensures StatesOf(es) == old(StatesOf(es))
  {
  }

  /** Value j of a list is the state of entity j. */
  lemma {:induction false} StatesOfAt(es: seq<Entity>)
    ensures forall j :: 0 <= j < |es| ==> StatesOf(es)[j] == es[j].State()
  {
    if es != [] {
      var init := es[..|es| - 1];
      StatesOfAt(init);
      assert forall j :: 0 <= j < |init| ==> init[j] == es[j];
    }
  }

  /** The value of a registry of entity objects. */
  function RegistryOf(ms: seq<(string, seq<Entity>)>): (r: Registry)
    reads Members(ms)
    ensures |r| == |ms|
  {
    if ms == [] then []
    else
      var init := ms[..|ms| - 1];
      assert Members(init) <= Members(ms) by {
        forall e | e in Members(init) ensures e in Members(ms) {
          var c :| 0 <= c < |init| && e in init[c].1;
          assert ms[c] == init[c];
        }
      }
      RegistryOf(init) + [(ms[|ms| - 1].0, StatesOf(ms[|ms| - 1].1))]
  }

  /** The value of a registry whose entities a step did not touch is the same as before it. */
  twostate lemma {:induction false} RegistryUnchanged(ms: seq<(string, seq<Entity>)>)
    requires forall c :: 0 <= c < |ms| ==> forall e :: e in ms[c].1 ==> old(allocated(e)) && unchanged(e)
    ensures RegistryOf(ms) == old(RegistryOf(ms))
  {
    if ms != [] {
      var init := ms[..|ms| - 1];
      assert forall c :: 0 <= c < |init| ==> init[c] == ms[c];
      RegistryUnchanged(init);
      StatesUnchanged(ms[|ms| - 1].1);
    }
  }

  /** Category c of the value is category c of the objects, with its entities' states. */
  lemma {:induction false} RegistryOfAt(ms: seq<(string, seq<Entity>)>)
    ensures forall c :: 0 <= c < |ms| ==> RegistryOf(ms)[c] == (ms[c].0, StatesOf(ms[c].1))
  {
    if ms != [] {
      var init := ms[..|ms| - 1];
      RegistryOfAt(init);
      assert forall c :: 0 <= c < |init| ==> init[c] == ms[c];
    }
  }

  /** Two lists of entity values that agree position by position are equal. */
  lemma SameStates(a: seq<EntityState>, b: seq<EntityState>)
    requires |a| == |b|
    requires forall j :: 0 <= j < |a| ==> a[j] == b[j]
    ensures a == b
  {
  }

  /** Two registries that agree category by category are equal. */
  lemma SameCategories(a: Registry, b: Registry)
    requires |a| == |b|
    requires forall c :: 0 <= c < |a| ==> a[c] == b[c]
    ensures a == b
  {
  }

  /** Two registries with the same keys and the same entities, position by position, are equal. */
  lemma SameRegistry(a: Registry, b: Registry)
    requires SameShape(a, b)
    requires forall c, j :: 0 <= c < |a| && 0 <= j < |a[c].1| ==> a[c].1[j] == b[c].1[j]
    ensures a == b
  {
    forall c | 0 <= c < |a| ensures a[c] == b[c] {
      assert a[c].1 == b[c].1;
    }
  }

  /** Appending a category of new, distinct entities keeps every entity object distinct. */
  lemma DistinctAppend(ms: seq<(string, seq<Entity>)>, key: string, es: seq<Entity>)
    requires DistinctEntities(ms) && NoDuplicates(es)
    requires forall c :: 0 <= c < |ms| ==> Disjoint(ms[c].1, es)
    ensures DistinctEntities(ms + [(key, es)])
  {
    var ms' := ms + [(key, es)];
    assert forall c :: 0 <= c < |ms| ==> ms'[c] == ms[c];
    assert ms'[|ms|] == (key, es);
  }

  /** Once the loader has raised, later categories are never looked at. */
  lemma {:induction false} RaisedIsFinal(config: seq<(string, Value)>, n: nat)
    requires n <= |config| && Load(config[..n]).raised
    ensures Load(config) == Load(config[..n])
    decreases |config| - n
  {
    if n < |config| {
      assert config[..n + 1][..n] == config[..n];
      RaisedIsFinal(config, n + 1);
    } else {
      assert config[..n] == config;
    }
  }

  /** What run_simulation reports. */
  datatype RunOutcome =
    | NotLoaded        // returns None: no scenario data
    | Completed        // returns the results
    | Failed(year: int) // a module raised while simulating this year

  /** One stub module's step on one entity. */
  method Apply(e: Entity, b: Behaviour, year: int, prev: Snapshot) returns (ok: bool)
    modifies e
    ensures ok <==> Effect(b, old(e.State()), year, prev).Some?
    ensures ok ==> e.State() == Effect(b, old(e.State()), year, prev).value
    ensures !ok ==> e.State() == old(e.State())
  {
    match b
    case SetEach(_, a, v) =>
      e.SetAttribute(a, v, year);
      ok := true;
    case CopyEach(_, src, dst) =>
      var v := e.Contents().Get(src, None);
      e.SetAttribute(dst, v, year);
      ok := true;
    case UpdateEach(_) =>
      ok := e.UpdateState(year);
    case CountPrevious(c, a) =>
      var n := PreviousCount(prev, c);
      e.SetAttribute(a, Int(n), year);
      ok := true;
  }

  /** Appending a category to a registry of objects appends its value. */
  lemma RegistryOfAppend(ms: seq<(string, seq<Entity>)>, key: string, es: seq<Entity>)
    ensures RegistryOf(ms + [(key, es)]) == RegistryOf(ms) + [(key, StatesOf(es))]
  {
    assert (ms + [(key, es)])[..|ms|] == ms;
  }

  /** Appending an entity to a list appends its value. */
  lemma StatesOfAppend(es: seq<Entity>, e: Entity)
    ensures StatesOf(es + [e]) == StatesOf(es) + [e.State()]
  {
    assert (es + [e])[..|es|] == es;
  }

  /** The records of one category, entity by entity (the inner loop of
      _collect_yearly_results). */
  method CollectCategory(es: seq<Entity>) returns (recs: seq<Record>)
    ensures recs == RecordsOf(StatesOf(es))
  {
    recs := [];
    var j := 0;
    while j < |es|
      invariant 0 <= j <= |es|
      invariant recs == RecordsOf(StatesOf(es[..j]))
    {
      StatesOfAppend(es[..j], es[j]);
      assert es[..j + 1] == es[..j] + [es[j]];
      recs := recs + [RecordOf(es[j].State())];
      j := j + 1;
    }
    assert es[..j] == es;
  }

  /** The snapshot of a registry of objects, category by category (the outer loop of
      _collect_yearly_results). */
  method Collect(ms: seq<(string, seq<Entity>)>) returns (snap: Snapshot)
    ensures snap == SnapshotOf(RegistryOf(ms))
  {
    ghost var reg := RegistryOf(ms);
    snap := [];
    var c := 0;
    while c < |ms|
      invariant 0 <= c <= |ms|
      invariant snap == SnapshotOf(reg[..c])
      invariant RegistryOf(ms) == reg
    {
      var (key, es) := ms[c];
      label before:
      var recs := CollectCategory(es);
      RegistryUnchanged@before(ms);
      RegistryOfAt(ms);
      SnapshotOfPrefix(reg, c);
      snap := snap + [(key, recs)];
      c := c + 1;
    }
    assert reg[..c] == reg;
  }

  /** One module's step over the entities of its category, in order, stopping at the first
      entity on which it raises. */
  method ApplyAll(es: seq<Entity>, b: Behaviour, year: int, prev: Snapshot) returns (ok: bool)
    requires NoDuplicates(es)
    modifies es
    ensures StatesOf(es) == StepCategory(b, old(StatesOf(es)), year, prev)
    ensures ok <==> FirstFailure(b, old(StatesOf(es)), year, prev) == |es|
  {
    ghost var s0 := StatesOf(es);
    StatesOfAt(es);
    ok := true;
    var i := 0;
    while i < |es|
      invariant 0 <= i <= |es|
      invariant forall j :: 0 <= j < i ==>
                  Effect(b, s0[j], year, prev).Some? && es[j].State() == Effect(b, s0[j], year, prev).value
      invariant forall j :: i <= j < |es| ==> es[j].State() == s0[j]
    {
      label before:
      ok := Apply(es[i], b, year, prev);
      assert forall j :: 0 <= j < |es| && j != i ==> old@before(allocated(es[j])) && es[j] != es[i];
      if !ok {
        break;
      }
      i := i + 1;
    }
    StatesOfAt(es);
    StepCategoryParts(b, s0, StatesOf(es), i, year, prev);
  }

  /** A module's step on category c of a registry of objects: that category becomes its
      step, every other category is left as it was. */
  method ExecuteAt(ms: seq<(string, seq<Entity>)>, c: nat, b: Behaviour, year: int, prev: Snapshot)
    returns (ok: bool)
    requires c < |ms| && DistinctEntities(ms)
    modifies ms[c].1
    ensures RegistryOf(ms) ==
              old(RegistryOf(ms))[c := (ms[c].0, StepCategory(b, old(RegistryOf(ms))[c].1, year, prev))]
    ensures ok <==> FirstFailure(b, old(RegistryOf(ms))[c].1, year, prev) == |ms[c].1|
  {
    ghost var reg0 := RegistryOf(ms);
    RegistryOfAt(ms);
    var es := ms[c].1;
    label before:
    ok := ApplyAll(es, b, year, prev);
    forall k | 0 <= k < |ms| && k != c
      ensures StatesOf(ms[k].1) == reg0[k].1
    {
      assert Disjoint(ms[k].1, es);
      StatesUnchanged@before(ms[k].1);
    }
    RegistryOfAt(ms);
    SameCategories(RegistryOf(ms), reg0[c := (ms[c].0, StepCategory(b, reg0[c].1, year, prev))]);
  }

  /** One record of a mapped category: a new entity object is appended when the record
      builds, the record is reported with its position when it is caught, and the loop
      raises when the record is not a dict. The new object is none of those already loaded
      (`ms`). */
  method BuildOne(key: string, kind: Kind, rec: Value, position: nat, es: seq<Entity>, skips: seq<Skip>,
                  ghost ms: seq<(string, seq<Entity>)>)
    returns (es': seq<Entity>, skips': seq<Skip>, raised: bool, ghost st': seq<EntityState>)
    requires NoDuplicates(es)
    requires forall c :: 0 <= c < |ms| ==> Disjoint(ms[c].1, es)
    ensures st' == StatesOf(es')
    ensures LoadRecord(key, kind, CategoryLoad(old(StatesOf(es)), skips, false), rec, position) ==
              CategoryLoad(st', skips', raised)
    ensures NoDuplicates(es')
    ensures forall c :: 0 <= c < |ms| ==> Disjoint(ms[c].1, es')
  {
    var built := BuildRecord(rec);
    label before:
    match built {
      case Entity(id, name, attrs) =>
        var e := new Entity(kind, id, name, Some(attrs));
        StatesUnchanged@before(es);
        StatesOfAppend(es, e);
        es', skips', raised := es + [e], skips, false;
      case Skipped(why) =>
        es', skips', raised := es, skips + [BadRecord(key, position, why)], false;
      case Escapes =>
        es', skips', raised := es, skips, true;
    }
    st' := StatesOf(es');
  }

  /** The entities of one mapped category, built record by record until a record raises;
      the skipped records are reported with their positions. None of the new objects is one
      already loaded. */
  method BuildCategory(key: string, kind: Kind, recs: seq<Value>, ghost ms: seq<(string, seq<Entity>)>)
    returns (es: seq<Entity>, skips: seq<Skip>, raised: bool)
    ensures LoadCategory(key, kind, recs) == CategoryLoad(StatesOf(es), skips, raised)
    ensures NoDuplicates(es)
    ensures forall c :: 0 <= c < |ms| ==> Disjoint(ms[c].1, es)
  {
    es, skips, raised := [], [], false;
    ghost var st: seq<EntityState> := [];
    var j := 0;
    while j < |recs| && !raised
      invariant 0 <= j <= |recs|
      invariant st == StatesOf(es)
      invariant LoadCategory(key, kind, recs[..j]) == CategoryLoad(st, skips, raised)
      invariant NoDuplicates(es)
      invariant forall c :: 0 <= c < |ms| ==> Disjoint(ms[c].1, es)
    {
      LoadCategoryPrefix(key, kind, recs, j);
      var es', skips', raised', st' := BuildOne(key, kind, recs[j], j, es, skips, ms);
      es, skips, raised, st := es', skips', raised', st';
      j := j + 1;
    }
    if raised {
      CategoryRaisedIsFinal(key, kind, recs, j);
    } else {
      assert recs[..j] == recs;
    }
  }

  /** Loading one more category of a document is one more step of the loop. */
  lemma LoadPrefix(entries: seq<(string, Value)>, k: nat)
    requires k < |entries|
    ensures Load(entries[..k + 1]) == LoadEntry(Load(entries[..k]), entries[k].0, entries[k].1)
  {
    assert entries[..k + 1][..k] == entries[..k];
  }

  /** Category k of _initialize_models: its list of new entity objects is appended under
      its key unless the key maps to no class; the loop raises when the value is not
      iterable or one of its records is not a dict, the entities built before that staying
      under the key. */
  method LoadEntryObjects(entries: seq<(string, Value)>, k: nat, ms: seq<(string, seq<Entity>)>,
                          skipped: seq<Skip>)
    returns (ms': seq<(string, seq<Entity>)>, skipped': seq<Skip>, raised: bool, ghost reg': Registry)
    requires k < |entries|
    requires Load(entries[..k]) == LoadResult(RegistryOf(ms), skipped, false)
    requires DistinctEntities(ms)
    ensures reg' == RegistryOf(ms')
    ensures Load(entries[..k + 1]) == LoadResult(reg', skipped', raised)
    ensures DistinctEntities(ms')
  {
    LoadPrefix(entries, k);
    var key, value := entries[k].0, entries[k].1;
    var kind := KindForKey(key);
    if kind.None? {
      return ms, skipped + [UnknownCategory(key)], false, RegistryOf(ms);
    }
    var recs := CategoryRecords(value);
    if recs.None? {
      RegistryOfAppend(ms, key, []);
      DistinctAppend(ms, key, []);
      return ms + [(key, [])], skipped, true, RegistryOf(ms + [(key, [])]);
    }
    label before:
    var es, skips, raisedHere := BuildCategory(key, kind.value, recs.value, ms);
    RegistryUnchanged@before(ms);
    DistinctAppend(ms, key, es);
    RegistryOfAppend(ms, key, es);
    ms', skipped', raised := ms + [(key, es)], skipped + skips, raisedHere;
    reg' := RegistryOf(ms');
  }

  /** _initialize_models over the categories of `models_initial_state`: one list of new
      entity objects per known category, in document order. */
  method LoadModels(entries: seq<(string, Value)>)
    returns (ms: seq<(string, seq<Entity>)>, skipped: seq<Skip>, raised: bool)
    requires DistinctKeys(entries)
    ensures forall c1, c2 :: 0 <= c1 < c2 < |ms| ==> ms[c1].0 != ms[c2].0
    ensures DistinctEntities(ms)
    ensures Load(entries) == LoadResult(RegistryOf(ms), skipped, raised)
  {
    ms, skipped, raised := [], [], false;
    ghost var reg: Registry := [];
    var k := 0;
    while k < |entries| && !raised
      invariant 0 <= k <= |entries|
      invariant reg == RegistryOf(ms)
      invariant Load(entries[..k]) == LoadResult(reg, skipped, raised)
      invariant DistinctEntities(ms)
    {
      var ms', skipped', raised', reg' := LoadEntryObjects(entries, k, ms, skipped);
      ms, skipped, raised, reg := ms', skipped', raised', reg';
      k := k + 1;
    }
    if raised {
      RaisedIsFinal(entries, k);
    } else {
      assert entries[..k] == entries;
    }
    LoadDistinctKeys(entries);
    RegistryOfAt(ms);
  }

  /** execute_year_step of one module over a registry of objects: the first category with
      the module's key (if any) takes the module's step. */
  method ExecuteIn(ms: seq<(string, seq<Entity>)>, b: Behaviour, year: int, prev: Snapshot)
    returns (ok: bool)
    requires DistinctEntities(ms)
    modifies Members(ms)
    ensures (RegistryOf(ms), ok) == StepModule(b, old(RegistryOf(ms)), year, prev)
  {
    ghost var reg0 := RegistryOf(ms);
    RegistryOfAt(ms);
    var c := 0;
    while c < |ms| && ms[c].0 != b.category
      invariant 0 <= c <= |ms|
      invariant forall k :: 0 <= k < c ==> ms[k].0 != b.category
    {
      c := c + 1;
    }
    if c == |ms| {
      assert IndexOf(reg0, b.category).None?;
      return true;
    }
    assert IndexOf(reg0, b.category) == Some(c);
    assert forall e :: e in ms[c].1 ==> e in Members(ms) by {
      forall e | e in ms[c].1 ensures e in Members(ms) {
        assert 0 <= c < |ms| && e in ms[c].1;
      }
    }
    ok := ExecuteAt(ms, c, b, year, prev);
    StepModuleAt(b, reg0, c, year, prev);
  }

  /** The modules of one year over a registry of objects, in registration order, stopping at
      the first that raises. */
  method StepYearIn(ms: seq<(string, seq<Entity>)>, mods: seq<SimModule>, year: int, prev: Snapshot)
    returns (ok: bool)
    requires DistinctEntities(ms)
    modifies Members(ms)
    ensures (RegistryOf(ms), ok) == StepModules(mods, old(RegistryOf(ms)), year, prev)
  {
    ghost var reg0 := RegistryOf(ms);
    var i := 0;
    while i < |mods|
      invariant 0 <= i <= |mods|
      invariant StepModules(mods, reg0, year, prev) == StepModules(mods[i..], RegistryOf(ms), year, prev)
    {
      StepModulesUnfold(mods, i, RegistryOf(ms), year, prev);
      ok := ExecuteIn(ms, mods[i].behaviour, year, prev);
      if !ok {
        return;
      }
      i := i + 1;
    }
    assert mods[|mods|..] == [];
    ok := true;
  }

  /** The years start..end of run_simulation over a registry of objects: each year steps the
      modules, then stores the year's snapshot; a module that raises ends the run. */
  method RunYears(ms: seq<(string, seq<Entity>)>, mods: seq<SimModule>, start: int, end: int, res0: Results)
    returns (results: Results, failedAt: Option<int>)
    requires DistinctEntities(ms)
    modifies Members(ms)
    ensures RunFrom(mods, old(RegistryOf(ms)), start, end, res0) == RunResult(RegistryOf(ms), results, failedAt)
  {
    ghost var target := RunFrom(mods, RegistryOf(ms), start, end, res0);
    results, failedAt := res0, None;
    var year := start;
    while year <= end
      invariant RunFrom(mods, RegistryOf(ms), year, end, results) == target
      decreases end + 1 - year
    {
      var prev := if year - 1 in results then results[year - 1] else [];
      var ok := StepYearIn(ms, mods, year, prev);
      if !ok {
        return results, Some(year);
      }
      var snap := Collect(ms);
      results := results[year := snap];
      year := year + 1;
    }
  }

  class SimulationManager {
    var startYear: int
    var endYear: int
    var currentYear: int
    var models: seq<(string, seq<Entity>)>
    var modules: seq<SimModule>
    var results: Results
    var globalParameters: Value
    var scenario: Scenario

    function Objects(): set<Entity>
      reads this`models
    {
      Members(models)
    }

    /** Category keys are distinct and no entity object is shared. */
    predicate Valid()
      reads this`models
    {
      (forall c1, c2 :: 0 <= c1 < c2 < |models| ==> models[c1].0 != models[c2].0) &&
      DistinctEntities(models)
    }

    /** The registry's value: every category with the current state of its entities. */
    function Registry(): Registry
      reads this`models, Objects()
    {
      RegistryOf(models)
    }

    /** A manager before any scenario: years 0, nothing loaded, registered or simulated. */
    constructor ()
      ensures startYear == 0 && endYear == 0 && currentYear == 0
      ensures models == [] && modules == [] && results == map[]
      ensures globalParameters == Dict([]) && scenario == EmptyScenario
      ensures Valid()
    {
      startYear, endYear, currentYear := 0, 0, 0;
      models, modules, results := [], [], map[];
      globalParameters := Dict([]);
      scenario := EmptyScenario;
    }

    /** load_scenario_data on an already parsed document: defaults for the years and the
        global parameters, then _initialize_models. Returns the diagnostics the loader prints
        and whether an exception escaped it. */
    method LoadScenario(s: Scenario) returns (skipped: seq<Skip>, raised: bool)
      requires WellFormed(s)
      modifies this`scenario, this`startYear, this`endYear, this`currentYear
      modifies this`globalParameters, this`models
      ensures scenario == s && startYear == s.StartYear() && endYear == s.EndYear()
      ensures currentYear == startYear && globalParameters == s.GlobalParameters()
      ensures Valid()
      ensures s.ModelsConfig().None? ==> models == [] && skipped == [] && raised
      ensures s.ModelsConfig().Some? ==>
                Load(s.ModelsConfig().value) == LoadResult(Registry(), skipped, raised)
    {
      scenario, startYear, endYear, currentYear := s, s.StartYear(), s.EndYear(), s.StartYear();
      globalParameters := s.GlobalParameters();
      models, skipped, raised := [], [], true;
      var config := s.ModelsConfig();
      if config.Some? {
        var ms;
        ms, skipped, raised := LoadModels(config.value);
        ghost var reg := RegistryOf(ms);
        models := ms;
        assert forall e :: e in Members(ms) ==> e as object != this;
        assert Registry() == reg;
      }
    }

    /** register_module: appended, so modules run in registration order. */
    method RegisterModule(m: SimModule)
      modifies this`modules
      ensures modules == old(modules) + [m]
    {
      modules := modules + [m];
    }

    /** initialize_modules: nothing when neither models nor global parameters are loaded;
        otherwise each module is initialised once, in order. */
    method InitializeModules() returns (done: bool)
      modifies this`modules
      ensures done <==> !(models == [] && !Truthy(globalParameters))
      ensures done ==> |modules| == |old(modules)| &&
                       forall i :: 0 <= i < |modules| ==> modules[i] == Initialized(old(modules)[i])
      ensures !done ==> modules == old(modules)
    {
      if models == [] && !Truthy(globalParameters) {
        return false;
      }
      var i := 0;
      while i < |modules|
        invariant 0 <= i <= |modules| && |modules| == |old(modules)|
        invariant forall k :: 0 <= k < i ==> modules[k] == Initialized(old(modules)[k])
        invariant forall k :: i <= k < |modules| ==> modules[k] == old(modules)[k]
      {
        modules := modules[i := Initialized(modules[i])];
        i := i + 1;
      }
      done := true;
    }

    /** execute_year_step of one module over the current registry. */
    method ExecuteModule(b: Behaviour, year: int, prev: Snapshot) returns (ok: bool)
      requires Valid()
      modifies Objects()
      ensures (Registry(), ok) == StepModule(b, old(Registry()), year, prev)
    {
      ok := ExecuteIn(models, b, year, prev);
    }

    /** The modules of one year, in registration order, stopping at the first that raises. */
    method StepYear(year: int, prev: Snapshot) returns (ok: bool)
      requires Valid()
      modifies Objects()
      ensures (Registry(), ok) == StepModules(modules, old(Registry()), year, prev)
    {
      ok := StepYearIn(models, modules, year, prev);
    }

    /** _collect_yearly_results: the snapshot of the registry stored under the current year. */
    method CollectYearlyResults()
      modifies this`results
      ensures results == old(results)[currentYear := SnapshotOf(Registry())]
    {
      var snap := Collect(models);
      assert forall e :: e in Objects() ==> old(allocated(e));
      results := results[currentYear := snap];
      assert forall e :: e in Objects() ==> e as object != this;
    }

    /** run_simulation: nothing without scenario data; otherwise the years start..end in order,
        each running every module in registration order and then storing the snapshot. A
        module that raises ends the run in that year, keeping what was already done. */
    method RunSimulation() returns (outcome: RunOutcome)
      requires Valid()
      modifies this`currentYear, this`results, Objects()
      ensures scenario.IsEmpty() ==>
                outcome == NotLoaded && Registry() == old(Registry()) && results == old(results) &&
                currentYear == old(currentYear)
      ensures !scenario.IsEmpty() ==>
                var r := RunFrom(modules, old(Registry()), startYear, endYear, old(results));
                Registry() == r.registry && results == r.results &&
                (r.failedAt.None? ==>
                   outcome == Completed &&
                   currentYear == (if startYear <= endYear then endYear else old(currentYear))) &&
                (r.failedAt.Some? ==>
                   outcome == Failed(r.failedAt.value) && currentYear == r.failedAt.value)
    {
      if scenario.IsEmpty() {
        return NotLoaded;
      }
      var ms := models;
      ghost var reg0 := RegistryOf(ms);
      var res, failedAt := RunYears(ms, modules, startYear, endYear, results);
      ghost var reg := RegistryOf(ms);
      label ran:
      results := res;
      if failedAt.Some? {
        currentYear := failedAt.value;
        outcome := Failed(failedAt.value);
      } else {
        if startYear <= endYear {
          currentYear := endYear;
        }
        outcome := Completed;
      }
      assert forall c, e :: 0 <= c < |ms| && e in ms[c].1 ==> e as object != this;
      RegistryUnchanged@ran(ms);
    }

    /** get_results. */
    function GetResults(): Results
      reads this`results
    {
      results
    }
  }
}
