/** Simulation modules (BaseModule) and what one year step does to the registry. The module
    contract is open-ended in the engine; here it is a closed set of stub behaviours, enough to
    state how the engine orders and chains module steps. */
module SimModules {
  import opened Values
  import opened AttributeStore
  import opened Entities
  import opened Loading
  import opened Snapshots

  /** What a stub module does to each entity of one category when its year step runs. */
  datatype Behaviour =
    | SetEach(category: string, attribute: string, value: Value)
        // set_attribute(attribute, value, year)
    | CopyEach(category: string, source: string, target: string)
        // set_attribute(target, get_attribute(source), year)
    | UpdateEach(category: string)
        // update_state(year, context), as the placeholder modules do
    | CountPrevious(category: string, attribute: string)
        // set_attribute(attribute, number of records of the category in previous_results, year)

  /** A registered module: its identity, its behaviour, and how often it was initialised. */
  datatype SimModule = SimModule(moduleId: string, name: string, behaviour: Behaviour, initCount: nat)

  /** initialize(models, global_params): the stubs only count the call. */
  function Initialized(m: SimModule): (r: SimModule)
    ensures r.initCount == m.initCount + 1
    ensures r.(initCount := m.initCount) == m
  {
    m.(initCount := m.initCount + 1)
  }

  /** How many records `previous_results` holds under a category (none when absent). */
  function PreviousCount(prev: Snapshot, category: string): nat
  {
    var rs := RecordsUnder(prev, category);
    if rs.Some? then |rs.value| else 0
  }

  /** What a behaviour does to one entity; None when the call raises. */
  function Effect(b: Behaviour, e: EntityState, year: int, prev: Snapshot): Option<EntityState>
  {
    match b
    case SetEach(_, a, v) => Some(e.(store := e.store.Write(a, v, year)))
    case CopyEach(_, src, dst) => Some(e.(store := e.store.Write(dst, e.store.Get(src, None), year)))
    case UpdateEach(_) =>
      var s := Update(e.kind, e.store, year);
      if s.Some? then Some(e.(store := s.value)) else None
    case CountPrevious(c, a) => Some(e.(store := e.store.Write(a, Int(PreviousCount(prev, c)), year)))
  }

  /** A behaviour never changes an entity's kind or identity, and only update_state can
      raise. */
  lemma EffectFacts(b: Behaviour, e: EntityState, year: int, prev: Snapshot)
    ensures var r := Effect(b, e, year, prev);
            (r.Some? ==> r.value.kind == e.kind && r.value.modelId == e.modelId && r.value.name == e.name) &&
            (r.None? <==> b.UpdateEach? && Update(e.kind, e.store, year).None?)
  {
  }

  /** The position of the first entity on which the behaviour raises (|es| when none does). */
  function FirstFailure(b: Behaviour, es: seq<EntityState>, year: int, prev: Snapshot): (n: nat)
    ensures n <= |es|
    ensures forall k :: 0 <= k < n ==> Effect(b, es[k], year, prev).Some?
    ensures n < |es| ==> Effect(b, es[n], year, prev).None?
  {
    if es == [] || Effect(b, es[0], year, prev).None? then 0
    else
      var n := FirstFailure(b, es[1..], year, prev);
      assert forall k :: 1 <= k < n + 1 ==> es[k] == es[1..][k - 1];
      n + 1
  }

  /** The entities of a category after the step: those before the first failure changed,
      the failing one and those after it untouched. */
  function StepCategory(b: Behaviour, es: seq<EntityState>, year: int, prev: Snapshot): (r: seq<EntityState>)
    ensures |r| == |es|
    ensures forall k :: 0 <= k < |es| ==>
              r[k] == (if k < FirstFailure(b, es, year, prev) then Effect(b, es[k], year, prev).value
                       else es[k])
  {
    var n := FirstFailure(b, es, year, prev);
    seq(|es|, k requires 0 <= k < |es| => if k < n then Effect(b, es[k], year, prev).value else es[k])
  }

  /** A category whose first i entities took the behaviour's effect and whose others are
      untouched, where i is the end or an entity on which the behaviour raises, is the
      category after the step, and i is the first failure. */
  lemma StepCategoryParts(b: Behaviour, es: seq<EntityState>, after: seq<EntityState>, i: nat, year: int, prev: Snapshot)
    requires i <= |es| == |after|
    requires forall j :: 0 <= j < i ==>
               Effect(b, es[j], year, prev).Some? && after[j] == Effect(b, es[j], year, prev).value
    requires forall j :: i <= j < |es| ==> after[j] == es[j]
    requires i < |es| ==> Effect(b, es[i], year, prev).None?
    ensures FirstFailure(b, es, year, prev) == i
    ensures after == StepCategory(b, es, year, prev)
  {
  }

  /** The position of the first category with the given key. */
  function IndexOf(reg: Registry, key: string): (r: Option<nat>)
    ensures r.Some? ==> r.value < |reg| && reg[r.value].0 == key &&
                        forall c :: 0 <= c < r.value ==> reg[c].0 != key
    ensures r.None? ==> forall c :: 0 <= c < |reg| ==> reg[c].0 != key
  {
    if reg == [] then None
    else if reg[0].0 == key then Some(0)
    else
      var r := IndexOf(reg[1..], key);
      assert forall c :: 1 <= c < |reg| ==> reg[c] == reg[1..][c - 1];
      if r.Some? then Some(r.value + 1) else None
  }

  /** The registry's shape: category keys and the number of entities in each. */
  predicate SameShape(a: Registry, b: Registry)
  {
    |a| == |b| && forall c :: 0 <= c < |a| ==> a[c].0 == b[c].0 && |a[c].1| == |b[c].1|
  }

  /** Two states of one entity: same class, same model_id, same name. */
  predicate SameIdentity(x: EntityState, y: EntityState)
  {
    x.kind == y.kind && x.modelId == y.modelId && x.name == y.name
  }

  /** The registry's shape and, entity by entity, the kinds and identities it holds. */
  predicate SameEntities(a: Registry, b: Registry)
  {
    SameShape(a, b) &&
    forall c, j :: 0 <= c < |a| && 0 <= j < |a[c].1| ==> SameIdentity(a[c].1[j], b[c].1[j])
  }

  /** Holding the same entities is transitive. */
  lemma SameEntitiesTrans(a: Registry, b: Registry, c: Registry)
    requires SameEntities(a, b) && SameEntities(b, c)
    ensures SameEntities(a, c)
  {
  }

  /** The step of a category keeps each entity's kind and identity. */
  lemma StepCategoryKeepsEntities(b: Behaviour, es: seq<EntityState>, year: int, prev: Snapshot)
    ensures forall k :: 0 <= k < |es| ==> SameIdentity(StepCategory(b, es, year, prev)[k], es[k])
  {
    forall k | 0 <= k < |es|
      ensures SameIdentity(StepCategory(b, es, year, prev)[k], es[k])
    {
      EffectFacts(b, es[k], year, prev);
    }
  }

  /** execute_year_step of one module: its behaviour applied to its category's entities in
      order; false when it raises (the entities already visited keep their changes). A module
      whose category is not loaded does nothing. */
  function StepModule(b: Behaviour, reg: Registry, year: int, prev: Snapshot): (r: (Registry, bool))
    ensures SameShape(r.0, reg)
    ensures forall c :: 0 <= c < |reg| && IndexOf(reg, b.category) != Some(c) ==> r.0[c] == reg[c]
    ensures IndexOf(reg, b.category).None? ==> r == (reg, true)
  {
    var i := IndexOf(reg, b.category);
    if i.None? then (reg, true)
    else
      var (key, es) := reg[i.value];
      (reg[i.value := (key, StepCategory(b, es, year, prev))],
       FirstFailure(b, es, year, prev) == |es|)
  }

  /** A module whose category is at c replaces that category with its step. */
  lemma StepModuleAt(b: Behaviour, reg: Registry, c: nat, year: int, prev: Snapshot)
    requires IndexOf(reg, b.category) == Some(c)
    ensures StepModule(b, reg, year, prev) ==
              (reg[c := (reg[c].0, StepCategory(b, reg[c].1, year, prev))],
               FirstFailure(b, reg[c].1, year, prev) == |reg[c].1|)
  {
  }

  /** A module step keeps the kinds and identities of every entity of the registry. */
  lemma StepModuleKeepsEntities(b: Behaviour, reg: Registry, year: int, prev: Snapshot)
    ensures SameEntities(StepModule(b, reg, year, prev).0, reg)
  {
    var i := IndexOf(reg, b.category);
    if i.Some? {
      var c := i.value;
      StepModuleAt(b, reg, c, year, prev);
      StepCategoryKeepsEntities(b, reg[c].1, year, prev);
    }
  }

  /** The modules of one year, in registration order; the first one that raises ends the step. */
  function StepModules(mods: seq<SimModule>, reg: Registry, year: int, prev: Snapshot): (r: (Registry, bool))
    ensures SameShape(r.0, reg)
    decreases |mods|
  {
    if mods == [] then (reg, true)
    else
      var (r1, ok) := StepModule(mods[0].behaviour, reg, year, prev);
      if !ok then (r1, false) else StepModules(mods[1..], r1, year, prev)
  }

  /** A year's module steps keep the kinds and identities of every entity of the registry. */
  lemma {:induction false} StepModulesKeepsEntities(mods: seq<SimModule>, reg: Registry, year: int, prev: Snapshot)
    ensures SameEntities(StepModules(mods, reg, year, prev).0, reg)
    decreases |mods|
  {
    if mods != [] {
      var (r1, ok) := StepModule(mods[0].behaviour, reg, year, prev);
      StepModuleKeepsEntities(mods[0].behaviour, reg, year, prev);
      if ok {
        StepModulesKeepsEntities(mods[1..], r1, year, prev);
        SameEntitiesTrans(StepModules(mods[1..], r1, year, prev).0, r1, reg);
      }
    }
  }

  /** Only update_state can raise: every other behaviour visits the whole category. */
  lemma NeverFails(b: Behaviour, es: seq<EntityState>, year: int, prev: Snapshot)
    requires !b.UpdateEach?
    ensures FirstFailure(b, es, year, prev) == |es|
  {
    var n := FirstFailure(b, es, year, prev);
    if n < |es| {
      assert false;
    }
  }

  /** One module whose behaviour cannot raise, on a registry where its category is at c. */
  lemma StepAt(b: Behaviour, reg: Registry, c: nat, year: int, prev: Snapshot)
    requires !b.UpdateEach? && IndexOf(reg, b.category) == Some(c)
    ensures StepModule(b, reg, year, prev) ==
              (reg[c := (reg[c].0, StepCategory(b, reg[c].1, year, prev))], true)
    ensures forall j :: 0 <= j < |reg[c].1| ==>
              StepCategory(b, reg[c].1, year, prev)[j] == Effect(b, reg[c].1[j], year, prev).value
  {
    NeverFails(b, reg[c].1, year, prev);
  }

  /** Two modules run in order. */
  lemma TwoModules(m1: SimModule, m2: SimModule, reg: Registry, year: int, prev: Snapshot)
    ensures StepModules([m1, m2], reg, year, prev) ==
              (var (r1, ok) := StepModule(m1.behaviour, reg, year, prev);
               if !ok then (r1, false) else StepModule(m2.behaviour, r1, year, prev))
  {
    assert [m1, m2][1..] == [m2];
    assert [m2][1..] == [];
    var (r1, ok) := StepModule(m1.behaviour, reg, year, prev);
    if ok {
      var (r2, ok2) := StepModule(m2.behaviour, r1, year, prev);
      assert StepModules([m2], r1, year, prev) == (r2, ok2);
    }
  }

  /** Modules see each other's writes in registration order: a copy that runs after a set
      reads the value just set, for every entity of the category. */
  lemma CopyAfterSetSeesNewValue(
    m1: SimModule, m2: SimModule, reg: Registry, year: int, prev: Snapshot,
    category: string, a: string, t: string, v: Value)
    requires m1.behaviour == SetEach(category, a, v) && m2.behaviour == CopyEach(category, a, t)
    ensures var r := StepModules([m1, m2], reg, year, prev);
            r.1 && SameShape(r.0, reg) &&
            (IndexOf(reg, category).Some? ==>
               var c := IndexOf(reg, category).value;
               forall j :: 0 <= j < |reg[c].1| ==> r.0[c].1[j].store.Get(t, None) == v)
  {
    TwoModules(m1, m2, reg, year, prev);
    var i := IndexOf(reg, category);
    if i.Some? {
      var c := i.value;
      StepAt(m1.behaviour, reg, c, year, prev);
      var r1 := StepModule(m1.behaviour, reg, year, prev).0;
      IndexOfShape(reg, r1, category);
      StepAt(m2.behaviour, r1, c, year, prev);
    }
  }

  /** In the opposite order the copy reads the value from before the set. */
  lemma CopyBeforeSetSeesOldValue(
    m1: SimModule, m2: SimModule, reg: Registry, year: int, prev: Snapshot,
    category: string, a: string, t: string, v: Value)
    requires m1.behaviour == CopyEach(category, a, t) && m2.behaviour == SetEach(category, a, v)
    requires a != t
    ensures var r := StepModules([m1, m2], reg, year, prev);
            r.1 && SameShape(r.0, reg) &&
            (IndexOf(reg, category).Some? ==>
               var c := IndexOf(reg, category).value;
               forall j :: 0 <= j < |reg[c].1| ==>
                 r.0[c].1[j].store.Get(t, None) == reg[c].1[j].store.Get(a, None) &&
                 r.0[c].1[j].store.Get(a, None) == v)
  {
    TwoModules(m1, m2, reg, year, prev);
    var i := IndexOf(reg, category);
    if i.Some? {
      var c := i.value;
      StepAt(m1.behaviour, reg, c, year, prev);
      var r1 := StepModule(m1.behaviour, reg, year, prev).0;
      IndexOfShape(reg, r1, category);
      StepAt(m2.behaviour, r1, c, year, prev);
    }
  }

  /** Registries of the same shape find a key at the same position. */
  lemma {:induction false} IndexOfShape(a: Registry, b: Registry, key: string)
    requires SameShape(a, b)
    ensures IndexOf(a, key) == IndexOf(b, key)
    decreases |a|
  {
    if a != [] {
      assert SameShape(a[1..], b[1..]) by {
        assert forall c :: 0 <= c < |a| - 1 ==> a[1..][c] == a[c + 1] && b[1..][c] == b[c + 1];
      }
      IndexOfShape(a[1..], b[1..], key);
    }
  }

  /** Running the modules of a year one after another: the step from module i on is the rest
      of the step from the beginning. */
  lemma StepModulesUnfold(mods: seq<SimModule>, i: nat, reg: Registry, year: int, prev: Snapshot)
    requires i < |mods|
    ensures StepModules(mods[i..], reg, year, prev) ==
              (var (r1, ok) := StepModule(mods[i].behaviour, reg, year, prev);
               if !ok then (r1, false) else StepModules(mods[i + 1..], r1, year, prev))
  {
    assert mods[i..][0] == mods[i];
    assert mods[i..][1..] == mods[i + 1..];
  }
}
