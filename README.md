# Semiconductor industry simulation engine — Dafny model

This project models the engine of a year-stepped simulation of the semiconductor industry.
The model covers:

- the attribute store every simulated entity carries (`BaseModel`): current attributes plus a per-year log of writes;
- the two entity variants with behaviour of their own:
  - `PolicyModel`, with a `policy_type` default and the yearly `is_active` flag;
  - `CompanyModel`, with a `company_type` default;
- `SimulationManager`:
  - building the entity registry from a parsed scenario document (category keys to entity kinds, records without an id or a name skipped, configuration order kept, and a record that is not a dict ending the load with an exception);
  - module registration and initialisation;
  - the year loop, which runs every module in registration order and then stores a snapshot;
  - the snapshot itself: every entity flattened to `model_id`, `name` and its attributes, with lists and dicts stringified;
- `transform_yearly_results_to_trajectories`, which regroups year → category → records into category → model id → year-ordered records.

Modules:

| module | file | models |
|---|---|---|
| `Values` | values.dfy | the dynamically typed attribute values, Python truthiness, `str()` |
| `AttributeStore` | attribute_store.dfy | `get_attribute`, `set_attribute`, and a replay of any sequence of writes |
| `Policies` | policy.dfy | the `policy_type` default, `update_state`, `is_policy_active` |
| `Companies` | company.dfy | the `company_type` default |
| `Entities` | entity.dfy | the class `Entity`: one object per simulated entity, updated in place |
| `Loading` | loading.dfy | `MODEL_CLASS_MAP`, the class-name guess, `_initialize_models` as a function |
| `Snapshots` | snapshots.dfy | `_collect_yearly_results` as a function |
| `SimModules` | sim_modules.dfy | `BaseModule` as a closed set of stub behaviours; one module step; one year's steps |
| `Runs` | runs.dfy | the year loop of `run_simulation` as a function |
| `Manager` | manager.dfy | the class `SimulationManager` and the loops that build, step and snapshot the entity objects |
| `Trajectories` | trajectories.dfy | the transform's nested loops, and what the grouping it returns contains |

How the model is structured:

- Every imperative operation is a method over objects (`Entity`, `SimulationManager`) or over sequences of entity objects.
- Each such method is proved against a function on the values of those objects: `Load`, `SnapshotOf`, `StepModule`, `StepModules`, `RunFrom`, `Trajectories`.
- The promised properties are lemmas about those functions.
- The transform's input is a value, so the model cannot modify it.

Python semantics the model keeps:

- truthiness, as in `not model_id` and `if start`;
- `True == 1` in the `is_active` comparison;
- the `TypeError` of comparing an int with a string bound;
- hashing of model ids (`True` and `1` are one key; a list is not hashable);
- the `KeyError` of a record without `model_id`;
- the exception an un-iterable category value raises out of the loader;
- the `AttributeError` a record that is not a dict raises twice: once inside the `try`, where it is caught, and again in the handler's own message, from where it escapes the loader.

## Model

| member | source | states |
|---|---|---|
| AttributeStore.Fresh | semiconductor_simulation/core/base_model.py:8-12 | a new store holds exactly the supplied attributes (empty when none) and an empty history |
| AttributeStore.Store.Get | semiconductor_simulation/core/base_model.py:22-28 | get_attribute; pinned down by Store.Write (after a write, both the current read and that year's read give the value), ReplayLoggedValue (a logged year reads the last write in that year), ReplayCurrent (without a year, the last write overall, None when never written) and FallBackToCurrent (a year without a log entry reads the current value) |
| AttributeStore.Store.Write | semiconductor_simulation/core/base_model.py:30-44 | after set_attribute(a, v, y), both the current read and the year-y read of a give v; only attributes[a] and history[y][a] change; history[y] is created on demand; every other attribute, year and logged entry is kept |
| AttributeStore.LastWriteWins | semiconductor_simulation/core/base_model.py:43-44 | two writes to one attribute in one year leave exactly the state of the second write alone |
| AttributeStore.ReplayYears | semiconductor_simulation/core/base_model.py:34-35 | after any sequence of writes, a year is a key of history iff it was one before or some write used that year |
| AttributeStore.WriteYearLog | semiconductor_simulation/core/base_model.py:34-44 | one write adds exactly its own attribute to its own year's log |
| AttributeStore.ReplayLogged | semiconductor_simulation/core/base_model.py:30-44 | after any sequence of writes, a is in history[y] iff it was there before or some set_attribute(a, _, y) occurred |
| AttributeStore.ReplayLoggedValue | semiconductor_simulation/core/base_model.py:44 | history[y][a] is the value of the last write to a in year y; without such a write the entry is what it was |
| AttributeStore.ReplayCurrent | semiconductor_simulation/core/base_model.py:43 | the current value of a is its last write in any year; never written, it keeps its old value or stays absent |
| AttributeStore.FallBackToCurrent | semiconductor_simulation/core/base_model.py:22-28 | reading a year for which the attribute was never logged returns the current value |
| Companies.WithCompanyType | semiconductor_simulation/models/company.py:13-21 | company_type is always a key; a supplied value is kept, a missing one becomes None; every other attribute is stored as given |
| Policies.WithPolicyType | semiconductor_simulation/models/policy.py:24-29 | policy_type is always a key; a supplied value is kept, a missing one becomes None; every other attribute is stored as given |
| Entities.InitialAttributes | semiconductor_simulation/core/simulation_manager.py:90-94 | a new entity holds every supplied attribute unchanged, plus policy_type for policies and company_type for companies; other kinds get exactly what was supplied |
| Entities.Update | semiconductor_simulation/models/policy.py:37-52 | update_state by kind; its promises are carried by Policies.UpdateState (a policy) and Entities.PlaceholderUpdateIsIdentity (a company, technology node or end market) |
| Entities.PlaceholderUpdateIsIdentity | semiconductor_simulation/models/company.py:30-41 | the update_state of a company, a technology node or an end market (each a `pass` placeholder) never fails and changes neither attributes nor history, however often it is called |
| Entities.Entity.constructor | semiconductor_simulation/core/base_model.py:8-12 | the object holds its kind, id and name, the initial attributes with the kind's default, and an empty history |
| Entities.Entity.SetAttribute | semiconductor_simulation/core/base_model.py:30-44 | the object's store becomes Write of the old store, so both reads of the attribute return the new value |
| Entities.Entity.UpdateState | semiconductor_simulation/models/policy.py:37-52 | the object's store becomes the kind's update of the old store; when Python would raise, nothing is written |
| Policies.Status | semiconductor_simulation/models/policy.py:37-52 | the status update_state computes; its promises are carried by Policies.StatusIsWindow (the start <= year <= end window, and exactly when it raises) and Policies.WorkedExample |
| Policies.IsPolicyActive | semiconductor_simulation/models/policy.py:66-75 | is_policy_active; its promises are carried by Policies.TruthyTestAgrees (agrees with the status for absent or non-zero integer bounds) and Policies.ZeroBoundDisagrees (a bound of 0 makes them disagree) |
| Policies.UpdateState | semiconductor_simulation/models/policy.py:37-52 | fails exactly when a bound is not comparable with an int; afterwards is_active equals the computed status; the store is untouched when is_active already equalled it (Python ==, so 1 == True); otherwise exactly one write of is_active in the current year |
| Policies.StatusIsWindow | semiconductor_simulation/models/policy.py:42-49 | with integer or absent bounds, active iff start <= year <= end, an absent bound being open; the status is undefined (TypeError) exactly when a bound is a string, list or dict |
| Policies.WorkedExample | semiconductor_simulation/models/policy.py:45-49 | with start_year 2025 and end_year 2028: active in 2025..2028, inactive in 2024 and 2029 |
| Policies.UpdateIdempotent | semiconductor_simulation/models/policy.py:51-52 | a second update in the same year changes neither attributes nor history |
| Policies.UpdateFrame | semiconductor_simulation/models/policy.py:37-64 | update_state changes no attribute but is_active, and no log entry but is_active in the current year |
| Policies.TruthyTestAgrees | semiconductor_simulation/models/policy.py:66-75 | for absent or non-zero integer bounds, is_policy_active equals the status update_state computes |
| Policies.ZeroBoundDisagrees | semiconductor_simulation/models/policy.py:66-75 | a bound of 0 counts as a bound for update_state and as no bound for is_policy_active: with end_year 0 they disagree in every positive year |
| Policies.UpdateKeepsOtherYears | semiconductor_simulation/models/policy.py:51-52 | an update in year y leaves the log of every other year unchanged |
| Policies.NewYearLogged | semiconductor_simulation/models/policy.py:51-52 | in a new year, the update logs is_active iff it is the first update and the stored value (None unless the scenario supplied one) is not == to the status, or a later update whose status differs from the previous year's |
| Policies.FlipStep | semiconductor_simulation/models/policy.py:51-52 | one more yearly update (later than all before) keeps the pattern: every year so far is logged exactly on a flip |
| Policies.LoggedOnlyOnFlip | semiconductor_simulation/models/policy.py:51-52 | over strictly increasing years, starting from a new policy (empty history, any supplied attributes, is_active included) with comparable bounds, no update fails; is_active is logged in the first year exactly when the supplied value (None when absent) is not == to the status, after that exactly in the years where the status flips, and in no other year |
| Policies.FreshPolicyWritesFirst | semiconductor_simulation/models/policy.py:51-52 | a policy whose scenario supplies no is_active, with comparable bounds, writes it on its first update |
| Loading.Capitalize | semiconductor_simulation/core/simulation_manager.py:52 | str.capitalize() on ASCII: same length, first character upper case, every other character lower case |
| Loading.Lookup | semiconductor_simulation/core/simulation_manager.py:67 | a lookup in a table finds nothing exactly when no entry has the key |
| Loading.KnownClasses | semiconductor_simulation/core/simulation_manager.py:9-16 | RegionModel, CompanyModel and PolicyModel are registered class names, with their kinds |
| Loading.KindForKey | semiconductor_simulation/core/simulation_manager.py:52-71 | the kind a category key loads as; its promises are carried by Loading.FixedKeys, Loading.NotOverridden, Loading.GuessedName, Loading.NearMissSkipped and the Loading.GuessReaches lemmas |
| Loading.FixedKeys | semiconductor_simulation/core/simulation_manager.py:55-64 | regions, companies, technology_nodes, end_markets and policies load as their five kinds |
| Loading.NotOverridden | semiconductor_simulation/core/simulation_manager.py:52-65 | any other key tries the guess capitalize()[:-1] + "Model" |
| Loading.GuessFromWord | semiconductor_simulation/core/simulation_manager.py:52 | for a key one character longer than a word, the guess is the key's first letter in upper case, the rest of the word in lower case, then "Model" |
| Loading.GuessedName | semiconductor_simulation/core/simulation_manager.py:52-65 | the same for the class name tried for a key that is not an override |
| Loading.NearMissSkipped | semiconductor_simulation/core/simulation_manager.py:52-71 | every ten-character key starting with t (for example tech_nodes, guessed Tech_nodeModel) maps to no class and is skipped |
| Loading.GuessReachesRegion | semiconductor_simulation/core/simulation_manager.py:52-67 | any spelling of "region" plus one character (Regions, REGIONX) reaches RegionModel through the guess |
| Loading.GuessReachesCompany | semiconductor_simulation/core/simulation_manager.py:52-67 | likewise any spelling of "company" plus one character reaches CompanyModel |
| Loading.GuessReachesPolicy | semiconductor_simulation/core/simulation_manager.py:52-67 | likewise any spelling of "policy" plus one character reaches PolicyModel |
| Loading.BuildRecord | semiconductor_simulation/core/simulation_manager.py:81-101 | a record that is not a dict raises out of the loader; a dict record with a falsy or absent model_id or name (read with .get) is skipped as such, exactly then; otherwise it builds an entity exactly when its initial_attributes (default {}) is a mapping with no clashing keyword argument, and that entity carries the id, the name and exactly those initial_attributes; else it is skipped as a failed construction and the loop goes on |
| Loading.LoadRecord | semiconductor_simulation/core/simulation_manager.py:74-101 | once the loop has raised, nothing changes; otherwise the loop raises exactly on a record that is not a dict, adding nothing, and every other record either appends one entity or reports one skip |
| Loading.LoadCategory | semiconductor_simulation/core/simulation_manager.py:73-101 | no more entities and reports than records; every entity built has the category's kind and a truthy id |
| Loading.CategoryRaisedIsFinal | semiconductor_simulation/core/simulation_manager.py:74-101 | once a record has raised, the later records of the category change nothing |
| Loading.FirstEscape | semiconductor_simulation/core/simulation_manager.py:81 | the position of the first record that is not a dict: every record before it is a dict |
| Loading.LoadCategoryKeepsOrder | semiconductor_simulation/core/simulation_manager.py:73-101 | skipped records do not stop the category, a record that is not a dict does: the loop raises exactly when some record is not a dict; its entities are exactly those built by the records before the first such record, in configuration order; each of those records is either built or reported |
| Loading.Load | semiconductor_simulation/core/simulation_manager.py:47-103 | the registry never has more categories than the document |
| Loading.LoadEntryGrows | semiconductor_simulation/core/simulation_manager.py:67-73 | a category either leaves the registry unchanged or appends one entry under its own key |
| Loading.LoadDistinctKeys | semiconductor_simulation/core/simulation_manager.py:49-73 | every category of the registry is a key of the document, and none appears twice |
| Loading.LoadEntryRaised | semiconductor_simulation/core/simulation_manager.py:67-101 | a category reached before any exception raises exactly when it is mapped and its value cannot be iterated or holds a record that is not a dict |
| Loading.LoadRaises | semiconductor_simulation/core/simulation_manager.py:73-101 | loading raises exactly when some mapped category holds a value that cannot be iterated or a record that is not a dict |
| Loading.LoadEntryKeys | semiconductor_simulation/core/simulation_manager.py:67-73 | a category that does not raise adds its key to the registry exactly when it maps to a class |
| Loading.NonDictRecordEndsLoad | semiconductor_simulation/core/simulation_manager.py:73-101 | a mapped category whose first record is not a dict makes the load raise: that category stays present and empty, and the category after it is not loaded |
| Loading.LoadKeys | semiconductor_simulation/core/simulation_manager.py:50-73 | without a raise, the registry's categories are exactly the mapped keys, in configuration order; unknown keys are absent; a mapped category is present even when all its records were skipped |
| Loading.LoadEntryLast | semiconductor_simulation/core/simulation_manager.py:73-101 | a category that grows the registry is mapped, and its entry holds what its records build before the first record that is not a dict (nothing when its value cannot be iterated) |
| Loading.LoadedCategoryContents | semiconductor_simulation/core/simulation_manager.py:73-101 | each category of the registry comes from a mapped key of the document and holds exactly the entities its records build, in order, up to the first record that is not a dict |
| Snapshots.Serialize | semiconductor_simulation/core/simulation_manager.py:156-157 | a stored value is never a list or dict; a scalar is stored unchanged |
| Snapshots.RecordOf | semiconductor_simulation/core/simulation_manager.py:149-164 | the record of one entity; its promises are carried by Snapshots.RecordFields and Snapshots.RecordIgnoresHistory |
| Snapshots.RecordFields | semiconductor_simulation/core/simulation_manager.py:156-162 | a record's fields are model_id, name and every attribute, the attributes serialized; an attribute called model_id or name overrides the header field |
| Snapshots.RecordsOf | semiconductor_simulation/core/simulation_manager.py:153-163 | a category's records are as many as its entities |
| Snapshots.RecordsOfAt | semiconductor_simulation/core/simulation_manager.py:154-162 | record j of a category is the record of entity j |
| Snapshots.SnapshotOf | semiconductor_simulation/core/simulation_manager.py:151-164 | the snapshot has one entry per category of the registry |
| Snapshots.SnapshotOfAt | semiconductor_simulation/core/simulation_manager.py:152-163 | entry c of the snapshot is category c of the registry, with the records of its entities in order |
| Snapshots.RecordIgnoresHistory | semiconductor_simulation/core/simulation_manager.py:156-162 | a record depends only on identity and current attributes, never on the year log |
| SimModules.Initialized | semiconductor_simulation/core/simulation_manager.py:115-116 | initialising a module counts one more initialize call and changes nothing else |
| SimModules.EffectFacts | semiconductor_simulation/core/base_module.py:22-28 | a module step never changes an entity's kind, id or name; only update_state can raise |
| SimModules.FirstFailure | semiconductor_simulation/core/simulation_manager.py:140-141 | the position of the first entity on which the step raises: every entity before it succeeds |
| SimModules.StepCategory | semiconductor_simulation/core/simulation_manager.py:140-141 | the entities before the first failure take the step's effect; the failing entity and those after it are untouched |
| SimModules.StepModule | semiconductor_simulation/core/simulation_manager.py:140-141 | one module step keeps the registry's shape and changes no category but its own; a module whose category is not loaded does nothing |
| SimModules.StepModules | semiconductor_simulation/core/simulation_manager.py:140-141 | the modules of a year keep the registry's shape |
| SimModules.StepCategoryKeepsEntities | semiconductor_simulation/core/simulation_manager.py:140-141 | a category's step keeps every entity's kind, model_id and name |
| SimModules.StepModuleKeepsEntities | semiconductor_simulation/core/simulation_manager.py:140-141 | one module step keeps the registry's shape and every entity's kind, model_id and name |
| SimModules.StepModulesKeepsEntities | semiconductor_simulation/core/simulation_manager.py:140-141 | the modules of a year keep the registry's shape and every entity's kind, model_id and name |
| SimModules.NeverFails | semiconductor_simulation/core/simulation_manager.py:140-141 | a behaviour other than update_state never stops: it visits the whole category |
| SimModules.TwoModules | semiconductor_simulation/core/simulation_manager.py:140-141 | two modules run in registration order; the second runs on the first's result, and not at all if the first raised |
| SimModules.CopyAfterSetSeesNewValue | semiconductor_simulation/core/simulation_manager.py:140-141 | a module that reads after one that writes sees the new value, for every entity of the category |
| SimModules.CopyBeforeSetSeesOldValue | semiconductor_simulation/core/simulation_manager.py:140-141 | in the opposite order the reader sees the value from before the write |
| Runs.RunFrom | semiconductor_simulation/core/simulation_manager.py:119-147 | the year loop; its promises are carried by Runs.FailureInRange, Runs.RunCoversYears, Runs.RunKeepsOtherYears, Runs.NoModulesNoChange and Runs.RunKeepsShape |
| Runs.FailureInRange | semiconductor_simulation/core/simulation_manager.py:128-143 | a run that stops does so in a year of its range |
| Runs.RunCoversYears | semiconductor_simulation/core/simulation_manager.py:128-147 | a completed run stores a snapshot for every year start..end; a stopped run stores the years before the failure; no other year is added, and start > end adds none |
| Runs.RunKeepsOtherYears | semiconductor_simulation/core/simulation_manager.py:128-143 | results of years outside the range are left as they were |
| Runs.NoModulesNoChange | semiconductor_simulation/core/simulation_manager.py:128-143 | with zero modules the registry never changes, and every year's snapshot is the snapshot of the loaded state |
| Runs.RunKeepsShape | semiconductor_simulation/core/simulation_manager.py:128-143 | a run changes attributes only: categories, entity counts, and each entity's kind, model_id and name stay as loaded |
| Manager.RaisedIsFinal | semiconductor_simulation/core/simulation_manager.py:50-74 | once loading has raised, later categories change nothing |
| Manager.Apply | semiconductor_simulation/core/simulation_manager.py:140-141 | a stub module's step on one entity object: the object's new state is the step's effect on its old state; when Python would raise, it is unchanged |
| Manager.ApplyAll | semiconductor_simulation/core/simulation_manager.py:140-141 | a module's step over a list of entity objects: the list's new values are StepCategory of the old ones; it reports success iff no entity raised |
| Manager.ExecuteAt | semiconductor_simulation/core/simulation_manager.py:140-141 | stepping category c of a registry of objects replaces exactly that category's value with its step |
| Manager.ExecuteIn | semiconductor_simulation/core/simulation_manager.py:140-141 | one module over a registry of objects: its new value and outcome are StepModule of the old value |
| Manager.StepYearIn | semiconductor_simulation/core/simulation_manager.py:140-141 | the modules of one year, in registration order, over a registry of objects: StepModules of the old value |
| Manager.RunYears | semiconductor_simulation/core/simulation_manager.py:128-145 | the year loop over a registry of objects gives exactly RunFrom's registry, results and failure year |
| Manager.CollectCategory | semiconductor_simulation/core/simulation_manager.py:153-163 | the inner snapshot loop returns the records of the entities' current states, in order |
| Manager.Collect | semiconductor_simulation/core/simulation_manager.py:151-164 | the outer snapshot loop returns SnapshotOf the registry's current value |
| Manager.BuildOne | semiconductor_simulation/core/simulation_manager.py:74-101 | one record of a mapped category: the objects' values, the skips and the raise are LoadRecord's, and no object is shared |
| Manager.BuildCategory | semiconductor_simulation/core/simulation_manager.py:73-101 | one mapped category, stopping at the first record that raises: the new objects' values, the skips and the raise are LoadCategory's, with no object shared with the registry |
| Manager.LoadEntryObjects | semiconductor_simulation/core/simulation_manager.py:50-103 | one category of the loader over objects: the registry's value, diagnostics and raise are one more step of Load, and no object is shared |
| Manager.LoadModels | semiconductor_simulation/core/simulation_manager.py:47-103 | _initialize_models over objects: the registry's value, the skips and the raise are Load's; category keys are distinct; no object is shared |
| Manager.SimulationManager.constructor | semiconductor_simulation/core/simulation_manager.py:22-34 | a new manager has years 0, no models, modules or results, empty global parameters and scenario data |
| Manager.SimulationManager.LoadScenario | semiconductor_simulation/core/simulation_manager.py:36-45 | missing start_year and end_year default to 2025 and 2040; current_year is start_year; global_parameters defaults to {}; the registry is Load of models_initial_state (default {}), with its raise; loading also raises when that is not a mapping |
| Manager.SimulationManager.RegisterModule | semiconductor_simulation/core/simulation_manager.py:105-108 | the module is appended, so modules keep registration order |
| Manager.SimulationManager.InitializeModules | semiconductor_simulation/core/simulation_manager.py:110-117 | nothing happens when models and global parameters are both empty; otherwise every module is initialised exactly once, in order |
| Manager.SimulationManager.ExecuteModule | semiconductor_simulation/core/simulation_manager.py:140-141 | one module step on the manager's registry is StepModule of its old value |
| Manager.SimulationManager.StepYear | semiconductor_simulation/core/simulation_manager.py:140-141 | one year's modules, in registration order, on the manager's registry: StepModules of its old value |
| Manager.SimulationManager.CollectYearlyResults | semiconductor_simulation/core/simulation_manager.py:149-164 | results[current_year] becomes the snapshot of the registry, and every other year is kept; entities are not modified |
| Manager.SimulationManager.RunSimulation | semiconductor_simulation/core/simulation_manager.py:119-147 | with empty scenario data nothing changes and no run happens (modules need not be initialised); otherwise the registry and results become RunFrom over start..end with the old results; current_year ends at end_year, or at the year a module raised, or is unchanged for an empty range |
| Trajectories.KeyOf | main.py:200 | a model id can be a dict key exactly when it is not a list or dict |
| Trajectories.KeyOfEquality | main.py:200 | two hashable model ids share a trajectory exactly when Python finds them equal (True and 1 do) |
| Trajectories.WithYearFields | main.py:199 | {'year': year, **record} has the record's fields plus year; a year field in the record overrides the injected year |
| Trajectories.AppendGet | main.py:200 | an append extends exactly the trajectory of its category and id, creating both on demand |
| Trajectories.SortedYears | main.py:191 | the years are strictly ascending, each from the input |
| Trajectories.SortedYearsCovers | main.py:191 | every year of the input is visited |
| Trajectories.AddCategory | main.py:196-200 | the innermost loop equals the fold over the records of one category list |
| Trajectories.AddYear | main.py:195-200 | the middle loop equals the fold over one year's categories in order |
| Trajectories.Transform | main.py:185-201 | the method returns exactly Trajectories(yearly), the fold over every record in visiting order |
| Trajectories.FoldGroups | main.py:193-200 | without a raise, the trajectory of (category, id) is exactly the matching records in visiting order, each tagged with its year |
| Trajectories.FoldShape | main.py:190-201 | the result's categories are those of the visited records, and no trajectory is empty |
| Trajectories.FoldDone | main.py:196-200 | the transform completes exactly when no record is bad |
| Trajectories.FoldFirstFailure | main.py:197 | a raise is that of the first bad record in visiting order: KeyError for a missing id, TypeError for an unhashable one |
| Trajectories.MatchingAscends | main.py:191-193 | selecting one category and id keeps the year order of the visit |
| Trajectories.MatchingCount | main.py:193-200 | a trajectory is as long as the number of records with that category and id across all years, duplicates included |
| Trajectories.VisitYearsAscend | main.py:191-193 | the visit goes through the years in ascending order |
| Trajectories.Trajectories | main.py:185-201 | the transform as a fold over every record in visiting order; its promises are carried by Trajectories.TrajectoriesGroups, Trajectories.TrajectoriesCategories, Trajectories.TrajectoryYearsAscend and Trajectories.TrajectoriesRaise |
| Trajectories.TrajectoriesGroups | main.py:185-201 | without a raise, each trajectory is the records of its category and id with their years, in order; an id is a key exactly when it has records; every record of every year appears in its trajectory |
| Trajectories.TrajectoriesCategories | main.py:190-201 | without a raise, the categories of the result are exactly those with at least one record in some year |
| Trajectories.TrajectoryYearsAscend | main.py:191-200 | every trajectory is in ascending year order |
| Trajectories.TrajectoriesRaise | main.py:197-200 | the transform raises exactly when some record lacks model_id or has a list or dict id |
| Trajectories.EngineResultsHaveIds | main.py:197 | on the engine's own results the transform never raises KeyError, only TypeError for a list or dict model id |
| Trajectories.EngineRecordHasId | semiconductor_simulation/core/simulation_manager.py:158-162 | every snapshot record has a model_id field |

## Left out

- Floating-point values: the `Value` datatype has no floats.
  - The concrete modules under `semiconductor_simulation/modules/` compute with floats and are not part of this model.
  - Stub behaviours stand in for them: set, copy, update_state, and count the previous year's records.
- `BaseModule` is a closed datatype of stub behaviours rather than an open interface.
  - `initialize` only counts calls.
  - A module reaches its entities through the manager's current registry, not through references captured at initialisation. So aliasing between a module's own state and the manager's lists is not modelled.
  - The yearly context's `global_parameters` and `all_results` are not passed to modules. Only `previous_results` is.
- `RegionModel` is not part of this model. Region entities are built like the other plain kinds, and their `update_state` is modelled as a no-op. The same goes for technology nodes and end markets, whose `update_state` is `pass`.
- YAML parsing and file I/O (`load_yaml_data`): `LoadScenario` takes the parsed document as a `Scenario` value. The manager's `scenario_name` and `config_path` fields are not modelled.
- Console output: the loader's diagnostics are returned as a list of `Skip` values. Every other print is left out.
- `__repr__` of models and modules is left out.
- Non-integer `start_year` and `end_year`, which make `range()` raise, are not modelled: the years are integers.
- Dict keys are strings, and a dict's entries are assumed to have distinct keys, as a parsed mapping has.
- Loading.BuildRecord: construction failure is a closed predicate: `initial_attributes` is not a mapping, or it has a `model_id`, `name` or `self` key (a duplicate keyword argument). Other ways a Python constructor call can raise are not modelled.
- Values.Stringify: `str()` of lists and dicts does not escape quotes or backslashes inside strings, and does not handle non-ASCII text.
- Loading.Capitalize: ASCII case mapping only, unlike `str.capitalize()`.
- Loading.GuessReachesRegion: the lemma covers the keys one character longer than "region". The same holds for GuessReachesCompany and GuessReachesPolicy. Other spellings are decided by `KindForKey` itself.
- Snapshots.RecordFields: a record's fields are a map, so the key order of the stored dict is not kept.
- Trajectories.TrajectoriesGroups: the result is a map, so the key order of the category and id dicts in the returned value (first appearance) is not kept. The order within each trajectory is kept. Ids that Python finds equal (`True` and `1`) share one `Key`, so which of them the returned dict keeps as its key (the first inserted) is not modelled either.
- Manager.SimulationManager.LoadScenario: the contract does not state that the entity objects are freshly allocated, only their values and their disjointness.
- Manager.SimulationManager.RunSimulation: `current_year` is stated only at the end of the run. The year-by-year values it takes inside the loop are not stated.
