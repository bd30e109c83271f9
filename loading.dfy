/** Building the entity registry from a scenario's `models_initial_state`: category keys are
    mapped to entity kinds (exact names first, then a capitalisation heuristic checked against
    the table of known classes), and each record of a mapped category becomes an entity unless
    it lacks an id or a name or its constructor call fails; a record that is not a dict ends
    the load with an exception. */
module Loading {
  import opened Values
  import opened AttributeStore
  import opened Entities

  /** The registry's value: categories in configuration order, entities in record order. */
  type Registry = seq<(string, seq<EntityState>)>

  function UpperChar(c: char): char
  {
    if 'a' <= c <= 'z' then (c as int - 32) as char else c
  }

  function LowerChar(c: char): char
  {
    if 'A' <= c <= 'Z' then (c as int + 32) as char else c
  }

  function Lower(s: string): (r: string)
    ensures |r| == |s|
    ensures forall i :: 0 <= i < |s| ==> r[i] == LowerChar(s[i])
  {
    if s == [] then [] else [LowerChar(s[0])] + Lower(s[1..])
  }

  /** str.capitalize() on ASCII text: first character upper case, the rest lower case. */
  function Capitalize(s: string): (r: string)
    ensures |r| == |s|
    ensures s != [] ==> r[0] == UpperChar(s[0])
    ensures forall i :: 0 < i < |s| ==> r[i] == LowerChar(s[i]) && !('A' <= r[i] <= 'Z')
  {
    if s == [] then [] else [UpperChar(s[0])] + Lower(s[1..])
  }

  /** The default guess `key.capitalize()[:-1] + "Model"`. */
  function GuessClassName(key: string): string
  {
    var c := Capitalize(key);
    (if c == [] then [] else c[..|c| - 1]) + "Model"
  }

  /** The category keys whose class name is fixed rather than guessed, in the order the
      overrides are tested. */
  const Overrides: seq<(string, string)> := [
    ("regions", "RegionModel"),
    ("companies", "CompanyModel"),
    ("technology_nodes", "TechnologyNodeModel"),
    ("end_markets", "EndMarketModel"),
    ("policies", "PolicyModel")]

  /** MODEL_CLASS_MAP: the entity kind registered under each class name. */
  const ModelClassMap: seq<(string, Kind)> := [
    ("RegionModel", Region),
    ("CompanyModel", Company),
    ("TechnologyNodeModel", TechnologyNode),
    ("EndMarketModel", EndMarket),
    ("PolicyModel", Policy)]

  /** The value under the first entry with this key, if any. */
  function Lookup<V>(table: seq<(string, V)>, key: string): (r: Option<V>)
    ensures r.None? <==> forall i :: 0 <= i < |table| ==> table[i].0 != key
  {
    if table == [] then None
    else if table[0].0 == key then Some(table[0].1)
    else
      var r := Lookup(table[1..], key);
      assert forall i :: 0 < i < |table| ==> table[i] == table[1..][i - 1];
      r
  }

  /** What is found is the value of an entry with that key. */
  lemma {:induction false} LookupFound<V>(table: seq<(string, V)>, key: string)
    requires Lookup(table, key).Some?
    ensures exists i :: 0 <= i < |table| && table[i] == (key, Lookup(table, key).value)
  {
    if table[0].0 != key {
      LookupFound(table[1..], key);
      var i :| 0 <= i < |table[1..]| && table[1..][i] == (key, Lookup(table, key).value);
      assert table[i + 1] == table[1..][i];
    }
  }

  /** An entry whose key no earlier entry has is the one found. */
  lemma {:induction false} LookupAt<V>(table: seq<(string, V)>, i: nat)
    requires i < |table|
    requires forall j :: 0 <= j < i ==> table[j].0 != table[i].0
    ensures Lookup(table, table[i].0) == Some(table[i].1)
  {
    if i > 0 {
      assert forall j :: 0 <= j < i - 1 ==> table[1..][j] == table[j + 1];
      LookupAt(table[1..], i - 1);
    }
  }

  /** The class name tried for a category key: the fixed one, else the guess. */
  function ClassName(key: string): string
  {
    match Lookup(Overrides, key)
    case Some(name) => name
    case None => GuessClassName(key)
  }

  /** The kind registered under a class name, if any. */
  function ModelClass(name: string): Option<Kind>
  {
    Lookup(ModelClassMap, name)
  }

  /** The kind a category key loads as; None means the category is skipped. */
  function KindForKey(key: string): Option<Kind>
  {
    ModelClass(ClassName(key))
  }

  /** The five documented keys load as their kinds. */
  lemma FixedKeys()
    ensures KindForKey("regions") == Some(Region)
    ensures KindForKey("companies") == Some(Company)
    ensures KindForKey("technology_nodes") == Some(TechnologyNode)
    ensures KindForKey("end_markets") == Some(EndMarket)
    ensures KindForKey("policies") == Some(Policy)
  {
  }

  /** A near miss such as "tech_nodes" guesses "Tech_nodeModel", which is not a known class:
      every ten-character key starting with a t is skipped. */
  lemma NearMissSkipped(key: string)
    requires |key| == 10 && LowerChar(key[0]) == 't'
    ensures KindForKey(key) == None
  {
    var g := GuessClassName(key);
    assert |g| == 14 && g[0] == 'T';
  }

  /** A key that is not one of the overrides gets the guess. */
  lemma NotOverridden(key: string)
    requires forall i :: 0 <= i < |Overrides| ==> Overrides[i].0 != key
    ensures ClassName(key) == GuessClassName(key)
  {
  }

  /** Any spelling of "region" plus one final character reaches RegionModel through the
      guess (for example "Regions", "REGIONX", "regionz"). */
  lemma GuessReachesRegion(key: string)
    requires |key| == 7 && Lower(key[1..6]) == "egion" && LowerChar(key[0]) == 'r'
    ensures KindForKey(key) == Some(Region)
  {
    if key == "regions" {
      LookupAt(Overrides, 0);
      assert ClassName(key) == "RegionModel";
    } else {
      GuessedName(key, "egion");
      assert UpperChar(key[0]) == 'R';
      assert ClassName(key) == "RegionModel";
    }
    KnownClasses();
  }

  /** Likewise any spelling of "company" plus one character reaches CompanyModel. */
  lemma GuessReachesCompany(key: string)
    requires |key| == 8 && Lower(key[1..7]) == "ompany" && LowerChar(key[0]) == 'c'
    ensures KindForKey(key) == Some(Company)
  {
    assert key[0] != Overrides[4].0[0];
    GuessedName(key, "ompany");
    assert UpperChar(key[0]) == 'C';
    assert ClassName(key) == "CompanyModel";
    KnownClasses();
  }

  /** Likewise any spelling of "policy" plus one character reaches PolicyModel. */
  lemma GuessReachesPolicy(key: string)
    requires |key| == 7 && Lower(key[1..6]) == "olicy" && LowerChar(key[0]) == 'p'
    ensures KindForKey(key) == Some(Policy)
  {
    assert key[0] != Overrides[0].0[0];
    GuessedName(key, "olicy");
    assert UpperChar(key[0]) == 'P';
    assert ClassName(key) == "PolicyModel";
    KnownClasses();
  }

  /** The class names the guesses above reach are registered. */
  lemma KnownClasses()
    ensures ModelClass("RegionModel") == Some(Region)
    ensures ModelClass("CompanyModel") == Some(Company)
    ensures ModelClass("PolicyModel") == Some(Policy)
  {
  }

  /** A key that is no override and is one character longer than a word starting with a
      lower-case letter tries the capitalised word plus "Model". */
  lemma GuessedName(key: string, rest: string)
    requires |key| == |rest| + 2 && Lower(key[1..|key| - 1]) == rest
    requires forall i :: 0 <= i < |Overrides| ==> Overrides[i].0 != key
    ensures ClassName(key) == [UpperChar(key[0])] + rest + "Model"
  {
    GuessFromWord(key, rest);
    NotOverridden(key);
  }

  /** The guess for a key one character longer than a capitalised word: the word plus "Model". */
  lemma GuessFromWord(key: string, rest: string)
    requires |key| == |rest| + 2 && Lower(key[1..|key| - 1]) == rest
    ensures GuessClassName(key) == [UpperChar(key[0])] + rest + "Model"
  {
    var c := Capitalize(key);
    var n := |key| - 1;
    forall i | 1 <= i < n
      ensures c[i] == rest[i - 1]
    {
      assert key[1..n][i - 1] == key[i];
    }
    assert c[..n] == [UpperChar(key[0])] + rest;
  }

  /** Why a record of a mapped category produced no entity while the loop went on. */
  datatype Reason =
    | MissingIdOrName    // `model_id` or `name` absent or falsy
    | ConstructionFailed // the constructor call raises (bad `initial_attributes`); the error is caught

  /** What one record yields. A record that is not a dict makes `.get` raise; the generic
      handler catches that error, but its own message calls `.get` on the record again, and
      that second error escapes the loader (Escapes). */
  datatype Built =
    | Entity(modelId: Value, name: Value, attrs: Attributes)
    | Skipped(reason: Reason)
    | Escapes

  /** `d.get(key, default)` on a dict given by its entries. */
  function DictGet(entries: seq<(string, Value)>, key: string, default: Value): Value
  {
    var m := ToMap(entries);
    if key in m then m[key] else default
  }

  /** The keyword arguments the constructor call would receive twice, or that clash with its
      own parameters. */
  predicate ClashingKeyword(attrs: Attributes)
  {
    "model_id" in attrs || "name" in attrs || "self" in attrs
  }

  /** One record: read model_id, name and initial_attributes (default {}), skip on a falsy id
      or name, then call the constructor with the attributes as keyword arguments. */
  function BuildRecord(rec: Value): (b: Built)
    ensures b.Escapes? <==> !rec.Dict?
    ensures b.Entity? ==> rec.Dict? && Truthy(b.modelId) && Truthy(b.name)
    ensures b.Entity? ==> !ClashingKeyword(b.attrs)
    ensures b.Entity? ==> b.modelId == DictGet(rec.entries, "model_id", Null)
    ensures b.Entity? ==> b.name == DictGet(rec.entries, "name", Null)
    ensures (rec.Dict? && DictGet(rec.entries, "initial_attributes", Dict([])) == Dict([]) &&
             Truthy(DictGet(rec.entries, "model_id", Null)) &&
             Truthy(DictGet(rec.entries, "name", Null))) ==> b.Entity? && b.attrs == map[]
    ensures rec.Dict? && Truthy(DictGet(rec.entries, "model_id", Null)) &&
            Truthy(DictGet(rec.entries, "name", Null)) ==>
              var init := DictGet(rec.entries, "initial_attributes", Dict([]));
              (b.Entity? <==> init.Dict? && !ClashingKeyword(ToMap(init.entries))) &&
              (b.Entity? ==> b.attrs == ToMap(init.entries)) &&
              (!b.Entity? ==> b == Skipped(ConstructionFailed))
    ensures rec.Dict? ==>
              (b == Skipped(MissingIdOrName) <==>
                 !Truthy(DictGet(rec.entries, "model_id", Null)) || !Truthy(DictGet(rec.entries, "name", Null)))
  {
    if !rec.Dict? then Escapes
    else
      var id := DictGet(rec.entries, "model_id", Null);
      var name := DictGet(rec.entries, "name", Null);
      var init := DictGet(rec.entries, "initial_attributes", Dict([]));
      if !Truthy(id) || !Truthy(name) then Skipped(MissingIdOrName)
      else if !init.Dict? then Skipped(ConstructionFailed)
      else
        var attrs := ToMap(init.entries);
        if ClashingKeyword(attrs) then Skipped(ConstructionFailed)
        else Entity(id, name, attrs)
  }

  /** The state of the entity a successful record builds as `kind`. */
  function NewState(kind: Kind, id: Value, name: Value, attrs: Attributes): EntityState
  {
    EntityState(kind, id, name, Store(InitialAttributes(kind, attrs), map[]))
  }

  /** The sequence the loop iterates for a category's value: a list's items, a dict's keys,
      a string's characters; None for values Python cannot iterate (TypeError, not caught). */
  function CategoryRecords(v: Value): Option<seq<Value>>
  {
    match v
    case List(items) => Some(items)
    case Dict(entries) => Some(seq(|entries|, i requires 0 <= i < |entries| => Str(entries[i].0)))
    case Str(s) => Some(seq(|s|, i requires 0 <= i < |s| => Str([s[i]])))
    case _ => None
  }

  /** A diagnostic the loader would print. */
  datatype Skip = UnknownCategory(key: string) | BadRecord(key: string, position: nat, reason: Reason)

  /** The record loop of one mapped category: the entities built, in record order, the
      records reported, and whether an exception escaped. */
  datatype CategoryLoad = CategoryLoad(built: seq<EntityState>, skipped: seq<Skip>, raised: bool)

  /** Records of one mapped category, in order, until one raises. */
  function LoadCategory(key: string, kind: Kind, recs: seq<Value>): (r: CategoryLoad)
    ensures |r.built| + |r.skipped| <= |recs|
    ensures forall i :: 0 <= i < |r.built| ==> r.built[i].kind == kind && Truthy(r.built[i].modelId)
    decreases |recs|
  {
    if recs == [] then CategoryLoad([], [], false)
    else LoadRecord(key, kind, LoadCategory(key, kind, recs[..|recs| - 1]), recs[|recs| - 1], |recs| - 1)
  }

  /** Record number `position` of a category: its entity is appended, it is reported, or it
      raises; nothing happens once the loop has raised. */
  function LoadRecord(key: string, kind: Kind, prev: CategoryLoad, rec: Value, position: nat): (r: CategoryLoad)
    ensures prev.raised ==> r == prev
    ensures !prev.raised ==> (r.raised <==> !rec.Dict?)
    ensures !r.raised ==> |r.built| + |r.skipped| == |prev.built| + |prev.skipped| + 1
    ensures r.raised ==> |r.built| + |r.skipped| == |prev.built| + |prev.skipped|
  {
    if prev.raised then prev
    else match BuildRecord(rec)
      case Entity(id, name, attrs) => CategoryLoad(prev.built + [NewState(kind, id, name, attrs)], prev.skipped, false)
      case Skipped(why) => CategoryLoad(prev.built, prev.skipped + [BadRecord(key, position, why)], false)
      case Escapes => prev.(raised := true)
  }

  /** Loading one more record of a category is one more step of the inner loop. */
  lemma LoadCategoryPrefix(key: string, kind: Kind, recs: seq<Value>, j: nat)
    requires j < |recs|
    ensures LoadCategory(key, kind, recs[..j + 1]) == LoadRecord(key, kind, LoadCategory(key, kind, recs[..j]), recs[j], j)
  {
    assert recs[..j + 1][..j] == recs[..j];
  }

  /** Once a category's loop has raised, its later records change nothing. */
  lemma {:induction false} CategoryRaisedIsFinal(key: string, kind: Kind, recs: seq<Value>, j: nat)
    requires j <= |recs| && LoadCategory(key, kind, recs[..j]).raised
    ensures LoadCategory(key, kind, recs) == LoadCategory(key, kind, recs[..j])
    decreases |recs| - j
  {
    if j < |recs| {
      LoadCategoryPrefix(key, kind, recs, j);
      CategoryRaisedIsFinal(key, kind, recs, j + 1);
    } else {
      assert recs[..j] == recs;
    }
  }

  /** The position of the first record that is not a dict, the one the loop raises on
      (|recs| when every record is a dict). */
  function FirstEscape(recs: seq<Value>): (n: nat)
    ensures n <= |recs|
    ensures forall j :: 0 <= j < n ==> recs[j].Dict?
    ensures n < |recs| ==> !recs[n].Dict?
    decreases |recs|
  {
    if recs == [] || !recs[0].Dict? then 0
    else
      var m := FirstEscape(recs[1..]);
      assert forall j :: 0 < j < |recs| ==> recs[j] == recs[1..][j - 1];
      1 + m
  }

  /** A position with the defining property of FirstEscape is FirstEscape. */
  lemma FirstEscapeIs(recs: seq<Value>, n: nat)
    requires n <= |recs|
    requires forall j :: 0 <= j < n ==> recs[j].Dict?
    requires n < |recs| ==> !recs[n].Dict?
    ensures FirstEscape(recs) == n
  {
    var m := FirstEscape(recs);
    assert m < |recs| ==> !recs[m].Dict?;
  }

  /** The entities an independent reading expects: each record that builds, in order. */
  function Successes(kind: Kind, recs: seq<Value>): seq<EntityState>
    decreases |recs|
  {
    if recs == [] then [] else Success(kind, recs[0]) + Successes(kind, recs[1..])
  }

  /** The entity one record builds, if any. */
  function Success(kind: Kind, rec: Value): seq<EntityState>
  {
    var b := BuildRecord(rec);
    if b.Entity? then [NewState(kind, b.modelId, b.name, b.attrs)] else []
  }

  lemma {:induction false} SuccessesAppend(kind: Kind, a: seq<Value>, b: seq<Value>)
    ensures Successes(kind, a + b) == Successes(kind, a) + Successes(kind, b)
    decreases |a|
  {
    if a != [] {
      var ab := a + b;
      assert ab[0] == a[0];
      assert ab[1..] == a[1..] + b;
      SuccessesAppend(kind, a[1..], b);
      assert Successes(kind, ab) == Success(kind, a[0]) + Successes(kind, ab[1..]);
    } else {
      assert a + b == b;
    }
  }

  /** Before the loop has raised, one more record adds its entity, if it builds one. */
  lemma LoadRecordSuccess(key: string, kind: Kind, prev: CategoryLoad, rec: Value, position: nat)
    requires !prev.raised
    ensures LoadRecord(key, kind, prev, rec, position).built == prev.built + Success(kind, rec)
  {
  }

  /** The records that build, read from the back: those of all but the last record, then the
      last one's. */
  lemma SuccessesSnoc(kind: Kind, recs: seq<Value>)
    requires recs != []
    ensures Successes(kind, recs) == Successes(kind, recs[..|recs| - 1]) + Success(kind, recs[|recs| - 1])
  {
    var init, last := recs[..|recs| - 1], recs[|recs| - 1];
    assert recs == init + [last];
    SuccessesAppend(kind, init, [last]);
    assert [last][1..] == [];
  }

  /** What the loop over `recs` is expected to leave: it raises exactly when some record is
      not a dict, its entities are those built by the records before the first such record,
      in order, and each of those records is either built or reported. */
  predicate InOrder(key: string, kind: Kind, recs: seq<Value>)
  {
    var r, n := LoadCategory(key, kind, recs), FirstEscape(recs);
    (r.raised <==> n < |recs|) && r.built == Successes(kind, recs[..n]) && |r.built| + |r.skipped| == n
  }

  /** The step of LoadCategoryKeepsOrder once the loop has already raised. */
  lemma InOrderAfterRaise(key: string, kind: Kind, recs: seq<Value>)
    requires recs != []
    requires InOrder(key, kind, recs[..|recs| - 1])
    requires FirstEscape(recs[..|recs| - 1]) < |recs| - 1
    ensures InOrder(key, kind, recs)
  {
    var init := recs[..|recs| - 1];
    var m := FirstEscape(init);
    assert forall j :: 0 <= j < |init| ==> init[j] == recs[j];
    FirstEscapeIs(recs, m);
    assert recs[..m] == init[..m];
    assert LoadCategory(key, kind, recs) == LoadCategory(key, kind, init);
  }

  /** The step of LoadCategoryKeepsOrder for a last record that is a dict. */
  lemma InOrderOnDict(key: string, kind: Kind, recs: seq<Value>)
    requires recs != []
    requires InOrder(key, kind, recs[..|recs| - 1])
    requires FirstEscape(recs[..|recs| - 1]) == |recs| - 1 && recs[|recs| - 1].Dict?
    ensures InOrder(key, kind, recs)
  {
    var init, last := recs[..|recs| - 1], recs[|recs| - 1];
    var prev := LoadCategory(key, kind, init);
    assert forall j :: 0 <= j < |init| ==> init[j] == recs[j];
    FirstEscapeIs(recs, |recs|);
    assert init[..|init|] == init;
    assert recs[..|recs|] == recs;
    assert !prev.raised;
    LoadRecordSuccess(key, kind, prev, last, |recs| - 1);
    SuccessesSnoc(kind, recs);
  }

  /** The step of LoadCategoryKeepsOrder for the first record that is not a dict. */
  lemma InOrderOnEscape(key: string, kind: Kind, recs: seq<Value>)
    requires recs != []
    requires InOrder(key, kind, recs[..|recs| - 1])
    requires FirstEscape(recs[..|recs| - 1]) == |recs| - 1 && !recs[|recs| - 1].Dict?
    ensures InOrder(key, kind, recs)
  {
    var init, last := recs[..|recs| - 1], recs[|recs| - 1];
    var prev := LoadCategory(key, kind, init);
    assert forall j :: 0 <= j < |init| ==> init[j] == recs[j];
    FirstEscapeIs(recs, |init|);
    assert recs[..|init|] == init;
    assert init[..|init|] == init;
    assert !prev.raised;
    LoadRecordSuccess(key, kind, prev, last, |recs| - 1);
    assert Success(kind, last) == [];
  }

  /** A skipped record does not stop the category, a record that is not a dict does: the
      loop raises exactly when some record is not a dict, its entities are those built by the
      records before the first such record, in configuration order, and each of those
      records is either built or reported. */
  lemma {:induction false} LoadCategoryKeepsOrder(key: string, kind: Kind, recs: seq<Value>)
    ensures var r, n := LoadCategory(key, kind, recs), FirstEscape(recs);
            (r.raised <==> n < |recs|) && r.built == Successes(kind, recs[..n]) &&
            |r.built| + |r.skipped| == n
    decreases |recs|
  {
    if recs == [] {
      assert recs[..0] == [];
    } else {
      var init := recs[..|recs| - 1];
      LoadCategoryKeepsOrder(key, kind, init);
      var m := FirstEscape(init);
      if m < |init| {
        InOrderAfterRaise(key, kind, recs);
      } else if recs[|recs| - 1].Dict? {
        InOrderOnDict(key, kind, recs);
      } else {
        InOrderOnEscape(key, kind, recs);
      }
    }
    assert InOrder(key, kind, recs);
  }

  /** A category value on which the record loop raises: it cannot be iterated, or one of its
      records is not a dict. */
  predicate Unloadable(value: Value)
  {
    CategoryRecords(value).None? ||
    FirstEscape(CategoryRecords(value).value) < |CategoryRecords(value).value|
  }

  /** The entities an independent reading expects a mapped category to hold: those built by
      its records before the one the loop raises on; none when the value cannot be iterated. */
  function Expected(kind: Kind, value: Value): seq<EntityState>
  {
    match CategoryRecords(value)
    case None => []
    case Some(recs) => Successes(kind, recs[..FirstEscape(recs)])
  }

  /** What loading the whole `models_initial_state` produces: the registry, the diagnostics,
      and whether an exception escaped (from a mapped category that cannot be iterated or
      holds a record that is not a dict; the categories before it stay loaded, and it stays
      present with the entities built before the exception). */
  datatype LoadResult = LoadResult(registry: Registry, skipped: seq<Skip>, raised: bool)

  /** One category of the loop: skipped when its key maps to no class, otherwise present
      with the entities its records build until one raises; an exception when its value is
      not iterable; nothing happens once the loop has raised. */
  function LoadEntry(prev: LoadResult, key: string, value: Value): LoadResult
  {
    if prev.raised then prev
    else match KindForKey(key)
      case None => LoadResult(prev.registry, prev.skipped + [UnknownCategory(key)], false)
      case Some(kind) =>
        match CategoryRecords(value)
        case None => LoadResult(prev.registry + [(key, [])], prev.skipped, true)
        case Some(recs) =>
          var r := LoadCategory(key, kind, recs);
          LoadResult(prev.registry + [(key, r.built)], prev.skipped + r.skipped, r.raised)
  }

  /** _initialize_models over the categories of a dict, in order. */
  function Load(config: seq<(string, Value)>): (r: LoadResult)
    ensures |r.registry| <= |config|
    decreases |config|
  {
    if config == [] then LoadResult([], [], false)
    else LoadEntry(Load(config[..|config| - 1]), config[|config| - 1].0, config[|config| - 1].1)
  }

  /** A dict's keys are distinct. */
  predicate DistinctKeys(entries: seq<(string, Value)>)
  {
    forall i, j :: 0 <= i < j < |entries| ==> entries[i].0 != entries[j].0
  }

  /** The keys of a dict given by its entries. */
  function KeysOf(entries: seq<(string, Value)>): set<string>
  {
    set i | 0 <= i < |entries| :: entries[i].0
  }

  /** One category either leaves the registry as it was or appends an entry under its key. */
  lemma LoadEntryGrows(prev: LoadResult, key: string, value: Value)
    ensures var r := LoadEntry(prev, key, value).registry;
            r == prev.registry ||
            (|r| == |prev.registry| + 1 && r[..|prev.registry|] == prev.registry && r[|prev.registry|].0 == key)
  {
  }

  /** The keys of a dict are those of its first entries and the key of its last. */
  lemma KeysOfSnoc(config: seq<(string, Value)>)
    requires config != []
    ensures KeysOf(config) == KeysOf(config[..|config| - 1]) + {config[|config| - 1].0}
  {
    var init := config[..|config| - 1];
    forall k | k in KeysOf(init) ensures k in KeysOf(config) {
      var i :| 0 <= i < |init| && init[i].0 == k;
      assert config[i].0 == k;
    }
    assert config[|config| - 1].0 in KeysOf(config);
  }

  /** In a dict with distinct keys, the last key is not among the earlier ones, and the
      earlier entries have distinct keys too. */
  lemma LastKeyNew(config: seq<(string, Value)>)
    requires config != [] && DistinctKeys(config)
    ensures config[|config| - 1].0 !in KeysOf(config[..|config| - 1])
    ensures DistinctKeys(config[..|config| - 1])
  {
    var init := config[..|config| - 1];
    assert forall i :: 0 <= i < |init| ==> init[i] == config[i];
  }

  /** Every category of the registry comes from a key of the document, and no key is loaded
      twice when the document's keys are distinct. */
  lemma {:induction false} LoadDistinctKeys(config: seq<(string, Value)>)
    requires DistinctKeys(config)
    ensures forall c :: 0 <= c < |Load(config).registry| ==> Load(config).registry[c].0 in KeysOf(config)
    ensures forall c1, c2 :: 0 <= c1 < c2 < |Load(config).registry| ==>
              Load(config).registry[c1].0 != Load(config).registry[c2].0
    decreases |config|
  {
    if config != [] {
      var init, last := config[..|config| - 1], config[|config| - 1];
      LastKeyNew(config);
      LoadDistinctKeys(init);
      KeysOfSnoc(config);
      LoadEntryGrows(Load(init), last.0, last.1);
      GrowKeys(Load(init).registry, Load(config).registry, last.0, KeysOf(init), KeysOf(config));
    }
  }

  /** A registry with distinct keys drawn from `before` that stays as it was, or grows by a
      key outside `before`, has distinct keys drawn from `before` plus that key. */
  lemma GrowKeys(prev: Registry, reg: Registry, key: string, before: set<string>, after: set<string>)
    requires forall c :: 0 <= c < |prev| ==> prev[c].0 in before
    requires forall c1, c2 :: 0 <= c1 < c2 < |prev| ==> prev[c1].0 != prev[c2].0
    requires after == before + {key} && key !in before
    requires reg == prev || (|reg| == |prev| + 1 && reg[..|prev|] == prev && reg[|prev|].0 == key)
    ensures forall c :: 0 <= c < |reg| ==> reg[c].0 in after
    ensures forall c1, c2 :: 0 <= c1 < c2 < |reg| ==> reg[c1].0 != reg[c2].0
  {
    if reg != prev {
      assert forall c :: 0 <= c < |prev| ==> reg[c] == reg[..|prev|][c];
    }
  }

  /** The category keys of a registry, in order. */
  function Keys(reg: Registry): (ks: seq<string>)
    ensures |ks| == |reg|
    ensures forall i :: 0 <= i < |reg| ==> ks[i] == reg[i].0
  {
    seq(|reg|, i requires 0 <= i < |reg| => reg[i].0)
  }

  /** The keys a loader that never fails keeps: the mapped ones, in configuration order. */
  function MappedKeys(config: seq<(string, Value)>): seq<string>
    decreases |config|
  {
    if config == [] then []
    else
      var init := MappedKeys(config[..|config| - 1]);
      var key := config[|config| - 1].0;
      if KindForKey(key).Some? then init + [key] else init
  }

  /** Whether the loop raises: some mapped category holds a value that cannot be iterated or
      a record that is not a dict. */
  predicate Raises(config: seq<(string, Value)>)
  {
    exists i :: 0 <= i < |config| && KindForKey(config[i].0).Some? && Unloadable(config[i].1)
  }

  /** A dict raises when its earlier categories do or its last one is mapped and unloadable. */
  lemma RaisesSnoc(config: seq<(string, Value)>)
    requires config != []
    ensures var init, last := config[..|config| - 1], config[|config| - 1];
            Raises(config) <==> Raises(init) || (KindForKey(last.0).Some? && Unloadable(last.1))
  {
    var init, n := config[..|config| - 1], |config| - 1;
    var lastRaises := KindForKey(config[n].0).Some? && Unloadable(config[n].1);
    if Raises(init) {
      var i :| 0 <= i < |init| && KindForKey(init[i].0).Some? && Unloadable(init[i].1);
      assert config[i] == init[i];
      assert Raises(config);
    }
    if lastRaises {
      assert Raises(config);
    }
    if Raises(config) {
      var i :| 0 <= i < |config| && KindForKey(config[i].0).Some? && Unloadable(config[i].1);
      if i < n {
        assert config[i] == init[i];
        assert Raises(init);
      } else {
        assert i == n;
      }
    }
  }

  /** A category reached before any exception raises exactly when it is mapped and
      unloadable. */
  lemma LoadEntryRaised(prev: LoadResult, key: string, value: Value)
    requires !prev.raised
    ensures LoadEntry(prev, key, value).raised <==> KindForKey(key).Some? && Unloadable(value)
  {
    if KindForKey(key).Some? && CategoryRecords(value).Some? {
      LoadCategoryKeepsOrder(key, KindForKey(key).value, CategoryRecords(value).value);
    }
  }

  /** The loader raises exactly when some mapped category cannot be iterated or holds a
      record that is not a dict. */
  lemma {:induction false} LoadRaises(config: seq<(string, Value)>)
    ensures Load(config).raised <==> Raises(config)
    decreases |config|
  {
    if config != [] {
      var init, last := config[..|config| - 1], config[|config| - 1];
      LoadRaises(init);
      RaisesSnoc(config);
      if !Load(init).raised {
        LoadEntryRaised(Load(init), last.0, last.1);
      }
    }
  }

  /** A category that does not raise appends its key to the registry exactly when it is mapped. */
  lemma LoadEntryKeys(prev: LoadResult, key: string, value: Value)
    requires !LoadEntry(prev, key, value).raised
    ensures Keys(LoadEntry(prev, key, value).registry) ==
              Keys(prev.registry) + (if KindForKey(key).Some? then [key] else [])
  {
    var r := LoadEntry(prev, key, value).registry;
    if KindForKey(key).Some? {
      assert r[..|prev.registry|] == prev.registry;
    }
  }

  /** Unless it raises, the registry holds exactly the mapped categories, in configuration
      order, each one present even when none of its records built. */
  lemma {:induction false} LoadKeys(config: seq<(string, Value)>)
    ensures !Load(config).raised ==> Keys(Load(config).registry) == MappedKeys(config)
    decreases |config|
  {
    if config != [] && !Load(config).raised {
      var init, last := config[..|config| - 1], config[|config| - 1];
      LoadKeys(init);
      LoadEntryKeys(Load(init), last.0, last.1);
    }
  }

  /** A category that grows the registry is mapped, and its entry holds the entities its
      records build before the one the loop raises on (nothing when its value is not
      iterable). */
  lemma LoadEntryLast(prev: LoadResult, key: string, value: Value)
    requires |LoadEntry(prev, key, value).registry| > |prev.registry|
    ensures KindForKey(key).Some?
    ensures var r, n := LoadEntry(prev, key, value).registry, |prev.registry|;
            |r| == n + 1 && r[n].0 == key && r[n].1 == Expected(KindForKey(key).value, value)
  {
    if CategoryRecords(value).Some? {
      LoadCategoryKeepsOrder(key, KindForKey(key).value, CategoryRecords(value).value);
    }
  }

  /** Each loaded category holds exactly the entities its records build, in order, up to the
      record the loop raises on. */
  lemma {:induction false} LoadedCategoryContents(config: seq<(string, Value)>, c: int)
    requires 0 <= c < |Load(config).registry|
    ensures exists i :: 0 <= i < |config| && config[i].0 == Load(config).registry[c].0 &&
              KindForKey(config[i].0).Some? &&
              Load(config).registry[c].1 == Expected(KindForKey(config[i].0).value, config[i].1)
    decreases |config|
  {
    var init := config[..|config| - 1];
    var last := config[|config| - 1];
    var prev := Load(init);
    var reg := Load(config).registry;
    LoadEntryGrows(prev, last.0, last.1);
    if c < |prev.registry| {
      assert reg[c] == prev.registry[c] by {
        if reg != prev.registry {
          assert reg[c] == reg[..|prev.registry|][c];
        }
      }
      LoadedCategoryContents(init, c);
      var i :| 0 <= i < |init| && init[i].0 == prev.registry[c].0 &&
               KindForKey(init[i].0).Some? &&
               prev.registry[c].1 == Expected(KindForKey(init[i].0).value, init[i].1);
      assert config[i] == init[i];
    } else {
      LoadEntryLast(prev, last.0, last.1);
      var j := |config| - 1;
      assert config[j] == last;
    }
  }

  /** A mapped category whose first record is not a dict (the number 5, say), followed by any
      other category: the load raises on that record, the category stays present but empty,
      and the category after it is never loaded. */
  lemma NonDictRecordEndsLoad(key: string, recs: seq<Value>, next: (string, Value))
    requires KindForKey(key).Some? && recs != [] && !recs[0].Dict?
    ensures Load([(key, List(recs)), next]).raised
    ensures Load([(key, List(recs)), next]).registry == [(key, [])]
  {
    var config := [(key, List(recs)), next];
    FirstEscapeIs(recs, 0);
    LoadCategoryKeepsOrder(key, KindForKey(key).value, recs);
    assert recs[..0] == [];
    assert config[..1][..0] == [];
    assert Load(config[..1]) == LoadResult([(key, [])], [], true);
  }
}
