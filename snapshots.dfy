/** The per-year snapshot (_collect_yearly_results): every entity flattened to a record of
    its identity and attributes, with list and dict values replaced by their str(). */
module Snapshots {
  import opened Values
  import opened AttributeStore
  import opened Entities
  import opened Loading

  /** The value a snapshot stores for an attribute: str(v) for lists and dicts. */
  function Serialize(v: Value): (r: Value)
    ensures !IsComposite(r)
    ensures !IsComposite(v) ==> r == v
  {
    if IsComposite(v) then Str(Stringify(v)) else v
  }

  /** One flattened entity: its identity and the attributes it had when the snapshot was
      taken. The dict the engine stores is Fields(). */
  datatype Record = Record(modelId: Value, name: Value, attributes: Attributes)
  {
    /** `{'model_id': id, 'name': name, **serialized attributes}` (key order is not kept). */
    function Fields(): map<string, Value>
    {
      map k | k in attributes.Keys + {"model_id", "name"} ::
        if k in attributes then Serialize(attributes[k])
        else if k == "model_id" then modelId
        else name
    }
  }

  /** One year's results: categories in registry order, records in entity order. */
  type Snapshot = seq<(string, seq<Record>)>

  /** The record of an entity. */
  function RecordOf(e: EntityState): Record
  {
    Record(e.modelId, e.name, e.store.attributes)
  }

  /** The stored dict holds the identity fields and every attribute, serialized; an attribute
      called model_id or name overrides the header field; no attribute value in it is a list
      or dict any more. */
  lemma RecordFields(e: EntityState)
    ensures RecordOf(e).Fields().Keys == e.store.attributes.Keys + {"model_id", "name"}
    ensures forall k :: k in e.store.attributes ==>
              RecordOf(e).Fields()[k] == Serialize(e.store.attributes[k])
    ensures "model_id" !in e.store.attributes ==> RecordOf(e).Fields()["model_id"] == e.modelId
    ensures "name" !in e.store.attributes ==> RecordOf(e).Fields()["name"] == e.name
    ensures forall k :: k in RecordOf(e).Fields() && k in e.store.attributes ==>
              !IsComposite(RecordOf(e).Fields()[k])
  {
  }

  /** The records of one category, in entity order. */
  function RecordsOf(es: seq<EntityState>): (rs: seq<Record>)
    ensures |rs| == |es|
  {
    if es == [] then [] else RecordsOf(es[..|es| - 1]) + [RecordOf(es[|es| - 1])]
  }

  /** Record j of a category is the record of entity j. */
  lemma {:induction false} RecordsOfAt(es: seq<EntityState>)
    ensures forall j :: 0 <= j < |es| ==> RecordsOf(es)[j] == RecordOf(es[j])
  {
    if es != [] {
      var init := es[..|es| - 1];
      RecordsOfAt(init);
      assert forall j :: 0 <= j < |init| ==> init[j] == es[j];
    }
  }

  /** The snapshot of a whole registry, categories in registry order. */
  function SnapshotOf(reg: Registry): (snap: Snapshot)
    ensures |snap| == |reg|
  {
    if reg == [] then []
    else SnapshotOf(reg[..|reg| - 1]) + [(reg[|reg| - 1].0, RecordsOf(reg[|reg| - 1].1))]
  }

  /** Appending a category to a registry appends its entry to the snapshot. */
  lemma SnapshotOfAppend(reg: Registry, key: string, es: seq<EntityState>)
    ensures SnapshotOf(reg + [(key, es)]) == SnapshotOf(reg) + [(key, RecordsOf(es))]
  {
    assert (reg + [(key, es)])[..|reg|] == reg;
  }

  /** The snapshot of the first c + 1 categories extends that of the first c. */
  lemma SnapshotOfPrefix(reg: Registry, c: nat)
    requires c < |reg|
    ensures SnapshotOf(reg[..c + 1]) == SnapshotOf(reg[..c]) + [(reg[c].0, RecordsOf(reg[c].1))]
  {
    assert reg[..c + 1] == reg[..c] + [reg[c]];
    SnapshotOfAppend(reg[..c], reg[c].0, reg[c].1);
  }

  /** Entry c of a snapshot is category c of the registry with the records of its entities. */
  lemma {:induction false} SnapshotOfAt(reg: Registry)
    ensures forall c :: 0 <= c < |reg| ==> SnapshotOf(reg)[c] == (reg[c].0, RecordsOf(reg[c].1))
  {
    if reg != [] {
      var init := reg[..|reg| - 1];
      SnapshotOfAt(init);
      assert forall c :: 0 <= c < |init| ==> init[c] == reg[c];
    }
  }

  /** The records a snapshot holds under `category` (the first entry with that key), if any. */
  function RecordsUnder(snap: Snapshot, category: string): (r: Option<seq<Record>>)
    ensures r.None? <==> forall c :: 0 <= c < |snap| ==> snap[c].0 != category
    ensures r.Some? ==> exists c :: 0 <= c < |snap| && snap[c] == (category, r.value)
  {
    if snap == [] then None
    else if snap[0].0 == category then Some(snap[0].1)
    else
      var r := RecordsUnder(snap[1..], category);
      assert forall c :: 0 < c < |snap| ==> snap[c] == snap[1..][c - 1];
      r
  }

  /** The snapshot only depends on the entities' identities and current attributes: the
      year log of an entity never reaches its record. */
  lemma RecordIgnoresHistory(e: EntityState, h: map<int, Attributes>)
    ensures RecordOf(e.(store := Store(e.store.attributes, h))).Fields() == RecordOf(e).Fields()
  {
  }
}
