/** Simulation entities: BaseModel and its variants (regions, companies, technology nodes,
    end markets, policies) as one class tagged with its kind. */
module Entities {
  import opened Values
  import opened AttributeStore
  import Policies
  import Companies

  datatype Kind = Region | Company | TechnologyNode | EndMarket | Policy

  /** The attributes a freshly built entity of `kind` holds: the supplied ones, plus the
      kind's mandatory key (policy_type, company_type) when it was not supplied. */
  function InitialAttributes(kind: Kind, attrs: Attributes): (r: Attributes)
    ensures forall k :: k in attrs ==> k in r && r[k] == attrs[k]
    ensures kind == Policy ==> r.Keys == attrs.Keys + {"policy_type"}
    ensures kind == Company ==> r.Keys == attrs.Keys + {"company_type"}
    ensures kind != Policy && kind != Company ==> r == attrs
  {
    match kind
    case Policy => Policies.WithPolicyType(attrs)
    case Company => Companies.WithCompanyType(attrs)
    case _ => attrs
  }

  /** update_state by kind: a policy recomputes `is_active` (and fails when a bound cannot be
      compared with a year); the other kinds leave their state as it is. */
  function Update(kind: Kind, s: Store, year: int): Option<Store>
  {
    if kind == Policy then Policies.UpdateState(s, year) else Some(s)
  }

  /** The update_state of a company, a technology node or an end market is a placeholder
      (`pass`): it never fails and changes neither attributes nor history, however often it is
      called in a year. */
  lemma PlaceholderUpdateIsIdentity(kind: Kind, s: Store, year: int)
    requires kind == Company || kind == TechnologyNode || kind == EndMarket
    ensures Update(kind, s, year) == Some(s)
  {
  }

  /** The value of an entity: identity, kind and attribute store. */
  datatype EntityState = EntityState(kind: Kind, modelId: Value, name: Value, store: Store)

  class Entity {
    const kind: Kind
    const modelId: Value
    const name: Value
    var attributes: Attributes
    var history: map<int, Attributes>

    function Contents(): Store
      reads this
    {
      Store(attributes, history)
    }

    function State(): EntityState
      reads this
    {
      EntityState(kind, modelId, name, Contents())
    }

    /** Builds the entity from its identity and the supplied attributes (none: empty), with
        the kind's defaults and an empty history. */
    constructor (kind: Kind, modelId: Value, name: Value, initial: Option<Attributes>)
      ensures this.kind == kind && this.modelId == modelId && this.name == name
      ensures attributes == InitialAttributes(kind, Fresh(initial).attributes)
      ensures history == map[]
    {
      this.kind := kind;
      this.modelId := modelId;
      this.name := name;
      var attrs := if initial.Some? then initial.value else map[];
      if kind == Policy && "policy_type" !in attrs {
        attrs := attrs["policy_type" := Null];
      } else if kind == Company && "company_type" !in attrs {
        attrs := attrs["company_type" := Null];
      }
      attributes := attrs;
      history := map[];
    }

    /** set_attribute: the new value becomes current and is logged for `year`. */
    method SetAttribute(attr: string, value: Value, year: int)
      modifies this
      ensures Contents() == old(Contents()).Write(attr, value, year)
      ensures Contents().Get(attr, None) == value && Contents().Get(attr, Some(year)) == value
    {
      var yearLog := if year in history then history[year] else map[];
      attributes := attributes[attr := value];
      history := history[year := yearLog[attr := value]];
    }

    /** update_state. `ok` is false when Python would raise (a policy bound that is not a
        number); then nothing has been written. */
    method UpdateState(year: int) returns (ok: bool)
      modifies this
      ensures ok <==> Update(kind, old(Contents()), year).Some?
      ensures ok ==> Contents() == Update(kind, old(Contents()), year).value
      ensures !ok ==> Contents() == old(Contents())
    {
      if kind != Policy {
        return true;
      }
      var lo := Policies.AsBound(Contents().Get("start_year", None));
      var hi := Policies.AsBound(Contents().Get("end_year", None));
      if lo.Incomparable? || hi.Incomparable? {
        return false;
      }
      var active := true;
      if lo.Limit? && year < lo.n {
        active := false;
      }
      if hi.Limit? && year > hi.n {
        active := false;
      }
      if !Policies.EqualsBool(Contents().Get("is_active", None), active) {
        SetAttribute("is_active", Bool(active), year);
      }
      ok := true;
    }
  }
}
