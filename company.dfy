/** The behaviour specific to company entities (CompanyModel): a `company_type` default at
    construction; its yearly update does nothing. */
module Companies {
  import opened Values
  import opened AttributeStore

  /** Constructor default: `company_type` is always present, Null when not supplied;
      every supplied attribute is kept as given. */
  function WithCompanyType(attrs: Attributes): (r: Attributes)
    ensures r.Keys == attrs.Keys + {"company_type"}
    ensures forall k :: k in attrs ==> r[k] == attrs[k]
    ensures "company_type" !in attrs ==> r["company_type"] == Null
  {
    if "company_type" in attrs then attrs else attrs["company_type" := Null]
  }
}
