/** The statements the element and purpose stores issue against the versioned catalogue. */
module CatalogStore {
  import opened Wrappers
  import opened Rows
  import opened Records

  datatype CatalogWrite =
    | InsertPurposeVersion(purpose: PurposeVersion)
    | InsertMapping(purposeVersion: Id, elementVersion: Id, mapping: Mapping)
    | DeleteVersionRow(versionId: Id, org: string)
    | DeletePurposeRows(purposeId: Id, org: string)
    | InsertElementVersion(element: ElementVersion)
    | DeleteElementRow(versionId: Id, org: string)
    | DeleteElementRows(elementId: Id, org: string)

  /** Deleting purpose versions cascades to their mapping rows. */
  function KeepPurposes(cat: Catalog, keep: set<Id>): Catalog {
    cat.(purposes := map v | v in cat.purposes && v in keep :: cat.purposes[v],
         mappings := map p | p in cat.mappings && (p.0 in keep || p.0 !in cat.purposes) :: cat.mappings[p])
  }

  function KeepElements(cat: Catalog, keep: set<Id>): Catalog {
    cat.(elements := map v | v in cat.elements && v in keep :: cat.elements[v])
  }

  function ExecuteCatalog(cat: Catalog, w: CatalogWrite): Result<Catalog, StoreError> {
    match w
    case InsertPurposeVersion(p) =>
      if p.versionId in cat.purposes then Err(DuplicateKey)
      else Ok(cat.(purposes := cat.purposes[p.versionId := p]))
    case InsertMapping(pv, ev, m) =>
      if (pv, ev) in cat.mappings then Err(DuplicateKey)
      else Ok(cat.(mappings := cat.mappings[(pv, ev) := m]))
    case DeleteVersionRow(v, org) =>
      Ok(KeepPurposes(cat, set u | u in cat.purposes && !(u == v && cat.purposes[u].org == org)))
    case DeletePurposeRows(id, org) =>
      Ok(KeepPurposes(cat, set u | u in cat.purposes && !(cat.purposes[u].id == id && cat.purposes[u].org == org)))
    case InsertElementVersion(e) =>
      if e.versionId in cat.elements then Err(DuplicateKey)
      else Ok(cat.(elements := cat.elements[e.versionId := e]))
    case DeleteElementRow(v, org) =>
      Ok(KeepElements(cat, set u | u in cat.elements && !(u == v && cat.elements[u].org == org)))
    case DeleteElementRows(id, org) =>
      Ok(KeepElements(cat, set u | u in cat.elements && !(cat.elements[u].id == id && cat.elements[u].org == org)))
  }
}
