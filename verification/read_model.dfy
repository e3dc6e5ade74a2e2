/** What a read of one consent shows, in terms of the rows of the tables. */
module ReadModel {
  import opened Wrappers
  import opened Config
  import opened Rows
  import opened Records
  import opened Tables
  import opened Transactions
  import opened Integrity

  predicate PurposeShown(p: PurposeVersion, v: PurposeView) {
    v.id == p.id && v.name == p.name && v.group == p.group && v.num == p.num && v.info == p.info
  }

  predicate ElementShown(e: ElementVersion, m: Mapping, a: Approval, v: ElementView) {
    && v.id == e.id && v.name == e.name && v.namespace == e.namespace && v.num == e.num
    && v.elementType == e.elementType && v.info == e.info
    && v.mandatory == m.mandatory && v.approval.approved == a.approved && v.approval.value == a.value
  }

  /** Exactly the linked versions and exactly the approval rows, each with the fields of its catalogue rows. */
  ghost predicate CatalogShown(cat: Catalog, links: set<Id>, approvals: map<(Id, Id), Approval>, view: ConsentView) {
    && (forall pv :: pv in view.purposes <==> pv in links)
    && (forall pv :: pv in links ==> pv in cat.purposes && PurposeShown(cat.purposes[pv], view.purposes[pv]))
    && (forall p :: p in view.elements <==> p in approvals)
    && (forall p :: p in approvals ==>
          && p.1 in cat.elements && p in cat.mappings
          && ElementShown(cat.elements[p.1], cat.mappings[p], approvals[p], view.elements[p]))
  }

  /** Everything stored about the consent but its audit and history. */
  ghost predicate RecordShown(rec: Record, cat: Catalog, view: ConsentView) {
    && rec.consent == Some(view.consent) && view.attributes == rec.attributes && view.auths == rec.auths
    && CatalogShown(cat, rec.links, rec.approvals, view)
  }

  lemma PurposesOfView(rec: Record, cat: Catalog, org: string)
    requires LinksIntact(rec, cat, org) && rec.consent.Some? && rec.consent.value.org == org
    ensures forall pv :: pv in View(rec, cat).purposes <==> pv in rec.links
    ensures forall pv :: pv in rec.links ==>
              pv in cat.purposes && PurposeShown(cat.purposes[pv], View(rec, cat).purposes[pv])
  {
  }

  lemma ElementOfView(rec: Record, cat: Catalog, org: string, p: (Id, Id))
    requires MappingsSound(cat) && LinksIntact(rec, cat, org)
    requires rec.consent.Some? && rec.consent.value.org == org
    ensures p in View(rec, cat).elements <==> p in rec.approvals
    ensures p in rec.approvals ==>
              && p.1 in cat.elements && p in cat.mappings
              && ElementShown(cat.elements[p.1], cat.mappings[p], rec.approvals[p], View(rec, cat).elements[p])
  {
    if p in rec.approvals {
      assert MappingSound(cat, p);
    }
  }

  lemma ViewShowsRecord(rec: Record, cat: Catalog, org: string)
    requires MappingsSound(cat) && LinksIntact(rec, cat, org)
    requires rec.consent.Some? && rec.consent.value.org == org
    ensures RecordShown(rec, cat, View(rec, cat))
  {
    PurposesOfView(rec, cat, org);
    forall p
      ensures p in View(rec, cat).elements <==> p in rec.approvals
      ensures p in rec.approvals ==>
                && p.1 in cat.elements && p in cat.mappings
                && ElementShown(cat.elements[p.1], cat.mappings[p], rec.approvals[p], View(rec, cat).elements[p])
    {
      ElementOfView(rec, cat, org, p);
    }
  }

  /** A view of the consent with key `k`: its row, its attributes, its authorizations in the order of their
      rows, and what its links and approvals join to. */
  ghost predicate Shows(t: Tables, k: Key, view: ConsentView) {
    && k.id in t.consents && t.consents[k.id].org == k.org && view.consent == t.consents[k.id]
    && (forall a :: a in view.attributes <==> (k, a) in t.attributes)
    && (forall a :: a in view.attributes ==> view.attributes[a] == t.attributes[(k, a)])
    && view.auths == Select(t.auths, k)
    && PurposesShown(t, k, view) && ElementsShown(t, k, view)
  }

  ghost predicate PurposesShown(t: Tables, k: Key, view: ConsentView) {
    && (forall pv :: pv in view.purposes <==> (k, pv) in t.links)
    && (forall pv :: pv in view.purposes ==>
          pv in t.catalog.purposes && PurposeShown(t.catalog.purposes[pv], view.purposes[pv]))
  }

  ghost predicate ElementsShown(t: Tables, k: Key, view: ConsentView) {
    && (forall p: (Id, Id) :: p in view.elements <==> (k, p.0, p.1) in t.approvals)
    && (forall p: (Id, Id) :: p in view.elements ==>
          && p.1 in t.catalog.elements && p in t.catalog.mappings
          && ElementShown(t.catalog.elements[p.1], t.catalog.mappings[p], t.approvals[(k, p.0, p.1)],
                          view.elements[p]))
  }

  /** In every reachable state the view of a consent shows exactly what the tables hold about it. */
  lemma ViewShows(cfg: Config, t: Tables, log: seq<Commit>, k: Key)
    requires Good(cfg, t, log) && Project(t, k).consent.Some?
    ensures Shows(t, k, View(Project(t, k), t.catalog))
  {
    assert ConsentGood(cfg, t, k);
    ViewShowsRecord(Project(t, k), t.catalog, k.org);
  }

  /** Order of the rows: whatever is selected earlier was inserted earlier. */
  lemma {:induction false} SelectInOrder<T>(rows: seq<Row<T>>, k: Key, i: nat, j: nat)
    requires i < j < |Select(rows, k)|
    ensures exists m, n :: 0 <= m < n < |rows| && rows[m] == Row(k, Select(rows, k)[i]) &&
                           rows[n] == Row(k, Select(rows, k)[j])
    decreases |rows|
  {
    var rest := Select(rows[1..], k);
    var d := if rows[0].key == k then 1 else 0;
    if i >= d {
      SelectInOrder(rows[1..], k, i - d, j - d);
      var m, n :| 0 <= m < n < |rows| - 1 && rows[1..][m] == Row(k, rest[i - d]) && rows[1..][n] == Row(k, rest[j - d]);
      assert rows[m + 1] == Row(k, Select(rows, k)[i]) && rows[n + 1] == Row(k, Select(rows, k)[j]);
    } else {
      SelectContents(rows[1..], k, rest[j - 1]);
      assert rest[j - 1] in rest;
      var n :| 0 <= n < |rows| - 1 && rows[1..][n] == Row(k, rest[j - 1]);
      assert rows[0] == Row(k, Select(rows, k)[i]) && rows[n + 1] == Row(k, Select(rows, k)[j]);
    }
  }
}
