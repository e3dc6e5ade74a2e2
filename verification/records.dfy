/** Everything the database holds about one consent, and the statements that change it. */
module Records {
  import opened Wrappers
  import opened Rows

  datatype StoreError = DuplicateKey | NoSuchRow | Unavailable

  datatype Record = Record(
    consent: Option<Consent>, attributes: map<string, string>, auths: seq<Auth>, audits: seq<Audit>,
    history: seq<History>, links: set<Id>, approvals: map<(Id, Id), Approval>)

  const EMPTY := Record(None, map[], [], [], [], {}, map[])

  /** The write statements the consent and authorization stores issue for one consent. */
  datatype Write =
    | InsertConsent(row: Consent)
    | UpdateFields(row: Consent)
    | SetStatus(status: string, time: int)
    | InsertAttributes(attributes: map<string, string>)
    | DeleteAttributes
    | InsertAuth(auth: Auth)
    | UpdateAuth(auth: Auth)
    | SetAllAuthStatus(status: string, time: int)
    | DeleteAuths
    | InsertAudit(audit: Audit)
    | InsertHistory(history: History)
    | InsertLink(purposeVersion: Id)
    | DeleteLinks
    | InsertApproval(purposeVersion: Id, elementVersion: Id, approval: Approval)
    | DeleteApprovals

  /** UPDATE CONSENT leaves the status, the owner and the creation time alone. */
  function WithFields(stored: Consent, c: Consent): Consent {
    stored.(updated := c.updated, consentType := c.consentType, frequency := c.frequency,
         expiration := c.expiration, recurring := c.recurring, validity := c.validity)
  }

  /** UPDATE CONSENT_AUTH_RESOURCE does not write AUTH_TYPE. */
  function WithAuth(stored: Auth, a: Auth): Auth {
    if stored.id == a.id then stored.(status := a.status, user := a.user, resources := a.resources,
                                      updated := a.updated)
    else stored
  }

  function UpdateAuths(auths: seq<Auth>, a: Auth): seq<Auth> {
    seq(|auths|, i requires 0 <= i < |auths| => WithAuth(auths[i], a))
  }

  function Restatus(auths: seq<Auth>, status: string, time: int): seq<Auth> {
    seq(|auths|, i requires 0 <= i < |auths| => auths[i].(status := status, updated := time))
  }

  predicate HasAuth(auths: seq<Auth>, id: Id) {
    exists i :: 0 <= i < |auths| && auths[i].id == id
  }

  function Statuses(auths: seq<Auth>): seq<string> {
    seq(|auths|, i requires 0 <= i < |auths| => auths[i].status)
  }

  function Apply(rec: Record, w: Write): Result<Record, StoreError> {
    match w
    case InsertConsent(c) => if rec.consent.Some? then Err(DuplicateKey) else Ok(rec.(consent := Some(c)))
    case UpdateFields(c) =>
      if rec.consent.None? then Ok(rec) else Ok(rec.(consent := Some(WithFields(rec.consent.value, c))))
    case SetStatus(s, time) =>
      if rec.consent.None? then Err(NoSuchRow)
      else Ok(rec.(consent := Some(rec.consent.value.(status := s, updated := time))))
    case InsertAttributes(m) =>
      if rec.attributes.Keys !! m.Keys then Ok(rec.(attributes := rec.attributes + m)) else Err(DuplicateKey)
    case DeleteAttributes => Ok(rec.(attributes := map[]))
    case InsertAuth(a) => if HasAuth(rec.auths, a.id) then Err(DuplicateKey) else Ok(rec.(auths := rec.auths + [a]))
    case UpdateAuth(a) => Ok(rec.(auths := UpdateAuths(rec.auths, a)))
    case SetAllAuthStatus(s, time) => Ok(rec.(auths := Restatus(rec.auths, s, time)))
    case DeleteAuths => Ok(rec.(auths := []))
    case InsertAudit(a) => Ok(rec.(audits := rec.audits + [a]))
    case InsertHistory(h) => Ok(rec.(history := rec.history + [h]))
    case InsertLink(pv) => if pv in rec.links then Err(DuplicateKey) else Ok(rec.(links := rec.links + {pv}))
    case DeleteLinks => Ok(rec.(links := {}))
    case InsertApproval(pv, ev, a) =>
      if (pv, ev) in rec.approvals then Err(DuplicateKey) else Ok(rec.(approvals := rec.approvals[(pv, ev) := a]))
    case DeleteApprovals => Ok(rec.(approvals := map[]))
  }

  function ApplyAll(rec: Record, ws: seq<Write>): Result<Record, StoreError>
    decreases |ws|
  {
    if ws == [] then Ok(rec)
    else match Apply(rec, ws[0])
      case Err(e) => Err(e)
      case Ok(rec') => ApplyAll(rec', ws[1..])
  }

  /** The read model: purpose rows joined to PURPOSE, approval rows joined to ELEMENT and to the
      purpose-element mapping, every join also on the organization. */
  function View(rec: Record, cat: Catalog): ConsentView
    requires rec.consent.Some?
  {
    var org := rec.consent.value.org;
    ConsentView(
      rec.consent.value, rec.attributes, rec.auths,
      map pv | pv in rec.links && pv in cat.purposes && cat.purposes[pv].org == org
        :: ViewPurpose(cat.purposes[pv]),
      map p | p in rec.approvals && Joined(cat, p, org) && p.0 in rec.links && p.0 in cat.purposes &&
        cat.purposes[p.0].org == org
        :: ViewElement(cat.elements[p.1], cat.mappings[p].mandatory, rec.approvals[p]))
  }

  predicate Joined(cat: Catalog, p: (Id, Id), org: string) {
    p.1 in cat.elements && cat.elements[p.1].org == org && p in cat.mappings && cat.mappings[p].org == org
  }

  function ViewPurpose(p: PurposeVersion): PurposeView {
    PurposeView(p.id, p.name, p.group, p.num, p.info)
  }

  function ViewElement(e: ElementVersion, mandatory: bool, approval: Approval): ElementView {
    ElementView(e.id, e.name, e.namespace, e.num, e.elementType, e.info, mandatory, approval)
  }
}
