/** The flat tables. Each statement is keyed by consent and organization; seen one consent at a
    time, the tables behave exactly like a collection of independent records. */
module Tables {
  import opened Wrappers
  import opened Rows
  import opened Records

  datatype Tables = Tables(
    consents: map<Id, Consent>, attributes: map<(Key, string), string>, auths: seq<Row<Auth>>,
    audits: seq<Row<Audit>>, history: seq<Row<History>>, links: set<(Key, Id)>,
    approvals: map<(Key, Id, Id), Approval>, catalog: Catalog)

  const EMPTY_TABLES := Tables(map[], map[], [], [], [], {}, map[], EMPTY_CATALOG)

  /** SELECT ... FROM CONSENT WHERE CONSENT_ID = ? AND ORG_ID = ? */
  function Lookup(t: Tables, k: Key): Option<Consent> {
    if k.id in t.consents && t.consents[k.id].org == k.org then Some(t.consents[k.id]) else None
  }

  function AttributesOf(rows: map<(Key, string), string>, k: Key): (r: map<string, string>)
    ensures forall a :: a in r <==> (k, a) in rows
    ensures forall a :: a in r ==> r[a] == rows[(k, a)]
  {
    var r := map p | p in rows && p.0 == k :: p.1 := rows[p];
    assert forall a :: (k, a) in rows ==> (k, a).1 in r;
    r
  }

  function Keyed(k: Key, m: map<string, string>): (r: map<(Key, string), string>)
    ensures forall p: (Key, string) :: p in r <==> p.0 == k && p.1 in m
    ensures forall p: (Key, string) :: p in r ==> r[p] == m[p.1]
  {
    map a | a in m :: (k, a) := m[a]
  }

  function LinksOf(rows: set<(Key, Id)>, k: Key): (r: set<Id>)
    ensures forall pv :: pv in r <==> (k, pv) in rows
  {
    var r := set p | p in rows && p.0 == k :: p.1;
    assert forall pv :: (k, pv) in rows ==> (k, pv).1 in r;
    r
  }

  function ApprovalsOf(rows: map<(Key, Id, Id), Approval>, k: Key): (r: map<(Id, Id), Approval>)
    ensures forall p: (Id, Id) :: p in r <==> (k, p.0, p.1) in rows
    ensures forall p: (Id, Id) :: p in r ==> r[p] == rows[(k, p.0, p.1)]
  {
    map p | p in rows && p.0 == k :: (p.1, p.2) := rows[p]
  }

  /** What the tables hold about one consent. */
  function Project(t: Tables, k: Key): Record {
    Record(
      Lookup(t, k), AttributesOf(t.attributes, k), Select(t.auths, k), Select(t.audits, k),
      Select(t.history, k), LinksOf(t.links, k), ApprovalsOf(t.approvals, k))
  }

  predicate AuthIdTaken(t: Tables, id: Id) {
    exists i :: 0 <= i < |t.auths| && t.auths[i].val.id == id
  }

  /** AUTH_ID is the primary key of its table. */
  ghost predicate UniqueAuths(t: Tables) {
    forall i, j :: 0 <= i < j < |t.auths| ==> t.auths[i].val.id != t.auths[j].val.id
  }

  function UpdateAuthRows(rows: seq<Row<Auth>>, k: Key, a: Auth): seq<Row<Auth>> {
    seq(|rows|, i requires 0 <= i < |rows| =>
      if rows[i].key.org == k.org then Row(rows[i].key, WithAuth(rows[i].val, a)) else rows[i])
  }

  function RestatusRows(rows: seq<Row<Auth>>, k: Key, status: string, time: int): seq<Row<Auth>> {
    seq(|rows|, i requires 0 <= i < |rows| =>
      if rows[i].key == k then Row(k, rows[i].val.(status := status, updated := time)) else rows[i])
  }

  /** One statement against the tables. An update of CONSENT applies to the row with that
      identifier and organization; an update of one authorization to the row with that
      authorization identifier and organization. */
  function Execute(t: Tables, k: Key, w: Write): Result<Tables, StoreError> {
    match w
    case InsertConsent(c) =>
      if k.id in t.consents then Err(DuplicateKey) else Ok(t.(consents := t.consents[k.id := c]))
    case UpdateFields(c) =>
      if Lookup(t, k).None? then Ok(t) else Ok(t.(consents := t.consents[k.id := WithFields(t.consents[k.id], c)]))
    case SetStatus(s, time) =>
      if Lookup(t, k).None? then Err(NoSuchRow)
      else Ok(t.(consents := t.consents[k.id := t.consents[k.id].(status := s, updated := time)]))
    case InsertAttributes(m) =>
      if t.attributes.Keys !! Keyed(k, m).Keys then Ok(t.(attributes := t.attributes + Keyed(k, m)))
      else Err(DuplicateKey)
    case DeleteAttributes => Ok(t.(attributes := map p | p in t.attributes && p.0 != k :: t.attributes[p]))
    case InsertAuth(a) => if AuthIdTaken(t, a.id) then Err(DuplicateKey) else Ok(t.(auths := t.auths + [Row(k, a)]))
    case UpdateAuth(a) => Ok(t.(auths := UpdateAuthRows(t.auths, k, a)))
    case SetAllAuthStatus(s, time) => Ok(t.(auths := RestatusRows(t.auths, k, s, time)))
    case DeleteAuths => Ok(t.(auths := Remove(t.auths, k)))
    case InsertAudit(a) => Ok(t.(audits := t.audits + [Row(k, a)]))
    case InsertHistory(h) => Ok(t.(history := t.history + [Row(k, h)]))
    case InsertLink(pv) => if (k, pv) in t.links then Err(DuplicateKey) else Ok(t.(links := t.links + {(k, pv)}))
    case DeleteLinks => Ok(t.(links := set p | p in t.links && p.0 != k))
    case InsertApproval(pv, ev, a) =>
      if (k, pv, ev) in t.approvals then Err(DuplicateKey) else Ok(t.(approvals := t.approvals[(k, pv, ev) := a]))
    case DeleteApprovals => Ok(t.(approvals := map p | p in t.approvals && p.0 != k :: t.approvals[p]))
  }

  /** No other consent holds an authorization with this identifier. */
  ghost predicate OwnedBy(t: Tables, k: Key, authId: Id) {
    forall i :: 0 <= i < |t.auths| && t.auths[i].val.id == authId ==> t.auths[i].key == k
  }

  /** No consent of another organization has this identifier. */
  predicate AtHome(t: Tables, k: Key) {
    k.id in t.consents ==> t.consents[k.id].org == k.org
  }

  /** The only ways a statement can fail on the tables although it would succeed on the consent's
      own record: an identifier that is a primary key across consents is taken by another one. */
  ghost predicate Clashes(t: Tables, k: Key, w: Write) {
    || (w.InsertConsent? && !AtHome(t, k))
    || (w.InsertAuth? && !OwnedBy(t, k, w.auth.id))
  }

  /** A statement carries its own row: the consent inserted under a key has that key. An update of
      an authorization names one that no other consent holds. */
  ghost predicate WellKeyed(t: Tables, k: Key, w: Write) {
    && (w.InsertConsent? ==> w.row.id == k.id && w.row.org == k.org)
    && (w.UpdateAuth? ==> OwnedBy(t, k, w.auth.id))
  }

  lemma RestatusStep(a: Auth, rest: seq<Auth>, status: string, time: int)
    ensures Restatus([a] + rest, status, time) == [a.(status := status, updated := time)] + Restatus(rest, status, time)
  {
  }

  lemma {:induction false} SelectRestatus(rows: seq<Row<Auth>>, k: Key, status: string, time: int, k': Key)
    ensures Select(RestatusRows(rows, k, status, time), k') ==
            if k == k' then Restatus(Select(rows, k), status, time) else Select(rows, k')
  {
    if rows != [] {
      SelectRestatus(rows[1..], k, status, time, k');
      var rows' := RestatusRows(rows, k, status, time);
      assert rows'[1..] == RestatusRows(rows[1..], k, status, time);
      assert rows'[0] == if rows[0].key == k then Row(k, rows[0].val.(status := status, updated := time)) else rows[0];
      RestatusStep(rows[0].val, Select(rows[1..], k), status, time);
    }
  }

  lemma UpdateAuthsStep(first: Auth, rest: seq<Auth>, a: Auth)
    ensures UpdateAuths([first] + rest, a) == [WithAuth(first, a)] + UpdateAuths(rest, a)
  {
  }

  lemma UpdateAuthRowsStep(rows: seq<Row<Auth>>, k: Key, a: Auth)
    requires rows != [] && (rows[0].val.id == a.id ==> rows[0].key == k)
    ensures UpdateAuthRows(rows, k, a) ==
            [if rows[0].key == k then Row(k, WithAuth(rows[0].val, a)) else rows[0]] + UpdateAuthRows(rows[1..], k, a)
  {
  }

  lemma {:induction false} SelectUpdateAuth(rows: seq<Row<Auth>>, k: Key, a: Auth, k': Key)
    requires forall i :: 0 <= i < |rows| && rows[i].val.id == a.id ==> rows[i].key == k
    ensures Select(UpdateAuthRows(rows, k, a), k') ==
            if k == k' then UpdateAuths(Select(rows, k), a) else Select(rows, k')
  {
    if rows != [] {
      var first := if rows[0].key == k then Row(k, WithAuth(rows[0].val, a)) else rows[0];
      SelectUpdateAuth(rows[1..], k, a, k');
      UpdateAuthRowsStep(rows, k, a);
      SelectStep(first, UpdateAuthRows(rows[1..], k, a), k');
      SelectStep(rows[0], rows[1..], k');
      assert rows == [rows[0]] + rows[1..];
      UpdateAuthsStep(rows[0].val, Select(rows[1..], k), a);
    }
  }

  lemma SelectStep<T>(first: Row<T>, rest: seq<Row<T>>, k: Key)
    ensures Select([first] + rest, k) == (if first.key == k then [first.val] else []) + Select(rest, k)
  {
    assert ([first] + rest)[1..] == rest;
  }

  lemma SelectedAuthId(t: Tables, k: Key, id: Id)
    requires HasAuth(Select(t.auths, k), id)
    ensures AuthIdTaken(t, id)
  {
    var i :| 0 <= i < |Select(t.auths, k)| && Select(t.auths, k)[i].id == id;
    SelectContents(t.auths, k, Select(t.auths, k)[i]);
    var j :| 0 <= j < |t.auths| && t.auths[j] == Row(k, Select(t.auths, k)[i]);
    assert t.auths[j].val.id == id;
  }

  lemma AttributesAfterInsert(rows: map<(Key, string), string>, k: Key, m: map<string, string>, k': Key)
    requires rows.Keys !! Keyed(k, m).Keys
    ensures AttributesOf(rows, k).Keys !! m.Keys
    ensures AttributesOf(rows + Keyed(k, m), k') ==
            if k == k' then AttributesOf(rows, k) + m else AttributesOf(rows, k')
  {
    assert forall a :: a in m ==> (k, a) in Keyed(k, m);
    if k == k' {
      OwnAttributesAfterInsert(rows, k, m);
    } else {
      assert forall a :: (k', a) !in Keyed(k, m);
      assert AttributesOf(rows + Keyed(k, m), k') == AttributesOf(rows, k');
    }
  }

  lemma OwnAttributesAfterInsert(rows: map<(Key, string), string>, k: Key, m: map<string, string>)
    ensures AttributesOf(rows + Keyed(k, m), k) == AttributesOf(rows, k) + m
  {
    forall a
      ensures a in AttributesOf(rows + Keyed(k, m), k) <==> a in AttributesOf(rows, k) + m
      ensures a in AttributesOf(rows, k) + m ==>
        AttributesOf(rows + Keyed(k, m), k)[a] == (AttributesOf(rows, k) + m)[a]
    {
      assert (k, a) in rows + Keyed(k, m) <==> (k, a) in rows || (k, a) in Keyed(k, m);
    }
  }

  lemma AttributesAfterDelete(rows: map<(Key, string), string>, k: Key, k': Key)
    ensures AttributesOf(map p | p in rows && p.0 != k :: rows[p], k') ==
            if k == k' then map[] else AttributesOf(rows, k')
  {
  }

  lemma ApprovalsAfterInsert(rows: map<(Key, Id, Id), Approval>, k: Key, pv: Id, ev: Id, a: Approval, k': Key)
    ensures ApprovalsOf(rows[(k, pv, ev) := a], k') ==
            if k == k' then ApprovalsOf(rows, k)[(pv, ev) := a] else ApprovalsOf(rows, k')
  {
  }

  lemma ApprovalsAfterDelete(rows: map<(Key, Id, Id), Approval>, k: Key, k': Key)
    ensures ApprovalsOf(map p | p in rows && p.0 != k :: rows[p], k') ==
            if k == k' then map[] else ApprovalsOf(rows, k')
  {
  }

  /** A statement on one consent does to that consent's record what it says, and nothing to any
      other consent or to the catalogue. */
  lemma ExecuteRefinesApply(t: Tables, k: Key, w: Write, k': Key)
    requires WellKeyed(t, k, w)
    requires Execute(t, k, w).Ok?
    ensures Apply(Project(t, k), w).Ok?
    ensures Project(Execute(t, k, w).value, k') == if k == k' then Apply(Project(t, k), w).value else Project(t, k')
    ensures Execute(t, k, w).value.catalog == t.catalog
  {
    ExecuteKeepsCatalog(t, k, w);
    if w.InsertConsent? || w.UpdateFields? || w.SetStatus? {
      ConsentRefines(t, k, w, k');
    } else if w.InsertAuth? || w.UpdateAuth? || w.SetAllAuthStatus? || w.DeleteAuths? {
      AuthsRefine(t, k, w, k');
    } else if w.InsertAudit? || w.InsertHistory? {
      LogsRefine(t, k, w, k');
    } else if w.InsertAttributes? || w.DeleteAttributes? {
      AttributesRefine(t, k, w, k');
    } else if w.InsertLink? || w.DeleteLinks? {
      LinksRefine(t, k, w, k');
    } else {
      ApprovalsRefine(t, k, w, k');
    }
  }

  lemma ExecuteKeepsCatalog(t: Tables, k: Key, w: Write)
    requires Execute(t, k, w).Ok?
    ensures Execute(t, k, w).value.catalog == t.catalog
  {
  }

  lemma ConsentRefines(t: Tables, k: Key, w: Write, k': Key)
    requires w.InsertConsent? || w.UpdateFields? || w.SetStatus?
    requires WellKeyed(t, k, w) && Execute(t, k, w).Ok?
    ensures Apply(Project(t, k), w).Ok?
    ensures Project(Execute(t, k, w).value, k') == if k == k' then Apply(Project(t, k), w).value else Project(t, k')
  {
    var t' := Execute(t, k, w).value;
    LookupAfter(t, k, w, k', Project(t, k));
    assert t' == t.(consents := t'.consents);
    SameRows(t, t', k');
  }

  /** Only the CONSENT row changes. */
  lemma SameRows(t: Tables, t': Tables, k: Key)
    requires t' == t.(consents := t'.consents)
    ensures Project(t', k) == Project(t, k).(consent := Lookup(t', k))
  {
  }

  lemma LookupAfter(t: Tables, k: Key, w: Write, k': Key, rec: Record)
    requires w.InsertConsent? || w.UpdateFields? || w.SetStatus?
    requires WellKeyed(t, k, w) && Execute(t, k, w).Ok? && rec.consent == Lookup(t, k)
    ensures Apply(rec, w) == Ok(rec.(consent := Lookup(Execute(t, k, w).value, k)))
    ensures k' != k ==> Lookup(Execute(t, k, w).value, k') == Lookup(t, k')
  {
  }

  lemma AttributesRefine(t: Tables, k: Key, w: Write, k': Key)
    requires w.InsertAttributes? || w.DeleteAttributes?
    requires Execute(t, k, w).Ok?
    ensures Apply(Project(t, k), w).Ok?
    ensures Project(Execute(t, k, w).value, k') == if k == k' then Apply(Project(t, k), w).value else Project(t, k')
  {
    if w.InsertAttributes? {
      AttributesAfterInsert(t.attributes, k, w.attributes, k');
      SameButAttributes(t, t.attributes + Keyed(k, w.attributes), k');
    } else {
      AttributesAfterDelete(t.attributes, k, k');
      SameButAttributes(t, (map p | p in t.attributes && p.0 != k :: t.attributes[p]), k');
    }
  }

  lemma SameButAttributes(t: Tables, attributes: map<(Key, string), string>, k: Key)
    ensures Project(t.(attributes := attributes), k) == Project(t, k).(attributes := AttributesOf(attributes, k))
  {
  }

  lemma AuthsRefine(t: Tables, k: Key, w: Write, k': Key)
    requires w.InsertAuth? || w.UpdateAuth? || w.SetAllAuthStatus? || w.DeleteAuths?
    requires WellKeyed(t, k, w) && Execute(t, k, w).Ok?
    ensures Apply(Project(t, k), w).Ok?
    ensures Project(Execute(t, k, w).value, k') == if k == k' then Apply(Project(t, k), w).value else Project(t, k')
  {
    match w
    case InsertAuth(a) =>
      if HasAuth(Select(t.auths, k), a.id) {
        SelectedAuthId(t, k, a.id);
      }
      SelectAppend(t.auths, Row(k, a), k');
      assert Select(t.auths, k') + [] == Select(t.auths, k');
    case UpdateAuth(a) => SelectUpdateAuth(t.auths, k, a, k');
    case SetAllAuthStatus(s, time) => SelectRestatus(t.auths, k, s, time, k');
    case DeleteAuths => SelectRemove(t.auths, k, k');
  }

  lemma LogsRefine(t: Tables, k: Key, w: Write, k': Key)
    requires w.InsertAudit? || w.InsertHistory?
    ensures Project(Execute(t, k, w).value, k') == if k == k' then Apply(Project(t, k), w).value else Project(t, k')
  {
    match w
    case InsertAudit(a) =>
      SelectAppend(t.audits, Row(k, a), k');
      assert Select(t.audits, k') + [] == Select(t.audits, k');
    case InsertHistory(h) =>
      SelectAppend(t.history, Row(k, h), k');
      assert Select(t.history, k') + [] == Select(t.history, k');
  }

  lemma LinksRefine(t: Tables, k: Key, w: Write, k': Key)
    requires w.InsertLink? || w.DeleteLinks?
    requires Execute(t, k, w).Ok?
    ensures Apply(Project(t, k), w).Ok?
    ensures Project(Execute(t, k, w).value, k') == if k == k' then Apply(Project(t, k), w).value else Project(t, k')
  {
    if w.InsertLink? {
      LinksAfterInsert(t.links, k, w.purposeVersion, k');
      SameButLinks(t, t.links + {(k, w.purposeVersion)}, k');
    } else {
      LinksAfterDelete(t.links, k, k');
      SameButLinks(t, (set p | p in t.links && p.0 != k), k');
    }
  }

  lemma SameButLinks(t: Tables, links: set<(Key, Id)>, k: Key)
    ensures Project(t.(links := links), k) == Project(t, k).(links := LinksOf(links, k))
  {
  }

  lemma LinksAfterInsert(rows: set<(Key, Id)>, k: Key, pv: Id, k': Key)
    ensures LinksOf(rows + {(k, pv)}, k') == if k == k' then LinksOf(rows, k) + {pv} else LinksOf(rows, k')
  {
  }

  lemma LinksAfterDelete(rows: set<(Key, Id)>, k: Key, k': Key)
    ensures LinksOf((set p | p in rows && p.0 != k), k') == if k == k' then {} else LinksOf(rows, k')
  {
  }

  lemma ApprovalsRefine(t: Tables, k: Key, w: Write, k': Key)
    requires w.InsertApproval? || w.DeleteApprovals?
    requires Execute(t, k, w).Ok?
    ensures Apply(Project(t, k), w).Ok?
    ensures Project(Execute(t, k, w).value, k') == if k == k' then Apply(Project(t, k), w).value else Project(t, k')
  {
    if w.InsertApproval? {
      ApprovalRefines(t, k, w.purposeVersion, w.elementVersion, w.approval, k');
    } else {
      ApprovalsAfterDelete(t.approvals, k, k');
      SameButApprovals(t, (map p | p in t.approvals && p.0 != k :: t.approvals[p]), k');
    }
  }

  lemma ApprovalRefines(t: Tables, k: Key, pv: Id, ev: Id, a: Approval, k': Key)
    requires (k, pv, ev) !in t.approvals
    ensures (pv, ev) !in ApprovalsOf(t.approvals, k)
    ensures var rec := Project(t, k);
            Project(t.(approvals := t.approvals[(k, pv, ev) := a]), k') ==
            if k == k' then rec.(approvals := rec.approvals[(pv, ev) := a]) else Project(t, k')
  {
    assert (pv, ev) in ApprovalsOf(t.approvals, k) ==> (k, pv, ev) in t.approvals;
    ApprovalsAfterInsert(t.approvals, k, pv, ev, a, k');
    SameButApprovals(t, t.approvals[(k, pv, ev) := a], k');
  }

  lemma SameButApprovals(t: Tables, approvals: map<(Key, Id, Id), Approval>, k: Key)
    ensures Project(t.(approvals := approvals), k) == Project(t, k).(approvals := ApprovalsOf(approvals, k))
  {
  }

  /** When a statement succeeds on a record. */
  predicate Suits(rec: Record, w: Write) {
    match w
    case InsertConsent(_) => rec.consent.None?
    case SetStatus(_, _) => rec.consent.Some?
    case InsertAttributes(m) => rec.attributes.Keys !! m.Keys
    case InsertAuth(a) => !HasAuth(rec.auths, a.id)
    case InsertLink(pv) => pv !in rec.links
    case InsertApproval(pv, ev, _) => (pv, ev) !in rec.approvals
    case _ => true
  }

  lemma SuitsExactly(rec: Record, w: Write)
    ensures Apply(rec, w).Ok? <==> Suits(rec, w)
  {
  }

  /** A statement that succeeds on the record succeeds on the tables unless a key clashes. */
  lemma ExecuteSucceeds(t: Tables, k: Key, w: Write)
    requires !Clashes(t, k, w)
    requires Apply(Project(t, k), w).Ok?
    ensures Execute(t, k, w).Ok?
  {
    SuitsExactly(Project(t, k), w);
    SuitedExecutes(t, k, w, Project(t, k));
  }

  lemma SuitedExecutes(t: Tables, k: Key, w: Write, rec: Record)
    requires !Clashes(t, k, w) && Suits(rec, w) && rec.consent == Lookup(t, k)
    requires rec.attributes == AttributesOf(t.attributes, k)
    requires rec.auths == Select(t.auths, k)
    requires rec.links == LinksOf(t.links, k)
    requires rec.approvals == ApprovalsOf(t.approvals, k)
    ensures Execute(t, k, w).Ok?
  {
    if w.InsertAuth? {
      AuthExecutes(t, k, w, rec);
    } else if w.InsertAttributes? {
      AttributesExecute(t, k, w, rec);
    } else if w.InsertLink? {
      LinkExecutes(t, k, w, rec);
    } else if w.InsertApproval? {
      ApprovalExecutes(t, k, w, rec);
    } else {
      OtherExecutes(t, k, w, rec);
    }
  }

  lemma AuthExecutes(t: Tables, k: Key, w: Write, rec: Record)
    requires w.InsertAuth? && !Clashes(t, k, w) && Suits(rec, w) && rec.auths == Select(t.auths, k)
    ensures Execute(t, k, w).Ok?
  {
    if AuthIdTaken(t, w.auth.id) {
      AuthIdFree(t, k, w.auth);
    }
  }

  lemma AttributesExecute(t: Tables, k: Key, w: Write, rec: Record)
    requires w.InsertAttributes? && Suits(rec, w) && rec.attributes == AttributesOf(t.attributes, k)
    ensures Execute(t, k, w).Ok?
  {
    AttributesDisjoint(t.attributes, k, w.attributes);
  }

  lemma LinkExecutes(t: Tables, k: Key, w: Write, rec: Record)
    requires w.InsertLink? && Suits(rec, w) && rec.links == LinksOf(t.links, k)
    ensures Execute(t, k, w).Ok?
  {
    LinkFree(t.links, k, w.purposeVersion);
  }

  lemma ApprovalExecutes(t: Tables, k: Key, w: Write, rec: Record)
    requires w.InsertApproval? && Suits(rec, w) && rec.approvals == ApprovalsOf(t.approvals, k)
    ensures Execute(t, k, w).Ok?
  {
    ApprovalFree(t.approvals, k, w.purposeVersion, w.elementVersion);
  }

  lemma OtherExecutes(t: Tables, k: Key, w: Write, rec: Record)
    requires !w.InsertAttributes? && !w.InsertAuth? && !w.InsertLink? && !w.InsertApproval?
    requires !Clashes(t, k, w) && Suits(rec, w) && rec.consent == Lookup(t, k)
    ensures Execute(t, k, w).Ok?
  {
  }

  lemma LinkFree(rows: set<(Key, Id)>, k: Key, pv: Id)
    ensures (k, pv) in rows <==> pv in LinksOf(rows, k)
  {
  }

  lemma ApprovalFree(rows: map<(Key, Id, Id), Approval>, k: Key, pv: Id, ev: Id)
    ensures (k, pv, ev) in rows <==> (pv, ev) in ApprovalsOf(rows, k)
  {
    assert (pv, ev).0 == pv && (pv, ev).1 == ev;
  }

  lemma AuthIdFree(t: Tables, k: Key, a: Auth)
    requires OwnedBy(t, k, a.id) && AuthIdTaken(t, a.id)
    ensures HasAuth(Select(t.auths, k), a.id)
  {
    var i :| 0 <= i < |t.auths| && t.auths[i].val.id == a.id;
    SelectContents(t.auths, k, t.auths[i].val);
  }

  lemma AttributesDisjoint(rows: map<(Key, string), string>, k: Key, m: map<string, string>)
    requires AttributesOf(rows, k).Keys !! m.Keys
    ensures rows.Keys !! Keyed(k, m).Keys
  {
    assert forall p :: p in Keyed(k, m) ==> p.0 == k && p.1 in m.Keys && p.1 !in AttributesOf(rows, k).Keys;
  }

  lemma ExecuteKeepsUniqueAuths(t: Tables, k: Key, w: Write)
    requires UniqueAuths(t) && Execute(t, k, w).Ok?
    ensures UniqueAuths(Execute(t, k, w).value)
  {
    if w.DeleteAuths? {
      RemoveKeepsUnique(t.auths, k);
    }
  }

  lemma ExecuteKeepsOwnership(t: Tables, k: Key, w: Write, authId: Id)
    requires OwnedBy(t, k, authId) && Execute(t, k, w).Ok?
    ensures OwnedBy(Execute(t, k, w).value, k, authId)
  {
    if w.DeleteAuths? {
      var rest := Remove(t.auths, k);
      forall i | 0 <= i < |rest| && rest[i].val.id == authId
        ensures rest[i].key == k
      {
        RemoveContents(t.auths, k, rest[i]);
      }
    }
  }

  ghost predicate UniqueRows(rows: seq<Row<Auth>>) {
    forall i, j :: 0 <= i < j < |rows| ==> rows[i].val.id != rows[j].val.id
  }

  lemma {:induction false} RemoveKeepsUnique(rows: seq<Row<Auth>>, k: Key)
    requires UniqueRows(rows)
    ensures UniqueRows(Remove(rows, k))
  {
    if rows != [] {
      RemoveKeepsUnique(rows[1..], k);
      var rest := Remove(rows[1..], k);
      forall i | 0 <= i < |rest|
        ensures rest[i].val.id != rows[0].val.id
      {
        RemoveContents(rows[1..], k, rest[i]);
        assert rest[i] in rows[1..];
      }
    }
  }
}
