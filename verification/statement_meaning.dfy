/** The other words of the statements: the joined authorizations and the order of a search, and the clauses of
    the lists. */
module StatementMeaning {
  import opened Wrappers
  import opened Rows
  import opened Tables
  import opened Like
  import opened SqlText
  import opened SearchQuery
  import opened SearchMeaning
  import opened SqlMeaning
  import Order = SearchOrder
  import ListQuery
  import ListMeaning

  // ---- FROM ----

  function JoinOn(alias: Alias): seq<Atom> {
    [Equal(CONSENT, CONSENT_ID, alias, CONSENT_ID), Equal(CONSENT, ORG_ID, alias, ORG_ID)]
  }

  lemma AuthShows(scope: Scope, a: Alias, k: Key, auth: Auth)
    requires a in scope && scope[a] == AuthCells(k, auth)
    ensures Cell(scope, a, CONSENT_ID) == Some(Str(k.id)) && Cell(scope, a, ORG_ID) == Some(Str(k.org))
  {
  }

  lemma JoinOnHolds(fold: Fold, c: Consent, k: Key, auth: Auth, alias: Alias, scope: Scope)
    requires alias != CONSENT && ShowsConsent(scope, c)
    ensures AllHold(fold, JoinOn(alias), [], scope[alias := AuthCells(k, auth)]) <==> k == Key(c.id, c.org)
  {
    var scope' := scope[alias := AuthCells(k, auth)];
    AuthShows(scope', alias, k, auth);
    assert Cell(scope', CONSENT, CONSENT_ID) == Cell(scope, CONSENT, CONSENT_ID);
    assert Cell(scope', CONSENT, ORG_ID) == Cell(scope, CONSENT, ORG_ID);
    OnHolds(fold, JoinOn(alias)[0], JoinOn(alias)[1], scope');
  }

  lemma JoinIsWritten(alias: Alias)
    ensures AuthJoin(alias) == [W(Kw(INNER_JOIN))] + PrintSource(Source(AUTH_RESOURCE, alias, JoinOn(alias))) +
                               ([W(Kw(ON))] + PrintAll(JoinOn(alias)))
  {
    PrintTwo(JoinOn(alias)[0], JoinOn(alias)[1]);
  }

  /** A joined authorization is one the consent holds: its row is in the table and the ON clause holds. */
  lemma JoinMeansHeld(t: Tables, fold: Fold, c: Consent, auth: Auth, alias: Alias, scope: Scope)
    requires alias != CONSENT && ShowsConsent(scope, c)
    ensures AuthJoin(alias) == [W(Kw(INNER_JOIN))] + PrintSource(Source(AUTH_RESOURCE, alias, JoinOn(alias))) +
                               ([W(Kw(ON))] + PrintAll(JoinOn(alias)))
    ensures Held(t, c, auth) <==>
            exists k :: Row(k, auth) in t.auths && AllHold(fold, JoinOn(alias), [], scope[alias := AuthCells(k, auth)])
  {
    JoinIsWritten(alias);
    forall k
      ensures AllHold(fold, JoinOn(alias), [], scope[alias := AuthCells(k, auth)]) <==> k == Key(c.id, c.org)
    {
      JoinOnHolds(fold, c, k, auth, alias, scope);
    }
  }

  // ---- ORDER BY ----

  datatype OrderItem = ByName(n: Name, direction: Keyword) | NullCase(n: Name, rank: Keyword)

  function PrintItem(item: OrderItem): seq<Sql> {
    match item
    case ByName(n, direction) => [W(Field(CONSENT, n)), W(Kw(direction))]
    case NullCase(n, rank) => [W(Kw(CASE_WHEN)), W(Field(CONSENT, n)), W(Kw(rank))]
  }

  function CompareValue(x: Value, y: Value): int {
    match (x, y)
    case (Num(m), Num(n)) => Order.CompareInt(m, n)
    case (Str(s), Str(u)) => Order.CompareStr(s, u)
    case _ => 0
  }

  /** Two cells of a column; where NULL stands is up to the database. */
  function CompareCells(nullsLow: bool, n: Name, a: Cells, b: Cells): int {
    if n in a && n in b then CompareValue(a[n], b[n])
    else if n in a then (if nullsLow then 1 else -1)
    else if n in b then (if nullsLow then -1 else 1)
    else 0
  }

  /** CASE WHEN column IS NULL THEN ... */
  function RankOf(rank: Keyword, isNull: bool): int {
    match rank
    case NULL_LAST => if isNull then 1 else 0
    case NULL_FIRST => if isNull then 0 else 1
    case _ => 0
  }

  function CompareItem(nullsLow: bool, item: OrderItem, a: Cells, b: Cells): int {
    match item
    case ByName(n, direction) =>
      if direction == ASC then CompareCells(nullsLow, n, a, b) else -CompareCells(nullsLow, n, a, b)
    case NullCase(n, rank) => Order.CompareInt(RankOf(rank, n !in a), RankOf(rank, n !in b))
  }

  function MeantItem(k: Order.OrderKey): OrderItem {
    match k
    case NullRank(nullsLast) => NullCase(EXPIRATION_TIME, if nullsLast then NULL_LAST else NULL_FIRST)
    case By(CreatedColumn, asc) => ByName(CREATED_TIME, if asc then ASC else DESC)
    case By(UpdatedColumn, asc) => ByName(UPDATED_TIME, if asc then ASC else DESC)
    case By(ExpirationColumn, asc) => ByName(EXPIRATION_TIME, if asc then ASC else DESC)
    case By(StatusColumn, asc) => ByName(CURRENT_STATUS, if asc then ASC else DESC)
    case By(GroupColumn, asc) => ByName(GROUP_ID, if asc then ASC else DESC)
    case By(TypeColumn, asc) => ByName(CONSENT_TYPE, if asc then ASC else DESC)
    case By(IdColumn, asc) => ByName(CONSENT_ID, if asc then ASC else DESC)
  }

  /** The cells of a consent the order looks at. */
  predicate CellsOf(c: Consent, x: Cells) {
    && CONSENT_ID in x && x[CONSENT_ID] == Str(c.id)
    && GROUP_ID in x && x[GROUP_ID] == Str(c.group)
    && CONSENT_TYPE in x && x[CONSENT_TYPE] == Str(c.consentType)
    && CURRENT_STATUS in x && x[CURRENT_STATUS] == Str(c.status)
    && CREATED_TIME in x && x[CREATED_TIME] == Num(c.created)
    && UPDATED_TIME in x && x[UPDATED_TIME] == Num(c.updated)
    && (EXPIRATION_TIME in x <==> c.expiration.Some?)
    && (c.expiration.Some? ==> x[EXPIRATION_TIME] == Num(c.expiration.value))
  }

  lemma ConsentCell(c: Consent)
    ensures CellsOf(c, ConsentCells(c))
  {
  }

  /** The words of an order key compare two rows as the key does. */
  lemma WordsMeanOrder(nullsLow: bool, k: Order.OrderKey, a: Consent, b: Consent)
    ensures Order.KeyTokens(k) == PrintItem(MeantItem(k))
    ensures CompareItem(nullsLow, MeantItem(k), ConsentCells(a), ConsentCells(b)) == Order.CompareKey(nullsLow, k, a, b)
  {
    KeyIsPrinted(k);
    ConsentCell(a);
    ConsentCell(b);
    ItemMeans(nullsLow, k, a, b, ConsentCells(a), ConsentCells(b));
  }

  lemma KeyIsPrinted(k: Order.OrderKey)
    ensures Order.KeyTokens(k) == PrintItem(MeantItem(k))
  {
  }

  lemma ItemMeans(nullsLow: bool, k: Order.OrderKey, a: Consent, b: Consent, x: Cells, y: Cells)
    requires CellsOf(a, x) && CellsOf(b, y)
    ensures CompareItem(nullsLow, MeantItem(k), x, y) == Order.CompareKey(nullsLow, k, a, b)
  {
  }

  // ---- The lists ----

  function RowCells(t: Tables, s: ListQuery.Subject, v: Id): Cells
    requires v in ListMeaning.VersionIds(t.catalog, s)
  {
    if s.Purposes? then PurposeCells(v, t.catalog.purposes[v]) else ElementCells(v, t.catalog.elements[v])
  }

  function ListScope(t: Tables, s: ListQuery.Subject, v: Id): Scope
    requires v in ListMeaning.VersionIds(t.catalog, s)
  {
    map[ListQuery.AliasOf(s) := RowCells(t, s, v)]
  }

  /** The clauses a list of purposes, or of elements, can have. */
  predicate Belongs(s: ListQuery.Subject, c: ListQuery.ListCond) {
    && (c.GroupIn? || c.MapsElement? ==> s.Purposes?)
    && (c.NamespaceIs? || c.TypeIs? ==> s.Elements?)
  }

  predicate AllBelong(s: ListQuery.Subject, bs: seq<ListQuery.ListBound>) {
    forall i :: 0 <= i < |bs| ==> Belongs(s, bs[i].cond)
  }

  lemma BelongConcat(s: ListQuery.Subject, a: seq<ListQuery.ListBound>, b: seq<ListQuery.ListBound>)
    requires AllBelong(s, a) && AllBelong(s, b)
    ensures AllBelong(s, a + b)
  {
  }

  lemma ClausesBelong(s: ListQuery.Subject, d: Dialect, f: ListQuery.ListFilter)
    ensures AllBelong(s, ListQuery.Clauses(s, d, f))
  {
    var v, n := ListQuery.VersionClause(f), ListQuery.NameClause(d, f);
    if s.Purposes? {
      BelongConcat(s, v, ListQuery.GroupClause(f));
      BelongConcat(s, v + ListQuery.GroupClause(f), n);
      BelongConcat(s, v + ListQuery.GroupClause(f) + n, ListQuery.MappingClause(f));
    } else {
      BelongConcat(s, v, n);
      BelongConcat(s, v + n, ListQuery.NamespaceClause(f));
      BelongConcat(s, v + n + ListQuery.NamespaceClause(f), ListQuery.TypeClause(f));
    }
  }

  function MeantClause(s: ListQuery.Subject, c: ListQuery.ListCond): Condition {
    var alias := if s.Purposes? then P else E;
    match c
    case VersionIs => Test(Compare(alias, VERSION, EQUALS))
    case GroupIn(n) => Test(Within(P, GROUP_ID, n))
    case NameLike(d) => Test(LikeTest(alias, NAME, d))
    case NamespaceIs => Test(Compare(E, NAMESPACE, EQUALS))
    case TypeIs => Test(Compare(E, TYPE, EQUALS))
    case MapsElement(named, spaced, versioned) => MeantMapping(named, spaced, versioned)
  }

  function MeantMapping(named: bool, spaced: bool, versioned: bool): Condition {
    Exists(
      Source(MAPPING, M, []),
      [Source(ELEMENT, E, [Equal(M, ELEMENT_VERSION_ID, E, VERSION_ID)])],
      [Equal(M, PURPOSE_VERSION_ID, P, VERSION_ID), Equal(M, ORG_ID, P, ORG_ID)] +
      (IfGiven(E, NAME, named) + (IfGiven(E, NAMESPACE, spaced) + IfGiven(E, VERSION, versioned))))
  }

  /** The subquery has a space in front of it. */
  lemma ClauseIsPrinted(s: ListQuery.Subject, c: ListQuery.ListCond)
    ensures ListQuery.ClauseTokens(s, c) ==
            (if c.MapsElement? then [W(Kw(SPACE))] else []) + Print(MeantClause(s, c))
  {
    match c
    case MapsElement(named, spaced, versioned) => MappingIsPrinted(s, named, spaced, versioned);
    case _ => assert [] + Print(MeantClause(s, c)) == Print(MeantClause(s, c));
  }

  lemma MappingIsPrinted(s: ListQuery.Subject, named: bool, spaced: bool, versioned: bool)
    ensures ListQuery.ClauseTokens(s, ListQuery.MapsElement(named, spaced, versioned)) ==
            [W(Kw(SPACE))] + Print(MeantMapping(named, spaced, versioned))
  {
    var m, close := MeantMapping(named, spaced, versioned), [W(Kw(CLOSE))];
    var rest := AndGiven(E, NAME, named) + (AndGiven(E, NAMESPACE, spaced) + AndGiven(E, VERSION, versioned));
    var filter := [W(Kw(WHERE))] + (Same(M, PURPOSE_VERSION_ID, P, VERSION_ID) + And(Same(M, ORG_ID, P, ORG_ID)));
    var head := [W(Kw(EXISTS))] + PrintSource(m.first) + PrintJoins(m.others);
    MappedHead(m, filter);
    FilterIsPrinted(m.filter[0], m.filter[1], named, spaced, versioned);
    MiddleFirst([W(Kw(SPACE))] + head, filter, rest, close);
    LeftFirst([W(Kw(SPACE))], head, filter + rest);
    LeftFirst([W(Kw(SPACE))], head + (filter + rest), close);
  }

  lemma MappedHead(m: Condition, filter: seq<Sql>)
    requires m.Exists? && m.first == Source(MAPPING, M, [])
    requires m.others == [Source(ELEMENT, E, [Equal(M, ELEMENT_VERSION_ID, E, VERSION_ID)])]
    requires filter == [W(Kw(WHERE))] + (Same(M, PURPOSE_VERSION_ID, P, VERSION_ID) + And(Same(M, ORG_ID, P, ORG_ID)))
    ensures ListQuery.MappedFrom() ==
            [W(Kw(SPACE))] + ([W(Kw(EXISTS))] + PrintSource(m.first) + PrintJoins(m.others)) + filter
  {
    var x := m.others[0];
    HeadIsPrinted(MAPPING, M, x, PrintAll(x.on), []);
    assert [x] + [] == m.others;
    var words := [W(Kw(EXISTS)), W(Kw(MAPPING)), W(Kw(SPACE)), W(Table(M)), W(Kw(JOIN)), W(Kw(ELEMENT)), W(Kw(SPACE)),
                  W(Table(E)), W(Kw(ON))];
    assert [W(Kw(EXISTS))] + PrintSource(m.first) + PrintJoins(m.others) == words + PrintAll(x.on);
    assert ListQuery.MappedFrom() == ([W(Kw(SPACE))] + words) + (PrintAll(x.on) + filter);
    Spread([W(Kw(SPACE))], words, PrintAll(x.on), filter);
  }

  lemma Spread(a: seq<Sql>, b: seq<Sql>, c: seq<Sql>, d: seq<Sql>)
    ensures (a + b) + (c + d) == a + (b + c) + d
  {
  }

  // ---- Their meaning ----

  predicate CellsOfRow(s: ListQuery.Subject, row: ListMeaning.Listed, scope: Scope) {
    var alias := if s.Purposes? then P else E;
    && Cell(scope, alias, ID) == Some(Str(row.id)) && Cell(scope, alias, NAME) == Some(Str(row.name))
    && Cell(scope, alias, VERSION) == Some(Num(row.num)) && Cell(scope, alias, ORG_ID) == Some(Str(row.org))
    && (s.Purposes? ==> Cell(scope, P, GROUP_ID) == Some(Str(row.group)))
    && (s.Elements? ==> Cell(scope, E, NAMESPACE) == Some(Str(row.namespace)) &&
                        Cell(scope, E, TYPE) == Some(Str(row.elementType)))
  }

  lemma ListScopeShows(t: Tables, s: ListQuery.Subject, v: Id)
    requires v in ListMeaning.VersionIds(t.catalog, s)
    ensures CellsOfRow(s, ListMeaning.RowAt(t.catalog, s, v), ListScope(t, s, v))
    ensures s.Purposes? ==> Cell(ListScope(t, s, v), P, VERSION_ID) == Some(Str(v))
  {
    if s.Purposes? {
      PurposeShows(ListScope(t, s, v), P, v, t.catalog.purposes[v]);
    } else {
      ElementShows(ListScope(t, s, v), E, v, t.catalog.elements[v]);
    }
  }

  lemma TestClauseMeans(t: Tables, fold: Fold, s: ListQuery.Subject, c: ListQuery.ListCond, args: seq<Value>, v: Id,
                        scope: Scope)
    requires v in ListMeaning.VersionIds(t.catalog, s) && Belongs(s, c) && !c.MapsElement?
    requires |args| == ListQuery.ClauseArity(c) && CellsOfRow(s, ListMeaning.RowAt(t.catalog, s, v), scope)
    ensures Means(t, fold, MeantClause(s, c), args, scope) <==> ListMeaning.Holds(t.catalog, fold, s, c, args, v)
  {
  }

  /** With the two rows in scope, the subquery's clauses are what MappedFits says of the element version. */
  lemma MappedClauses(t: Tables, fold: Fold, named: bool, spaced: bool, versioned: bool, args: seq<Value>, v: Id,
                      org: string, p: (Id, Id), ev: Id, scope: Scope)
    requires |args| == Arity(ElementExists(named, spaced, versioned))
    requires Cell(scope, P, VERSION_ID) == Some(Str(v)) && Cell(scope, P, ORG_ID) == Some(Str(org))
    requires p in t.catalog.mappings && ev in t.catalog.elements
    requires M in scope && scope[M] == MappingCells(p, t.catalog.mappings[p])
    requires E in scope && scope[E] == ElementCells(ev, t.catalog.elements[ev])
    ensures var m := MeantMapping(named, spaced, versioned);
            AllHold(fold, m.others[0].on, [], scope) && AllHold(fold, m.filter, args, scope) <==>
            p.0 == v && p.1 == ev && ListMeaning.MappedFits(t.catalog, named, spaced, versioned, args, v, org, ev)
  {
    var m := MeantMapping(named, spaced, versioned);
    MappingShows(scope, M, p, t.catalog.mappings[p]);
    ElementShows(scope, E, ev, t.catalog.elements[ev]);
    var on := m.others[0].on[0];
    assert m.others[0].on == [on] + [];
    EqualFirst(fold, on, [], [], scope);
    FilterHolds(fold, m.filter[0], m.filter[1], named, spaced, versioned, args, scope);
    assert p == (p.0, p.1);
  }

  lemma MappedFromWitness(t: Tables, fold: Fold, named: bool, spaced: bool, versioned: bool, args: seq<Value>, v: Id,
                          org: string, scope: Scope, scope': Scope)
    requires |args| == Arity(ElementExists(named, spaced, versioned)) && P in scope
    requires Cell(scope, P, VERSION_ID) == Some(Str(v)) && Cell(scope, P, ORG_ID) == Some(Str(org))
    requires Witness(t, fold, MeantMapping(named, spaced, versioned), args, scope, scope')
    ensures exists ev :: ListMeaning.MappedFits(t.catalog, named, spaced, versioned, args, v, org, ev)
  {
    var m := MeantMapping(named, spaced, versioned);
    StaysInScope(scope, m, scope', P);
    assert SourceHolds(t, fold, m.others[0], scope');
    var p := MappingOf(t, scope'[M]);
    var ev := ElementOf(t, scope'[E]);
    MappedClauses(t, fold, named, spaced, versioned, args, v, org, p, ev, scope');
  }

  lemma MappedHasWitness(t: Tables, fold: Fold, named: bool, spaced: bool, versioned: bool, args: seq<Value>, v: Id,
                         org: string, scope: Scope, ev: Id)
    requires |args| == Arity(ElementExists(named, spaced, versioned)) && P in scope
    requires Cell(scope, P, VERSION_ID) == Some(Str(v)) && Cell(scope, P, ORG_ID) == Some(Str(org))
    requires ListMeaning.MappedFits(t.catalog, named, spaced, versioned, args, v, org, ev)
    ensures Means(t, fold, MeantMapping(named, spaced, versioned), args, scope)
  {
    var m, p := MeantMapping(named, spaced, versioned), (v, ev);
    var r0, r1 := MappingCells(p, t.catalog.mappings[p]), ElementCells(ev, t.catalog.elements[ev]);
    var scope' := scope[M := r0][E := r1];
    MappedClauses(t, fold, named, spaced, versioned, args, v, org, p, ev, scope');
    MappingInTable(t, p);
    ElementInTable(t, ev);
    NoneHold(fold, [], scope');
    Placed(t, fold, m.first, scope', r0);
    Placed(t, fold, m.others[0], scope', r1);
    WidensTwo(scope, m, r0, r1);
    assert Witness(t, fold, m, args, scope, scope');
  }

  lemma MappingClauseMeans(t: Tables, fold: Fold, named: bool, spaced: bool, versioned: bool, args: seq<Value>, v: Id,
                           org: string, scope: Scope)
    requires |args| == Arity(ElementExists(named, spaced, versioned)) && P in scope
    requires Cell(scope, P, VERSION_ID) == Some(Str(v)) && Cell(scope, P, ORG_ID) == Some(Str(org))
    ensures Means(t, fold, MeantMapping(named, spaced, versioned), args, scope) <==>
            exists ev :: ListMeaning.MappedFits(t.catalog, named, spaced, versioned, args, v, org, ev)
  {
    if scope' :| Witness(t, fold, MeantMapping(named, spaced, versioned), args, scope, scope') {
      MappedFromWitness(t, fold, named, spaced, versioned, args, v, org, scope, scope');
    }
    if ev :| ListMeaning.MappedFits(t.catalog, named, spaced, versioned, args, v, org, ev) {
      MappedHasWitness(t, fold, named, spaced, versioned, args, v, org, scope, ev);
    }
  }

  /** What the database reads in the words of a list clause is what the clause is evaluated as. */
  lemma WordsMeanClause(t: Tables, fold: Fold, s: ListQuery.Subject, c: ListQuery.ListCond, args: seq<Value>, v: Id)
    requires v in ListMeaning.VersionIds(t.catalog, s) && Belongs(s, c) && |args| == ListQuery.ClauseArity(c)
    ensures Means(t, fold, MeantClause(s, c), args, ListScope(t, s, v)) <==>
            ListMeaning.Holds(t.catalog, fold, s, c, args, v)
  {
    ListScopeShows(t, s, v);
    if c.MapsElement? {
      MappingClauseMeans(t, fold, c.named, c.spaced, c.versioned, args, v, ListMeaning.RowAt(t.catalog, s, v).org,
                         ListScope(t, s, v));
    } else {
      TestClauseMeans(t, fold, s, c, args, v, ListScope(t, s, v));
    }
  }

  // ---- The latest versions ----

  function LatestCells(id: Id, greatest: int): Cells {
    map[ID := Str(id), MAX_VERSION := Num(greatest)]
  }

  /** A version of the identifier in the organization. */
  predicate VersionOf(cat: Catalog, s: ListQuery.Subject, org: string, id: Id, u: Id) {
    && u in ListMeaning.VersionIds(cat, s)
    && ListMeaning.RowAt(cat, s, u).org == org && ListMeaning.RowAt(cat, s, u).id == id
  }

  ghost predicate IsMaximum(cat: Catalog, s: ListQuery.Subject, org: string, id: Id, greatest: int) {
    && (exists u :: VersionOf(cat, s, org, id, u) && ListMeaning.RowAt(cat, s, u).num == greatest)
    && (forall u :: VersionOf(cat, s, org, id, u) ==> ListMeaning.RowAt(cat, s, u).num <= greatest)
  }

  /** A row of the grouped subquery. */
  ghost predicate InLatest(cat: Catalog, s: ListQuery.Subject, org: string, row: Cells) {
    exists id, greatest :: IsMaximum(cat, s, org, id, greatest) && row == LatestCells(id, greatest)
  }

  function LatestOn(s: ListQuery.Subject): seq<Atom> {
    var alias := if s.Purposes? then P else E;
    [Equal(alias, ID, LATEST, ID), Equal(alias, VERSION, LATEST, MAX_VERSION)]
  }

  lemma LatestShows(scope: Scope, id: Id, greatest: int)
    requires LATEST in scope && scope[LATEST] == LatestCells(id, greatest)
    ensures Cell(scope, LATEST, ID) == Some(Str(id)) && Cell(scope, LATEST, MAX_VERSION) == Some(Num(greatest))
  {
  }

  lemma LatestRowJoins(fold: Fold, s: ListQuery.Subject, row: ListMeaning.Listed, scope: Scope, id: Id, greatest: int)
    requires CellsOfRow(s, row, scope)
    ensures AllHold(fold, LatestOn(s), [], scope[LATEST := LatestCells(id, greatest)]) <==>
            row.id == id && row.num == greatest
  {
    var alias := if s.Purposes? then P else E;
    var scope' := scope[LATEST := LatestCells(id, greatest)];
    assert Cell(scope', alias, ID) == Cell(scope, alias, ID);
    assert Cell(scope', alias, VERSION) == Cell(scope, alias, VERSION);
    LatestShows(scope', id, greatest);
    OnHolds(fold, LatestOn(s)[0], LatestOn(s)[1], scope');
  }

  lemma GreatestJoins(t: Tables, fold: Fold, s: ListQuery.Subject, org: string, v: Id)
    requires v in ListMeaning.VersionIds(t.catalog, s) && ListMeaning.RowAt(t.catalog, s, v).org == org
    requires ListMeaning.IsGreatest(t.catalog, s, org, v)
    ensures exists row :: InLatest(t.catalog, s, org, row) &&
                          AllHold(fold, LatestOn(s), [], ListScope(t, s, v)[LATEST := row])
  {
    var listed := ListMeaning.RowAt(t.catalog, s, v);
    ListScopeShows(t, s, v);
    assert VersionOf(t.catalog, s, org, listed.id, v);
    assert IsMaximum(t.catalog, s, org, listed.id, listed.num);
    LatestRowJoins(fold, s, listed, ListScope(t, s, v), listed.id, listed.num);
    assert InLatest(t.catalog, s, org, LatestCells(listed.id, listed.num));
  }

  lemma MaximumIsGreatest(cat: Catalog, s: ListQuery.Subject, org: string, v: Id, id: Id, greatest: int)
    requires v in ListMeaning.VersionIds(cat, s) && IsMaximum(cat, s, org, id, greatest)
    requires ListMeaning.RowAt(cat, s, v).id == id && ListMeaning.RowAt(cat, s, v).num == greatest
    ensures ListMeaning.IsGreatest(cat, s, org, v)
  {
    assert forall u :: VersionOf(cat, s, org, id, u) ==> ListMeaning.RowAt(cat, s, u).num <= greatest;
  }

  lemma JoinedIsGreatest(t: Tables, fold: Fold, s: ListQuery.Subject, org: string, v: Id, row: Cells)
    requires v in ListMeaning.VersionIds(t.catalog, s)
    requires InLatest(t.catalog, s, org, row) && AllHold(fold, LatestOn(s), [], ListScope(t, s, v)[LATEST := row])
    ensures ListMeaning.IsGreatest(t.catalog, s, org, v)
  {
    ListScopeShows(t, s, v);
    var id, greatest :| IsMaximum(t.catalog, s, org, id, greatest) && row == LatestCells(id, greatest);
    LatestRowJoins(fold, s, ListMeaning.RowAt(t.catalog, s, v), ListScope(t, s, v), id, greatest);
    MaximumIsGreatest(t.catalog, s, org, v, id, greatest);
  }

  /** Joining the grouped subquery keeps exactly the greatest version of each identifier. */
  lemma WordsMeanLatest(t: Tables, fold: Fold, s: ListQuery.Subject, org: string, v: Id)
    requires v in ListMeaning.VersionIds(t.catalog, s) && ListMeaning.RowAt(t.catalog, s, v).org == org
    ensures ListQuery.OnLatest(s) == [W(Kw(GROUP_BY_ID))] + PrintAll(LatestOn(s))
    ensures ListMeaning.IsGreatest(t.catalog, s, org, v) <==>
            exists row :: InLatest(t.catalog, s, org, row) &&
                          AllHold(fold, LatestOn(s), [], ListScope(t, s, v)[LATEST := row])
  {
    PrintTwo(LatestOn(s)[0], LatestOn(s)[1]);
    if ListMeaning.IsGreatest(t.catalog, s, org, v) {
      GreatestJoins(t, fold, s, org, v);
    }
    if row :| InLatest(t.catalog, s, org, row) && AllHold(fold, LatestOn(s), [], ListScope(t, s, v)[LATEST := row]) {
      JoinedIsGreatest(t, fold, s, org, v, row);
    }
  }

  /** The table a list reads, under its alias. */
  function ListedSource(s: ListQuery.Subject): Source {
    if s.Purposes? then Source(PURPOSE, P, []) else Source(ELEMENT, E, [])
  }

  lemma ReadsItsTable(t: Tables, s: ListQuery.Subject, v: Id)
    requires v in ListMeaning.VersionIds(t.catalog, s)
    ensures InTable(t, ListedSource(s).table, RowCells(t, s, v))
  {
    if s.Purposes? {
      PurposeInTable(t, v);
    } else {
      ElementInTable(t, v);
    }
  }

  lemma SelectIsWritten(s: ListQuery.Subject, qualified: Option<Alias>)
    ensures exists columns :: ListQuery.SelectFrom(s, qualified) ==
                              columns + ([W(Kw(FROM))] + PrintSource(ListedSource(s)))
  {
    var columns := [W(Kw(SELECT))] + ListQuery.ColumnList(ListQuery.ColumnNames(s), qualified);
    SourceIsWritten(s);
    LeftFirst([W(Kw(SELECT))], ListQuery.ColumnList(ListQuery.ColumnNames(s), qualified),
              [W(Kw(FROM))] + PrintSource(ListedSource(s)));
    assert ListQuery.SelectFrom(s, qualified) == columns + ([W(Kw(FROM))] + PrintSource(ListedSource(s)));
  }

  lemma SourceIsWritten(s: ListQuery.Subject)
    ensures [W(Kw(FROM))] + PrintSource(ListedSource(s)) ==
            [W(Kw(FROM)), W(Kw(ListQuery.TableOf(s))), W(Kw(SPACE)), W(Table(ListQuery.AliasOf(s)))]
  {
  }

  /** The head of a list reads the rows of its table, the grouped subquery those of the same table, and both
      only of the organization asked for. */
  lemma WordsMeanHead(t: Tables, s: ListQuery.Subject, qualified: Option<Alias>, v: Id)
    requires v in ListMeaning.VersionIds(t.catalog, s)
    ensures InTable(t, ListedSource(s).table, RowCells(t, s, v))
    ensures exists columns :: ListQuery.SelectFrom(s, qualified) ==
                              columns + ([W(Kw(FROM))] + PrintSource(ListedSource(s)))
    ensures ListQuery.OrgIsAsked(s) ==
            [W(Kw(WHERE))] + PrintAtom(Compare(ListedSource(s).alias, ORG_ID, EQUALS))
    ensures ListQuery.LatestOnly(s) ==
            [W(Kw(MAX_OF)), W(Kw(ListedSource(s).table)), W(Kw(WHERE)), W(Bare(ORG_ID)), W(Kw(EQUALS)), Mark]
  {
    ReadsItsTable(t, s, v);
    SelectIsWritten(s, qualified);
  }

  // ---- Spelled out ----

  lemma GivenText(a: Alias, n: Name, op: Keyword)
    ensures Render(Given(a, n, op)) == AliasText(a) + "." + NameText(n) + (KeywordText(op) + "?")
  {
    var words := Given(a, n, op);
    assert words[1..] == [W(Kw(op)), Mark] && words[1..][1..] == [Mark];
    assert Render(words[1..][1..]) == "?" + "" == "?";
    assert Render(words[1..]) == KeywordText(op) + "?";
  }

  /** Conditions of one comparison, as the statement has them. */
  lemma ConsentTestsAreSpelled()
    ensures Text(OrgIs) == "CONSENT" + "." + "ORG_ID" + (" = " + "?")
    ensures Text(UpdatedFrom) == "CONSENT" + "." + "UPDATED_TIME" + (" >= " + "?")
    ensures Text(UpdatedTo) == "CONSENT" + "." + "UPDATED_TIME" + (" <= " + "?")
  {
    GivenText(CONSENT, ORG_ID, EQUALS);
    GivenText(CONSENT, UPDATED_TIME, AT_LEAST);
    GivenText(CONSENT, UPDATED_TIME, AT_MOST);
  }

  lemma AuthTestsAreSpelled()
    ensures Text(RoleIs) == "car" + "." + "AUTH_TYPE" + (" = " + "?")
    ensures Text(SubjectUserIs) == "car_ds" + "." + "USER_ID" + (" = " + "?")
    ensures Text(SubjectTypeIs) == "car_ds" + "." + "AUTH_TYPE" + (" = " + "?")
  {
    GivenText(CAR, AUTH_TYPE, EQUALS);
    GivenText(CAR_DS, USER_ID, EQUALS);
    GivenText(CAR_DS, AUTH_TYPE, EQUALS);
  }
}
