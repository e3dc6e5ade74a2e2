/** What the words of the generated conditions mean to a database, and that it is what the conditions are
    evaluated as. */
module SqlMeaning {
  import opened Wrappers
  import opened Rows
  import opened Tables
  import opened Like
  import opened SqlText
  import opened SearchQuery
  import opened SearchMeaning

  // ---- The fragment of SQL in use ----

  /** One test. Placeholders are positional. */
  datatype Atom =
    | Compare(a: Alias, n: Name, op: Keyword)
    | Equal(a: Alias, n: Name, b: Alias, m: Name)
    | Within(a: Alias, n: Name, count: nat)
    | LikeTest(a: Alias, n: Name, d: Dialect)

  /** A table under an alias, with its ON clause. */
  datatype Source = Source(table: Keyword, alias: Alias, on: seq<Atom>)

  datatype Condition = Test(atom: Atom) | Exists(first: Source, others: seq<Source>, filter: seq<Atom>)

  // ---- How it is written ----

  function PrintAtom(x: Atom): seq<Sql> {
    match x
    case Compare(a, n, op) => [W(Field(a, n)), W(Kw(op)), Mark]
    case Equal(a, n, b, m) => [W(Field(a, n)), W(Kw(EQUALS)), W(Field(b, m))]
    case Within(a, n, count) => [W(Field(a, n)), W(Kw(IN_OPEN))] + (Marks(count) + [W(Kw(CLOSE))])
    case LikeTest(a, n, d) => [W(Field(a, n)), W(Kw(LIKE)), Mark, W(EscapeWord(d))]
  }

  /** Tests joined by AND. */
  function PrintAll(xs: seq<Atom>): seq<Sql> {
    if xs == [] then []
    else if |xs| == 1 then PrintAtom(xs[0])
    else PrintAtom(xs[0]) + ([W(Kw(AND))] + PrintAll(xs[1..]))
  }

  function PrintSource(s: Source): seq<Sql> {
    [W(Kw(s.table)), W(Kw(SPACE)), W(Table(s.alias))]
  }

  function PrintJoins(others: seq<Source>): seq<Sql> {
    if others == [] then []
    else ([W(Kw(JOIN))] + PrintSource(others[0]) + ([W(Kw(ON))] + PrintAll(others[0].on))) + PrintJoins(others[1..])
  }

  function Print(c: Condition): seq<Sql> {
    match c
    case Test(x) => PrintAtom(x)
    case Exists(first, others, filter) =>
      [W(Kw(EXISTS))] + PrintSource(first) + PrintJoins(others) + ([W(Kw(WHERE))] + PrintAll(filter)) + [W(Kw(CLOSE))]
  }

  // ---- What it means ----

  /** A row as the database sees it; a missing column is NULL. */
  type Cells = map<Name, Value>

  /** The rows in scope. */
  type Scope = map<Alias, Cells>

  function Cell(scope: Scope, a: Alias, n: Name): Option<Value> {
    if a in scope && n in scope[a] then Some(scope[a][n]) else None
  }

  function AtomArity(x: Atom): nat {
    match x
    case Compare(_, _, _) => 1
    case Equal(_, _, _, _) => 0
    case Within(_, _, count) => count
    case LikeTest(_, _, _) => 1
  }

  /** A comparison; with NULL nothing holds. */
  predicate Compares(v: Option<Value>, op: Keyword, arg: Value) {
    v.Some? &&
    match op
    case EQUALS => v.value == arg
    case AT_LEAST => v.value.Num? && arg.Num? && v.value.n >= arg.n
    case AT_MOST => v.value.Num? && arg.Num? && v.value.n <= arg.n
    case _ => false
  }

  predicate AtomHolds(fold: Fold, x: Atom, args: seq<Value>, scope: Scope)
    requires |args| == AtomArity(x)
  {
    match x
    case Compare(a, n, op) => Compares(Cell(scope, a, n), op, args[0])
    case Equal(a, n, b, m) => Cell(scope, a, n).Some? && Cell(scope, a, n) == Cell(scope, b, m)
    case Within(a, n, _) => Cell(scope, a, n).Some? && Cell(scope, a, n).value in args
    case LikeTest(a, n, d) =>
      && Cell(scope, a, n).Some? && Cell(scope, a, n).value.Str? && args[0].Str?
      && Matches(fold, EscapeChar(d), args[0].s, Cell(scope, a, n).value.s)
  }

  /** All of them, each taking its own arguments off the list. */
  predicate AllHold(fold: Fold, xs: seq<Atom>, args: seq<Value>, scope: Scope)
    decreases |xs|
  {
    xs == [] ||
    (var n := AtomArity(xs[0]);
     n <= |args| && AtomHolds(fold, xs[0], args[..n], scope) && AllHold(fold, xs[1..], args[n..], scope))
  }

  // ---- The tables ----

  function ConsentCells(c: Consent): Cells {
    map[CONSENT_ID := Str(c.id), ORG_ID := Str(c.org), GROUP_ID := Str(c.group), CONSENT_TYPE := Str(c.consentType),
        CURRENT_STATUS := Str(c.status), CREATED_TIME := Num(c.created), UPDATED_TIME := Num(c.updated)]
    + if c.expiration.Some? then map[EXPIRATION_TIME := Num(c.expiration.value)] else map[]
  }

  function AuthCells(k: Key, a: Auth): Cells {
    map[CONSENT_ID := Str(k.id), ORG_ID := Str(k.org), AUTH_TYPE := Str(a.authType)]
    + if a.user.Some? then map[USER_ID := Str(a.user.value)] else map[]
  }

  function LinkCells(k: Key, pv: Id): Cells {
    map[CONSENT_ID := Str(k.id), PURPOSE_VERSION_ID := Str(pv), ORG_ID := Str(k.org)]
  }

  function PurposeCells(v: Id, p: PurposeVersion): Cells {
    map[VERSION_ID := Str(v), ID := Str(p.id), NAME := Str(p.name), GROUP_ID := Str(p.group), VERSION := Num(p.num),
        ORG_ID := Str(p.org)]
  }

  function MappingCells(p: (Id, Id), m: Mapping): Cells {
    map[PURPOSE_VERSION_ID := Str(p.0), ELEMENT_VERSION_ID := Str(p.1), ORG_ID := Str(m.org)]
  }

  function ElementCells(v: Id, e: ElementVersion): Cells {
    map[VERSION_ID := Str(v), ID := Str(e.id), NAME := Str(e.name), NAMESPACE := Str(e.namespace),
        TYPE := Str(e.elementType), VERSION := Num(e.num), ORG_ID := Str(e.org)]
  }

  ghost predicate InTable(t: Tables, table: Keyword, row: Cells) {
    match table
    case CONSENT_MAPPING => exists link :: link in t.links && row == LinkCells(link.0, link.1)
    case PURPOSE => exists v :: v in t.catalog.purposes && row == PurposeCells(v, t.catalog.purposes[v])
    case MAPPING => exists p :: p in t.catalog.mappings && row == MappingCells(p, t.catalog.mappings[p])
    case ELEMENT => exists v :: v in t.catalog.elements && row == ElementCells(v, t.catalog.elements[v])
    case AUTH_RESOURCE => exists r :: r in t.auths && row == AuthCells(r.key, r.val)
    case _ => false
  }

  /** Rows for the joined tables under which their ON clauses hold. */
  ghost predicate JoinsHold(t: Tables, fold: Fold, others: seq<Source>, scope: Scope) {
    forall i :: 0 <= i < |others| ==> SourceHolds(t, fold, others[i], scope)
  }

  ghost predicate SourceHolds(t: Tables, fold: Fold, s: Source, scope: Scope) {
    s.alias in scope && InTable(t, s.table, scope[s.alias]) && AllHold(fold, s.on, [], scope)
  }

  function Aliases(c: Condition): set<Alias>
    requires c.Exists?
  {
    {c.first.alias} + set s | s in c.others :: s.alias
  }

  /** The same rows outside the tables of the subquery. */
  predicate Widens(scope: Scope, c: Condition, scope': Scope)
    requires c.Exists?
  {
    scope' - Aliases(c) == scope - Aliases(c)
  }

  lemma StaysInScope(scope: Scope, c: Condition, scope': Scope, a: Alias)
    requires c.Exists? && Widens(scope, c, scope') && a in scope && a !in Aliases(c)
    ensures a in scope' && scope'[a] == scope[a]
  {
    assert a in scope - Aliases(c);
    assert (scope' - Aliases(c))[a] == (scope - Aliases(c))[a];
  }

  ghost predicate Witness(t: Tables, fold: Fold, c: Condition, args: seq<Value>, scope: Scope, scope': Scope)
    requires c.Exists?
  {
    && Widens(scope, c, scope')
    && SourceHolds(t, fold, c.first, scope') && JoinsHold(t, fold, c.others, scope')
    && AllHold(fold, c.filter, args, scope')
  }

  ghost predicate Means(t: Tables, fold: Fold, c: Condition, args: seq<Value>, scope: Scope) {
    match c
    case Test(x) => |args| == AtomArity(x) && AtomHolds(fold, x, args, scope)
    case Exists(_, _, _) => exists scope' :: Witness(t, fold, c, args, scope, scope')
  }

  /** The rows a joined row of the search brings into scope. */
  function ScopeOf(row: JoinedRow): Scope {
    var k := Key(row.c.id, row.c.org);
    map[CONSENT := ConsentCells(row.c)]
    + (if row.car.Some? then map[CAR := AuthCells(k, row.car.value)] else map[])
    + (if row.subject.Some? then map[CAR_DS := AuthCells(k, row.subject.value)] else map[])
  }

  // ---- The conditions of the search ----

  function ColumnAlias(c: Column): Alias {
    if c.UserColumn? || c.AuthTypeColumn? then CAR else CONSENT
  }

  function ColumnField(c: Column): Name {
    match c
    case IdColumn => CONSENT_ID
    case TypeColumn => CONSENT_TYPE
    case StatusColumn => CURRENT_STATUS
    case GroupColumn => GROUP_ID
    case UserColumn => USER_ID
    case AuthTypeColumn => AUTH_TYPE
  }

  function IfGiven(a: Alias, n: Name, present: bool): seq<Atom> {
    if present then [Compare(a, n, EQUALS)] else []
  }

  function Meant(c: Cond): Condition {
    match c
    case OrgIs => Test(Compare(CONSENT, ORG_ID, EQUALS))
    case In(column, n) => Test(Within(ColumnAlias(column), ColumnField(column), n))
    case RoleIs => Test(Compare(CAR, AUTH_TYPE, EQUALS))
    case SubjectUserIs => Test(Compare(CAR_DS, USER_ID, EQUALS))
    case SubjectTypeIs => Test(Compare(CAR_DS, AUTH_TYPE, EQUALS))
    case PurposeExists(d, versioned) => MeantPurpose(d, versioned)
    case ElementExists(named, spaced, versioned) => MeantElement(named, spaced, versioned)
    case UpdatedFrom => Test(Compare(CONSENT, UPDATED_TIME, AT_LEAST))
    case UpdatedTo => Test(Compare(CONSENT, UPDATED_TIME, AT_MOST))
  }

  function MeantPurpose(d: Dialect, versioned: bool): Condition {
    Exists(
      Source(CONSENT_MAPPING, PCM, []),
      [Source(PURPOSE, P, [Equal(PCM, PURPOSE_VERSION_ID, P, VERSION_ID), Equal(PCM, ORG_ID, P, ORG_ID)])],
      [Equal(PCM, CONSENT_ID, CONSENT, CONSENT_ID), Equal(PCM, ORG_ID, CONSENT, ORG_ID), LikeTest(P, NAME, d)] +
      IfGiven(P, VERSION, versioned))
  }

  function MeantElement(named: bool, spaced: bool, versioned: bool): Condition {
    Exists(
      Source(CONSENT_MAPPING, PCM2, []),
      [Source(MAPPING, PEM, [Equal(PCM2, PURPOSE_VERSION_ID, PEM, PURPOSE_VERSION_ID),
                              Equal(PCM2, ORG_ID, PEM, ORG_ID)]),
       Source(ELEMENT, E, [Equal(PEM, ELEMENT_VERSION_ID, E, VERSION_ID), Equal(PEM, ORG_ID, E, ORG_ID)])],
      [Equal(PCM2, CONSENT_ID, CONSENT, CONSENT_ID), Equal(PCM2, ORG_ID, CONSENT, ORG_ID)] +
      (IfGiven(E, NAME, named) + (IfGiven(E, NAMESPACE, spaced) + IfGiven(E, VERSION, versioned))))
  }

  // ---- Printed ----

  lemma {:induction false} PrintConcat(xs: seq<Atom>, ys: seq<Atom>)
    requires xs != [] && ys != []
    ensures PrintAll(xs + ys) == PrintAll(xs) + ([W(Kw(AND))] + PrintAll(ys))
    decreases |xs|
  {
    if |xs| == 1 {
      assert (xs + ys)[1..] == ys;
    } else {
      assert (xs + ys)[1..] == xs[1..] + ys;
      PrintConcat(xs[1..], ys);
    }
  }

  lemma PrintTwo(x: Atom, y: Atom)
    ensures PrintAll([x, y]) == PrintAtom(x) + And(PrintAtom(y))
  {
    assert [x, y][1..] == [y];
  }

  lemma PrintMore(xs: seq<Atom>, a: Alias, n: Name, present: bool)
    requires xs != []
    ensures PrintAll(xs + IfGiven(a, n, present)) == PrintAll(xs) + AndGiven(a, n, present)
  {
    if present {
      PrintConcat(xs, IfGiven(a, n, present));
    } else {
      assert xs + [] == xs;
    }
  }

  /** The text of every condition of the search is the text of what it means. */
  lemma TokensArePrinted(c: Cond)
    ensures Tokens(c) == Print(Meant(c))
  {
    match c
    case PurposeExists(d, versioned) => PurposeIsPrinted(d, versioned);
    case ElementExists(named, spaced, versioned) => ElementIsPrinted(named, spaced, versioned);
    case _ =>
  }

  lemma MiddleFirst(h: seq<Sql>, w: seq<Sql>, b: seq<Sql>, c: seq<Sql>)
    ensures (h + w) + (b + c) == h + (w + b) + c
  {
  }

  /** FROM one table joined to another. */
  lemma HeadIsPrinted(k: Keyword, a: Alias, s: Source, on: seq<Sql>, rest: seq<Source>)
    requires on == PrintAll(s.on)
    ensures [W(Kw(EXISTS)), W(Kw(k)), W(Kw(SPACE)), W(Table(a)), W(Kw(JOIN)), W(Kw(s.table)), W(Kw(SPACE)),
             W(Table(s.alias)), W(Kw(ON))] + on + PrintJoins(rest) ==
            [W(Kw(EXISTS))] + PrintSource(Source(k, a, [])) + PrintJoins([s] + rest)
  {
    assert ([s] + rest)[1..] == rest;
    var head := [W(Kw(EXISTS)), W(Kw(k)), W(Kw(SPACE)), W(Table(a))];
    var join := [W(Kw(JOIN)), W(Kw(s.table)), W(Kw(SPACE)), W(Table(s.alias)), W(Kw(ON))];
    JoinIsPrinted(s, on);
    assert head == [W(Kw(EXISTS))] + PrintSource(Source(k, a, []));
    assert head + join == [W(Kw(EXISTS)), W(Kw(k)), W(Kw(SPACE)), W(Table(a)), W(Kw(JOIN)), W(Kw(s.table)),
                           W(Kw(SPACE)), W(Table(s.alias)), W(Kw(ON))];
    FourInARow(head, join, on, PrintJoins(rest));
  }

  lemma JoinIsPrinted(s: Source, on: seq<Sql>)
    ensures [W(Kw(JOIN))] + PrintSource(s) + ([W(Kw(ON))] + on) ==
            [W(Kw(JOIN)), W(Kw(s.table)), W(Kw(SPACE)), W(Table(s.alias)), W(Kw(ON))] + on
  {
  }

  lemma FourInARow(a: seq<Sql>, b: seq<Sql>, c: seq<Sql>, d: seq<Sql>)
    ensures a + b + c + d == a + ((b + c) + d)
  {
  }

  lemma WhereIsPrinted(x: Atom, y: Atom, like: seq<Sql>, rest: seq<Sql>)
    requires like == [] || like[0] == W(Kw(AND))
    ensures [W(Kw(WHERE))] + (PrintAtom(x) + (And(PrintAtom(y)) + like)) + rest ==
            [W(Kw(WHERE))] + (PrintAtom(x) + And(PrintAtom(y)) + (like + rest))
  {
  }

  lemma PurposeIsPrinted(d: Dialect, versioned: bool)
    ensures Tokens(PurposeExists(d, versioned)) == Print(MeantPurpose(d, versioned))
  {
    var m, rest, close := MeantPurpose(d, versioned), AndGiven(P, VERSION, versioned), [W(Kw(CLOSE))];
    PrintTwo(m.others[0].on[0], m.others[0].on[1]);
    HeadIsPrinted(CONSENT_MAPPING, PCM, m.others[0], PrintAll(m.others[0].on), []);
    assert PurposeFrom() == [W(Kw(EXISTS))] + PrintSource(m.first) + PrintJoins(m.others);
    PurposeFilter(d, versioned);
    MiddleFirst(PurposeFrom(), PurposeWhere(), [Mark, W(EscapeWord(d))] + rest, close);
  }

  lemma PurposeFilter(d: Dialect, versioned: bool)
    ensures PurposeWhere() + ([Mark, W(EscapeWord(d))] + AndGiven(P, VERSION, versioned)) ==
            [W(Kw(WHERE))] + PrintAll(MeantPurpose(d, versioned).filter)
  {
    var x, y := Equal(PCM, CONSENT_ID, CONSENT, CONSENT_ID), Equal(PCM, ORG_ID, CONSENT, ORG_ID);
    var like := LikeTest(P, NAME, d);
    PrintTwo(x, y);
    PrintConcat([x, y], [like]);
    assert [x, y] + [like] == [x, y, like];
    PrintMore([x, y, like], P, VERSION, versioned);
    WhereIsPrinted(x, y, [W(Kw(AND)), W(Field(P, NAME)), W(Kw(LIKE))],
                   [Mark, W(EscapeWord(d))] + AndGiven(P, VERSION, versioned));
    assert [W(Kw(AND))] + PrintAll([like]) ==
           [W(Kw(AND)), W(Field(P, NAME)), W(Kw(LIKE))] + [Mark, W(EscapeWord(d))];
  }

  lemma ElementIsPrinted(named: bool, spaced: bool, versioned: bool)
    ensures Tokens(ElementExists(named, spaced, versioned)) == Print(MeantElement(named, spaced, versioned))
  {
    var m, close := MeantElement(named, spaced, versioned), [W(Kw(CLOSE))];
    var rest := AndGiven(E, NAME, named) + (AndGiven(E, NAMESPACE, spaced) + AndGiven(E, VERSION, versioned));
    ElementHead(m);
    FilterIsPrinted(m.filter[0], m.filter[1], named, spaced, versioned);
    MiddleFirst(ElementFrom() + ElementJoin(), ElementWhere(), rest, close);
    LeftFirst(ElementFrom(), ElementJoin(), ElementWhere());
  }

  lemma LeftFirst(a: seq<Sql>, b: seq<Sql>, c: seq<Sql>)
    ensures a + (b + c) == (a + b) + c
  {
  }

  lemma ElementHead(m: Condition)
    requires m.Exists? && m.first == MeantElement(false, false, false).first
    requires m.others == MeantElement(false, false, false).others
    ensures ElementFrom() + ElementJoin() == [W(Kw(EXISTS))] + PrintSource(m.first) + PrintJoins(m.others)
  {
    var x, y := m.others[0], m.others[1];
    PrintTwo(x.on[0], x.on[1]);
    PrintTwo(y.on[0], y.on[1]);
    JoinIsPrinted(y, PrintAll(y.on));
    assert [y][1..] == [] && PrintJoins([y]) == ElementJoin();
    HeadIsPrinted(CONSENT_MAPPING, PCM2, x, PrintAll(x.on), [y]);
    assert [x] + [y] == m.others;
  }

  /** A WHERE clause of two joining tests and the tests on an element. */
  lemma FilterIsPrinted(x: Atom, y: Atom, named: bool, spaced: bool, versioned: bool)
    ensures [W(Kw(WHERE))] + (PrintAtom(x) + And(PrintAtom(y))) +
            (AndGiven(E, NAME, named) + (AndGiven(E, NAMESPACE, spaced) + AndGiven(E, VERSION, versioned))) ==
            [W(Kw(WHERE))] +
            PrintAll([x, y] + (IfGiven(E, NAME, named) + (IfGiven(E, NAMESPACE, spaced) +
                                                          IfGiven(E, VERSION, versioned))))
  {
    PrintTwo(x, y);
    var a, b, c := IfGiven(E, NAME, named), IfGiven(E, NAMESPACE, spaced), IfGiven(E, VERSION, versioned);
    PrintMore([x, y], E, NAME, named);
    PrintMore([x, y] + a, E, NAMESPACE, spaced);
    PrintMore([x, y] + a + b, E, VERSION, versioned);
    assert [x, y] + (a + (b + c)) == [x, y] + a + b + c;
    Chain(PrintAll([x, y]), AndGiven(E, NAME, named), AndGiven(E, NAMESPACE, spaced), AndGiven(E, VERSION, versioned));
  }

  lemma Chain(p: seq<Sql>, a: seq<Sql>, b: seq<Sql>, c: seq<Sql>)
    ensures ([W(Kw(WHERE))] + p) + (a + (b + c)) == [W(Kw(WHERE))] + (p + a + b + c)
  {
  }

  // ---- Meant ----

  predicate SameCell(scope: Scope, a: Alias, n: Name, b: Alias, m: Name) {
    Cell(scope, a, n).Some? && Cell(scope, a, n) == Cell(scope, b, m)
  }

  lemma NoneHold(fold: Fold, args: seq<Value>, scope: Scope)
    ensures AllHold(fold, [], args, scope)
  {
  }

  lemma EqualFirst(fold: Fold, x: Atom, rest: seq<Atom>, args: seq<Value>, scope: Scope)
    requires x.Equal?
    ensures AllHold(fold, [x] + rest, args, scope) <==>
            SameCell(scope, x.a, x.n, x.b, x.m) && AllHold(fold, rest, args, scope)
  {
    assert ([x] + rest)[1..] == rest && args[0..] == args;
  }

  lemma GivenFirst(fold: Fold, a: Alias, n: Name, present: bool, rest: seq<Atom>, args: seq<Value>, scope: Scope)
    ensures AllHold(fold, IfGiven(a, n, present) + rest, args, scope) <==>
            if present
            then |args| > 0 && Compares(Cell(scope, a, n), EQUALS, args[0]) && AllHold(fold, rest, args[1..], scope)
            else AllHold(fold, rest, args, scope)
  {
    var xs := IfGiven(a, n, present) + rest;
    if present {
      assert xs[1..] == rest;
      if |args| > 0 {
        assert args[..1] == [args[0]];
      }
    } else {
      assert xs == rest;
    }
  }

  lemma LikeFirst(fold: Fold, x: Atom, rest: seq<Atom>, args: seq<Value>, scope: Scope)
    requires x.LikeTest? && |args| > 0
    ensures AllHold(fold, [x] + rest, args, scope) <==>
            AtomHolds(fold, x, [args[0]], scope) && AllHold(fold, rest, args[1..], scope)
  {
    assert ([x] + rest)[1..] == rest && args[..1] == [args[0]];
  }

  /** The two tests of an ON clause. */
  lemma OnHolds(fold: Fold, x: Atom, y: Atom, scope: Scope)
    requires x.Equal? && y.Equal?
    ensures AllHold(fold, [x, y], [], scope) <==>
            SameCell(scope, x.a, x.n, x.b, x.m) && SameCell(scope, y.a, y.n, y.b, y.m)
  {
    assert [x, y] == [x] + [y] && [y] == [y] + [];
    EqualFirst(fold, x, [y], [], scope);
    EqualFirst(fold, y, [], [], scope);
  }

  lemma PurposeFilterHolds(fold: Fold, d: Dialect, versioned: bool, args: seq<Value>, scope: Scope)
    requires |args| == if versioned then 2 else 1
    ensures AllHold(fold, MeantPurpose(d, versioned).filter, args, scope) <==>
            && SameCell(scope, PCM, CONSENT_ID, CONSENT, CONSENT_ID) && SameCell(scope, PCM, ORG_ID, CONSENT, ORG_ID)
            && AtomHolds(fold, LikeTest(P, NAME, d), [args[0]], scope)
            && (versioned ==> Compares(Cell(scope, P, VERSION), EQUALS, args[1]))
  {
    var x, y := Equal(PCM, CONSENT_ID, CONSENT, CONSENT_ID), Equal(PCM, ORG_ID, CONSENT, ORG_ID);
    var like, last := LikeTest(P, NAME, d), IfGiven(P, VERSION, versioned);
    assert MeantPurpose(d, versioned).filter == [x] + ([y] + ([like] + last));
    EqualFirst(fold, x, [y] + ([like] + last), args, scope);
    EqualFirst(fold, y, [like] + last, args, scope);
    LikeFirst(fold, like, last, args, scope);
    assert last == last + [];
    GivenFirst(fold, P, VERSION, versioned, [], args[1..], scope);
  }

  /** Two joining tests and the tests on an element, each with its own argument. */
  lemma FilterHolds(fold: Fold, x: Atom, y: Atom, named: bool, spaced: bool, versioned: bool, args: seq<Value>,
                    scope: Scope)
    requires x.Equal? && y.Equal? && |args| == Arity(ElementExists(named, spaced, versioned))
    ensures var i := if named then 1 else 0;
            var j := if spaced then i + 1 else i;
            AllHold(fold, [x, y] + (IfGiven(E, NAME, named) + (IfGiven(E, NAMESPACE, spaced) +
                                                               IfGiven(E, VERSION, versioned))), args, scope) <==>
            && SameCell(scope, x.a, x.n, x.b, x.m) && SameCell(scope, y.a, y.n, y.b, y.m)
            && (named ==> Compares(Cell(scope, E, NAME), EQUALS, args[0]))
            && (spaced ==> Compares(Cell(scope, E, NAMESPACE), EQUALS, args[i]))
            && (versioned ==> Compares(Cell(scope, E, VERSION), EQUALS, args[j]))
  {
    var a, b, c := IfGiven(E, NAME, named), IfGiven(E, NAMESPACE, spaced), IfGiven(E, VERSION, versioned);
    assert [x, y] + (a + (b + c)) == [x] + ([y] + (a + (b + c)));
    EqualFirst(fold, x, [y] + (a + (b + c)), args, scope);
    EqualFirst(fold, y, a + (b + c), args, scope);
    GivenTests(fold, named, spaced, versioned, args, scope);
  }

  lemma GivenLast(fold: Fold, a: Alias, n: Name, present: bool, args: seq<Value>, scope: Scope)
    requires |args| == if present then 1 else 0
    ensures AllHold(fold, IfGiven(a, n, present), args, scope) <==>
            (present ==> Compares(Cell(scope, a, n), EQUALS, args[0]))
  {
    assert IfGiven(a, n, present) == IfGiven(a, n, present) + [];
    GivenFirst(fold, a, n, present, [], args, scope);
  }

  lemma GivenTwo(fold: Fold, spaced: bool, versioned: bool, args: seq<Value>, scope: Scope)
    requires |args| == (if spaced then 1 else 0) + (if versioned then 1 else 0)
    ensures AllHold(fold, IfGiven(E, NAMESPACE, spaced) + IfGiven(E, VERSION, versioned), args, scope) <==>
            && (spaced ==> Compares(Cell(scope, E, NAMESPACE), EQUALS, args[0]))
            && (versioned ==> Compares(Cell(scope, E, VERSION), EQUALS, args[if spaced then 1 else 0]))
  {
    GivenFirst(fold, E, NAMESPACE, spaced, IfGiven(E, VERSION, versioned), args, scope);
    GivenLast(fold, E, VERSION, versioned, if spaced then args[1..] else args, scope);
  }

  lemma GivenTests(fold: Fold, named: bool, spaced: bool, versioned: bool, args: seq<Value>, scope: Scope)
    requires |args| == Arity(ElementExists(named, spaced, versioned))
    ensures var i := if named then 1 else 0;
            var j := if spaced then i + 1 else i;
            AllHold(fold, IfGiven(E, NAME, named) + (IfGiven(E, NAMESPACE, spaced) + IfGiven(E, VERSION, versioned)),
                    args, scope) <==>
            && (named ==> Compares(Cell(scope, E, NAME), EQUALS, args[0]))
            && (spaced ==> Compares(Cell(scope, E, NAMESPACE), EQUALS, args[i]))
            && (versioned ==> Compares(Cell(scope, E, VERSION), EQUALS, args[j]))
  {
    GivenFirst(fold, E, NAME, named, IfGiven(E, NAMESPACE, spaced) + IfGiven(E, VERSION, versioned), args, scope);
    GivenTwo(fold, spaced, versioned, if named then args[1..] else args, scope);
  }

  /** The cells of a consent, column by column. */
  predicate ShowsConsent(scope: Scope, c: Consent) {
    && Cell(scope, CONSENT, CONSENT_ID) == Some(Str(c.id)) && Cell(scope, CONSENT, ORG_ID) == Some(Str(c.org))
    && Cell(scope, CONSENT, GROUP_ID) == Some(Str(c.group))
    && Cell(scope, CONSENT, CONSENT_TYPE) == Some(Str(c.consentType))
    && Cell(scope, CONSENT, CURRENT_STATUS) == Some(Str(c.status))
    && Cell(scope, CONSENT, UPDATED_TIME) == Some(Num(c.updated))
  }

  /** The cells of a joined authorization; without a user its column is NULL. */
  predicate ShowsAuth(scope: Scope, alias: Alias, auth: Option<Auth>) {
    && Cell(scope, alias, AUTH_TYPE) == (if auth.Some? then Some(Str(auth.value.authType)) else None)
    && Cell(scope, alias, USER_ID) ==
       (if auth.Some? && auth.value.user.Some? then Some(Str(auth.value.user.value)) else None)
  }

  lemma ScopeShowsConsent(row: JoinedRow)
    ensures ShowsConsent(ScopeOf(row), row.c)
  {
    assert ScopeOf(row)[CONSENT] == ConsentCells(row.c);
  }

  lemma ScopeShowsAuths(row: JoinedRow)
    ensures ShowsAuth(ScopeOf(row), CAR, row.car) && ShowsAuth(ScopeOf(row), CAR_DS, row.subject)
  {
    var k := Key(row.c.id, row.c.org);
    assert row.car.Some? ==> ScopeOf(row)[CAR] == AuthCells(k, row.car.value);
    assert row.subject.Some? ==> ScopeOf(row)[CAR_DS] == AuthCells(k, row.subject.value);
  }

  predicate IsTest(c: Cond) {
    !c.PurposeExists? && !c.ElementExists?
  }

  lemma TestMeans(t: Tables, fold: Fold, cond: Cond, args: seq<Value>, row: JoinedRow, scope: Scope)
    requires |args| == Arity(cond) && IsTest(cond)
    requires ShowsConsent(scope, row.c) && ShowsAuth(scope, CAR, row.car) && ShowsAuth(scope, CAR_DS, row.subject)
    ensures Means(t, fold, Meant(cond), args, scope) <==> Eval(t, fold, cond, args, row)
  {
  }

  // ---- The subqueries ----

  lemma LinkShows(scope: Scope, a: Alias, k: Key, pv: Id)
    requires a in scope && scope[a] == LinkCells(k, pv)
    ensures Cell(scope, a, CONSENT_ID) == Some(Str(k.id)) && Cell(scope, a, ORG_ID) == Some(Str(k.org))
    ensures Cell(scope, a, PURPOSE_VERSION_ID) == Some(Str(pv))
  {
  }

  lemma PurposeShows(scope: Scope, a: Alias, v: Id, p: PurposeVersion)
    requires a in scope && scope[a] == PurposeCells(v, p)
    ensures Cell(scope, a, VERSION_ID) == Some(Str(v)) && Cell(scope, a, ORG_ID) == Some(Str(p.org))
    ensures Cell(scope, a, ID) == Some(Str(p.id)) && Cell(scope, a, GROUP_ID) == Some(Str(p.group))
    ensures Cell(scope, a, NAME) == Some(Str(p.name)) && Cell(scope, a, VERSION) == Some(Num(p.num))
  {
  }

  lemma MappingShows(scope: Scope, a: Alias, p: (Id, Id), m: Mapping)
    requires a in scope && scope[a] == MappingCells(p, m)
    ensures Cell(scope, a, PURPOSE_VERSION_ID) == Some(Str(p.0)) && Cell(scope, a, ORG_ID) == Some(Str(m.org))
    ensures Cell(scope, a, ELEMENT_VERSION_ID) == Some(Str(p.1))
  {
  }

  lemma ElementShows(scope: Scope, a: Alias, v: Id, e: ElementVersion)
    requires a in scope && scope[a] == ElementCells(v, e)
    ensures Cell(scope, a, VERSION_ID) == Some(Str(v)) && Cell(scope, a, ORG_ID) == Some(Str(e.org))
    ensures Cell(scope, a, ID) == Some(Str(e.id)) && Cell(scope, a, NAME) == Some(Str(e.name))
    ensures Cell(scope, a, NAMESPACE) == Some(Str(e.namespace)) && Cell(scope, a, TYPE) == Some(Str(e.elementType))
    ensures Cell(scope, a, VERSION) == Some(Num(e.num))
  {
  }

  lemma LinkOf(t: Tables, row: Cells) returns (link: (Key, Id))
    requires InTable(t, CONSENT_MAPPING, row)
    ensures link in t.links && row == LinkCells(link.0, link.1)
  {
    link :| link in t.links && row == LinkCells(link.0, link.1);
  }

  lemma PurposeOf(t: Tables, row: Cells) returns (v: Id)
    requires InTable(t, PURPOSE, row)
    ensures v in t.catalog.purposes && row == PurposeCells(v, t.catalog.purposes[v])
  {
    v :| v in t.catalog.purposes && row == PurposeCells(v, t.catalog.purposes[v]);
  }

  lemma MappingOf(t: Tables, row: Cells) returns (p: (Id, Id))
    requires InTable(t, MAPPING, row)
    ensures p in t.catalog.mappings && row == MappingCells(p, t.catalog.mappings[p])
  {
    p :| p in t.catalog.mappings && row == MappingCells(p, t.catalog.mappings[p]);
  }

  lemma ElementOf(t: Tables, row: Cells) returns (v: Id)
    requires InTable(t, ELEMENT, row)
    ensures v in t.catalog.elements && row == ElementCells(v, t.catalog.elements[v])
  {
    v :| v in t.catalog.elements && row == ElementCells(v, t.catalog.elements[v]);
  }

  lemma LinkInTable(t: Tables, k: Key, pv: Id)
    requires (k, pv) in t.links
    ensures InTable(t, CONSENT_MAPPING, LinkCells(k, pv))
  {
    assert (k, pv).0 == k && (k, pv).1 == pv;
  }

  lemma PurposeInTable(t: Tables, v: Id)
    requires v in t.catalog.purposes
    ensures InTable(t, PURPOSE, PurposeCells(v, t.catalog.purposes[v]))
  {
  }

  lemma MappingInTable(t: Tables, p: (Id, Id))
    requires p in t.catalog.mappings
    ensures InTable(t, MAPPING, MappingCells(p, t.catalog.mappings[p]))
  {
  }

  lemma ElementInTable(t: Tables, v: Id)
    requires v in t.catalog.elements
    ensures InTable(t, ELEMENT, ElementCells(v, t.catalog.elements[v]))
  {
  }

  /** With the two rows in scope, the subquery's clauses are what PurposeFits says of the version. */
  lemma PurposeClauses(t: Tables, fold: Fold, d: Dialect, versioned: bool, args: seq<Value>, c: Consent, k: Key,
                       pv: Id, v: Id, scope: Scope)
    requires |args| == if versioned then 2 else 1
    requires (k, pv) in t.links && v in t.catalog.purposes && ShowsConsent(scope, c)
    requires PCM in scope && scope[PCM] == LinkCells(k, pv)
    requires P in scope && scope[P] == PurposeCells(v, t.catalog.purposes[v])
    ensures var m := MeantPurpose(d, versioned);
            AllHold(fold, m.others[0].on, [], scope) && AllHold(fold, m.filter, args, scope) <==>
            k == Key(c.id, c.org) && v == pv && PurposeFits(t, fold, d, versioned, args, c, pv)
  {
    var m := MeantPurpose(d, versioned);
    LinkShows(scope, PCM, k, pv);
    PurposeShows(scope, P, v, t.catalog.purposes[v]);
    OnHolds(fold, m.others[0].on[0], m.others[0].on[1], scope);
    assert m.others[0].on == [m.others[0].on[0], m.others[0].on[1]];
    PurposeFilterHolds(fold, d, versioned, args, scope);
  }

  lemma PurposeMeans(t: Tables, fold: Fold, d: Dialect, versioned: bool, args: seq<Value>, c: Consent, scope: Scope)
    requires |args| == (if versioned then 2 else 1) && CONSENT in scope && ShowsConsent(scope, c)
    ensures Means(t, fold, MeantPurpose(d, versioned), args, scope) <==>
            exists pv :: PurposeFits(t, fold, d, versioned, args, c, pv)
  {
    var m := MeantPurpose(d, versioned);
    if scope' :| Witness(t, fold, m, args, scope, scope') {
      PurposeFromWitness(t, fold, d, versioned, args, c, scope, scope');
    }
    if pv :| PurposeFits(t, fold, d, versioned, args, c, pv) {
      PurposeHasWitness(t, fold, d, versioned, args, c, scope, pv);
    }
  }

  lemma PurposeFromWitness(t: Tables, fold: Fold, d: Dialect, versioned: bool, args: seq<Value>, c: Consent,
                           scope: Scope, scope': Scope)
    requires |args| == (if versioned then 2 else 1) && CONSENT in scope && ShowsConsent(scope, c)
    requires Witness(t, fold, MeantPurpose(d, versioned), args, scope, scope')
    ensures exists pv :: PurposeFits(t, fold, d, versioned, args, c, pv)
  {
    var m := MeantPurpose(d, versioned);
    StaysInScope(scope, m, scope', CONSENT);
    assert SourceHolds(t, fold, m.others[0], scope');
    var link := LinkOf(t, scope'[PCM]);
    var v := PurposeOf(t, scope'[P]);
    PurposeClauses(t, fold, d, versioned, args, c, link.0, link.1, v, scope');
  }

  lemma PurposeHasWitness(t: Tables, fold: Fold, d: Dialect, versioned: bool, args: seq<Value>, c: Consent,
                          scope: Scope, pv: Id)
    requires |args| == (if versioned then 2 else 1) && CONSENT in scope && ShowsConsent(scope, c)
    requires PurposeFits(t, fold, d, versioned, args, c, pv)
    ensures Means(t, fold, MeantPurpose(d, versioned), args, scope)
  {
    var m, k := MeantPurpose(d, versioned), Key(c.id, c.org);
    var scope' := scope[PCM := LinkCells(k, pv)][P := PurposeCells(pv, t.catalog.purposes[pv])];
    PurposeClauses(t, fold, d, versioned, args, c, k, pv, pv, scope');
    LinkInTable(t, k, pv);
    PurposeInTable(t, pv);
    NoneHold(fold, [], scope');
    Placed(t, fold, m.first, scope', LinkCells(k, pv));
    Placed(t, fold, m.others[0], scope', PurposeCells(pv, t.catalog.purposes[pv]));
    WidensTwo(scope, m, LinkCells(k, pv), PurposeCells(pv, t.catalog.purposes[pv]));
    assert Witness(t, fold, m, args, scope, scope');
  }

  lemma WidensTwo(scope: Scope, m: Condition, r0: Cells, r1: Cells)
    requires m.Exists? && |m.others| == 1
    ensures Widens(scope, m, scope[m.first.alias := r0][m.others[0].alias := r1])
  {
    assert m.others[0] in m.others && m.others[0].alias in Aliases(m);
  }

  lemma Placed(t: Tables, fold: Fold, s: Source, scope: Scope, r: Cells)
    requires s.alias in scope && scope[s.alias] == r && InTable(t, s.table, r) && AllHold(fold, s.on, [], scope)
    ensures SourceHolds(t, fold, s, scope)
  {
  }

  /** With the three rows in scope, the clauses of the other subquery. */
  lemma ElementClauses(t: Tables, fold: Fold, named: bool, spaced: bool, versioned: bool, args: seq<Value>,
                       c: Consent, k: Key, pv: Id, p: (Id, Id), v: Id, scope: Scope)
    requires |args| == Arity(ElementExists(named, spaced, versioned))
    requires (k, pv) in t.links && p in t.catalog.mappings && v in t.catalog.elements && ShowsConsent(scope, c)
    requires PCM2 in scope && scope[PCM2] == LinkCells(k, pv)
    requires PEM in scope && scope[PEM] == MappingCells(p, t.catalog.mappings[p])
    requires E in scope && scope[E] == ElementCells(v, t.catalog.elements[v])
    ensures var m := MeantElement(named, spaced, versioned);
            && AllHold(fold, m.others[0].on, [], scope) && AllHold(fold, m.others[1].on, [], scope)
            && AllHold(fold, m.filter, args, scope) <==>
            && k == Key(c.id, c.org) && p.0 == pv && p.1 == v
            && ElementFits(t, named, spaced, versioned, args, c, pv, v)
  {
    var m := MeantElement(named, spaced, versioned);
    LinkShows(scope, PCM2, k, pv);
    MappingShows(scope, PEM, p, t.catalog.mappings[p]);
    ElementShows(scope, E, v, t.catalog.elements[v]);
    OnHolds(fold, m.others[0].on[0], m.others[0].on[1], scope);
    OnHolds(fold, m.others[1].on[0], m.others[1].on[1], scope);
    assert m.others[0].on == [m.others[0].on[0], m.others[0].on[1]];
    assert m.others[1].on == [m.others[1].on[0], m.others[1].on[1]];
    FilterHolds(fold, m.filter[0], m.filter[1], named, spaced, versioned, args, scope);
    assert p == (p.0, p.1);
  }

  lemma ElementFromWitness(t: Tables, fold: Fold, named: bool, spaced: bool, versioned: bool, args: seq<Value>,
                           c: Consent, scope: Scope, scope': Scope)
    requires |args| == Arity(ElementExists(named, spaced, versioned)) && CONSENT in scope && ShowsConsent(scope, c)
    requires Witness(t, fold, MeantElement(named, spaced, versioned), args, scope, scope')
    ensures exists pv, ev :: ElementFits(t, named, spaced, versioned, args, c, pv, ev)
  {
    var m := MeantElement(named, spaced, versioned);
    StaysInScope(scope, m, scope', CONSENT);
    assert SourceHolds(t, fold, m.others[0], scope') && SourceHolds(t, fold, m.others[1], scope');
    var link := LinkOf(t, scope'[PCM2]);
    var p := MappingOf(t, scope'[PEM]);
    var v := ElementOf(t, scope'[E]);
    ElementClauses(t, fold, named, spaced, versioned, args, c, link.0, link.1, p, v, scope');
  }

  lemma ElementHasWitness(t: Tables, fold: Fold, named: bool, spaced: bool, versioned: bool, args: seq<Value>,
                          c: Consent, scope: Scope, pv: Id, ev: Id)
    requires |args| == Arity(ElementExists(named, spaced, versioned)) && CONSENT in scope && ShowsConsent(scope, c)
    requires ElementFits(t, named, spaced, versioned, args, c, pv, ev)
    ensures Means(t, fold, MeantElement(named, spaced, versioned), args, scope)
  {
    var m, k, p := MeantElement(named, spaced, versioned), Key(c.id, c.org), (pv, ev);
    var scope' := scope[PCM2 := LinkCells(k, pv)][PEM := MappingCells(p, t.catalog.mappings[p])]
                       [E := ElementCells(ev, t.catalog.elements[ev])];
    ElementClauses(t, fold, named, spaced, versioned, args, c, k, pv, p, ev, scope');
    LinkInTable(t, k, pv);
    MappingInTable(t, p);
    ElementInTable(t, ev);
    ThreeRows(t, fold, m, args, scope, scope', LinkCells(k, pv), MappingCells(p, t.catalog.mappings[p]),
              ElementCells(ev, t.catalog.elements[ev]));
  }

  lemma ThreeRows(t: Tables, fold: Fold, m: Condition, args: seq<Value>, scope: Scope, scope': Scope, r0: Cells,
                  r1: Cells, r2: Cells)
    requires m.Exists? && |m.others| == 2 && m.first.on == []
    requires m.first.alias == PCM2 && m.others[0].alias == PEM && m.others[1].alias == E
    requires InTable(t, m.first.table, r0) && InTable(t, m.others[0].table, r1) && InTable(t, m.others[1].table, r2)
    requires scope' == scope[PCM2 := r0][PEM := r1][E := r2]
    requires AllHold(fold, m.others[0].on, [], scope') && AllHold(fold, m.others[1].on, [], scope')
    requires AllHold(fold, m.filter, args, scope')
    ensures Means(t, fold, m, args, scope)
  {
    NoneHold(fold, [], scope');
    Placed(t, fold, m.first, scope', r0);
    Placed(t, fold, m.others[0], scope', r1);
    Placed(t, fold, m.others[1], scope', r2);
    WidensThree(scope, m, r0, r1, r2);
    assert Witness(t, fold, m, args, scope, scope');
  }

  lemma WidensThree(scope: Scope, m: Condition, r0: Cells, r1: Cells, r2: Cells)
    requires m.Exists? && |m.others| == 2
    ensures Widens(scope, m, scope[m.first.alias := r0][m.others[0].alias := r1][m.others[1].alias := r2])
  {
    assert m.others[0] in m.others && m.others[0].alias in Aliases(m);
    assert m.others[1] in m.others && m.others[1].alias in Aliases(m);
  }

  lemma ElementMeans(t: Tables, fold: Fold, named: bool, spaced: bool, versioned: bool, args: seq<Value>, c: Consent,
                     scope: Scope)
    requires |args| == Arity(ElementExists(named, spaced, versioned)) && CONSENT in scope && ShowsConsent(scope, c)
    ensures Means(t, fold, MeantElement(named, spaced, versioned), args, scope) <==>
            exists pv, ev :: ElementFits(t, named, spaced, versioned, args, c, pv, ev)
  {
    var m := MeantElement(named, spaced, versioned);
    if scope' :| Witness(t, fold, m, args, scope, scope') {
      ElementFromWitness(t, fold, named, spaced, versioned, args, c, scope, scope');
    }
    if pv, ev :| ElementFits(t, named, spaced, versioned, args, c, pv, ev) {
      ElementHasWitness(t, fold, named, spaced, versioned, args, c, scope, pv, ev);
    }
  }

  /** What the database reads in the words of a condition is what the condition is evaluated as. */
  lemma WordsMeanCondition(t: Tables, fold: Fold, cond: Cond, args: seq<Value>, row: JoinedRow)
    requires |args| == Arity(cond)
    ensures Tokens(cond) == Print(Meant(cond))
    ensures Means(t, fold, Meant(cond), args, ScopeOf(row)) <==> Eval(t, fold, cond, args, row)
  {
    TokensArePrinted(cond);
    ScopeShowsConsent(row);
    ScopeShowsAuths(row);
    match cond
    case PurposeExists(d, versioned) => PurposeMeans(t, fold, d, versioned, args, row.c, ScopeOf(row));
    case ElementExists(named, spaced, versioned) =>
      ElementMeans(t, fold, named, spaced, versioned, args, row.c, ScopeOf(row));
    case _ => TestMeans(t, fold, cond, args, row, ScopeOf(row));
  }
}
