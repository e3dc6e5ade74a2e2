/** The consent search statement: conditions and arguments grow together, and every placeholder is
    bound to the argument its own condition contributed. */
module SearchQuery {
  import opened Wrappers
  import opened Sequences
  import opened Config
  import opened AuthRules
  import opened Like
  import opened Placeholders
  import opened SqlText

  datatype Filter = Filter(
    org: string, consentIds: seq<string>, consentTypes: seq<string>, statuses: seq<string>, groups: seq<string>,
    users: seq<string>, delegation: Option<bool>, authTypes: seq<string>, delegateSubject: string,
    purposeName: string, purposeVersion: Option<int>,
    elementName: string, elementNamespace: string, elementVersion: Option<int>,
    fromTime: Option<int>, toTime: Option<int>)

  /** A bound argument. */
  datatype Value = Str(s: string) | Num(n: int)

  datatype Column = IdColumn | TypeColumn | StatusColumn | GroupColumn | UserColumn | AuthTypeColumn

  /** A condition of the WHERE clause; its placeholders are positional. */
  datatype Cond =
    | OrgIs
    | In(column: Column, n: nat)
    | RoleIs
    | SubjectUserIs
    | SubjectTypeIs
    | PurposeExists(dialect: Dialect, versioned: bool)
    | ElementExists(named: bool, spaced: bool, versioned: bool)
    | UpdatedFrom
    | UpdatedTo

  /** A condition with the arguments it was added with. */
  datatype Bound = Bound(cond: Cond, args: seq<Value>)

  // ---- The text ----

  function ColumnWord(c: Column): Word {
    match c
    case IdColumn => Field(CONSENT, CONSENT_ID)
    case TypeColumn => Field(CONSENT, CONSENT_TYPE)
    case StatusColumn => Field(CONSENT, CURRENT_STATUS)
    case GroupColumn => Field(CONSENT, GROUP_ID)
    case UserColumn => Field(CAR, USER_ID)
    case AuthTypeColumn => Field(CAR, AUTH_TYPE)
  }

  function Marks(n: nat): seq<Sql> {
    if n == 0 then [] else if n == 1 then [Mark] else [Mark] + ([W(Kw(LIST_COMMA))] + Marks(n - 1))
  }

  /** a.n = b.m */
  function Same(a: Alias, n: Name, b: Alias, m: Name): (r: seq<Sql>)
    ensures Mark !in r
  {
    [W(Field(a, n)), W(Kw(EQUALS)), W(Field(b, m))]
  }

  function And(tokens: seq<Sql>): (r: seq<Sql>)
    ensures Mark !in tokens ==> Mark !in r
  {
    [W(Kw(AND))] + tokens
  }

  /** a.n op ? */
  function Given(a: Alias, n: Name, op: Keyword): seq<Sql> {
    [W(Field(a, n)), W(Kw(op)), Mark]
  }

  /** AND a.n = ?, when there is something to compare with. */
  function AndGiven(a: Alias, n: Name, present: bool): seq<Sql> {
    if present then And(Given(a, n, EQUALS)) else []
  }

  function PurposeFrom(): (r: seq<Sql>)
    ensures Mark !in r
  {
    [W(Kw(EXISTS)), W(Kw(CONSENT_MAPPING)), W(Kw(SPACE)), W(Table(PCM)),
     W(Kw(JOIN)), W(Kw(PURPOSE)), W(Kw(SPACE)), W(Table(P)), W(Kw(ON))] +
    (Same(PCM, PURPOSE_VERSION_ID, P, VERSION_ID) + And(Same(PCM, ORG_ID, P, ORG_ID)))
  }

  function PurposeWhere(): (r: seq<Sql>)
    ensures Mark !in r
  {
    [W(Kw(WHERE))] + (Same(PCM, CONSENT_ID, CONSENT, CONSENT_ID) + (And(Same(PCM, ORG_ID, CONSENT, ORG_ID)) +
      [W(Kw(AND)), W(Field(P, NAME)), W(Kw(LIKE))]))
  }

  function ElementFrom(): (r: seq<Sql>)
    ensures Mark !in r
  {
    [W(Kw(EXISTS)), W(Kw(CONSENT_MAPPING)), W(Kw(SPACE)), W(Table(PCM2)),
     W(Kw(JOIN)), W(Kw(MAPPING)), W(Kw(SPACE)), W(Table(PEM)), W(Kw(ON))] +
    (Same(PCM2, PURPOSE_VERSION_ID, PEM, PURPOSE_VERSION_ID) + And(Same(PCM2, ORG_ID, PEM, ORG_ID)))
  }

  function ElementJoin(): (r: seq<Sql>)
    ensures Mark !in r
  {
    [W(Kw(JOIN)), W(Kw(ELEMENT)), W(Kw(SPACE)), W(Table(E)), W(Kw(ON))] +
    (Same(PEM, ELEMENT_VERSION_ID, E, VERSION_ID) + And(Same(PEM, ORG_ID, E, ORG_ID)))
  }

  function ElementWhere(): (r: seq<Sql>)
    ensures Mark !in r
  {
    [W(Kw(WHERE))] + (Same(PCM2, CONSENT_ID, CONSENT, CONSENT_ID) + And(Same(PCM2, ORG_ID, CONSENT, ORG_ID)))
  }

  function Tokens(c: Cond): seq<Sql> {
    match c
    case OrgIs => Given(CONSENT, ORG_ID, EQUALS)
    case In(column, n) => Surround([W(ColumnWord(column)), W(Kw(IN_OPEN))], Marks(n))
    case RoleIs => Given(CAR, AUTH_TYPE, EQUALS)
    case SubjectUserIs => Given(CAR_DS, USER_ID, EQUALS)
    case SubjectTypeIs => Given(CAR_DS, AUTH_TYPE, EQUALS)
    case PurposeExists(d, versioned) =>
      Surround(PurposeFrom() + PurposeWhere(), [Mark, W(EscapeWord(d))] + AndGiven(P, VERSION, versioned))
    case ElementExists(named, spaced, versioned) =>
      Surround(ElementFrom() + (ElementJoin() + ElementWhere()),
               AndGiven(E, NAME, named) + (AndGiven(E, NAMESPACE, spaced) + AndGiven(E, VERSION, versioned)))
    case UpdatedFrom => Given(CONSENT, UPDATED_TIME, AT_LEAST)
    case UpdatedTo => Given(CONSENT, UPDATED_TIME, AT_MOST)
  }

  function Surround(head: seq<Sql>, body: seq<Sql>): seq<Sql> {
    head + (body + [W(Kw(CLOSE))])
  }

  function Text(c: Cond): string {
    Render(Tokens(c))
  }

  /** How many arguments a condition takes. */
  function Arity(c: Cond): nat {
    match c
    case In(_, n) => n
    case PurposeExists(_, versioned) => if versioned then 2 else 1
    case ElementExists(named, spaced, versioned) =>
      (if named then 1 else 0) + (if spaced then 1 else 0) + (if versioned then 1 else 0)
    case _ => 1
  }

  lemma MarksOfGiven(a: Alias, n: Name, op: Keyword)
    ensures MarksIn(Given(a, n, op)) == 1
  {
    assert Given(a, n, op) == [W(Field(a, n)), W(Kw(op))] + [Mark];
    MarksConcat([W(Field(a, n)), W(Kw(op))], [Mark]);
    MarksFree([W(Field(a, n)), W(Kw(op))]);
    assert [Mark][1..] == [];
  }

  lemma MarksOfAndGiven(a: Alias, n: Name, present: bool)
    ensures MarksIn(AndGiven(a, n, present)) == if present then 1 else 0
  {
    MarksOfGiven(a, n, EQUALS);
    assert And(Given(a, n, EQUALS))[1..] == Given(a, n, EQUALS);
  }

  lemma MarksOfSurround(head: seq<Sql>, body: seq<Sql>)
    requires Mark !in head
    ensures MarksIn(Surround(head, body)) == MarksIn(body)
  {
    var close := [W(Kw(CLOSE))];
    MarksFree(head);
    MarksFree(close);
    MarksConcat(body, close);
    MarksConcat(head, body + close);
  }

  lemma {:induction false} MarksOfMarks(n: nat)
    ensures MarksIn(Marks(n)) == n
    decreases n
  {
    assert [Mark][1..] == [];
    if n > 1 {
      MarksOfMarks(n - 1);
      assert Marks(n)[1..] == [W(Kw(LIST_COMMA))] + Marks(n - 1);
      assert Marks(n)[1..][1..] == Marks(n - 1);
    }
  }

  lemma MarksOfPurpose(d: Dialect, versioned: bool)
    ensures MarksIn([Mark, W(EscapeWord(d))] + AndGiven(P, VERSION, versioned)) == if versioned then 2 else 1
  {
    var like, rest := [Mark, W(EscapeWord(d))], AndGiven(P, VERSION, versioned);
    MarksOfAndGiven(P, VERSION, versioned);
    MarksConcat(like, rest);
    assert like[1..] == [W(EscapeWord(d))];
    MarksFree([W(EscapeWord(d))]);
  }

  lemma MarksOfElement(named: bool, spaced: bool, versioned: bool)
    ensures MarksIn(AndGiven(E, NAME, named) + (AndGiven(E, NAMESPACE, spaced) + AndGiven(E, VERSION, versioned))) ==
            (if named then 1 else 0) + (if spaced then 1 else 0) + (if versioned then 1 else 0)
  {
    MarksOfAndGiven(E, NAME, named);
    MarksOfAndGiven(E, NAMESPACE, spaced);
    MarksOfAndGiven(E, VERSION, versioned);
    MarksConcat(AndGiven(E, NAMESPACE, spaced), AndGiven(E, VERSION, versioned));
    MarksConcat(AndGiven(E, NAME, named), AndGiven(E, NAMESPACE, spaced) + AndGiven(E, VERSION, versioned));
  }

  /** Every condition has as many placeholders as it takes arguments. */
  lemma MarksOfCondition(c: Cond)
    ensures MarksIn(Tokens(c)) == Arity(c)
  {
    match c
    case OrgIs => MarksOfGiven(CONSENT, ORG_ID, EQUALS);
    case In(column, n) =>
      MarksOfMarks(n);
      MarksOfSurround([W(ColumnWord(column)), W(Kw(IN_OPEN))], Marks(n));
    case RoleIs => MarksOfGiven(CAR, AUTH_TYPE, EQUALS);
    case SubjectUserIs => MarksOfGiven(CAR_DS, USER_ID, EQUALS);
    case SubjectTypeIs => MarksOfGiven(CAR_DS, AUTH_TYPE, EQUALS);
    case PurposeExists(d, versioned) =>
      MarksOfPurpose(d, versioned);
      MarksOfSurround(PurposeFrom() + PurposeWhere(), [Mark, W(EscapeWord(d))] + AndGiven(P, VERSION, versioned));
    case ElementExists(named, spaced, versioned) =>
      MarksOfElement(named, spaced, versioned);
      MarksOfSurround(ElementFrom() + (ElementJoin() + ElementWhere()),
                      AndGiven(E, NAME, named) + (AndGiven(E, NAMESPACE, spaced) + AndGiven(E, VERSION, versioned)));
    case UpdatedFrom => MarksOfGiven(CONSENT, UPDATED_TIME, AT_LEAST);
    case UpdatedTo => MarksOfGiven(CONSENT, UPDATED_TIME, AT_MOST);
  }

  // ---- The conditions of a filter ----

  function Strs(values: seq<string>): seq<Value> {
    seq(|values|, i requires 0 <= i < |values| => Str(values[i]))
  }

  function InList(column: Column, values: seq<string>): seq<Bound> {
    if values == [] then [] else [Bound(In(column, |values|), Strs(values))]
  }

  function Uppercase(values: seq<string>): seq<string> {
    seq(|values|, i requires 0 <= i < |values| => ToUpper(values[i]))
  }

  function RoleOf(delegation: bool): string {
    if delegation then DELEGATE else PRIMARY
  }

  function NumIf(n: Option<int>): seq<Value> {
    if n.Some? then [Num(n.value)] else []
  }

  function StrIf(s: string): seq<Value> {
    if s != "" then [Str(s)] else []
  }

  predicate NeedsAuthJoin(f: Filter) {
    f.users != [] || f.delegation.Some? || f.authTypes != []
  }

  predicate NeedsElement(f: Filter) {
    f.elementName != "" || f.elementNamespace != "" || f.elementVersion.Some?
  }

  function RoleConditions(f: Filter): seq<Bound> {
    if f.delegation.Some? then [Bound(RoleIs, [Str(RoleOf(f.delegation.value))])] else []
  }

  function AuthConditions(f: Filter): seq<Bound> {
    InList(UserColumn, f.users) + RoleConditions(f) + InList(AuthTypeColumn, f.authTypes)
  }

  function SubjectConditions(f: Filter): seq<Bound> {
    if f.delegateSubject != ""
    then [Bound(SubjectUserIs, [Str(f.delegateSubject)]), Bound(SubjectTypeIs, [Str(DELEGATE_SUBJECT)])]
    else []
  }

  function PurposeConditions(d: Dialect, f: Filter): seq<Bound> {
    if f.purposeName != ""
    then [Bound(PurposeExists(d, f.purposeVersion.Some?),
                [Str(LikePattern(d, f.purposeName))] + NumIf(f.purposeVersion))]
    else []
  }

  function ElementConditions(f: Filter): seq<Bound> {
    if NeedsElement(f)
    then [Bound(ElementExists(f.elementName != "", f.elementNamespace != "", f.elementVersion.Some?),
                StrIf(f.elementName) + (StrIf(f.elementNamespace) + NumIf(f.elementVersion)))]
    else []
  }

  function TimeConditions(f: Filter): seq<Bound> {
    (if f.fromTime.Some? then [Bound(UpdatedFrom, [Num(f.fromTime.value)])] else []) +
    (if f.toTime.Some? then [Bound(UpdatedTo, [Num(f.toTime.value)])] else [])
  }

  function RowConditions(f: Filter): seq<Bound> {
    [Bound(OrgIs, [Str(f.org)])] + InList(IdColumn, f.consentIds) + InList(TypeColumn, f.consentTypes) +
    InList(StatusColumn, Uppercase(f.statuses)) + InList(GroupColumn, f.groups)
  }

  function Conditions(d: Dialect, f: Filter): seq<Bound> {
    RowConditions(f) + AuthConditions(f) + SubjectConditions(f) + PurposeConditions(d, f) + ElementConditions(f) +
      TimeConditions(f)
  }

  predicate WellBound(bs: seq<Bound>) {
    forall i :: 0 <= i < |bs| ==> |bs[i].args| == Arity(bs[i].cond)
  }

  lemma WellBoundConcat(a: seq<Bound>, b: seq<Bound>)
    requires WellBound(a) && WellBound(b)
    ensures WellBound(a + b)
  {
  }

  lemma AuthWellBound(f: Filter)
    ensures WellBound(AuthConditions(f)) && WellBound(SubjectConditions(f))
  {
  }

  lemma ExistsWellBound(d: Dialect, f: Filter)
    ensures WellBound(PurposeConditions(d, f)) && WellBound(ElementConditions(f)) && WellBound(TimeConditions(f))
  {
  }

  lemma RowWellBound(f: Filter)
    ensures WellBound(RowConditions(f))
  {
    var org := [Bound(OrgIs, [Str(f.org)])];
    FiveWellBound(org, InList(IdColumn, f.consentIds), InList(TypeColumn, f.consentTypes),
                  InList(StatusColumn, Uppercase(f.statuses)),
                  InList(GroupColumn, f.groups));
  }

  lemma FiveWellBound(a: seq<Bound>, b: seq<Bound>, c: seq<Bound>, d: seq<Bound>, e: seq<Bound>)
    requires WellBound(a) && WellBound(b) && WellBound(c) && WellBound(d) && WellBound(e)
    ensures WellBound(a + b + c + d + e)
  {
    WellBoundConcat(a, b);
    WellBoundConcat(a + b, c);
    WellBoundConcat(a + b + c, d);
    WellBoundConcat(a + b + c + d, e);
  }

  lemma ConditionsWellBound(d: Dialect, f: Filter)
    ensures WellBound(Conditions(d, f))
  {
    RowWellBound(f);
    AuthWellBound(f);
    ExistsWellBound(d, f);
    FiveWellBound(RowConditions(f), AuthConditions(f), SubjectConditions(f), PurposeConditions(d, f),
                  ElementConditions(f));
    WellBoundConcat(RowConditions(f) + AuthConditions(f) + SubjectConditions(f) + PurposeConditions(d, f) +
                    ElementConditions(f),
                    TimeConditions(f));
  }

  function Texts(bs: seq<Bound>): seq<string> {
    Map((b: Bound) => Text(b.cond), bs)
  }

  function Args(bs: seq<Bound>): seq<Value> {
    if bs == [] then [] else bs[0].args + Args(bs[1..])
  }

  lemma {:induction false} ArgsConcat(a: seq<Bound>, b: seq<Bound>)
    ensures Args(a + b) == Args(a) + Args(b)
    decreases |a|
  {
    if a == [] {
      assert a + b == b;
    } else {
      assert (a + b)[1..] == a[1..] + b;
      ArgsConcat(a[1..], b);
    }
  }

  function AuthJoin(alias: Alias): (r: seq<Sql>)
    ensures Mark !in r
  {
    [W(Kw(INNER_JOIN)), W(Kw(AUTH_RESOURCE)), W(Kw(SPACE)), W(Table(alias)), W(Kw(ON))] +
    (Same(CONSENT, CONSENT_ID, alias, CONSENT_ID) + And(Same(CONSENT, ORG_ID, alias, ORG_ID)))
  }

  function Joins(f: Filter): (r: seq<Sql>)
    ensures Mark !in r
  {
    (if NeedsAuthJoin(f) then AuthJoin(CAR) else []) + (if f.delegateSubject != "" then AuthJoin(CAR_DS) else [])
  }

  // ---- Building it ----

  /** The clauses built so far. */
  datatype Builder = Builder(joins: seq<Sql>, whereConditions: seq<string>, args: seq<Value>, countArgs: seq<Value>)

  /** A builder holds the text and, twice, the arguments of these conditions. */
  ghost predicate Holds(b: Builder, bs: seq<Bound>) {
    b.whereConditions == Texts(bs) && b.args == Args(bs) && b.countArgs == b.args
  }

  lemma HoldsMore(b: Builder, bs: seq<Bound>, more: seq<Bound>)
    requires Holds(b, bs)
    ensures Holds(b.(whereConditions := b.whereConditions + Texts(more), args := b.args + Args(more),
                     countArgs := b.countArgs + Args(more)), bs + more)
  {
    ArgsConcat(bs, more);
    MapConcat((b: Bound) => Text(b.cond), bs, more);
  }

  method AddBound(b: Builder, condition: string, args: seq<Value>, ghost bs: seq<Bound>, ghost bound: Bound)
    returns (b': Builder)
    requires Holds(b, bs) && condition == Text(bound.cond) && args == bound.args
    ensures Holds(b', bs + [bound]) && b'.joins == b.joins
  {
    HoldsMore(b, bs, [bound]);
    assert [bound][1..] == [] && Args([bound]) == bound.args + [] == bound.args && Texts([bound]) == [Text(bound.cond)];
    b' := b.(whereConditions := b.whereConditions + [condition], args := b.args + args,
             countArgs := b.countArgs + args);
  }

  /** One IN condition, its arguments appended one by one. */
  method AddIn(b: Builder, column: Column, values: seq<string>, ghost bs: seq<Bound>) returns (b': Builder)
    requires Holds(b, bs)
    ensures Holds(b', bs + InList(column, values)) && b'.joins == b.joins
  {
    if values == [] {
      assert bs + [] == bs;
      return b;
    }
    var args: seq<Value> := [];
    for i := 0 to |values|
      invariant args == Strs(values)[..i]
    {
      args := args + [Str(values[i])];
    }
    b' := AddBound(b, Text(In(column, |values|)), args, bs, Bound(In(column, |values|), Strs(values)));
  }

  method AddRowConditions(f: Filter) returns (b: Builder)
    ensures Holds(b, RowConditions(f)) && b.joins == []
  {
    b := Builder([], [Text(OrgIs)], [Str(f.org)], [Str(f.org)]);
    ghost var bs := [Bound(OrgIs, [Str(f.org)])];
    assert bs[1..] == [] && Args(bs) == bs[0].args + [] == bs[0].args;
    b := AddIn(b, IdColumn, f.consentIds, bs);
    bs := bs + InList(IdColumn, f.consentIds);
    b := AddIn(b, TypeColumn, f.consentTypes, bs);
    bs := bs + InList(TypeColumn, f.consentTypes);
    b := AddIn(b, StatusColumn, Uppercase(f.statuses), bs);
    bs := bs + InList(StatusColumn, Uppercase(f.statuses));
    b := AddIn(b, GroupColumn, f.groups, bs);
    bs := bs + InList(GroupColumn, f.groups);
    assert bs == RowConditions(f);
  }

  method AddAuthConditions(b0: Builder, f: Filter, ghost bs0: seq<Bound>) returns (b: Builder)
    requires Holds(b0, bs0)
    ensures Holds(b, bs0 + AuthConditions(f))
    ensures b.joins == b0.joins + (if NeedsAuthJoin(f) then AuthJoin(CAR) else [])
  {
    b := b0;
    ghost var bs := bs0;
    if NeedsAuthJoin(f) {
      b := b.(joins := b.joins + AuthJoin(CAR));
      b := AddIn(b, UserColumn, f.users, bs);
      bs := bs + InList(UserColumn, f.users);
      if f.delegation.Some? {
        b := AddBound(b, Text(RoleIs), [Str(RoleOf(f.delegation.value))], bs,
                      Bound(RoleIs, [Str(RoleOf(f.delegation.value))]));
        bs := bs + [Bound(RoleIs, [Str(RoleOf(f.delegation.value))])];
      }
      b := AddIn(b, AuthTypeColumn, f.authTypes, bs);
      bs := bs + InList(AuthTypeColumn, f.authTypes);
    }
    assert bs == bs0 + AuthConditions(f);
  }

  method AddSubjectConditions(b0: Builder, f: Filter, ghost bs0: seq<Bound>) returns (b: Builder)
    requires Holds(b0, bs0)
    ensures Holds(b, bs0 + SubjectConditions(f))
    ensures b.joins == b0.joins + (if f.delegateSubject != "" then AuthJoin(CAR_DS) else [])
  {
    b := b0;
    ghost var bs := bs0;
    if f.delegateSubject != "" {
      b := b.(joins := b.joins + AuthJoin(CAR_DS));
      b := AddBound(b, Text(SubjectUserIs), [Str(f.delegateSubject)], bs, SubjectConditions(f)[0]);
      bs := bs + [SubjectConditions(f)[0]];
      b := AddBound(b, Text(SubjectTypeIs), [Str(DELEGATE_SUBJECT)], bs, SubjectConditions(f)[1]);
      bs := bs + [SubjectConditions(f)[1]];
    }
    assert bs == bs0 + SubjectConditions(f);
  }

  method AddPurposeConditions(b: Builder, d: Dialect, f: Filter, ghost bs: seq<Bound>) returns (b': Builder)
    requires Holds(b, bs)
    ensures Holds(b', bs + PurposeConditions(d, f)) && b'.joins == b.joins
  {
    if f.purposeName == "" {
      assert bs + [] == bs;
      return b;
    }
    var purposeArgs := [Str(LikePattern(d, f.purposeName))];
    if f.purposeVersion.Some? {
      purposeArgs := purposeArgs + [Num(f.purposeVersion.value)];
    }
    b' := AddBound(b, Text(PurposeExists(d, f.purposeVersion.Some?)), purposeArgs, bs, PurposeConditions(d, f)[0]);
  }

  method AddElementConditions(b: Builder, f: Filter, ghost bs: seq<Bound>) returns (b': Builder)
    requires Holds(b, bs)
    ensures Holds(b', bs + ElementConditions(f)) && b'.joins == b.joins
  {
    if !NeedsElement(f) {
      assert bs + [] == bs;
      return b;
    }
    var elemArgs: seq<Value> := [];
    if f.elementName != "" {
      elemArgs := elemArgs + [Str(f.elementName)];
    }
    if f.elementNamespace != "" {
      elemArgs := elemArgs + [Str(f.elementNamespace)];
    }
    if f.elementVersion.Some? {
      elemArgs := elemArgs + [Num(f.elementVersion.value)];
    }
    var cond := ElementExists(f.elementName != "", f.elementNamespace != "", f.elementVersion.Some?);
    b' := AddBound(b, Text(cond), elemArgs, bs, ElementConditions(f)[0]);
  }

  method AddTimeConditions(b0: Builder, f: Filter, ghost bs0: seq<Bound>) returns (b: Builder)
    requires Holds(b0, bs0)
    ensures Holds(b, bs0 + TimeConditions(f)) && b.joins == b0.joins
  {
    b := b0;
    ghost var bs := bs0;
    if f.fromTime.Some? {
      b := AddBound(b, Text(UpdatedFrom), [Num(f.fromTime.value)], bs, Bound(UpdatedFrom, [Num(f.fromTime.value)]));
      bs := bs + [Bound(UpdatedFrom, [Num(f.fromTime.value)])];
    }
    if f.toTime.Some? {
      b := AddBound(b, Text(UpdatedTo), [Num(f.toTime.value)], bs, Bound(UpdatedTo, [Num(f.toTime.value)]));
      bs := bs + [Bound(UpdatedTo, [Num(f.toTime.value)])];
    }
    assert bs == bs0 + TimeConditions(f);
  }

  method AddJoinConditions(b0: Builder, f: Filter, ghost bs0: seq<Bound>) returns (b: Builder)
    requires Holds(b0, bs0) && b0.joins == []
    ensures Holds(b, bs0 + AuthConditions(f) + SubjectConditions(f)) && b.joins == Joins(f)
  {
    b := AddAuthConditions(b0, f, bs0);
    b := AddSubjectConditions(b, f, bs0 + AuthConditions(f));
  }

  method AddExistsConditions(b0: Builder, d: Dialect, f: Filter, ghost bs0: seq<Bound>) returns (b: Builder)
    requires Holds(b0, bs0)
    ensures Holds(b, bs0 + PurposeConditions(d, f) + ElementConditions(f) + TimeConditions(f)) && b.joins == b0.joins
  {
    b := AddPurposeConditions(b0, d, f, bs0);
    b := AddElementConditions(b, f, bs0 + PurposeConditions(d, f));
    b := AddTimeConditions(b, f, bs0 + PurposeConditions(d, f) + ElementConditions(f));
  }

  /** The first part of Search: conditions and arguments for every filter combination. */
  method BuildSearch(d: Dialect, f: Filter) returns (b: Builder)
    ensures Holds(b, Conditions(d, f)) && b.joins == Joins(f)
  {
    b := AddRowConditions(f);
    b := AddJoinConditions(b, f, RowConditions(f));
    b := AddExistsConditions(b, d, f, RowConditions(f) + AuthConditions(f) + SubjectConditions(f));
  }

  // ---- Alignment ----

  /** Token lists joined by AND. */
  function JoinAnd(parts: seq<seq<Sql>>): seq<Sql> {
    if parts == [] then [] else if |parts| == 1 then parts[0] else parts[0] + ([W(Kw(AND))] + JoinAnd(parts[1..]))
  }

  function Parts(bs: seq<Bound>): seq<seq<Sql>> {
    Map((b: Bound) => Tokens(b.cond), bs)
  }

  function Where(bs: seq<Bound>): seq<Sql> {
    JoinAnd(Parts(bs))
  }

  /** strings.Join(whereConditions, " AND ") */
  function Joined(texts: seq<string>): string {
    if texts == [] then ""
    else if |texts| == 1 then texts[0]
    else texts[0] + (KeywordText(AND) + Joined(texts[1..]))
  }

  /** The joined texts of the parts are the text of the joined parts. */
  lemma {:induction false} JoinedIsRendered(parts: seq<seq<Sql>>)
    ensures Joined(Map((p: seq<Sql>) => Render(p), parts)) == Render(JoinAnd(parts))
    decreases |parts|
  {
    var texts := Map((p: seq<Sql>) => Render(p), parts);
    if |parts| > 1 {
      assert texts[1..] == Map((p: seq<Sql>) => Render(p), parts[1..]);
      JoinedIsRendered(parts[1..]);
      var rest := JoinAnd(parts[1..]);
      RenderConcat([W(Kw(AND))], rest);
      assert [W(Kw(AND))][1..] == [] && Render([W(Kw(AND))]) == KeywordText(AND) + "" == KeywordText(AND);
      RenderConcat(parts[0], [W(Kw(AND))] + rest);
    }
  }

  lemma WhereIsJoined(bs: seq<Bound>)
    ensures Joined(Texts(bs)) == Render(Where(bs))
  {
    JoinedIsRendered(Parts(bs));
    assert Texts(bs) == Map((p: seq<Sql>) => Render(p), Parts(bs));
  }

  function MarksInAll(parts: seq<seq<Sql>>): nat {
    if parts == [] then 0 else MarksIn(parts[0]) + MarksInAll(parts[1..])
  }

  lemma LeadingMarks(first: seq<Sql>, rest: seq<Sql>)
    ensures MarksIn(first + ([W(Kw(AND))] + rest)) == MarksIn(first) + MarksIn(rest)
  {
    assert ([W(Kw(AND))] + rest)[1..] == rest;
    MarksConcat(first, [W(Kw(AND))] + rest);
  }

  lemma {:induction false} MarksOfJoin(parts: seq<seq<Sql>>)
    ensures MarksIn(JoinAnd(parts)) == MarksInAll(parts)
    decreases |parts|
  {
    if |parts| == 1 {
      assert parts[1..] == [];
    } else if |parts| > 1 {
      MarksOfJoin(parts[1..]);
      LeadingMarks(parts[0], JoinAnd(parts[1..]));
    }
  }

  lemma {:induction false} MarksOfParts(bs: seq<Bound>)
    requires WellBound(bs)
    ensures MarksInAll(Parts(bs)) == |Args(bs)|
    decreases |bs|
  {
    if bs != [] {
      assert Parts(bs)[1..] == Parts(bs[1..]);
      MarksOfCondition(bs[0].cond);
      MarksOfParts(bs[1..]);
    }
  }

  lemma MarksOfWhere(bs: seq<Bound>)
    requires WellBound(bs)
    ensures MarksIn(Where(bs)) == |Args(bs)|
  {
    MarksOfJoin(Parts(bs));
    MarksOfParts(bs);
  }

  lemma Regroup(first: seq<Sql>, before: seq<Sql>, part: seq<Sql>, after: seq<Sql>)
    ensures first + ([W(Kw(AND))] + (before + part + after)) == first + ([W(Kw(AND))] + before) + part + after
  {
  }

  /** Where the i-th part stands, and how many placeholders come before it. */
  lemma {:induction false} PartStands(parts: seq<seq<Sql>>, i: nat) returns (before: seq<Sql>, after: seq<Sql>)
    requires i < |parts|
    ensures JoinAnd(parts) == before + parts[i] + after
    ensures MarksIn(before) == MarksInAll(parts[..i])
    decreases |parts|
  {
    if |parts| == 1 {
      return [], [];
    }
    if i == 0 {
      before, after := [], [W(Kw(AND))] + JoinAnd(parts[1..]);
      assert before + parts[0] == parts[0];
    } else {
      before, after := PartStands(parts[1..], i - 1);
      LeadingMarks(parts[0], before);
      assert parts[..i][1..] == parts[1..][..i - 1];
      Regroup(parts[0], before, parts[i], after);
      before := parts[0] + ([W(Kw(AND))] + before);
    }
  }

  lemma {:induction false} ArgsOf(bs: seq<Bound>, i: nat)
    requires i < |bs|
    ensures |Args(bs[..i])| + |bs[i].args| <= |Args(bs)|
    ensures Args(bs)[|Args(bs[..i])|..|Args(bs[..i])| + |bs[i].args|] == bs[i].args
  {
    assert bs == bs[..i] + ([bs[i]] + bs[i + 1..]);
    ArgsConcat(bs[..i], [bs[i]] + bs[i + 1..]);
    assert ([bs[i]] + bs[i + 1..])[1..] == bs[i + 1..];
  }

  /** Where a condition stands in the joined text, and which arguments are its own. */
  ghost predicate Aligned(bs: seq<Bound>, i: nat, before: string, after: string)
    requires i < |bs|
  {
    var k := |Args(bs[..i])|;
    && Joined(Texts(bs)) == before + Text(bs[i].cond) + after
    && Holes(before) == k && Holes(Text(bs[i].cond)) == |bs[i].args|
    && k + |bs[i].args| <= |Args(bs)| && Args(bs)[k..k + |bs[i].args|] == bs[i].args
  }

  lemma BoundAligned(bs: seq<Bound>, i: nat) returns (before: string, after: string)
    requires WellBound(bs) && i < |bs|
    ensures Aligned(bs, i, before, after)
  {
    var tokens := Tokens(bs[i].cond);
    var front, back := PartStands(Parts(bs), i);
    assert Parts(bs)[i] == tokens && Parts(bs)[..i] == Parts(bs[..i]);
    MarksOfParts(bs[..i]);
    WhereIsJoined(bs);
    RenderConcat(front, tokens);
    RenderConcat(front + tokens, back);
    before, after := Render(front), Render(back);
    RenderFits(front);
    RenderFits(tokens);
    MarksOfCondition(bs[i].cond);
    ArgsOf(bs, i);
  }

  /** The k-th placeholder belongs to the condition that contributed the k-th argument: in front of any
      condition the text holds exactly as many placeholders as the conditions before it contributed
      arguments, and the condition's own arguments come next. */
  lemma PlaceholdersAligned(d: Dialect, f: Filter, i: nat) returns (before: string, after: string)
    requires i < |Conditions(d, f)|
    ensures Aligned(Conditions(d, f), i, before, after)
  {
    ConditionsWellBound(d, f);
    before, after := BoundAligned(Conditions(d, f), i);
  }

  // ---- The two statements ----

  function Columns(): (r: seq<Sql>)
    ensures Mark !in r
  {
    [W(Field(CONSENT, CONSENT_ID)), W(Kw(COMMA)), W(Field(CONSENT, CREATED_TIME)), W(Kw(COMMA)),
     W(Field(CONSENT, UPDATED_TIME)), W(Kw(COMMA)), W(Field(CONSENT, GROUP_ID)), W(Kw(COMMA)),
     W(Field(CONSENT, CONSENT_TYPE)), W(Kw(COMMA)), W(Field(CONSENT, CURRENT_STATUS)), W(Kw(COMMA))] +
    [W(Field(CONSENT, CONSENT_FREQUENCY)), W(Kw(COMMA)), W(Field(CONSENT, EXPIRATION_TIME)), W(Kw(COMMA)),
     W(Field(CONSENT, RECURRING_INDICATOR)), W(Kw(COMMA)), W(Field(CONSENT, VALIDITY_DURATION)), W(Kw(COMMA)),
     W(Field(CONSENT, ORG_ID))]
  }

  function CountHead(f: Filter): (r: seq<Sql>)
    ensures Mark !in r
  {
    [W(Kw(COUNT)), W(Field(CONSENT, CONSENT_ID)), W(Kw(AS_COUNT))] + (Joins(f) + [W(Kw(WHERE))])
  }

  function DataHead(f: Filter): (r: seq<Sql>)
    ensures Mark !in r
  {
    [W(Kw(SELECT))] + (Columns() + ([W(Kw(FROM_DISTINCT))] +
                                    (Columns() + ([W(Kw(FROM_CONSENT))] + (Joins(f) + [W(Kw(WHERE))])))))
  }

  function Paging(): seq<Sql> {
    [W(Kw(LIMIT)), Mark, W(Kw(OFFSET)), Mark]
  }

  function Order(orderBy: seq<Sql>): (r: seq<Sql>)
    ensures Mark !in orderBy ==> Mark !in r
  {
    [W(Kw(ORDER_BY))] + orderBy
  }

  function CountTokens(d: Dialect, f: Filter): seq<Sql> {
    CountHead(f) + Where(Conditions(d, f))
  }

  function DataTokens(d: Dialect, f: Filter, orderBy: seq<Sql>): seq<Sql> {
    DataHead(f) + (Where(Conditions(d, f)) + (Order(orderBy) + Paging()))
  }

  lemma MarksOfPaging()
    ensures MarksIn(Paging()) == 2
  {
    assert Paging()[1..] == [Mark, W(Kw(OFFSET)), Mark] && Paging()[1..][1..] == [W(Kw(OFFSET)), Mark];
    assert [W(Kw(OFFSET)), Mark][1..] == [Mark] && [Mark][1..] == [];
  }

  lemma MarksAround(head: seq<Sql>, body: seq<Sql>, order: seq<Sql>, tail: seq<Sql>)
    requires Mark !in head && Mark !in order
    ensures MarksIn(head + body) == MarksIn(body)
    ensures MarksIn(head + (body + (order + tail))) == MarksIn(body) + MarksIn(tail)
  {
    MarksFree(head);
    MarksFree(order);
    MarksConcat(head, body);
    MarksConcat(order, tail);
    MarksConcat(body, order + tail);
    MarksConcat(head, body + (order + tail));
  }

  lemma MarksOfStatements(d: Dialect, f: Filter, orderBy: seq<Sql>)
    requires Mark !in orderBy
    ensures MarksIn(CountTokens(d, f)) == |Args(Conditions(d, f))|
    ensures MarksIn(DataTokens(d, f, orderBy)) == |Args(Conditions(d, f))| + 2
  {
    ConditionsWellBound(d, f);
    MarksOfWhere(Conditions(d, f));
    MarksOfPaging();
    MarksAround(CountHead(f), Where(Conditions(d, f)), [], []);
    MarksAround(DataHead(f), Where(Conditions(d, f)), Order(orderBy), Paging());
  }

  /** Both search statements have as many placeholders as they are given arguments, the count query the
      filter's and the data query two more; rewritten for Postgres they are read with the same
      arguments in the same places. */
  lemma SearchBindsAlike(d: Dialect, f: Filter, orderBy: seq<Sql>)
    requires Mark !in orderBy
    ensures var sql := Render(CountTokens(d, f));
            Holes(sql) == |Args(Conditions(d, f))| && ReadNumbered(Numbered(sql, 1)) == ReadPositional(sql, 1)
    ensures var sql := Render(DataTokens(d, f, orderBy));
            Holes(sql) == |Args(Conditions(d, f))| + 2 && ReadNumbered(Numbered(sql, 1)) == ReadPositional(sql, 1)
  {
    MarksOfStatements(d, f, orderBy);
    TokensBindAlike(CountTokens(d, f));
    TokensBindAlike(DataTokens(d, f, orderBy));
  }
}
