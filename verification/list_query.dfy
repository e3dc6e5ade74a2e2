/** The list statements of the purpose and element stores: one version number of everything, or the latest
    version of each, with filters. */
module ListQuery {
  import opened Wrappers
  import opened Sequences
  import opened Like
  import opened Placeholders
  import opened SqlText
  import opened SearchQuery

  datatype Subject = Purposes | Elements

  /** The filters of both lists; a list of elements has no groups and no element filter, a list of purposes
      no namespace and no type of its own. */
  datatype ListFilter = ListFilter(
    org: string, version: Option<int>, groups: seq<string>, name: string, namespace: string, elementType: string,
    elementName: string, elementNamespace: string, elementVersion: Option<int>)

  datatype ListCond =
    | VersionIs
    | GroupIn(n: nat)
    | NameLike(dialect: Dialect)
    | NamespaceIs
    | TypeIs
    | MapsElement(named: bool, spaced: bool, versioned: bool)

  datatype ListBound = ListBound(cond: ListCond, args: seq<Value>)

  // ---- Text ----

  function AliasOf(s: Subject): Alias {
    if s == Purposes then P else E
  }

  function TableOf(s: Subject): Keyword {
    if s == Purposes then PURPOSE else ELEMENT
  }

  function ColumnNames(s: Subject): seq<Name> {
    if s == Purposes
    then [VERSION_ID, ID, NAME, GROUP_ID, VERSION, DISPLAY_NAME, DESCRIPTION, CREATED_TIME, ORG_ID]
    else [VERSION_ID, ID, NAME, NAMESPACE, TYPE, VERSION, DISPLAY_NAME, DESCRIPTION, ELEMENT_SCHEMA, CREATED_TIME,
          ORG_ID]
  }

  function ColumnList(names: seq<Name>, qualified: Option<Alias>): (r: seq<Sql>)
    ensures Mark !in r
  {
    if names == [] then []
    else
      var first := if qualified.Some? then W(Field(qualified.value, names[0])) else W(Bare(names[0]));
      if |names| == 1 then [first] else [first, W(Kw(COMMA))] + ColumnList(names[1..], qualified)
  }

  /** SELECT ... FROM table alias */
  function SelectFrom(s: Subject, qualified: Option<Alias>): (r: seq<Sql>)
    ensures Mark !in r
  {
    [W(Kw(SELECT))] + (ColumnList(ColumnNames(s), qualified) +
      [W(Kw(FROM)), W(Kw(TableOf(s))), W(Kw(SPACE)), W(Table(AliasOf(s)))])
  }

  function OrgIsAsked(s: Subject): seq<Sql> {
    [W(Kw(WHERE))] + Given(AliasOf(s), ORG_ID, EQUALS)
  }

  /** The greatest version of each identifier in the organization. */
  function LatestOnly(s: Subject): seq<Sql> {
    [W(Kw(MAX_OF)), W(Kw(TableOf(s))), W(Kw(WHERE)), W(Bare(ORG_ID)), W(Kw(EQUALS)), Mark]
  }

  function OnLatest(s: Subject): (r: seq<Sql>)
    ensures Mark !in r
  {
    [W(Kw(GROUP_BY_ID))] + (Same(AliasOf(s), ID, LATEST, ID) + And(Same(AliasOf(s), VERSION, LATEST, MAX_VERSION)))
  }

  function Head(s: Subject, f: ListFilter): seq<Sql> {
    if f.version.Some? then SelectFrom(s, None) + OrgIsAsked(s)
    else SelectFrom(s, Some(AliasOf(s))) + (LatestOnly(s) + (OnLatest(s) + OrgIsAsked(s)))
  }

  function HeadArgs(f: ListFilter): seq<Value> {
    if f.version.Some? then [Str(f.org)] else [Str(f.org), Str(f.org)]
  }

  function MappedFrom(): (r: seq<Sql>)
    ensures Mark !in r
  {
    [W(Kw(SPACE)), W(Kw(EXISTS)), W(Kw(MAPPING)), W(Kw(SPACE)), W(Table(M)),
     W(Kw(JOIN)), W(Kw(ELEMENT)), W(Kw(SPACE)), W(Table(E)), W(Kw(ON))] +
    (Same(M, ELEMENT_VERSION_ID, E, VERSION_ID) + ([W(Kw(WHERE))] +
      (Same(M, PURPOSE_VERSION_ID, P, VERSION_ID) + And(Same(M, ORG_ID, P, ORG_ID)))))
  }

  function ClauseTokens(s: Subject, c: ListCond): seq<Sql> {
    match c
    case VersionIs => Given(AliasOf(s), VERSION, EQUALS)
    case GroupIn(n) => Surround([W(Field(P, GROUP_ID)), W(Kw(IN_OPEN))], Marks(n))
    case NameLike(d) => [W(Field(AliasOf(s), NAME)), W(Kw(LIKE))] + [Mark, W(EscapeWord(d))]
    case NamespaceIs => Given(E, NAMESPACE, EQUALS)
    case TypeIs => Given(E, TYPE, EQUALS)
    case MapsElement(named, spaced, versioned) =>
      Surround(MappedFrom(), AndGiven(E, NAME, named) +
               (AndGiven(E, NAMESPACE, spaced) + AndGiven(E, VERSION, versioned)))
  }

  function ClauseArity(c: ListCond): nat {
    match c
    case GroupIn(n) => n
    case MapsElement(named, spaced, versioned) =>
      (if named then 1 else 0) + (if spaced then 1 else 0) + (if versioned then 1 else 0)
    case _ => 1
  }

  lemma MarksOfLike(a: Alias, d: Dialect)
    ensures MarksIn([W(Field(a, NAME)), W(Kw(LIKE))] + [Mark, W(EscapeWord(d))]) == 1
  {
    MarksConcat([W(Field(a, NAME)), W(Kw(LIKE))], [Mark, W(EscapeWord(d))]);
    MarksFree([W(Field(a, NAME)), W(Kw(LIKE))]);
    assert [Mark, W(EscapeWord(d))][1..] == [W(EscapeWord(d))];
    MarksFree([W(EscapeWord(d))]);
  }

  /** Every clause has as many placeholders as it takes arguments. */
  lemma MarksOfClause(s: Subject, c: ListCond)
    ensures MarksIn(ClauseTokens(s, c)) == ClauseArity(c)
  {
    match c
    case VersionIs => MarksOfGiven(AliasOf(s), VERSION, EQUALS);
    case GroupIn(n) =>
      MarksOfMarks(n);
      MarksOfSurround([W(Field(P, GROUP_ID)), W(Kw(IN_OPEN))], Marks(n));
    case NameLike(d) => MarksOfLike(AliasOf(s), d);
    case NamespaceIs => MarksOfGiven(E, NAMESPACE, EQUALS);
    case TypeIs => MarksOfGiven(E, TYPE, EQUALS);
    case MapsElement(named, spaced, versioned) =>
      MarksOfElement(named, spaced, versioned);
      MarksOfSurround(MappedFrom(), AndGiven(E, NAME, named) +
                      (AndGiven(E, NAMESPACE, spaced) + AndGiven(E, VERSION, versioned)));
  }

  lemma MarksOfOrg(s: Subject)
    ensures MarksIn(OrgIsAsked(s)) == 1
  {
    MarksOfGiven(AliasOf(s), ORG_ID, EQUALS);
    assert OrgIsAsked(s)[1..] == Given(AliasOf(s), ORG_ID, EQUALS);
  }

  lemma MarksOfLatest(s: Subject)
    ensures MarksIn(LatestOnly(s)) == 1
  {
    var lead := [W(Kw(MAX_OF)), W(Kw(TableOf(s))), W(Kw(WHERE)), W(Bare(ORG_ID)), W(Kw(EQUALS))];
    assert LatestOnly(s) == lead + [Mark] && [Mark][1..] == [];
    MarksFree(lead);
    MarksConcat(lead, [Mark]);
  }

  lemma MarksOfHead(s: Subject, f: ListFilter)
    ensures MarksIn(Head(s, f)) == |HeadArgs(f)|
  {
    MarksOfOrg(s);
    if f.version.Some? {
      MarksFree(SelectFrom(s, None));
      MarksConcat(SelectFrom(s, None), OrgIsAsked(s));
    } else {
      MarksOfLatest(s);
      FourParts(SelectFrom(s, Some(AliasOf(s))), LatestOnly(s), OnLatest(s), OrgIsAsked(s));
    }
  }

  lemma FourParts(a: seq<Sql>, b: seq<Sql>, c: seq<Sql>, d: seq<Sql>)
    requires Mark !in a && Mark !in c
    ensures MarksIn(a + (b + (c + d))) == MarksIn(b) + MarksIn(d)
  {
    MarksFree(a);
    MarksFree(c);
    MarksConcat(c, d);
    MarksConcat(b, c + d);
    MarksConcat(a, b + (c + d));
  }

  // ---- The clauses of a filter ----

  function VersionClause(f: ListFilter): seq<ListBound> {
    if f.version.Some? then [ListBound(VersionIs, [Num(f.version.value)])] else []
  }

  function GroupClause(f: ListFilter): seq<ListBound> {
    if f.groups != [] then [ListBound(GroupIn(|f.groups|), Strs(f.groups))] else []
  }

  function NameClause(d: Dialect, f: ListFilter): seq<ListBound> {
    if f.name != "" then [ListBound(NameLike(d), [Str(LikePattern(d, f.name))])] else []
  }

  function NamespaceClause(f: ListFilter): seq<ListBound> {
    if f.namespace != "" then [ListBound(NamespaceIs, [Str(f.namespace)])] else []
  }

  function TypeClause(f: ListFilter): seq<ListBound> {
    if f.elementType != "" then [ListBound(TypeIs, [Str(f.elementType)])] else []
  }

  predicate NeedsMapping(f: ListFilter) {
    f.elementName != "" || f.elementNamespace != "" || f.elementVersion.Some?
  }

  function MappingClause(f: ListFilter): seq<ListBound> {
    if NeedsMapping(f)
    then [ListBound(MapsElement(f.elementName != "", f.elementNamespace != "", f.elementVersion.Some?),
                    StrIf(f.elementName) + (StrIf(f.elementNamespace) + NumIf(f.elementVersion)))]
    else []
  }

  function Clauses(s: Subject, d: Dialect, f: ListFilter): seq<ListBound> {
    if s == Purposes then VersionClause(f) + GroupClause(f) + NameClause(d, f) + MappingClause(f)
    else VersionClause(f) + NameClause(d, f) + NamespaceClause(f) + TypeClause(f)
  }

  predicate ClausesBound(bs: seq<ListBound>) {
    forall i :: 0 <= i < |bs| ==> |bs[i].args| == ClauseArity(bs[i].cond)
  }

  lemma EachClauseBound(d: Dialect, f: ListFilter)
    ensures ClausesBound(VersionClause(f)) && ClausesBound(GroupClause(f)) && ClausesBound(NameClause(d, f))
    ensures ClausesBound(NamespaceClause(f)) && ClausesBound(TypeClause(f)) && ClausesBound(MappingClause(f))
  {
  }

  lemma FourBound(a: seq<ListBound>, b: seq<ListBound>, c: seq<ListBound>, d: seq<ListBound>)
    requires ClausesBound(a) && ClausesBound(b) && ClausesBound(c) && ClausesBound(d)
    ensures ClausesBound(a + b + c + d)
  {
  }

  lemma ClausesAreBound(s: Subject, d: Dialect, f: ListFilter)
    ensures ClausesBound(Clauses(s, d, f))
  {
    EachClauseBound(d, f);
    FourBound(VersionClause(f), GroupClause(f), NameClause(d, f), MappingClause(f));
    FourBound(VersionClause(f), NameClause(d, f), NamespaceClause(f), TypeClause(f));
  }

  function ClauseArgs(bs: seq<ListBound>): seq<Value> {
    if bs == [] then [] else ClauseArgs(bs[..|bs| - 1]) + bs[|bs| - 1].args
  }

  function ClauseParts(s: Subject, bs: seq<ListBound>): seq<seq<Sql>> {
    Map((b: ListBound) => ClauseTokens(s, b.cond), bs)
  }

  /** AND clause AND clause ... */
  function Filtered(s: Subject, bs: seq<ListBound>): seq<Sql> {
    if bs == [] then [] else [W(Kw(AND))] + JoinAnd(ClauseParts(s, bs))
  }

  function BaseTokens(s: Subject, d: Dialect, f: ListFilter): seq<Sql> {
    Head(s, f) + Filtered(s, Clauses(s, d, f))
  }

  function BaseArgs(s: Subject, d: Dialect, f: ListFilter): seq<Value> {
    HeadArgs(f) + ClauseArgs(Clauses(s, d, f))
  }

  // ---- Building it ----

  /** The clauses and arguments collected so far. */
  datatype ListBuilder = ListBuilder(whereClauses: seq<string>, baseArgs: seq<Value>)

  ghost predicate Collected(b: ListBuilder, s: Subject, f: ListFilter, bs: seq<ListBound>) {
    && b.whereClauses == Map((p: seq<Sql>) => Render(p), ClauseParts(s, bs))
    && b.baseArgs == HeadArgs(f) + ClauseArgs(bs)
  }

  method AddClause(b: ListBuilder, s: Subject, text: string, args: seq<Value>, ghost f: ListFilter,
                   ghost bs: seq<ListBound>,
                   ghost bound: ListBound)
    returns (b': ListBuilder)
    requires Collected(b, s, f, bs) && text == Render(ClauseTokens(s, bound.cond)) && args == bound.args
    ensures Collected(b', s, f, bs + [bound])
  {
    CollectedMore(s, bs, bound);
    ConcatAssociative(HeadArgs(f), ClauseArgs(bs), args);
    b' := ListBuilder(b.whereClauses + [text], b.baseArgs + args);
  }

  lemma CollectedMore(s: Subject, bs: seq<ListBound>, bound: ListBound)
    ensures ClauseParts(s, bs + [bound]) == ClauseParts(s, bs) + [ClauseTokens(s, bound.cond)]
    ensures Map((p: seq<Sql>) => Render(p), ClauseParts(s, bs + [bound])) ==
            Map((p: seq<Sql>) => Render(p), ClauseParts(s, bs)) + [Render(ClauseTokens(s, bound.cond))]
    ensures ClauseArgs(bs + [bound]) == ClauseArgs(bs) + bound.args
  {
    assert (bs + [bound])[..|bs|] == bs;
    MapConcat((b: ListBound) => ClauseTokens(s, b.cond), bs, [bound]);
    MapConcat((p: seq<Sql>) => Render(p), ClauseParts(s, bs), [ClauseTokens(s, bound.cond)]);
  }

  lemma NothingCollected(s: Subject, f: ListFilter)
    ensures Collected(ListBuilder([], HeadArgs(f)), s, f, [])
  {
    assert HeadArgs(f) + [] == HeadArgs(f);
  }

  method StartList(s: Subject, f: ListFilter) returns (b: ListBuilder)
    ensures Collected(b, s, f, VersionClause(f))
  {
    NothingCollected(s, f);
    if f.version.Some? {
      b := ListBuilder([], [Str(f.org)]);
      b := AddClause(b, s, Render(ClauseTokens(s, VersionIs)), [Num(f.version.value)], f, [], VersionClause(f)[0]);
      assert [] + [VersionClause(f)[0]] == VersionClause(f);
    } else {
      b := ListBuilder([], [Str(f.org), Str(f.org)]);
    }
  }

  method AddName(b: ListBuilder, s: Subject, d: Dialect, f: ListFilter, ghost bs: seq<ListBound>)
    returns (b': ListBuilder)
    requires Collected(b, s, f, bs)
    ensures Collected(b', s, f, bs + NameClause(d, f))
  {
    if f.name == "" {
      assert bs + [] == bs;
      return b;
    }
    b' := AddClause(b, s, Render(ClauseTokens(s, NameLike(d))), [Str(LikePattern(d, f.name))], f, bs,
                    NameClause(d, f)[0]);
  }

  method AddGroups(b: ListBuilder, f: ListFilter, ghost bs: seq<ListBound>) returns (b': ListBuilder)
    requires Collected(b, Purposes, f, bs)
    ensures Collected(b', Purposes, f, bs + GroupClause(f))
  {
    if f.groups == [] {
      assert bs + [] == bs;
      return b;
    }
    var args: seq<Value> := [];
    for i := 0 to |f.groups|
      invariant args == Strs(f.groups)[..i]
    {
      args := args + [Str(f.groups[i])];
    }
    b' := AddClause(b, Purposes, Render(ClauseTokens(Purposes, GroupIn(|f.groups|))), args, f, bs, GroupClause(f)[0]);
  }

  method AddMapping(b: ListBuilder, f: ListFilter, ghost bs: seq<ListBound>) returns (b': ListBuilder)
    requires Collected(b, Purposes, f, bs)
    ensures Collected(b', Purposes, f, bs + MappingClause(f))
  {
    if !NeedsMapping(f) {
      assert bs + [] == bs;
      return b;
    }
    var args: seq<Value> := [];
    if f.elementName != "" {
      args := args + [Str(f.elementName)];
    }
    if f.elementNamespace != "" {
      args := args + [Str(f.elementNamespace)];
    }
    if f.elementVersion.Some? {
      args := args + [Num(f.elementVersion.value)];
    }
    var cond := MapsElement(f.elementName != "", f.elementNamespace != "", f.elementVersion.Some?);
    b' := AddClause(b, Purposes, Render(ClauseTokens(Purposes, cond)), args, f, bs, MappingClause(f)[0]);
  }

  /** buildListQuery of the purpose store: clauses and arguments for every filter combination. */
  method BuildPurposeList(d: Dialect, f: ListFilter) returns (b: ListBuilder)
    ensures Collected(b, Purposes, f, Clauses(Purposes, d, f))
  {
    b := StartList(Purposes, f);
    b := AddGroups(b, f, VersionClause(f));
    b := AddName(b, Purposes, d, f, VersionClause(f) + GroupClause(f));
    b := AddMapping(b, f, VersionClause(f) + GroupClause(f) + NameClause(d, f));
  }

  /** buildListQuery of the element store. */
  method BuildElementList(d: Dialect, f: ListFilter) returns (b: ListBuilder)
    ensures Collected(b, Elements, f, Clauses(Elements, d, f))
  {
    b := StartList(Elements, f);
    b := AddName(b, Elements, d, f, VersionClause(f));
    ghost var bs := VersionClause(f) + NameClause(d, f);
    if f.namespace != "" {
      b := AddClause(b, Elements, Render(ClauseTokens(Elements, NamespaceIs)), [Str(f.namespace)], f, bs,
                     NamespaceClause(f)[0]);
      bs := bs + [NamespaceClause(f)[0]];
    }
    assert bs == VersionClause(f) + NameClause(d, f) + NamespaceClause(f);
    if f.elementType != "" {
      b := AddClause(b, Elements, Render(ClauseTokens(Elements, TypeIs)), [Str(f.elementType)], f, bs,
                     TypeClause(f)[0]);
      bs := bs + [TypeClause(f)[0]];
    }
    assert bs == Clauses(Elements, d, f);
  }

  // ---- Alignment ----

  lemma {:induction false} MarksOfClauses(s: Subject, bs: seq<ListBound>)
    requires ClausesBound(bs)
    ensures MarksInAll(ClauseParts(s, bs)) == |ClauseArgs(bs)|
    decreases |bs|
  {
    if bs != [] {
      var n := |bs| - 1;
      MarksOfClauses(s, bs[..n]);
      MarksOfClause(s, bs[n].cond);
      assert ClauseParts(s, bs) == ClauseParts(s, bs[..n]) + [ClauseTokens(s, bs[n].cond)];
      MarksInAllAppend(ClauseParts(s, bs[..n]), ClauseTokens(s, bs[n].cond));
    }
  }

  lemma {:induction false} MarksInAllAppend(parts: seq<seq<Sql>>, part: seq<Sql>)
    ensures MarksInAll(parts + [part]) == MarksInAll(parts) + MarksIn(part)
    decreases |parts|
  {
    if parts == [] {
      assert (parts + [part])[1..] == [];
    } else {
      assert (parts + [part])[1..] == parts[1..] + [part];
      MarksInAllAppend(parts[1..], part);
    }
  }

  lemma MarksOfFiltered(s: Subject, bs: seq<ListBound>)
    requires ClausesBound(bs)
    ensures MarksIn(Filtered(s, bs)) == |ClauseArgs(bs)|
  {
    if bs != [] {
      MarksOfJoin(ClauseParts(s, bs));
      MarksOfClauses(s, bs);
      assert Filtered(s, bs)[1..] == JoinAnd(ClauseParts(s, bs));
    }
  }

  lemma MarksOfBase(s: Subject, d: Dialect, f: ListFilter)
    ensures MarksIn(BaseTokens(s, d, f)) == |BaseArgs(s, d, f)|
  {
    ClausesAreBound(s, d, f);
    MarksOfHead(s, f);
    MarksOfFiltered(s, Clauses(s, d, f));
    MarksConcat(Head(s, f), Filtered(s, Clauses(s, d, f)));
  }

  function ListOrder(s: Subject): (r: seq<Sql>)
    ensures Mark !in r
  {
    [W(Kw(LIST_ORDER)), W(Field(AliasOf(s), NAME)), W(Kw(ASC))] +
    if s == Purposes then []
    else [W(Kw(COMMA)), W(Field(E, NAMESPACE)), W(Kw(ASC)), W(Kw(COMMA)), W(Field(E, ID)), W(Kw(ASC))]
  }

  function ListCountTokens(s: Subject, d: Dialect, f: ListFilter): seq<Sql> {
    [W(Kw(COUNT_ALL))] + (BaseTokens(s, d, f) + [W(Kw(AS_FILTERED))])
  }

  function ListDataTokens(s: Subject, d: Dialect, f: ListFilter): seq<Sql> {
    BaseTokens(s, d, f) + (ListOrder(s) + Paging())
  }

  lemma MarksWithin(head: seq<Sql>, body: seq<Sql>, tail: seq<Sql>)
    requires Mark !in head && Mark !in tail
    ensures MarksIn(head + (body + tail)) == MarksIn(body)
  {
    MarksFree(head);
    MarksFree(tail);
    MarksConcat(body, tail);
    MarksConcat(head, body + tail);
  }

  lemma MarksOfTail(body: seq<Sql>, order: seq<Sql>)
    requires Mark !in order
    ensures MarksIn(body + (order + Paging())) == MarksIn(body) + 2
  {
    MarksOfPaging();
    MarksFree(order);
    MarksConcat(order, Paging());
    MarksConcat(body, order + Paging());
  }

  /** Count and data statement of both lists have as many placeholders as arguments and are read alike on
      both kinds of database. */
  lemma ListBindsAlike(s: Subject, d: Dialect, f: ListFilter)
    ensures var sql := Render(ListCountTokens(s, d, f));
            Holes(sql) == |BaseArgs(s, d, f)| && ReadNumbered(Numbered(sql, 1)) == ReadPositional(sql, 1)
    ensures var sql := Render(ListDataTokens(s, d, f));
            Holes(sql) == |BaseArgs(s, d, f)| + 2 && ReadNumbered(Numbered(sql, 1)) == ReadPositional(sql, 1)
  {
    MarksOfBase(s, d, f);
    MarksWithin([W(Kw(COUNT_ALL))], BaseTokens(s, d, f), [W(Kw(AS_FILTERED))]);
    MarksOfTail(BaseTokens(s, d, f), ListOrder(s));
    TokensBindAlike(ListCountTokens(s, d, f));
    TokensBindAlike(ListDataTokens(s, d, f));
  }

  /** Where a clause stands in the statement: in front of it as many placeholders as arguments, then its own. */
  ghost predicate ClauseStands(s: Subject, d: Dialect, f: ListFilter, i: nat, before: seq<Sql>, after: seq<Sql>)
    requires i < |Clauses(s, d, f)|
  {
    var bs := Clauses(s, d, f);
    && BaseTokens(s, d, f) == before + ClauseTokens(s, bs[i].cond) + after
    && MarksIn(before) == |HeadArgs(f)| + |ClauseArgs(bs[..i])|
    && MarksIn(ClauseTokens(s, bs[i].cond)) == |bs[i].args|
  }

  lemma FilteredStands(s: Subject, bs: seq<ListBound>, head: seq<Sql>, i: nat)
    returns (before: seq<Sql>, after: seq<Sql>)
    requires ClausesBound(bs) && i < |bs|
    ensures head + Filtered(s, bs) == before + ClauseTokens(s, bs[i].cond) + after
    ensures MarksIn(before) == MarksIn(head) + |ClauseArgs(bs[..i])|
  {
    var parts := ClauseParts(s, bs);
    var front, back := PartStands(parts, i);
    assert parts[..i] == ClauseParts(s, bs[..i]);
    MarksOfClauses(s, bs[..i]);
    LeadingMarks(head, front);
    Regroup(head, front, parts[i], back);
    return head + ([W(Kw(AND))] + front), back;
  }

  lemma ListPlaceholdersAligned(s: Subject, d: Dialect, f: ListFilter, i: nat)
    returns (before: seq<Sql>, after: seq<Sql>)
    requires i < |Clauses(s, d, f)|
    ensures ClauseStands(s, d, f, i, before, after)
  {
    ClausesAreBound(s, d, f);
    MarksOfHead(s, f);
    before, after := FilteredStands(s, Clauses(s, d, f), Head(s, f), i);
    MarksOfClause(s, Clauses(s, d, f)[i].cond);
  }
}
