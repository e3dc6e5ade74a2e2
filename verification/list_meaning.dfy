/** What the purpose and element lists return. */
module ListMeaning {
  import opened Rows
  import opened Integrity
  import opened Like
  import opened SearchQuery
  import opened SearchMeaning
  import opened PurposeResolution
  import opened CatalogRuns
  import opened ListQuery

  /** The columns the filters look at; a purpose has no namespace and no type, an element no group. */
  datatype Listed = Listed(id: Id, name: string, namespace: string, elementType: string, group: string, num: int,
                           org: string)

  function VersionIds(cat: Catalog, s: Subject): set<Id> {
    if s == Purposes then cat.purposes.Keys else cat.elements.Keys
  }

  function RowAt(cat: Catalog, s: Subject, v: Id): Listed
    requires v in VersionIds(cat, s)
  {
    if s == Purposes
    then var p := cat.purposes[v]; Listed(p.id, p.name, "", "", p.group, p.num, p.org)
    else var e := cat.elements[v]; Listed(e.id, e.name, e.namespace, e.elementType, "", e.num, e.org)
  }

  /** A mapping of the purpose version joined to its element version; the join is on the version alone. */
  predicate Maps(cat: Catalog, pv: Id, org: string, ev: Id) {
    (pv, ev) in cat.mappings && cat.mappings[(pv, ev)].org == org && ev in cat.elements
  }

  predicate MappedFits(cat: Catalog, named: bool, spaced: bool, versioned: bool, args: seq<Value>, pv: Id, org: string,
                       ev: Id)
    requires |args| == ClauseArity(MapsElement(named, spaced, versioned))
  {
    && Maps(cat, pv, org, ev)
    && var e := cat.elements[ev];
       var i := if named then 1 else 0;
       var j := if spaced then i + 1 else i;
       && (named ==> args[0] == Str(e.name))
       && (spaced ==> args[i] == Str(e.namespace))
       && (versioned ==> args[j] == Num(e.num))
  }

  /** One clause on one row. */
  ghost predicate Holds(cat: Catalog, fold: Fold, s: Subject, c: ListCond, args: seq<Value>, v: Id)
    requires |args| == ClauseArity(c) && v in VersionIds(cat, s)
  {
    var row := RowAt(cat, s, v);
    match c
    case VersionIs => args[0] == Num(row.num)
    case GroupIn(_) => Str(row.group) in args
    case NameLike(d) => args[0].Str? && Matches(fold, EscapeChar(d), args[0].s, row.name)
    case NamespaceIs => args[0] == Str(row.namespace)
    case TypeIs => args[0] == Str(row.elementType)
    case MapsElement(named, spaced, versioned) =>
      exists ev :: MappedFits(cat, named, spaced, versioned, args, v, row.org, ev)
  }

  ghost predicate AllHold(cat: Catalog, fold: Fold, s: Subject, bs: seq<ListBound>, v: Id)
    requires ClausesBound(bs) && v in VersionIds(cat, s)
  {
    forall i :: 0 <= i < |bs| ==> Holds(cat, fold, s, bs[i].cond, bs[i].args, v)
  }

  /** Joined to the greatest version of its identifier in the organization. */
  predicate IsGreatest(cat: Catalog, s: Subject, org: string, v: Id)
    requires v in VersionIds(cat, s)
  {
    forall u :: u in VersionIds(cat, s) && RowAt(cat, s, u).org == org && RowAt(cat, s, u).id == RowAt(cat, s, v).id ==>
      RowAt(cat, s, u).num <= RowAt(cat, s, v).num
  }

  /** A row of the list statement. */
  ghost predicate Lists(cat: Catalog, fold: Fold, s: Subject, d: Dialect, f: ListFilter, v: Id) {
    && v in VersionIds(cat, s) && RowAt(cat, s, v).org == f.org
    && (f.version.None? ==> IsGreatest(cat, s, f.org, v))
    && ClausesBound(Clauses(s, d, f)) && AllHold(cat, fold, s, Clauses(s, d, f), v)
  }

  // ---- What is asked for ----

  predicate MappedAsAsked(cat: Catalog, f: ListFilter, pv: Id, org: string, ev: Id) {
    && Maps(cat, pv, org, ev)
    && (f.elementName != "" ==> cat.elements[ev].name == f.elementName)
    && (f.elementNamespace != "" ==> cat.elements[ev].namespace == f.elementNamespace)
    && (f.elementVersion.Some? ==> cat.elements[ev].num == f.elementVersion.value)
  }

  ghost predicate Asked(cat: Catalog, fold: Fold, s: Subject, f: ListFilter, v: Id)
    requires v in VersionIds(cat, s)
  {
    var row := RowAt(cat, s, v);
    && (f.name != "" ==> Contains(fold, row.name, f.name))
    && (s == Purposes ==>
          && OneOf(f.groups, row.group)
          && (NeedsMapping(f) ==> exists ev :: MappedAsAsked(cat, f, v, row.org, ev)))
    && (s == Elements ==>
          && (f.namespace != "" ==> row.namespace == f.namespace)
          && (f.elementType != "" ==> row.elementType == f.elementType))
  }

  /** The latest version of its identifier, or the version asked for. */
  ghost predicate RightVersion(cat: Catalog, s: Subject, f: ListFilter, v: Id)
    requires v in VersionIds(cat, s)
  {
    var row := RowAt(cat, s, v);
    if f.version.Some? then row.num == f.version.value
    else if s == Purposes then IsLatest(cat, VersionsOf(cat, row.id, f.org), v)
    else IsLatestElement(cat, ElementVersionsOf(cat, row.id, f.org), v)
  }

  // ---- Clause by clause ----

  lemma AllHoldConcat(cat: Catalog, fold: Fold, s: Subject, a: seq<ListBound>, b: seq<ListBound>, v: Id)
    requires ClausesBound(a) && ClausesBound(b) && v in VersionIds(cat, s)
    ensures ClausesBound(a + b)
    ensures AllHold(cat, fold, s, a + b, v) <==> AllHold(cat, fold, s, a, v) && AllHold(cat, fold, s, b, v)
  {
    if AllHold(cat, fold, s, a + b, v) {
      assert forall i :: 0 <= i < |a| ==> a[i] == (a + b)[i];
      assert forall i :: 0 <= i < |b| ==> b[i] == (a + b)[|a| + i];
    }
  }

  lemma OneHolds(cat: Catalog, fold: Fold, s: Subject, b: ListBound, v: Id)
    requires |b.args| == ClauseArity(b.cond) && v in VersionIds(cat, s)
    ensures AllHold(cat, fold, s, [b], v) <==> Holds(cat, fold, s, b.cond, b.args, v)
  {
    assert [b][0] == b;
  }

  lemma SimpleClausesHold(cat: Catalog, fold: Fold, s: Subject, f: ListFilter, v: Id)
    requires v in VersionIds(cat, s)
    ensures ClausesBound(VersionClause(f)) && ClausesBound(NamespaceClause(f)) && ClausesBound(TypeClause(f))
    ensures var row := RowAt(cat, s, v);
            && (AllHold(cat, fold, s, VersionClause(f), v) <==> (f.version.Some? ==> row.num == f.version.value))
            && (AllHold(cat, fold, s, NamespaceClause(f), v) <==> (f.namespace != "" ==> row.namespace == f.namespace))
            && (AllHold(cat, fold, s, TypeClause(f), v) <==> (f.elementType != "" ==> row.elementType == f.elementType))
  {
    if f.version.Some? {
      OneHolds(cat, fold, s, VersionClause(f)[0], v);
    }
    if f.namespace != "" {
      OneHolds(cat, fold, s, NamespaceClause(f)[0], v);
    }
    if f.elementType != "" {
      OneHolds(cat, fold, s, TypeClause(f)[0], v);
    }
  }

  lemma GroupClauseHolds(cat: Catalog, fold: Fold, s: Subject, f: ListFilter, v: Id)
    requires v in VersionIds(cat, s)
    ensures ClausesBound(GroupClause(f))
    ensures AllHold(cat, fold, s, GroupClause(f), v) <==> OneOf(f.groups, RowAt(cat, s, v).group)
  {
    if f.groups != [] {
      OneHolds(cat, fold, s, GroupClause(f)[0], v);
      StrsContain(f.groups);
    }
  }

  lemma NameClauseHolds(cat: Catalog, fold: Fold, s: Subject, d: Dialect, f: ListFilter, v: Id)
    requires v in VersionIds(cat, s) && Escapable(d, f.name)
    ensures ClausesBound(NameClause(d, f))
    ensures AllHold(cat, fold, s, NameClause(d, f), v) <==>
      (f.name != "" ==> Contains(fold, RowAt(cat, s, v).name, f.name))
  {
    if f.name != "" {
      OneHolds(cat, fold, s, NameClause(d, f)[0], v);
      LikeIsExact(fold, d, f.name, RowAt(cat, s, v).name);
    }
  }

  lemma MappingClauseHolds(cat: Catalog, fold: Fold, s: Subject, f: ListFilter, v: Id)
    requires v in VersionIds(cat, s)
    ensures ClausesBound(MappingClause(f))
    ensures AllHold(cat, fold, s, MappingClause(f), v) <==>
              (NeedsMapping(f) ==> exists ev :: MappedAsAsked(cat, f, v, RowAt(cat, s, v).org, ev))
  {
    if NeedsMapping(f) {
      var b := MappingClause(f)[0];
      var named, spaced, versioned := f.elementName != "", f.elementNamespace != "", f.elementVersion.Some?;
      var org := RowAt(cat, s, v).org;
      forall ev
        ensures MappedFits(cat, named, spaced, versioned, b.args, v, org, ev) <==> MappedAsAsked(cat, f, v, org, ev)
      {
      }
      assert b.cond == MapsElement(named, spaced, versioned);
      OneHolds(cat, fold, s, b, v);
    }
  }

  lemma ClausesHold(cat: Catalog, fold: Fold, s: Subject, d: Dialect, f: ListFilter, v: Id)
    requires v in VersionIds(cat, s) && Escapable(d, f.name)
    ensures ClausesBound(Clauses(s, d, f))
    ensures AllHold(cat, fold, s, Clauses(s, d, f), v) <==>
              (f.version.Some? ==> RowAt(cat, s, v).num == f.version.value) && Asked(cat, fold, s, f, v)
  {
    SimpleClausesHold(cat, fold, s, f, v);
    GroupClauseHolds(cat, fold, s, f, v);
    NameClauseHolds(cat, fold, s, d, f, v);
    MappingClauseHolds(cat, fold, s, f, v);
    if s == Purposes {
      FourGroups(cat, fold, s, VersionClause(f), GroupClause(f), NameClause(d, f), MappingClause(f), v);
    } else {
      FourGroups(cat, fold, s, VersionClause(f), NameClause(d, f), NamespaceClause(f), TypeClause(f), v);
    }
  }

  lemma FourGroups(cat: Catalog, fold: Fold, s: Subject, a: seq<ListBound>, b: seq<ListBound>, c: seq<ListBound>,
                   d: seq<ListBound>, v: Id)
    requires ClausesBound(a) && ClausesBound(b) && ClausesBound(c) && ClausesBound(d) && v in VersionIds(cat, s)
    ensures ClausesBound(a + b + c + d)
    ensures AllHold(cat, fold, s, a + b + c + d, v) <==>
              && AllHold(cat, fold, s, a, v) && AllHold(cat, fold, s, b, v)
              && AllHold(cat, fold, s, c, v) && AllHold(cat, fold, s, d, v)
  {
    AllHoldConcat(cat, fold, s, a, b, v);
    AllHoldConcat(cat, fold, s, a + b, c, v);
    AllHoldConcat(cat, fold, s, a + b + c, d, v);
  }

  predicate SameIdentifier(cat: Catalog, s: Subject, org: string, u: Id, v: Id)
    requires v in VersionIds(cat, s)
  {
    u in VersionIds(cat, s) && RowAt(cat, s, u).org == org && RowAt(cat, s, u).id == RowAt(cat, s, v).id
  }

  lemma GreatestIsLatest(cat: Catalog, s: Subject, org: string, v: Id)
    requires v in VersionIds(cat, s) && RowAt(cat, s, v).org == org
    ensures IsGreatest(cat, s, org, v) <==>
              if s == Purposes then IsLatest(cat, VersionsOf(cat, RowAt(cat, s, v).id, org), v)
              else IsLatestElement(cat, ElementVersionsOf(cat, RowAt(cat, s, v).id, org), v)
  {
    if s == Purposes {
      var versions := VersionsOf(cat, RowAt(cat, s, v).id, org);
      assert forall u :: u in versions <==> SameIdentifier(cat, s, org, u, v);
    } else {
      var versions := ElementVersionsOf(cat, RowAt(cat, s, v).id, org);
      assert forall u :: u in versions <==> SameIdentifier(cat, s, org, u, v);
    }
  }

  // ---- Main results ----

  /** A list returns exactly the versions asked for: of the organization, latest or of the given number,
      satisfying every filter. */
  lemma ListIsExact(cat: Catalog, fold: Fold, s: Subject, d: Dialect, f: ListFilter, v: Id)
    requires Escapable(d, f.name)
    ensures Lists(cat, fold, s, d, f, v) <==>
              && v in VersionIds(cat, s) && RowAt(cat, s, v).org == f.org
              && RightVersion(cat, s, f, v) && Asked(cat, fold, s, f, v)
  {
    if v in VersionIds(cat, s) && RowAt(cat, s, v).org == f.org {
      ClausesHold(cat, fold, s, d, f, v);
      GreatestIsLatest(cat, s, f.org, v);
    }
  }

  /** On a sound catalogue a list shows every purpose or element at most once. */
  lemma ListedOnce(cat: Catalog, fold: Fold, s: Subject, d: Dialect, f: ListFilter, u: Id, v: Id)
    requires CatalogSound(cat) && Escapable(d, f.name)
    requires Lists(cat, fold, s, d, f, u) && Lists(cat, fold, s, d, f, v) && RowAt(cat, s, u).id == RowAt(cat, s, v).id
    ensures u == v
  {
    ListIsExact(cat, fold, s, d, f, u);
    ListIsExact(cat, fold, s, d, f, v);
    assert RowAt(cat, s, u).num == RowAt(cat, s, v).num;
    if s == Purposes {
      assert PurposesAgree(cat.purposes[u], cat.purposes[v]);
    } else {
      assert ElementsAgree(cat.elements[u], cat.elements[v]);
    }
  }
}
