/** What the consent search returns: the joined and filtered statement against the consents asked for. */
module SearchMeaning {
  import opened Wrappers
  import opened Config
  import opened AuthRules
  import opened Rows
  import opened Tables
  import opened Like
  import opened SearchQuery

  // ---- The statement's meaning ----

  /** A row of CONSENT joined to up to two authorizations. */
  datatype JoinedRow = JoinedRow(c: Consent, car: Option<Auth>, subject: Option<Auth>)

  predicate Held(t: Tables, c: Consent, a: Auth) {
    Row(Key(c.id, c.org), a) in t.auths
  }

  /** A mapping of the consent joined to its purpose version. */
  predicate Linked(t: Tables, c: Consent, pv: Id) {
    && (Key(c.id, c.org), pv) in t.links
    && pv in t.catalog.purposes && t.catalog.purposes[pv].org == c.org
  }

  /** A mapping of the consent joined to the purpose-element mapping and to the element version. */
  predicate Reaches(t: Tables, c: Consent, pv: Id, ev: Id) {
    && (Key(c.id, c.org), pv) in t.links
    && (pv, ev) in t.catalog.mappings && t.catalog.mappings[(pv, ev)].org == c.org
    && ev in t.catalog.elements && t.catalog.elements[ev].org == c.org
  }

  function ColumnOf(column: Column, row: JoinedRow): Option<string> {
    match column
    case IdColumn => Some(row.c.id)
    case TypeColumn => Some(row.c.consentType)
    case StatusColumn => Some(row.c.status)
    case GroupColumn => Some(row.c.group)
    case UserColumn => if row.car.Some? then row.car.value.user else None
    case AuthTypeColumn => if row.car.Some? then Some(row.car.value.authType) else None
  }

  predicate PurposeFits(t: Tables, fold: Fold, d: Dialect, versioned: bool, args: seq<Value>, c: Consent, pv: Id)
    requires |args| == if versioned then 2 else 1
  {
    && Linked(t, c, pv)
    && args[0].Str? && Matches(fold, EscapeChar(d), args[0].s, t.catalog.purposes[pv].name)
    && (versioned ==> args[1] == Num(t.catalog.purposes[pv].num))
  }

  predicate ElementFits(t: Tables, named: bool, spaced: bool, versioned: bool, args: seq<Value>, c: Consent, pv: Id,
                        ev: Id)
    requires |args| == Arity(ElementExists(named, spaced, versioned))
  {
    && Reaches(t, c, pv, ev)
    && var e := t.catalog.elements[ev];
       var i := if named then 1 else 0;
       var j := if spaced then i + 1 else i;
       && (named ==> args[0] == Str(e.name))
       && (spaced ==> args[i] == Str(e.namespace))
       && (versioned ==> args[j] == Num(e.num))
  }

  /** One condition on one joined row. NULL matches nothing. */
  ghost predicate Eval(t: Tables, fold: Fold, cond: Cond, args: seq<Value>, row: JoinedRow)
    requires |args| == Arity(cond)
  {
    match cond
    case OrgIs => args[0] == Str(row.c.org)
    case In(column, _) => ColumnOf(column, row).Some? && Str(ColumnOf(column, row).value) in args
    case RoleIs => row.car.Some? && args[0] == Str(row.car.value.authType)
    case SubjectUserIs => row.subject.Some? && row.subject.value.user.Some? &&
      args[0] == Str(row.subject.value.user.value)
    case SubjectTypeIs => row.subject.Some? && args[0] == Str(row.subject.value.authType)
    case PurposeExists(d, versioned) => exists pv :: PurposeFits(t, fold, d, versioned, args, row.c, pv)
    case ElementExists(named, spaced, versioned) =>
      exists pv, ev :: ElementFits(t, named, spaced, versioned, args, row.c, pv, ev)
    case UpdatedFrom => args[0].Num? && row.c.updated >= args[0].n
    case UpdatedTo => args[0].Num? && row.c.updated <= args[0].n
  }

  /** The WHERE clause: arguments are taken from the list in order, as many as each condition has
      placeholders. */
  ghost predicate EvalAll(t: Tables, fold: Fold, conds: seq<Cond>, args: seq<Value>, row: JoinedRow)
    decreases |conds|
  {
    conds == [] ||
    (var n := Arity(conds[0]);
     n <= |args| && Eval(t, fold, conds[0], args[..n], row) && EvalAll(t, fold, conds[1..], args[n..], row))
  }

  function Conds(bs: seq<Bound>): seq<Cond> {
    seq(|bs|, i requires 0 <= i < |bs| => bs[i].cond)
  }

  /** The FROM clause: one authorization row for each join the statement has. */
  predicate From(t: Tables, f: Filter, row: JoinedRow) {
    && (if NeedsAuthJoin(f) then row.car.Some? && Held(t, row.c, row.car.value) else row.car.None?)
    && (if f.delegateSubject != "" then row.subject.Some? && Held(t, row.c, row.subject.value) else row.subject.None?)
  }

  ghost predicate Joins(t: Tables, fold: Fold, d: Dialect, f: Filter, row: JoinedRow) {
    From(t, f, row) && EvalAll(t, fold, Conds(Conditions(d, f)), Args(Conditions(d, f)), row)
  }

  ghost predicate Answers(t: Tables, fold: Fold, d: Dialect, f: Filter, c: Consent) {
    exists row: JoinedRow :: row.c == c && Joins(t, fold, d, f, row)
  }

  /** SELECT DISTINCT over the joined rows. */
  ghost function Selected(t: Tables, fold: Fold, d: Dialect, f: Filter): set<Consent> {
    set id | id in t.consents && Answers(t, fold, d, f, t.consents[id]) :: t.consents[id]
  }

  /** SELECT COUNT(DISTINCT CONSENT_ID) over the joined rows. */
  ghost function Count(t: Tables, fold: Fold, d: Dialect, f: Filter): nat {
    |set id | id in t.consents && Answers(t, fold, d, f, t.consents[id]) :: t.consents[id].id|
  }

  // ---- Positions and conditions ----

  ghost predicate EachHolds(t: Tables, fold: Fold, bs: seq<Bound>, row: JoinedRow)
    requires WellBound(bs)
  {
    forall i :: 0 <= i < |bs| ==> Eval(t, fold, bs[i].cond, bs[i].args, row)
  }

  /** Taken in order, every condition gets its own arguments. */
  lemma {:induction false} PositionsBind(t: Tables, fold: Fold, bs: seq<Bound>, row: JoinedRow)
    requires WellBound(bs)
    ensures EvalAll(t, fold, Conds(bs), Args(bs), row) <==> EachHolds(t, fold, bs, row)
    decreases |bs|
  {
    if bs != [] {
      var n := Arity(bs[0].cond);
      assert Args(bs)[..n] == bs[0].args && Args(bs)[n..] == Args(bs[1..]);
      assert Conds(bs)[1..] == Conds(bs[1..]);
      PositionsBind(t, fold, bs[1..], row);
      FirstAndRest(t, fold, bs, row);
    }
  }

  lemma FirstAndRest(t: Tables, fold: Fold, bs: seq<Bound>, row: JoinedRow)
    requires WellBound(bs) && bs != []
    ensures EachHolds(t, fold, bs, row) <==>
      Eval(t, fold, bs[0].cond, bs[0].args, row) && EachHolds(t, fold, bs[1..], row)
  {
    if Eval(t, fold, bs[0].cond, bs[0].args, row) && EachHolds(t, fold, bs[1..], row) {
      forall i | 0 <= i < |bs|
        ensures Eval(t, fold, bs[i].cond, bs[i].args, row)
      {
        if i > 0 {
          assert bs[1..][i - 1] == bs[i];
        }
      }
    }
    if EachHolds(t, fold, bs, row) {
      assert forall i :: 0 <= i < |bs| - 1 ==> bs[1..][i] == bs[i + 1];
    }
  }

  lemma EachHoldsConcat(t: Tables, fold: Fold, a: seq<Bound>, b: seq<Bound>, row: JoinedRow)
    requires WellBound(a) && WellBound(b)
    ensures WellBound(a + b)
    ensures EachHolds(t, fold, a + b, row) <==> EachHolds(t, fold, a, row) && EachHolds(t, fold, b, row)
  {
    if EachHolds(t, fold, a + b, row) {
      assert forall i :: 0 <= i < |a| ==> a[i] == (a + b)[i];
      assert forall i :: 0 <= i < |b| ==> b[i] == (a + b)[|a| + i];
    }
  }

  lemma EachHoldsOne(t: Tables, fold: Fold, b: Bound, row: JoinedRow)
    requires |b.args| == Arity(b.cond)
    ensures EachHolds(t, fold, [b], row) <==> Eval(t, fold, b.cond, b.args, row)
  {
    assert [b][0] == b;
  }

  // ---- What is asked for ----

  predicate OneOf(values: seq<string>, v: string) {
    values == [] || v in values
  }

  predicate RowWanted(f: Filter, c: Consent) {
    && c.org == f.org
    && OneOf(f.consentIds, c.id) && OneOf(f.consentTypes, c.consentType)
    && OneOf(f.statuses, c.status) && OneOf(f.groups, c.group)
  }

  /** One single authorization satisfies users, role and types together. */
  predicate AuthWanted(f: Filter, a: Auth) {
    && (f.users == [] || (a.user.Some? && a.user.value in f.users))
    && (f.delegation == Some(true) ==> a.authType == DELEGATE)
    && (f.delegation == Some(false) ==> a.authType == PRIMARY)
    && OneOf(f.authTypes, a.authType)
  }

  predicate SubjectWanted(f: Filter, a: Auth) {
    a.user == Some(f.delegateSubject) && a.authType == DELEGATE_SUBJECT
  }

  predicate PurposeWanted(t: Tables, fold: Fold, f: Filter, c: Consent, pv: Id) {
    && Linked(t, c, pv) && Contains(fold, t.catalog.purposes[pv].name, f.purposeName)
    && (f.purposeVersion.Some? ==> t.catalog.purposes[pv].num == f.purposeVersion.value)
  }

  predicate ElementWanted(t: Tables, f: Filter, c: Consent, pv: Id, ev: Id) {
    && Reaches(t, c, pv, ev)
    && var e := t.catalog.elements[ev];
       && (f.elementName != "" ==> e.name == f.elementName)
       && (f.elementNamespace != "" ==> e.namespace == f.elementNamespace)
       && (f.elementVersion.Some? ==> e.num == f.elementVersion.value)
  }

  predicate TimeWanted(f: Filter, c: Consent) {
    && (f.fromTime.Some? ==> f.fromTime.value <= c.updated)
    && (f.toTime.Some? ==> c.updated <= f.toTime.value)
  }

  ghost predicate PurposesWanted(t: Tables, fold: Fold, f: Filter, c: Consent) {
    f.purposeName != "" ==> exists pv :: PurposeWanted(t, fold, f, c, pv)
  }

  ghost predicate ElementsWanted(t: Tables, f: Filter, c: Consent) {
    NeedsElement(f) ==> exists pv, ev :: ElementWanted(t, f, c, pv, ev)
  }

  /** A consent the filter asks for. */
  ghost predicate Wanted(t: Tables, fold: Fold, f: Filter, c: Consent) {
    && RowWanted(f, c)
    && (NeedsAuthJoin(f) ==> exists a :: Held(t, c, a) && AuthWanted(f, a))
    && (f.delegateSubject != "" ==> exists a :: Held(t, c, a) && SubjectWanted(f, a))
    && PurposesWanted(t, fold, f, c) && ElementsWanted(t, f, c) && TimeWanted(f, c)
  }

  /** The filter the statement is built for: the statuses are upper-cased on the way. */
  function AsSearched(f: Filter): Filter {
    f.(statuses := Uppercase(f.statuses))
  }

  // ---- Group by group ----

  lemma InListHolds(t: Tables, fold: Fold, column: Column, values: seq<string>, row: JoinedRow)
    ensures WellBound(InList(column, values))
    ensures EachHolds(t, fold, InList(column, values), row) <==>
              values == [] || (ColumnOf(column, row).Some? && ColumnOf(column, row).value in values)
  {
    if values != [] {
      EachHoldsOne(t, fold, Bound(In(column, |values|), Strs(values)), row);
      StrsContain(values);
    }
  }

  lemma StrsContain(values: seq<string>)
    ensures forall v :: Str(v) in Strs(values) <==> v in values
  {
    forall v
      ensures Str(v) in Strs(values) <==> v in values
    {
      if v in values {
        var i :| 0 <= i < |values| && values[i] == v;
        assert Strs(values)[i] == Str(v);
      }
    }
  }

  lemma RowConditionsHold(t: Tables, fold: Fold, f: Filter, row: JoinedRow)
    ensures WellBound(RowConditions(f))
    ensures EachHolds(t, fold, RowConditions(f), row) <==> RowWanted(AsSearched(f), row.c)
  {
    var org := [Bound(OrgIs, [Str(f.org)])];
    EachHoldsOne(t, fold, org[0], row);
    InListHolds(t, fold, IdColumn, f.consentIds, row);
    InListHolds(t, fold, TypeColumn, f.consentTypes, row);
    InListHolds(t, fold, StatusColumn, Uppercase(f.statuses), row);
    InListHolds(t, fold, GroupColumn, f.groups, row);
    var a := org + InList(IdColumn, f.consentIds);
    EachHoldsConcat(t, fold, org, InList(IdColumn, f.consentIds), row);
    var b := a + InList(TypeColumn, f.consentTypes);
    EachHoldsConcat(t, fold, a, InList(TypeColumn, f.consentTypes), row);
    EachHoldsConcat(t, fold, b, InList(StatusColumn, Uppercase(f.statuses)), row);
    EachHoldsConcat(t, fold, b + InList(StatusColumn, Uppercase(f.statuses)), InList(GroupColumn, f.groups), row);
  }

  lemma AuthConditionsHold(t: Tables, fold: Fold, f: Filter, row: JoinedRow)
    requires NeedsAuthJoin(f) <==> row.car.Some?
    ensures WellBound(AuthConditions(f))
    ensures EachHolds(t, fold, AuthConditions(f), row) <==> (row.car.Some? ==> AuthWanted(f, row.car.value))
  {
    InListHolds(t, fold, UserColumn, f.users, row);
    InListHolds(t, fold, AuthTypeColumn, f.authTypes, row);
    if f.delegation.Some? {
      EachHoldsOne(t, fold, RoleConditions(f)[0], row);
    }
    EachHoldsConcat(t, fold, InList(UserColumn, f.users), RoleConditions(f), row);
    EachHoldsConcat(t, fold, InList(UserColumn, f.users) + RoleConditions(f), InList(AuthTypeColumn, f.authTypes), row);
  }

  lemma SubjectConditionsHold(t: Tables, fold: Fold, f: Filter, row: JoinedRow)
    requires f.delegateSubject != "" <==> row.subject.Some?
    ensures WellBound(SubjectConditions(f))
    ensures EachHolds(t, fold, SubjectConditions(f), row) <==>
      (row.subject.Some? ==> SubjectWanted(f, row.subject.value))
  {
    if f.delegateSubject != "" {
      var bs := SubjectConditions(f);
      assert bs == [bs[0]] + [bs[1]];
      EachHoldsOne(t, fold, bs[0], row);
      EachHoldsOne(t, fold, bs[1], row);
      EachHoldsConcat(t, fold, [bs[0]], [bs[1]], row);
    }
  }

  lemma PurposeConditionsHold(t: Tables, fold: Fold, d: Dialect, f: Filter, row: JoinedRow)
    requires Escapable(d, f.purposeName)
    ensures WellBound(PurposeConditions(d, f))
    ensures EachHolds(t, fold, PurposeConditions(d, f), row) <==> PurposesWanted(t, fold, f, row.c)
  {
    if f.purposeName != "" {
      var b := PurposeConditions(d, f)[0];
      EachHoldsOne(t, fold, b, row);
      forall pv
        ensures PurposeFits(t, fold, d, f.purposeVersion.Some?, b.args, row.c, pv) <==>
          PurposeWanted(t, fold, f, row.c, pv)
      {
        if Linked(t, row.c, pv) {
          LikeIsExact(fold, d, f.purposeName, t.catalog.purposes[pv].name);
        }
      }
    }
  }

  lemma ElementConditionsHold(t: Tables, fold: Fold, f: Filter, row: JoinedRow)
    ensures WellBound(ElementConditions(f))
    ensures EachHolds(t, fold, ElementConditions(f), row) <==> ElementsWanted(t, f, row.c)
  {
    if NeedsElement(f) {
      var b := ElementConditions(f)[0];
      var named, spaced, versioned := f.elementName != "", f.elementNamespace != "", f.elementVersion.Some?;
      EachHoldsOne(t, fold, b, row);
      forall pv, ev
        ensures ElementFits(t, named, spaced, versioned, b.args, row.c, pv, ev) <==> ElementWanted(t, f, row.c, pv, ev)
      {
      }
      assert b.cond == ElementExists(named, spaced, versioned);
    }
  }

  lemma TimeConditionsHold(t: Tables, fold: Fold, f: Filter, row: JoinedRow)
    ensures WellBound(TimeConditions(f))
    ensures EachHolds(t, fold, TimeConditions(f), row) <==> TimeWanted(f, row.c)
  {
    var from := if f.fromTime.Some? then [Bound(UpdatedFrom, [Num(f.fromTime.value)])] else [];
    var until := if f.toTime.Some? then [Bound(UpdatedTo, [Num(f.toTime.value)])] else [];
    if f.fromTime.Some? {
      EachHoldsOne(t, fold, from[0], row);
    }
    if f.toTime.Some? {
      EachHoldsOne(t, fold, until[0], row);
    }
    EachHoldsConcat(t, fold, from, until, row);
  }

  /** All the conditions on one joined row: its consent and its authorizations are all wanted. */
  lemma ConditionsHold(t: Tables, fold: Fold, d: Dialect, f: Filter, row: JoinedRow)
    requires Escapable(d, f.purposeName) && From(t, f, row)
    ensures EvalAll(t, fold, Conds(Conditions(d, f)), Args(Conditions(d, f)), row) <==>
              && RowWanted(AsSearched(f), row.c)
              && (row.car.Some? ==> AuthWanted(f, row.car.value))
              && (row.subject.Some? ==> SubjectWanted(f, row.subject.value))
              && PurposesWanted(t, fold, f, row.c) && ElementsWanted(t, f, row.c) && TimeWanted(f, row.c)
  {
    ConditionsWellBound(d, f);
    PositionsBind(t, fold, Conditions(d, f), row);
    RowConditionsHold(t, fold, f, row);
    AuthConditionsHold(t, fold, f, row);
    SubjectConditionsHold(t, fold, f, row);
    PurposeConditionsHold(t, fold, d, f, row);
    ElementConditionsHold(t, fold, f, row);
    TimeConditionsHold(t, fold, f, row);
    SixGroups(t, fold, RowConditions(f), AuthConditions(f), SubjectConditions(f), PurposeConditions(d, f),
              ElementConditions(f),
              TimeConditions(f), row);
  }

  lemma SixGroups(t: Tables, fold: Fold, a: seq<Bound>, b: seq<Bound>, c: seq<Bound>, d: seq<Bound>, e: seq<Bound>,
                  f: seq<Bound>, row: JoinedRow)
    requires WellBound(a) && WellBound(b) && WellBound(c) && WellBound(d) && WellBound(e) && WellBound(f)
    ensures WellBound(a + b + c + d + e + f)
    ensures EachHolds(t, fold, a + b + c + d + e + f, row) <==>
              && EachHolds(t, fold, a, row) && EachHolds(t, fold, b, row) && EachHolds(t, fold, c, row)
              && EachHolds(t, fold, d, row) && EachHolds(t, fold, e, row) && EachHolds(t, fold, f, row)
  {
    EachHoldsConcat(t, fold, a, b, row);
    EachHoldsConcat(t, fold, a + b, c, row);
    EachHoldsConcat(t, fold, a + b + c, d, row);
    EachHoldsConcat(t, fold, a + b + c + d, e, row);
    EachHoldsConcat(t, fold, a + b + c + d + e, f, row);
  }

  // ---- Main results ----

  lemma AsSearchedKeepsExists(t: Tables, fold: Fold, f: Filter, c: Consent)
    ensures PurposesWanted(t, fold, AsSearched(f), c) <==> PurposesWanted(t, fold, f, c)
    ensures ElementsWanted(t, AsSearched(f), c) <==> ElementsWanted(t, f, c)
  {
    assert forall pv :: PurposeWanted(t, fold, AsSearched(f), c, pv) <==> PurposeWanted(t, fold, f, c, pv);
    assert forall pv, ev :: ElementWanted(t, AsSearched(f), c, pv, ev) <==> ElementWanted(t, f, c, pv, ev);
  }

  /** Upper-casing the statuses leaves every other part of a filter alone. */
  lemma AsSearchedKeepsRest(t: Tables, fold: Fold, f: Filter, c: Consent)
    ensures Wanted(t, fold, AsSearched(f), c) <==>
              && RowWanted(AsSearched(f), c)
              && (NeedsAuthJoin(f) ==> exists a :: Held(t, c, a) && AuthWanted(f, a))
              && (f.delegateSubject != "" ==> exists a :: Held(t, c, a) && SubjectWanted(f, a))
              && PurposesWanted(t, fold, f, c) && ElementsWanted(t, f, c) && TimeWanted(f, c)
  {
    AsSearchedKeepsExists(t, fold, f, c);
    assert forall a :: AuthWanted(AsSearched(f), a) <==> AuthWanted(f, a);
    assert forall a :: SubjectWanted(AsSearched(f), a) <==> SubjectWanted(f, a);
  }

  /** A consent is among the joined rows exactly when the filter with its statuses upper-cased asks for it. */
  lemma AnswersExactlyAsSearched(t: Tables, fold: Fold, d: Dialect, f: Filter, c: Consent)
    requires Escapable(d, f.purposeName)
    ensures Answers(t, fold, d, f, c) <==> Wanted(t, fold, AsSearched(f), c)
  {
    AsSearchedKeepsRest(t, fold, f, c);
    if Answers(t, fold, d, f, c) {
      var row: JoinedRow :| row.c == c && Joins(t, fold, d, f, row);
      ConditionsHold(t, fold, d, f, row);
    }
    if Wanted(t, fold, AsSearched(f), c) {
      WantedHasRow(t, fold, d, f, c);
    }
  }

  lemma WantedHasRow(t: Tables, fold: Fold, d: Dialect, f: Filter, c: Consent)
    requires Escapable(d, f.purposeName) && RowWanted(AsSearched(f), c)
    requires NeedsAuthJoin(f) ==> exists a :: Held(t, c, a) && AuthWanted(f, a)
    requires f.delegateSubject != "" ==> exists a :: Held(t, c, a) && SubjectWanted(f, a)
    requires PurposesWanted(t, fold, f, c) && ElementsWanted(t, f, c) && TimeWanted(f, c)
    ensures Answers(t, fold, d, f, c)
  {
    var car, subject := None, None;
    if NeedsAuthJoin(f) {
      var a :| Held(t, c, a) && AuthWanted(f, a);
      car := Some(a);
    }
    if f.delegateSubject != "" {
      var a :| Held(t, c, a) && SubjectWanted(f, a);
      subject := Some(a);
    }
    RowAnswers(t, fold, d, f, JoinedRow(c, car, subject));
  }

  lemma RowAnswers(t: Tables, fold: Fold, d: Dialect, f: Filter, row: JoinedRow)
    requires Escapable(d, f.purposeName) && From(t, f, row) && RowWanted(AsSearched(f), row.c)
    requires row.car.Some? ==> AuthWanted(f, row.car.value)
    requires row.subject.Some? ==> SubjectWanted(f, row.subject.value)
    requires PurposesWanted(t, fold, f, row.c) && ElementsWanted(t, f, row.c) && TimeWanted(f, row.c)
    ensures Answers(t, fold, d, f, row.c)
  {
    ConditionsHold(t, fold, d, f, row);
    assert Joins(t, fold, d, f, row);
  }

  /** Asked for delegated consents, the search answers only with consents where one delegate authorization fits
      users and types; asked for the others, one primary authorization. */
  lemma DelegatedHasDelegate(t: Tables, fold: Fold, d: Dialect, f: Filter, c: Consent)
    requires Escapable(d, f.purposeName) && f.delegation.Some? && Answers(t, fold, d, f, c)
    ensures exists a :: Held(t, c, a) && a.authType == (if f.delegation.value then DELEGATE else PRIMARY) &&
                        (f.users == [] || (a.user.Some? && a.user.value in f.users)) &&
                        (f.authTypes == [] || a.authType in f.authTypes)
  {
    AnswersExactlyAsSearched(t, fold, d, f, c);
    AsSearchedKeepsRest(t, fold, f, c);
    var a :| Held(t, c, a) && AuthWanted(f, a);
  }

  /** What a status filter admits is what it names if and only if all its statuses are upper case. */
  lemma StatusFilterExactly(statuses: seq<string>)
    ensures (forall v :: OneOf(Uppercase(statuses), v) <==> OneOf(statuses, v)) <==> Uppercase(statuses) == statuses
  {
    if forall v :: OneOf(Uppercase(statuses), v) <==> OneOf(statuses, v) {
      forall i | 0 <= i < |statuses|
        ensures Uppercase(statuses)[i] == statuses[i]
      {
        assert OneOf(statuses, statuses[i]);
        var j :| 0 <= j < |statuses| && Uppercase(statuses)[j] == statuses[i];
        UpperTwice(statuses[j]);
      }
    }
  }

  lemma UpperTwice(s: string)
    ensures ToUpper(ToUpper(s)) == ToUpper(s)
  {
  }

  /** A search that asks for one status finds a consent it asks for if and only if that status is upper case. */
  lemma OneStatusIsFound(t: Tables, fold: Fold, d: Dialect, f: Filter, c: Consent)
    requires Escapable(d, f.purposeName) && |f.statuses| == 1 && Wanted(t, fold, f, c)
    ensures Answers(t, fold, d, f, c) <==> ToUpper(f.statuses[0]) == f.statuses[0]
  {
    AnswersExactlyAsSearched(t, fold, d, f, c);
    AsSearchedKeepsRest(t, fold, f, c);
    assert c.status == f.statuses[0];
    assert Uppercase(f.statuses) == [ToUpper(f.statuses[0])];
  }

  /** With upper-case statuses a consent is among the joined rows exactly when it is asked for. */
  lemma AnswersExactlyWanted(t: Tables, fold: Fold, d: Dialect, f: Filter, c: Consent)
    requires Escapable(d, f.purposeName) && Uppercase(f.statuses) == f.statuses
    ensures Answers(t, fold, d, f, c) <==> Wanted(t, fold, f, c)
  {
    AnswersExactlyAsSearched(t, fold, d, f, c);
  }

  /** The search returns exactly the consents asked for, each once, its statuses upper-cased. */
  lemma SearchIsExact(t: Tables, fold: Fold, d: Dialect, f: Filter)
    requires Escapable(d, f.purposeName)
    ensures forall c :: c in Selected(t, fold, d, f) <==> c in t.consents.Values && Wanted(t, fold, AsSearched(f), c)
  {
    forall c
      ensures c in Selected(t, fold, d, f) <==> c in t.consents.Values && Wanted(t, fold, AsSearched(f), c)
    {
      AnswersExactlyAsSearched(t, fold, d, f, c);
      if c in t.consents.Values && Wanted(t, fold, AsSearched(f), c) {
        var id :| id in t.consents && t.consents[id] == c;
      }
    }
  }

  /** A search by statuses alone returns exactly what it asks for, whatever is stored, if and only if its
      statuses are upper case. */
  lemma StatusSearchExactIff(fold: Fold, d: Dialect, f: Filter)
    requires f == ByStatus(f.org, f.statuses)
    ensures (forall t, c :: Answers(t, fold, d, f, c) <==> Wanted(t, fold, f, c)) <==>
      Uppercase(f.statuses) == f.statuses
  {
    if Uppercase(f.statuses) == f.statuses {
      forall t, c
        ensures Answers(t, fold, d, f, c) <==> Wanted(t, fold, f, c)
      {
        AnswersExactlyWanted(t, fold, d, f, c);
      }
    }
    if forall t, c :: Answers(t, fold, d, f, c) <==> Wanted(t, fold, f, c) {
      forall v
        ensures OneOf(Uppercase(f.statuses), v) <==> OneOf(f.statuses, v)
      {
        var c := Consent("c", f.org, "", "", v, None, None, None, None, 0, 0);
        AnswersExactlyAsSearched(EMPTY_TABLES, fold, d, f, c);
        assert Answers(EMPTY_TABLES, fold, d, f, c) <==> Wanted(EMPTY_TABLES, fold, f, c);
      }
      StatusFilterExactly(f.statuses);
    }
  }

  function ByStatus(org: string, statuses: seq<string>): Filter {
    Filter(org, [], [], statuses, [], [], None, [], "", "", None, "", "", None, None, None)
  }

  /** CONSENT_ID is the primary key of CONSENT. */
  ghost predicate KeyedById(t: Tables) {
    forall id :: id in t.consents ==> t.consents[id].id == id
  }

  lemma {:induction false} SameSize(ids: set<Id>, consents: map<Id, Consent>)
    requires ids <= consents.Keys && forall id :: id in ids ==> consents[id].id == id
    ensures |set id | id in ids :: consents[id]| == |ids|
    decreases ids
  {
    var image := set id | id in ids :: consents[id];
    if ids == {} {
      assert image == {};
    } else {
      var x :| x in ids;
      var rest := ids - {x};
      SameSize(rest, consents);
      var restImage := set id | id in rest :: consents[id];
      assert image == restImage + {consents[x]};
      assert consents[x] !in restImage;
    }
  }

  /** The count query answers with the number of consents the data query selects. */
  lemma CountIsSize(t: Tables, fold: Fold, d: Dialect, f: Filter)
    requires KeyedById(t)
    ensures Count(t, fold, d, f) == |Selected(t, fold, d, f)|
  {
    var ids := set id | id in t.consents && Answers(t, fold, d, f, t.consents[id]) :: id;
    SameSize(ids, t.consents);
    assert ids == set id | id in t.consents && Answers(t, fold, d, f, t.consents[id]) :: t.consents[id].id;
    assert Selected(t, fold, d, f) == set id | id in ids :: t.consents[id];
  }
}
