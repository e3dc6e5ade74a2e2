/** The order of search results, and paging through them. */
module SearchOrder {
  import opened Wrappers
  import opened Rows
  import opened SqlText

  /** A requested sort, as the handler passes it on. */
  datatype Sort = Sort(field: string, direction: string)

  datatype Column =
    | CreatedColumn | UpdatedColumn | ExpirationColumn | StatusColumn | GroupColumn | TypeColumn | IdColumn

  /** One key of the ORDER BY clause: a column, or whether the expiration is NULL. */
  datatype OrderKey = NullRank(nullsLast: bool) | By(column: Column, asc: bool)

  function ColumnOf(field: string): Option<Column> {
    if field == "createdTime" then Some(CreatedColumn)
    else if field == "updatedTime" then Some(UpdatedColumn)
    else if field == "validityTime" then Some(ExpirationColumn)
    else if field == "status" then Some(StatusColumn)
    else if field == "groupId" then Some(GroupColumn)
    else if field == "consentType" then Some(TypeColumn)
    else None
  }

  /** The clause knows the field and the direction; other sorts are skipped. */
  predicate Known(s: Sort) {
    ColumnOf(s.field).Some? && s.direction in {"ASC", "DESC"}
  }

  function KeysOf(s: Sort): seq<OrderKey> {
    if !Known(s) then []
    else
      var column, asc := ColumnOf(s.field).value, s.direction == "ASC";
      if column == ExpirationColumn then [NullRank(asc), By(column, asc)] else [By(column, asc)]
  }

  function AllKeys(sorts: seq<Sort>): seq<OrderKey> {
    if sorts == [] then [] else KeysOf(sorts[0]) + AllKeys(sorts[1..])
  }

  function OrderKeys(sorts: seq<Sort>): seq<OrderKey> {
    (if AllKeys(sorts) == [] then [By(CreatedColumn, false)] else AllKeys(sorts)) + [By(IdColumn, true)]
  }

  lemma {:induction false} AllKeysAppend(sorts: seq<Sort>, s: Sort)
    ensures AllKeys(sorts + [s]) == AllKeys(sorts) + KeysOf(s)
    decreases |sorts|
  {
    if sorts == [] {
      assert (sorts + [s])[1..] == [];
    } else {
      assert (sorts + [s])[1..] == sorts[1..] + [s];
      AllKeysAppend(sorts[1..], s);
    }
  }

  /** buildConsentSearchOrderBy. */
  method BuildOrderBy(sorts: seq<Sort>) returns (orderParts: seq<OrderKey>)
    ensures orderParts == OrderKeys(sorts)
  {
    orderParts := [];
    for i := 0 to |sorts|
      invariant orderParts == AllKeys(sorts[..i])
    {
      assert sorts[..i + 1] == sorts[..i] + [sorts[i]];
      AllKeysAppend(sorts[..i], sorts[i]);
      var column := ColumnOf(sorts[i].field);
      if column.None? {
        continue;
      }
      var direction := sorts[i].direction;
      if direction != "ASC" && direction != "DESC" {
        continue;
      }
      if column.value == ExpirationColumn {
        if direction == "ASC" {
          orderParts := orderParts + [NullRank(true), By(ExpirationColumn, true)];
        } else {
          orderParts := orderParts + [NullRank(false), By(ExpirationColumn, false)];
        }
        continue;
      }
      orderParts := orderParts + [By(column.value, direction == "ASC")];
    }
    assert sorts[..|sorts|] == sorts;
    if orderParts == [] {
      orderParts := [By(CreatedColumn, false)];
    }
    orderParts := orderParts + [By(IdColumn, true)];
  }

  // ---- Text ----

  function ColumnName(c: Column): Name {
    match c
    case CreatedColumn => CREATED_TIME
    case UpdatedColumn => UPDATED_TIME
    case ExpirationColumn => EXPIRATION_TIME
    case StatusColumn => CURRENT_STATUS
    case GroupColumn => GROUP_ID
    case TypeColumn => CONSENT_TYPE
    case IdColumn => CONSENT_ID
  }

  function KeyTokens(k: OrderKey): (r: seq<Sql>)
    ensures Mark !in r
  {
    match k
    case NullRank(nullsLast) =>
      [W(Kw(CASE_WHEN)), W(Field(CONSENT, EXPIRATION_TIME)), W(Kw(if nullsLast then NULL_LAST else NULL_FIRST))]
    case By(column, asc) => [W(Field(CONSENT, ColumnName(column))), W(Kw(if asc then ASC else DESC))]
  }

  /** The clause; it takes no argument. */
  function OrderTokens(keys: seq<OrderKey>): (r: seq<Sql>)
    ensures Mark !in r
  {
    if keys == [] then []
    else if |keys| == 1 then KeyTokens(keys[0])
    else KeyTokens(keys[0]) + ([W(Kw(COMMA))] + OrderTokens(keys[1..]))
  }

  // ---- Comparison ----

  function CompareInt(a: int, b: int): int {
    if a < b then -1 else if a == b then 0 else 1
  }

  /** Byte order of strings. */
  function CompareStr(a: string, b: string): int {
    if a == "" then (if b == "" then 0 else -1)
    else if b == "" then 1
    else if a[0] != b[0] then (if a[0] < b[0] then -1 else 1)
    else CompareStr(a[1..], b[1..])
  }

  /** A nullable column; whether NULL comes before every value is up to the database. */
  function CompareNullable(nullsLow: bool, a: Option<int>, b: Option<int>): int {
    if a.Some? && b.Some? then CompareInt(a.value, b.value)
    else if a == b then 0
    else if a.None? == nullsLow then -1 else 1
  }

  function CompareColumn(nullsLow: bool, c: Column, a: Consent, b: Consent): int {
    match c
    case CreatedColumn => CompareInt(a.created, b.created)
    case UpdatedColumn => CompareInt(a.updated, b.updated)
    case ExpirationColumn => CompareNullable(nullsLow, a.expiration, b.expiration)
    case StatusColumn => CompareStr(a.status, b.status)
    case GroupColumn => CompareStr(a.group, b.group)
    case TypeColumn => CompareStr(a.consentType, b.consentType)
    case IdColumn => CompareStr(a.id, b.id)
  }

  function Rank(nullsLast: bool, c: Consent): int {
    if c.expiration.None? == nullsLast then 1 else 0
  }

  function CompareKey(nullsLow: bool, k: OrderKey, a: Consent, b: Consent): int {
    match k
    case NullRank(nullsLast) => CompareInt(Rank(nullsLast, a), Rank(nullsLast, b))
    case By(c, asc) => if asc then CompareColumn(nullsLow, c, a, b) else -CompareColumn(nullsLow, c, a, b)
  }

  /** ORDER BY: the first key that tells the rows apart decides. */
  function Compare(nullsLow: bool, keys: seq<OrderKey>, a: Consent, b: Consent): int {
    if keys == [] then 0
    else if CompareKey(nullsLow, keys[0], a, b) != 0 then CompareKey(nullsLow, keys[0], a, b)
    else Compare(nullsLow, keys[1..], a, b)
  }

  // ---- What was asked for ----

  /** No expiration is later than any. */
  function CompareValidity(a: Option<int>, b: Option<int>): int {
    if a.None? || b.None? then CompareInt(if a.None? then 1 else 0, if b.None? then 1 else 0)
    else CompareInt(a.value, b.value)
  }

  function CompareField(c: Column, a: Consent, b: Consent): int {
    if c == ExpirationColumn then CompareValidity(a.expiration, b.expiration) else CompareColumn(true, c, a, b)
  }

  function CompareSort(s: Sort, a: Consent, b: Consent): int
    requires Known(s)
  {
    if s.direction == "ASC" then CompareField(ColumnOf(s.field).value, a, b)
    else -CompareField(ColumnOf(s.field).value, a, b)
  }

  /** In a dictionary of these characters: a proper prefix, or smaller where they first differ. */
  predicate Precedes(a: string, b: string) {
    exists i :: 0 <= i <= |a| && i <= |b| && a[..i] == b[..i] && PrecedesAt(a, b, i)
  }

  predicate PrecedesAt(a: string, b: string, i: nat)
    requires i <= |a| && i <= |b|
  {
    i < |b| && (i == |a| || a[i] < b[i])
  }

  lemma {:induction false} CompareStrExactly(a: string, b: string)
    ensures CompareStr(a, b) < 0 <==> Precedes(a, b)
    ensures CompareStr(a, b) == 0 <==> a == b
    decreases |a|
  {
    if a == "" {
      assert b != "" ==> a[..0] == b[..0] && PrecedesAt(a, b, 0);
    } else if b != "" && a[0] != b[0] {
      assert a[..0] == b[..0];
      assert forall i :: 1 <= i <= |a| && i <= |b| ==> a[..i][0] != b[..i][0];
    } else if b != "" {
      CompareStrExactly(a[1..], b[1..]);
      assert a == [a[0]] + a[1..] && b == [b[0]] + b[1..];
      if i :| 0 <= i <= |a| && i <= |b| && a[..i] == b[..i] && PrecedesAt(a, b, i) {
        assert i > 0 && a[1..][..i - 1] == a[..i][1..] && b[1..][..i - 1] == b[..i][1..];
        assert PrecedesAt(a[1..], b[1..], i - 1);
      }
      if i :| 0 <= i <= |a[1..]| && i <= |b[1..]| && a[1..][..i] == b[1..][..i] && PrecedesAt(a[1..], b[1..], i) {
        assert a[..i + 1] == [a[0]] + a[1..][..i] && b[..i + 1] == [b[0]] + b[1..][..i];
        assert PrecedesAt(a, b, i + 1);
      }
    }
  }

  /** No expiration is the latest. */
  predicate ExpiresBefore(a: Option<int>, b: Option<int>) {
    a.Some? && (b.None? || a.value < b.value)
  }

  /** What each field compares, ascending. */
  lemma FieldsCompare(a: Consent, b: Consent)
    ensures CompareSort(Sort("createdTime", "ASC"), a, b) < 0 <==> a.created < b.created
    ensures CompareSort(Sort("updatedTime", "ASC"), a, b) < 0 <==> a.updated < b.updated
    ensures CompareSort(Sort("validityTime", "ASC"), a, b) < 0 <==> ExpiresBefore(a.expiration, b.expiration)
    ensures CompareSort(Sort("status", "ASC"), a, b) < 0 <==> Precedes(a.status, b.status)
    ensures CompareSort(Sort("groupId", "ASC"), a, b) < 0 <==> Precedes(a.group, b.group)
    ensures CompareSort(Sort("consentType", "ASC"), a, b) < 0 <==> Precedes(a.consentType, b.consentType)
  {
    CompareStrExactly(a.status, b.status);
    CompareStrExactly(a.group, b.group);
    CompareStrExactly(a.consentType, b.consentType);
  }

  /** Descending is ascending turned round, and there is no other direction and no other field. */
  lemma DirectionsAndFields(s: Sort, a: Consent, b: Consent)
    ensures Known(s) <==>
            && s.field in {"createdTime", "updatedTime", "validityTime", "status", "groupId", "consentType"}
            && s.direction in {"ASC", "DESC"}
    ensures Known(s) && s.direction == "DESC" ==>
            CompareSort(s, a, b) == -CompareSort(Sort(s.field, "ASC"), a, b)
  {
  }

  function CompareSorts(sorts: seq<Sort>, a: Consent, b: Consent): int {
    if sorts == [] then CompareStr(a.id, b.id)
    else if Known(sorts[0]) && CompareSort(sorts[0], a, b) != 0 then CompareSort(sorts[0], a, b)
    else CompareSorts(sorts[1..], a, b)
  }

  /** Field by field, then by identifier; newest first when no field is asked for. */
  function Asked(sorts: seq<Sort>, a: Consent, b: Consent): int {
    if forall i :: 0 <= i < |sorts| ==> !Known(sorts[i]) then CompareSorts([Sort("createdTime", "DESC")], a, b)
    else CompareSorts(sorts, a, b)
  }

  lemma {:induction false} CompareConcat(nullsLow: bool, x: seq<OrderKey>, y: seq<OrderKey>, a: Consent, b: Consent)
    ensures Compare(nullsLow, x + y, a, b) ==
            if Compare(nullsLow, x, a, b) != 0 then Compare(nullsLow, x, a, b) else Compare(nullsLow, y, a, b)
    decreases |x|
  {
    if x == [] {
      assert x + y == y;
    } else {
      assert (x + y)[1..] == x[1..] + y;
      CompareConcat(nullsLow, x[1..], y, a, b);
    }
  }

  /** One sort: the NULL key makes the answer the same on every database. */
  lemma SortIsAsked(nullsLow: bool, s: Sort, a: Consent, b: Consent)
    ensures Compare(nullsLow, KeysOf(s), a, b) == if Known(s) then CompareSort(s, a, b) else 0
  {
    if Known(s) {
      var keys := KeysOf(s);
      if |keys| == 2 {
        assert keys[1..] == [keys[1]] && keys[1..][1..] == [];
        assert Compare(nullsLow, keys[1..], a, b) == CompareKey(nullsLow, keys[1], a, b);
      } else {
        assert keys[1..] == [];
      }
    }
  }

  lemma {:induction false} SortsAreAsked(nullsLow: bool, sorts: seq<Sort>, a: Consent, b: Consent)
    ensures Compare(nullsLow, AllKeys(sorts) + [By(IdColumn, true)], a, b) == CompareSorts(sorts, a, b)
    decreases |sorts|
  {
    var id := [By(IdColumn, true)];
    if sorts == [] {
      assert AllKeys(sorts) + id == id;
      assert id[1..] == [];
    } else {
      assert AllKeys(sorts) + id == KeysOf(sorts[0]) + (AllKeys(sorts[1..]) + id);
      CompareConcat(nullsLow, KeysOf(sorts[0]), AllKeys(sorts[1..]) + id, a, b);
      SortIsAsked(nullsLow, sorts[0], a, b);
      SortsAreAsked(nullsLow, sorts[1..], a, b);
    }
  }

  lemma {:induction false} NoKeys(sorts: seq<Sort>)
    ensures AllKeys(sorts) == [] <==> forall i :: 0 <= i < |sorts| ==> !Known(sorts[i])
    decreases |sorts|
  {
    if sorts != [] {
      NoKeys(sorts[1..]);
      assert forall i :: 1 <= i < |sorts| ==> sorts[i] == sorts[1..][i - 1];
      if forall i :: 0 <= i < |sorts| ==> !Known(sorts[i]) {
        assert forall i :: 0 <= i < |sorts| - 1 ==> sorts[1..][i] == sorts[i + 1];
      }
    }
  }

  /** The clause orders as asked, whatever the database does with NULL. */
  lemma OrderIsAsked(nullsLow: bool, sorts: seq<Sort>, a: Consent, b: Consent)
    ensures Compare(nullsLow, OrderKeys(sorts), a, b) == Asked(sorts, a, b)
  {
    NoKeys(sorts);
    if AllKeys(sorts) == [] {
      var newest := [Sort("createdTime", "DESC")];
      assert newest[1..] == [] && AllKeys(newest) == [By(CreatedColumn, false)] + [] == [By(CreatedColumn, false)];
      SortsAreAsked(nullsLow, newest, a, b);
    } else {
      SortsAreAsked(nullsLow, sorts, a, b);
    }
  }

  /** Without sorts the newest come first, and of two created at once the one with the smaller identifier. */
  lemma DefaultIsNewestFirst(nullsLow: bool, a: Consent, b: Consent)
    ensures Compare(nullsLow, OrderKeys([]), a, b) < 0 <==>
            b.created < a.created || (b.created == a.created && Precedes(a.id, b.id))
  {
    var keys := OrderKeys([]);
    assert keys == [By(CreatedColumn, false), By(IdColumn, true)];
    assert keys[1..] == [By(IdColumn, true)] && keys[1..][1..] == [];
    assert Compare(nullsLow, keys[1..], a, b) == CompareStr(a.id, b.id);
    CompareStrExactly(a.id, b.id);
  }

  // ---- A strict total order ----

  lemma {:induction false} StrOrder(a: string, b: string, c: string)
    ensures CompareStr(a, b) == -CompareStr(b, a)
    ensures CompareStr(a, b) == 0 <==> a == b
    ensures CompareStr(a, b) <= 0 && CompareStr(b, c) <= 0 ==> CompareStr(a, c) <= 0
    ensures CompareStr(a, b) < 0 && CompareStr(b, c) <= 0 ==> CompareStr(a, c) < 0
    ensures CompareStr(a, b) <= 0 && CompareStr(b, c) < 0 ==> CompareStr(a, c) < 0
    decreases |a|
  {
    if a != "" && b != "" {
      StrOrder(a[1..], b[1..], if c != "" then c[1..] else c);
      assert a == [a[0]] + a[1..] && b == [b[0]] + b[1..];
    }
  }

  /** A comparison that behaves: antisymmetric and transitive, strictly where either step is strict. */
  predicate Behaves(ab: int, ba: int, bc: int, ac: int) {
    && ab == -ba
    && (ab <= 0 && bc <= 0 ==> ac <= 0)
    && (ab < 0 && bc <= 0 ==> ac < 0)
    && (ab <= 0 && bc < 0 ==> ac < 0)
    && (ab >= 0 && bc >= 0 ==> ac >= 0)
    && (ab > 0 && bc >= 0 ==> ac > 0)
    && (ab >= 0 && bc > 0 ==> ac > 0)
  }

  lemma StrBehaves(a: string, b: string, c: string)
    ensures Behaves(CompareStr(a, b), CompareStr(b, a), CompareStr(b, c), CompareStr(a, c))
  {
    StrOrder(a, b, c);
    StrOrder(c, b, a);
    StrOrder(c, a, b);
  }

  lemma ColumnBehaves(nullsLow: bool, k: Column, a: Consent, b: Consent, c: Consent)
    ensures Behaves(CompareColumn(nullsLow, k, a, b), CompareColumn(nullsLow, k, b, a),
                    CompareColumn(nullsLow, k, b, c), CompareColumn(nullsLow, k, a, c))
  {
    StrBehaves(a.status, b.status, c.status);
    StrBehaves(a.group, b.group, c.group);
    StrBehaves(a.consentType, b.consentType, c.consentType);
    StrBehaves(a.id, b.id, c.id);
  }

  lemma {:induction false} CompareBehaves(nullsLow: bool, keys: seq<OrderKey>, a: Consent, b: Consent, c: Consent)
    ensures Behaves(Compare(nullsLow, keys, a, b), Compare(nullsLow, keys, b, a),
                    Compare(nullsLow, keys, b, c), Compare(nullsLow, keys, a, c))
    decreases |keys|
  {
    if keys != [] {
      if keys[0].By? {
        ColumnBehaves(nullsLow, keys[0].column, a, b, c);
      }
      CompareBehaves(nullsLow, keys[1..], a, b, c);
    }
  }

  lemma {:induction false} TieBreak(nullsLow: bool, keys: seq<OrderKey>, a: Consent, b: Consent)
    requires keys != [] && keys[|keys| - 1] == By(IdColumn, true) && a.id != b.id
    ensures Compare(nullsLow, keys, a, b) != 0
    decreases |keys|
  {
    StrOrder(a.id, b.id, a.id);
    if |keys| > 1 {
      TieBreak(nullsLow, keys[1..], a, b);
    } else {
      assert keys[1..] == [];
    }
  }

  /** Every sort list, on every database, orders consents strictly and totally. */
  lemma OrderIsTotal(nullsLow: bool, sorts: seq<Sort>, a: Consent, b: Consent, c: Consent)
    ensures var less := (x: Consent, y: Consent) => Compare(nullsLow, OrderKeys(sorts), x, y) < 0;
            && !less(a, a)
            && (a.id != b.id ==> less(a, b) || less(b, a))
            && !(less(a, b) && less(b, a))
            && (less(a, b) && less(b, c) ==> less(a, c))
  {
    CompareBehaves(nullsLow, OrderKeys(sorts), a, b, c);
    CompareBehaves(nullsLow, OrderKeys(sorts), a, a, a);
    if a.id != b.id {
      TieBreak(nullsLow, OrderKeys(sorts), a, b);
    }
  }

  // ---- Sorted results ----

  predicate Less(sorts: seq<Sort>, a: Consent, b: Consent) {
    Asked(sorts, a, b) < 0
  }

  ghost predicate Ordered(sorts: seq<Sort>, rows: seq<Consent>) {
    forall i, j :: 0 <= i < j < |rows| ==> Less(sorts, rows[i], rows[j])
  }

  lemma LessIsTotal(sorts: seq<Sort>, a: Consent, b: Consent, c: Consent)
    ensures !Less(sorts, a, a) && !(Less(sorts, a, b) && Less(sorts, b, a))
    ensures a.id != b.id ==> Less(sorts, a, b) || Less(sorts, b, a)
    ensures Less(sorts, a, b) && Less(sorts, b, c) ==> Less(sorts, a, c)
  {
    OrderIsTotal(true, sorts, a, b, c);
    OrderIsAsked(true, sorts, a, a);
    OrderIsAsked(true, sorts, a, b);
    OrderIsAsked(true, sorts, b, a);
    OrderIsAsked(true, sorts, b, c);
    OrderIsAsked(true, sorts, a, c);
  }

  /** A result has one row per selected consent, in order. */
  ghost predicate IsResult(sorts: seq<Sort>, selected: set<Consent>, rows: seq<Consent>) {
    Ordered(sorts, rows) && forall c :: c in rows <==> c in selected
  }

  ghost predicate DistinctIds(selected: set<Consent>) {
    forall a, b :: a in selected && b in selected && a.id == b.id ==> a == b
  }

  /** The order leaves no choice: the selected consents can be listed in one way only. */
  lemma {:induction false} ResultIsUnique(sorts: seq<Sort>, selected: set<Consent>, x: seq<Consent>, y: seq<Consent>)
    requires IsResult(sorts, selected, x) && IsResult(sorts, selected, y)
    ensures x == y
    decreases |x|
  {
    EmptyResult(sorts, selected, x);
    EmptyResult(sorts, selected, y);
    if x != [] {
      FirstIsSame(sorts, selected, x, y);
      var rest := selected - {x[0]};
      RestIsResult(sorts, selected, x);
      RestIsResult(sorts, selected, y);
      ResultIsUnique(sorts, rest, x[1..], y[1..]);
      assert x == [x[0]] + x[1..] && y == [y[0]] + y[1..];
    }
  }

  lemma EmptyResult(sorts: seq<Sort>, selected: set<Consent>, rows: seq<Consent>)
    requires IsResult(sorts, selected, rows)
    ensures rows == [] <==> selected == {}
  {
    if rows != [] {
      assert rows[0] in rows;
    }
  }

  lemma FirstIsSame(sorts: seq<Sort>, selected: set<Consent>, x: seq<Consent>, y: seq<Consent>)
    requires IsResult(sorts, selected, x) && IsResult(sorts, selected, y) && x != [] && y != []
    ensures x[0] == y[0]
  {
    assert x[0] in y && y[0] in x;
    var j :| 0 <= j < |y| && y[j] == x[0];
    var i :| 0 <= i < |x| && x[i] == y[0];
    if i > 0 && j > 0 {
      LessIsTotal(sorts, x[0], y[0], x[0]);
    }
  }

  lemma RestIsResult(sorts: seq<Sort>, selected: set<Consent>, x: seq<Consent>)
    requires IsResult(sorts, selected, x) && x != []
    ensures IsResult(sorts, selected - {x[0]}, x[1..])
  {
    assert x == [x[0]] + x[1..];
    if x[0] in x[1..] {
      var i :| 0 <= i < |x| - 1 && x[1..][i] == x[0];
      LessIsTotal(sorts, x[0], x[i + 1], x[0]);
      assert false;
    }
  }

  /** There is a result: consents with distinct identifiers can always be listed in order. */
  lemma {:induction false} ResultExists(sorts: seq<Sort>, selected: set<Consent>) returns (rows: seq<Consent>)
    requires DistinctIds(selected)
    ensures IsResult(sorts, selected, rows) && |rows| == |selected|
    decreases |selected|
  {
    if selected == {} {
      return [];
    }
    var c :| c in selected;
    var rest := ResultExists(sorts, selected - {c});
    rows := Insert(sorts, rest, c);
  }

  lemma {:induction false} Insert(sorts: seq<Sort>, rows: seq<Consent>, c: Consent) returns (r: seq<Consent>)
    requires Ordered(sorts, rows) && forall i :: 0 <= i < |rows| ==> rows[i].id != c.id
    ensures Ordered(sorts, r) && |r| == |rows| + 1 && forall x :: x in r <==> x in rows || x == c
    decreases |rows|
  {
    if rows == [] {
      return [c];
    }
    LessIsTotal(sorts, c, rows[0], c);
    assert rows == [rows[0]] + rows[1..];
    if Less(sorts, c, rows[0]) {
      r := [c] + rows;
      forall j | 0 <= j < |rows|
        ensures Less(sorts, c, rows[j])
      {
        LessIsTotal(sorts, c, rows[0], rows[j]);
      }
    } else {
      var rest := Insert(sorts, rows[1..], c);
      r := [rows[0]] + rest;
      forall j | 0 <= j < |rest|
        ensures Less(sorts, rows[0], rest[j])
      {
        assert rest[j] in rest;
        if rest[j] != c {
          var i :| 0 <= i < |rows| - 1 && rows[1..][i] == rest[j];
          assert rows[i + 1] == rest[j];
        }
      }
    }
  }

  // ---- Pages ----

  function AtMost(n: nat, bound: nat): nat {
    if n <= bound then n else bound
  }

  /** LIMIT limit OFFSET offset */
  function Page(rows: seq<Consent>, limit: nat, offset: nat): seq<Consent> {
    rows[AtMost(offset, |rows|)..AtMost(offset + limit, |rows|)]
  }

  /** The offset of page `n`, counting from zero. */
  function PageStart(limit: nat, n: nat): (r: nat)
    ensures r == n * limit
  {
    if n == 0 then 0 else PageStart(limit, n - 1) + limit
  }

  /** The first `n` pages, one after the other. */
  function Pages(rows: seq<Consent>, limit: nat, n: nat): seq<Consent> {
    if n == 0 then [] else Pages(rows, limit, n - 1) + Page(rows, limit, PageStart(limit, n - 1))
  }

  /** Consecutive pages concatenate to the result, to all of it once there are enough of them. */
  lemma {:induction false} PagesConcatenate(rows: seq<Consent>, limit: nat, n: nat)
    ensures Pages(rows, limit, n) == rows[..AtMost(PageStart(limit, n), |rows|)]
    ensures n * limit >= |rows| ==> Pages(rows, limit, n) == rows
    decreases n
  {
    if n > 0 {
      PagesConcatenate(rows, limit, n - 1);
    }
    assert rows[..|rows|] == rows;
  }

  lemma ApartIsDisjoint(sorts: seq<Sort>, rows: seq<Consent>, limit: nat, x: nat, y: nat, c: Consent)
    requires Ordered(sorts, rows) && x + limit <= y && c in Page(rows, limit, x)
    ensures c !in Page(rows, limit, y)
  {
    var i :| 0 <= i < |Page(rows, limit, x)| && Page(rows, limit, x)[i] == c;
    assert rows[x + i] == c;
    if c in Page(rows, limit, y) {
      var j :| 0 <= j < |Page(rows, limit, y)| && Page(rows, limit, y)[j] == c;
      assert rows[y + j] == c;
      LessIsTotal(sorts, c, c, c);
      assert false;
    }
  }

  lemma {:induction false} OffsetsApart(limit: nat, p: nat, q: nat)
    requires p < q
    ensures PageStart(limit, p) + limit <= PageStart(limit, q)
    decreases q
  {
    if q > p + 1 {
      OffsetsApart(limit, p, q - 1);
    }
  }

  /** No consent is on two pages. */
  lemma PagesAreDisjoint(sorts: seq<Sort>, rows: seq<Consent>, limit: nat, p: nat, q: nat, c: Consent)
    requires Ordered(sorts, rows) && p < q && c in Page(rows, limit, PageStart(limit, p))
    ensures c !in Page(rows, limit, PageStart(limit, q))
  {
    OffsetsApart(limit, p, q);
    ApartIsDisjoint(sorts, rows, limit, PageStart(limit, p), PageStart(limit, q), c);
  }
}
