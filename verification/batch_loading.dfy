/** Loading the properties and elements of many purpose versions with one query each, against loading
    them one version at a time. */
module BatchLoading {
  import opened Rows

  datatype PropertyRow = PropertyRow(version: Id, key: string, value: string, org: string)

  datatype MappingRow = MappingRow(version: Id, elementVersion: Id, mandatory: bool, org: string)

  datatype LoadedElement = LoadedElement(elementVersion: Id, element: ElementVersion, mandatory: bool)

  /** A mapping row joined to its element version. */
  datatype JoinedRow = JoinedRow(version: Id, loaded: LoadedElement)

  /** A purpose version with what is loaded into it. */
  datatype Version = Version(id: Id, properties: map<string, string>, elements: seq<LoadedElement>)

  /** The primary key of PURPOSE_PROPERTY. */
  predicate KeysUnique(table: seq<PropertyRow>) {
    forall i, j :: 0 <= i < |table| && 0 <= j < |table| && table[i].version == table[j].version &&
      table[i].key == table[j].key
      ==> table[i] == table[j]
  }

  // ---- Queries: the matching rows, in an order of the database's choosing ----

  predicate OneOf(row: PropertyRow, ids: seq<Id>, org: string) {
    row.version in ids && row.org == org
  }

  function PropertyRows(table: seq<PropertyRow>, ids: seq<Id>, org: string): seq<PropertyRow> {
    if table == [] then []
    else (if OneOf(table[0], ids, org) then [table[0]] else []) + PropertyRows(table[1..], ids, org)
  }

  /** Mapping rows joined to ELEMENT; a row whose element version does not exist is lost. */
  function JoinedRows(table: seq<MappingRow>, elements: map<Id, ElementVersion>, ids: seq<Id>,
                      org: string): seq<JoinedRow> {
    if table == [] then []
    else
      var row := table[0];
      (if row.version in ids && row.org == org && row.elementVersion in elements
       then [JoinedRow(row.version, LoadedElement(row.elementVersion, elements[row.elementVersion], row.mandatory))]
       else [])
        + JoinedRows(table[1..], elements, ids, org)
  }

  method QueryProperties(table: seq<PropertyRow>, ids: seq<Id>, org: string) returns (rows: seq<PropertyRow>)
    ensures multiset(rows) == multiset(PropertyRows(table, ids, org))
  {
    rows := PropertyRows(table, ids, org);
  }

  method QueryElements(table: seq<MappingRow>, elements: map<Id, ElementVersion>, ids: seq<Id>, org: string)
    returns (rows: seq<JoinedRow>)
    ensures multiset(rows) == multiset(JoinedRows(table, elements, ids, org))
  {
    rows := JoinedRows(table, elements, ids, org);
  }

  lemma {:induction false} PropertyRowsAre(table: seq<PropertyRow>, ids: seq<Id>, org: string, row: PropertyRow)
    ensures row in PropertyRows(table, ids, org) <==> row in table && OneOf(row, ids, org)
    decreases |table|
  {
    if table != [] {
      assert table == [table[0]] + table[1..];
      PropertyRowsAre(table[1..], ids, org, row);
    }
  }

  // ---- What is to be loaded ----

  /** The properties of one version: one entry per row. */
  ghost predicate HasProperties(m: map<string, string>, table: seq<PropertyRow>, id: Id, org: string) {
    && (forall k :: k in m ==> PropertyRow(id, k, m[k], org) in table)
    && (forall row :: row in table && row.version == id && row.org == org ==> row.key in m && m[row.key] == row.value)
  }

  /** The elements of one version, with their multiplicity and in no particular order. */
  ghost predicate HasElements(loaded: seq<LoadedElement>, table: seq<MappingRow>, elements: map<Id, ElementVersion>,
                              id: Id, org: string) {
    multiset(loaded) == multiset(Loaded(JoinedRows(table, elements, [id], org)))
  }

  function Loaded(rows: seq<JoinedRow>): seq<LoadedElement> {
    seq(|rows|, i requires 0 <= i < |rows| => rows[i].loaded)
  }

  /** The row at `i` maps the version to this element, as this element is stored and with this flag. */
  predicate MapsAt(table: seq<MappingRow>, elements: map<Id, ElementVersion>, id: Id, org: string, e: LoadedElement,
                   i: nat)
    requires i < |table|
  {
    && table[i].version == id && table[i].org == org && table[i].elementVersion == e.elementVersion
    && table[i].mandatory == e.mandatory
    && e.elementVersion in elements && elements[e.elementVersion] == e.element
  }

  function RowsFor(table: seq<MappingRow>, elements: map<Id, ElementVersion>, id: Id, org: string,
                   e: LoadedElement): set<nat> {
    set i: nat | i < |table| && MapsAt(table, elements, id, org, e, i)
  }

  lemma {:induction false} JoinedAppend(table: seq<MappingRow>, row: MappingRow, elements: map<Id, ElementVersion>,
                                        ids: seq<Id>, org: string)
    ensures JoinedRows(table + [row], elements, ids, org) ==
            JoinedRows(table, elements, ids, org) + JoinedRows([row], elements, ids, org)
    decreases |table|
  {
    if table == [] {
      assert table + [row] == [row];
    } else {
      assert (table + [row])[1..] == table[1..] + [row];
      JoinedAppend(table[1..], row, elements, ids, org);
    }
  }

  lemma OneJoined(row: MappingRow, elements: map<Id, ElementVersion>, id: Id, org: string, e: LoadedElement)
    ensures multiset(Loaded(JoinedRows([row], elements, [id], org)))[e] ==
            if MapsAt([row], elements, id, org, e, 0) then 1 else 0
  {
    assert [row][1..] == [];
  }

  lemma {:induction false} JoinedCount(table: seq<MappingRow>, elements: map<Id, ElementVersion>, id: Id, org: string,
                                       e: LoadedElement)
    ensures multiset(Loaded(JoinedRows(table, elements, [id], org)))[e] == |RowsFor(table, elements, id, org, e)|
    decreases |table|
  {
    if table == [] {
      assert RowsFor(table, elements, id, org, e) == {};
    } else {
      var n := |table| - 1;
      var rest, row := table[..n], table[n];
      assert table == rest + [row];
      JoinedCount(rest, elements, id, org, e);
      JoinedAppend(rest, row, elements, [id], org);
      OneJoined(row, elements, id, org, e);
      LoadedConcat(JoinedRows(rest, elements, [id], org), JoinedRows([row], elements, [id], org));
      RowsForAppend(rest, row, elements, id, org, e);
    }
  }

  lemma RowsForAppend(table: seq<MappingRow>, row: MappingRow, elements: map<Id, ElementVersion>, id: Id, org: string,
                      e: LoadedElement)
    ensures |RowsFor(table + [row], elements, id, org, e)| ==
            |RowsFor(table, elements, id, org, e)| + if MapsAt([row], elements, id, org, e, 0) then 1 else 0
  {
    var more := table + [row];
    assert forall i: nat :: i < |table| ==>
      (MapsAt(more, elements, id, org, e, i) <==> MapsAt(table, elements, id, org, e, i));
    if MapsAt([row], elements, id, org, e, 0) {
      assert RowsFor(more, elements, id, org, e) == RowsFor(table, elements, id, org, e) + {|table|};
    } else {
      assert RowsFor(more, elements, id, org, e) == RowsFor(table, elements, id, org, e);
    }
  }

  lemma LoadedConcat(a: seq<JoinedRow>, b: seq<JoinedRow>)
    ensures multiset(Loaded(a + b)) == multiset(Loaded(a)) + multiset(Loaded(b))
  {
    assert Loaded(a + b) == Loaded(a) + Loaded(b);
  }

  /** Loaded means: every element as often as rows of the table map the version to it, as it is stored and with
      the flag of the row. */
  lemma HasElementsExactly(loaded: seq<LoadedElement>, table: seq<MappingRow>, elements: map<Id, ElementVersion>,
                           id: Id, org: string)
    ensures HasElements(loaded, table, elements, id, org) <==>
            forall e :: multiset(loaded)[e] == |RowsFor(table, elements, id, org, e)|
  {
    forall e
      ensures multiset(Loaded(JoinedRows(table, elements, [id], org)))[e] == |RowsFor(table, elements, id, org, e)|
    {
      JoinedCount(table, elements, id, org, e);
    }
  }

  /** The rows of one version among the rows of many. */
  function Picked(rows: seq<JoinedRow>, id: Id): seq<JoinedRow> {
    if rows == [] then []
    else Picked(rows[..|rows| - 1], id) + if rows[|rows| - 1].version == id then [rows[|rows| - 1]] else []
  }

  // ---- One version at a time ----

  /** populateVersion. */
  method PopulateVersion(v: Version, properties: seq<PropertyRow>, mappings: seq<MappingRow>,
                         elements: map<Id, ElementVersion>, org: string)
    returns (r: Version)
    requires KeysUnique(properties)
    ensures r.id == v.id && HasProperties(r.properties, properties, v.id, org)
    ensures HasElements(r.elements, mappings, elements, v.id, org)
  {
    var rows := QueryProperties(properties, [v.id], org);
    var props: map<string, string> := map[];
    RowsAreOneOf(rows, properties, [v.id], org);
    for j := 0 to |rows|
      invariant forall k :: k in props ==> PropertyRow(v.id, k, props[k], org) in properties
      invariant forall i :: 0 <= i < j ==> rows[i].key in props && props[rows[i].key] == rows[i].value
    {
      assert rows[j] in rows;
      SameKeySameRow(properties, rows[j], org, props);
      props := props[rows[j].key := rows[j].value];
    }
    var joined := QueryElements(mappings, elements, [v.id], org);
    LoadedBag(joined, JoinedRows(mappings, elements, [v.id], org));
    r := Version(v.id, props, Loaded(joined));
  }

  ghost predicate ExactlyRows(rows: seq<PropertyRow>, table: seq<PropertyRow>, ids: seq<Id>, org: string) {
    forall row :: row in rows <==> row in table && OneOf(row, ids, org)
  }

  lemma RowsAreOneOf(rows: seq<PropertyRow>, table: seq<PropertyRow>, ids: seq<Id>, org: string)
    requires multiset(rows) == multiset(PropertyRows(table, ids, org))
    ensures ExactlyRows(rows, table, ids, org)
  {
    forall row
      ensures row in rows <==> row in table && OneOf(row, ids, org)
    {
      PropertyRowsAre(table, ids, org, row);
      assert row in rows <==> row in multiset(rows);
      assert row in PropertyRows(table, ids, org) <==> row in multiset(PropertyRows(table, ids, org));
    }
  }

  lemma SameKeySameRow(table: seq<PropertyRow>, row: PropertyRow, org: string, m: map<string, string>)
    requires KeysUnique(table) && row in table && row.org == org
    requires forall k :: k in m ==> PropertyRow(row.version, k, m[k], org) in table
    ensures row.key in m ==> m[row.key] == row.value
  {
    if row.key in m {
      var i :| 0 <= i < |table| && table[i] == row;
      var j :| 0 <= j < |table| && table[j] == PropertyRow(row.version, row.key, m[row.key], org);
      assert table[i].version == table[j].version && table[i].key == table[j].key;
    }
  }

  lemma BagWithout<T>(s: seq<T>, j: nat)
    requires j < |s|
    ensures multiset(s[..j] + s[j + 1..]) == multiset(s) - multiset{s[j]}
    ensures multiset(s) == multiset(s[..j] + s[j + 1..]) + multiset{s[j]}
  {
    assert s == s[..j] + ([s[j]] + s[j + 1..]);
  }

  function Without<T>(s: seq<T>, j: nat): seq<T>
    requires j < |s|
  {
    s[..j] + s[j + 1..]
  }

  lemma LoadedWithout(s: seq<JoinedRow>, j: nat)
    requires j < |s|
    ensures multiset(Loaded(s)) == multiset(Loaded(Without(s, j))) + multiset{s[j].loaded}
  {
    BagWithout(Loaded(s), j);
    assert Loaded(s)[..j] + Loaded(s)[j + 1..] == Loaded(Without(s, j));
  }

  lemma {:induction false} LoadedBag(a: seq<JoinedRow>, b: seq<JoinedRow>)
    requires multiset(a) == multiset(b)
    ensures multiset(Loaded(a)) == multiset(Loaded(b))
    decreases |a|
  {
    if a == [] {
      assert |b| == |multiset(b)| == 0;
    } else {
      assert a[0] in multiset(b);
      var j :| 0 <= j < |b| && b[j] == a[0];
      BagWithout(a, 0);
      BagWithout(b, j);
      LoadedBag(Without(a, 0), Without(b, j));
      LoadedWithout(a, 0);
      LoadedWithout(b, j);
    }
  }

  // ---- Many at a time ----

  function Ids(versions: seq<Version>): seq<Id> {
    seq(|versions|, i requires 0 <= i < |versions| => versions[i].id)
  }

  /** No later entry of the slice is for the same version. */
  predicate LastOfItsId(ids: seq<Id>, i: nat)
    requires i < |ids|
  {
    forall j :: i < j < |ids| ==> ids[j] != ids[i]
  }

  /** The index each version identifier ends up with. */
  ghost predicate Indexes(m: map<Id, nat>, ids: seq<Id>) {
    && (forall id :: id in m ==> m[id] < |ids| && ids[m[id]] == id && LastOfItsId(ids, m[id]))
    && (forall i :: 0 <= i < |ids| ==> ids[i] in m)
  }

  lemma IndexedIsLast(m: map<Id, nat>, ids: seq<Id>, i: nat)
    requires Indexes(m, ids) && i < |ids|
    ensures m[ids[i]] == i <==> LastOfItsId(ids, i)
  {
  }

  /** The slice before anything is loaded into one of its fields. */
  function Reset(vs: seq<Version>, resetProperties: bool): seq<Version> {
    seq(|vs|, i requires 0 <= i < |vs| =>
      if resetProperties then vs[i].(properties := map[]) else vs[i].(elements := []))
  }

  /** byVersionID, built while the field to load is reset. */
  method IndexVersions(versions: array<Version>, resetProperties: bool) returns (m: map<Id, nat>)
    modifies versions
    ensures versions[..] == Reset(old(versions[..]), resetProperties)
    ensures Indexes(m, Ids(old(versions[..])))
  {
    m := map[];
    for i := 0 to versions.Length
      invariant forall j :: 0 <= j < i ==>
                  versions[j] == if resetProperties then old(versions[j]).(properties := map[])
                                 else old(versions[j]).(elements := [])
      invariant forall j :: i <= j < versions.Length ==> versions[j] == old(versions[j])
      invariant forall id :: id in m ==>
                  && m[id] < i && old(versions[..])[m[id]].id == id
                  && forall j :: m[id] < j < i ==> old(versions[..])[j].id != id
      invariant forall j :: 0 <= j < i ==> old(versions[..])[j].id in m
    {
      m := m[versions[i].id := i];
      versions[i] := if resetProperties then versions[i].(properties := map[]) else versions[i].(elements := []);
    }
  }

  ghost predicate PropertiesUpTo(v: Version, indexed: bool, table: seq<PropertyRow>, rows: seq<PropertyRow>,
                                 org: string) {
    && (forall k :: k in v.properties ==> PropertyRow(v.id, k, v.properties[k], org) in table)
    && (!indexed ==> v.properties == map[])
    && (indexed ==> forall i :: 0 <= i < |rows| && rows[i].version == v.id ==>
                      rows[i].key in v.properties && v.properties[rows[i].key] == rows[i].value)
  }

  lemma PropertiesStep(v: Version, indexed: bool, table: seq<PropertyRow>, rows: seq<PropertyRow>, row: PropertyRow,
                       org: string)
    requires KeysUnique(table) && row in table && row.org == org
    requires PropertiesUpTo(v, indexed, table, rows, org)
    ensures row.version == v.id && indexed ==>
              PropertiesUpTo(v.(properties := v.properties[row.key := row.value]), indexed, table, rows + [row], org)
    ensures row.version != v.id || !indexed ==> PropertiesUpTo(v, indexed, table, rows + [row], org)
  {
    if row.version == v.id && indexed {
      SameKeySameRow(table, row, org, v.properties);
    }
  }

  lemma AllProperties(v: Version, table: seq<PropertyRow>, rows: seq<PropertyRow>, ids: seq<Id>, org: string)
    requires PropertiesUpTo(v, true, table, rows, org) && v.id in ids
    requires ExactlyRows(rows, table, ids, org)
    ensures HasProperties(v.properties, table, v.id, org)
  {
    forall row | row in table && row.version == v.id && row.org == org
      ensures row.key in v.properties && v.properties[row.key] == row.value
    {
      assert row in rows;
    }
  }

  /** One row put into the entry it belongs to. */
  function WithProperty(vs: seq<Version>, m: map<Id, nat>, row: PropertyRow): seq<Version> {
    seq(|vs|, i requires 0 <= i < |vs| =>
      if row.version in m && m[row.version] == i then vs[i].(properties := vs[i].properties[row.key := row.value])
      else vs[i])
  }

  lemma OnlyPropertiesStep(vs0: seq<Version>, vs: seq<Version>, m: map<Id, nat>, row: PropertyRow)
    requires OnlyPropertiesChanged(vs0, vs)
    ensures OnlyPropertiesChanged(vs0, WithProperty(vs, m, row))
  {
  }

  ghost predicate PropertiesReached(vs: seq<Version>, ids: seq<Id>, m: map<Id, nat>, table: seq<PropertyRow>,
                                    rows: seq<PropertyRow>, org: string) {
    && Ids(vs) == ids && Indexes(m, ids)
    && forall i :: 0 <= i < |ids| ==> PropertiesUpTo(vs[i], m[ids[i]] == i, table, rows, org)
  }

  lemma PropertiesReachedStep(vs: seq<Version>, ids: seq<Id>, m: map<Id, nat>, table: seq<PropertyRow>,
                              rows: seq<PropertyRow>, row: PropertyRow, org: string)
    requires KeysUnique(table) && row in table && row.org == org && PropertiesReached(vs, ids, m, table, rows, org)
    ensures PropertiesReached(WithProperty(vs, m, row), ids, m, table, rows + [row], org)
  {
    var vs' := WithProperty(vs, m, row);
    assert Ids(vs') == ids by {
      assert forall i :: 0 <= i < |vs| ==> vs'[i].id == vs[i].id;
    }
    forall i | 0 <= i < |ids|
      ensures PropertiesUpTo(vs'[i], m[ids[i]] == i, table, rows + [row], org)
    {
      assert vs[i].id == Ids(vs)[i];
      PropertiesStep(vs[i], m[ids[i]] == i, table, rows, row, org);
    }
  }

  lemma PropertiesReachedFirst(before: seq<Version>, m: map<Id, nat>, table: seq<PropertyRow>, org: string)
    requires Indexes(m, Ids(before))
    ensures var vs := Reset(before, true);
            OnlyPropertiesChanged(before, vs) && PropertiesReached(vs, Ids(before), m, table, [], org)
  {
    assert Ids(Reset(before, true)) == Ids(before);
  }

  ghost predicate PropertiesLoaded(vs: seq<Version>, i: nat, table: seq<PropertyRow>, org: string)
    requires i < |vs|
  {
    if LastOfItsId(Ids(vs), i) then HasProperties(vs[i].properties, table, vs[i].id, org) else vs[i].properties == map[]
  }

  ghost predicate AllPropertiesLoaded(vs: seq<Version>, table: seq<PropertyRow>, org: string) {
    forall i :: 0 <= i < |vs| ==> PropertiesLoaded(vs, i, table, org)
  }

  lemma PropertiesReachedAll(vs: seq<Version>, ids: seq<Id>, m: map<Id, nat>, table: seq<PropertyRow>,
                             rows: seq<PropertyRow>, org: string)
    requires PropertiesReached(vs, ids, m, table, rows, org) && ExactlyRows(rows, table, ids, org)
    ensures AllPropertiesLoaded(vs, table, org)
  {
    forall i | 0 <= i < |vs|
      ensures PropertiesLoaded(vs, i, table, org)
    {
      assert vs[i].id == Ids(vs)[i];
      IndexedIsLast(m, ids, i);
      if LastOfItsId(ids, i) {
        AllProperties(vs[i], table, rows, ids, org);
      }
    }
  }

  method PlaceProperty(versions: array<Version>, m: map<Id, nat>, row: PropertyRow)
    requires forall id :: id in m ==> m[id] < versions.Length
    modifies versions
    ensures versions[..] == WithProperty(old(versions[..]), m, row)
  {
    if row.version in m {
      var idx := m[row.version];
      versions[idx] := versions[idx].(properties := versions[idx].properties[row.key := row.value]);
    }
  }

  ghost predicate OnlyPropertiesChanged(vs: seq<Version>, vs': seq<Version>) {
    |vs'| == |vs| && forall i :: 0 <= i < |vs| ==> vs'[i].id == vs[i].id && vs'[i].elements == vs[i].elements
  }

  /** batchPopulateProperties: the last entry for an identifier gets exactly its properties, any other
      entry none; nothing else of an entry changes. */
  method BatchPopulateProperties(versions: array<Version>, table: seq<PropertyRow>, org: string)
    requires KeysUnique(table)
    modifies versions
    ensures OnlyPropertiesChanged(old(versions[..]), versions[..])
    ensures AllPropertiesLoaded(versions[..], table, org)
  {
    ghost var before := versions[..];
    ghost var ids := Ids(before);
    var rows := QueryProperties(table, Ids(versions[..]), org);
    var byVersionID := IndexVersions(versions, true);
    RowsAreOneOf(rows, table, ids, org);
    PropertiesReachedFirst(before, byVersionID, table, org);
    for j := 0 to |rows|
      invariant OnlyPropertiesChanged(before, versions[..])
      invariant PropertiesReached(versions[..], ids, byVersionID, table, rows[..j], org)
    {
      var row := rows[j];
      assert row in rows && rows[..j + 1] == rows[..j] + [row];
      PropertiesReachedStep(versions[..], ids, byVersionID, table, rows[..j], row, org);
      OnlyPropertiesStep(before, versions[..], byVersionID, row);
      PlaceProperty(versions, byVersionID, row);
    }
    assert rows[..|rows|] == rows;
    PropertiesReachedAll(versions[..], ids, byVersionID, table, rows, org);
  }

  // ---- Elements ----

  function PickedElements(rows: seq<JoinedRow>, id: Id): seq<LoadedElement> {
    Loaded(Picked(rows, id))
  }

  lemma PickedAppend(rows: seq<JoinedRow>, row: JoinedRow, id: Id)
    ensures PickedElements(rows + [row], id) ==
            PickedElements(rows, id) + if row.version == id then [row.loaded] else []
  {
    assert (rows + [row])[..|rows|] == rows;
  }

  lemma {:induction false} PickedBag(rows: seq<JoinedRow>, id: Id, row: JoinedRow)
    ensures multiset(Picked(rows, id))[row] == if row.version == id then multiset(rows)[row] else 0
    decreases |rows|
  {
    if rows != [] {
      var n := |rows| - 1;
      PickedBag(rows[..n], id, row);
      assert rows == rows[..n] + [rows[n]];
    }
  }

  lemma {:induction false} JoinedOneOrMany(table: seq<MappingRow>, elements: map<Id, ElementVersion>, ids: seq<Id>,
                                           id: Id, org: string, row: JoinedRow)
    requires id in ids
    ensures multiset(JoinedRows(table, elements, [id], org))[row] ==
            if row.version == id then multiset(JoinedRows(table, elements, ids, org))[row] else 0
    decreases |table|
  {
    if table != [] {
      JoinedOneOrMany(table[1..], elements, ids, id, org, row);
    }
  }

  /** The rows of one version among the rows of many are the rows it would be given alone. */
  lemma PickedAreItsOwn(rows: seq<JoinedRow>, table: seq<MappingRow>, elements: map<Id, ElementVersion>, ids: seq<Id>,
                        id: Id, org: string)
    requires id in ids && multiset(rows) == multiset(JoinedRows(table, elements, ids, org))
    ensures HasElements(PickedElements(rows, id), table, elements, id, org)
  {
    var own := JoinedRows(table, elements, [id], org);
    forall row
      ensures multiset(Picked(rows, id))[row] == multiset(own)[row]
    {
      PickedBag(rows, id, row);
      JoinedOneOrMany(table, elements, ids, id, org, row);
    }
    assert multiset(Picked(rows, id)) == multiset(own);
    LoadedBag(Picked(rows, id), own);
  }

  function WithElementRow(vs: seq<Version>, m: map<Id, nat>, row: JoinedRow): seq<Version> {
    seq(|vs|, i requires 0 <= i < |vs| =>
      if row.version in m && m[row.version] == i then vs[i].(elements := vs[i].elements + [row.loaded]) else vs[i])
  }

  ghost predicate ElementsReached(vs: seq<Version>, ids: seq<Id>, m: map<Id, nat>, rows: seq<JoinedRow>) {
    && Ids(vs) == ids && Indexes(m, ids)
    && forall i :: 0 <= i < |ids| ==> vs[i].elements == if m[ids[i]] == i then PickedElements(rows, ids[i]) else []
  }

  lemma ElementsReachedStep(vs: seq<Version>, ids: seq<Id>, m: map<Id, nat>, rows: seq<JoinedRow>, row: JoinedRow)
    requires ElementsReached(vs, ids, m, rows)
    ensures ElementsReached(WithElementRow(vs, m, row), ids, m, rows + [row])
  {
    var vs' := WithElementRow(vs, m, row);
    assert Ids(vs') == ids by {
      assert forall i :: 0 <= i < |vs| ==> vs'[i].id == vs[i].id;
    }
    forall i | 0 <= i < |ids|
      ensures vs'[i].elements == if m[ids[i]] == i then PickedElements(rows + [row], ids[i]) else []
    {
      PickedAppend(rows, row, ids[i]);
    }
  }

  lemma OnlyElementsStep(vs0: seq<Version>, vs: seq<Version>, m: map<Id, nat>, row: JoinedRow)
    requires OnlyElementsChanged(vs0, vs)
    ensures OnlyElementsChanged(vs0, WithElementRow(vs, m, row))
  {
  }

  lemma ElementsReachedFirst(before: seq<Version>, m: map<Id, nat>)
    requires Indexes(m, Ids(before))
    ensures OnlyElementsChanged(before, Reset(before, false))
    ensures ElementsReached(Reset(before, false), Ids(before), m, [])
  {
    assert Ids(Reset(before, false)) == Ids(before);
  }

  ghost predicate ElementsLoaded(vs: seq<Version>, i: nat, table: seq<MappingRow>, elements: map<Id, ElementVersion>,
                                 org: string)
    requires i < |vs|
  {
    if LastOfItsId(Ids(vs), i) then HasElements(vs[i].elements, table, elements, vs[i].id, org)
    else vs[i].elements == []
  }

  ghost predicate AllElementsLoaded(vs: seq<Version>, table: seq<MappingRow>, elements: map<Id, ElementVersion>,
                                    org: string) {
    forall i :: 0 <= i < |vs| ==> ElementsLoaded(vs, i, table, elements, org)
  }

  lemma ElementsReachedAll(vs: seq<Version>, ids: seq<Id>, m: map<Id, nat>, rows: seq<JoinedRow>,
                           table: seq<MappingRow>,
                           elements: map<Id, ElementVersion>, org: string)
    requires ElementsReached(vs, ids, m, rows)
    requires multiset(rows) == multiset(JoinedRows(table, elements, ids, org))
    ensures AllElementsLoaded(vs, table, elements, org)
  {
    forall i | 0 <= i < |vs|
      ensures ElementsLoaded(vs, i, table, elements, org)
    {
      assert vs[i].id == Ids(vs)[i];
      IndexedIsLast(m, ids, i);
      PickedAreItsOwn(rows, table, elements, ids, ids[i], org);
    }
  }

  method PlaceElement(versions: array<Version>, m: map<Id, nat>, row: JoinedRow)
    requires forall id :: id in m ==> m[id] < versions.Length
    modifies versions
    ensures versions[..] == WithElementRow(old(versions[..]), m, row)
  {
    if row.version in m {
      var idx := m[row.version];
      versions[idx] := versions[idx].(elements := versions[idx].elements + [row.loaded]);
    }
  }

  ghost predicate OnlyElementsChanged(vs: seq<Version>, vs': seq<Version>) {
    |vs'| == |vs| && forall i :: 0 <= i < |vs| ==> vs'[i].id == vs[i].id && vs'[i].properties == vs[i].properties
  }

  /** batchPopulateElements. */
  method BatchPopulateElements(versions: array<Version>, table: seq<MappingRow>, elements: map<Id, ElementVersion>,
                               org: string)
    modifies versions
    ensures OnlyElementsChanged(old(versions[..]), versions[..])
    ensures AllElementsLoaded(versions[..], table, elements, org)
  {
    ghost var before := versions[..];
    ghost var ids := Ids(before);
    var rows := QueryElements(table, elements, Ids(versions[..]), org);
    var byVersionID := IndexVersions(versions, false);
    ElementsReachedFirst(before, byVersionID);
    for j := 0 to |rows|
      invariant OnlyElementsChanged(before, versions[..])
      invariant ElementsReached(versions[..], ids, byVersionID, rows[..j])
    {
      var row := rows[j];
      assert rows[..j + 1] == rows[..j] + [row];
      ElementsReachedStep(versions[..], ids, byVersionID, rows[..j], row);
      OnlyElementsStep(before, versions[..], byVersionID, row);
      PlaceElement(versions, byVersionID, row);
    }
    assert rows[..|rows|] == rows;
    ElementsReachedAll(versions[..], ids, byVersionID, rows, table, elements, org);
  }

  /** The slice with everything loaded: the last entry for an identifier has exactly what that version
      would be given alone, any other entry nothing. */
  ghost predicate SliceLoaded(vs0: seq<Version>, vs: seq<Version>, properties: seq<PropertyRow>,
                              mappings: seq<MappingRow>,
                              elements: map<Id, ElementVersion>, org: string) {
    && |vs| == |vs0| && (forall i :: 0 <= i < |vs| ==> vs[i].id == vs0[i].id)
    && forall i :: 0 <= i < |vs| ==>
      PropertiesLoaded(vs, i, properties, org) && ElementsLoaded(vs, i, mappings, elements, org)
  }

  lemma BothLoaded(vs0: seq<Version>, vs1: seq<Version>, vs2: seq<Version>, properties: seq<PropertyRow>,
                   mappings: seq<MappingRow>,
                   elements: map<Id, ElementVersion>, org: string)
    requires OnlyPropertiesChanged(vs0, vs1) && AllPropertiesLoaded(vs1, properties, org)
    requires OnlyElementsChanged(vs1, vs2) && AllElementsLoaded(vs2, mappings, elements, org)
    ensures SliceLoaded(vs0, vs2, properties, mappings, elements, org)
  {
    assert Ids(vs1) == Ids(vs2);
    forall i | 0 <= i < |vs2|
      ensures PropertiesLoaded(vs2, i, properties, org) && ElementsLoaded(vs2, i, mappings, elements, org)
    {
      assert PropertiesLoaded(vs1, i, properties, org);
    }
  }

  /** populateVersionSlice: with distinct version identifiers every entry gets exactly what
      populateVersion would load for it alone, and no row is attached to another version. */
  method PopulateVersionSlice(versions: array<Version>, properties: seq<PropertyRow>, mappings: seq<MappingRow>,
                              elements: map<Id, ElementVersion>, org: string)
    requires KeysUnique(properties)
    modifies versions
    ensures SliceLoaded(old(versions[..]), versions[..], properties, mappings, elements, org)
  {
    if versions.Length == 0 {
      return;
    }
    ghost var vs0 := versions[..];
    BatchPopulateProperties(versions, properties, org);
    ghost var vs1 := versions[..];
    BatchPopulateElements(versions, mappings, elements, org);
    BothLoaded(vs0, vs1, versions[..], properties, mappings, elements, org);
  }

  /** In a slice of distinct versions, every entry is what populateVersion makes of it. */
  lemma SliceIsOneByOne(vs0: seq<Version>, vs: seq<Version>, i: nat, alone: Version, properties: seq<PropertyRow>,
                        mappings: seq<MappingRow>,
                        elements: map<Id, ElementVersion>, org: string)
    requires SliceLoaded(vs0, vs, properties, mappings, elements, org) && i < |vs|
    requires forall j, k :: 0 <= j < k < |vs0| ==> vs0[j].id != vs0[k].id
    requires alone.id == vs0[i].id && HasProperties(alone.properties, properties, alone.id, org)
    requires HasElements(alone.elements, mappings, elements, alone.id, org)
    ensures vs[i].properties == alone.properties && multiset(vs[i].elements) == multiset(alone.elements)
  {
    assert Ids(vs) == Ids(vs0);
    assert PropertiesLoaded(vs, i, properties, org) && ElementsLoaded(vs, i, mappings, elements, org);
    assert LastOfItsId(Ids(vs), i);
    LoadedTheSame(vs[i], alone, properties, mappings, elements, org);
  }

  /** Loading is determined: two results for the same version agree, elements up to order. */
  lemma LoadedTheSame(a: Version, b: Version, properties: seq<PropertyRow>, mappings: seq<MappingRow>,
                      elements: map<Id, ElementVersion>, org: string)
    requires a.id == b.id
    requires HasProperties(a.properties, properties, a.id, org) && HasProperties(b.properties, properties, b.id, org)
    requires HasElements(a.elements, mappings, elements, a.id, org)
    requires HasElements(b.elements, mappings, elements, b.id, org)
    ensures a.properties == b.properties && multiset(a.elements) == multiset(b.elements)
  {
    forall k
      ensures k in a.properties <==> k in b.properties
      ensures k in a.properties ==> a.properties[k] == b.properties[k]
    {
      if k in a.properties {
        assert PropertyRow(a.id, k, a.properties[k], org) in properties;
      }
      if k in b.properties {
        assert PropertyRow(b.id, k, b.properties[k], org) in properties;
      }
    }
  }
}
