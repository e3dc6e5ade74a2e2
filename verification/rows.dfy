/** The rows of the database, and the read model assembled from them. */
module Rows {
  import opened Wrappers

  type Id = string

  /** Every table below CONSENT is read and written by consent and organization together. */
  datatype Key = Key(id: Id, org: string)

  datatype Consent = Consent(
    id: Id, org: string, group: string, consentType: string, status: string,
    frequency: Option<int>, expiration: Option<int>, recurring: Option<bool>, validity: Option<int>,
    created: int, updated: int)

  datatype Auth = Auth(
    id: Id, authType: string, user: Option<string>, status: string, updated: int, resources: Option<string>)

  datatype Audit = Audit(
    id: Id, current: string, previous: Option<string>, time: int, reason: string, actor: Option<string>)

  /** The full read model of a consent taken just before a change. */
  datatype History = History(id: Id, time: int, actor: Option<string>, reason: string, snapshot: ConsentView)

  datatype Approval = Approval(approved: bool, value: Option<string>)

  datatype VersionInfo = VersionInfo(
    displayName: Option<string>, description: Option<string>, properties: map<string, string>, created: int)

  datatype PurposeVersion = PurposeVersion(
    versionId: Id, id: Id, name: string, group: string, num: int, info: VersionInfo, org: string)

  datatype Mapping = Mapping(mandatory: bool, org: string)

  datatype ElementVersion = ElementVersion(
    versionId: Id, id: Id, name: string, namespace: string, elementType: string, num: int,
    schema: Option<string>, info: VersionInfo, org: string)

  /** The three versioned layers a consent is created against. A mapping is keyed by purpose
      version and element version. */
  datatype Catalog = Catalog(
    purposes: map<Id, PurposeVersion>, mappings: map<(Id, Id), Mapping>, elements: map<Id, ElementVersion>)

  const EMPTY_CATALOG := Catalog(map[], map[], map[])

  datatype PurposeView = PurposeView(
    id: Id, name: string, group: string, num: int, info: VersionInfo)

  datatype ElementView = ElementView(
    id: Id, name: string, namespace: string, num: int, elementType: string, info: VersionInfo,
    mandatory: bool, approval: Approval)

  /** What a read of one consent returns. Elements are keyed by the purpose version and element
      version they belong to, since their order is not defined. */
  datatype ConsentView = ConsentView(
    consent: Consent, attributes: map<string, string>, auths: seq<Auth>,
    purposes: map<Id, PurposeView>, elements: map<(Id, Id), ElementView>)

  datatype Row<T> = Row(key: Key, val: T)

  /** SELECT ... WHERE CONSENT_ID = ? AND ORG_ID = ? */
  function Select<T>(rows: seq<Row<T>>, k: Key): seq<T> {
    if rows == [] then []
    else (if rows[0].key == k then [rows[0].val] else []) + Select(rows[1..], k)
  }

  /** DELETE ... WHERE CONSENT_ID = ? AND ORG_ID = ? */
  function Remove<T>(rows: seq<Row<T>>, k: Key): seq<Row<T>> {
    if rows == [] then []
    else (if rows[0].key == k then [] else [rows[0]]) + Remove(rows[1..], k)
  }

  lemma {:induction false} SelectAppend<T>(rows: seq<Row<T>>, row: Row<T>, k: Key)
    ensures Select(rows + [row], k) == Select(rows, k) + if row.key == k then [row.val] else []
  {
    if rows == [] {
      assert rows + [row] == [row];
    } else {
      assert (rows + [row])[1..] == rows[1..] + [row];
      SelectAppend(rows[1..], row, k);
    }
  }

  lemma {:induction false} SelectRemove<T>(rows: seq<Row<T>>, k: Key, k': Key)
    ensures Select(Remove(rows, k), k') == if k == k' then [] else Select(rows, k')
  {
    if rows != [] {
      SelectRemove(rows[1..], k, k');
      var rest := Remove(rows[1..], k);
      if rows[0].key == k {
        assert Remove(rows, k) == rest;
      } else {
        assert Remove(rows, k) == [rows[0]] + rest;
        assert Remove(rows, k)[1..] == rest;
      }
    }
  }

  /** A selected value comes from a row, and every row of the key is selected. */
  lemma {:induction false} SelectContents<T>(rows: seq<Row<T>>, k: Key, v: T)
    ensures v in Select(rows, k) <==> Row(k, v) in rows
  {
    if rows != [] {
      assert rows == [rows[0]] + rows[1..];
      SelectContents(rows[1..], k, v);
    }
  }

  lemma {:induction false} RemoveContents<T>(rows: seq<Row<T>>, k: Key, row: Row<T>)
    ensures row in Remove(rows, k) <==> row in rows && row.key != k
  {
    if rows != [] {
      assert rows == [rows[0]] + rows[1..];
      RemoveContents(rows[1..], k, row);
    }
  }
}
