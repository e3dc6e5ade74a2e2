/** Search as a whole: filter, order and pages together. */
module ConsentSearch {
  import opened Wrappers
  import opened Rows
  import opened Tables
  import opened Config
  import ConfigLoading
  import opened Transactions
  import opened Integrity
  import opened Like
  import opened SearchQuery
  import opened SearchOrder
  import opened SearchMeaning

  /** What a database may return for the data query without its LIMIT: the selected consents, each once,
      no row before one that the ORDER BY clause puts in front of it. */
  ghost predicate Returned(nullsLow: bool, sorts: seq<Sort>, selected: set<Consent>, rows: seq<Consent>) {
    && (forall i, j :: 0 <= i < j < |rows| ==> InOrder(nullsLow, sorts, rows[i], rows[j]))
    && (forall i, j :: 0 <= i < j < |rows| ==> rows[i] != rows[j])
    && (forall c :: c in rows <==> c in selected)
  }

  predicate InOrder(nullsLow: bool, sorts: seq<Sort>, a: Consent, b: Consent) {
    Compare(nullsLow, OrderKeys(sorts), a, b) <= 0
  }

  lemma ReturnedIsResult(nullsLow: bool, sorts: seq<Sort>, selected: set<Consent>, rows: seq<Consent>)
    requires Returned(nullsLow, sorts, selected, rows) && DistinctIds(selected)
    ensures IsResult(sorts, selected, rows)
  {
    forall i, j | 0 <= i < j < |rows|
      ensures Less(sorts, rows[i], rows[j])
    {
      assert InOrder(nullsLow, sorts, rows[i], rows[j]) && rows[i] in rows && rows[j] in rows;
      assert rows[i].id != rows[j].id;
      OrderIsAsked(nullsLow, sorts, rows[i], rows[j]);
      TieBreak(nullsLow, OrderKeys(sorts), rows[i], rows[j]);
    }
  }

  /** Two databases, or the same one asked twice, return the same rows in the same order, whatever they
      do with NULL; so pages fetched one by one are pages of one result. */
  lemma ResultsAgree(low1: bool, low2: bool, sorts: seq<Sort>, selected: set<Consent>, x: seq<Consent>, y: seq<Consent>)
    requires DistinctIds(selected) && Returned(low1, sorts, selected, x) && Returned(low2, sorts, selected, y)
    ensures x == y
  {
    ReturnedIsResult(low1, sorts, selected, x);
    ReturnedIsResult(low2, sorts, selected, y);
    ResultIsUnique(sorts, selected, x, y);
  }

  /** In every reachable state the identifier of a consent is its key. */
  lemma GoodIsKeyed(cfg: Config, t: Tables, log: seq<Commit>)
    requires Good(cfg, t, log)
    ensures KeyedById(t)
  {
    forall id | id in t.consents
      ensures t.consents[id].id == id
    {
      var k := Key(id, t.consents[id].org);
      assert ConsentGood(cfg, t, k) && Project(t, k).consent == Some(t.consents[id]);
    }
  }

  lemma SelectedHaveDistinctIds(t: Tables, fold: Fold, d: Dialect, f: Filter)
    requires KeyedById(t)
    ensures DistinctIds(Selected(t, fold, d, f))
  {
  }

  /** The whole search: the pages together hold exactly the consents asked for (the statuses upper-cased), in
      the order asked for, none twice, and the count is how many there are. */
  lemma SearchIsComplete(t: Tables, fold: Fold, d: Dialect, f: Filter, nullsLow: bool, sorts: seq<Sort>,
                         rows: seq<Consent>, limit: nat, n: nat)
    requires KeyedById(t) && Escapable(d, f.purposeName)
    requires Returned(nullsLow, sorts, Selected(t, fold, d, f), rows) && n * limit >= |rows|
    ensures forall c :: c in Pages(rows, limit, n) <==> c in t.consents.Values && Wanted(t, fold, AsSearched(f), c)
    ensures Ordered(sorts, Pages(rows, limit, n))
    ensures |Pages(rows, limit, n)| == Count(t, fold, d, f)
  {
    var selected := Selected(t, fold, d, f);
    SelectedHaveDistinctIds(t, fold, d, f);
    ReturnedIsResult(nullsLow, sorts, selected, rows);
    PagesConcatenate(rows, limit, n);
    SearchIsExact(t, fold, d, f);
    CountIsSize(t, fold, d, f);
    var listed := ResultExists(sorts, selected);
    ResultIsUnique(sorts, selected, rows, listed);
  }

  /** A deployment may spell its active status in lower case. */
  const LOWER_CASE := Config(ConsentStatuses("active", "EXPIRED", "REVOKED", "CREATED", "REJECTED"),
                             AuthStatuses("APPROVED", "REJECTED", "CREATED", "RECORDED", "SYS_EXPIRED", "SYS_REVOKED"),
                             true)

  /** It loads and is fit for use, and a search for its active consents finds none of them. */
  lemma LowerCaseStatusIsNotFound(t: Tables, fold: Fold, d: Dialect, f: Filter, c: Consent)
    requires Escapable(d, f.purposeName) && f.statuses == [LOWER_CASE.consent.active]
    ensures ConfigLoading.Accepted(LOWER_CASE) && WellFormed(ConfigLoading.WithDefaults(LOWER_CASE))
    ensures c in Selected(t, fold, d, f) ==> c.status != LOWER_CASE.consent.active
  {
    LowerCaseIsWellFormed();
    SearchIsExact(t, fold, d, f);
    assert ToUpper("active")[0] == 'A' != "active"[0];
    assert Uppercase(f.statuses) == [ToUpper("active")];
  }

  lemma LowerCaseIsWellFormed()
    ensures ConfigLoading.Accepted(LOWER_CASE) && WellFormed(ConfigLoading.WithDefaults(LOWER_CASE))
  {
    assert |ToUpper("APPROVED")| == |ToUpper("REJECTED")| == |ToUpper("RECORDED")| == 8;
    assert |ToUpper("CREATED")| == 7 && |ToUpper("SYS_EXPIRED")| == |ToUpper("SYS_REVOKED")| == 11;
    assert ToUpper("APPROVED")[0] == 'A' && ToUpper("REJECTED")[0] == 'R' && ToUpper("RECORDED")[0] == 'R';
    assert ToUpper("REJECTED")[2] == 'J' && ToUpper("RECORDED")[2] == 'C';
    assert ToUpper("SYS_EXPIRED")[4] == 'E' && ToUpper("SYS_REVOKED")[4] == 'R';
    assert "EXPIRED"[0] == 'E' && "REVOKED"[0] == 'R' && "CREATED"[0] == 'C' && |"REJECTED"| == 8 && |"active"| == 6;
  }
}
