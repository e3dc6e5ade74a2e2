/** The `sort` parameter of a search request: a comma-separated list of `field` or `field:direction`. */
module SortParsing {
  import opened Wrappers
  import opened SearchOrder

  const MAX_SORT_FIELDS := 3

  // ---- Text helpers ----

  predicate IsSpace(c: char) {
    c == ' ' || c == '\t' || c == '\n' || c == '\r' || c == '\U{000B}' || c == '\U{000C}'
  }

  function TrimLeft(s: string): string {
    if s != "" && IsSpace(s[0]) then TrimLeft(s[1..]) else s
  }

  function TrimRight(s: string): string {
    if s != "" && IsSpace(s[|s| - 1]) then TrimRight(s[..|s| - 1]) else s
  }

  /** strings.TrimSpace on ASCII text. */
  function Trim(s: string): string {
    TrimRight(TrimLeft(s))
  }

  /** strings.Split by one character. */
  function Split(s: string, sep: char): (r: seq<string>)
    ensures r != []
  {
    if s == "" then [""]
    else
      var rest := Split(s[1..], sep);
      if s[0] == sep then [""] + rest else [[s[0]] + rest[0]] + rest[1..]
  }

  lemma {:induction false} SplitOne(s: string, sep: char)
    requires sep !in s
    ensures Split(s, sep) == [s]
    decreases |s|
  {
    if s != "" {
      assert s == [s[0]] + s[1..];
      SplitOne(s[1..], sep);
    }
  }

  lemma {:induction false} SplitFirst(a: string, sep: char, b: string)
    requires sep !in a
    ensures Split(a + ([sep] + b), sep) == [a] + Split(b, sep)
    decreases |a|
  {
    var s := a + ([sep] + b);
    if a == "" {
      assert s == [sep] + b && s[1..] == b;
    } else {
      assert a == [a[0]] + a[1..];
      SplitFirst(a[1..], sep, b);
      assert s[1..] == a[1..] + ([sep] + b);
    }
  }

  // ---- One item ----

  function DirectionOf(raw: string): Option<string> {
    if raw == "asc" then Some("ASC") else if raw == "desc" then Some("DESC") else None
  }

  function ParseItem(raw: string): Option<Sort> {
    var parts := Split(Trim(raw), ':');
    if Trim(raw) == "" || |parts| > 2 || ColumnOf(Trim(parts[0])).None? then None
    else if |parts| == 1 then Some(Sort(Trim(parts[0]), "DESC"))
    else
      var direction := DirectionOf(Trim(parts[1]));
      if direction.Some? then Some(Sort(Trim(parts[0]), direction.value)) else None
  }

  predicate DistinctFields(sorts: seq<Sort>) {
    forall i, j :: 0 <= i < j < |sorts| ==> sorts[i].field != sorts[j].field
  }

  const DEFAULT_SORTS := [Sort("createdTime", "DESC")]

  predicate ItemsParse(items: seq<string>) {
    forall i :: 0 <= i < |items| ==> ParseItem(items[i]).Some?
  }

  function Items(items: seq<string>): seq<Sort>
    requires ItemsParse(items)
  {
    seq(|items|, i requires 0 <= i < |items| => ParseItem(items[i]).value)
  }

  /** Accepted: nothing, or up to three well-formed items for different fields. */
  function Parsed(raw: string): Option<seq<Sort>> {
    var items := Split(raw, ',');
    if Trim(raw) == "" then Some(DEFAULT_SORTS)
    else if |items| <= MAX_SORT_FIELDS && ItemsParse(items) && DistinctFields(Items(items)) then Some(Items(items))
    else None
  }

  /** The parts of one item, checked in the order the handler reports them. */
  method ParseOne(raw: string, seen: set<string>) returns (r: Option<Sort>)
    ensures r.Some? <==> ParseItem(raw).Some? && ParseItem(raw).value.field !in seen
    ensures r.Some? ==> r == ParseItem(raw)
  {
    var item := Trim(raw);
    if item == "" {
      return None;
    }
    var parts := Split(item, ':');
    if |parts| > 2 {
      return None;
    }
    var fieldName := Trim(parts[0]);
    if ColumnOf(fieldName).None? || fieldName in seen {
      return None;
    }
    if |parts| == 2 {
      var direction := DirectionOf(Trim(parts[1]));
      if direction.None? {
        return None;
      }
      return Some(Sort(fieldName, direction.value));
    }
    return Some(Sort(fieldName, "DESC"));
  }

  /** parseConsentSorts. */
  method ParseConsentSorts(raw: string) returns (r: Option<seq<Sort>>)
    ensures r == Parsed(raw)
  {
    if Trim(raw) == "" {
      return Some(DEFAULT_SORTS);
    }
    var items := Split(raw, ',');
    if |items| > MAX_SORT_FIELDS {
      return None;
    }
    var sorts: seq<Sort> := [];
    var seenFields: set<string> := {};
    for i := 0 to |items|
      invariant SoFar(items[..i], sorts, seenFields)
    {
      var sort := ParseOne(items[i], seenFields);
      if sort.None? {
        Refused(items, i, sorts, seenFields);
        return None;
      }
      SoFarStep(items[..i], items[i], sorts, seenFields);
      assert items[..i + 1] == items[..i] + [items[i]];
      sorts := sorts + [sort.value];
      seenFields := seenFields + {sort.value.field};
    }
    assert items[..|items|] == items;
    return Some(sorts);
  }

  /** The items read so far, the sorts they gave and the fields seen. */
  ghost predicate SoFar(items: seq<string>, sorts: seq<Sort>, seen: set<string>) {
    && ItemsParse(items) && sorts == Items(items) && DistinctFields(sorts)
    && forall field :: field in seen <==> HasField(sorts, field)
  }

  lemma SoFarStep(items: seq<string>, item: string, sorts: seq<Sort>, seen: set<string>)
    requires SoFar(items, sorts, seen) && ParseItem(item).Some? && ParseItem(item).value.field !in seen
    ensures SoFar(items + [item], sorts + [ParseItem(item).value], seen + {ParseItem(item).value.field})
  {
    OneMoreField(sorts, ParseItem(item).value);
    assert Items(items + [item]) == sorts + [ParseItem(item).value];
  }

  predicate HasField(sorts: seq<Sort>, field: string) {
    exists j :: 0 <= j < |sorts| && sorts[j].field == field
  }

  lemma OneMoreField(sorts: seq<Sort>, s: Sort)
    requires DistinctFields(sorts) && !HasField(sorts, s.field)
    ensures DistinctFields(sorts + [s])
    ensures forall field :: HasField(sorts + [s], field) <==> HasField(sorts, field) || field == s.field
  {
    forall field
      ensures HasField(sorts + [s], field) <==> HasField(sorts, field) || field == s.field
    {
      if HasField(sorts, field) {
        var j :| 0 <= j < |sorts| && sorts[j].field == field;
        assert (sorts + [s])[j].field == field;
      }
      assert (sorts + [s])[|sorts|] == s;
    }
  }

  lemma Refused(items: seq<string>, i: nat, sorts: seq<Sort>, seen: set<string>)
    requires i < |items| && SoFar(items[..i], sorts, seen)
    requires ParseItem(items[i]).Some? ==> ParseItem(items[i]).value.field in seen
    ensures !ItemsParse(items) || !DistinctFields(Items(items))
  {
    if ItemsParse(items) {
      assert ParseItem(items[i]).Some?;
      var j :| 0 <= j < |sorts| && sorts[j].field == ParseItem(items[i]).value.field;
      assert Items(items)[j] == sorts[j];
      assert Items(items)[j].field == Items(items)[i].field;
    }
  }

  // ---- What is accepted ----

  /** Every accepted list is one the ORDER BY clause understands completely. */
  lemma AcceptedIsKnown(raw: string)
    requires Parsed(raw).Some?
    ensures var sorts := Parsed(raw).value;
            && 1 <= |sorts| <= MAX_SORT_FIELDS && DistinctFields(sorts)
            && forall i :: 0 <= i < |sorts| ==> Known(sorts[i])
  {
  }

  function FormatOne(s: Sort): string {
    s.field + (":" + if s.direction == "ASC" then "asc" else "desc")
  }

  function Format(sorts: seq<Sort>): string
    requires sorts != []
  {
    if |sorts| == 1 then FormatOne(sorts[0]) else FormatOne(sorts[0]) + ("," + Format(sorts[1..]))
  }

  predicate Clean(s: string) {
    s != "" && ',' !in s && ':' !in s && forall i :: 0 <= i < |s| ==> !IsSpace(s[i])
  }

  lemma KnownFieldIsClean(field: string)
    requires ColumnOf(field).Some?
    ensures Clean(field)
  {
    CleanTimes();
    CleanOthers();
  }

  lemma CleanTimes()
    ensures Clean("createdTime") && Clean("updatedTime") && Clean("validityTime")
  {
  }

  lemma CleanOthers()
    ensures Clean("status") && Clean("groupId") && Clean("consentType") && Clean("asc") && Clean("desc")
  {
  }

  lemma FormatOneParses(s: Sort)
    requires Known(s)
    ensures ParseItem(FormatOne(s)) == Some(s) && ',' !in FormatOne(s) && Trim(FormatOne(s)) != ""
  {
    var direction := if s.direction == "ASC" then "asc" else "desc";
    KnownFieldIsClean(s.field);
    CleanOthers();
    SplitFirst(s.field, ':', direction);
    SplitOne(direction, ':');
    assert FormatOne(s) == s.field + ([':'] + direction);
  }

  predicate Blank(s: string) {
    forall i :: 0 <= i < |s| ==> IsSpace(s[i])
  }

  lemma {:induction false} TrimLeftSkips(left: string, s: string)
    requires Blank(left) && (s == "" || !IsSpace(s[0]))
    ensures TrimLeft(left + s) == s
    decreases |left|
  {
    if left == "" {
      assert left + s == s;
    } else {
      assert (left + s)[1..] == left[1..] + s;
      TrimLeftSkips(left[1..], s);
    }
  }

  lemma {:induction false} TrimRightSkips(s: string, right: string)
    requires Blank(right) && (s == "" || !IsSpace(s[|s| - 1]))
    ensures TrimRight(s + right) == s
    decreases |right|
  {
    if right == "" {
      assert s + right == s;
    } else {
      var n := |right| - 1;
      assert (s + right)[..|s + right| - 1] == s + right[..n];
      TrimRightSkips(s, right[..n]);
    }
  }

  lemma TrimPadded(left: string, s: string, right: string)
    requires Blank(left) && Blank(right) && s != "" && !IsSpace(s[0]) && !IsSpace(s[|s| - 1])
    ensures Trim(left + s + right) == s
  {
    assert left + s + right == left + (s + right);
    TrimLeftSkips(left, s + right);
    TrimRightSkips(s, right);
  }

  /** An item without a direction is descending, white space around it or not. */
  lemma NoDirectionDescends(left: string, field: string, right: string)
    requires Blank(left) && Blank(right) && ColumnOf(field).Some?
    ensures ParseItem(left + field + right) == Some(Sort(field, "DESC"))
  {
    KnownFieldIsClean(field);
    TrimPadded(left, field, right);
    TrimPadded("", field, "");
    assert "" + field + "" == field;
    SplitOne(field, ':');
  }

  /** A direction is what it says, in lower case; any other is refused. */
  lemma DirectionIsRead(field: string, left: string, direction: string, right: string)
    requires ColumnOf(field).Some? && Blank(left) && Blank(right) && Clean(direction)
    ensures ParseItem(field + (":" + (left + direction + right))) ==
            if direction == "asc" then Some(Sort(field, "ASC"))
            else if direction == "desc" then Some(Sort(field, "DESC"))
            else None
  {
    KnownFieldIsClean(field);
    ItemSplits(field, left, direction, right);
    TrimPadded("", field, "");
    assert "" + field + "" == field;
    TrimPadded(left, direction, right);
    DirectionTrims(left, direction, right);
  }

  lemma ItemSplits(field: string, left: string, direction: string, right: string)
    requires Clean(field) && Clean(direction) && Blank(left) && Blank(right)
    ensures var item := field + (":" + (left + direction + right));
            Trim(item) != "" && Split(Trim(item), ':') == [field, left + direction]
  {
    var item, rest := field + (":" + (left + direction + right)), left + direction;
    var kept := field + ([':'] + rest);
    assert item == "" + kept + right;
    TrimPadded("", kept, right);
    assert ':' !in rest;
    SplitFirst(field, ':', rest);
    SplitOne(rest, ':');
  }

  lemma DirectionTrims(left: string, direction: string, right: string)
    requires Clean(direction) && Blank(left)
    ensures Trim(left + direction) == direction
  {
    TrimPadded(left, direction, "");
    assert left + direction + "" == left + direction;
  }

  lemma {:induction false} FormatParses(sorts: seq<Sort>)
    requires sorts != [] && forall i :: 0 <= i < |sorts| ==> Known(sorts[i])
    ensures var items := Split(Format(sorts), ',');
            && |items| == |sorts| && ItemsParse(items) && Items(items) == sorts && Format(sorts) != ""
            && !IsSpace(Format(sorts)[0])
    decreases |sorts|
  {
    var first := FormatOne(sorts[0]);
    FormatOneParses(sorts[0]);
    KnownFieldIsClean(sorts[0].field);
    if |sorts| == 1 {
      SplitOne(first, ',');
      assert Items([first]) == sorts;
    } else {
      var rest := Format(sorts[1..]);
      FormatParses(sorts[1..]);
      SplitFirst(first, ',', rest);
      assert "," == [','];
      ItemsCons(first, Split(rest, ','), sorts);
    }
  }

  lemma ItemsCons(first: string, rest: seq<string>, sorts: seq<Sort>)
    requires sorts != [] && ParseItem(first) == Some(sorts[0]) && ItemsParse(rest) && Items(rest) == sorts[1..]
    ensures ItemsParse([first] + rest) && Items([first] + rest) == sorts
  {
    assert sorts == [sorts[0]] + sorts[1..];
  }

  lemma {:induction false} TrimRightKeepsFirst(s: string)
    requires s != "" && !IsSpace(s[0])
    ensures TrimRight(s) != ""
    decreases |s|
  {
    if IsSpace(s[|s| - 1]) {
      TrimRightKeepsFirst(s[..|s| - 1]);
    }
  }

  /** Written out and parsed again, any list of up to three sorts by different fields is itself. */
  lemma ParseRoundTrip(sorts: seq<Sort>)
    requires 1 <= |sorts| <= MAX_SORT_FIELDS && DistinctFields(sorts)
    requires forall i :: 0 <= i < |sorts| ==> Known(sorts[i])
    ensures Parsed(Format(sorts)) == Some(sorts)
  {
    FormatParses(sorts);
    TrimRightKeepsFirst(Format(sorts));
  }
}
