/** How the element references of a purpose request become element versions. */
module ElementReferences {
  import opened Wrappers
  import opened Numerals
  import opened Rows
  import opened Integrity
  import opened PurposeResolution
  import opened CatalogEffects
  import opened CatalogRuns

  /** A reference by name and namespace, to the latest version or to one version number. */
  datatype ElementRef = ElementRef(name: string, namespace: string, version: Option<int>, mandatory: bool)

  const DEFAULT_NAMESPACE := "default"

  function NamespaceOf(namespace: string): string {
    if namespace == "" then DEFAULT_NAMESPACE else namespace
  }

  // ---- Duplicate detection ----

  /** The key two references collide on. */
  function DupKey(ref: ElementRef): string {
    ref.name + "|" + NamespaceOf(ref.namespace) + if ref.version.Some? then "|v" + Decimal(ref.version.value) else ""
  }

  predicate Barless(s: string) {
    forall i :: 0 <= i < |s| ==> s[i] != '|'
  }

  lemma FirstBar(a: string, x: string)
    requires Barless(a)
    ensures (a + "|" + x)[|a|] == '|' && forall i :: 0 <= i < |a| ==> (a + "|" + x)[i] != '|'
  {
  }

  /** Text up to the first bar is determined by the whole. */
  lemma SplitAtBar(a: string, x: string, b: string, y: string)
    requires Barless(a) && Barless(b) && a + "|" + x == b + "|" + y
    ensures a == b && x == y
  {
    var s := a + "|" + x;
    FirstBar(a, x);
    FirstBar(b, y);
    assert s[..|a|] == a && (b + "|" + y)[..|b|] == b;
    assert s[|a| + 1..] == x && (b + "|" + y)[|b| + 1..] == y;
  }

  predicate SameReference(r: ElementRef, q: ElementRef) {
    r.name == q.name && NamespaceOf(r.namespace) == NamespaceOf(q.namespace) && r.version == q.version
  }

  /** Between names and namespaces without a bar, two references collide exactly when they say the same. */
  lemma DupKeyExact(r: ElementRef, q: ElementRef)
    requires Barless(r.name) && Barless(q.name)
    requires Barless(NamespaceOf(r.namespace)) && Barless(NamespaceOf(q.namespace))
    ensures DupKey(r) == DupKey(q) <==> SameReference(r, q)
  {
    if DupKey(r) == DupKey(q) {
      var nr, nq := NamespaceOf(r.namespace), NamespaceOf(q.namespace);
      var tr := if r.version.Some? then "|v" + Decimal(r.version.value) else "";
      var tq := if q.version.Some? then "|v" + Decimal(q.version.value) else "";
      assert DupKey(r) == r.name + "|" + (nr + tr) && DupKey(q) == q.name + "|" + (nq + tq);
      SplitAtBar(r.name, nr + tr, q.name, nq + tq);
      BarlessHasNoTail(nr, tr, nq, tq);
      if r.version.Some? {
        var vr, vq := Decimal(r.version.value), Decimal(q.version.value);
        assert nr + tr == nr + "|" + ("v" + vr) && nq + tq == nq + "|" + ("v" + vq);
        SplitAtBar(nr, "v" + vr, nq, "v" + vq);
        assert ("v" + vr)[1..] == vr && ("v" + vq)[1..] == vq;
        DecimalInjective(r.version.value, q.version.value);
      } else {
        assert nr + tr == nr && nq + tq == nq;
      }
    }
  }

  lemma BarlessHasNoTail(a: string, x: string, b: string, y: string)
    requires Barless(a) && Barless(b) && a + x == b + y
    requires (x == "" || x[0] == '|') && (y == "" || y[0] == '|')
    ensures x == "" <==> y == ""
  {
    assert x != "" ==> (a + x)[|a|] == '|';
    assert y != "" ==> (b + y)[|b|] == '|';
    assert y == "" ==> b + y == b;
    assert x == "" ==> a + x == a;
  }

  // ---- Which references can be mistaken for others ----

  /** A reference that says something else under the same key. */
  predicate Rival(r: ElementRef, q: ElementRef) {
    DupKey(q) == DupKey(r) && !SameReference(q, r)
  }

  /** A bar anywhere but at the end. */
  predicate BarInside(s: string) {
    exists i :: 0 <= i < |s| - 1 && s[i] == '|'
  }

  /** References whose key can be read in another way: with a version number, with a bar in the name, or with
      one inside the namespace. */
  predicate Mistakable(r: ElementRef) {
    r.version.Some? || '|' in r.name || BarInside(NamespaceOf(r.namespace))
  }

  function Tail(version: Option<int>): string {
    if version.Some? then "|v" + Decimal(version.value) else ""
  }

  /** A number read as the end of a namespace. */
  lemma VersionHasRival(r: ElementRef)
    requires r.version.Some?
    ensures Rival(r, ElementRef(r.name, NamespaceOf(r.namespace) + Tail(r.version), None, r.mandatory))
  {
    var q := ElementRef(r.name, NamespaceOf(r.namespace) + Tail(r.version), None, r.mandatory);
    assert DupKey(q) == r.name + "|" + (NamespaceOf(r.namespace) + Tail(r.version)) + "" == DupKey(r);
  }

  /** The end of a name read as the start of a namespace. */
  lemma NameHasRival(r: ElementRef, i: nat)
    requires i < |r.name| && r.name[i] == '|'
    ensures Rival(r, ElementRef(r.name[..i], r.name[i + 1..] + "|" + NamespaceOf(r.namespace), r.version, r.mandatory))
  {
    var a, b, n := r.name[..i], r.name[i + 1..], NamespaceOf(r.namespace);
    assert r.name == a + "|" + b;
    assert a + "|" + (b + "|" + n) + Tail(r.version) == r.name + "|" + n + Tail(r.version);
  }

  /** The start of a namespace read as the end of a name. */
  lemma NamespaceHasRival(r: ElementRef, i: nat)
    requires i < |NamespaceOf(r.namespace)| - 1 && NamespaceOf(r.namespace)[i] == '|'
    ensures Rival(r, ElementRef(r.name + "|" + NamespaceOf(r.namespace)[..i], NamespaceOf(r.namespace)[i + 1..],
                                r.version, r.mandatory))
  {
    var n := NamespaceOf(r.namespace);
    var a, b := n[..i], n[i + 1..];
    assert n == a + "|" + b;
    assert (r.name + "|" + a) + "|" + b + Tail(r.version) == r.name + "|" + n + Tail(r.version);
  }

  lemma KeyParts(q: ElementRef)
    ensures NamespaceOf(q.namespace) != "" && DupKey(q) == q.name + "|" + (NamespaceOf(q.namespace) + Tail(q.version))
  {
  }

  lemma OneReading(name: string, space: string, name': string, space': string, version: Option<int>)
    requires name + "|" + space == name' + "|" + (space' + Tail(version))
    requires '|' !in name && !BarInside(space) && space' != ""
    ensures name == name' && space == space' && version == None
  {
    var k, k' := name + "|" + space, name' + "|" + (space' + Tail(version));
    assert k'[|name'|] == '|' && |name'| < |k'| - 1;
    forall i | 0 <= i < |k| - 1 && i != |name|
      ensures k[i] != '|'
    {
      assert k[i] == if i < |name| then name[i] else space[i - |name| - 1];
    }
    assert |name'| == |name|;
    assert k[..|name|] == name && k'[..|name|] == name';
    assert k[|name| + 1..] == space && k'[|name| + 1..] == space' + Tail(version);
    TailPutsBarInside(space', version);
    assert version == None ==> space' + Tail(version) == space';
  }

  lemma TailPutsBarInside(space: string, version: Option<int>)
    ensures version.Some? ==> BarInside(space + Tail(version))
  {
    if version.Some? {
      assert (space + Tail(version))[|space|] == '|';
    }
  }

  /** A reference has a rival exactly when it is mistakable; a bar at the end of a namespace is harmless. */
  lemma RivalIffMistakable(r: ElementRef)
    ensures (exists q :: Rival(r, q)) <==> Mistakable(r)
  {
    if r.version.Some? {
      VersionHasRival(r);
    } else if '|' in r.name {
      var i :| 0 <= i < |r.name| && r.name[i] == '|';
      NameHasRival(r, i);
    } else if BarInside(NamespaceOf(r.namespace)) {
      var i :| 0 <= i < |NamespaceOf(r.namespace)| - 1 && NamespaceOf(r.namespace)[i] == '|';
      NamespaceHasRival(r, i);
    } else {
      forall q | DupKey(q) == DupKey(r)
        ensures SameReference(q, r)
      {
        KeyParts(q);
        KeyParts(r);
        assert NamespaceOf(r.namespace) + Tail(r.version) == NamespaceOf(r.namespace);
        OneReading(r.name, NamespaceOf(r.namespace), q.name, NamespaceOf(q.namespace), q.version);
      }
    }
  }

  predicate DistinctKeys(refs: seq<ElementRef>) {
    forall i, j :: 0 <= i < j < |refs| ==> DupKey(refs[i]) != DupKey(refs[j])
  }

  // ---- Resolution ----

  /** The version a reference stands for. */
  ghost predicate StandsFor(cat: Catalog, org: string, ref: ElementRef, v: Id) {
    var named := ElementsNamed(cat, ref.name, NamespaceOf(ref.namespace), org);
    if ref.version.Some? then v in named && cat.elements[v].num == ref.version.value
    else IsLatestElement(cat, named, v)
  }

  lemma StandsForOne(cat: Catalog, org: string, ref: ElementRef, u: Id, v: Id)
    requires CatalogSound(cat) && StandsFor(cat, org, ref, u) && StandsFor(cat, org, ref, v)
    ensures u == v
  {
    assert ElementsAgree(cat.elements[u], cat.elements[v]);
  }

  ghost predicate Stands(cat: Catalog, org: string, ref: ElementRef) {
    exists v :: StandsFor(cat, org, ref, v)
  }

  /** What validateAndResolveElements accepts. */
  ghost predicate Referable(cat: Catalog, org: string, refs: seq<ElementRef>) {
    refs != [] && DistinctKeys(refs) && forall i :: 0 <= i < |refs| ==> Stands(cat, org, refs[i])
  }

  const BAR_IN_NAMESPACE := ElementRef("a", "b|c", None, true)
  const BAR_IN_NAME := ElementRef("a|b", "c", None, true)

  /** Both references stand for versions of different elements, and the request is refused all the same. */
  lemma DifferentElementsRefused(cat: Catalog, org: string, u: Id, v: Id)
    requires StandsFor(cat, org, BAR_IN_NAMESPACE, u) && StandsFor(cat, org, BAR_IN_NAME, v)
    ensures u != v && !Referable(cat, org, [BAR_IN_NAMESPACE, BAR_IN_NAME])
  {
    assert "a" + "|" + "b|c" == "a|b" + "|" + "c";
    var refs := [BAR_IN_NAMESPACE, BAR_IN_NAME];
    assert DupKey(refs[0]) == DupKey(refs[1]);
    assert cat.elements[u].name == "a" && cat.elements[v].name == "a|b" && |"a"| != |"a|b"|;
  }

  /** A sound catalogue with both elements. */
  lemma DifferentElementsExist(info: VersionInfo)
    ensures var e, f := ElementVersion("u", "1", "a", "b|c", "basic", 1, None, info, "org"),
                        ElementVersion("v", "2", "a|b", "c", "basic", 1, None, info, "org");
            var cat := Catalog(map[], map[], map["u" := e, "v" := f]);
            && CatalogSound(cat)
            && StandsFor(cat, "org", BAR_IN_NAMESPACE, "u") && StandsFor(cat, "org", BAR_IN_NAME, "v")
  {
    assert |"a"| != |"a|b"| && "u" != "v" && "1" != "2";
  }

  /** Two references, say one by number and one to the latest, that stand for the same version. */
  ghost predicate SameVersionTwice(cat: Catalog, org: string, refs: seq<ElementRef>) {
    exists i, j, v :: 0 <= i < j < |refs| && StandsFor(cat, org, refs[i], v) && StandsFor(cat, org, refs[j], v)
  }

  ghost predicate AllStandFor(cat: Catalog, org: string, refs: seq<ElementRef>, elements: seq<MappedElement>) {
    && |elements| == |refs|
    && forall i :: 0 <= i < |refs| ==>
         StandsFor(cat, org, refs[i], elements[i].elementVersion) && elements[i].mandatory == refs[i].mandatory
  }

  lemma DistinctVersions(cat: Catalog, org: string, refs: seq<ElementRef>, elements: seq<MappedElement>)
    requires CatalogSound(cat) && AllStandFor(cat, org, refs, elements)
    ensures DistinctElements(elements) <==> !SameVersionTwice(cat, org, refs)
    ensures ElementsExist(cat, org, elements)
  {
    if SameVersionTwice(cat, org, refs) {
      var i, j, v :| 0 <= i < j < |refs| && StandsFor(cat, org, refs[i], v) && StandsFor(cat, org, refs[j], v);
      StandsForOne(cat, org, refs[i], v, elements[i].elementVersion);
      StandsForOne(cat, org, refs[j], v, elements[j].elementVersion);
      assert elements[i].elementVersion == elements[j].elementVersion;
    }
  }

  /** ORDER BY VERSION DESC LIMIT 1 over element rows. */
  method LatestElement(cat: Catalog, among: set<Id>) returns (r: Option<Id>)
    requires among <= cat.elements.Keys
    ensures r.None? <==> among == {}
    ensures r.Some? ==> IsLatestElement(cat, among, r.value)
  {
    var rows := Enumerate(among);
    r := None;
    for i := 0 to |rows|
      invariant r.None? <==> i == 0
      invariant r.Some? ==> r.value in among
      invariant r.Some? ==> forall j :: 0 <= j < i ==> cat.elements[rows[j]].num <= cat.elements[r.value].num
    {
      assert rows[i] in among;
      if r.None? || cat.elements[r.value].num < cat.elements[rows[i]].num {
        r := Some(rows[i]);
      }
    }
    assert forall u :: u in among ==> u in rows;
  }

  /** One reference: the latest version of the name gives the element, a number picks its version. */
  method ResolveElement(cat: Catalog, org: string, ref: ElementRef) returns (r: Option<Id>)
    requires CatalogSound(cat)
    ensures r.Some? ==> StandsFor(cat, org, ref, r.value)
    ensures r.None? ==> !Stands(cat, org, ref)
  {
    var named := ElementsNamed(cat, ref.name, NamespaceOf(ref.namespace), org);
    r := LatestElement(cat, named);
    if r.Some? && ref.version.Some? {
      var e := cat.elements[r.value];
      var versions := ElementVersionsOf(cat, e.id, org);
      forall v | v in versions || v in named
        ensures v in versions && v in named
      {
        assert ElementsAgree(e, cat.elements[v]);
      }
      var numbered := set v | v in versions && cat.elements[v].num == ref.version.value;
      assert forall v :: StandsFor(cat, org, ref, v) <==> v in numbered;
      r := LatestElement(cat, numbered);
    }
  }

  /** validateAndResolveElements: all the references, or the first failure. */
  method ResolveElements(cat: Catalog, org: string, refs: seq<ElementRef>) returns (r: Option<seq<MappedElement>>)
    requires CatalogSound(cat)
    ensures r.Some? <==> Referable(cat, org, refs)
    ensures r.Some? ==> AllStandFor(cat, org, refs, r.value)
  {
    if refs == [] {
      return None;
    }
    var seen: set<string> := {};
    var resolved: seq<MappedElement> := [];
    for i := 0 to |refs|
      invariant |resolved| == i
      invariant seen == set j | 0 <= j < i :: DupKey(refs[j])
      invariant forall j, k :: 0 <= j < k < i ==> DupKey(refs[j]) != DupKey(refs[k])
      invariant forall j :: 0 <= j < i ==>
                  StandsFor(cat, org, refs[j], resolved[j].elementVersion) && resolved[j].mandatory == refs[j].mandatory
    {
      if DupKey(refs[i]) in seen {
        assert !DistinctKeys(refs);
        return None;
      }
      seen := seen + {DupKey(refs[i])};
      var v := ResolveElement(cat, org, refs[i]);
      if v.None? {
        return None;
      }
      resolved := resolved + [MappedElement(v.value, refs[i].mandatory)];
    }
    assert forall i :: 0 <= i < |refs| ==> Stands(cat, org, refs[i]);
    return Some(resolved);
  }
}
