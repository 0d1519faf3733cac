/** The parts of the facet query the facet handler builds (`buildQuery` and its helpers):
    which facets the query lists, the filters on selected values, the hierarchy and
    service unions, and the count unions.  Each part is kept as a value rather than as
    the query text the fixed templates would make of it. */
module FacetQuery {
  import opened Objects
  import opened FacetData
  import opened SelectionFormatter

  /*** getDefaultCountKey ***/

  /** The first facet without a type, `_.findKey(facets, f => !f.type)`. */
  function FirstBasic(facets: Dict<FacetDef>): (r: Option<nat>)
    ensures r.Some? ==> r.value < |facets| && facets[r.value].val.kind == Basic
    ensures r.Some? ==> forall j :: 0 <= j < r.value ==> facets[j].val.kind != Basic
    ensures r.None? ==> forall j :: 0 <= j < |facets| ==> facets[j].val.kind != Basic
  {
    if facets == [] then None
    else if facets[0].val.kind == Basic then Some(0)
    else match FirstBasic(facets[1..])
      case None => None
      case Some(i) => Some(i + 1)
  }

  /** `getDefaultCountKey`: the facet whose counts give the result count, the first basic
      facet, or the first facet of any type when there is no basic one. */
  function DefaultCountKey(facets: Dict<FacetDef>): (r: Option<FacetId>)
    ensures r.None? <==> facets == []
    ensures r.Some? ==> r.value in Keys(facets)
    ensures forall i :: 0 <= i < |facets| && facets[i].val.kind == Basic ==>
      exists j :: 0 <= j <= i && facets[j].val.kind == Basic && r == Some(facets[j].id)
    ensures facets != [] && (forall i :: 0 <= i < |facets| ==> facets[i].val.kind != Basic) ==> r == Some(facets[0].id)
  {
    match FirstBasic(facets)
    case Some(i) => KeysIndex(facets, i); Some(facets[i].id)
    case None => if facets == [] then None else KeysIndex(facets, 0); Some(facets[0].id)
  }

  /*** getTemplateFacets and the text facets of buildQuery ***/

  /** `getTemplateFacets`: the facets whose values the query lists itself, all but the text
      and hierarchy facets, in order. */
  function TemplateFacets(facets: Dict<FacetDef>): (r: seq<FacetId>)
    ensures |r| <= |facets|
    ensures forall k :: k in r <==> exists e :: e in facets && e.id == k && !TakesNumber(e.val.kind)
  {
    if facets == [] then []
    else
      assert forall e :: e in facets <==> e == facets[0] || e in facets[1..];
      (if TakesNumber(facets[0].val.kind) then [] else [facets[0].id]) + TemplateFacets(facets[1..])
  }

  /** The template facets of two lists of facets are those of the first, then those of the
      second: the facets keep their order. */
  lemma {:induction false} TemplateFacetsConcat(a: Dict<FacetDef>, b: Dict<FacetDef>)
    ensures TemplateFacets(a + b) == TemplateFacets(a) + TemplateFacets(b)
  {
    if a == [] {
      assert a + b == b;
    } else {
      assert (a + b)[0] == a[0];
      assert (a + b)[1..] == a[1..] + b;
      TemplateFacetsConcat(a[1..], b);
    }
  }

  /** What `buildQuery` needs of the selections: every selection names a facet, fits the
      formatter, and a text facet's selection is an object (the source reads its `value`). */
  predicate QueryFits(facets: Dict<FacetDef>, sels: Dict<Selection>) {
    AllFit(facets, sels) && forall e :: e in sels && KindOf(facets, e.id) == Text ==> IsSet(e.val)
  }

  /** The text facets `buildQuery` names: those with a search text, in selection order. */
  function TextFacetIds(facets: Dict<FacetDef>, sels: Dict<Selection>): (r: seq<FacetId>)
    ensures forall k :: k in r <==> exists e :: e in sels && e.id == k && KindOf(facets, k) == Text && Truthy(ValueOf(e.val))
  {
    if sels == [] then []
    else
      assert forall e :: e in sels <==> e == sels[0] || e in sels[1..];
      (if KindOf(facets, sels[0].id) == Text && Truthy(ValueOf(sels[0].val)) then [sels[0].id] else [])
      + TextFacetIds(facets, sels[1..])
  }

  /** The text facets of two lists of selections are those of the first, then those of the
      second: the text facets keep their selection order. */
  lemma {:induction false} TextFacetIdsConcat(facets: Dict<FacetDef>, a: Dict<Selection>, b: Dict<Selection>)
    ensures TextFacetIds(facets, a + b) == TextFacetIds(facets, a) + TextFacetIds(facets, b)
  {
    if a == [] {
      assert a + b == b;
    } else {
      assert (a + b)[0] == a[0];
      assert (a + b)[1..] == a[1..] + b;
      TextFacetIdsConcat(facets, a[1..], b);
    }
  }

  /*** buildSelectionFilters and getHierarchyFacetClasses ***/

  /** The values a selection names: the `value` of each entry of an array, the `value` of an
      object, nothing for `undefined` or `null`. */
  function SelectedValues(sel: Selection): seq<Val> {
    match sel
    case Many(items) => Values(items)
    case One(item) => [item.value]
    case _ => []
  }

  function TruthyValues(vs: seq<Val>): (r: seq<Val>)
    ensures forall v :: v in r <==> v in vs && Truthy(v)
  {
    if vs == [] then []
    else
      assert forall v :: v in vs <==> v == vs[0] || v in vs[1..];
      (if Truthy(vs[0]) then [vs[0]] else []) + TruthyValues(vs[1..])
  }

  /** `getSelectionFilter(fId, value)`: keep only the selected value in facet `fId`'s list. */
  datatype SelectionFilter = SelectionFilter(id: FacetId, value: Val)

  function FiltersOf(id: FacetId, vs: seq<Val>): (r: seq<SelectionFilter>)
    ensures forall f :: f in r <==> f.id == id && f.value in vs
  {
    if vs == [] then []
    else
      assert forall v :: v in vs <==> v == vs[0] || v in vs[1..];
      [SelectionFilter(id, vs[0])] + FiltersOf(id, vs[1..])
  }

  /** Every selection names a facet. */
  predicate Known(facets: Dict<FacetDef>, sels: Dict<Selection>) {
    forall e :: e in sels ==> e.id in Keys(facets)
  }

  /** `buildSelectionFilters`: for every basic facet one filter per selected value, leaving
      out the falsy ones. */
  function SelectionFilters(facets: Dict<FacetDef>, sels: Dict<Selection>): (r: seq<SelectionFilter>)
    requires Known(facets, sels)
    ensures forall f :: f in r <==>
      exists e :: e in sels && e.id == f.id && KindOf(facets, e.id) == Basic && f.value in SelectedValues(e.val) && Truthy(f.value)
  {
    if sels == [] then []
    else
      assert forall e :: e in sels <==> e == sels[0] || e in sels[1..];
      (if KindOf(facets, sels[0].id) == Basic then FiltersOf(sels[0].id, TruthyValues(SelectedValues(sels[0].val))) else [])
      + SelectionFilters(facets, sels[1..])
  }

  /** The filters of two lists of selections are those of the first, then those of the
      second: the filters keep their selection order. */
  lemma {:induction false} SelectionFiltersConcat(facets: Dict<FacetDef>, a: Dict<Selection>, b: Dict<Selection>)
    requires Known(facets, a + b)
    ensures Known(facets, a) && Known(facets, b)
    ensures SelectionFilters(facets, a + b) == SelectionFilters(facets, a) + SelectionFilters(facets, b)
  {
    KnownParts(facets, a, b);
    if a == [] {
      assert a + b == b;
    } else {
      var rest := a[1..] + b;
      assert a + b == [a[0]] + rest;
      KnownParts(facets, [a[0]], rest);
      SelectionFiltersConcat(facets, a[1..], b);
    }
  }

  lemma KnownParts(facets: Dict<FacetDef>, a: Dict<Selection>, b: Dict<Selection>)
    requires Known(facets, a + b)
    ensures Known(facets, a) && Known(facets, b)
  {
    forall e | e in a ensures e.id in Keys(facets) { assert e in a + b; }
    forall e | e in b ensures e.id in Keys(facets) { assert e in a + b; }
  }

  /** `getHierarchyFacetClasses`: the classes a hierarchy facet's values are drawn from, the
      truthy selected values when there are any, the facet's root classes otherwise. */
  function HierarchyClasses(def: FacetDef, sels: Dict<Selection>, id: FacetId): seq<Val> {
    var sel := if Get(sels, id).Some? then Get(sels, id).value else Absent;
    var chosen := TruthyValues(SelectedValues(sel));
    if chosen != [] then chosen else Classes(def.classes)
  }

  lemma HierarchyClassesChosen(def: FacetDef, sels: Dict<Selection>, id: FacetId)
    ensures var sel := if Get(sels, id).Some? then Get(sels, id).value else Absent;
      var r := HierarchyClasses(def, sels, id);
      && ((exists v :: v in SelectedValues(sel) && Truthy(v)) ==>
            forall v :: v in r <==> v in SelectedValues(sel) && Truthy(v))
      && (!(exists v :: v in SelectedValues(sel) && Truthy(v)) ==> r == Classes(def.classes))
  {
    var sel := if Get(sels, id).Some? then Get(sels, id).value else Absent;
    var chosen := TruthyValues(SelectedValues(sel));
    if chosen != [] {
      assert chosen[0] in chosen;
    }
  }

  function Classes(cs: seq<string>): (r: seq<Val>)
    ensures |r| == |cs| && forall i :: 0 <= i < |cs| ==> r[i] == Str(cs[i])
  {
    if cs == [] then [] else [Str(cs[0])] + Classes(cs[1..])
  }

  /*** rejectHierarchies and buildHierarchyUnions ***/

  /** `rejectHierarchies`: the selections of all facets but the hierarchy facets. */
  function RejectHierarchies(facets: Dict<FacetDef>, sels: Dict<Selection>): (r: Dict<Selection>)
    ensures forall e :: e in r <==> e in sels && KindOf(facets, e.id) != Hierarchy
    ensures AllFit(facets, sels) ==> AllFit(facets, r)
  {
    var p := OutOfGroup(facets, Hierarchies);
    OnlyMembers(p, sels);
    OnlyKeepsAll(p, sels);
    Only(p, sels)
  }

  lemma OnlyKeepsAll(p: Pick, s: Dict<Selection>)
    ensures forall e :: e in s && Picks(p, e) ==> e in Only(p, s)
  {
    forall e | e in s && Picks(p, e) ensures e in Only(p, s) {
      OnlyKeeps(p, s, e);
    }
  }

  lemma {:induction false} OnlyInOutOfGroup(facets: Dict<FacetDef>, g: Group, h: Group, s: Dict<Selection>)
    ensures Only(InGroup(facets, g), Only(OutOfGroup(facets, h), s)) == if g == h then [] else Only(InGroup(facets, g), s)
  {
    if s != [] {
      OnlyInOutOfGroup(facets, g, h, s[1..]);
      OnlyCons(InGroup(facets, g), s[0], Only(OutOfGroup(facets, h), s[1..]));
    }
  }

  /** Formatting the kept selections gives the constraint of the whole selection with
      the hierarchy facets left out: the other facets in count order, then the text facets. */
  lemma {:induction false} RejectHierarchiesOrder(facets: Dict<FacetDef>, sels: Dict<Selection>)
    ensures Ordered(facets, RejectHierarchies(facets, sels)) ==
      Only(InGroup(facets, Others), SortByCount(sels)) + Only(InGroup(facets, Texts), SortByCount(sels))
  {
    var p := OutOfGroup(facets, Hierarchies);
    OnlySortCommute(p, sels);
    assert SortByCount(RejectHierarchies(facets, sels)) == Only(p, SortByCount(sels));
    PartitionWithoutHierarchies(facets, SortByCount(sels));
  }

  /** With the hierarchy facets left out, the partition has no hierarchy group. */
  lemma PartitionWithoutHierarchies(facets: Dict<FacetDef>, s: Dict<Selection>)
    ensures Partition(facets, Only(OutOfGroup(facets, Hierarchies), s)) ==
      Only(InGroup(facets, Others), s) + Only(InGroup(facets, Texts), s)
  {
    var kept := Only(OutOfGroup(facets, Hierarchies), s);
    var x := Only(InGroup(facets, Hierarchies), kept);
    var y := Only(InGroup(facets, Others), kept);
    var z := Only(InGroup(facets, Texts), kept);
    assert x == [] by { OnlyInOutOfGroup(facets, Hierarchies, Hierarchies, s); }
    assert y == Only(InGroup(facets, Others), s) by { OnlyInOutOfGroup(facets, Others, Hierarchies, s); }
    assert z == Only(InGroup(facets, Texts), s) by { OnlyInOutOfGroup(facets, Texts, Hierarchies, s); }
    assert Partition(facets, kept) == x + y + z;
    assert x + y + z == y + z;
  }

  lemma {:induction false} OnlyKeeps(p: Pick, s: Dict<Selection>, e: Keyed<Selection>)
    requires e in s && Picks(p, e)
    ensures e in Only(p, s)
  {
    if s[0] != e {
      OnlyKeeps(p, s[1..], e);
    }
  }

  /** One hierarchy union: the facet, its classes, its parent property and the constraint of
      the other facets' selections. */
  datatype HierarchyUnion = HierarchyUnion(id: FacetId, classes: seq<Val>, property: string, selections: seq<Fragment>)

  /** `buildHierarchyUnions`: one union per hierarchy facet, in facet order, each
      constrained by the selections of the other facets. */
  function HierarchyUnions(facets: Dict<FacetDef>, sels: Dict<Selection>): (r: seq<HierarchyUnion>)
    requires AllFit(facets, sels)
    ensures forall u :: u in r ==> u.selections == FormatSelections(facets, RejectHierarchies(facets, sels))
    ensures UnionIds(r) == HierarchyIds(facets)
  {
    UnionsOverIds(facets, sels, FormatSelections(facets, RejectHierarchies(facets, sels)));
    UnionsOver(facets, sels, FormatSelections(facets, RejectHierarchies(facets, sels)))
  }

  /** The unions of the hierarchy facets among `defs`, all with the constraint `constraint`. */
  function UnionsOver(defs: Dict<FacetDef>, sels: Dict<Selection>, constraint: seq<Fragment>): (r: seq<HierarchyUnion>)
    ensures forall u :: u in r ==> u.selections == constraint
  {
    if defs == [] then []
    else
      var rest := UnionsOver(defs[1..], sels, constraint);
      if defs[0].val.kind == Hierarchy then
        [HierarchyUnion(defs[0].id, HierarchyClasses(defs[0].val, sels, defs[0].id), defs[0].val.property, constraint)] + rest
      else rest
  }

  function UnionIds(us: seq<HierarchyUnion>): (r: seq<FacetId>)
    ensures |r| == |us| && forall i :: 0 <= i < |us| ==> r[i] == us[i].id
  {
    if us == [] then [] else [us[0].id] + UnionIds(us[1..])
  }

  /** The ids of the hierarchy facets, in facet order. */
  function HierarchyIds(defs: Dict<FacetDef>): (r: seq<FacetId>)
    ensures forall k :: k in r <==> exists e :: e in defs && e.id == k && e.val.kind == Hierarchy
  {
    if defs == [] then []
    else
      assert forall e :: e in defs <==> e == defs[0] || e in defs[1..];
      (if defs[0].val.kind == Hierarchy then [defs[0].id] else []) + HierarchyIds(defs[1..])
  }

  /** There is a union for each hierarchy facet, in facet order. */
  lemma {:induction false} UnionsOverIds(defs: Dict<FacetDef>, sels: Dict<Selection>, constraint: seq<Fragment>)
    ensures UnionIds(UnionsOver(defs, sels, constraint)) == HierarchyIds(defs)
  {
    if defs != [] {
      UnionsOverIds(defs[1..], sels, constraint);
      var rest := UnionsOver(defs[1..], sels, constraint);
      if defs[0].val.kind == Hierarchy {
        var u := HierarchyUnion(defs[0].id, HierarchyClasses(defs[0].val, sels, defs[0].id), defs[0].val.property, constraint);
        assert UnionIds([u] + rest) == [u.id] + UnionIds(rest) by {
          assert ([u] + rest)[1..] == rest;
        }
      }
    }
  }

  /*** buildServiceUnions ***/

  /** `buildServiceUnions`: a union per facet with a truthy `service`, in order, followed by
      the label union exactly when there is at least one. */
  datatype ServiceUnions = ServiceUnions(services: seq<Keyed<string>>, labelUnion: bool)

  /** `if (facet.service)`: a missing or empty service adds no union. */
  predicate HasService(def: FacetDef) {
    def.service.Some? && def.service.value != ""
  }

  function Services(facets: Dict<FacetDef>): (r: seq<Keyed<string>>)
    ensures forall x :: x in r <==>
      exists e :: e in facets && e.id == x.id && e.val.service == Some(x.val) && x.val != ""
  {
    if facets == [] then []
    else
      assert forall e :: e in facets <==> e == facets[0] || e in facets[1..];
      (if HasService(facets[0].val) then [Keyed(facets[0].id, facets[0].val.service.value)] else []) + Services(facets[1..])
  }

  function ServiceUnionsOf(facets: Dict<FacetDef>): (r: ServiceUnions)
    ensures r.labelUnion <==> exists e :: e in facets && HasService(e.val)
    ensures r.labelUnion <==> r.services != []
  {
    var s := Services(facets);
    assert forall e :: e in facets && HasService(e.val) ==> Keyed(e.id, e.val.service.value) in s;
    if s != [] then assert s[0] in s; ServiceUnions(s, true) else ServiceUnions(s, false)
  }

  /*** buildCountUnions ***/

  /** The selections the count unions are built for: the actual selections in selection
      order, then the default count key without a value unless it is among them. */
  function CountSelections(sels: Dict<Selection>, dk: Option<FacetId>): (r: Dict<Selection>)
    ensures forall e :: e in r ==> (e in sels && IsActual(e.val)) || (dk.Some? && e == Keyed(dk.value, Absent))
    ensures forall e :: e in sels && IsActual(e.val) ==> e in r
    ensures dk.Some? ==> dk.value in Keys(r)
  {
    var actual := Only(Actual, sels);
    OnlyMembers(Actual, sels);
    OnlyKeepsAll(Actual, sels);
    if dk.Some? && dk.value !in Keys(actual) then
      KeysConcat(actual, [Keyed(dk.value, Absent)]);
      actual + [Keyed(dk.value, Absent)]
    else actual
  }

  /** One deselection union: the counts of facet `id` under the other facets' selections. */
  datatype Deselection = Deselection(id: FacetId, others: seq<Fragment>)

  /** One count union of a selected time span: the count under all the selections. */
  datatype CountBranch = CountBranch(id: FacetId, selections: seq<Fragment>)

  /** The time-span selection of facet `id` in `list`, the last one when there were several. */
  function SpanSelect(facets: Dict<FacetDef>, list: Dict<Selection>, id: FacetId): (r: Option<Keyed<Selection>>)
    ensures r.Some? ==> r.value in list && r.value.id == id && KindOf(facets, id) == Timespan && IsSet(r.value.val)
  {
    if list == [] then None
    else
      var last := list[|list| - 1];
      if last.id == id && KindOf(facets, id) == Timespan && IsSet(last.val) then Some(last)
      else
        var r := SpanSelect(facets, list[..|list| - 1], id);
        assert r.Some? ==> r.value in list;
        r
  }

  /** What the count unions need: the formatter fits every selection, and the default count
      key names a facet. */
  predicate CountFits(facets: Dict<FacetDef>, sels: Dict<Selection>, dk: Option<FacetId>) {
    AllFit(facets, sels) && (dk.Some? ==> dk.value in Keys(facets))
  }

  lemma CountSelectionsFit(facets: Dict<FacetDef>, sels: Dict<Selection>, dk: Option<FacetId>)
    requires CountFits(facets, sels, dk)
    ensures AllFit(facets, CountSelections(sels, dk))
  {
  }

  /** The selections a deselection union of facet `id` keeps: the set selections of all
      other facets, in order. */
  function OthersOf(facets: Dict<FacetDef>, list: Dict<Selection>, id: FacetId): (r: Dict<Selection>)
    ensures forall e :: e in r <==> e in list && e.id != id && IsSet(e.val)
    ensures AllFit(facets, list) ==> AllFit(facets, r)
  {
    OnlyMembers(OtherThan(id), list);
    OnlyKeepsAll(OtherThan(id), list);
    Only(OtherThan(id), list)
  }

  function DeselectionFor(facets: Dict<FacetDef>, list: Dict<Selection>, e: Keyed<Selection>): Deselection
    requires AllFit(facets, list)
  {
    Deselection(e.id, FormatSelections(facets, OthersOf(facets, list, e.id)))
  }

  function BranchFor(facets: Dict<FacetDef>, list: Dict<Selection>, e: Keyed<Selection>): (r: seq<CountBranch>)
    requires AllFit(facets, list)
    ensures |r| <= 1 && (r != [] <==> SpanSelect(facets, list, e.id).Some?)
    ensures forall b :: b in r ==> b.id == e.id
  {
    match SpanSelect(facets, list, e.id)
    case None => []
    case Some(sel) =>
      assert AllFit(facets, [sel]);
      [CountBranch(e.id, FormatSelections(facets, OthersOf(facets, list, e.id)) + FormatSelections(facets, [sel]))]
  }

  /** The deselection unions of the entries `done` of `list`. */
  function Deselections(facets: Dict<FacetDef>, list: Dict<Selection>, done: Dict<Selection>): (r: seq<Deselection>)
    requires AllFit(facets, list)
    ensures |r| == |done|
  {
    if done == [] then []
    else Deselections(facets, list, done[..|done| - 1]) + [DeselectionFor(facets, list, done[|done| - 1])]
  }

  function CountBranches(facets: Dict<FacetDef>, list: Dict<Selection>, done: Dict<Selection>): seq<CountBranch>
    requires AllFit(facets, list)
  {
    if done == [] then []
    else CountBranches(facets, list, done[..|done| - 1]) + BranchFor(facets, list, done[|done| - 1])
  }

  /** The two lists `buildCountUnions` joins into the query. */
  datatype CountUnions = CountUnions(deselections: seq<Deselection>, timeSpanSelections: seq<CountBranch>)

  function CountUnionsOf(facets: Dict<FacetDef>, sels: Dict<Selection>, dk: Option<FacetId>): CountUnions
    requires CountFits(facets, sels, dk)
  {
    CountSelectionsFit(facets, sels, dk);
    var list := CountSelections(sels, dk);
    CountUnions(Deselections(facets, list, list), CountBranches(facets, list, list))
  }

  /** The inner loop of `buildCountUnions`: the other facets' set selections, and the
      selection of `id` itself when it is a set time span. */
  method OthersAndSelect(facets: Dict<FacetDef>, selections: Dict<Selection>, id: FacetId)
    returns (others: Dict<Selection>, select: Option<Keyed<Selection>>)
    requires AllFit(facets, selections)
    ensures others == OthersOf(facets, selections, id)
    ensures select == SpanSelect(facets, selections, id)
  {
    others, select := [], None;
    var j := 0;
    while j < |selections|
      invariant 0 <= j <= |selections|
      invariant others == Only(OtherThan(id), selections[..j])
      invariant select == SpanSelect(facets, selections[..j], id)
    {
      var s := selections[j];
      OnlySnoc(OtherThan(id), selections, j);
      assert selections[..j + 1][..j] == selections[..j];
      assert s in selections;
      if s.id != id {
        if IsSet(s.val) {
          others := others + [s];
        }
      } else if KindOf(facets, s.id) == Timespan && IsSet(s.val) {
        select := Some(s);
      }
      j := j + 1;
    }
    assert selections[..j] == selections;
  }

  /** The first loop of `buildCountUnions`: the actual selections, in selection order, and
      whether the default count key is among them. */
  method ActualSelections(sels: Dict<Selection>, dk: Option<FacetId>) returns (actual: Dict<Selection>, defaultSelected: bool)
    ensures actual == Only(Actual, sels)
    ensures defaultSelected <==> dk.Some? && dk.value in Keys(actual)
  {
    actual, defaultSelected := [], false;
    var k := 0;
    while k < |sels|
      invariant 0 <= k <= |sels|
      invariant actual == Only(Actual, sels[..k])
      invariant defaultSelected <==> dk.Some? && dk.value in Keys(actual)
    {
      OnlySnoc(Actual, sels, k);
      if IsActual(sels[k].val) {
        KeysConcat(actual, [sels[k]]);
        actual := actual + [sels[k]];
        if Some(sels[k].id) == dk {
          defaultSelected := true;
        }
      }
      k := k + 1;
    }
    assert sels[..k] == sels;
  }

  /** `buildCountUnions`. */
  method BuildCountUnions(sels: Dict<Selection>, facets: Dict<FacetDef>, dk: Option<FacetId>)
    returns (deselections: seq<Deselection>, timeSpanSelections: seq<CountBranch>)
    requires CountFits(facets, sels, dk)
    ensures CountUnions(deselections, timeSpanSelections) == CountUnionsOf(facets, sels, dk)
  {
    var actualSelections, defaultSelected := ActualSelections(sels, dk);
    var selections := actualSelections;
    if !defaultSelected && dk.Some? {
      selections := selections + [Keyed(dk.value, Absent)];
    }
    assert selections == CountSelections(sels, dk);
    deselections, timeSpanSelections := CountUnionsFor(facets, selections);
  }

  /** The second loop of `buildCountUnions`: the deselection union of every selection, and
      the count union of every selected time span. */
  method CountUnionsFor(facets: Dict<FacetDef>, selections: Dict<Selection>)
    returns (deselections: seq<Deselection>, timeSpanSelections: seq<CountBranch>)
    requires AllFit(facets, selections)
    ensures deselections == Deselections(facets, selections, selections)
    ensures timeSpanSelections == CountBranches(facets, selections, selections)
  {
    deselections, timeSpanSelections := [], [];
    var m := 0;
    while m < |selections|
      invariant 0 <= m <= |selections|
      invariant deselections == Deselections(facets, selections, selections[..m])
      invariant timeSpanSelections == CountBranches(facets, selections, selections[..m])
    {
      CountStep(facets, selections, m);
      var deselection, branch := UnionsOfEntry(facets, selections, selections[m]);
      deselections := deselections + [deselection];
      timeSpanSelections := timeSpanSelections + branch;
      m := m + 1;
    }
    assert selections[..m] == selections;
  }

  /** The body of the second loop of `buildCountUnions` for one selection. */
  method UnionsOfEntry(facets: Dict<FacetDef>, selections: Dict<Selection>, selection: Keyed<Selection>)
    returns (deselection: Deselection, branch: seq<CountBranch>)
    requires AllFit(facets, selections)
    ensures deselection == DeselectionFor(facets, selections, selection)
    ensures branch == BranchFor(facets, selections, selection)
  {
    var others, select := OthersAndSelect(facets, selections, selection.id);
    var formattedOthers := FormatSelections(facets, others);
    deselection := Deselection(selection.id, formattedOthers);
    branch := [];
    if select.Some? {
      assert AllFit(facets, [select.value]);
      branch := [CountBranch(selection.id, formattedOthers + FormatSelections(facets, [select.value]))];
    }
  }

  lemma CountStep(facets: Dict<FacetDef>, list: Dict<Selection>, m: nat)
    requires AllFit(facets, list) && m < |list|
    ensures Deselections(facets, list, list[..m + 1]) == Deselections(facets, list, list[..m]) + [DeselectionFor(facets, list, list[m])]
    ensures CountBranches(facets, list, list[..m + 1]) == CountBranches(facets, list, list[..m]) + BranchFor(facets, list, list[m])
  {
    assert list[..m + 1][..m] == list[..m];
    assert list[..m + 1][m] == list[m];
  }

  /*** Lemmas: the count unions ***/

  lemma {:induction false} DeselectionsAt(facets: Dict<FacetDef>, list: Dict<Selection>, done: Dict<Selection>)
    requires AllFit(facets, list)
    ensures forall i :: 0 <= i < |done| ==> Deselections(facets, list, done)[i] == DeselectionFor(facets, list, done[i])
  {
    if done != [] {
      DeselectionsAt(facets, list, done[..|done| - 1]);
    }
  }

  /** One deselection union per count selection, in the same order, each formatted from the
      set selections of the other facets only; the default count key always has one. */
  lemma CountDeselections(facets: Dict<FacetDef>, sels: Dict<Selection>, dk: Option<FacetId>)
    requires CountFits(facets, sels, dk)
    ensures var d := CountUnionsOf(facets, sels, dk).deselections;
      var list := CountSelections(sels, dk);
      && |d| == |list|
      && (forall i :: 0 <= i < |list| ==>
            d[i] == Deselection(list[i].id, FormatSelections(facets, OthersOf(facets, list, list[i].id))))
      && (dk.Some? ==> exists i :: 0 <= i < |d| && d[i].id == dk.value)
  {
    var list := CountSelections(sels, dk);
    DeselectionsAt(facets, list, list);
    if dk.Some? {
      InKeys(list, dk.value);
    }
  }

  lemma CountBranchesIds(facets: Dict<FacetDef>, list: Dict<Selection>, done: Dict<Selection>)
    requires AllFit(facets, list)
    ensures forall b :: b in CountBranches(facets, list, done) ==>
      exists e :: e in done && e.id == b.id && SpanSelect(facets, list, e.id).Some?
    ensures forall e :: e in done && SpanSelect(facets, list, e.id).Some? ==>
      exists b :: b in CountBranches(facets, list, done) && b.id == e.id
  {
    CountBranchesFrom(facets, list, done);
    CountBranchesCover(facets, list, done);
  }

  lemma {:induction false} CountBranchesFrom(facets: Dict<FacetDef>, list: Dict<Selection>, done: Dict<Selection>)
    requires AllFit(facets, list)
    ensures forall b :: b in CountBranches(facets, list, done) ==>
      exists e :: e in done && e.id == b.id && SpanSelect(facets, list, e.id).Some?
  {
    if done != [] {
      var init, last := done[..|done| - 1], done[|done| - 1];
      CountBranchesFrom(facets, list, init);
      var added := BranchFor(facets, list, last);
      assert CountBranches(facets, list, done) == CountBranches(facets, list, init) + added;
      forall b | b in CountBranches(facets, list, done)
        ensures exists e :: e in done && e.id == b.id && SpanSelect(facets, list, e.id).Some?
      {
        if b in CountBranches(facets, list, init) {
          var e :| e in init && e.id == b.id && SpanSelect(facets, list, e.id).Some?;
          assert e in done;
        } else {
          assert b in added && last in done;
        }
      }
    }
  }

  lemma CountBranchesCover(facets: Dict<FacetDef>, list: Dict<Selection>, done: Dict<Selection>)
    requires AllFit(facets, list)
    ensures forall e :: e in done && SpanSelect(facets, list, e.id).Some? ==>
      exists b :: b in CountBranches(facets, list, done) && b.id == e.id
  {
    forall e | e in done && SpanSelect(facets, list, e.id).Some?
      ensures exists b :: b in CountBranches(facets, list, done) && b.id == e.id
    {
      var i :| 0 <= i < |done| && done[i] == e;
      BranchKept(facets, list, done, i);
      assert BranchFor(facets, list, e)[0] in CountBranches(facets, list, done);
    }
  }

  /** The count union of an entry is among the count unions of every list holding that entry. */
  lemma {:induction false} BranchKept(facets: Dict<FacetDef>, list: Dict<Selection>, done: Dict<Selection>, i: nat)
    requires AllFit(facets, list) && i < |done|
    ensures forall b :: b in BranchFor(facets, list, done[i]) ==> b in CountBranches(facets, list, done)
  {
    var init := done[..|done| - 1];
    if i < |done| - 1 {
      BranchKept(facets, list, init, i);
      assert init[i] == done[i];
    }
  }

  /** When no facet is selected twice, as in the source's selection object, there is a
      count union for exactly the selected time spans. */
  lemma CountBranchesSpec(facets: Dict<FacetDef>, sels: Dict<Selection>, dk: Option<FacetId>)
    requires CountFits(facets, sels, dk) && UniqueKeys(sels)
    ensures var b := CountUnionsOf(facets, sels, dk).timeSpanSelections;
      var list := CountSelections(sels, dk);
      && (forall x :: x in b ==> exists e :: e in list && e.id == x.id && KindOf(facets, e.id) == Timespan && IsSet(e.val))
      && (forall e :: e in list && KindOf(facets, e.id) == Timespan && IsSet(e.val) ==> exists x :: x in b && x.id == e.id)
  {
    var list := CountSelections(sels, dk);
    CountSelectionsUnique(sels, dk);
    CountBranchesIds(facets, list, list);
    forall e | e in list ensures SpanSelect(facets, list, e.id).Some? <==> KindOf(facets, e.id) == Timespan && IsSet(e.val) {
      var i :| 0 <= i < |list| && list[i] == e;
      SpanSelectOf(facets, list, i);
    }
  }

  lemma {:induction false} OnlyUnique(p: Pick, s: Dict<Selection>)
    requires UniqueKeys(s)
    ensures UniqueKeys(Only(p, s))
  {
    if s != [] {
      UniqueKeysTail(s);
      OnlyUnique(p, s[1..]);
      if Picks(p, s[0]) {
        var rest := Only(p, s[1..]);
        OnlyMembers(p, s[1..]);
        InKeys(s[1..], s[0].id);
        forall i | 0 <= i < |rest| ensures rest[i].id != s[0].id {
          assert rest[i] in s[1..];
          var j :| 0 <= j < |s[1..]| && s[1..][j] == rest[i];
        }
        InKeys(rest, s[0].id);
        UniqueKeysCons(s[0], rest);
      }
    }
  }

  lemma SnocUnique<V>(d: Dict<V>, e: Keyed<V>)
    requires UniqueKeys(d) && e.id !in Keys(d)
    ensures UniqueKeys(d + [e])
  {
    InKeys(d, e.id);
    forall i, j | 0 <= i < j < |d + [e]| ensures (d + [e])[i].id != (d + [e])[j].id {
      if j == |d| {
        assert (d + [e])[i] == d[i];
      }
    }
  }

  lemma CountSelectionsUnique(sels: Dict<Selection>, dk: Option<FacetId>)
    requires UniqueKeys(sels)
    ensures UniqueKeys(CountSelections(sels, dk))
  {
    OnlyUnique(Actual, sels);
    if dk.Some? && dk.value !in Keys(Only(Actual, sels)) {
      SnocUnique(Only(Actual, sels), Keyed(dk.value, Absent));
    }
  }

  lemma {:induction false} SpanSelectOf(facets: Dict<FacetDef>, list: Dict<Selection>, i: nat)
    requires UniqueKeys(list) && i < |list|
    ensures SpanSelect(facets, list, list[i].id) ==
      if KindOf(facets, list[i].id) == Timespan && IsSet(list[i].val) then Some(list[i]) else None
  {
    var last := list[|list| - 1];
    var init := list[..|list| - 1];
    if i < |list| - 1 {
      assert init[i] == list[i] && last.id != list[i].id;
      SpanSelectOf(facets, init, i);
    } else if !(KindOf(facets, last.id) == Timespan && IsSet(last.val)) {
      SpanSelectNone(facets, init, last.id);
    }
  }

  lemma {:induction false} SpanSelectNone(facets: Dict<FacetDef>, list: Dict<Selection>, id: FacetId)
    requires forall j :: 0 <= j < |list| ==> list[j].id != id
    ensures SpanSelect(facets, list, id) == None
  {
    if list != [] {
      SpanSelectNone(facets, list[..|list| - 1], id);
    }
  }

  /*** buildQuery ***/

  /** The facet query, part by part; the fixed template text around the parts is not modelled. */
  datatype Query = Query(
    templateFacets: seq<FacetId>,
    textFacets: seq<FacetId>,
    services: ServiceUnions,
    hierarchies: seq<HierarchyUnion>,
    counts: CountUnions,
    selections: seq<Fragment>,
    selectionFilters: seq<SelectionFilter>,
    lang: string)

  /** `buildQuery`. */
  function BuildQuery(sels: Dict<Selection>, facets: Dict<FacetDef>, dk: Option<FacetId>, lang: string): Query
    requires QueryFits(facets, sels) && (dk.Some? ==> dk.value in Keys(facets))
  {
    Query(TemplateFacets(facets), TextFacetIds(facets, sels), ServiceUnionsOf(facets), HierarchyUnions(facets, sels),
          CountUnionsOf(facets, sels, dk), FormatSelections(facets, sels), SelectionFilters(facets, sels), lang)
  }

  /** Every hierarchy union of the query carries the same constraint: the selections of
      the facets that are not hierarchy facets, formatted as the other facets and then the
      text facets, each sorted by count. */
  lemma HierarchyUnionsShareConstraint(sels: Dict<Selection>, facets: Dict<FacetDef>, dk: Option<FacetId>, lang: string)
    requires QueryFits(facets, sels) && (dk.Some? ==> dk.value in Keys(facets))
    ensures var q := BuildQuery(sels, facets, dk, lang);
      var sorted := SortByCount(sels);
      var rest := Only(InGroup(facets, Others), sorted) + Only(InGroup(facets, Texts), sorted);
      && (forall h :: h in q.hierarchies ==> (h.selections == FormatSelections(facets, RejectHierarchies(facets, sels))))
      && Ordered(facets, RejectHierarchies(facets, sels)) == rest
  {
    RejectHierarchiesOrder(facets, sels);
  }
}
