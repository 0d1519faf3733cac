/** The selection formatter (`facetSelectionFormatter`): turns the facet selections into
    the constraint part of a query.

    The constraint is built as a sequence of abstract fragments (triple patterns and
    filters) instead of query text; the text form of each fragment is a fixed template. */
module SelectionFormatter {
  import opened Objects
  import opened FacetData
  import opened Strings

  /** Query variables: `?s`, the hierarchy variables `?h<i>_<j>_...`, `?text<i>`,
      `?time_span_uri`, `?start` and `?end`. */
  datatype Var = S | H(base: nat, suffix: seq<nat>) | TextVar(n: nat) | TimeSpanUri | StartVar | EndVar

  datatype Term = V(v: Var) | Value(val: Val)

  datatype Fragment =
    | Triple(subj: Var, pred: string, obj: Term)               // `subj pred obj .`
    | ContainsFilter(textVar: Var, word: string)                 // `FILTER(CONTAINS(LCASE(var), "word"))`
    | StartFilter(dateVar: Var, date: Date)                      // `FILTER(var >= "date"^^xsd:date)`
    | EndFilter(dateVar: Var, date: Date)                        // `FILTER(var <= "date"^^xsd:date)`

  /*** Sorting the selections by count ***/

  /** The sort key `val.count`: only a single value object has one. */
  function CountKey(sel: Selection): Option<int> {
    if sel.One? then sel.item.count else None
  }

  /** Ascending order of sort keys; a missing count sorts after every number. */
  predicate KeyLe(a: Option<int>, b: Option<int>) {
    b.None? || (a.Some? && a.value <= b.value)
  }

  predicate SortedByCount(s: Dict<Selection>) {
    forall i, j :: 0 <= i < j < |s| ==> KeyLe(CountKey(s[i].val), CountKey(s[j].val))
  }

  /** Puts `e` before the first entry whose key is not smaller, so that it stays ahead of
      the entries with an equal key that followed it in the input. */
  function Insert(e: Keyed<Selection>, s: Dict<Selection>): Dict<Selection> {
    if s == [] || KeyLe(CountKey(e.val), CountKey(s[0].val)) then [e] + s
    else [s[0]] + Insert(e, s[1..])
  }

  /** `_.sortBy(entries, 'val.count')`: a stable sort by count. */
  function SortByCount(s: Dict<Selection>): Dict<Selection> {
    if s == [] then [] else Insert(s[0], SortByCount(s[1..]))
  }

  /*** Sub-sequences picked out by a property of the entries ***/

  /** The three groups the formatter orders the selections into. */
  datatype Group = Hierarchies | Others | Texts

  function GroupOf(k: FacetType): Group {
    match k
    case Hierarchy => Hierarchies
    case Text => Texts
    case _ => Others
  }

  function Rank(g: Group): nat {
    match g
    case Hierarchies => 0
    case Others => 1
    case Texts => 2
  }

  /** A property of an entry by which a sub-sequence of selections is picked: its group,
      its count, whether the formatter uses it, whether it is outside a group (as
      `rejectHierarchies` keeps it), whether the count unions treat it as a selection,
      and whether it is a set selection of another facet than `id`. */
  datatype Pick =
    | InGroup(facets: Dict<FacetDef>, g: Group)
    | WithCount(key: Option<int>)
    | Effective
    | OutOfGroup(facets: Dict<FacetDef>, g: Group)
    | Actual
    | OtherThan(id: FacetId)

  predicate Picks(p: Pick, e: Keyed<Selection>) {
    match p
    case InGroup(facets, g) => GroupOf(KindOf(facets, e.id)) == g
    case WithCount(k) => CountKey(e.val) == k
    case Effective => !Skipped(e.val)
    case OutOfGroup(facets, g) => GroupOf(KindOf(facets, e.id)) != g
    case Actual => IsActual(e.val)
    case OtherThan(id) => e.id != id && IsSet(e.val)
  }

  /** A selection `buildCountUnions` counts: a value object with a truthy value, or an
      array whose first entry has one. */
  predicate IsActual(sel: Selection) {
    (sel.One? && Truthy(sel.item.value)) || (sel.Many? && |sel.items| > 0 && Truthy(sel.items[0].value))
  }

  /** The entries of `s` that `p` picks, in their order in `s`. */
  function Only(p: Pick, s: Dict<Selection>): (r: Dict<Selection>)
    ensures |r| <= |s|
  {
    if s == [] then [] else if Picks(p, s[0]) then [s[0]] + Only(p, s[1..]) else Only(p, s[1..])
  }

  /** Hierarchy facets first, text facets last, all others in between. */
  function Partition(facets: Dict<FacetDef>, s: Dict<Selection>): Dict<Selection> {
    Only(InGroup(facets, Hierarchies), s) + Only(InGroup(facets, Others), s) + Only(InGroup(facets, Texts), s)
  }

  /** The order in which `parseFacetSelections` formats the selections. */
  function Ordered(facets: Dict<FacetDef>, sels: Dict<Selection>): Dict<Selection> {
    Partition(facets, SortByCount(sels))
  }

  /*** The fragments of one selection ***/

  /** A selection that would only add a malformed fragment: `undefined`, `null`, a value
      object without a truthy value, or an array holding an entry without one. */
  predicate Skipped(sel: Selection) {
    match sel
    case Many(items) => exists j :: 0 <= j < |items| && !Truthy(items[j].value)
    case One(item) => !Truthy(item.value)
    case _ => true
  }

  function BasicTriples(items: seq<FacetValue>, key: FacetId): seq<Fragment> {
    if items == [] then [] else [Triple(S, key, Value(items[0].value))] + BasicTriples(items[1..], key)
  }

  /** `parseBasicFacet`: one `?s key value .` per selected value. */
  function BasicFragments(sel: Selection, key: FacetId): seq<Fragment> {
    if sel.Many? then BasicTriples(sel.items, key) else [Triple(S, key, Value(ValueOf(sel)))]
  }

  /** `[from, from + 1, ..., from + n - 1]`. */
  function Range(from: nat, n: nat): (r: seq<nat>)
    ensures |r| == n
  {
    if n == 0 then [] else Range(from, n - 1) + [from + n - 1]
  }

  /** The variable of the `k`-th value of a hierarchy facet formatted with counter `i`:
      `?h<i>` followed by `_<i>`, `_<i+1>`, ... once per earlier value. */
  function HierVar(i: nat, k: nat): Var {
    H(i, Range(i, k))
  }

  function HierarchyChain(items: seq<FacetValue>, key: FacetId, prop: string, i: nat, k: nat): seq<Fragment> {
    if items == [] then []
    else [Triple(HierVar(i, k), prop, Value(items[0].value)), Triple(S, key, V(HierVar(i, k)))]
         + HierarchyChain(items[1..], key, prop, i, k + 1)
  }

  /** `parseHierarchyFacet`: for every selected value a fresh variable linked to the value
      by the hierarchy property and to the subject by the facet's own property. */
  function HierarchyFragments(sel: Selection, key: FacetId, prop: string, i: nat): seq<Fragment> {
    if sel.Many? then HierarchyChain(sel.items, key, prop, i, 0)
    else [Triple(HierVar(i, 0), prop, Value(ValueOf(sel))), Triple(S, key, V(HierVar(i, 0)))]
  }

  /** The words a text search is made of: the text without punctuation, split at spaces. */
  function SearchWords(text: string): seq<string> {
    Split(Strip(text), ' ')
  }

  function WordFilters(words: seq<string>, i: nat): seq<Fragment> {
    if words == [] then [] else [ContainsFilter(TextVar(i), Lower(words[0]))] + WordFilters(words[1..], i)
  }

  /** `parseTextFacet`: the facet's text in `?text<i>`, and one containment filter per word. */
  function TextFragments(sel: Selection, key: FacetId, i: nat): seq<Fragment>
    requires ValueOf(sel).Str?
  {
    [Triple(S, key, V(TextVar(i)))] + WordFilters(SearchWords(ValueOf(sel).s), i)
  }

  /** `(val.value || {}).start` and `.end`. */
  function SpanStart(v: Val): Option<Date> {
    if v.Span? then v.start else None
  }

  function SpanEnd(v: Val): Option<Date> {
    if v.Span? then v.end else None
  }

  /** `parseTimeSpanFacet`: each given bound becomes a filter on a date of the subject, or
      of its time-span resource; when both bounds use the same date property the end
      bound is compared with the start variable. */
  function TimeSpanFragments(sel: Selection, key: FacetId, def: FacetDef): seq<Fragment> {
    var start := SpanStart(ValueOf(sel));
    var end := SpanEnd(ValueOf(sel));
    var uri := if def.isResource then TimeSpanUri else S;
    (if def.isResource then [Triple(S, key, V(TimeSpanUri))] else [])
    + (if start.Some? then [Triple(uri, def.start, V(StartVar)), StartFilter(StartVar, start.value)] else [])
    + (if end.None? then []
       else if def.start == def.end then [EndFilter(StartVar, end.value)]
       else [Triple(uri, def.end, V(EndVar)), EndFilter(EndVar, end.value)])
  }

  /*** The whole constraint ***/

  /** What the formatter needs of a selection: its facet exists and, for a text facet that
      is not skipped, its value is a string (anything else makes the source throw). */
  predicate Fits(facets: Dict<FacetDef>, e: Keyed<Selection>) {
    e.id in Keys(facets) &&
    (KindOf(facets, e.id) == Text && !Skipped(e.val) ==> e.val.One? && e.val.item.value.Str?)
  }

  predicate AllFit(facets: Dict<FacetDef>, sels: Dict<Selection>) {
    forall e :: e in sels ==> Fits(facets, e)
  }

  function DefOf(facets: Dict<FacetDef>, id: FacetId): FacetDef
    requires id in Keys(facets)
  {
    Get(facets, id).value
  }

  /** Text and hierarchy facets take a number from the counter for their variables. */
  predicate TakesNumber(k: FacetType) {
    k == Text || k == Hierarchy
  }

  function EntryFragments(facets: Dict<FacetDef>, e: Keyed<Selection>, i: nat): seq<Fragment>
    requires Fits(facets, e) && !Skipped(e.val)
  {
    match KindOf(facets, e.id)
    case Timespan => TimeSpanFragments(e.val, e.id, DefOf(facets, e.id))
    case Text => TextFragments(e.val, e.id, i)
    case Hierarchy => HierarchyFragments(e.val, e.id, DefOf(facets, e.id).property, i)
    case Basic => BasicFragments(e.val, e.id)
  }

  /** The fragments of the ordered entries `list`, numbering from `i`. */
  function FormatFrom(facets: Dict<FacetDef>, list: Dict<Selection>, i: nat): seq<Fragment>
    requires AllFit(facets, list)
    decreases |list|
  {
    if list == [] then []
    else
      assert list[0] in list;
      assert forall e :: e in list[1..] ==> e in list;
      Piece(facets, list[0], i) + FormatFrom(facets, list[1..], Next(facets, list[0], i))
  }

  /** The fragments of one entry: none for a skipped one. */
  function Piece(facets: Dict<FacetDef>, e: Keyed<Selection>, i: nat): seq<Fragment>
    requires Fits(facets, e)
  {
    if Skipped(e.val) then [] else EntryFragments(facets, e, i)
  }

  /** The number of the next entry: one more after an entry whose builder took this one. */
  function Next(facets: Dict<FacetDef>, e: Keyed<Selection>, i: nat): nat {
    if !Skipped(e.val) && TakesNumber(KindOf(facets, e.id)) then i + 1 else i
  }

  /** `parseFacetSelections`, as a function of the definitions and the selections. */
  function FormatSelections(facets: Dict<FacetDef>, sels: Dict<Selection>): seq<Fragment>
    requires AllFit(facets, sels)
  {
    OrderedMembers(facets, sels);
    FormatFrom(facets, Ordered(facets, sels), 0)
  }

  /*** The imperative builders of the source ***/

  method ParseBasicFacet(sel: Selection, key: FacetId) returns (r: seq<Fragment>)
    ensures r == BasicFragments(sel, key)
  {
    if sel.Many? {
      r := [];
      var j := 0;
      while j < |sel.items|
        invariant 0 <= j <= |sel.items|
        invariant r + BasicTriples(sel.items[j..], key) == BasicTriples(sel.items, key)
      {
        assert sel.items[j..][1..] == sel.items[j + 1..];
        r := r + [Triple(S, key, Value(sel.items[j].value))];
        j := j + 1;
      }
      return;
    }
    r := [Triple(S, key, Value(ValueOf(sel)))];
  }

  method ParseHierarchyFacet(sel: Selection, key: FacetId, prop: string, i: nat) returns (r: seq<Fragment>)
    ensures r == HierarchyFragments(sel, key, prop, i)
  {
    var hVar := H(i, []);
    var n := i;
    if sel.Many? {
      r := [];
      var j := 0;
      while j < |sel.items|
        invariant 0 <= j <= |sel.items|
        invariant hVar == HierVar(i, j) && n == i + j
        invariant r + HierarchyChain(sel.items[j..], key, prop, i, j) == HierarchyChain(sel.items, key, prop, i, 0)
      {
        HierarchyChainStep(sel.items, key, prop, i, j);
        var pair := [Triple(hVar, prop, Value(sel.items[j].value)), Triple(S, key, V(hVar))];
        assert r + (pair + HierarchyChain(sel.items[j + 1..], key, prop, i, j + 1)) ==
          (r + pair) + HierarchyChain(sel.items[j + 1..], key, prop, i, j + 1);
        r := r + pair;
        hVar := H(hVar.base, hVar.suffix + [n]);
        n := n + 1;
        j := j + 1;
      }
      return;
    }
    r := [Triple(hVar, prop, Value(ValueOf(sel))), Triple(S, key, V(hVar))];
  }

  lemma HierarchyChainStep(items: seq<FacetValue>, key: FacetId, prop: string, i: nat, j: nat)
    requires j < |items|
    ensures HierarchyChain(items[j..], key, prop, i, j) ==
      [Triple(HierVar(i, j), prop, Value(items[j].value)), Triple(S, key, V(HierVar(i, j)))]
      + HierarchyChain(items[j + 1..], key, prop, i, j + 1)
    ensures HierVar(i, j + 1) == H(i, HierVar(i, j).suffix + [i + j])
  {
    assert items[j..][1..] == items[j + 1..];
  }

  method ParseTextFacet(sel: Selection, key: FacetId, i: nat) returns (r: seq<Fragment>)
    requires ValueOf(sel).Str?
    ensures r == TextFragments(sel, key, i)
  {
    var textVar := TextVar(i);
    r := [Triple(S, key, V(textVar))];
    var words := SearchWords(ValueOf(sel).s);
    var j := 0;
    while j < |words|
      invariant 0 <= j <= |words|
      invariant r + WordFilters(words[j..], i) == TextFragments(sel, key, i)
    {
      assert words[j..][1..] == words[j + 1..];
      r := r + [ContainsFilter(textVar, Lower(words[j]))];
      j := j + 1;
    }
  }

  /** The first half of `parseFacetSelections`: the sorted selections dealt into the
      hierarchy, other and text lists, each in sorted order. */
  method GroupSelections(facets: Dict<FacetDef>, sorted: Dict<Selection>)
    returns (hierarchyFacets: Dict<Selection>, otherFacets: Dict<Selection>, textFacets: Dict<Selection>)
    ensures hierarchyFacets == Only(InGroup(facets, Hierarchies), sorted)
    ensures otherFacets == Only(InGroup(facets, Others), sorted)
    ensures textFacets == Only(InGroup(facets, Texts), sorted)
  {
    otherFacets, hierarchyFacets, textFacets := [], [], [];
    var k := 0;
    while k < |sorted|
      invariant 0 <= k <= |sorted|
      invariant hierarchyFacets == Only(InGroup(facets, Hierarchies), sorted[..k])
      invariant otherFacets == Only(InGroup(facets, Others), sorted[..k])
      invariant textFacets == Only(InGroup(facets, Texts), sorted[..k])
    {
      var facet := sorted[k];
      OnlySnoc(InGroup(facets, Hierarchies), sorted, k);
      OnlySnoc(InGroup(facets, Others), sorted, k);
      OnlySnoc(InGroup(facets, Texts), sorted, k);
      var kind := KindOf(facets, facet.id);
      if kind == Text {
        textFacets := textFacets + [facet];
      } else if kind == Hierarchy {
        hierarchyFacets := hierarchyFacets + [facet];
      } else {
        otherFacets := otherFacets + [facet];
      }
      k := k + 1;
    }
    assert sorted[..k] == sorted;
  }

  /** The fragments of one selection that is not skipped, by the builder of its facet type. */
  method ParseEntry(facets: Dict<FacetDef>, facet: Keyed<Selection>, i: nat) returns (r: seq<Fragment>)
    requires Fits(facets, facet) && !Skipped(facet.val)
    ensures r == EntryFragments(facets, facet, i)
  {
    match KindOf(facets, facet.id) {
      case Timespan =>
        r := TimeSpanFragments(facet.val, facet.id, DefOf(facets, facet.id));
      case Text =>
        r := ParseTextFacet(facet.val, facet.id, i);
      case Hierarchy =>
        r := ParseHierarchyFacet(facet.val, facet.id, DefOf(facets, facet.id).property, i);
      case Basic =>
        r := ParseBasicFacet(facet.val, facet.id);
    }
  }

  method ParseFacetSelections(facets: Dict<FacetDef>, sels: Dict<Selection>) returns (r: seq<Fragment>)
    requires AllFit(facets, sels)
    ensures r == FormatSelections(facets, sels)
  {
    var sorted := SortByCount(sels);
    var hierarchyFacets, otherFacets, textFacets := GroupSelections(facets, sorted);
    var selections := hierarchyFacets + otherFacets + textFacets;
    OrderedMembers(facets, sels);
    r := FormatAll(facets, selections);
  }

  /** The loop of `parseFacetSelections` over the ordered selections, numbering the
      selections whose builder takes a number. */
  method FormatAll(facets: Dict<FacetDef>, selections: Dict<Selection>) returns (r: seq<Fragment>)
    requires AllFit(facets, selections)
    ensures r == FormatFrom(facets, selections, 0)
  {
    r := [];
    var i := 0;
    var rest := selections;
    while rest != []
      invariant AllFit(facets, rest)
      invariant r + FormatFrom(facets, rest, i) == FormatFrom(facets, selections, 0)
      decreases |rest|
    {
      FormatFromCons(facets, rest, i, r);
      var f, next := FormatEntry(facets, rest[0], i);
      r := r + f;
      i := next;
      rest := rest[1..];
    }
    assert r + [] == r;
  }

  /** One turn of that loop: the fragments so far, then those of the first entry, then the rest. */
  lemma FormatFromCons(facets: Dict<FacetDef>, list: Dict<Selection>, i: nat, done: seq<Fragment>)
    requires list != [] && AllFit(facets, list)
    ensures Fits(facets, list[0]) && AllFit(facets, list[1..])
    ensures done + FormatFrom(facets, list, i) ==
      (done + Piece(facets, list[0], i)) + FormatFrom(facets, list[1..], Next(facets, list[0], i))
  {
    assert list[0] in list;
    assert forall e :: e in list[1..] ==> e in list;
  }

  /** One turn of the loop of `parseFacetSelections`: the fragments of `facet` unless it
      is skipped, and the next number. */
  method FormatEntry(facets: Dict<FacetDef>, facet: Keyed<Selection>, i: nat) returns (f: seq<Fragment>, next: nat)
    requires Fits(facets, facet)
    ensures f == Piece(facets, facet, i) && next == Next(facets, facet, i)
  {
    f, next := [], i;
    if !Skipped(facet.val) {
      f := ParseEntry(facets, facet, i);
      if TakesNumber(KindOf(facets, facet.id)) {
        next := i + 1;
      }
    }
  }



  /*** Lemmas: sorting ***/

  lemma KeyLeTotal(a: Option<int>, b: Option<int>)
    ensures KeyLe(a, b) || KeyLe(b, a)
  {
  }

  lemma OnlyCons(p: Pick, e: Keyed<Selection>, s: Dict<Selection>)
    ensures Only(p, [e] + s) == if Picks(p, e) then [e] + Only(p, s) else Only(p, s)
  {
    assert ([e] + s)[0] == e && ([e] + s)[1..] == s;
  }

  lemma OnlySnoc(p: Pick, s: Dict<Selection>, k: nat)
    requires k < |s|
    ensures Only(p, s[..k + 1]) == Only(p, s[..k]) + (if Picks(p, s[k]) then [s[k]] else [])
  {
    assert s[..k + 1] == s[..k] + [s[k]];
    OnlyConcat(p, s[..k], [s[k]]);
    OnlyCons(p, s[k], []);
  }

  lemma {:induction false} OnlyConcat(p: Pick, a: Dict<Selection>, b: Dict<Selection>)
    ensures Only(p, a + b) == Only(p, a) + Only(p, b)
  {
    if a == [] {
      assert a + b == b;
    } else {
      assert a + b == [a[0]] + (a[1..] + b);
      OnlyCons(p, a[0], a[1..] + b);
      OnlyConcat(p, a[1..], b);
    }
  }

  lemma {:induction false} OnlyMembers(p: Pick, s: Dict<Selection>)
    ensures forall e :: e in Only(p, s) ==> e in s && Picks(p, e)
  {
    if s != [] {
      OnlyMembers(p, s[1..]);
    }
  }

  lemma {:induction false} OnlyMultiset(p: Pick, s: Dict<Selection>)
    ensures multiset(Only(p, s)) <= multiset(s)
  {
    if s != [] {
      OnlyMultiset(p, s[1..]);
      assert s == [s[0]] + s[1..];
    }
  }

  lemma {:induction false} InsertMultiset(e: Keyed<Selection>, s: Dict<Selection>)
    ensures multiset(Insert(e, s)) == multiset(s) + multiset{e}
  {
    if s != [] && !KeyLe(CountKey(e.val), CountKey(s[0].val)) {
      InsertMultiset(e, s[1..]);
      assert s == [s[0]] + s[1..];
    }
  }

  lemma {:induction false} InsertSorted(e: Keyed<Selection>, s: Dict<Selection>)
    requires SortedByCount(s)
    ensures SortedByCount(Insert(e, s))
  {
    if s != [] && !KeyLe(CountKey(e.val), CountKey(s[0].val)) {
      InsertSorted(e, s[1..]);
      InsertMultiset(e, s[1..]);
      var r := Insert(e, s);
      assert r == [s[0]] + Insert(e, s[1..]);
      forall j | 0 < j < |r| ensures KeyLe(CountKey(s[0].val), CountKey(r[j].val)) {
        assert r[j] in multiset(Insert(e, s[1..]));
        assert r[j] in multiset(s[1..]) + multiset{e};
        if r[j] != e {
          assert r[j] in s[1..];
          var t :| 0 <= t < |s[1..]| && s[1..][t] == r[j];
          assert s[t + 1] == r[j];
        }
      }
    }
  }

  /** `_.sortBy` is a sort: the result is ordered by count and is a permutation of its input. */
  lemma {:induction false} SortByCountSorts(s: Dict<Selection>)
    ensures SortedByCount(SortByCount(s))
    ensures multiset(SortByCount(s)) == multiset(s)
  {
    if s != [] {
      SortByCountSorts(s[1..]);
      InsertSorted(s[0], SortByCount(s[1..]));
      InsertMultiset(s[0], SortByCount(s[1..]));
      assert s == [s[0]] + s[1..];
    }
  }

  lemma InsertFront(e: Keyed<Selection>, s: Dict<Selection>)
    requires forall j :: 0 <= j < |s| ==> KeyLe(CountKey(e.val), CountKey(s[j].val))
    ensures Insert(e, s) == [e] + s
  {
  }

  lemma {:induction false} OnlyInsert(p: Pick, e: Keyed<Selection>, s: Dict<Selection>)
    requires SortedByCount(s)
    ensures Only(p, Insert(e, s)) == if Picks(p, e) then Insert(e, Only(p, s)) else Only(p, s)
  {
    if s == [] {
      OnlyCons(p, e, s);
    } else if KeyLe(CountKey(e.val), CountKey(s[0].val)) {
      assert Insert(e, s) == [e] + s;
      OnlyCons(p, e, s);
      OnlyMembers(p, s);
      forall j | 0 <= j < |Only(p, s)| ensures KeyLe(CountKey(e.val), CountKey(Only(p, s)[j].val)) {
        var x := Only(p, s)[j];
        assert x in Only(p, s);
        var t :| 0 <= t < |s| && s[t] == x;
        if t > 0 {
          assert KeyLe(CountKey(s[0].val), CountKey(s[t].val));
        }
      }
      InsertFront(e, Only(p, s));
    } else {
      assert Insert(e, s) == [s[0]] + Insert(e, s[1..]);
      OnlyCons(p, s[0], Insert(e, s[1..]));
      OnlyInsert(p, e, s[1..]);
      if Picks(p, e) && Picks(p, s[0]) {
        assert Only(p, s) == [s[0]] + Only(p, s[1..]);
        assert Insert(e, Only(p, s)) == [s[0]] + Insert(e, Only(p, s[1..]));
      }
    }
  }

  /** Picking a sub-sequence commutes with the stable sort. */
  lemma {:induction false} OnlySortCommute(p: Pick, s: Dict<Selection>)
    ensures Only(p, SortByCount(s)) == SortByCount(Only(p, s))
  {
    if s != [] {
      OnlySortCommute(p, s[1..]);
      SortByCountSorts(s[1..]);
      OnlyInsert(p, s[0], SortByCount(s[1..]));
    }
  }

  lemma {:induction false} SortSameKey(s: Dict<Selection>, k: Option<int>)
    requires forall j :: 0 <= j < |s| ==> CountKey(s[j].val) == k
    ensures SortByCount(s) == s
  {
    if s != [] {
      SortSameKey(s[1..], k);
      assert s == [s[0]] + s[1..];
    }
  }

  lemma {:induction false} OnlyWithCount(s: Dict<Selection>, k: Option<int>)
    ensures forall j :: 0 <= j < |Only(WithCount(k), s)| ==> CountKey(Only(WithCount(k), s)[j].val) == k
  {
    OnlyMembers(WithCount(k), s);
    forall j | 0 <= j < |Only(WithCount(k), s)| ensures CountKey(Only(WithCount(k), s)[j].val) == k {
      assert Only(WithCount(k), s)[j] in Only(WithCount(k), s);
    }
  }

  /** The sort is stable: the selections with any one count keep their relative order. */
  lemma SortByCountStable(s: Dict<Selection>, k: Option<int>)
    ensures Only(WithCount(k), SortByCount(s)) == Only(WithCount(k), s)
  {
    OnlySortCommute(WithCount(k), s);
    OnlyWithCount(s, k);
    SortSameKey(Only(WithCount(k), s), k);
  }

  /*** Lemmas: grouping ***/

  lemma {:induction false} OnlyOnly(p: Pick, q: Pick, s: Dict<Selection>)
    ensures Only(p, Only(q, s)) == Only(q, Only(p, s))
  {
    if s != [] {
      OnlyOnly(p, q, s[1..]);
      OnlyCons(p, s[0], Only(q, s[1..]));
      OnlyCons(q, s[0], Only(p, s[1..]));
    }
  }

  lemma {:induction false} OnlyOtherGroup(facets: Dict<FacetDef>, g: Group, h: Group, s: Dict<Selection>)
    ensures Only(InGroup(facets, g), Only(InGroup(facets, h), s)) == if g == h then Only(InGroup(facets, g), s) else []
  {
    if s != [] {
      OnlyOtherGroup(facets, g, h, s[1..]);
      OnlyCons(InGroup(facets, g), s[0], Only(InGroup(facets, h), s[1..]));
    }
  }

  lemma {:induction false} PartitionMultiset(facets: Dict<FacetDef>, s: Dict<Selection>)
    ensures multiset(Partition(facets, s)) == multiset(s)
  {
    if s != [] {
      var t := s[1..];
      PartitionMultiset(facets, t);
      assert s == [s[0]] + t;
      var hs, os, ts := Only(InGroup(facets, Hierarchies), t), Only(InGroup(facets, Others), t), Only(InGroup(facets, Texts), t);
      assert multiset(Partition(facets, t)) == multiset(hs) + multiset(os) + multiset(ts);
      OnlyCons(InGroup(facets, Hierarchies), s[0], t);
      OnlyCons(InGroup(facets, Others), s[0], t);
      OnlyCons(InGroup(facets, Texts), s[0], t);
      var h1, o1, t1 := Only(InGroup(facets, Hierarchies), s), Only(InGroup(facets, Others), s), Only(InGroup(facets, Texts), s);
      assert multiset(Partition(facets, s)) == multiset(h1) + multiset(o1) + multiset(t1);
      match GroupOf(KindOf(facets, s[0].id))
      case Hierarchies =>
        assert h1 == [s[0]] + hs && o1 == os && t1 == ts;
      case Others =>
        assert h1 == hs && o1 == [s[0]] + os && t1 == ts;
      case Texts =>
        assert h1 == hs && o1 == os && t1 == [s[0]] + ts;
    }
  }

  lemma OrderedMembers(facets: Dict<FacetDef>, sels: Dict<Selection>)
    ensures multiset(Ordered(facets, sels)) == multiset(sels)
    ensures forall e :: e in Ordered(facets, sels) <==> e in sels
    ensures AllFit(facets, sels) ==> AllFit(facets, Ordered(facets, sels))
  {
    SortByCountSorts(sels);
    PartitionMultiset(facets, SortByCount(sels));
    forall e ensures e in Ordered(facets, sels) <==> e in sels {
      assert e in Ordered(facets, sels) <==> e in multiset(Ordered(facets, sels));
      assert e in sels <==> e in multiset(sels);
    }
  }

  lemma OrderedRanks(facets: Dict<FacetDef>, sels: Dict<Selection>)
    ensures forall i :: 0 <= i < |Ordered(facets, sels)| ==>
      Rank(GroupOf(KindOf(facets, Ordered(facets, sels)[i].id))) ==
        if i < |Only(InGroup(facets, Hierarchies), SortByCount(sels))| then 0
        else if i < |Only(InGroup(facets, Hierarchies), SortByCount(sels))| + |Only(InGroup(facets, Others), SortByCount(sels))| then 1
        else 2
  {
    var sorted := SortByCount(sels);
    var hs := Only(InGroup(facets, Hierarchies), sorted);
    var os := Only(InGroup(facets, Others), sorted);
    var ts := Only(InGroup(facets, Texts), sorted);
    var o := Ordered(facets, sels);
    assert o == hs + os + ts;
    OnlyMembers(InGroup(facets, Hierarchies), sorted);
    OnlyMembers(InGroup(facets, Others), sorted);
    OnlyMembers(InGroup(facets, Texts), sorted);
    forall i | 0 <= i < |o|
      ensures Rank(GroupOf(KindOf(facets, o[i].id))) == if i < |hs| then 0 else if i < |hs| + |os| then 1 else 2
    {
      if i < |hs| {
        assert o[i] == hs[i] && hs[i] in hs;
      } else if i < |hs| + |os| {
        assert o[i] == os[i - |hs|] && os[i - |hs|] in os;
      } else {
        assert o[i] == ts[i - |hs| - |os|] && ts[i - |hs| - |os|] in ts;
      }
    }
  }

  lemma OrderedGroup(facets: Dict<FacetDef>, sels: Dict<Selection>, g: Group)
    ensures Only(InGroup(facets, g), Ordered(facets, sels)) == SortByCount(Only(InGroup(facets, g), sels))
  {
    var sorted := SortByCount(sels);
    var hs := Only(InGroup(facets, Hierarchies), sorted);
    var os := Only(InGroup(facets, Others), sorted);
    var ts := Only(InGroup(facets, Texts), sorted);
    OnlyConcat(InGroup(facets, g), hs + os, ts);
    OnlyConcat(InGroup(facets, g), hs, os);
    OnlyOtherGroup(facets, g, Hierarchies, sorted);
    OnlyOtherGroup(facets, g, Others, sorted);
    OnlyOtherGroup(facets, g, Texts, sorted);
    OnlySortCommute(InGroup(facets, g), sels);
    match g
    case Hierarchies => assert hs + [] + [] == hs;
    case Others => assert [] + os + [] == os;
    case Texts => assert [] + [] + ts == ts;
  }

  /** The formatting order: every hierarchy selection comes before every other, every text
      selection after every other, the order is a permutation of the selections, and each
      group is its own selections in stable count order. */
  lemma OrderedGroups(facets: Dict<FacetDef>, sels: Dict<Selection>)
    ensures multiset(Ordered(facets, sels)) == multiset(sels)
    ensures forall i, j :: 0 <= i < j < |Ordered(facets, sels)| ==>
      Rank(GroupOf(KindOf(facets, Ordered(facets, sels)[i].id))) <= Rank(GroupOf(KindOf(facets, Ordered(facets, sels)[j].id)))
    ensures forall g :: Only(InGroup(facets, g), Ordered(facets, sels)) == SortByCount(Only(InGroup(facets, g), sels))
  {
    OrderedMembers(facets, sels);
    OrderedRanks(facets, sels);
    forall g ensures Only(InGroup(facets, g), Ordered(facets, sels)) == SortByCount(Only(InGroup(facets, g), sels)) {
      OrderedGroup(facets, sels, g);
    }
  }

  /*** Lemmas: skipped selections ***/

  lemma {:induction false} OnlyEffectiveFits(facets: Dict<FacetDef>, s: Dict<Selection>)
    requires AllFit(facets, s)
    ensures AllFit(facets, Only(Effective, s))
  {
    OnlyMembers(Effective, s);
  }

  lemma {:induction false} FormatFromEffective(facets: Dict<FacetDef>, list: Dict<Selection>, i: nat)
    requires AllFit(facets, list)
    ensures AllFit(facets, Only(Effective, list))
    ensures FormatFrom(facets, list, i) == FormatFrom(facets, Only(Effective, list), i)
  {
    OnlyEffectiveFits(facets, list);
    if list != [] {
      assert forall e :: e in list[1..] ==> e in list;
      FormatFromEffective(facets, list[1..], Next(facets, list[0], i));
      if Skipped(list[0].val) {
        assert [] + FormatFrom(facets, list[1..], i) == FormatFrom(facets, list[1..], i);
      } else {
        var r := Only(Effective, list);
        assert r == [list[0]] + Only(Effective, list[1..]);
        assert r[0] == list[0] && r[1..] == Only(Effective, list[1..]);
      }
    }
  }

  lemma OrderedEffective(facets: Dict<FacetDef>, sels: Dict<Selection>)
    ensures Only(Effective, Ordered(facets, sels)) == Ordered(facets, Only(Effective, sels))
  {
    var sorted := SortByCount(sels);
    OnlyConcat(Effective, Only(InGroup(facets, Hierarchies), sorted) + Only(InGroup(facets, Others), sorted),
               Only(InGroup(facets, Texts), sorted));
    OnlyConcat(Effective, Only(InGroup(facets, Hierarchies), sorted), Only(InGroup(facets, Others), sorted));
    OnlyOnly(Effective, InGroup(facets, Hierarchies), sorted);
    OnlyOnly(Effective, InGroup(facets, Others), sorted);
    OnlyOnly(Effective, InGroup(facets, Texts), sorted);
    OnlySortCommute(Effective, sels);
  }

  /** Skipped selections change nothing: the constraint is the one formatted from the
      selections that are not skipped alone. */
  lemma FormatIgnoresSkipped(facets: Dict<FacetDef>, sels: Dict<Selection>)
    requires AllFit(facets, sels)
    ensures AllFit(facets, Only(Effective, sels))
    ensures FormatSelections(facets, sels) == FormatSelections(facets, Only(Effective, sels))
  {
    OnlyEffectiveFits(facets, sels);
    OrderedMembers(facets, sels);
    OrderedMembers(facets, Only(Effective, sels));
    FormatFromEffective(facets, Ordered(facets, sels), 0);
    OrderedEffective(facets, sels);
    FormatFromEffective(facets, Ordered(facets, Only(Effective, sels)), 0);
    OnlyIdempotent(Effective, Ordered(facets, sels));
  }

  lemma {:induction false} OnlyIdempotent(p: Pick, s: Dict<Selection>)
    ensures Only(p, Only(p, s)) == Only(p, s)
  {
    if s != [] {
      OnlyIdempotent(p, s[1..]);
      OnlyCons(p, s[0], Only(p, s[1..]));
    }
  }

  /** In particular, adding a skipped selection anywhere leaves the constraint as it was. */
  lemma SkippedSelectionAddsNothing(facets: Dict<FacetDef>, before: Dict<Selection>, e: Keyed<Selection>, after: Dict<Selection>)
    requires AllFit(facets, before + after) && e.id in Keys(facets) && Skipped(e.val)
    ensures AllFit(facets, before + [e] + after)
    ensures FormatSelections(facets, before + [e] + after) == FormatSelections(facets, before + after)
  {
    var with := before + [e] + after;
    assert forall x :: x in with ==> x in before + after || x == e;
    FormatIgnoresSkipped(facets, with);
    FormatIgnoresSkipped(facets, before + after);
    OnlyConcat(Effective, before + [e], after);
    OnlyConcat(Effective, before, [e]);
    OnlyConcat(Effective, before, after);
    OnlyCons(Effective, e, []);
    assert Only(Effective, before) + [] == Only(Effective, before);
  }

  /*** Lemmas: the fragments of each facet type ***/

  /** The `value` terms of a list of fragments, in order. */
  function ValueTerms(fs: seq<Fragment>): seq<Val> {
    if fs == [] then []
    else (if fs[0].Triple? && fs[0].obj.Value? then [fs[0].obj.val] else []) + ValueTerms(fs[1..])
  }

  lemma {:induction false} ValueTermsConcat(a: seq<Fragment>, b: seq<Fragment>)
    ensures ValueTerms(a + b) == ValueTerms(a) + ValueTerms(b)
  {
    if a == [] {
      assert a + b == b;
    } else {
      assert (a + b)[0] == a[0] && (a + b)[1..] == a[1..] + b;
      ValueTermsConcat(a[1..], b);
    }
  }

  /** A basic facet states each selected value once, in the order of the selection, and
      every triple of it has the subject `?s` and the facet's own property. */
  lemma {:induction false} BasicTriplesValues(items: seq<FacetValue>, key: FacetId)
    ensures ValueTerms(BasicTriples(items, key)) == Values(items)
    ensures |BasicTriples(items, key)| == |items|
    ensures forall j :: 0 <= j < |items| ==> BasicTriples(items, key)[j] == Triple(S, key, Value(items[j].value))
  {
    if items != [] {
      BasicTriplesValues(items[1..], key);
      var head := [Triple(S, key, Value(items[0].value))];
      ValueTermsConcat(head, BasicTriples(items[1..], key));
      assert ValueTerms(head) == [items[0].value];
      assert Values(items) == [items[0].value] + Values(items[1..]);
    }
  }

  /** A hierarchy facet gives each selected value its own variable, linked to the value by the
      hierarchy property and to the subject by the facet's property. */
  lemma HierarchyChainLinks(items: seq<FacetValue>, key: FacetId, prop: string, i: nat, k: nat)
    ensures |HierarchyChain(items, key, prop, i, k)| == 2 * |items|
    ensures forall j :: 0 <= j < |items| ==>
      HierarchyChain(items, key, prop, i, k)[2 * j] == Triple(HierVar(i, k + j), prop, Value(items[j].value)) &&
      HierarchyChain(items, key, prop, i, k)[2 * j + 1] == Triple(S, key, V(HierVar(i, k + j)))
  {
    HierarchyChainLength(items, key, prop, i, k);
    forall j | 0 <= j < |items|
      ensures HierarchyChain(items, key, prop, i, k)[2 * j] == Triple(HierVar(i, k + j), prop, Value(items[j].value))
      ensures HierarchyChain(items, key, prop, i, k)[2 * j + 1] == Triple(S, key, V(HierVar(i, k + j)))
    {
      HierarchyChainAt(items, key, prop, i, k, j);
    }
  }

  lemma {:induction false} HierarchyChainLength(items: seq<FacetValue>, key: FacetId, prop: string, i: nat, k: nat)
    ensures |HierarchyChain(items, key, prop, i, k)| == 2 * |items|
  {
    if items != [] {
      HierarchyChainLength(items[1..], key, prop, i, k + 1);
    }
  }

  /** The two fragments of the `j`-th selected value. */
  lemma {:induction false} HierarchyChainAt(items: seq<FacetValue>, key: FacetId, prop: string, i: nat, k: nat, j: nat)
    requires j < |items|
    ensures 2 * j + 1 < |HierarchyChain(items, key, prop, i, k)|
    ensures HierarchyChain(items, key, prop, i, k)[2 * j] == Triple(HierVar(i, k + j), prop, Value(items[j].value))
    ensures HierarchyChain(items, key, prop, i, k)[2 * j + 1] == Triple(S, key, V(HierVar(i, k + j)))
  {
    HierarchyChainLength(items, key, prop, i, k);
    if j > 0 {
      HierarchyChainAt(items[1..], key, prop, i, k + 1, j - 1);
      var tail := HierarchyChain(items[1..], key, prop, i, k + 1);
      var t := 2 * (j - 1);
      assert 2 * j == t + 2 && k + 1 + (j - 1) == k + j;
      assert HierarchyChain(items, key, prop, i, k)[t + 2] == tail[t];
      assert HierarchyChain(items, key, prop, i, k)[t + 3] == tail[t + 1];
      assert items[1..][j - 1] == items[j];
    }
  }

  /** The values a hierarchy facet states are the selected ones, in order. */
  lemma {:induction false} HierarchyChainValues(items: seq<FacetValue>, key: FacetId, prop: string, i: nat, k: nat)
    ensures ValueTerms(HierarchyChain(items, key, prop, i, k)) == Values(items)
  {
    if items != [] {
      HierarchyChainValues(items[1..], key, prop, i, k + 1);
      var head := [Triple(HierVar(i, k), prop, Value(items[0].value)), Triple(S, key, V(HierVar(i, k)))];
      ValueTermsConcat(head, HierarchyChain(items[1..], key, prop, i, k + 1));
      assert ValueTerms(head) == [items[0].value] by {
        assert head[1..][1..] == [];
      }
      assert Values(items) == [items[0].value] + Values(items[1..]);
    }
  }

  /** The variables of one hierarchy facet are pairwise distinct, and distinct from those of
      a facet formatted with another counter. */
  lemma HierVarsDistinct(i1: nat, k1: nat, i2: nat, k2: nat)
    requires i1 != i2 || k1 != k2
    ensures HierVar(i1, k1) != HierVar(i2, k2)
  {
    if i1 == i2 {
      assert |HierVar(i1, k1).suffix| != |HierVar(i2, k2).suffix|;
    }
  }

  /** The filters of a text search: the text variable is bound once, then every word of the
      stripped text is required, lower-cased, in order. */
  lemma {:induction false} WordFiltersShape(words: seq<string>, i: nat)
    ensures |WordFilters(words, i)| == |words|
    ensures forall j :: 0 <= j < |words| ==> WordFilters(words, i)[j] == ContainsFilter(TextVar(i), Lower(words[j]))
  {
    if words != [] {
      WordFiltersShape(words[1..], i);
    }
  }

  lemma TextFragmentsShape(sel: Selection, key: FacetId, i: nat)
    requires ValueOf(sel).Str?
    ensures |TextFragments(sel, key, i)| == |SearchWords(ValueOf(sel).s)| + 1
    ensures TextFragments(sel, key, i)[0] == Triple(S, key, V(TextVar(i)))
    ensures forall j :: 0 < j < |TextFragments(sel, key, i)| ==>
      TextFragments(sel, key, i)[j] == ContainsFilter(TextVar(i), Lower(SearchWords(ValueOf(sel).s)[j - 1]))
  {
    WordFiltersShape(SearchWords(ValueOf(sel).s), i);
  }

  /** The search words lose nothing but the punctuation: joined with spaces they give the
      stripped text back, and no word holds a space or a stripped character. */
  lemma SearchWordsFaithful(text: string)
    ensures Join(SearchWords(text), ' ') == Strip(text)
    ensures forall w :: w in SearchWords(text) ==> ' ' !in w
    ensures forall w, c :: w in SearchWords(text) && c in w ==> !Stripped(c)
  {
    JoinSplit(Strip(text), ' ');
    SplitWordsHaveNoSeparator(Strip(text), ' ');
    SplitWordsFromText(Strip(text), ' ');
    StripRemovesAll(text);
    forall w, c | w in SearchWords(text) && c in w ensures !Stripped(c) {
      assert c in Strip(text);
      var k :| 0 <= k < |Strip(text)| && Strip(text)[k] == c;
    }
  }

  /** The time-span fragments: a bound that is not given adds nothing, the start bound is
      a `>=` filter on `?start` and the end bound a `<=` filter on `?end`, or on `?start` when
      the facet's start and end properties coincide. */
  lemma TimeSpanFilters(sel: Selection, key: FacetId, def: FacetDef)
    ensures var r := TimeSpanFragments(sel, key, def);
      var start := SpanStart(ValueOf(sel));
      var end := SpanEnd(ValueOf(sel));
      && ((exists f :: f in r && f.StartFilter?) <==> start.Some?)
      && ((exists f :: f in r && f.EndFilter?) <==> end.Some?)
      && (forall f :: f in r && f.StartFilter? ==> f == StartFilter(StartVar, start.value))
      && (forall f :: f in r && f.EndFilter? ==>
            f == EndFilter(if def.start == def.end then StartVar else EndVar, end.value))
  {
    TimeSpanStartFilter(sel, key, def);
    TimeSpanEndFilter(sel, key, def);
  }

  /** Each date filter comes right after the triple that binds its variable, when there is
      one, and the start bound comes before the end bound. */
  lemma TimeSpanOrder(sel: Selection, key: FacetId, def: FacetDef)
    ensures var r := TimeSpanFragments(sel, key, def);
      var uri := if def.isResource then TimeSpanUri else S;
      && (forall i :: 0 <= i < |r| && r[i].StartFilter? ==> 0 < i && r[i - 1] == Triple(uri, def.start, V(StartVar)))
      && (forall i :: 0 <= i < |r| && r[i].EndFilter? && def.start != def.end ==>
            0 < i && r[i - 1] == Triple(uri, def.end, V(EndVar)))
      && (forall i, j :: 0 <= i < |r| && 0 <= j < |r| && r[i].StartFilter? && r[j].EndFilter? ==> i < j)
  {
    var r := TimeSpanFragments(sel, key, def);
    var start := SpanStart(ValueOf(sel));
    var end := SpanEnd(ValueOf(sel));
    var uri := if def.isResource then TimeSpanUri else S;
    var a := if def.isResource then [Triple(S, key, V(TimeSpanUri))] else [];
    var b := if start.Some? then [Triple(uri, def.start, V(StartVar)), StartFilter(StartVar, start.value)] else [];
    var c := if end.None? then []
             else if def.start == def.end then [EndFilter(StartVar, end.value)]
             else [Triple(uri, def.end, V(EndVar)), EndFilter(EndVar, end.value)];
    assert r == a + b + c;
    forall i | 0 <= i < |r| && r[i].StartFilter? ensures i == |a| + 1 && r[i - 1] == b[0] {
      assert i >= |a| && i < |a| + |b|;
    }
    forall i | 0 <= i < |r| && r[i].EndFilter? ensures i == |r| - 1 && (def.start != def.end ==> r[i - 1] == c[0]) {
      assert i >= |a| + |b|;
    }
  }

  lemma TimeSpanStartFilter(sel: Selection, key: FacetId, def: FacetDef)
    ensures var r := TimeSpanFragments(sel, key, def);
      var start := SpanStart(ValueOf(sel));
      && ((exists f :: f in r && f.StartFilter?) <==> start.Some?)
      && (forall f :: f in r && f.StartFilter? ==> f == StartFilter(StartVar, start.value))
  {
    var start := SpanStart(ValueOf(sel));
    var end := SpanEnd(ValueOf(sel));
    var uri := if def.isResource then TimeSpanUri else S;
    var a := if def.isResource then [Triple(S, key, V(TimeSpanUri))] else [];
    var b := if start.Some? then [Triple(uri, def.start, V(StartVar)), StartFilter(StartVar, start.value)] else [];
    var c := if end.None? then []
             else if def.start == def.end then [EndFilter(StartVar, end.value)]
             else [Triple(uri, def.end, V(EndVar)), EndFilter(EndVar, end.value)];
    assert TimeSpanFragments(sel, key, def) == a + b + c;
    assert forall f :: f in a + b + c <==> f in a || f in b || f in c;
    assert forall f: Fragment :: f in c ==> !f.StartFilter?;
    if start.Some? {
      assert b[1] in a + b + c;
    }
  }

  lemma TimeSpanEndFilter(sel: Selection, key: FacetId, def: FacetDef)
    ensures var r := TimeSpanFragments(sel, key, def);
      var end := SpanEnd(ValueOf(sel));
      && ((exists f :: f in r && f.EndFilter?) <==> end.Some?)
      && (forall f :: f in r && f.EndFilter? ==>
            f == EndFilter(if def.start == def.end then StartVar else EndVar, end.value))
  {
    var start := SpanStart(ValueOf(sel));
    var end := SpanEnd(ValueOf(sel));
    var uri := if def.isResource then TimeSpanUri else S;
    var a := if def.isResource then [Triple(S, key, V(TimeSpanUri))] else [];
    var b := if start.Some? then [Triple(uri, def.start, V(StartVar)), StartFilter(StartVar, start.value)] else [];
    var c := if end.None? then []
             else if def.start == def.end then [EndFilter(StartVar, end.value)]
             else [Triple(uri, def.end, V(EndVar)), EndFilter(EndVar, end.value)];
    assert TimeSpanFragments(sel, key, def) == a + b + c;
    assert forall f :: f in a + b + c <==> f in a || f in b || f in c;
    assert forall f: Fragment :: f in a + b ==> !f.EndFilter?;
    if end.Some? {
      assert c[|c| - 1] in a + b + c;
    }
  }

  /** The dates are read off the subject or, for a resource time span, off `?time_span_uri`,
      which the facet's own property links to the subject; the end date has a triple of its
      own only when the facet's start and end properties differ. */
  lemma TimeSpanTriples(sel: Selection, key: FacetId, def: FacetDef)
    ensures var r := TimeSpanFragments(sel, key, def);
      var start := SpanStart(ValueOf(sel));
      var end := SpanEnd(ValueOf(sel));
      var uri := if def.isResource then TimeSpanUri else S;
      && (forall f :: f in r && f.Triple? && f.obj != V(TimeSpanUri) ==> f.subj == uri)
      && (Triple(S, key, V(TimeSpanUri)) in r <==> def.isResource)
      && (Triple(uri, def.start, V(StartVar)) in r <==> start.Some?)
      && (Triple(uri, def.end, V(EndVar)) in r <==> end.Some? && def.start != def.end)
  {
    var r := TimeSpanFragments(sel, key, def);
    var start := SpanStart(ValueOf(sel));
    var end := SpanEnd(ValueOf(sel));
    var uri := if def.isResource then TimeSpanUri else S;
    var a := if def.isResource then [Triple(S, key, V(TimeSpanUri))] else [];
    var b := if start.Some? then [Triple(uri, def.start, V(StartVar)), StartFilter(StartVar, start.value)] else [];
    var c := if end.None? then []
             else if def.start == def.end then [EndFilter(StartVar, end.value)]
             else [Triple(uri, def.end, V(EndVar)), EndFilter(EndVar, end.value)];
    assert r == a + b + c;
    assert forall f :: f in r <==> f in a || f in b || f in c;
  }

  /** A consequence of the shape above: when the facet's start and end properties coincide
      and only an end date is given, the end filter tests `?start`, which no triple binds. */
  lemma TimeSpanEndOnlySameProperty(sel: Selection, key: FacetId, def: FacetDef)
    requires def.start == def.end && SpanStart(ValueOf(sel)).None? && SpanEnd(ValueOf(sel)).Some?
    ensures EndFilter(StartVar, SpanEnd(ValueOf(sel)).value) in TimeSpanFragments(sel, key, def)
    ensures forall f :: f in TimeSpanFragments(sel, key, def) && f.Triple? ==> f.obj != V(StartVar)
  {
  }
}
