/** Reading a query answer into facet states (`parseResults` of the facet handler): the
    count of the current result set, and a "no selection" value for every facet. */
module FacetResults {
  import opened Objects
  import opened FacetData
  import opened FacetMapper

  /** `count || 0`: a missing count reads as zero. */
  function CountOr0(c: Option<int>): int {
    if c.Some? then c.value else 0
  }

  /** `((_.isArray(v) ? v[0] : v) || {}).value` for `v` the default count key's selection:
      the value counted as selected, `undefined` when there is none. */
  function CountKeyValue(sels: Dict<Selection>, dk: Option<FacetId>): Val {
    if dk.None? then Undef
    else match Get(sels, dk.value)
      case None => Undef
      case Some(sel) =>
        match sel
        case Many(items) => if items == [] then Undef else items[0].value
        case One(item) => item.value
        case _ => Undef
  }

  /** `_.find(values, ['value', v])`. */
  function FindValue(values: seq<FacetValue>, v: Val): (r: Option<FacetValue>)
    ensures r.Some? ==> r.value in values && r.value.value == v
    ensures r.None? ==> forall j :: 0 <= j < |values| ==> values[j].value != v
  {
    if values == [] then None
    else if values[0].value == v then Some(values[0])
    else FindValue(values[1..], v)
  }

  /** `getNoSelectionCountFromResults`: the count, in the default count key's state, of the
      value selected for that key, or of its "no selection" value when none is selected. */
  function NoSelectionCount(results: seq<FacetState>, sels: Dict<Selection>, dk: Option<FacetId>): (r: int)
    ensures r != 0 ==>
      (dk.Some? && FindState(results, dk.value).Some? &&
       exists v :: v in FindState(results, dk.value).value.values && v.value == CountKeyValue(sels, dk) && v.count == Some(r))
  {
    if dk.None? then 0
    else match FindState(results, dk.value)
      case None => 0
      case Some(st) =>
        match FindValue(st.values, CountKeyValue(sels, dk))
        case None => 0
        case Some(v) => CountOr0(v.count)
  }

  /** `_.find` stops at the first value that matches. */
  lemma {:induction false} FindValueFirst(values: seq<FacetValue>, v: Val, i: nat)
    requires i < |values| && values[i].value == v
    requires forall j :: 0 <= j < i ==> values[j].value != v
    ensures FindValue(values, v) == Some(values[i])
  {
    if i > 0 {
      FindValueFirst(values[1..], v, i - 1);
    }
  }

  /** The count is that of the first value, in the default count key's state, that equals
      the key's selected value; a missing count reads as 0. */
  lemma NoSelectionCountFirstMatch(results: seq<FacetState>, sels: Dict<Selection>, k: FacetId, st: FacetState, i: nat)
    requires FindState(results, k) == Some(st)
    requires i < |st.values| && st.values[i].value == CountKeyValue(sels, Some(k))
    requires forall j :: 0 <= j < i ==> st.values[j].value != CountKeyValue(sels, Some(k))
    ensures NoSelectionCount(results, sels, Some(k)) == CountOr0(st.values[i].count)
  {
    FindValueFirst(st.values, CountKeyValue(sels, Some(k)), i);
  }

  /** Without a default count key, without a state for it, or without a value equal to its
      selected value, the count is 0. */
  lemma NoSelectionCountNoMatch(results: seq<FacetState>, sels: Dict<Selection>, dk: Option<FacetId>)
    requires dk.Some? && FindState(results, dk.value).Some? ==>
      forall j :: 0 <= j < |FindState(results, dk.value).value.values| ==>
        FindState(results, dk.value).value.values[j].value != CountKeyValue(sels, dk)
    ensures NoSelectionCount(results, sels, dk) == 0
  {
  }

  /** Without a selection for the default count key the count is that of the key's "no
      selection" value, which, once the values are post-processed, is the first one. */
  lemma NoSelectionCountUnselected(results: seq<FacetState>, sels: Dict<Selection>, k: FacetId, st: FacetState)
    requires FindState(results, k) == Some(st)
    requires Get(sels, k).None? || !IsSet(Get(sels, k).value) || Get(sels, k).value == Many([])
    requires st.values != [] && st.values[0].value == Undef
    ensures NoSelectionCount(results, sels, Some(k)) == CountOr0(st.values[0].count)
  {
  }

  /** The values whose `value` is truthy, which `getFreeFacetCount` adds up. */
  function SumSelectedCounts(values: seq<FacetValue>): int {
    if values == [] then 0
    else (if Truthy(values[0].value) then CountOr0(values[0].count) else 0) + SumSelectedCounts(values[1..])
  }

  lemma {:induction false} SumSelectedCountsConcat(a: seq<FacetValue>, b: seq<FacetValue>)
    ensures SumSelectedCounts(a + b) == SumSelectedCounts(a) + SumSelectedCounts(b)
  {
    if a == [] {
      assert a + b == b;
    } else {
      assert (a + b)[0] == a[0] && (a + b)[1..] == a[1..] + b;
      SumSelectedCountsConcat(a[1..], b);
    }
  }

  /** Post-processing does not change the sum: the value it moves adds nothing. */
  lemma {:induction false} SumSelectedCountsDefined(values: seq<FacetValue>)
    ensures SumSelectedCounts(Defined(values)) == SumSelectedCounts(values)
  {
    if values != [] {
      SumSelectedCountsDefined(values[1..]);
      var head := if values[0].value == Undef then [] else [values[0]];
      SumSelectedCountsConcat(head, Defined(values[1..]));
    }
  }

  lemma SumSelectedCountsMoved(values: seq<FacetValue>)
    ensures SumSelectedCounts(MoveNoSelectionFirst(values)) == SumSelectedCounts(values)
  {
    MoveNoSelectionFirstDefined(values);
    SumSelectedCountsDefined(values);
    SumSelectedCountsDefined(MoveNoSelectionFirst(values));
  }

  /** `getFreeFacetCount`: for a text or time-span facet without a value the count of the
      default count key, otherwise the sum of the counts of the facet's values.  `None` is
      the `TypeError` the source raises when the facet has no selection object or no state. */
  function FreeFacetCount(sels: Dict<Selection>, results: seq<FacetState>, id: FacetId, dk: Option<FacetId>): (r: Option<int>)
    ensures r.None? <==>
      (Get(sels, id).None? || !IsSet(Get(sels, id).value) ||
       (Truthy(ValueOf(Get(sels, id).value)) && FindState(results, id).None?))
    ensures Get(sels, id).Some? && IsSet(Get(sels, id).value) && !Truthy(ValueOf(Get(sels, id).value)) ==>
      r == Some(NoSelectionCount(results, sels, dk))
    ensures r.Some? && Truthy(ValueOf(Get(sels, id).value)) ==>
      r == Some(SumSelectedCounts(FindState(results, id).value.values))
  {
    match Get(sels, id)
    case None => None
    case Some(sel) =>
      if !IsSet(sel) then None
      else if !Truthy(ValueOf(sel)) then Some(NoSelectionCount(results, sels, dk))
      else match FindState(results, id)
        case None => None
        case Some(st) => Some(SumSelectedCounts(st.values))
  }

  /*** setNotSelectionValues ***/

  /** The "no selection" value the handler adds, with the current result count. */
  function NoSelectionValue(count: int): FacetValue {
    FacetValue(Undef, NoSelectionString, Some(count))
  }

  /** What facet `k`'s state becomes: one with a "no selection" value is kept, one without gets
      it in front, and a missing one is created holding only that value. */
  function Reconciled(st: Option<FacetState>, count: int, k: FacetId): FacetState {
    match st
    case None => FacetState(k, [NoSelectionValue(count)])
    case Some(s) => if HasUndef(s.values) then s else FacetState(s.id, [NoSelectionValue(count)] + s.values)
  }

  /** One step of `setNotSelectionValues`, for facet `id`. */
  function EnsureNoSelection(results: seq<FacetState>, count: int, id: FacetId): seq<FacetState> {
    match IndexOf(results, id)
    case None => results + [Reconciled(None, count, id)]
    case Some(i) => results[i := Reconciled(Some(results[i]), count, id)]
  }

  /** `setNotSelectionValues` for the facets `ids`, in order. */
  function Reconcile(results: seq<FacetState>, count: int, ids: seq<FacetId>): seq<FacetState>
    decreases |ids|
  {
    if ids == [] then results else Reconcile(EnsureNoSelection(results, count, ids[0]), count, ids[1..])
  }

  method SetNotSelectionValues(results: seq<FacetState>, count: int, facets: Dict<FacetDef>) returns (r: seq<FacetState>)
    ensures r == Reconcile(results, count, Keys(facets))
  {
    r := results;
    var k := 0;
    while k < |facets|
      invariant 0 <= k <= |facets|
      invariant Reconcile(r, count, Keys(facets)[k..]) == Reconcile(results, count, Keys(facets))
    {
      var id := facets[k].id;
      KeysIndex(facets, k);
      assert Keys(facets)[k..][0] == id && Keys(facets)[k..][1..] == Keys(facets)[k + 1..];
      ghost var before := r;
      var found := IndexOf(r, id);
      var index: nat;
      if found.None? {
        r := r + [FacetState(id, [])];
        index := |r| - 1;
      } else {
        index := found.value;
      }
      if !HasUndef(r[index].values) {
        r := r[index := FacetState(id, [NoSelectionValue(count)] + r[index].values)];
      }
      if found.None? {
        assert [NoSelectionValue(count)] + [] == [NoSelectionValue(count)];
        assert r == before + [Reconciled(None, count, id)];
      }
      assert r == EnsureNoSelection(before, count, id);
      k := k + 1;
    }
  }

  lemma ReconciledIdempotent(st: Option<FacetState>, count: int, k: FacetId)
    ensures HasUndef(Reconciled(st, count, k).values)
    ensures Reconciled(Some(Reconciled(st, count, k)), count, k) == Reconciled(st, count, k)
  {
    assert Reconciled(st, count, k).values[0].value == Undef || st.Some?;
  }

  lemma EnsureNoSelectionFind(results: seq<FacetState>, count: int, id: FacetId, k: FacetId)
    ensures FindState(EnsureNoSelection(results, count, id), k) ==
      if k == id then Some(Reconciled(FindState(results, k), count, k)) else FindState(results, k)
  {
    match IndexOf(results, id)
    case None =>
      IndexOfAppend(results, Reconciled(None, count, id), k);
    case Some(i) =>
      FindStateUpdate(results, i, Reconciled(Some(results[i]), count, id), k);
  }

  /** After `setNotSelectionValues` every facet has a state with a "no selection" value: a
      state that had one is as it was, a state without one has it prepended with the given
      count and its own values unchanged behind it, a facet without a state gets a state
      holding that value alone, and the states of other ids are left alone. */
  lemma {:induction false} ReconcileStates(results: seq<FacetState>, count: int, ids: seq<FacetId>, k: FacetId)
    ensures FindState(Reconcile(results, count, ids), k) ==
      if k in ids then Some(Reconciled(FindState(results, k), count, k)) else FindState(results, k)
    ensures k in ids ==> HasUndef(FindState(Reconcile(results, count, ids), k).value.values)
    decreases |ids|
  {
    if ids != [] {
      var next := EnsureNoSelection(results, count, ids[0]);
      ReconcileStates(next, count, ids[1..], k);
      EnsureNoSelectionFind(results, count, ids[0], k);
      ReconciledIdempotent(FindState(results, k), count, k);
    }
  }

  /** Reconciling keeps every "no selection" value in front and adds no second state for an id. */
  lemma {:induction false} ReconcileShape(results: seq<FacetState>, count: int, ids: seq<FacetId>)
    requires UniqueIds(results)
    requires forall i :: 0 <= i < |results| ==> NoSelectionFirst(results[i].values)
    ensures UniqueIds(Reconcile(results, count, ids))
    ensures forall i :: 0 <= i < |Reconcile(results, count, ids)| ==> NoSelectionFirst(Reconcile(results, count, ids)[i].values)
    decreases |ids|
  {
    if ids != [] {
      var next := EnsureNoSelection(results, count, ids[0]);
      match IndexOf(results, ids[0]) {
        case None =>
          assert next == results + [FacetState(ids[0], [NoSelectionValue(count)])];
          assert NoSelectionFirst(next[|results|].values);
        case Some(i) =>
          assert NoSelectionFirst(Reconciled(Some(results[i]), count, ids[0]).values);
      }
      ReconcileShape(next, count, ids[1..]);
    }
  }

  /*** parseResults ***/

  /** Text and time-span facets are free-form: their own values are not listed. */
  predicate IsFreeFacet(k: FacetType) {
    k == Text || k == Timespan
  }

  /** `parseResults`: the states read off the answer `rows`; `None` when `getFreeFacetCount`
      raises, which rejects the update. */
  function ParseResults(rows: seq<Row>, sels: Dict<Selection>, facets: Dict<FacetDef>,
                        selectionId: Option<FacetId>, dk: Option<FacetId>): Option<seq<FacetState>>
  {
    match ResultCount(rows, sels, facets, selectionId, dk)
    case None => None
    case Some(c) => Some(Reconcile(MakeObjectList(rows), c, Keys(facets)))
  }

  /** The result count `parseResults` gives the "no selection" values: the free-facet count
      after a change of a text or time-span facet, the default count key's count otherwise. */
  function ResultCount(rows: seq<Row>, sels: Dict<Selection>, facets: Dict<FacetDef>,
                       selectionId: Option<FacetId>, dk: Option<FacetId>): Option<int>
  {
    var results := MakeObjectList(rows);
    if selectionId.Some? && IsFreeFacet(KindOf(facets, selectionId.value))
    then FreeFacetCount(sels, results, selectionId.value, dk)
    else Some(NoSelectionCount(results, sels, dk))
  }

  /** A successful parse gives every facet a state whose first value is the "no selection"
      value; a facet with rows holds exactly the values of its rows behind it, in row order,
      plus the count value when the rows had none; there is one state per id.  The parse fails
      only for a free facet whose count cannot be read. */
  lemma ParseResultsStates(rows: seq<Row>, sels: Dict<Selection>, facets: Dict<FacetDef>,
                           selectionId: Option<FacetId>, dk: Option<FacetId>, k: FacetId)
    ensures var r := ParseResults(rows, sels, facets, selectionId, dk);
      && (r.None? <==> ResultCount(rows, sels, facets, selectionId, dk).None?)
      && (r.None? ==> selectionId.Some? && IsFreeFacet(KindOf(facets, selectionId.value)))
      && (r.Some? ==> UniqueIds(r.value))
      && (r.Some? && k in Keys(facets) ==>
            FindState(r.value, k).Some? && FindState(r.value, k).value.values != [] &&
            FindState(r.value, k).value.values[0].value == Undef)
      && (r.Some? ==>
            FindState(r.value, k) ==
            if k in Keys(facets)
            then Some(Reconciled(if RowValues(rows, k) == [] then None
                                 else Some(FacetState(k, MoveNoSelectionFirst(RowValues(rows, k)))),
                                 ResultCount(rows, sels, facets, selectionId, dk).value, k))
            else FindState(MakeObjectList(rows), k))
  {
    var results := MakeObjectList(rows);
    MakeObjectListStates(rows, k);
    var r := ParseResults(rows, sels, facets, selectionId, dk);
    if r.Some? {
      var c := ResultCount(rows, sels, facets, selectionId, dk).value;
      ReconcileStates(results, c, Keys(facets), k);
      ReconcileShape(results, c, Keys(facets));
      if k in Keys(facets) {
        var st := FindState(r.value, k).value;
        assert st in r.value;
        var i :| 0 <= i < |r.value| && r.value[i] == st;
        assert NoSelectionFirst(r.value[i].values);
      }
    }
  }
}
