/** The facet handler: which facets are enabled, what the user has selected, what was
    selected when the facets were last queried, and how a change of one facet's selection
    turns into a new facet query and new facet states.

    Every operation of the class is specified by a function from the old handler state to
    the new one (`UpdateStep`, `FacetChangedStep`, `EnableStep`, `DisableStep`, `Initial`);
    the lemmas at the end state what those functions promise. */
module Handler {
  import opened Objects
  import opened FacetData
  import opened SelectionFormatter
  import opened FacetMapper
  import opened FacetResults
  import opened FacetQuery

  /*** hasSameValue and hasChanged ***/

  /** What `hasSameValue` compares of a selection: nothing for `undefined` and `null`, the
      `value` of an object, the `value` fields of an array. */
  datatype SelectionKey = NoValue | ValueKey(v: Val) | ListKey(vs: seq<Val>)

  function KeyOf(sel: Selection): SelectionKey {
    match sel
    case One(item) => ValueKey(item.value)
    case Many(items) => ListKey(Values(items))
    case _ => NoValue
  }

  /** `hasSameValue`: two falsy selections are the same, a falsy and a truthy one are not,
      an array and a non-array are not, two arrays are when their values are, and two
      objects are when their `value`s are. */
  function HasSameValue(first: Selection, second: Selection): (r: bool)
    ensures r <==> KeyOf(first) == KeyOf(second)
  {
    if !IsSet(first) && !IsSet(second) then true
    else if !IsSet(first) || !IsSet(second) then false
    else if first.Many? || second.Many? then
      if !(first.Many? && second.Many?) then false
      else Values(first.items) == Values(second.items)
    else first.item.value == second.item.value
  }

  /** `hasSameValue` is an equivalence. */
  lemma HasSameValueEquivalence(a: Selection, b: Selection, c: Selection)
    ensures HasSameValue(a, a)
    ensures HasSameValue(a, b) == HasSameValue(b, a)
    ensures HasSameValue(a, b) && HasSameValue(b, c) ==> HasSameValue(a, c)
  {
  }

  /** Labels and counts do not matter: two arrays of the same values are the same selection
      whatever their texts and counts, and so are two objects of the same value. */
  lemma {:induction false} HasSameValueIgnoresLabels(items: seq<FacetValue>, others: seq<FacetValue>, a: FacetValue, b: FacetValue)
    requires |items| == |others| && forall i :: 0 <= i < |items| ==> items[i].value == others[i].value
    ensures HasSameValue(Many(items), Many(others))
    ensures HasSameValue(One(a), One(b)) <==> a.value == b.value
  {
    assert Values(items) == Values(others);
  }

  /** `previousSelections[id]`, `undefined` when there is no such key. */
  function Lookup(d: Dict<Selection>, id: FacetId): Selection {
    match Get(d, id)
    case Some(sel) => sel
    case None => Absent
  }

  /** `hasChanged`: the selection differs from the one recorded for the facet. */
  function HasChanged(previous: Dict<Selection>, id: FacetId, sel: Selection): (r: bool)
    ensures r <==> KeyOf(Lookup(previous, id)) != KeyOf(sel)
  {
    !HasSameValue(Lookup(previous, id), sel)
  }

  /** A date range with exactly one end set: `(start || end) && !(start && end)`. */
  predicate PartialSpan(sel: Selection) {
    var v := ValueOf(sel);
    v.Span? && v.start.Some? != v.end.Some?
  }

  /*** The handler state ***/

  /** How an operation of the handler ends: resolved with the facets and no query
      (`Unchanged`), resolved with nothing because a date range is incomplete, resolved
      after repairing a `null` selection, resolved with `{}` because no facet is enabled,
      resolved after the query `query` updated the states, rejected after that query because
      the result count could not be read, or a `TypeError` thrown before any query. */
  datatype Outcome =
    | Unchanged
    | Incomplete
    | Restored
    | NothingEnabled
    | Updated(query: Query)
    | Rejected(query: Query)
    | Crashed

  /** The fields of a facet handler: `enabledFacets`, `disabledFacets`, `selectedFacets`,
      the private `previousSelections` and `_defaultCountKey`. */
  datatype HandlerState = HandlerState(
    enabled: Dict<Facet>,
    disabled: Dict<Facet>,
    selected: Dict<Selection>,
    previous: Dict<Selection>,
    countKey: Option<FacetId>)

  datatype Step = Step(state: HandlerState, outcome: Outcome)

  /** What every operation keeps: the four maps are objects (no key twice), a facet is
      enabled or disabled but not both, every selection fits the query builders, and the
      default count key is the one the enabled facets give. */
  predicate Coherent(s: HandlerState) {
    && UniqueKeys(s.enabled) && UniqueKeys(s.disabled)
    && UniqueKeys(s.selected) && UniqueKeys(s.previous)
    && (forall k :: k in Keys(s.enabled) ==> k !in Keys(s.disabled))
    && QueryFits(Defs(s.enabled), s.selected)
    && s.countKey == DefaultCountKey(Defs(s.enabled))
  }

  /** All facets the handler knows, enabled or disabled. */
  function FacetIds(s: HandlerState): set<FacetId> {
    set k | k in Keys(s.enabled) + Keys(s.disabled)
  }

  /*** Facet definitions of facet objects ***/

  lemma KeysDefs(f: Dict<Facet>)
    ensures Keys(Defs(f)) == Keys(f)
  {
    if f != [] {
      assert Defs(f)[1..] == Defs(f[1..]);
      KeysDefs(f[1..]);
    }
  }

  lemma GetDefs(f: Dict<Facet>, k: FacetId)
    ensures Get(Defs(f), k) == if Get(f, k).Some? then Some(Get(f, k).value.def) else None
  {
    if f != [] {
      assert Defs(f)[1..] == Defs(f[1..]);
      GetDefs(f[1..], k);
    }
  }

  lemma {:induction false} DefsPutSameDef(f: Dict<Facet>, k: FacetId, x: Facet)
    requires Get(f, k).Some? && x.def == Get(f, k).value.def
    ensures Defs(Put(f, k, x)) == Defs(f)
  {
    if f[0].id == k {
      assert Defs(Put(f, k, x))[0] == Defs(f)[0];
      assert Defs(Put(f, k, x))[1..] == Defs(f[1..]) == Defs(f)[1..];
    } else {
      DefsPutSameDef(f[1..], k, x);
      assert Put(f, k, x) == [f[0]] + Put(f[1..], k, x);
      assert Defs(Put(f, k, x))[1..] == Defs(Put(f[1..], k, x));
      assert Defs(f)[1..] == Defs(f[1..]);
    }
  }

  /** `QueryFits` only looks at the definitions of the selected facets. */
  lemma QueryFitsAgree(f: Dict<FacetDef>, g: Dict<FacetDef>, sels: Dict<Selection>, more: Dict<Selection>)
    requires QueryFits(f, sels)
    requires forall e :: e in more ==> e in sels
    requires forall e :: e in more ==> Get(g, e.id) == Get(f, e.id)
    ensures QueryFits(g, more)
  {
    forall e | e in more ensures Fits(g, e) && (KindOf(g, e.id) == Text ==> IsSet(e.val)) {
      assert Fits(f, e);
    }
  }

  /*** update and getStates ***/

  /** The state a successful update stores for every facet: a state for that facet whose
      first value is the "no selection" value. */
  predicate Listed(st: Option<FacetState>, k: FacetId) {
    st.Some? && st.value.id == k && st.value.values != [] && st.value.values[0].value == Undef
  }

  /** The enabled facets after `facet.state = _.find(states, ['id', key])` for each of them. */
  function WithStates(facets: Dict<Facet>, states: seq<FacetState>): (r: Dict<Facet>)
    ensures |r| == |facets| && Keys(r) == Keys(facets) && Defs(r) == Defs(facets)
    ensures forall i :: 0 <= i < |facets| ==>
      r[i] == Keyed(facets[i].id, Facet(facets[i].val.def, FindState(states, facets[i].id)))
  {
    if facets == [] then []
    else
      var r := [Keyed(facets[0].id, Facet(facets[0].val.def, FindState(states, facets[0].id)))] + WithStates(facets[1..], states);
      assert r[1..] == WithStates(facets[1..], states);
      assert Defs(r)[1..] == Defs(r[1..]);
      assert Defs(facets)[1..] == Defs(facets[1..]);
      r
  }

  lemma UniqueSameKeys<V, W>(a: Dict<V>, b: Dict<W>)
    requires |a| == |b| && (forall i :: 0 <= i < |a| ==> a[i].id == b[i].id) && UniqueKeys(a)
    ensures UniqueKeys(b)
  {
  }

  lemma {:induction false} ListedAfterUpdate(facets: Dict<Facet>, states: seq<FacetState>)
    requires forall k :: k in Keys(Defs(facets)) ==> Listed(FindState(states, k), k)
    ensures forall i :: 0 <= i < |facets| ==> Listed(WithStates(facets, states)[i].val.state, facets[i].id)
  {
    KeysDefs(facets);
    forall i | 0 <= i < |facets| ensures Listed(WithStates(facets, states)[i].val.state, facets[i].id) {
      KeysIndex(facets, i);
    }
  }

  lemma {:induction false} ParsedStatesListed(rows: seq<Row>, sels: Dict<Selection>, facets: Dict<FacetDef>,
                                              selectionId: Option<FacetId>, dk: Option<FacetId>, states: seq<FacetState>)
    requires ParseResults(rows, sels, facets, selectionId, dk) == Some(states)
    ensures forall k :: k in Keys(facets) ==> Listed(FindState(states, k), k)
  {
    forall k | k in Keys(facets) ensures Listed(FindState(states, k), k) {
      ParseResultsStates(rows, sels, facets, selectionId, dk, k);
    }
  }

  /** `update(id)` with the endpoint's answer `rows`: with no enabled facet it resolves with
      `{}`; otherwise it queries with the current selections and, unless reading the result
      count fails, stores every enabled facet's new state.  Nothing but the states changes,
      and after a successful update every enabled facet has a state that starts with the
      "no selection" value; it fails only when it was a text or time-span facet's change. */
  function UpdateStep(s: HandlerState, id: Option<FacetId>, rows: seq<Row>, lang: string): (r: Step)
    requires Coherent(s) && (id.Some? ==> id.value in Keys(s.enabled))
    ensures Coherent(r.state)
    ensures r.state.selected == s.selected && r.state.previous == s.previous
    ensures r.state.disabled == s.disabled && r.state.countKey == s.countKey
    ensures Keys(r.state.enabled) == Keys(s.enabled) && Defs(r.state.enabled) == Defs(s.enabled)
    ensures r.outcome.NothingEnabled? <==> s.enabled == []
    ensures r.outcome.Updated? || r.outcome.Rejected? || r.outcome.NothingEnabled?
    ensures !r.outcome.Updated? ==> r.state == s
    ensures r.outcome.Rejected? ==> id.Some? && IsFreeFacet(KindOf(Defs(s.enabled), id.value))
    ensures r.outcome.Updated? ==> forall i :: 0 <= i < |r.state.enabled| ==> Listed(r.state.enabled[i].val.state, r.state.enabled[i].id)
  {
    if s.enabled == [] then Step(s, NothingEnabled)
    else
      var facets := Defs(s.enabled);
      var query := BuildQuery(s.selected, facets, s.countKey, lang);
      match ParseResults(rows, s.selected, facets, id, s.countKey)
      case None => Step(s, Rejected(query))
      case Some(states) =>
        ParsedStatesListed(rows, s.selected, facets, id, s.countKey, states);
        Step(Stored(s, states), Updated(query))
  }

  /** The handler once every enabled facet holds its state from `states`. */
  function Stored(s: HandlerState, states: seq<FacetState>): (r: HandlerState)
    requires Coherent(s)
    requires forall k :: k in Keys(Defs(s.enabled)) ==> Listed(FindState(states, k), k)
    ensures Coherent(r) && r == s.(enabled := r.enabled)
    ensures Keys(r.enabled) == Keys(s.enabled) && Defs(r.enabled) == Defs(s.enabled)
    ensures forall i :: 0 <= i < |r.enabled| ==> Listed(r.enabled[i].val.state, r.enabled[i].id)
  {
    ListedAfterUpdate(s.enabled, states);
    var enabled := WithStates(s.enabled, states);
    UniqueSameKeys(s.enabled, enabled);
    s.(enabled := enabled)
  }

  /*** facetChanged and the change handlers ***/

  /** `timeSpanFacetChanged`: no query while the range is half set, and none when there is
      no selection; the selection is never recorded as the previous one. */
  function TimeSpanChanged(s: HandlerState, id: FacetId, rows: seq<Row>, lang: string): (r: Step)
    requires Coherent(s) && id in Keys(s.enabled)
    ensures Coherent(r.state)
  {
    var sel := Lookup(s.selected, id);
    if !IsSet(sel) then Step(s, Unchanged)
    else if PartialSpan(sel) then Step(s, Incomplete)
    else UpdateStep(s, Some(id), rows, lang)
  }

  /** `textFacetChanged`: record the selection, then query. */
  function TextChanged(s: HandlerState, id: FacetId, rows: seq<Row>, lang: string): (r: Step)
    requires Coherent(s) && id in Keys(s.enabled)
    ensures Coherent(r.state)
  {
    PutUnique(s.previous, id, Lookup(s.selected, id));
    UpdateStep(s.(previous := Put(s.previous, id, Lookup(s.selected, id))), Some(id), rows, lang)
  }

  /** The repair of a `null` selection: the selection to restore, the values to add back to
      the facet's state with the first one's count set to 0, and whether that count change
      shows through `previousSelections` (it does for an array, whose shallow clone shares
      its entries). */
  datatype Repair = Repair(restored: Selection, appended: seq<FacetValue>, shared: bool)

  /** `None` when the previous selection is `undefined`, `null` or an empty array, where
      setting the count of `prev` or `prev[0]` throws. */
  function RepairOf(prev: Selection): (r: Option<Repair>)
    ensures r.Some? ==> IsSet(r.value.restored) && KeyOf(r.value.restored) == KeyOf(prev)
    ensures r.Some? ==> r.value.appended != [] && r.value.appended[0].count == Some(0)
    ensures r.Some? ==> Values(r.value.appended) == SelectedValues(prev)
  {
    match prev
    case One(item) => Some(Repair(One(item), [item.(count := Some(0))], false))
    case Many(items) =>
      if items == [] then None
      else
        var zeroed := items[0 := items[0].(count := Some(0))];
        assert Values(zeroed) == Values(items);
        Some(Repair(Many(zeroed), zeroed, true))
    case _ => None
  }

  /** `basicFacetChanged`. */
  function BasicChanged(s: HandlerState, id: FacetId, rows: seq<Row>, lang: string): (r: Step)
    requires Coherent(s) && id in Keys(s.enabled)
    ensures Coherent(r.state)
  {
    var sel := Lookup(s.selected, id);
    if sel != Null then
      PutUnique(s.previous, id, sel);
      UpdateStep(s.(previous := Put(s.previous, id, sel)), Some(id), rows, lang)
    else RestoreStep(s, id)
  }

  /** The `null` branch of `basicFacetChanged`: no query; the previous selection goes back
      into the facet's values with count 0 and becomes the selection again. */
  function RestoreStep(s: HandlerState, id: FacetId): (r: Step)
    requires Coherent(s) && id in Keys(s.enabled) && Lookup(s.selected, id) == Null
    ensures Coherent(r.state)
  {
    match RepairOf(Lookup(s.previous, id))
    case None => Step(s, Crashed)
    case Some(rep) =>
      PutUnique(s.previous, id, rep.restored);
      var s1 := s.(previous := if rep.shared then Put(s.previous, id, rep.restored) else s.previous);
      var facet := Get(s.enabled, id).value;
      if facet.state.None? then Step(s1, Crashed)
      else
        RepairCoherent(s1, id, rep);
        var st := facet.state.value;
        Step(s1.(enabled := Put(s.enabled, id, Facet(facet.def, Some(st.(values := st.values + rep.appended)))),
                 selected := Put(s.selected, id, rep.restored)), Restored)
  }

  lemma RepairCoherent(s: HandlerState, id: FacetId, rep: Repair)
    requires Coherent(s) && Get(s.enabled, id).Some? && Get(s.enabled, id).value.state.Some?
    requires Get(s.selected, id) == Some(Null)
    ensures var facet := Get(s.enabled, id).value;
      var st := facet.state.value;
      Coherent(s.(enabled := Put(s.enabled, id, Facet(facet.def, Some(st.(values := st.values + rep.appended)))),
                  selected := Put(s.selected, id, rep.restored)))
  {
    var facet := Get(s.enabled, id).value;
    var st := facet.state.value;
    var enabled := Put(s.enabled, id, Facet(facet.def, Some(st.(values := st.values + rep.appended))));
    var selected := Put(s.selected, id, rep.restored);
    DefsPutSameDef(s.enabled, id, Facet(facet.def, Some(st.(values := st.values + rep.appended))));
    PutUnique(s.enabled, id, Facet(facet.def, Some(st.(values := st.values + rep.appended))));
    PutUnique(s.selected, id, rep.restored);
    assert Keyed(id, Null) in s.selected;
    KeysDefs(s.enabled);
    forall e | e in selected ensures Fits(Defs(enabled), e) && (KindOf(Defs(enabled), e.id) == Text ==> IsSet(e.val)) {
      if e != Keyed(id, rep.restored) {
        assert e in s.selected;
      }
    }
  }

  /** `facetChanged(id)`: nothing when the selection has not changed; a `TypeError` when the
      facet is not enabled; otherwise the handler of the facet's type, basic for untyped and
      hierarchy facets. */
  function FacetChangedStep(s: HandlerState, id: FacetId, rows: seq<Row>, lang: string): (r: Step)
    requires Coherent(s)
    ensures Coherent(r.state)
  {
    var sel := Lookup(s.selected, id);
    if !HasChanged(s.previous, id, sel) then Step(s, Unchanged)
    else if id !in Keys(s.enabled) then Step(s, Crashed)
    else
      match KindOf(Defs(s.enabled), id)
      case Timespan => TimeSpanChanged(s, id, rows, lang)
      case Text => TextChanged(s, id, rows, lang)
      case _ => BasicChanged(s, id, rows, lang)
  }

  /*** enableFacet and disableFacet ***/

  /** `enableFacet(id)`: the facet moves to the end of the enabled facets, the default count
      key is recomputed, and a query follows unless the facet is a text or time-span facet. */
  function EnableStep(s: HandlerState, id: FacetId, rows: seq<Row>, lang: string): (r: Step)
    requires Coherent(s) && id in Keys(s.disabled)
    ensures Coherent(r.state) && FacetIds(r.state) == FacetIds(s)
    ensures Keys(r.state.enabled) == Keys(s.enabled) + [id]
    ensures Get(Defs(r.state.enabled), id) == Some(Get(s.disabled, id).value.def)
    ensures forall k :: k != id ==> Get(Defs(r.state.enabled), k) == Get(Defs(s.enabled), k)
    ensures forall k :: Get(r.state.disabled, k) == if k == id then None else Get(s.disabled, k)
    ensures r.state.selected == s.selected && r.state.previous == s.previous
    ensures r.outcome == Unchanged <==> IsFreeFacet(Get(s.disabled, id).value.def.kind)
  {
    var facet := Get(s.disabled, id).value;
    var enabled := Put(s.enabled, id, facet);
    var s1 := s.(enabled := enabled, disabled := Remove(s.disabled, id), countKey := DefaultCountKey(Defs(enabled)));
    EnableCoherent(s, id);
    GetDefs(enabled, id);
    forall k | k != id ensures Get(Defs(enabled), k) == Get(Defs(s.enabled), k) {
      GetDefs(enabled, k);
      GetDefs(s.enabled, k);
    }
    assert FacetIds(s1) == FacetIds(s) by {
      KeysAppend(s.enabled, s.disabled, id);
    }
    if IsFreeFacet(facet.def.kind) then Step(s1, Unchanged)
    else UpdateStep(s1, None, rows, lang)
  }

  lemma KeysAppend(enabled: Dict<Facet>, disabled: Dict<Facet>, id: FacetId)
    requires id in Keys(disabled) && id !in Keys(enabled)
    ensures (set k | k in Keys(Put(enabled, id, Get(disabled, id).value)) + Keys(Remove(disabled, id))) ==
            (set k | k in Keys(enabled) + Keys(disabled))
  {
  }

  lemma EnableCoherent(s: HandlerState, id: FacetId)
    requires Coherent(s) && id in Keys(s.disabled)
    ensures var enabled := Put(s.enabled, id, Get(s.disabled, id).value);
      Coherent(s.(enabled := enabled, disabled := Remove(s.disabled, id), countKey := DefaultCountKey(Defs(enabled))))
  {
    var enabled := Put(s.enabled, id, Get(s.disabled, id).value);
    PutUnique(s.enabled, id, Get(s.disabled, id).value);
    RemoveUnique(s.disabled, id);
    KeysDefs(s.enabled);
    forall e | e in s.selected ensures Get(Defs(enabled), e.id) == Get(Defs(s.enabled), e.id) {
      GetDefs(enabled, e.id);
      GetDefs(s.enabled, e.id);
    }
    QueryFitsAgree(Defs(s.enabled), Defs(enabled), s.selected, s.selected);
  }

  /** `disableFacet(id)`: the facet moves to the disabled facets, its selection is deleted,
      the default count key is recomputed and the facets are queried again. */
  function DisableStep(s: HandlerState, id: FacetId, rows: seq<Row>, lang: string): (r: Step)
    requires Coherent(s) && id in Keys(s.enabled)
    ensures Coherent(r.state) && FacetIds(r.state) == FacetIds(s)
    ensures id in Keys(r.state.disabled) && id !in Keys(r.state.enabled)
    ensures forall k :: k in Keys(r.state.enabled) <==> k in Keys(s.enabled) && k != id
    ensures forall k :: k != id ==> Get(Defs(r.state.enabled), k) == Get(Defs(s.enabled), k)
    ensures Get(r.state.disabled, id) == Get(s.enabled, id)
    ensures forall k :: k != id ==> Get(r.state.disabled, k) == Get(s.disabled, k)
    ensures forall k :: Get(r.state.selected, k) == if k == id then None else Get(s.selected, k)
    ensures r.state.previous == s.previous
    ensures r.outcome.Updated? || r.outcome.Rejected? || r.outcome.NothingEnabled?
  {
    UpdateStep(Disabled(s, id), None, rows, lang)
  }

  /** The handler right after `disableFacet(id)` has moved the facet, before the query. */
  function Disabled(s: HandlerState, id: FacetId): (r: HandlerState)
    requires Coherent(s) && id in Keys(s.enabled)
    ensures Coherent(r) && FacetIds(r) == FacetIds(s)
    ensures id in Keys(r.disabled) && id !in Keys(r.enabled)
    ensures forall k :: k in Keys(r.enabled) <==> k in Keys(s.enabled) && k != id
    ensures forall k :: k != id ==> Get(Defs(r.enabled), k) == Get(Defs(s.enabled), k)
    ensures Get(r.disabled, id) == Get(s.enabled, id)
    ensures forall k :: k != id ==> Get(r.disabled, k) == Get(s.disabled, k)
    ensures forall k :: Get(r.selected, k) == if k == id then None else Get(s.selected, k)
    ensures r.previous == s.previous
  {
    var facet := Get(s.enabled, id).value;
    var enabled := Remove(s.enabled, id);
    var s1 := s.(enabled := enabled, disabled := Put(s.disabled, id, facet), selected := Remove(s.selected, id),
                 countKey := DefaultCountKey(Defs(enabled)));
    DisableCoherent(s, id);
    forall k | k != id ensures Get(Defs(enabled), k) == Get(Defs(s.enabled), k) {
      GetDefs(enabled, k);
      GetDefs(s.enabled, k);
    }
    KeysRemovePut(s.enabled, s.disabled, id);
    assert FacetIds(s1) == FacetIds(s);
    s1
  }

  lemma KeysRemovePut(enabled: Dict<Facet>, disabled: Dict<Facet>, id: FacetId)
    requires id in Keys(enabled)
    ensures (set k | k in Keys(Remove(enabled, id)) + Keys(Put(disabled, id, Get(enabled, id).value))) ==
            (set k | k in Keys(enabled) + Keys(disabled))
  {
  }

  lemma DisableCoherent(s: HandlerState, id: FacetId)
    requires Coherent(s) && id in Keys(s.enabled)
    ensures var enabled := Remove(s.enabled, id);
      Coherent(s.(enabled := enabled, disabled := Put(s.disabled, id, Get(s.enabled, id).value),
                  selected := Remove(s.selected, id), countKey := DefaultCountKey(Defs(enabled))))
  {
    var enabled := Remove(s.enabled, id);
    RemoveUnique(s.enabled, id);
    RemoveUnique(s.selected, id);
    PutUnique(s.disabled, id, Get(s.enabled, id).value);
    forall e | e in Remove(s.selected, id) ensures Get(Defs(enabled), e.id) == Get(Defs(s.enabled), e.id) {
      GetDefs(enabled, e.id);
      GetDefs(s.enabled, e.id);
    }
    QueryFitsAgree(Defs(s.enabled), Defs(enabled), s.selected, Remove(s.selected, id));
  }

  /*** Initialisation ***/

  /** What the source requires of its setup: both are objects, and the initial value of a
      text facet is a search text, not a date range.  A time-span initial value is taken
      as `parseInitialValues` leaves it, a range with both bounds built. */
  predicate SetupFits(setup: Dict<FacetDef>, values: Dict<Val>) {
    UniqueKeys(setup) && UniqueKeys(values) &&
    forall e :: e in values ==>
      && (KindOf(setup, e.id) == Text ==> !e.val.Span?)
      && (KindOf(setup, e.id) == Timespan ==> e.val.Span? && e.val.start.Some? && e.val.end.Some?)
  }

  /** `parseInitialValues`: the initial values of the facets that exist, in their order. */
  function InitialValues(values: Dict<Val>, setup: Dict<FacetDef>): (r: Dict<Val>)
    ensures forall e :: e in r <==> e in values && e.id in Keys(setup)
    ensures forall k :: k in Keys(r) ==> k in Keys(setup)
    ensures UniqueKeys(values) ==> UniqueKeys(r)
  {
    if values == [] then []
    else
      var init := values[..|values| - 1];
      var last := values[|values| - 1];
      var rest := InitialValues(init, setup);
      assert values == init + [last];
      assert forall e :: e in values <==> e in init || e == last;
      if last.id in Keys(setup) then
        InitialValuesUnique(values, rest);
        KeysConcat(rest, [last]);
        rest + [last]
      else
        assert UniqueKeys(values) ==> UniqueKeys(init);
        rest
  }

  lemma InitialValuesUnique(values: Dict<Val>, rest: Dict<Val>)
    requires values != [] && forall e :: e in rest ==> e in values[..|values| - 1]
    requires UniqueKeys(values) ==> UniqueKeys(rest)
    ensures UniqueKeys(values) ==> UniqueKeys(rest + [values[|values| - 1]])
  {
    if UniqueKeys(values) {
      var last := values[|values| - 1];
      InKeys(rest, last.id);
      forall i | 0 <= i < |rest| ensures rest[i].id != last.id {
        assert rest[i] in rest;
      }
      SnocUnique(rest, last);
    }
  }

  /** `_.pick(setup, ids)`: the facets named by `ids`, in that order, with no state yet. */
  function PickIds(setup: Dict<FacetDef>, ids: seq<FacetId>): (r: Dict<Facet>)
    requires forall k :: k in ids ==> k in Keys(setup)
    ensures |r| == |ids| && Keys(r) == ids
    ensures forall i :: 0 <= i < |ids| ==> r[i] == Keyed(ids[i], Facet(Get(setup, ids[i]).value, None))
  {
    if ids == [] then []
    else
      var r := [Keyed(ids[0], Facet(Get(setup, ids[0]).value, None))] + PickIds(setup, ids[1..]);
      assert r[1..] == PickIds(setup, ids[1..]);
      r
  }

  /** `_.pickBy(setup, facet => facet.enabled)`. */
  function PickEnabled(setup: Dict<FacetDef>): (r: Dict<Facet>)
    ensures forall e :: e in r <==> e.val.state.None? && Keyed(e.id, e.val.def) in setup && e.val.def.enabled
    ensures forall k :: k in Keys(r) ==> k in Keys(setup)
  {
    if setup == [] then []
    else
      var rest := PickEnabled(setup[1..]);
      assert forall e :: e in setup <==> e == setup[0] || e in setup[1..];
      if setup[0].val.enabled then
        var r := [Keyed(setup[0].id, Facet(setup[0].val, None))] + rest;
        KeysConcat([Keyed(setup[0].id, Facet(setup[0].val, None))], rest);
        r
      else rest
  }

  lemma {:induction false} PickEnabledUnique(setup: Dict<FacetDef>)
    requires UniqueKeys(setup)
    ensures UniqueKeys(PickEnabled(setup))
  {
    if setup != [] {
      UniqueKeysTail(setup);
      PickEnabledUnique(setup[1..]);
      if setup[0].val.enabled {
        KeysConcat([Keyed(setup[0].id, Facet(setup[0].val, None))], PickEnabled(setup[1..]));
        UniqueKeysCons(Keyed(setup[0].id, Facet(setup[0].val, None)), PickEnabled(setup[1..]));
      }
    }
  }

  /** `_.omit(setup, ids)`: the other facets, in setup order, with no state yet. */
  function OmitIds(setup: Dict<FacetDef>, ids: seq<FacetId>): (r: Dict<Facet>)
    ensures forall e :: e in r <==> e.val.state.None? && Keyed(e.id, e.val.def) in setup && e.id !in ids
    ensures forall k :: k in Keys(r) ==> k in Keys(setup) && k !in ids
  {
    if setup == [] then []
    else
      var rest := OmitIds(setup[1..], ids);
      assert forall e :: e in setup <==> e == setup[0] || e in setup[1..];
      if setup[0].id !in ids then
        KeysConcat([Keyed(setup[0].id, Facet(setup[0].val, None))], rest);
        [Keyed(setup[0].id, Facet(setup[0].val, None))] + rest
      else rest
  }

  lemma {:induction false} OmitIdsUnique(setup: Dict<FacetDef>, ids: seq<FacetId>)
    requires UniqueKeys(setup)
    ensures UniqueKeys(OmitIds(setup, ids))
  {
    if setup != [] {
      UniqueKeysTail(setup);
      OmitIdsUnique(setup[1..], ids);
      if setup[0].id !in ids {
        KeysConcat([Keyed(setup[0].id, Facet(setup[0].val, None))], OmitIds(setup[1..], ids));
        UniqueKeysCons(Keyed(setup[0].id, Facet(setup[0].val, None)), OmitIds(setup[1..], ids));
      }
    }
  }

  /** `getInitialEnabledFacets`: the facets with an initial value, in the initial values'
      order, or when there are none the facets marked `enabled`, in setup order. */
  function InitialEnabled(setup: Dict<FacetDef>, values: Dict<Val>): (r: Dict<Facet>)
    requires forall k :: k in Keys(values) ==> k in Keys(setup)
  {
    var picked := PickIds(setup, Keys(values));
    if picked != [] then picked else PickEnabled(setup)
  }

  /** `initPreviousSelections`: `{ value: initialValues[id] }` for every enabled facet; the
      object has no `text` and no `count`, written here as the empty text and no count. */
  function InitialSelections(values: Dict<Val>, facets: Dict<Facet>): (r: Dict<Selection>)
    ensures |r| == |facets|
    ensures forall i :: 0 <= i < |facets| ==>
      r[i] == Keyed(facets[i].id, One(FacetValue(if Get(values, facets[i].id).Some? then Get(values, facets[i].id).value else Undef, "", None)))
  {
    if facets == [] then []
    else
      var init := facets[..|facets| - 1];
      var last := facets[|facets| - 1];
      InitialSelections(values, init)
      + [Keyed(last.id, One(FacetValue(if Get(values, last.id).Some? then Get(values, last.id).value else Undef, "", None)))]
  }

  /** The handler's state once its constructor has run. */
  function Initial(setup: Dict<FacetDef>, initialValues: Dict<Val>): HandlerState
  {
    var values := InitialValues(initialValues, setup);
    var enabled := InitialEnabled(setup, values);
    var previous := InitialSelections(values, enabled);
    HandlerState(enabled, OmitIds(setup, Keys(enabled)), previous, previous, DefaultCountKey(Defs(enabled)))
  }

  /*** The facet handler ***/

  class FacetHandler {
    var enabledFacets: Dict<Facet>
    var disabledFacets: Dict<Facet>
    var selectedFacets: Dict<Selection>
    var previousSelections: Dict<Selection>
    var defaultCountKey: Option<FacetId>
    const preferredLang: string

    function State(): HandlerState
      reads this
    {
      HandlerState(enabledFacets, disabledFacets, selectedFacets, previousSelections, defaultCountKey)
    }

    ghost predicate Valid()
      reads this
    {
      Coherent(State())
    }

    constructor(facetSetup: Dict<FacetDef>, initialValues: Dict<Val>, lang: string)
      requires SetupFits(facetSetup, initialValues)
      ensures State() == Initial(facetSetup, initialValues) && preferredLang == lang
      ensures Valid()
    {
      var values := ParseInitialValues(initialValues, facetSetup);
      var enabled := InitialEnabled(facetSetup, values);
      enabledFacets := enabled;
      disabledFacets := OmitIds(facetSetup, Keys(enabled));
      var previous := InitPreviousSelections(values, enabled);
      previousSelections := previous;
      selectedFacets := previous;
      defaultCountKey := DefaultCountKey(Defs(enabled));
      preferredLang := lang;
      InitialCoherent(facetSetup, initialValues);
    }

    /** The user interface writing `selectedFacets[id]` through its model binding: a text
        facet's input box always holds a search text. */
    method SetSelection(id: FacetId, sel: Selection)
      requires Valid() && QueryFits(Defs(enabledFacets), [Keyed(id, sel)])
      modifies this
      ensures State() == old(State()).(selected := Put(old(selectedFacets), id, sel))
      ensures Valid()
    {
      PutUnique(selectedFacets, id, sel);
      selectedFacets := Put(selectedFacets, id, sel);
    }

    /** `facet.state = _.find(states, ['id', key])` for every enabled facet. */
    method StoreStates(states: seq<FacetState>)
      modifies this
      ensures State() == old(State()).(enabled := WithStates(old(enabledFacets), states))
    {
      ghost var target := WithStates(enabledFacets, states);
      ghost var before := enabledFacets;
      var i := 0;
      while i < |enabledFacets|
        invariant 0 <= i <= |enabledFacets| == |before| == |target|
        invariant forall j :: 0 <= j < i ==> enabledFacets[j] == target[j]
        invariant forall j :: i <= j < |before| ==> enabledFacets[j] == before[j]
        invariant disabledFacets == old(disabledFacets) && selectedFacets == old(selectedFacets)
        invariant previousSelections == old(previousSelections) && defaultCountKey == old(defaultCountKey)
      {
        var key := enabledFacets[i].id;
        enabledFacets := enabledFacets[i := Keyed(key, Facet(enabledFacets[i].val.def, FindState(states, key)))];
        i := i + 1;
      }
      assert enabledFacets == target;
    }

    /** `update(id)`, the endpoint's answer to the query being `rows`. */
    method Update(id: Option<FacetId>, rows: seq<Row>) returns (outcome: Outcome)
      requires Valid() && (id.Some? ==> id.value in Keys(enabledFacets))
      modifies this
      ensures Step(State(), outcome) == UpdateStep(old(State()), id, rows, preferredLang)
      ensures Valid()
    {
      if |enabledFacets| == 0 {
        return NothingEnabled;
      }
      var facets := Defs(enabledFacets);
      var query := BuildQuery(selectedFacets, facets, defaultCountKey, preferredLang);
      var results := PostProcess(Grouped(rows));
      var count := ResultCount(rows, selectedFacets, facets, id, defaultCountKey);
      if count.None? {
        return Rejected(query);
      }
      var states := SetNotSelectionValues(results, count.value, facets);
      StoreStates(states);
      outcome := Updated(query);
    }

    /** `facetChanged(id)`. */
    method FacetChanged(id: FacetId, rows: seq<Row>) returns (outcome: Outcome)
      requires Valid()
      modifies this
      ensures Step(State(), outcome) == FacetChangedStep(old(State()), id, rows, preferredLang)
      ensures Valid()
    {
      var selectedFacet := Lookup(selectedFacets, id);
      if !HasChanged(previousSelections, id, selectedFacet) {
        return Unchanged;
      }
      if id !in Keys(enabledFacets) {
        return Crashed;
      }
      match KindOf(Defs(enabledFacets), id) {
        case Timespan => outcome := TimeSpanFacetChanged(id, rows);
        case Text => outcome := TextFacetChanged(id, rows);
        case _ => outcome := BasicFacetChanged(id, rows);
      }
    }

    /** `timeSpanFacetChanged(id)`. */
    method TimeSpanFacetChanged(id: FacetId, rows: seq<Row>) returns (outcome: Outcome)
      requires Valid() && id in Keys(enabledFacets)
      modifies this
      ensures Step(State(), outcome) == TimeSpanChanged(old(State()), id, rows, preferredLang)
      ensures Valid()
    {
      var selectedFacet := Lookup(selectedFacets, id);
      if IsSet(selectedFacet) {
        if PartialSpan(selectedFacet) {
          return Incomplete;
        }
        outcome := Update(Some(id), rows);
        return;
      }
      return Unchanged;
    }

    /** `textFacetChanged(id)`. */
    method TextFacetChanged(id: FacetId, rows: seq<Row>) returns (outcome: Outcome)
      requires Valid() && id in Keys(enabledFacets)
      modifies this
      ensures Step(State(), outcome) == TextChanged(old(State()), id, rows, preferredLang)
      ensures Valid()
    {
      PutUnique(previousSelections, id, Lookup(selectedFacets, id));
      previousSelections := Put(previousSelections, id, Lookup(selectedFacets, id));
      outcome := Update(Some(id), rows);
    }

    /** `basicFacetChanged(id)`. */
    method BasicFacetChanged(id: FacetId, rows: seq<Row>) returns (outcome: Outcome)
      requires Valid() && id in Keys(enabledFacets)
      modifies this
      ensures Step(State(), outcome) == BasicChanged(old(State()), id, rows, preferredLang)
      ensures Valid()
    {
      ghost var s := State();
      var selectedFacet := Lookup(selectedFacets, id);
      if selectedFacet == Null {
        outcome := RestoreSelection(id);
        return;
      }
      PutUnique(previousSelections, id, selectedFacet);
      previousSelections := Put(previousSelections, id, selectedFacet);
      assert State() == s.(previous := Put(s.previous, id, selectedFacet));
      outcome := Update(Some(id), rows);
    }

    /** The `null` branch of `basicFacetChanged`. */
    method RestoreSelection(id: FacetId) returns (outcome: Outcome)
      requires Valid() && id in Keys(enabledFacets) && Lookup(selectedFacets, id) == Null
      modifies this
      ensures Step(State(), outcome) == RestoreStep(old(State()), id)
      ensures Valid()
    {
      ghost var s := State();
      var repair := ZeroPreviousCount(id);
      if repair.None? {
        return Crashed;
      }
      var rep := repair.value;
      var facet := Get(enabledFacets, id).value;
      if facet.state.None? {
        return Crashed;
      }
      var st := facet.state.value;
      ghost var s1 := State();
      assert s1 == s.(previous := if rep.shared then Put(s.previous, id, rep.restored) else s.previous);
      RepairCoherent(s1, id, rep);
      var repaired := Facet(facet.def, Some(st.(values := st.values + rep.appended)));
      enabledFacets := Put(enabledFacets, id, repaired);
      selectedFacets := Put(selectedFacets, id, Lookup(previousSelections, id));
      assert State() == s1.(enabled := Put(s1.enabled, id, repaired), selected := Put(s1.selected, id, rep.restored));
      return Restored;
    }

    /** `prev.count = 0` or `prev[0].count = 0` on the previous selection `prev` of the
        facet; for an array the entry is shared with `previousSelections`, which sees the
        change. `None` where the assignment throws. */
    method ZeroPreviousCount(id: FacetId) returns (repair: Option<Repair>)
      requires Valid()
      modifies this
      ensures repair == RepairOf(old(Lookup(previousSelections, id)))
      ensures repair.Some? ==> Lookup(previousSelections, id) == repair.value.restored
      ensures var s := old(State());
        State() == s.(previous := if repair.Some? && repair.value.shared then Put(s.previous, id, repair.value.restored) else s.previous)
      ensures Valid()
    {
      var prev := Lookup(previousSelections, id);
      match prev {
        case One(item) =>
          repair := Some(Repair(prev, [item.(count := Some(0))], false));
        case Many(items) =>
          if |items| == 0 {
            return None;
          }
          var zeroed := items[0 := items[0].(count := Some(0))];
          PutUnique(previousSelections, id, Many(zeroed));
          previousSelections := Put(previousSelections, id, Many(zeroed));
          repair := Some(Repair(Many(zeroed), zeroed, true));
        case _ =>
          return None;
      }
    }

    /** `enableFacet(id)`; the user interface offers only disabled facets. */
    method EnableFacet(id: FacetId, rows: seq<Row>) returns (outcome: Outcome)
      requires Valid() && id in Keys(disabledFacets)
      modifies this
      ensures Step(State(), outcome) == EnableStep(old(State()), id, rows, preferredLang)
      ensures Valid()
    {
      ghost var s := State();
      var facet := Get(disabledFacets, id).value;
      EnableCoherent(s, id);
      enabledFacets := Put(enabledFacets, id, facet);
      disabledFacets := Remove(disabledFacets, id);
      defaultCountKey := DefaultCountKey(Defs(enabledFacets));
      assert State() == s.(enabled := Put(s.enabled, id, facet), disabled := Remove(s.disabled, id),
                           countKey := DefaultCountKey(Defs(Put(s.enabled, id, facet))));
      if IsFreeFacet(facet.def.kind) {
        return Unchanged;
      }
      outcome := Update(None, rows);
    }

    /** `disableFacet(id)`; the user interface offers only enabled facets. */
    method DisableFacet(id: FacetId, rows: seq<Row>) returns (outcome: Outcome)
      requires Valid() && id in Keys(enabledFacets)
      modifies this
      ensures Step(State(), outcome) == DisableStep(old(State()), id, rows, preferredLang)
      ensures Valid()
    {
      ghost var s := State();
      DisableCoherent(s, id);
      disabledFacets := Put(disabledFacets, id, Get(enabledFacets, id).value);
      enabledFacets := Remove(enabledFacets, id);
      selectedFacets := Remove(selectedFacets, id);
      defaultCountKey := DefaultCountKey(Defs(enabledFacets));
      assert State() == Disabled(s, id);
      outcome := Update(None, rows);
    }
  }

  /** `parseInitialValues`. */
  method ParseInitialValues(values: Dict<Val>, facets: Dict<FacetDef>) returns (result: Dict<Val>)
    ensures result == InitialValues(values, facets)
  {
    result := [];
    var k := 0;
    while k < |values|
      invariant 0 <= k <= |values|
      invariant result == InitialValues(values[..k], facets)
    {
      assert values[..k + 1][..k] == values[..k];
      if values[k].id in Keys(facets) {
        result := result + [values[k]];
      }
      k := k + 1;
    }
    assert values[..k] == values;
  }

  /** `initPreviousSelections`. */
  method InitPreviousSelections(values: Dict<Val>, facets: Dict<Facet>) returns (selections: Dict<Selection>)
    ensures selections == InitialSelections(values, facets)
  {
    selections := [];
    var k := 0;
    while k < |facets|
      invariant 0 <= k <= |facets|
      invariant selections == InitialSelections(values, facets[..k])
    {
      assert facets[..k + 1][..k] == facets[..k];
      var initialVal := if Get(values, facets[k].id).Some? then Get(values, facets[k].id).value else Undef;
      selections := selections + [Keyed(facets[k].id, One(FacetValue(initialVal, "", None)))];
      k := k + 1;
    }
    assert facets[..k] == facets;
  }

  /*** Lemmas: initialisation ***/

  /** A new handler is coherent. */
  lemma InitialCoherent(setup: Dict<FacetDef>, initialValues: Dict<Val>)
    requires SetupFits(setup, initialValues)
    ensures Coherent(Initial(setup, initialValues))
  {
    var values := InitialValues(initialValues, setup);
    InitialUnique(setup, values);
    InitialFits(setup, initialValues);
  }

  /** In a new handler the enabled facets are those with an initial value, in that order,
      or when none has one those marked `enabled`; and every enabled facet starts with its
      initial value as both its selection and its previous selection. */
  lemma InitialShape(setup: Dict<FacetDef>, initialValues: Dict<Val>)
    requires SetupFits(setup, initialValues)
    ensures var s := Initial(setup, initialValues);
      var values := InitialValues(initialValues, setup);
      && (values != [] ==> Keys(s.enabled) == Keys(values))
      && (values == [] ==> forall e :: e in s.enabled <==> e.val.state.None? && Keyed(e.id, e.val.def) in setup && e.val.def.enabled)
  {
  }

  /** Every enabled facet of a new handler starts with its initial value as both its
      selection and its previous selection. */
  lemma InitialSelected(setup: Dict<FacetDef>, initialValues: Dict<Val>)
    requires SetupFits(setup, initialValues)
    ensures var s := Initial(setup, initialValues);
      var values := InitialValues(initialValues, setup);
      && s.selected == s.previous
      && forall i :: 0 <= i < |s.enabled| ==>
           (Get(s.selected, s.enabled[i].id) == Some(One(FacetValue(if Get(values, s.enabled[i].id).Some? then Get(values, s.enabled[i].id).value else Undef, "", None))))
  {
    var values := InitialValues(initialValues, setup);
    InitialUnique(setup, values);
    SelectedAtInitial(values, InitialEnabled(setup, values));
  }

  /** Every setup facet is enabled or disabled in a new handler, and no other facet is. */
  lemma InitialFacetIds(setup: Dict<FacetDef>, initialValues: Dict<Val>)
    requires SetupFits(setup, initialValues)
    ensures forall k :: k in FacetIds(Initial(setup, initialValues)) <==> k in Keys(setup)
  {
    var values := InitialValues(initialValues, setup);
    InitialIds(setup, values);
  }

  lemma InitialUnique(setup: Dict<FacetDef>, values: Dict<Val>)
    requires UniqueKeys(setup) && UniqueKeys(values)
    requires forall k :: k in Keys(values) ==> k in Keys(setup)
    ensures var enabled := InitialEnabled(setup, values);
      UniqueKeys(enabled) && UniqueKeys(OmitIds(setup, Keys(enabled))) && UniqueKeys(InitialSelections(values, enabled))
  {
    var enabled := InitialEnabled(setup, values);
    if values != [] {
      forall i, j | 0 <= i < j < |enabled| ensures enabled[i].id != enabled[j].id {
        KeysIndex(values, i);
        KeysIndex(values, j);
      }
    } else {
      PickEnabledUnique(setup);
    }
    OmitIdsUnique(setup, Keys(enabled));
    UniqueSameKeys(enabled, InitialSelections(values, enabled));
  }

  /** The initial selections fit the query builders: a text facet's initial value is a
      string or missing. */
  lemma InitialFits(setup: Dict<FacetDef>, initialValues: Dict<Val>)
    requires SetupFits(setup, initialValues)
    ensures var values := InitialValues(initialValues, setup);
      var enabled := InitialEnabled(setup, values);
      QueryFits(Defs(enabled), InitialSelections(values, enabled))
  {
    var values := InitialValues(initialValues, setup);
    var enabled := InitialEnabled(setup, values);
    var previous := InitialSelections(values, enabled);
    EnabledFromSetup(setup, values);
    KeysDefs(enabled);
    InitialUnique(setup, values);
    forall e | e in previous ensures Fits(Defs(enabled), e) && (KindOf(Defs(enabled), e.id) == Text ==> IsSet(e.val)) {
      var i :| 0 <= i < |previous| && previous[i] == e;
      KeysIndex(enabled, i);
      GetAt(enabled, i);
      GetDefs(enabled, e.id);
      assert KindOf(Defs(enabled), e.id) == KindOf(setup, e.id);
      var v := Get(values, e.id);
      if v.Some? {
        assert Keyed(e.id, v.value) in initialValues;
      }
    }
  }

  /** Every setup facet is enabled or disabled, and no other facet is. */
  lemma InitialIds(setup: Dict<FacetDef>, values: Dict<Val>)
    requires UniqueKeys(setup)
    requires forall k :: k in Keys(values) ==> k in Keys(setup)
    ensures var enabled := InitialEnabled(setup, values);
      var disabled := OmitIds(setup, Keys(enabled));
      forall k :: k in Keys(enabled) + Keys(disabled) <==> k in Keys(setup)
  {
    var enabled := InitialEnabled(setup, values);
    var disabled := OmitIds(setup, Keys(enabled));
    EnabledFromSetup(setup, values);
    forall k | k in Keys(enabled) ensures k in Keys(setup) {
      InKeys(enabled, k);
      var i :| 0 <= i < |enabled| && enabled[i].id == k;
      assert enabled[i] in enabled;
    }
    forall k | k in Keys(setup) ensures k in Keys(enabled) + Keys(disabled) {
      if k !in Keys(enabled) {
        var x := Get(setup, k).value;
        assert Keyed(k, Facet(x, None)) in disabled;
        InKeys(disabled, k);
        var i :| 0 <= i < |disabled| && disabled[i] == Keyed(k, Facet(x, None));
        KeysIndex(disabled, i);
      }
    }
  }

  lemma SelectedAtInitial(values: Dict<Val>, enabled: Dict<Facet>)
    requires UniqueKeys(enabled)
    ensures forall i :: 0 <= i < |enabled| ==>
      (Get(InitialSelections(values, enabled), enabled[i].id) ==
       Some(One(FacetValue(if Get(values, enabled[i].id).Some? then Get(values, enabled[i].id).value else Undef, "", None))))
  {
    var previous := InitialSelections(values, enabled);
    UniqueSameKeys(enabled, previous);
    forall i | 0 <= i < |enabled|
      ensures Get(previous, enabled[i].id) ==
        Some(One(FacetValue(if Get(values, enabled[i].id).Some? then Get(values, enabled[i].id).value else Undef, "", None)))
    {
      GetAt(previous, i);
    }
  }

  /** The enabled facets of a new handler are setup facets, with their setup definitions. */
  lemma EnabledFromSetup(setup: Dict<FacetDef>, values: Dict<Val>)
    requires UniqueKeys(setup)
    requires forall k :: k in Keys(values) ==> k in Keys(setup)
    ensures forall e :: e in InitialEnabled(setup, values) ==> Get(setup, e.id) == Some(e.val.def) && e.val.state.None?
  {
    var picked := PickIds(setup, Keys(values));
    forall e | e in InitialEnabled(setup, values) ensures Get(setup, e.id) == Some(e.val.def) && e.val.state.None? {
      if picked != [] {
        var i :| 0 <= i < |picked| && picked[i] == e;
      } else {
        SetupEntry(setup, Keyed(e.id, e.val.def));
      }
    }
  }

  lemma SetupEntry<V>(d: Dict<V>, e: Keyed<V>)
    requires UniqueKeys(d) && e in d
    ensures Get(d, e.id) == Some(e.val)
  {
    var i :| 0 <= i < |d| && d[i] == e;
    GetAt(d, i);
  }

  /*** What the change handlers promise ***/

  /** A time-span facet's selection is never recorded as the previous one: a half-set range
      gives no query and leaves everything as it was, so it is still a change the next
      time; a complete range that has changed gives an update; a changed selection that is
      `undefined` or `null` resolves with the facets and changes nothing. */
  lemma TimeSpanChangeNotRecorded(s: HandlerState, id: FacetId, rows: seq<Row>, lang: string)
    requires Coherent(s) && id in Keys(s.enabled) && KindOf(Defs(s.enabled), id) == Timespan
    ensures var r := FacetChangedStep(s, id, rows, lang);
      r.state.previous == s.previous && r.state.selected == s.selected
    ensures var sel := Lookup(s.selected, id);
      PartialSpan(sel) && HasChanged(s.previous, id, sel) ==> FacetChangedStep(s, id, rows, lang) == Step(s, Incomplete)
    ensures var sel := Lookup(s.selected, id);
      HasChanged(s.previous, id, sel) && IsSet(sel) && !PartialSpan(sel) ==>
        FacetChangedStep(s, id, rows, lang) == UpdateStep(s, Some(id), rows, lang)
    ensures var sel := Lookup(s.selected, id);
      HasChanged(s.previous, id, sel) && !IsSet(sel) ==> FacetChangedStep(s, id, rows, lang) == Step(s, Unchanged)
  {
  }

  /** After a change of a text or basic facet whose selection is not `null`, the selection is
      recorded: no `TypeError` and no repair happens, and asking again with the same
      selection reports no change. */
  lemma ChangeRecorded(s: HandlerState, id: FacetId, rows: seq<Row>, lang: string, later: seq<Row>)
    requires Coherent(s) && id in Keys(s.enabled)
    requires KindOf(Defs(s.enabled), id) != Timespan && Lookup(s.selected, id) != Null
    ensures var r := FacetChangedStep(s, id, rows, lang);
      && !r.outcome.Crashed? && !r.outcome.Restored? && !r.outcome.Incomplete?
      && r.state.selected == s.selected
      && FacetChangedStep(r.state, id, later, lang) == Step(r.state, Unchanged)
  {
    var sel := Lookup(s.selected, id);
    if HasChanged(s.previous, id, sel) {
      PutUnique(s.previous, id, sel);
      var r := UpdateStep(s.(previous := Put(s.previous, id, sel)), Some(id), rows, lang);
      assert Lookup(r.state.previous, id) == sel;
      assert FacetChangedStep(s, id, rows, lang) == r;
    }
  }

  /** A basic facet whose selection became `null` (another facet's change emptied it) is
      never queried: when it had a previous selection, that selection comes back, its values
      are appended to the facet's state with the first count 0, and the next change check
      reports nothing new; the `TypeError`s are an empty previous array and a facet without
      a state. */
  lemma NullSelectionRepaired(s: HandlerState, id: FacetId, rows: seq<Row>, lang: string, later: seq<Row>)
    requires Coherent(s) && id in Keys(s.enabled)
    requires !IsFreeFacet(KindOf(Defs(s.enabled), id)) && Lookup(s.selected, id) == Null
    ensures var r := FacetChangedStep(s, id, rows, lang);
      r.outcome.Unchanged? || r.outcome.Restored? || r.outcome.Crashed?
    ensures var r := FacetChangedStep(s, id, rows, lang);
      var prev := Lookup(s.previous, id);
      && (r.outcome.Unchanged? <==> !IsSet(prev))
      && (r.outcome.Unchanged? ==> r.state == s)
      && (r.outcome.Crashed? <==> IsSet(prev) && (RepairOf(prev).None? || Get(s.enabled, id).value.state.None?))
    ensures var r := FacetChangedStep(s, id, rows, lang);
      var prev := Lookup(s.previous, id);
      var facet := Get(s.enabled, id).value;
      r.outcome.Restored? ==>
        && KeyOf(Lookup(r.state.selected, id)) == KeyOf(prev)
        && (forall k :: k != id ==> Get(r.state.selected, k) == Get(s.selected, k))
        && Get(r.state.enabled, id) == Some(Facet(facet.def, Some(facet.state.value.(values := facet.state.value.values + RepairOf(prev).value.appended))))
        && FacetChangedStep(r.state, id, later, lang) == Step(r.state, Unchanged)
  {
    var prev := Lookup(s.previous, id);
    assert FacetChangedStep(s, id, rows, lang) == if IsSet(prev) then RestoreStep(s, id) else Step(s, Unchanged);
    if IsSet(prev) && RepairOf(prev).Some? && Get(s.enabled, id).value.state.Some? {
      var rep := RepairOf(prev).value;
      var r := RestoreStep(s, id);
      var facet := Get(s.enabled, id).value;
      PutUnique(s.previous, id, rep.restored);
      var s1 := s.(previous := if rep.shared then Put(s.previous, id, rep.restored) else s.previous);
      var st := facet.state.value;
      var enabled := Put(s.enabled, id, Facet(facet.def, Some(st.(values := st.values + rep.appended))));
      var selected := Put(s.selected, id, rep.restored);
      assert r.state == s1.(enabled := enabled, selected := selected);
      assert Lookup(r.state.selected, id) == rep.restored;
      assert KeyOf(Lookup(r.state.previous, id)) == KeyOf(prev);
      assert !HasChanged(r.state.previous, id, rep.restored);
    }
  }

  /** Disabling a facet and enabling it again brings back its definition and, until the next
      query, its state, at the end of the enabled facets; its selection is gone (it is not
      restored), and its previous selection was never deleted. */
  lemma DisableThenEnable(s: HandlerState, id: FacetId, rows: seq<Row>, lang: string, later: seq<Row>)
    requires Coherent(s) && id in Keys(s.enabled)
    ensures var s1 := DisableStep(s, id, rows, lang).state;
      var r := EnableStep(s1, id, later, lang);
      && Get(Defs(r.state.enabled), id) == Get(Defs(s.enabled), id)
      && Keys(r.state.enabled) == Keys(s1.enabled) + [id]
      && (forall k :: k in Keys(r.state.enabled) <==> k in Keys(s.enabled))
      && (forall k :: Get(r.state.disabled, k) == Get(s.disabled, k))
      && Lookup(r.state.selected, id) == Absent
      && (forall k :: k != id ==> Get(r.state.selected, k) == Get(s.selected, k))
      && r.state.previous == s.previous
      && (r.outcome.Unchanged? ==> Get(r.state.enabled, id) == Get(s.enabled, id))
  {
    var s1 := DisableStep(s, id, rows, lang).state;
    var r := EnableStep(s1, id, later, lang);
    GetDefs(s.enabled, id);
    GetDefs(s1.disabled, id);
    if r.outcome.Unchanged? {
      var facet := Get(s1.disabled, id).value;
      assert r.state.enabled == Put(s1.enabled, id, facet);
    }
  }
}
