/** The entities the faceted-search engine passes around: facet definitions, facet
    values, user selections, per-facet states and the rows a query endpoint returns. */
module FacetData {
  import opened Objects

  /** The `type` property of a facet definition; a definition without a type is a basic facet. */
  datatype FacetType = Basic | Text | Timespan | Hierarchy

  /** A calendar date, in the `yyyy-mm-dd` form the query uses. */
  type Date = string

  /** The `value` of a facet value or of a selection: `undefined`, an RDF term or a search
      text written out as a string, or a time span whose ends a date picker may leave unset. */
  datatype Val = Undef | Str(s: string) | Span(start: Option<Date>, end: Option<Date>)

  /** JavaScript truthiness of a value: `undefined` and the empty string are falsy, an object is not. */
  predicate Truthy(v: Val) {
    match v
    case Undef => false
    case Str(s) => s != ""
    case Span(_, _) => true
  }

  /** One candidate option of a facet, `{ value, text, count }`.  A selection seeded from an
      initial value carries no count, hence the option. */
  datatype FacetValue = FacetValue(value: Val, text: string, count: Option<int>)

  /** What `selectedFacets[id]` holds: `undefined`, `null` (a select box whose option
      vanished), one value object, or an array of them (multiselect). */
  datatype Selection = Absent | Null | One(item: FacetValue) | Many(items: seq<FacetValue>)

  /** JavaScript truthiness of the selection itself: objects and arrays, even empty ones, are truthy. */
  predicate IsSet(sel: Selection) {
    sel.One? || sel.Many?
  }

  /** `sel.value`: an array, `undefined` and `null` have no `value` property worth reading. */
  function ValueOf(sel: Selection): Val {
    if sel.One? then sel.item.value else Undef
  }

  /** The `value` fields of an array of facet values, `_.map(items, 'value')`. */
  function Values(items: seq<FacetValue>): (r: seq<Val>)
    ensures |r| == |items|
    ensures forall i :: 0 <= i < |items| ==> r[i] == items[i].value
  {
    if items == [] then [] else [items[0].value] + Values(items[1..])
  }

  /** A facet definition, fixed at setup. `property` is the parent link of a hierarchy,
      `classes` its root classes, `start`/`end` the date properties of a time span. */
  datatype FacetDef = FacetDef(
    kind: FacetType,
    property: string,
    classes: seq<string>,
    start: string,
    end: string,
    isResource: bool,
    service: Option<string>,
    enabled: bool)

  /** The candidate values of one facet after a query round. */
  datatype FacetState = FacetState(id: FacetId, values: seq<FacetValue>)

  /** A facet object as the handler keeps it: its definition and the `state` an update stored. */
  datatype Facet = Facet(def: FacetDef, state: Option<FacetState>)

  /** The definitions of a set of facet objects, with their states dropped. */
  function Defs(facets: Dict<Facet>): (r: Dict<FacetDef>)
    ensures |r| == |facets|
    ensures forall i :: 0 <= i < |facets| ==> r[i] == Keyed(facets[i].id, facets[i].val.def)
  {
    if facets == [] then [] else [Keyed(facets[0].id, facets[0].val.def)] + Defs(facets[1..])
  }

  /** The type of facet `id`; callers only ask about facets that exist, as the source
      would otherwise dereference `undefined`. */
  function KindOf(facets: Dict<FacetDef>, id: FacetId): FacetType {
    match Get(facets, id)
    case Some(f) => f.kind
    case None => Basic
  }

  /** One variable binding of a result row: `{ type, value, datatype }`. */
  datatype Binding = Binding(termType: string, value: string, dataType: Option<string>)

  /** One row the query endpoint returns: the facet id, the candidate value (unbound for the
      "no selection" row), its label and its count, already read as a number. */
  datatype Row = Row(id: string, value: Option<Binding>, facetText: string, cnt: int)

  /** The label of the "no selection" entry, the module constant `NO_SELECTION_STRING`. */
  const NoSelectionString: string := "-- No Selection --"
}
