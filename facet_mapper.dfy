/** The facet result mapper (`facetMapperService`): reads the rows of the facet query into
    one state per facet, `{ id, values }`, with the "no selection" value first. */
module FacetMapper {
  import opened Objects
  import opened FacetData
  import opened Strings

  const XsdInteger: string := "http://www.w3.org/2001/XMLSchema#integer"
  const XsdDate: string := "http://www.w3.org/2001/XMLSchema#date"

  /** The literal types `parseValue` singles out: a literal of one of them is written bare
      (an integer) or with its datatype (a date). */
  predicate IsTypedLiteral(b: Binding, dataType: string) {
    Contains(b.termType, "literal") && b.dataType == Some(dataType)
  }

  /** `parseValue`: an RDF term of a result row written as it appears in a query. */
  function ParseValue(b: Option<Binding>): (r: Val)
    ensures b.None? ==> r == Undef
    ensures b.Some? ==> r.Str?
    ensures b.Some? && b.value.termType == "uri" ==> r.s == "<" + b.value.value + ">"
    ensures b.Some? && b.value.termType != "uri" && IsTypedLiteral(b.value, XsdInteger) ==> r.s == b.value.value
    ensures b.Some? && b.value.termType != "uri" && !IsTypedLiteral(b.value, XsdInteger) && IsTypedLiteral(b.value, XsdDate) ==>
      r.s == "\"" + b.value.value + "\"^^<" + XsdDate + ">"
    ensures b.Some? && b.value.termType != "uri" && !IsTypedLiteral(b.value, XsdInteger) && !IsTypedLiteral(b.value, XsdDate) ==>
      r.s == "\"" + b.value.value + "\""
  {
    match b
    case None => Undef
    case Some(v) =>
      if v.termType == "uri" then Str("<" + v.value + ">")
      else if IsTypedLiteral(v, XsdInteger) then Str(v.value)
      else if IsTypedLiteral(v, XsdDate) then Str("\"" + v.value + "\"^^<" + XsdDate + ">")
      else Str("\"" + v.value + "\"")
  }

  /** The way `parseValue` writes a term out. */
  datatype Written = AsUri | AsNumeral | AsDate | AsQuoted

  function WrittenAs(b: Binding): Written {
    if b.termType == "uri" then AsUri
    else if IsTypedLiteral(b, XsdInteger) then AsNumeral
    else if IsTypedLiteral(b, XsdDate) then AsDate
    else AsQuoted
  }

  lemma PrefixSuffixCancel(p: string, a: string, b: string, q: string)
    requires p + a + q == p + b + q
    ensures a == b
  {
    assert |a| == |b|;
    forall j | 0 <= j < |a| ensures a[j] == b[j] {
      assert (p + a + q)[|p| + j] == a[j];
      assert (p + b + q)[|p| + j] == b[j];
    }
  }

  /** Terms written the same way are written alike exactly when their lexical values agree,
      so no two distinct terms of one kind collide. */
  lemma ParseValueInjective(b1: Binding, b2: Binding)
    requires WrittenAs(b1) == WrittenAs(b2)
    ensures ParseValue(Some(b1)) == ParseValue(Some(b2)) <==> b1.value == b2.value
  {
    if ParseValue(Some(b1)) == ParseValue(Some(b2)) {
      match WrittenAs(b1)
      case AsUri =>
        PrefixSuffixCancel("<", b1.value, b2.value, ">");
      case AsNumeral =>
      case AsDate =>
        DateInjective(b1, b2);
      case AsQuoted =>
        PrefixSuffixCancel("\"", b1.value, b2.value, "\"");
    }
  }

  lemma DateInjective(b1: Binding, b2: Binding)
    requires WrittenAs(b1) == AsDate == WrittenAs(b2) && ParseValue(Some(b1)) == ParseValue(Some(b2))
    ensures b1.value == b2.value
  {
    var q := "\"^^<" + XsdDate + ">";
    Regroup(b1.value, XsdDate);
    Regroup(b2.value, XsdDate);
    PrefixSuffixCancel("\"", b1.value, b2.value, q);
  }

  lemma Regroup(v: string, d: string)
    ensures "\"" + v + "\"^^<" + d + ">" == "\"" + v + ("\"^^<" + d + ">")
  {
  }

  /** An IRI is written in angle brackets and every literal but an integer in quotes, so
      the bracket tells IRIs from quoted literals. */
  lemma ParseValueDelimiters(b: Binding)
    ensures var s := ParseValue(Some(b)).s;
      && (WrittenAs(b) == AsUri ==> |s| >= 2 && s[0] == '<' && s[|s| - 1] == '>')
      && (WrittenAs(b) == AsDate || WrittenAs(b) == AsQuoted ==> |s| >= 2 && s[0] == '"')
      && (WrittenAs(b) == AsQuoted ==> s[|s| - 1] == '"')
  {
  }

  /** The facet id of a row, `'<' + id + '>'`. */
  function RowId(row: Row): FacetId {
    "<" + row.id + ">"
  }

  function RowValue(row: Row): FacetValue {
    FacetValue(ParseValue(row.value), row.facetText, Some(row.cnt))
  }

  /** `makeObject`: one row becomes a facet state with the row's single value. */
  function MakeObject(row: Row): (r: FacetState)
    ensures r.id == RowId(row) && r.values == [RowValue(row)]
  {
    FacetState(RowId(row), [RowValue(row)])
  }

  /** `mergeObjects`: appends the value carried by `second` to `first`.  It is only ever
      given an object `makeObject` made, which has exactly one value. */
  function MergeObjects(first: FacetState, second: FacetState): (r: FacetState)
    requires |second.values| == 1
    ensures r.id == first.id && |r.values| == |first.values| + 1
    ensures r.values[..|first.values|] == first.values && r.values[|first.values|] == second.values[0]
  {
    FacetState(first.id, first.values + second.values)
  }

  /*** Looking states up by id ***/

  /** `_.findIndex(results, ['id', k])`. */
  function IndexOf(results: seq<FacetState>, k: FacetId): (r: Option<nat>)
    ensures r.Some? ==> r.value < |results| && results[r.value].id == k
    ensures r.Some? ==> forall j :: 0 <= j < r.value ==> results[j].id != k
    ensures r.None? ==> forall j :: 0 <= j < |results| ==> results[j].id != k
  {
    if results == [] then None
    else if results[0].id == k then Some(0)
    else match IndexOf(results[1..], k)
      case None => None
      case Some(i) => Some(i + 1)
  }

  /** `_.find(results, ['id', k])`. */
  function FindState(results: seq<FacetState>, k: FacetId): (r: Option<FacetState>)
    ensures r.Some? ==> r.value in results && r.value.id == k
    ensures r.None? ==> forall j :: 0 <= j < |results| ==> results[j].id != k
  {
    match IndexOf(results, k)
    case None => None
    case Some(i) => Some(results[i])
  }

  lemma IndexOfUnique(results: seq<FacetState>, k: FacetId, i: nat)
    requires i < |results| && results[i].id == k
    requires forall j :: 0 <= j < i ==> results[j].id != k
    ensures IndexOf(results, k) == Some(i)
  {
  }

  lemma IndexOfAppend(results: seq<FacetState>, o: FacetState, k: FacetId)
    ensures IndexOf(results + [o], k) ==
      if IndexOf(results, k).Some? then IndexOf(results, k) else if o.id == k then Some(|results|) else None
  {
    var r := results + [o];
    match IndexOf(results, k)
    case Some(i) =>
      IndexOfUnique(r, k, i);
    case None =>
      if o.id == k {
        IndexOfUnique(r, k, |results|);
      }
  }

  /** Overwriting a state with one of the same id leaves every lookup position alone. */
  lemma IndexOfUpdate(results: seq<FacetState>, i: nat, x: FacetState, k: FacetId)
    requires i < |results| && results[i].id == x.id
    ensures IndexOf(results[i := x], k) == IndexOf(results, k)
  {
    var r := results[i := x];
    assert forall j :: 0 <= j < |results| ==> r[j].id == results[j].id;
    match IndexOf(results, k)
    case Some(n) =>
      IndexOfUnique(r, k, n);
    case None =>
  }

  /** Overwriting the state a lookup finds changes that lookup alone. */
  lemma FindStateUpdate(results: seq<FacetState>, i: nat, x: FacetState, k: FacetId)
    requires IndexOf(results, x.id) == Some(i)
    ensures FindState(results[i := x], k) == if x.id == k then Some(x) else FindState(results, k)
  {
    IndexOfUpdate(results, i, x, k);
  }

  /** No two states share an id. */
  predicate UniqueIds(results: seq<FacetState>) {
    forall i, j :: 0 <= i < j < |results| ==> results[i].id != results[j].id
  }

  /*** makeObjectList: grouping the rows by facet id ***/

  /** One step of `makeObjectList`: the row's object is merged into the state with its id,
      or appended when there is none yet. */
  function AddRow(acc: seq<FacetState>, row: Row): (r: seq<FacetState>)
    ensures |r| >= |acc|
  {
    var o := MakeObject(row);
    match IndexOf(acc, o.id)
    case None => acc + [o]
    case Some(i) => acc[i := MergeObjects(acc[i], o)]
  }

  /** The states `makeObjectList` builds from `rows`, before post-processing. */
  function Grouped(rows: seq<Row>): seq<FacetState> {
    if rows == [] then [] else AddRow(Grouped(rows[..|rows| - 1]), rows[|rows| - 1])
  }

  /** The values of the rows with facet id `k`, in row order. */
  function RowValues(rows: seq<Row>, k: FacetId): seq<FacetValue> {
    if rows == [] then []
    else RowValues(rows[..|rows| - 1], k) + (if RowId(rows[|rows| - 1]) == k then [RowValue(rows[|rows| - 1])] else [])
  }

  lemma AddRowFind(acc: seq<FacetState>, row: Row, k: FacetId)
    ensures FindState(AddRow(acc, row), k) ==
      if RowId(row) != k then FindState(acc, k)
      else match FindState(acc, k)
        case None => Some(FacetState(k, [RowValue(row)]))
        case Some(st) => Some(FacetState(k, st.values + [RowValue(row)]))
  {
    var o := MakeObject(row);
    match IndexOf(acc, o.id)
    case None =>
      IndexOfAppend(acc, o, k);
    case Some(i) =>
      FindStateUpdate(acc, i, MergeObjects(acc[i], o), k);
  }

  lemma AddRowUnique(acc: seq<FacetState>, row: Row)
    requires UniqueIds(acc)
    ensures UniqueIds(AddRow(acc, row))
  {
  }

  /** Grouping gathers, for every facet id, the values of exactly the rows with that id, in
      the order of the rows, and makes one state per id. */
  lemma {:induction false} GroupedValues(rows: seq<Row>, k: FacetId)
    ensures FindState(Grouped(rows), k) == if RowValues(rows, k) == [] then None else Some(FacetState(k, RowValues(rows, k)))
    ensures UniqueIds(Grouped(rows))
  {
    if rows != [] {
      var init := rows[..|rows| - 1];
      GroupedValues(init, k);
      AddRowFind(Grouped(init), rows[|rows| - 1], k);
      AddRowUnique(Grouped(init), rows[|rows| - 1]);
      var last := rows[|rows| - 1];
      if RowId(last) == k {
        assert RowValues(rows, k) == RowValues(init, k) + [RowValue(last)];
        if RowValues(init, k) == [] {
          assert RowValues(rows, k) == [RowValue(last)];
        }
      } else {
        assert RowValues(rows, k) == RowValues(init, k) + [] == RowValues(init, k);
      }
    }
  }

  /*** postProcess: the "no selection" value first ***/

  /** `_.findIndex(values, v => v.value === undefined)`. */
  function FirstUndef(values: seq<FacetValue>): (r: Option<nat>)
    ensures r.Some? ==> r.value < |values| && values[r.value].value == Undef
    ensures r.Some? ==> forall j :: 0 <= j < r.value ==> values[j].value != Undef
    ensures r.None? ==> forall j :: 0 <= j < |values| ==> values[j].value != Undef
  {
    if values == [] then None
    else if values[0].value == Undef then Some(0)
    else match FirstUndef(values[1..])
      case None => None
      case Some(i) => Some(i + 1)
  }

  predicate HasUndef(values: seq<FacetValue>) {
    exists j :: 0 <= j < |values| && values[j].value == Undef
  }

  /** The "no selection" value, if there is one, comes first. */
  predicate NoSelectionFirst(values: seq<FacetValue>) {
    HasUndef(values) ==> values[0].value == Undef
  }

  /** What `postProcess` makes of one value list: the first value without a `value` is
      pulled out and put in front. */
  function MoveNoSelectionFirst(values: seq<FacetValue>): seq<FacetValue> {
    match FirstUndef(values)
    case None => values
    case Some(i) => [values[i]] + (values[..i] + values[i + 1..])
  }

  /** The values without a `value`-less entry, in order. */
  function Defined(values: seq<FacetValue>): seq<FacetValue> {
    if values == [] then []
    else (if values[0].value == Undef then [] else [values[0]]) + Defined(values[1..])
  }

  lemma {:induction false} DefinedConcat(a: seq<FacetValue>, b: seq<FacetValue>)
    ensures Defined(a + b) == Defined(a) + Defined(b)
  {
    if a == [] {
      assert a + b == b;
    } else {
      assert (a + b)[0] == a[0] && (a + b)[1..] == a[1..] + b;
      DefinedConcat(a[1..], b);
    }
  }

  /** The moved list is a permutation of the input, and is the input itself when there is
      no "no selection" value. */
  lemma MoveNoSelectionFirstPermutes(values: seq<FacetValue>)
    ensures multiset(MoveNoSelectionFirst(values)) == multiset(values)
    ensures !HasUndef(values) ==> MoveNoSelectionFirst(values) == values
  {
    match FirstUndef(values)
    case None =>
    case Some(i) =>
      assert values == values[..i] + [values[i]] + values[i + 1..];
  }

  /** The moved list starts with a "no selection" value when the input has one, and only
      then, and is otherwise the input with that one value taken out, so every other value
      keeps its place relative to the others. */
  lemma MoveNoSelectionFirstFront(values: seq<FacetValue>)
    ensures HasUndef(values) <==> |MoveNoSelectionFirst(values)| > 0 && MoveNoSelectionFirst(values)[0].value == Undef
    ensures NoSelectionFirst(MoveNoSelectionFirst(values))
    ensures HasUndef(values) ==>
      (exists i :: 0 <= i < |values| && values[i].value == Undef && MoveNoSelectionFirst(values)[1..] == values[..i] + values[i + 1..])
  {
    var r := MoveNoSelectionFirst(values);
    match FirstUndef(values)
    case None =>
    case Some(i) =>
      assert r[1..] == values[..i] + values[i + 1..];
      assert r[0].value == Undef;
  }

  /** The values that have a `value` keep their order exactly. */
  lemma MoveNoSelectionFirstDefined(values: seq<FacetValue>)
    ensures Defined(MoveNoSelectionFirst(values)) == Defined(values)
  {
    match FirstUndef(values)
    case None =>
    case Some(i) =>
      assert values == values[..i] + [values[i]] + values[i + 1..];
      DefinedConcat(values[..i] + [values[i]], values[i + 1..]);
      DefinedConcat(values[..i], [values[i]]);
      DefinedConcat([values[i]], values[..i] + values[i + 1..]);
      DefinedConcat(values[..i], values[i + 1..]);
      assert Defined([values[i]]) == [];
  }

  /** Post-processing a second time changes nothing. */
  lemma MoveNoSelectionFirstIdempotent(values: seq<FacetValue>)
    ensures MoveNoSelectionFirst(MoveNoSelectionFirst(values)) == MoveNoSelectionFirst(values)
  {
    var r := MoveNoSelectionFirst(values);
    MoveNoSelectionFirstFront(values);
    if HasUndef(values) {
      assert FirstUndef(r) == Some(0);
      assert [r[0]] + (r[..0] + r[1..]) == r;
    }
  }

  /** `postProcess`, as a function of the states. */
  function PostProcessed(objs: seq<FacetState>): (r: seq<FacetState>)
    ensures |r| == |objs|
    ensures forall i :: 0 <= i < |objs| ==> r[i] == FacetState(objs[i].id, MoveNoSelectionFirst(objs[i].values))
  {
    if objs == [] then []
    else [FacetState(objs[0].id, MoveNoSelectionFirst(objs[0].values))] + PostProcessed(objs[1..])
  }

  /** `postProcess`: rewrites the value list of every state in place. */
  method PostProcess(objs: seq<FacetState>) returns (r: seq<FacetState>)
    ensures r == PostProcessed(objs)
    ensures forall i :: 0 <= i < |r| ==>
      (r[i].id == objs[i].id && NoSelectionFirst(r[i].values) && multiset(r[i].values) == multiset(objs[i].values))
  {
    r := objs;
    var i := 0;
    while i < |r|
      invariant 0 <= i <= |r| == |objs|
      invariant forall j :: 0 <= j < i ==> r[j] == FacetState(objs[j].id, MoveNoSelectionFirst(objs[j].values))
      invariant forall j :: i <= j < |r| ==> r[j] == objs[j]
    {
      var values := r[i].values;
      var noSelectionIndex := FirstUndef(values);
      if noSelectionIndex.Some? {
        var k := noSelectionIndex.value;
        var noSel := [values[k]];
        values := values[..k] + values[k + 1..];
        r := r[i := FacetState(r[i].id, noSel + values)];
      }
      i := i + 1;
    }
    forall j | 0 <= j < |r|
      ensures NoSelectionFirst(r[j].values) && multiset(r[j].values) == multiset(objs[j].values)
    {
      MoveNoSelectionFirstPermutes(objs[j].values);
      MoveNoSelectionFirstFront(objs[j].values);
    }
  }

  lemma IndexOfPostProcessed(objs: seq<FacetState>, k: FacetId)
    ensures IndexOf(PostProcessed(objs), k) == IndexOf(objs, k)
  {
    match IndexOf(objs, k)
    case Some(n) =>
      IndexOfUnique(PostProcessed(objs), k, n);
    case None =>
  }

  /** `makeObjectList`: the states of the rows, grouped by facet id and post-processed. */
  function MakeObjectList(rows: seq<Row>): seq<FacetState> {
    PostProcessed(Grouped(rows))
  }

  /** The state of facet `k` holds the values of the rows with that id, "no selection" value
      first and every value of those rows exactly once; there is one state per id. */
  lemma MakeObjectListStates(rows: seq<Row>, k: FacetId)
    ensures FindState(MakeObjectList(rows), k) ==
      if RowValues(rows, k) == [] then None else Some(FacetState(k, MoveNoSelectionFirst(RowValues(rows, k))))
    ensures UniqueIds(MakeObjectList(rows))
    ensures forall i :: 0 <= i < |MakeObjectList(rows)| ==> NoSelectionFirst(MakeObjectList(rows)[i].values)
  {
    GroupedValues(rows, k);
    IndexOfPostProcessed(Grouped(rows), k);
    var r := MakeObjectList(rows);
    assert UniqueIds(r) by {
      forall i, j | 0 <= i < j < |r| ensures r[i].id != r[j].id {
        assert r[i].id == Grouped(rows)[i].id && r[j].id == Grouped(rows)[j].id;
      }
    }
    forall i | 0 <= i < |r| ensures NoSelectionFirst(r[i].values) {
      MoveNoSelectionFirstFront(Grouped(rows)[i].values);
    }
  }
}
