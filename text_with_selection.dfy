/** The `textWithSelection` filter: the values of a facet's option list whose text contains
    the search text, plus the values the user has selected, plus any value that is
    `undefined` (the "no selection" option). */
module TextFilter {
  import opened Objects
  import opened Strings
  import opened FacetData
  import opened FacetQuery

  /** An entry of the filter's `selectedValues` array: a facet value, or a whole selection
      object, which is what the filter puts there for a selection that is not an array. */
  datatype Candidate = Value(v: Val) | Whole(sel: Selection)

  /** `_.includes(selectedValues, val.value)` for one entry: a whole selection object equals
      no value, except that an `undefined` selection is `undefined`. */
  predicate Matches(c: Candidate, v: Val) {
    match c
    case Value(x) => x == v
    case Whole(sel) => sel.Absent? && v == Undef
  }

  predicate Included(cs: seq<Candidate>, v: Val) {
    exists i :: 0 <= i < |cs| && Matches(cs[i], v)
  }

  /** `selectedValues.push(undefined)` unless an entry is already `undefined`. */
  function WithUndefined(cs: seq<Candidate>): (r: seq<Candidate>)
    ensures Included(r, Undef)
    ensures forall v :: v != Undef ==> (Included(r, v) <==> Included(cs, v))
  {
    if Included(cs, Undef) then cs
    else
      IncludedSnoc(cs, Value(Undef));
      cs + [Value(Undef)]
  }

  lemma IncludedSnoc(cs: seq<Candidate>, c: Candidate)
    ensures forall v :: Included(cs + [c], v) <==> Included(cs, v) || Matches(c, v)
  {
    forall v ensures Included(cs + [c], v) <==> Included(cs, v) || Matches(c, v) {
      if Included(cs + [c], v) {
        var i :| 0 <= i < |cs + [c]| && Matches((cs + [c])[i], v);
        if i < |cs| {
          assert (cs + [c])[i] == cs[i];
        }
      }
      if Included(cs, v) {
        var i :| 0 <= i < |cs| && Matches(cs[i], v);
        assert (cs + [c])[i] == cs[i];
      }
      assert (cs + [c])[|cs|] == c;
    }
  }

  /** The values of `values` that the filter keeps, in their order. */
  function KeepMatching(values: seq<FacetValue>, text: string, cs: seq<Candidate>): (r: seq<FacetValue>)
    ensures |r| <= |values|
    ensures forall x :: x in r <==> x in values && (Contains(Lower(x.text), Lower(text)) || Included(cs, x.value))
  {
    if values == [] then []
    else
      var x := values[0];
      var rest := KeepMatching(values[1..], text, cs);
      assert forall y :: y in values <==> y == x || y in values[1..];
      if Contains(Lower(x.text), Lower(text)) || Included(cs, x.value) then [x] + rest else rest
  }

  /** Keeping is done value by value: the filter of a concatenation is the concatenation of
      the filters, so the kept values keep their relative order. */
  lemma {:induction false} KeepMatchingConcat(a: seq<FacetValue>, b: seq<FacetValue>, text: string, cs: seq<Candidate>)
    ensures KeepMatching(a + b, text, cs) == KeepMatching(a, text, cs) + KeepMatching(b, text, cs)
  {
    if a == [] {
      assert a + b == b;
    } else {
      assert (a + b)[0] == a[0];
      assert (a + b)[1..] == a[1..] + b;
      KeepMatchingConcat(a[1..], b, text, cs);
    }
  }

  /** The entries the filter as written compares values with: the `value`s of an array
      selection, otherwise the selection object itself. */
  function AsWrittenCandidates(sel: Selection): seq<Candidate> {
    match sel
    case Many(items) => Lift(Values(items))
    case _ => [Whole(sel)]
  }

  function Lift(vs: seq<Val>): (r: seq<Candidate>)
    ensures |r| == |vs| && forall i :: 0 <= i < |vs| ==> r[i] == Value(vs[i])
  {
    if vs == [] then [] else [Value(vs[0])] + Lift(vs[1..])
  }

  /** The filter as written. */
  function TextWithSelectionAsWritten(values: seq<FacetValue>, text: string, sel: Selection): seq<FacetValue> {
    if text == "" then values else KeepMatching(values, text, WithUndefined(AsWrittenCandidates(sel)))
  }

  /** As written, a selected single value whose text does not contain the search text is
      dropped from the list, so the select box loses its own selection. */
  lemma AsWrittenDropsSelection()
    ensures var item := FacetValue(Str("<a>"), "Alpha", Some(3));
      TextWithSelectionAsWritten([item], "zzz", One(item)) == []
  {
    var item := FacetValue(Str("<a>"), "Alpha", Some(3));
    var cs := WithUndefined(AsWrittenCandidates(One(item)));
    assert !Included(cs, item.value);
    NoZInAlpha();
    assert KeepMatching([item], "zzz", cs) == [];
  }

  /** The corrected filter keeps that selection. */
  lemma CorrectedKeepsSelection()
    ensures var item := FacetValue(Str("<a>"), "Alpha", Some(3));
      TextWithSelection([item], "zzz", One(item)) == [item]
  {
    var item := FacetValue(Str("<a>"), "Alpha", Some(3));
    SelectionKept([item], "zzz", One(item));
    var fixed := TextWithSelection([item], "zzz", One(item));
    assert item in fixed && |fixed| <= 1;
    assert fixed == [fixed[0]];
  }

  lemma NoZInAlpha()
    ensures !Contains(Lower("Alpha"), Lower("zzz"))
  {
    assert Lower("zzz")[0] == 'z';
    assert Lower("Alpha") == "alpha";
    assert 'z' !in "alpha";
    ContainsFirst("alpha", Lower("zzz"));
  }

  /** A text that contains `sub` contains its first character. */
  lemma {:induction false} ContainsFirst(s: string, sub: string)
    requires sub != []
    ensures Contains(s, sub) ==> sub[0] in s
  {
    if Contains(s, sub) && !(sub <= s) {
      ContainsFirst(s[1..], sub);
      assert s[1..] <= s[1..] && forall c :: c in s[1..] ==> c in s;
    }
  }

  /** The entries the filter evidently means: the `value`s of all selected values. */
  function Candidates(sel: Selection): seq<Candidate> {
    Lift(SelectedValues(sel))
  }

  /** `textWithSelection` with the selected value of a single selection compared by its
      `value`, as for an array selection. */
  function TextWithSelection(values: seq<FacetValue>, text: string, sel: Selection): seq<FacetValue> {
    if text == "" then values else KeepMatching(values, text, WithUndefined(Candidates(sel)))
  }

  /** An empty search text keeps the whole list. */
  lemma EmptyTextKeepsAll(values: seq<FacetValue>, sel: Selection)
    ensures TextWithSelection(values, "", sel) == values
  {
  }

  /** With a search text, a value stays exactly when its text contains the search text
      (ignoring the case of ASCII letters), when it is selected, or when it is `undefined`. */
  lemma {:induction false} TextWithSelectionKeeps(values: seq<FacetValue>, text: string, sel: Selection)
    requires text != ""
    ensures forall x :: x in TextWithSelection(values, text, sel) <==>
      x in values && (Contains(Lower(x.text), Lower(text)) || x.value in SelectedValues(sel) || x.value == Undef)
  {
    var cs := Candidates(sel);
    forall v ensures Included(WithUndefined(cs), v) <==> v in SelectedValues(sel) || v == Undef {
      if v != Undef {
        if v in SelectedValues(sel) {
          var i :| 0 <= i < |SelectedValues(sel)| && SelectedValues(sel)[i] == v;
          assert Matches(cs[i], v);
        }
      }
    }
  }

  /** Every value the user selected stays in the list, whatever the search text. */
  lemma {:induction false} SelectionKept(values: seq<FacetValue>, text: string, sel: Selection)
    ensures forall x :: x in values && x.value in SelectedValues(sel) ==> x in TextWithSelection(values, text, sel)
  {
    if text != "" {
      TextWithSelectionKeeps(values, text, sel);
    }
  }

  /** The two filters agree on array selections; the fix changes only single selections. */
  lemma {:induction false} SameForArrays(values: seq<FacetValue>, text: string, items: seq<FacetValue>)
    ensures TextWithSelection(values, text, Many(items)) == TextWithSelectionAsWritten(values, text, Many(items))
  {
  }
}
