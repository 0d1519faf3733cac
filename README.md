# Semantic faceted search: a Dafny model of the facet engine

This project models the engine of the semantic faceted-search widget library: the part
that turns the user's facet selections into the pieces of a SPARQL query, and turns the
endpoint's answer back into the facets' option lists. The model covers four parts:

- **Selection formatter** (`SelectionFormatter`). It orders the selections: hierarchy
  facets first, then the other facets, text facets last, each group sorted by count. It
  skips selections without a value. It then produces each facet's graph-pattern fragments
  (basic triples, a hierarchy chain, text `CONTAINS` filters, time-span start and end
  filters). Fragments are abstract terms, not SPARQL text.
- **Facet mapper** (`FacetMapper`). It parses an RDF term of a result row into a value
  (`<iri>`, a bare integer, a typed date, a quoted literal, or `undefined`). It groups rows
  into one state per facet. It moves the "no selection" value to the front of each list.
- **Facet handler** (`Handler`, with `FacetQuery` and `FacetResults`). The class
  `Handler.FacetHandler` holds the enabled and disabled facets, the selected values, the
  private previous selections and the default count key. Its methods handle a facet
  change, `update`, `enableFacet` and `disableFacet`. Each method is proved equal to a step
  function over `HandlerState`. The step function returns the new state and an `Outcome`
  that stands for the promise the source returns. The endpoint is modelled by its answer
  `rows`, so `update` is one step that builds the query, parses the rows and stores the
  states. `FacetQuery` builds the query parts: selection filters, hierarchy unions,
  service unions, count unions, template facets and the default count key. `FacetResults`
  parses the results: the result count and the "no selection" values.
- **The `textWithSelection` filter** (`TextFilter`). It keeps the values of a facet's
  option list that match a search text, plus the selected ones.

JavaScript objects are modelled as sequences of key/value entries (`Objects.Dict`)
because the engine relies on their key order. For example, the first basic facet becomes
the default count key, and `_.forOwn` builds lists in that order.

All paths below are in `dist/semantic-faceted-search.js`.

## Model

| member | source | states |
|---|---|---|
| FacetMapper.ParseValue | dist/semantic-faceted-search.js:203-217 | A missing term gives `undefined`. An IRI gives `<iri>`. An integer literal gives its bare lexical form. A date literal gives a typed `xsd:date` literal. Any other term gives a quoted string. |
| FacetMapper.ParseValueInjective | dist/semantic-faceted-search.js:203-217 | Two terms of the same kind parse to the same value exactly when their lexical values are equal. |
| FacetMapper.DateInjective | dist/semantic-faceted-search.js:213-214 | Two date literals with the same parsed value have the same lexical value. |
| FacetMapper.ParseValueDelimiters | dist/semantic-faceted-search.js:207-216 | IRIs come out in angle brackets. Dates and other literals start with a double quote, and plain literals also end with one. |
| FacetMapper.MakeObject | dist/semantic-faceted-search.js:170-182 | A row becomes a state whose id is the row's `<id>` and whose only value is the row's parsed value, text and count. |
| FacetMapper.MergeObjects | dist/semantic-faceted-search.js:184-187 | Merging keeps the first state's id and values and appends the second state's only value. |
| FacetMapper.GroupedValues | dist/semantic-faceted-search.js:170-187 | Grouping rows gives one state per id. That state holds the values of that id's rows in row order, and an id without rows has no state. |
| FacetMapper.PostProcess | dist/semantic-faceted-search.js:189-201 | Every state keeps its id. Its values are permuted so that the first `undefined` value, if any, stands in front. |
| FacetMapper.MoveNoSelectionFirstPermutes | dist/semantic-faceted-search.js:191-197 | Moving the no-selection value is a permutation, and a list without `undefined` is left as it is. |
| FacetMapper.MoveNoSelectionFirstFront | dist/semantic-faceted-search.js:191-197 | The result starts with `undefined` exactly when the list holds one. The rest is the list with that one entry pulled out. |
| FacetMapper.MoveNoSelectionFirstDefined | dist/semantic-faceted-search.js:191-197 | The defined values keep their relative order. |
| FacetMapper.MoveNoSelectionFirstIdempotent | dist/semantic-faceted-search.js:189-201 | Post-processing a second time changes nothing. |
| FacetMapper.IndexOfPostProcessed | dist/semantic-faceted-search.js:189-201 | Post-processing does not move any state in the list. |
| FacetMapper.MakeObjectListStates | dist/semantic-faceted-search.js:156-201 | The mapped result list has one state per id. Each state holds its rows' values with the no-selection value first. |
| SelectionFormatter.SortByCountSorts | dist/semantic-faceted-search.js:264-266 | The selections sorted by count are ordered by count, with a missing count last, and are a permutation of the input. |
| SelectionFormatter.SortByCountStable | dist/semantic-faceted-search.js:264-266 | The sort is stable: selections with equal counts keep their input order. |
| SelectionFormatter.GroupSelections | dist/semantic-faceted-search.js:268-276 | The hierarchy, other and text lists are the sorted selections of each group, in sorted order. |
| SelectionFormatter.OrderedGroups | dist/semantic-faceted-search.js:264-278 | The ordered list is a permutation of the selections. Hierarchy facets come before the others and text facets come last. Within each group the order is the sort by count. |
| SelectionFormatter.OrderedMembers | dist/semantic-faceted-search.js:264-278 | Ordering neither adds nor drops selections, and it keeps them fit for formatting. |
| SelectionFormatter.OrderedGroup | dist/semantic-faceted-search.js:268-278 | The members of one group in the ordered list are that group's selections sorted by count. |
| SelectionFormatter.OrderedRanks | dist/semantic-faceted-search.js:278 | Positions run through the hierarchy group, then the other group, then the text group, with group sizes as in the sorted list. |
| SelectionFormatter.FormatIgnoresSkipped | dist/semantic-faceted-search.js:283-291 | The formatted query equals the formatted query of only the selections that have a value. |
| SelectionFormatter.SkippedSelectionAddsNothing | dist/semantic-faceted-search.js:283-291 | Inserting a selection without a value anywhere leaves the formatted query unchanged. It does not advance the variable counter. |
| SelectionFormatter.OrderedEffective | dist/semantic-faceted-search.js:264-291 | Dropping skipped selections commutes with the ordering. |
| SelectionFormatter.ParseFacetSelections | dist/semantic-faceted-search.js:258-310 | The method's result is the formatted query of the selections. |
| SelectionFormatter.FormatAll | dist/semantic-faceted-search.js:280-309 | The loop concatenates each selection's fragments. Only text and hierarchy facets advance the counter `i`. |
| SelectionFormatter.FormatEntry | dist/semantic-faceted-search.js:283-307 | One selection contributes nothing when it is skipped. Otherwise it contributes its facet type's fragments, and the counter advances for text and hierarchy facets. |
| SelectionFormatter.ParseEntry | dist/semantic-faceted-search.js:293-307 | Dispatch on the facet type: time span, text, hierarchy, or basic otherwise. |
| SelectionFormatter.ParseBasicFacet | dist/semantic-faceted-search.js:328-337 | The method's result is the basic fragments of the selection. |
| SelectionFormatter.BasicTriplesValues | dist/semantic-faceted-search.js:328-337 | A basic facet yields one triple `?s key value` per selected value, in order. |
| SelectionFormatter.ParseHierarchyFacet | dist/semantic-faceted-search.js:312-326 | The method's result is the hierarchy chain of the selection. |
| SelectionFormatter.HierarchyChainLinks | dist/semantic-faceted-search.js:316-321 | Value `j` yields the pair `?h… prop value` and `?s key ?h…`, with the variable `H(i, k+j)`. |
| SelectionFormatter.HierarchyChainValues | dist/semantic-faceted-search.js:316-324 | The values in the hierarchy chain are exactly the selected values, in order. |
| SelectionFormatter.HierVarsDistinct | dist/semantic-faceted-search.js:314-320 | Different facet counters or positions give different hierarchy variables. |
| SelectionFormatter.ParseTextFacet | dist/semantic-faceted-search.js:339-351 | The method's result is the text fragments of the selection. |
| SelectionFormatter.TextFragmentsShape | dist/semantic-faceted-search.js:339-351 | A text facet yields one triple binding `?text{i}`, then one lower-cased `CONTAINS` filter per word. |
| SelectionFormatter.WordFiltersShape | dist/semantic-faceted-search.js:347-348 | There is one filter per word, in order, on the word lower-cased. |
| SelectionFormatter.SearchWordsFaithful | dist/semantic-faceted-search.js:343-345 | Joined with spaces, the search words give back the stripped text. No word holds a space or a stripped character. |
| SelectionFormatter.TimeSpanOrder | dist/semantic-faceted-search.js:353-392 | Each date filter comes right after the triple that binds its variable, when the facet has one. The start filter comes before the end filter. |
| SelectionFormatter.TimeSpanFilters | dist/semantic-faceted-search.js:367-390 | A start filter appears exactly when a start date is given, and an end filter exactly when an end date is given. The end filter compares `?start` when both bounds share one property. |
| SelectionFormatter.TimeSpanTriples | dist/semantic-faceted-search.js:358-390 | The resource triple appears exactly for resource time spans. Start and end triples have the time-span subject and appear exactly when their bound does. |
| SelectionFormatter.TimeSpanEndOnlySameProperty | dist/semantic-faceted-search.js:364-386 | With shared start and end properties and only an end date, the end filter tests `?start`, and no triple binds it. |
| Strings.JoinSplit | dist/semantic-faceted-search.js:345 | Splitting on a separator and joining with it gives back the text. |
| Strings.SplitJoin | dist/semantic-faceted-search.js:345 | Splitting a join of separator-free words gives back the words. |
| Strings.StripRemovesAll | dist/semantic-faceted-search.js:343 | After stripping, none of `? , . _ * ' \ / -` is left. |
| Strings.StripKeepsOthers | dist/semantic-faceted-search.js:343 | Stripping leaves alone a text without those characters. |
| Strings.SplitWordsFromText | dist/semantic-faceted-search.js:345 | Every character of every word occurs in the text. |
| FacetQuery.DefaultCountKey | dist/semantic-faceted-search.js:785-793 | The key is the first basic facet, or the first facet when there is no basic one. There is no key exactly when no facet is enabled. |
| FacetQuery.TemplateFacets | dist/semantic-faceted-search.js:1037-1045 | The template facets are exactly the facets that are neither text nor hierarchy facets. |
| FacetQuery.TemplateFacetsConcat | dist/semantic-faceted-search.js:1037-1045 | The template facets of two lists joined are those of the first, then those of the second, so the facets keep their order. |
| FacetQuery.TextFacetIds | dist/semantic-faceted-search.js:801-806 | The text facets in the query are exactly the text facets with a truthy value. |
| FacetQuery.TextFacetIdsConcat | dist/semantic-faceted-search.js:801-806 | The text facets of two lists joined are those of the first, then those of the second, so they keep their selection order. |
| FacetQuery.SelectionFilters | dist/semantic-faceted-search.js:825-845 | The selection filters are exactly the truthy selected values of the basic facets. |
| FacetQuery.SelectionFiltersConcat | dist/semantic-faceted-search.js:825-845 | The filters of two lists joined are those of the first, then those of the second, so they keep their selection order. |
| FacetQuery.HierarchyClassesChosen | dist/semantic-faceted-search.js:888-903 | A hierarchy facet's classes are its truthy selected values when it has one. Otherwise they are its configured classes. |
| FacetQuery.RejectHierarchies | dist/semantic-faceted-search.js:905-909 | Exactly the selections of facets that are not hierarchy facets are kept. |
| FacetQuery.RejectHierarchiesOrder | dist/semantic-faceted-search.js:905-909 | Without hierarchy facets, the formatter orders the other facets first and then the text facets, each sorted by count. |
| FacetQuery.HierarchyUnions | dist/semantic-faceted-search.js:871-886 | There is one union per hierarchy facet. Each is constrained by the formatted selections of the facets that are not hierarchy facets. |
| FacetQuery.HierarchyUnionsShareConstraint | dist/semantic-faceted-search.js:798-821 | In the built query, every hierarchy union carries the formatted selections of the facets that are not hierarchy facets. Those come in the formatter's own order. |
| FacetQuery.ServiceUnionsOf | dist/semantic-faceted-search.js:847-869 | The label union is added exactly when some facet has a non-empty service, that is exactly when there is a service union. |
| FacetQuery.Services | dist/semantic-faceted-search.js:847-869 | The service list pairs exactly the facets whose service is a non-empty string with that service. A missing or empty service adds no union. |
| FacetQuery.CountSelections | dist/semantic-faceted-search.js:952-964 | The count list holds every actual selection. It also holds the default count key, which is added without a value when it is not selected. |
| FacetQuery.ActualSelections | dist/semantic-faceted-search.js:952-959 | The actual selections are those with a value. The flag is set exactly when the default count key is among them. |
| FacetQuery.BuildCountUnions | dist/semantic-faceted-search.js:947-991 | The method's deselections and time-span branches are those of the count unions. |
| FacetQuery.CountUnionsFor | dist/semantic-faceted-search.js:965-989 | The loop builds one deselection per count selection and one branch per set time-span selection. |
| FacetQuery.UnionsOfEntry | dist/semantic-faceted-search.js:970-988 | One entry gives its deselection, the other set selections, and its time-span branch. |
| FacetQuery.OthersAndSelect | dist/semantic-faceted-search.js:970-979 | The inner loop collects every other set selection and finds the entry's own set time-span selection. |
| FacetQuery.OthersOf | dist/semantic-faceted-search.js:970-979 | The others are exactly the set selections of the other facets. |
| FacetQuery.CountDeselections | dist/semantic-faceted-search.js:947-991 | Count selection `i` gets a deselection that formats all the other set selections, and the default count key always has one. |
| FacetQuery.CountBranchesSpec | dist/semantic-faceted-search.js:982-988 | There is a time-span branch exactly for each set time-span selection in the count list. |
| FacetResults.NoSelectionCount | dist/semantic-faceted-search.js:710-720 | A non-zero count is the count of a value in the default count key's state that equals the key's selected value. |
| FacetResults.NoSelectionCountFirstMatch | dist/semantic-faceted-search.js:710-720 | The count is that of the first value in the default count key's state that equals the key's selected value. A missing count reads as 0. |
| FacetResults.NoSelectionCountNoMatch | dist/semantic-faceted-search.js:710-720 | The count is 0 when there is no default count key, no state for it, or no value equal to its selected value. |
| FacetResults.NoSelectionCountUnselected | dist/semantic-faceted-search.js:710-720 | When the default count key has no selection, the count is that of its leading no-selection value, or 0. |
| FacetResults.FreeFacetCount | dist/semantic-faceted-search.js:1024-1034 | There is no count, because the source throws a `TypeError`, exactly when the facet is not set or it has a truthy value but no state. A falsy value gives the no-selection count. A truthy value gives the sum of the selected values' counts. |
| FacetResults.SumSelectedCountsMoved | dist/semantic-faceted-search.js:1024-1034 | The sum of counts does not depend on where the no-selection value stands. |
| FacetResults.SetNotSelectionValues | dist/semantic-faceted-search.js:723-739 | The loop gives every enabled facet a state that holds a no-selection value with the result count. A missing state is created, and an existing no-selection value is kept. |
| FacetResults.ReconcileStates | dist/semantic-faceted-search.js:723-739 | Afterwards each enabled facet's state is its old state reconciled, and every other state is unchanged. Each enabled facet has a no-selection value. |
| FacetResults.ReconciledIdempotent | dist/semantic-faceted-search.js:723-739 | Reconciling twice is reconciling once. |
| FacetResults.ReconcileShape | dist/semantic-faceted-search.js:723-739 | Reconciling keeps one state per id and the no-selection value in front. |
| FacetResults.ParseResultsStates | dist/semantic-faceted-search.js:683-708 | Parsing fails exactly when a free facet's count cannot be read. Otherwise every enabled facet's state is its rows' values with a no-selection value in front carrying the result count, and every other state is as mapped. |
| Handler.HasSameValue | dist/semantic-faceted-search.js:1004-1022 | Two selections have the same value exactly when their keys agree: both unset, both `null`, both with the same value, or both arrays of the same values. |
| Handler.HasSameValueEquivalence | dist/semantic-faceted-search.js:1004-1022 | Having the same value is reflexive, symmetric and transitive. |
| Handler.HasSameValueIgnoresLabels | dist/semantic-faceted-search.js:1004-1022 | Texts and counts play no part, only the values do. |
| Handler.HasChanged | dist/semantic-faceted-search.js:996-1001 | A facet has changed exactly when its selection does not have the same value as its previous selection. |
| Handler.UpdateStep | dist/semantic-faceted-search.js:578-590 | Update changes only the enabled facets' states and keeps the handler coherent. With no facet enabled it resolves with `{}`. It is rejected only for a free facet whose count cannot be read. When it succeeds, every enabled facet gets its own listed state. |
| Handler.Stored | dist/semantic-faceted-search.js:584-587 | Storing states changes only the enabled facets' states and never their keys or definitions. |
| Handler.FacetHandler.StoreStates | dist/semantic-faceted-search.js:584-587 | The loop sets each enabled facet's state to the one with its id and leaves the rest of the handler as it was. |
| Handler.FacetHandler.Update | dist/semantic-faceted-search.js:578-590 | The method's new state and outcome are those of the update step. |
| Handler.FacetHandler.FacetChanged | dist/semantic-faceted-search.js:593-607 | The method's new state and outcome are those of the change step. An unchanged selection resolves with the enabled facets, and an unknown id throws. |
| Handler.FacetChangedStep | dist/semantic-faceted-search.js:593-607 | A change keeps the handler coherent. |
| Handler.FacetHandler.TimeSpanFacetChanged | dist/semantic-faceted-search.js:631-643 | The method's new state and outcome are those of the time-span change step. |
| Handler.TimeSpanChangeNotRecorded | dist/semantic-faceted-search.js:631-643 | A time-span change never records the previous selection. A half-set range resolves with nothing, and a complete changed range updates. A changed selection that is `undefined` or `null` resolves with the facets and leaves the state as it was. |
| Handler.FacetHandler.TextFacetChanged | dist/semantic-faceted-search.js:645-648 | The method's new state and outcome are those of the text change step. |
| Handler.FacetHandler.BasicFacetChanged | dist/semantic-faceted-search.js:650-669 | The method's new state and outcome are those of the basic change step. |
| Handler.ChangeRecorded | dist/semantic-faceted-search.js:645-669 | After a text or basic change to a non-null selection, the selection is recorded. Nothing throws or is repaired, and the same selection then reports no change. |
| Handler.FacetHandler.RestoreSelection | dist/semantic-faceted-search.js:653-666 | The method's new state and outcome are those of the restore step. |
| Handler.FacetHandler.ZeroPreviousCount | dist/semantic-faceted-search.js:657-662 | The repaired previous selection has its first count set to 0. For an array the zeroed entry is shared with `previousSelections`. |
| Handler.RepairOf | dist/semantic-faceted-search.js:657-664 | A repair restores a selection with the same value and appends its values, the first with count 0. |
| Handler.NullSelectionRepaired | dist/semantic-faceted-search.js:650-666 | A `null` basic selection is never queried. Without a previous selection the step resolves with the enabled facets. With one, the selection comes back, its values are appended to the state with count 0, and the next check reports no change. The step throws when the previous selection is an empty array or the facet has no state. |
| Handler.FacetHandler.EnableFacet | dist/semantic-faceted-search.js:617-626 | The method's new state and outcome are those of the enable step. |
| Handler.EnableStep | dist/semantic-faceted-search.js:617-626 | The facet moves from disabled to the end of the enabled facets, with its definition. Selections are untouched, and the step updates unless the facet is free. |
| Handler.FacetHandler.DisableFacet | dist/semantic-faceted-search.js:609-615 | The method's new state and outcome are those of the disable step. |
| Handler.DisableStep | dist/semantic-faceted-search.js:609-615 | The facet moves to disabled with its state and its selection is deleted. Its previous selection is kept, the other facets keep their definitions, and an update follows. |
| Handler.DisableThenEnable | dist/semantic-faceted-search.js:609-626 | Disabling and then enabling a facet brings back its definition, at the end of the enabled facets. Its selection does not come back. |
| Handler.FacetHandler.constructor | dist/semantic-faceted-search.js:448-456 | A new handler is in its initial state, and that state is coherent. |
| Handler.FacetHandler.SetSelection | dist/semantic-faceted-search.js:593-594 | A selection written by the user interface changes only that facet's selection. |
| Handler.ParseInitialValues | dist/semantic-faceted-search.js:752-769 | The initial values kept are exactly those of setup facets. |
| Handler.InitialValues | dist/semantic-faceted-search.js:752-769 | The initial values kept are exactly those of setup facets, with unique keys. |
| Handler.InitPreviousSelections | dist/semantic-faceted-search.js:743-750 | Every enabled facet gets its initial value as its selection, in enabled order. |
| Handler.PickIds | dist/semantic-faceted-search.js:771-779 | Picking gives the named facets in the given order, with no state. |
| Handler.PickEnabled | dist/semantic-faceted-search.js:771-779 | Picking keeps exactly the facets marked `enabled`, with no state. |
| Handler.OmitIds | dist/semantic-faceted-search.js:781-783 | Omitting keeps exactly the setup facets that are not enabled, with no state. |
| Handler.InitialShape | dist/semantic-faceted-search.js:771-779 | The enabled facets are those with an initial value, in that order. When no facet has one, they are those marked `enabled`. |
| Handler.InitialSelected | dist/semantic-faceted-search.js:448-456 | Each enabled facet starts with its initial value as both its selection and its previous selection. |
| Handler.InitialFacetIds | dist/semantic-faceted-search.js:448-450 | Every setup facet starts enabled or disabled, and no other facet does. |
| Handler.InitialCoherent | dist/semantic-faceted-search.js:448-456 | A new handler is coherent. |
| TextFilter.TextWithSelectionKeeps | dist/semantic-faceted-search.js:1083-1104 | With a search text, a value stays exactly when its text contains the search text, or it is selected, or it is `undefined`. Case is ignored for ASCII letters. |
| TextFilter.EmptyTextKeepsAll | dist/semantic-faceted-search.js:1085-1087 | An empty search text keeps the whole list. |
| TextFilter.SelectionKept | dist/semantic-faceted-search.js:1083-1104 | Every selected value stays in the list, whatever the search text. |
| TextFilter.KeepMatchingConcat | dist/semantic-faceted-search.js:1096-1103 | Filtering is value by value, so kept values keep their order. |
| TextFilter.SameForArrays | dist/semantic-faceted-search.js:1089-1093 | The corrected filter and the filter as written agree on array selections. |
| TextFilter.AsWrittenDropsSelection | dist/semantic-faceted-search.js:1089-1093 | As written, a single selected value whose text does not match is dropped. |
| TextFilter.CorrectedKeepsSelection | dist/semantic-faceted-search.js:1089-1093 | The corrected filter keeps that value. |

## Left out

- The AngularJS wiring is left out: the modules, the result handler and the URL-state
  service. The widgets' scopes and their model bindings are reduced to
  `FacetHandler.SetSelection`.
- The SPARQL endpoint, its promises and the `updateResults` callback are left out. An
  update is modelled as one step whose endpoint answer is the parameter `rows`. A rejected
  promise is the outcome `Rejected`. A `TypeError` thrown before the query is `Crashed`.
- The query text is modelled as abstract fragments, not strings. This covers the
  query templates, `buildQueryTemplate`, the label part and the prefixes, and how the
  parts are substituted into the template.
- `dateToISOString` is not modelled, because dates are kept as opaque strings.
- `Handler.SetupFits`: time-span initial values are taken as already parsed. The model
  leaves out `angular.fromJson` and `new Date` in `parseInitialValues`. It requires such
  a value to be a range with both bounds, because the source always builds both. An
  invalid date that `new Date` would build is not modelled.
- `FacetMapper.MakeObjectList`: `objectMapperService.makeObjectList` is not part of this
  model. It is modelled as grouping rows by id in first-seen order and then applying
  `postProcess`.
- `makeObject`: `parseInt` of the count is taken as already done, so counts are integers
  and a `NaN` count is not modelled.
- `Strings.Lower`: `toLowerCase` is modelled for ASCII letters only.
- `Strings.Strip`: the regular expression of the text facet is modelled as removing those
  nine characters one by one.
- The Jena text option of the text facet is left out, because no caller passes it.
- `SelectionFormatter.SortByCount`: lodash `sortBy` is modelled as a stable insertion
  sort by count, with a missing count last. The facet-selections object given as a first
  iteratee never matches an entry, so it does not change the order.
- `_.cloneDeep` and `_.clone` copies are modelled as values, with no aliasing. The one
  exception is the array entry that `basicFacetChanged` shares with `previousSelections`,
  which `Repair.shared` models.
- `_.includes` on a time-span selection compares objects by identity in the source. That
  comparison is not modelled.
- `TextFilter.TextWithSelection`: the filter's search text is taken as a string.
- Facet ids are never the empty string, so the falsy-id edge is not modelled.
- Values are either `undefined`, strings or time spans. Other falsy values such as `0`
  or `false` cannot occur.
- Concurrent updates and overlapping promises are not modelled. Each step runs to
  completion.
- Formatting a selection that would throw is excluded by `requires` on the formatter
  and on `BuildQuery`. Examples are a text facet whose value is not a string, or a
  selection of a facet that is not defined. The handler's own `TypeError`s are modelled
  as the outcome `Crashed`.
- `Handler.InitialSelections`: the source seeds each selection as `{ value }` with no
  `text`, and the model gives it the empty text. So the model misses what follows when
  such a selection is put back into a facet's option list by the null-selection repair.
  In the source, `textWithSelection` then throws a `TypeError` on `val.text.toLowerCase()`
  once a search text is given, and the option's label reads `undefined`. In the model the
  value just fails to match the search text.
- `FacetHandler.EnableFacet` and `FacetHandler.DisableFacet` require the facet to exist
  on the disabled and enabled side respectively, because the widgets only offer those
  ids.
- The model follows the code as written in these four behaviours, which a reader might
  expect to be otherwise:
  - the formatter does not skip a time span with only one bound; it leaves out the
    missing filter;
  - `enableFacet` does not restore the facet's selection;
  - `timeSpanFacetChanged` never records the previous selection;
  - `disableFacet` keeps the facet's previous selection.

## Findings

| source | as written | input that shows it | evidently intended | confidence | as-written member | corrected member |
|---|---|---|---|---|---|---|
| dist/semantic-faceted-search.js:1089-1093 | For a selection that is not an array, the filter compares each value with `[selection]`, the whole selection object, so it never finds a match. | Value `{value: "<a>", text: "Alpha", count: 3}`, search text `"zzz"`, and that value selected on its own: the filter returns `[]`. | Compare with `selection.value`, as for an array, so the selected value stays in the list. | not executed | TextFilter.AsWrittenDropsSelection | TextFilter.TextWithSelectionKeeps |
