# Indicator monitoring system — a verified model of the indicator engine

This project models the core of the `indicatorDataApp` Django application.
The application tracks statistical indicator variables. Each variable belongs
to a country and is kept in a three-tier tree of nodes that mirrors the
geography Country → Region → District. The model covers five parts:

- the node tree a variable owns: a National node, one Regional node per
  region and one District node per district;
- the per-tier value tables and how a value is read;
- the post-save handlers that keep the tree in step with the variable's
  aggregation level, and that seed a new country's regions;
- the evaluation of an indicator's formula over the nodes of its variables;
- the admin form that rejects variables too coarse for an indicator's level.

The modules follow the program's structure:

| module | file | models |
|---|---|---|
| `Wrappers` | wrappers.dfy | `Option` and `Result` |
| `Tables` | tables.dfy | tables as row sequences in insertion order; `filter`, `exclude`/bulk delete, `.first()` |
| `Choices` | choices.dfy | the `AggregationLevelChoice`, `ValueTypeChoice` and `CalFormatChoice` enums |
| `Reducers` | reducers.dfy | `Value.computing_funcs` / `Value.compute`: Average, Net, Mean, Median |
| `Geo` | geo.dfy | `Region`, `District` and the country's reference subdivisions |
| `Schema` | schema.dfy | the variable, node and value-row tables gathered into one snapshot `Db`, and the invariant the modelled operations establish and preserve (`DbValid`) |
| `Values` | values.dfy | `get_value_at`, `Value.value` and the three `computed_value` overrides |
| `Lookup` | lookup.dfy | `IndicatorVariable.get`, `get_regional_var`, `get_district_var`, with a closed `Target` datatype |
| `Tree` | tree.dfy | the get-or-create and delete operations and `create_indicator_vars`, as pure `Db → Db` transitions |
| `TreeFacts` | tree_facts.dfy | what those transitions guarantee |
| `Store` | store.dfy | the mutable store: a class whose methods perform the transitions in place, with loops, and are proved equal to `Tree` |
| `Formula` | formula.dfy | the indicator formula as an arithmetic tree, with Python's evaluation order and errors |
| `Indicators` | indicators.dfy | `Indicator.get_vars_dict` and `Indicator.value_at` |
| `Admin` | admin.dfy | `IndicatorAdminForm.__init__` and `IndicatorAdminForm.clean` |

Design decisions, each noted beside the code it concerns:

- Node keys are the natural keys the get-or-create calls use:
  - a national node is keyed by its variable;
  - a regional node by (variable, region);
  - a district node by (regional node, district).
- A database `.get` is `Lookup.GetOne`. It fails with `DoesNotExist` on no
  row and `MultipleObjectsReturned` on several.
- Amounts are `real`. Dates are day numbers.
- Where the source cannot run as written, the model follows the evident
  intent:
  - `get_value_at` filters on a misspelt field and dereferences `None`. Here
    it returns an `Option`.
  - `computed_value` reads child rows through non-existent fields and without
    a period. Here it reduces the children's forward-match values at the
    period of the row being read.
  - `IndicatorVariable.get` calls `target.isinstance(...)`. Here the target is
    `NoTarget | CountryTarget | RegionTarget | DistrictTarget`.
  - `DistrictIndicatorVariable` has no `district` field. Here it has one.
  - The post-save handler calls `get_create_district_vars`, which the
    variable does not define. Here it calls `create_district_vars`.
  - `create_district_vars` calls `create_district_vars` on each regional
    node, but a regional node defines only `get_create_district_vars`. Here
    it calls the regional node's `get_create_district_vars`.
  - `get_vars_dict` passes `all_district_vars`. Here the keyword is
    `get_all_districts`.
  - `get_vars_dict` iterates the many-to-many manager `variables` without
    `.all()`. Here it iterates the indicator's selected variables in order.
  - `value_at` iterates a dictionary without `.items()`, and even with it
    the grouping step keys each entry by the whole lookup result (one node
    or a queryset of nodes), so variables never meet at a geographic unit.
    Here the grouping is a redesign: the formula is evaluated once per
    geographic unit of the indicator's level, with each code bound to its
    variable's node at that unit.
  - A blank formula has no default, although its help text promises the sum
    of all variables. Here it is that sum.

## Model

| member | source | states |
|---|---|---|
| Choices.ParseLevel | indicatorDataApp/models.py:30-34 | a stored level code is read back only as the level that has that code |
| Choices.ParseLevelCode | indicatorDataApp/models.py:30-34 | storing a level and reading it back gives the same level |
| Choices.DepthInjective | indicatorDataApp/models.py:30-34 | the tiers National, Regional, District have distinct depths, so comparing depths compares levels |
| Reducers.SumAppend | indicatorDataApp/models.py:97-102 | the Net reduction of a concatenation is the sum of the two parts' reductions |
| Reducers.SumPermutation | indicatorDataApp/models.py:97-102 | Net depends only on the multiset of amounts |
| Reducers.RunningMeanIsAverage | indicatorDataApp/models.py:97-102 | the arithmetic mean, computed incrementally, equals sum ÷ count on every non-empty input |
| Reducers.AverageIsMean | indicatorDataApp/models.py:97-102 | Average and Mean agree on every input: the same value when non-empty, and both undefined on empty input |
| Reducers.SortCorrect | indicatorDataApp/models.py:97-102 | the sorted data median starts from is ascending and a permutation of the input |
| Reducers.SortedUnique | indicatorDataApp/models.py:97-102 | two ascending arrangements of the same multiset are equal |
| Reducers.MedianOfSorted | indicatorDataApp/models.py:97-102 | Median is the middle element of any ascending arrangement of odd length, or the mean of the two middle elements of even length |
| Reducers.MedianPermutation | indicatorDataApp/models.py:97-102 | Median depends only on the multiset of amounts |
| Reducers.ComputePermutation | indicatorDataApp/models.py:109-112 | each of the four calculation formats depends only on the multiset of amounts |
| Reducers.SumBounds | indicatorDataApp/models.py:97-102 | with every amount in [lo, hi], Net lies in [n·lo, n·hi] |
| Reducers.ComputeBounds | indicatorDataApp/models.py:109-112 | on non-empty amounts in [lo, hi], Average, Mean and Median are defined and lie in [lo, hi] |
| Geo.DistrictsOfCountry | indicatorDataApp/models.py:84-89 | a district is selected exactly when its region belongs to the country |
| Values.FirstOnOrAfter | indicatorDataApp/models.py:324-327 | a row is found iff the node has a row on or after the date; the row found is the node's, on or after the date, and has the least such period |
| Values.ForwardMatchDetermined | indicatorDataApp/models.py:351-354 | when a node's periods are distinct, the row found is the one row of least period on or after the date |
| Values.ForwardMatchMonotone | indicatorDataApp/models.py:385-388 | a row found for a later date means one is found for an earlier date, with a period no later |
| Values.ForwardMatchIgnoresEarlier | indicatorDataApp/models.py:324-327 | adding a row dated before the date does not change what is found |
| Values.DistrictAmounts | indicatorDataApp/models.py:171-173 | the amounts gathered are exactly the inputted amounts the district nodes report, at most one per node |
| Values.DistrictChildren | indicatorDataApp/models.py:152-162 | a district node is a child of a regional value iff it belongs to the same variable and its district lies in the node's region |
| Values.RegionalAmounts | indicatorDataApp/models.py:130-140 | the amounts gathered are exactly the values the regional nodes report, at most one per node |
| Values.DistrictAmountsConcat | indicatorDataApp/models.py:171-173 | gathering over a concatenation of district nodes gathers the two parts' amounts, in order |
| Values.DistrictAmountsAllValued | indicatorDataApp/models.py:171-173 | when every district node has a value, the amounts are one per node, in the nodes' order, each that node's value |
| Values.RegionalAmountsConcat | indicatorDataApp/models.py:130-140 | gathering over a concatenation of regional nodes gathers the two parts' amounts, in order |
| Values.RegionalAmountsAllValued | indicatorDataApp/models.py:130-140 | when every regional node has a value, the amounts are one per node, in the nodes' order, each that node's value |
| Values.RegionalChildren | indicatorDataApp/models.py:130-140 | a regional node is a child of a national value iff it belongs to the same variable and its region lies in the variable's country |
| Values.InputtedReportsAmount | indicatorDataApp/models.py:114-118 | an Inputted variable's national and regional rows report their own amount |
| Values.ComputedReducesChildren | indicatorDataApp/models.py:152-162 | a Computed regional value is the variable's reducer over its district children's values, in any order |
| Values.NationalComputedReducesChildren | indicatorDataApp/models.py:130-140 | a Computed national value is the variable's reducer over its regional children's values, in any order |
| Lookup.GetOne | indicatorDataApp/models.py:204-216 | `.get` returns the row iff there is exactly one, DoesNotExist iff there is none, MultipleObjectsReturned iff there are several |
| Lookup.GetNationalNode | indicatorDataApp/models.py:257-290 | with a country or no target and a net value, `get` succeeds iff the variable has a national node, and returns that node |
| Lookup.RegionalsInKey | indicatorDataApp/models.py:204-216 | filtering the variable's regional nodes by region is the lookup by (variable, region) |
| Lookup.GetRegionalNode | indicatorDataApp/models.py:204-216 | with a region target, `get` succeeds iff the (variable, region) node exists, returns it, and never finds several |
| Lookup.DistrictsAtKey | indicatorDataApp/models.py:218-231 | filtering the variable's district nodes by district is the lookup by the district's place in the tree |
| Lookup.GetDistrictNode | indicatorDataApp/models.py:218-231 | with a district target, `get` succeeds iff the variable has a node for that district, returns it, and never finds several |
| Lookup.DistrictLookupUnique | indicatorDataApp/models.py:218-231 | in a valid store, a variable has at most one node per district |
| Lookup.GetDistrictOne | indicatorDataApp/models.py:218-231 | when at most one node matches a district, `.get` finds it iff it exists |
| Lookup.GetDistrictsOfRegion | indicatorDataApp/models.py:218-231 | with a region target and no net value, `get` returns exactly the variable's district nodes in that region |
| Formula.DefaultFormula | indicatorDataApp/models.py:424-427 | the default formula mentions exactly the given codes and has no division |
| Formula.Amounts | indicatorDataApp/models.py:444-446 | one amount per code, in order, each the value the environment binds to that code |
| Formula.PowerAdd | indicatorDataApp/models.py:445 | x^(m+n) = x^m · x^n |
| Formula.PowerMul | indicatorDataApp/models.py:445 | (x^m)^n = x^(m·n) |
| Formula.PowPow | indicatorDataApp/models.py:445 | evaluating `(e^m)^n` gives the same result, value or error, as `e^(m·n)` |
| Formula.PowStep | indicatorDataApp/models.py:445 | evaluating `e^(n+1)` gives the same result, value or error, as `e^n * e` |
| Formula.EvalLocal | indicatorDataApp/models.py:444-446 | a formula's result depends only on the bindings of the codes it mentions |
| Formula.EvalUnbound | indicatorDataApp/models.py:444-446 | an unbound-name error names a code the formula mentions that the environment lacks |
| Formula.EvalDefined | indicatorDataApp/models.py:444-446 | a division-free formula whose codes all have values evaluates to a value |
| Formula.DefaultFormulaSums | indicatorDataApp/models.py:424-427 | the default formula evaluates to the sum of the variables' values |
| Indicators.RegionPlaces | indicatorDataApp/models.py:429-449 | one regional unit per region, in order |
| Indicators.DistrictPlaces | indicatorDataApp/models.py:429-449 | one district unit per district, in order |
| Indicators.Codes | indicatorDataApp/models.py:429-449 | the codes are exactly those of the dictionary's entries |
| Indicators.EntriesShape | indicatorDataApp/models.py:452-472 | the dictionary is built iff every variable's lookup succeeds, and then holds one entry per variable, in order, with its code and its lookup result |
| Indicators.LastWith | indicatorDataApp/models.py:452-472 | an entry for a code is found iff one exists, and it carries that code |
| Indicators.EnvForBinds | indicatorDataApp/models.py:437-446 | a code is bound at a unit iff the last entry with that code has a node there, and it is bound to that node's value |
| Indicators.EnvAt | indicatorDataApp/models.py:437-446 | the loop builds the environment the specification gives for the unit |
| Indicators.ValuesOverOk | indicatorDataApp/models.py:442-447 | the list of results is produced iff the formula evaluates without error at every unit |
| Indicators.ValuesOverValues | indicatorDataApp/models.py:442-447 | the list holds one result per unit, in order, each the formula's value at that unit |
| Indicators.ValueAt | indicatorDataApp/models.py:429-449 | the method's loop computes the specification of `value_at` |
| Indicators.ValueAtUnits | indicatorDataApp/models.py:429-449 | a successful `value_at` has a level and a dictionary, and gives the formula's value at every unit of that level, in order |
| Indicators.NationalIndicator | indicatorDataApp/models.py:452-472 | a National indicator has the country as its one unit; its dictionary is built iff every variable has a national node; each code is bound to that node's value |
| Indicators.RegionalIndicator | indicatorDataApp/models.py:452-472 | a Regional indicator's dictionary selects the regional nodes; a code's value in a region is that region's node value |
| Indicators.DistrictIndicator | indicatorDataApp/models.py:452-472 | a District indicator's dictionary selects the district nodes; a code's value in a district is that district's node value |
| Indicators.BlankFormulaSums | indicatorDataApp/models.py:424-427 | with no formula and every code valued, the indicator's value at a unit is the sum of its variables' values there |
| Admin.Offenders | indicatorDataApp/admin.py:40-49 | a selected variable offends iff its level is coarser than the indicator's |
| Admin.Selectable | indicatorDataApp/admin.py:26-31 | the selectable variables are exactly those of the indicator's country, and none without a country |
| Admin.IndicatorAdminForm.constructor | indicatorDataApp/admin.py:26-31 | the form offers exactly the selectable variables of its country |
| Admin.IndicatorAdminForm.Clean | indicatorDataApp/admin.py:33-54 | the form is accepted iff there are no messages, and a rejection carries exactly the messages |
| Admin.MessagesPerOffender | indicatorDataApp/admin.py:39-52 | there is exactly one message per offending variable, in queryset order, naming that variable and its level |
| Admin.AcceptedIffFineEnough | indicatorDataApp/admin.py:39-52 | there are no messages iff every selected variable is at least as fine as the indicator's level |
| Admin.TooCoarseByLevel | indicatorDataApp/admin.py:42-49 | District rejects National and Regional variables; Regional rejects National variables; National or unset rejects none |
| Admin.NationalAcceptsAll | indicatorDataApp/admin.py:42-49 | a National or unset-level indicator accepts any selection |
| Tree.GetCreateNational | indicatorDataApp/models.py:233-237 | afterwards the variable has a national node |
| Tree.GetCreateDistrictVars | indicatorDataApp/models.py:248-250 | only the district-node table changes |
| Tree.GetCreateDistrictVarsTimes | indicatorDataApp/models.py:248-250 | running the loop once per regional node changes only the district-node table |
| Tree.GetCreateDistrictVarsAsWritten | indicatorDataApp/models.py:356-368 | the source's district loop only appends nodes |
| Tree.GetCreateRegionalsOverFacts | indicatorDataApp/models.py:313-319 | the regional loop keeps every existing node, covers every region, and adds only nodes for those regions |
| Tree.CoverAfterGetCreateRegionals | indicatorDataApp/models.py:313-319 | after the regional get-or-create, every district of the country has its region's regional node |
| TreeFacts.GetCreateNationalValid | indicatorDataApp/models.py:233-237 | integrity is kept; exactly one national node per variable; it is unchanged if it existed, and otherwise named country code + " " + name; the store is unchanged if it existed, and otherwise gains only that node; no other variable's nodes or value rows change |
| TreeFacts.GetCreateRegionalsOverValid | indicatorDataApp/models.py:313-319 | the regional loop keeps (variable, region) unique and every node well formed |
| TreeFacts.GetCreateRegionalsOverPresent | indicatorDataApp/models.py:313-319 | when every region already has its node, the loop adds nothing |
| TreeFacts.GetCreateRegionalsValid | indicatorDataApp/models.py:242-243 | integrity is kept; exactly one node per region of the country, named national name + " " + region code; repeating adds nothing; only the variable's regional nodes are added |
| TreeFacts.DeleteDistrictVarsUnderValid | indicatorDataApp/models.py:370-371 | deleting under some regional nodes removes exactly their district nodes, and a district value row goes iff its node hangs from one of them; integrity is kept |
| TreeFacts.DeleteDistrictVarsUnderTwice | indicatorDataApp/models.py:252-254 | two district deletes in a row are one delete over both sets |
| TreeFacts.DeleteDistrictVarsOverUnder | indicatorDataApp/models.py:252-254 | the loop over regional nodes is one delete under all of them |
| TreeFacts.DeleteDistrictVarsValid | indicatorDataApp/models.py:252-254 | no district nodes of the variable remain; a district value row goes iff it belongs to the variable; only the district tables change; no other variable's nodes or value rows change |
| TreeFacts.DeleteDistrictVarsAtValid | indicatorDataApp/models.py:370-371 | exactly the regional node's district nodes are removed, a district value row goes iff its node hangs from that regional node, and only the district tables change |
| TreeFacts.DeleteRegionalsValid | indicatorDataApp/models.py:321-322 | a regional or district node, or a value row of either tier, goes iff it belongs to the variable; the national tables are unchanged; no other variable's nodes or value rows change |
| TreeFacts.DeleteNationalValid | indicatorDataApp/models.py:239-240 | a node or value row of any tier goes iff it belongs to the variable; no other variable's nodes or value rows change |
| TreeFacts.GetCreateDistrictVarsOverFacts | indicatorDataApp/models.py:356-368 | the district loop keeps every existing node and adds only the variable's nodes |
| TreeFacts.GetCreateDistrictVarsOverPlaces | indicatorDataApp/models.py:356-368 | after the district loop, every district visited has its node |
| TreeFacts.GetCreateDistrictVarsOverValid | indicatorDataApp/models.py:356-368 | the district loop keeps the district key unique and every node well formed |
| TreeFacts.GetCreateDistrictVarsOverPresent | indicatorDataApp/models.py:356-368 | when every district already has its node, the loop adds nothing |
| TreeFacts.GetCreateDistrictVarsValid | indicatorDataApp/models.py:356-368 | integrity is kept; exactly one node per district of the country, under its own region's regional node; repeating adds nothing; no other variable changes |
| TreeFacts.GetCreateDistrictVarsTimesOnce | indicatorDataApp/models.py:248-250 | repeating the district get-or-create once per regional node is doing it once |
| TreeFacts.CreateDistrictVarsValid | indicatorDataApp/models.py:248-250 | `create_district_vars` is a single district get-or-create, or nothing when the variable has no regional nodes |
| TreeFacts.ReconcileValid | indicatorDataApp/signals.py:58-81 | after a save, integrity is kept, the tree has the shape its level calls for, and no other variable's nodes or value rows change |
| TreeFacts.ReconcileIdempotent | indicatorDataApp/signals.py:68-81 | saving twice at the same level is saving once |
| TreeFacts.DeleteRegionalsUndo | indicatorDataApp/models.py:321-322 | deleting the regional nodes undoes appending them and their district nodes |
| TreeFacts.NationalSaveFacts | indicatorDataApp/signals.py:68-71 | after a National save the variable has a national node and no regional or district nodes or rows |
| TreeFacts.DistrictSaveFacts | indicatorDataApp/signals.py:78-81 | a District save with an existing national node only appends the variable's regional and district nodes |
| TreeFacts.NationalDistrictNational | indicatorDataApp/signals.py:68-81 | saving National, then District, then National again restores the store of the first save |
| TreeFacts.RegionsFrom | indicatorDataApp/signals.py:14-19 | one region per subdivision, each in the country |
| TreeFacts.RegionsFromCarries | indicatorDataApp/signals.py:14-19 | each created region carries its subdivision's name and code |
| TreeFacts.CreateRegionsOverUnique | indicatorDataApp/signals.py:14-19 | creating regions keeps region codes unique |
| TreeFacts.CreateRegionsOverFresh | indicatorDataApp/signals.py:14-19 | the loop completes iff no code clashes, and then appends exactly the subdivisions' regions |
| TreeFacts.CreateRegionsOverStops | indicatorDataApp/signals.py:14-19 | a clash stops the loop at the first clashing subdivision |
| TreeFacts.CreateRegionsValid | indicatorDataApp/signals.py:10-19 | integrity is kept; a non-creating save changes nothing; a creating save adds the subdivisions' regions unless a code clashes |
| TreeFacts.DistrictRowsUnder | indicatorDataApp/models.py:370-371 | deleting the district nodes under some regional nodes removes a district value row iff its node hangs from one of them, and keeps other variables' rows |
| TreeFacts.NoNationalNoTree | indicatorDataApp/models.py:239-240 | in a valid store a variable without a national node has no regional or district nodes either |
| TreeFacts.AsWrittenDuplicates | indicatorDataApp/models.py:356-368 | the source's district loop, run by two regional nodes, leaves two nodes for one district |
| Store.Store.GetCreateNationalVar | indicatorDataApp/models.py:233-237 | the new state is the national get-or-create of the old one, valid, with exactly one national node |
| Store.Store.GetCreateRegionalVars | indicatorDataApp/models.py:313-319 | the new state is the regional get-or-create of the old one, valid, and complete for the country |
| Store.Store.DeleteRegionalVars | indicatorDataApp/models.py:321-322 | the new state is the regional delete of the old one, with no regional or district nodes left for the variable |
| Store.Store.DeleteDistrictVarsAt | indicatorDataApp/models.py:370-371 | the new state is the district delete under the regional node, with none of its district nodes left |
| Store.Store.DeleteDistrictVars | indicatorDataApp/models.py:252-254 | the new state is the district delete of the old one, with no district nodes left for the variable |
| Store.Store.GetCreateDistrictVars | indicatorDataApp/models.py:356-368 | the new state is the district get-or-create of the old one, valid, and complete for the country |
| Store.Store.AddDistrictNodes | indicatorDataApp/models.py:359-367 | the district table after the loop is the corrected district loop over the given districts; nothing else changes |
| Store.Store.CreateDistrictVars | indicatorDataApp/models.py:248-250 | the new state is `create_district_vars` of the old one, and valid |
| Store.Store.DeleteNationalVar | indicatorDataApp/models.py:239-240 | fails with DoesNotExist, changing nothing, iff the variable has no national node; otherwise the new state is the national delete of the old one; either way nothing is left of the variable's tree |
| Store.Store.CreateIndicatorVars | indicatorDataApp/signals.py:58-81 | the new state is the post-save reconciliation of the old one: valid, shaped for the level, other variables untouched |
| Store.Store.CreateRegions | indicatorDataApp/signals.py:10-19 | the new state and the failure report are those of the region seeding |

## Left out

- Web views, forms, URL wiring, templates and the network geocoding script are presentation or I/O and are not part of this model.
- `divide_dates`, `data`, `get_min_date` and `get_max_date` use date-rule generation, `eval` of a frequency label and data-frame output; they are not part of this model.
- The country's reference subdivision list comes from an external library; here it is an input sequence of (name, code) pairs.
- Decimal and float arithmetic are modelled as exact `real`. Decimal's `0 ** 0`, which raises, is modelled as 1.
- Formula.Eval: formula literals are integers. A float literal such as `0.5` meets `Decimal` operands with a TypeError in the source; formulas with such literals are not represented, so that error is not modelled.
- Schema.DbValid: the database enforces only the one-to-one national key and the foreign keys. The node models are editable in the admin site, and renaming a national node there makes the next `get_create_regional_vars` (keyed on the name) add a second regional node for every region, after which a region-target `get` raises MultipleObjectsReturned. Such stores fall outside `DbValid`, and the lemmas and store methods that require it say nothing about them.
- The formula is an arithmetic tree over variable codes. Parsing its text, rewriting `^` to `**` and general `eval` are left out. Exponents are natural numbers.
- Transactions and rollback are left out. The region seeding stops at the first clashing code and keeps the regions created before it.
- Django form-field validation of selected choices, and `__str__` formatting other than the admin message text, are left out.
- Tree.GetCreateDistrictVars: requires that every district of the country has its region's regional node. The source's `.get` would raise `DoesNotExist` otherwise; the model does not represent that error.
- Tree.GetCreateDistrictVarsTimes: requires the same coverage as Tree.GetCreateDistrictVars, for the same reason.
- Store.Store.GetCreateDistrictVars: requires the same coverage; the reconciliation establishes it first (Tree.CoverAfterGetCreateRegionals).
- Store.Store.CreateDistrictVars: requires the same coverage, for the same reason.
- Tree.GetCreateNational: its own ensures states only that a national node exists; the full promise is TreeFacts.GetCreateNationalValid.
- Tree.DeleteNational: the pure cascade once the national node is found; the DoesNotExist raised when there is none is reported by Store.Store.DeleteNationalVar.
- Store.Store.DeleteDistrictVars: `delete_district_vars` reads `national_var` and so raises DoesNotExist for a variable without a national node; the model deletes nothing then. The post-save handler always creates the national node first, so the case does not arise there.
- Store.Store.DeleteRegionalVars: models the national node's `delete_regional_vars`; the variable's forwarding method raises DoesNotExist without a national node, which the model does not represent, for the same reason.
- Reducers.Compute: the source raises on empty input (ZeroDivisionError for Average, StatisticsError for Mean and Median); the model returns None. Values.RegionalComputed and Values.NationalComputed pass that None on, so a Computed node with no valued children reads like a node with no row at the date.
- The debug `print` of the two levels in `IndicatorAdminForm.clean` is output only and is not modelled.
- `IndicatorVariable.get` does not check that a target region or district belongs to the variable's country; neither does the model.

## Findings

| source | as written | input that shows it | evidently intended | confidence | as-written member | corrected member |
|---|---|---|---|---|---|---|
| indicatorDataApp/models.py:356-368 | every regional node runs the district get-or-create over all districts of the country, attaching each node to the district's region's node, but keying it on a name derived from the calling regional node | two regional nodes R1 and R2 of one variable and one district D1 in R1: R1's run creates a node named after R1, R2's run finds no node with R2's name and creates a second node for D1 | exactly one district node per district, under its own region's regional node | not executed | Tree.GetCreateDistrictVarsAsWritten | Tree.GetCreateDistrictVarsOver |
