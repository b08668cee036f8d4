/**
 * `Indicator.get_vars_dict` and `Indicator.value_at`: an indicator picks, per
 * its aggregation level, the nodes of each of its variables, groups them by
 * geographic unit (the country, each region or each district of the
 * indicator's country), and evaluates its formula once per unit with each
 * variable code bound to that unit's node value at the date.
 *
 * Modelled by intent where the source cannot run as written:
 * - the District branch of `get_vars_dict` passes `all_district_vars`, a
 *   keyword `get` does not take; here it is `get_all_districts`;
 * - `value_at` groups by the dictionary's values and iterates the grouping
 *   without `.items()`; here the grouping is by geographic unit;
 * - a blank formula has no default in the source although the help text
 *   promises the addition of all variables; here it is that sum.
 */
module Indicators {
  import opened Wrappers
  import opened Tables
  import opened Choices
  import opened Geo
  import opened Schema
  import opened Values
  import opened Lookup
  import opened Formula
  import opened Reducers

  datatype Indicator = Indicator(
    country: Code,
    level: Option<AggregationLevel>,
    variables: seq<IndicatorVariable>,
    formula: Option<Expr>)

  /** One item of `vars_dict`: a variable's code and what `get` returned for it. */
  datatype Entry = Entry(code: Code, variable: IndicatorVariable, selection: Selection)

  /** A geographic unit the formula is evaluated for. */
  datatype Place = AtCountry(country: Code) | AtRegion(region: Code) | AtDistrict(district: Code)

  /** One item of `computed_vals`: a unit and the formula's value there (None where `eval` returned None). */
  datatype PlaceValue = PlaceValue(place: Place, value: Option<real>)

  /** NoLevel: `vars_dict` is never assigned when the level is unset (UnboundLocalError). */
  datatype IndicatorError = NoLevel | LookupFailed(lookup: LookupError) | FormulaFailed(formula: FormulaError)

  // ---------------------------------------------------------------------------
  // get_vars_dict

  /** The `get` call each level makes for a variable. */
  function LevelSelection(db: Db, country: Code, level: AggregationLevel, v: IndicatorVariable): Result<Selection, LookupError>
  {
    match level
    case National => Get(db, v.id, CountryTarget(country), true, false)
    case Regional => Get(db, v.id, CountryTarget(country), false, false)
    case District => Get(db, v.id, NoTarget, true, true)
  }

  /** The dictionary comprehension over the variables, in order; the first failing `get` raises. */
  function Entries(db: Db, country: Code, level: AggregationLevel, vars: seq<IndicatorVariable>): Result<seq<Entry>, IndicatorError>
  {
    if vars == [] then Ok([])
    else
      var init :- Entries(db, country, level, vars[..|vars| - 1]);
      var v := vars[|vars| - 1];
      match LevelSelection(db, country, level, v)
      case Err(e) => Err(LookupFailed(e))
      case Ok(sel) => Ok(init + [Entry(v.code, v, sel)])
  }

  /** `get_vars_dict`, as its items in insertion order; a code that repeats is bound by the last variable carrying it. */
  function VarsDict(db: Db, ind: Indicator): Result<seq<Entry>, IndicatorError>
  {
    if ind.level.None? then Err(NoLevel) else Entries(db, ind.country, ind.level.value, ind.variables)
  }

  // ---------------------------------------------------------------------------
  // value_at

  /** The units of the indicator's level in its country, in table order. */
  function Places(db: Db, country: Code, level: AggregationLevel): seq<Place>
  {
    match level
    case National => [AtCountry(country)]
    case Regional => RegionPlaces(RegionsOf(db.regions, country))
    case District => DistrictPlaces(DistrictsOfCountry(db.regions, db.districts, country))
  }

  function RegionPlaces(rs: seq<Region>): (r: seq<Place>)
    ensures |r| == |rs|
    ensures forall i :: 0 <= i < |rs| ==> r[i] == AtRegion(rs[i].code)
  {
    if rs == [] then [] else RegionPlaces(rs[..|rs| - 1]) + [AtRegion(rs[|rs| - 1].code)]
  }

  function DistrictPlaces(ds: seq<District>): (r: seq<Place>)
    ensures |r| == |ds|
    ensures forall i :: 0 <= i < |ds| ==> r[i] == AtDistrict(ds[i].code)
  {
    if ds == [] then [] else DistrictPlaces(ds[..|ds| - 1]) + [AtDistrict(ds[|ds| - 1].code)]
  }

  /** The value at the date of the node an entry holds for a unit; None when it holds no node there. */
  function NodeValue(db: Db, e: Entry, p: Place, date: Date): Option<Option<real>>
  {
    match (e.selection, p)
    case (OneNational(_), AtCountry(_)) => Some(NationalValueAt(db, e.variable, date))
    case (Regionals(rs), AtRegion(region)) =>
      (match First(rs, NodeRegion, region)
       case None => None
       case Some(n) => Some(RegionalValueAt(db, e.variable, n.Key(), date)))
    case (Districts(ds), AtDistrict(district)) =>
      (match First(ds, NodeDistrict, district)
       case None => None
       case Some(n) => Some(DistrictValueAt(db, n.Key(), date)))
    case _ => None
  }

  /** The names `eval` gets at a unit: the entries folded in order, a later entry overriding an earlier one of the same code. */
  function EnvFor(db: Db, entries: seq<Entry>, p: Place, date: Date): Env
  {
    if entries == [] then map[]
    else
      var env := EnvFor(db, entries[..|entries| - 1], p, date);
      var e := entries[|entries| - 1];
      match NodeValue(db, e, p, date)
      case None => env - {e.code}
      case Some(x) => env[e.code := x]
  }

  /** The distinct codes, in order of first appearance: the keys of `vars_dict`. */
  function Codes(entries: seq<Entry>): (r: seq<Code>)
    ensures forall c :: c in r <==> exists e :: e in entries && e.code == c
  {
    if entries == [] then []
    else
      var init := Codes(entries[..|entries| - 1]);
      var last := entries[|entries| - 1];
      assert forall e :: e in entries[..|entries| - 1] ==> e in entries;
      if last.code in init then init else init + [last.code]
  }

  /** The indicator's formula, or the sum of its codes when blank. */
  function FormulaOf(ind: Indicator, entries: seq<Entry>): Expr
  {
    if ind.formula.Some? then ind.formula.value else DefaultFormula(Codes(entries))
  }

  /** The formula evaluated at each unit in turn; the first failing evaluation raises. */
  function ValuesOver(db: Db, entries: seq<Entry>, f: Expr, places: seq<Place>, date: Date): Result<seq<PlaceValue>, IndicatorError>
  {
    if places == [] then Ok([])
    else
      var init :- ValuesOver(db, entries, f, places[..|places| - 1], date);
      var p := places[|places| - 1];
      match Eval(f, EnvFor(db, entries, p, date))
      case Err(e) => Err(FormulaFailed(e))
      case Ok(x) => Ok(init + [PlaceValue(p, x)])
  }

  /** What `value_at` computes. */
  function ValueAtSpec(db: Db, ind: Indicator, date: Date): Result<seq<PlaceValue>, IndicatorError>
  {
    var entries :- VarsDict(db, ind);
    ValuesOver(db, entries, FormulaOf(ind, entries), Places(db, ind.country, ind.level.value), date)
  }

  /** The grouping loop for one unit: each item of `vars_dict` binds its code to its node's value there. */
  method EnvAt(db: Db, entries: seq<Entry>, p: Place, date: Date) returns (env: Env)
    ensures env == EnvFor(db, entries, p, date)
  {
    env := map[];
    for j := 0 to |entries|
      invariant env == EnvFor(db, entries[..j], p, date)
    {
      assert entries[..j + 1][..j] == entries[..j];
      var nv := NodeValue(db, entries[j], p, date);
      if nv.None? {
        env := env - {entries[j].code};
      } else {
        env := env[entries[j].code := nv.value];
      }
    }
    assert entries[..|entries|] == entries;
  }

  /** `value_at`: group the nodes by unit, then evaluate the formula unit by unit. */
  method ValueAt(db: Db, ind: Indicator, date: Date) returns (r: Result<seq<PlaceValue>, IndicatorError>)
    ensures r == ValueAtSpec(db, ind, date)
  {
    var dict := VarsDict(db, ind);
    if dict.Err? {
      return Err(dict.error);
    }
    var entries := dict.value;
    var f := FormulaOf(ind, entries);
    var places := Places(db, ind.country, ind.level.value);
    assert ValueAtSpec(db, ind, date) == ValuesOver(db, entries, f, places, date);
    var vals: seq<PlaceValue> := [];
    for i := 0 to |places|
      invariant ValuesOver(db, entries, f, places[..i], date) == Ok(vals)
    {
      var env := EnvAt(db, entries, places[i], date);
      var x := Eval(f, env);
      ValuesOverStep(db, entries, f, places, i, date);
      if x.Err? {
        ValuesOverFails(db, entries, f, places, i + 1, date);
        return Err(FormulaFailed(x.error));
      }
      vals := vals + [PlaceValue(places[i], x.value)];
    }
    assert places[..|places|] == places;
    r := Ok(vals);
  }

  // ---------------------------------------------------------------------------
  // Properties

  lemma ValuesOverStep(db: Db, entries: seq<Entry>, f: Expr, places: seq<Place>, i: nat, date: Date)
    requires i < |places| && ValuesOver(db, entries, f, places[..i], date).Ok?
    ensures var x := Eval(f, EnvFor(db, entries, places[i], date));
      ValuesOver(db, entries, f, places[..i + 1], date)
        == if x.Err? then Err(FormulaFailed(x.error))
           else Ok(ValuesOver(db, entries, f, places[..i], date).value + [PlaceValue(places[i], x.value)])
  {
    assert places[..i + 1][..i] == places[..i];
  }

  /** Once a prefix of the units fails, the whole evaluation fails with that error. */
  lemma {:induction false} ValuesOverFails(db: Db, entries: seq<Entry>, f: Expr, places: seq<Place>, k: nat, date: Date)
    requires k <= |places| && ValuesOver(db, entries, f, places[..k], date).Err?
    ensures ValuesOver(db, entries, f, places, date) == ValuesOver(db, entries, f, places[..k], date)
    decreases |places| - k
  {
    if k < |places| {
      assert places[..k + 1][..k] == places[..k];
      ValuesOverFails(db, entries, f, places, k + 1, date);
    } else {
      assert places[..k] == places;
    }
  }

  /** An evaluation succeeds exactly when the formula evaluates at every unit. */
  lemma ValuesOverOk(db: Db, entries: seq<Entry>, f: Expr, places: seq<Place>, date: Date)
    ensures ValuesOver(db, entries, f, places, date).Ok? <==> forall i :: 0 <= i < |places| ==> Eval(f, EnvFor(db, entries, places[i], date)).Ok?
  {
    if ValuesOver(db, entries, f, places, date).Ok? {
      ValuesOverValues(db, entries, f, places, date);
    }
    if forall i :: 0 <= i < |places| ==> Eval(f, EnvFor(db, entries, places[i], date)).Ok? {
      ValuesOverAllOk(db, entries, f, places, date);
    }
  }

  /** When the formula evaluates at every unit, so does the whole evaluation. */
  lemma {:induction false} ValuesOverAllOk(db: Db, entries: seq<Entry>, f: Expr, places: seq<Place>, date: Date)
    requires forall i :: 0 <= i < |places| ==> Eval(f, EnvFor(db, entries, places[i], date)).Ok?
    ensures ValuesOver(db, entries, f, places, date).Ok?
  {
    if places != [] {
      var n := |places| - 1;
      var init := places[..n];
      assert forall i :: 0 <= i < n ==> init[i] == places[i];
      ValuesOverAllOk(db, entries, f, init, date);
      ValuesOverStep(db, entries, f, places, n, date);
      assert places[..n + 1] == places;
    }
  }

  /** A successful evaluation lists each unit once, in order, with the formula's value there. */
  lemma {:induction false} ValuesOverValues(db: Db, entries: seq<Entry>, f: Expr, places: seq<Place>, date: Date)
    requires ValuesOver(db, entries, f, places, date).Ok?
    ensures var vals := ValuesOver(db, entries, f, places, date).value;
      && |vals| == |places|
      && forall i :: 0 <= i < |places| ==>
           vals[i].place == places[i] && Eval(f, EnvFor(db, entries, places[i], date)) == Ok(vals[i].value)
  {
    if places != [] {
      var n := |places| - 1;
      var init := places[..n];
      assert places[..n + 1] == places;
      assert ValuesOver(db, entries, f, init, date).Ok?;
      ValuesOverValues(db, entries, f, init, date);
      ValuesOverStep(db, entries, f, places, n, date);
      var vals := ValuesOver(db, entries, f, places, date).value;
      var front := ValuesOver(db, entries, f, init, date).value;
      var x := Eval(f, EnvFor(db, entries, places[n], date));
      assert vals == front + [PlaceValue(places[n], x.value)];
      forall i | 0 <= i < |places|
        ensures vals[i].place == places[i] && Eval(f, EnvFor(db, entries, places[i], date)) == Ok(vals[i].value)
      {
        if i < n {
          assert vals[i] == front[i] && init[i] == places[i];
        }
      }
    }
  }

  /** `vars_dict` holds one item per variable, in order, each what that level's `get` returns; it fails exactly when the level is unset or some `get` raises. */
  lemma {:induction false} EntriesShape(db: Db, country: Code, level: AggregationLevel, vars: seq<IndicatorVariable>)
    ensures Entries(db, country, level, vars).Ok? <==> forall i :: 0 <= i < |vars| ==> LevelSelection(db, country, level, vars[i]).Ok?
    ensures Entries(db, country, level, vars).Ok? ==>
      var es := Entries(db, country, level, vars).value;
      && |es| == |vars|
      && forall i :: 0 <= i < |vars| ==>
           es[i] == Entry(vars[i].code, vars[i], LevelSelection(db, country, level, vars[i]).value)
  {
    if vars != [] {
      var init := vars[..|vars| - 1];
      EntriesShape(db, country, level, init);
      assert forall i :: 0 <= i < |init| ==> init[i] == vars[i];
    }
  }

  /** The last entry carrying a code. */
  function LastWith(entries: seq<Entry>, c: Code): (r: Option<Entry>)
    ensures r.Some? <==> exists e :: e in entries && e.code == c
    ensures r.Some? ==> r.value in entries && r.value.code == c
  {
    if entries == [] then None
    else if entries[|entries| - 1].code == c then Some(entries[|entries| - 1])
    else
      assert forall e :: e in entries[..|entries| - 1] ==> e in entries;
      assert forall e :: e in entries && e.code == c ==> e in entries[..|entries| - 1] by {
        assert entries == entries[..|entries| - 1] + [entries[|entries| - 1]];
      }
      LastWith(entries[..|entries| - 1], c)
  }

  /** At every unit, a code is bound exactly when the last variable carrying it has a node there, and to that node's value at the date. */
  lemma {:induction false} EnvForBinds(db: Db, entries: seq<Entry>, p: Place, date: Date, c: Code)
    ensures var last := LastWith(entries, c);
      && (c in EnvFor(db, entries, p, date) <==> last.Some? && NodeValue(db, last.value, p, date).Some?)
      && (c in EnvFor(db, entries, p, date) ==> EnvFor(db, entries, p, date)[c] == NodeValue(db, last.value, p, date).value)
  {
    if entries != [] {
      EnvForBinds(db, entries[..|entries| - 1], p, date, c);
    }
  }

  /** A successful `value_at` evaluates the formula once per unit of the indicator's level, in order. */
  lemma ValueAtUnits(db: Db, ind: Indicator, date: Date)
    requires ValueAtSpec(db, ind, date).Ok?
    ensures ind.level.Some? && VarsDict(db, ind).Ok?
    ensures var entries := VarsDict(db, ind).value;
      var places := Places(db, ind.country, ind.level.value);
      var vals := ValueAtSpec(db, ind, date).value;
      && |vals| == |places|
      && forall i :: 0 <= i < |places| ==>
           vals[i].place == places[i] && Eval(FormulaOf(ind, entries), EnvFor(db, entries, places[i], date)) == Ok(vals[i].value)
  {
    var entries := VarsDict(db, ind).value;
    ValuesOverValues(db, entries, FormulaOf(ind, entries), Places(db, ind.country, ind.level.value), date);
  }

  /** A National-level indicator is evaluated once, for the country, over the variables' national nodes; in a valid store it fails only for a variable without one. */
  lemma NationalIndicator(db: Db, ind: Indicator, date: Date)
    requires DbValid(db) && ind.level == Some(National)
    ensures Places(db, ind.country, National) == [AtCountry(ind.country)]
    ensures VarsDict(db, ind).Ok? <==> forall v :: v in ind.variables ==> NationalFor(db.nationals, v.id).Some?
    ensures VarsDict(db, ind).Ok? ==> forall e :: e in VarsDict(db, ind).value ==>
      && NationalFor(db.nationals, e.variable.id).Some?
      && e.selection == OneNational(NationalFor(db.nationals, e.variable.id).value)
      && NodeValue(db, e, AtCountry(ind.country), date) == Some(NationalValueAt(db, e.variable, date))
  {
    EntriesShape(db, ind.country, National, ind.variables);
    forall v | v in ind.variables
      ensures LevelSelection(db, ind.country, National, v).Ok? <==> NationalFor(db.nationals, v.id).Some?
      ensures NationalFor(db.nationals, v.id).Some? ==>
        LevelSelection(db, ind.country, National, v) == Ok(OneNational(NationalFor(db.nationals, v.id).value))
    {
      GetNationalNode(db, v.id, CountryTarget(ind.country));
    }
    if VarsDict(db, ind).Ok? {
      var es := VarsDict(db, ind).value;
      forall e | e in es
        ensures NationalFor(db.nationals, e.variable.id).Some?
        ensures e.selection == OneNational(NationalFor(db.nationals, e.variable.id).value)
      {
        var i :| 0 <= i < |es| && es[i] == e;
        assert ind.variables[i] in ind.variables;
      }
    }
  }

  /** The value the regional node keyed on (variable, region) has at the date, if there is such a node. */
  function RegionalNodeValue(db: Db, v: IndicatorVariable, region: Code, date: Date): Option<Option<real>>
  {
    match RegionalFor(db.regionals, RegKey(v.id, region))
    case None => None
    case Some(_) => Some(RegionalValueAt(db, v, RegKey(v.id, region), date))
  }

  /** A Regional-level indicator always finds its variables, and at each region reads the node keyed on (variable, region). */
  lemma RegionalIndicator(db: Db, ind: Indicator, date: Date)
    requires ind.level == Some(Regional)
    ensures VarsDict(db, ind).Ok?
    ensures forall e, region :: e in VarsDict(db, ind).value ==>
      NodeValue(db, e, AtRegion(region), date) == RegionalNodeValue(db, e.variable, region, date)
  {
    EntriesShape(db, ind.country, Regional, ind.variables);
    var es := VarsDict(db, ind).value;
    forall e, region | e in es
      ensures NodeValue(db, e, AtRegion(region), date) == RegionalNodeValue(db, e.variable, region, date)
    {
      var i :| 0 <= i < |es| && es[i] == e;
      RegionalEntryValue(db, e, region, date);
    }
  }

  /** An entry holding all of its variable's regional nodes reads, at a region, the node keyed on (variable, region). */
  lemma RegionalEntryValue(db: Db, e: Entry, region: Code, date: Date)
    requires e.selection == Regionals(RegionalsOf(db.regionals, e.variable.id))
    ensures NodeValue(db, e, AtRegion(region), date) == RegionalNodeValue(db, e.variable, region, date)
  {
    RegionalsInKey(db.regionals, e.variable.id, region);
  }

  /** The value the district node of a variable at a district has at the date, found by its key; None if there is no such node. */
  function DistrictNodeValue(db: Db, v: IndicatorVariable, district: Code, date: Date): Option<Option<real>>
  {
    match DistrictVarFor(db.districtVars, DisKey(RegKey(v.id, RegionOfDistrict(db, district)), district))
    case None => None
    case Some(n) => Some(DistrictValueAt(db, n.Key(), date))
  }

  /** In a valid store a District-level indicator always finds its variables, and at each district reads the node keyed on (variable, region of the district, district). */
  lemma DistrictIndicator(db: Db, ind: Indicator, date: Date)
    requires DbValid(db) && ind.level == Some(AggregationLevel.District)
    ensures VarsDict(db, ind).Ok?
    ensures forall e, district :: e in VarsDict(db, ind).value ==>
      NodeValue(db, e, AtDistrict(district), date) == DistrictNodeValue(db, e.variable, district, date)
  {
    EntriesShape(db, ind.country, AggregationLevel.District, ind.variables);
    var es := VarsDict(db, ind).value;
    forall e, district | e in es
      ensures NodeValue(db, e, AtDistrict(district), date) == DistrictNodeValue(db, e.variable, district, date)
    {
      var i :| 0 <= i < |es| && es[i] == e;
      DistrictEntryValue(db, e, district, date);
    }
  }

  /** An entry holding all of its variable's district nodes reads, at a district, the node keyed on its place in the tree. */
  lemma DistrictEntryValue(db: Db, e: Entry, district: Code, date: Date)
    requires DbValid(db)
    requires e.selection == Districts(DistrictVarsOf(db.districtVars, e.variable.id))
    ensures NodeValue(db, e, AtDistrict(district), date) == DistrictNodeValue(db, e.variable, district, date)
  {
    DistrictsAtKey(db, e.variable.id, district);
  }

  /** With a blank formula, every unit whose codes all have values gets the sum of those values. */
  lemma BlankFormulaSums(db: Db, ind: Indicator, entries: seq<Entry>, p: Place, date: Date)
    requires ind.formula.None?
    requires Valued(Codes(entries), EnvFor(db, entries, p, date))
    ensures Eval(FormulaOf(ind, entries), EnvFor(db, entries, p, date))
         == Ok(Some(Sum(Amounts(Codes(entries), EnvFor(db, entries, p, date)))))
  {
    DefaultFormulaSums(Codes(entries), EnvFor(db, entries, p, date));
  }
}
