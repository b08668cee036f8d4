/**
 * `IndicatorVariable.get` and the two dispatchers beside it: which nodes of a
 * variable's tree a target (country, region, district or none) selects. The
 * source tests the target's class with a method objects do not have; the
 * model makes the target a closed datatype.
 */
module Lookup {
  import opened Wrappers
  import opened Tables
  import opened Geo
  import opened Schema

  datatype Target = NoTarget | CountryTarget(country: Code) | RegionTarget(region: Code) | DistrictTarget(district: Code)

  /** What a lookup returns: one node or a queryset of nodes. */
  datatype Selection =
    | OneNational(national: NationalNode)
    | OneRegional(regional: RegionalNode)
    | Regionals(regionals: seq<RegionalNode>)
    | OneDistrict(district: DistrictNode)
    | Districts(districts: seq<DistrictNode>)

  /** ValueError for a target of the wrong kind; the two `.get` failures of the ORM. */
  datatype LookupError = ValueError | DoesNotExist | MultipleObjectsReturned

  /** The ORM's `.get` on a queryset: exactly one row, or an error saying why not. */
  function GetOne<T>(s: seq<T>): (r: Result<T, LookupError>)
    ensures r.Ok? <==> |s| == 1
    ensures r.Ok? ==> r.value == s[0]
    ensures r == Err(DoesNotExist) <==> s == []
    ensures r == Err(MultipleObjectsReturned) <==> |s| > 1
  {
    if |s| == 0 then Err(DoesNotExist)
    else if |s| > 1 then Err(MultipleObjectsReturned)
    else Ok(s[0])
  }

  function DistrictsIn(db: Db, nodes: seq<DistrictNode>, region: Code): seq<DistrictNode>
  {
    Where(nodes, (n: DistrictNode) => DistrictRegion(db.districts, n.district), Some(region))
  }

  function DistrictsAt(nodes: seq<DistrictNode>, district: Code): seq<DistrictNode>
  {
    Where(nodes, NodeDistrict, district)
  }

  function RegionalsIn(nodes: seq<RegionalNode>, region: Code): seq<RegionalNode>
  {
    Where(nodes, NodeRegion, region)
  }

  /** `get_regional_var`: all of the variable's regional nodes, or the one of a region, by target. */
  function GetRegionalVar(db: Db, id: VarId, target: Target): Result<Selection, LookupError>
  {
    match target
    case NoTarget => Ok(Regionals(RegionalsOf(db.regionals, id)))
    case CountryTarget(_) => Ok(Regionals(RegionalsOf(db.regionals, id)))
    case RegionTarget(region) =>
      var one :- GetOne(RegionalsIn(RegionalsOf(db.regionals, id), region));
      Ok(OneRegional(one))
    case DistrictTarget(_) => Err(ValueError)
  }

  /** `get_district_var`: the variable's district nodes in a region, or the one of a district, by target. */
  function GetDistrictVar(db: Db, id: VarId, target: Target): Result<Selection, LookupError>
  {
    match target
    case RegionTarget(region) => Ok(Districts(DistrictsIn(db, DistrictVarsOf(db.districtVars, id), region)))
    case DistrictTarget(district) =>
      var one :- GetOne(DistrictsAt(DistrictVarsOf(db.districtVars, id), district));
      Ok(OneDistrict(one))
    case _ => Err(ValueError)
  }

  /** `IndicatorVariable.get`. */
  function Get(db: Db, id: VarId, target: Target, netValue: bool, allDistricts: bool): Result<Selection, LookupError>
  {
    if allDistricts then Ok(Districts(DistrictVarsOf(db.districtVars, id)))
    else
      match target
      case NoTarget => GetNational(db, id, netValue)
      case CountryTarget(_) => GetNational(db, id, netValue)
      case RegionTarget(_) => if netValue then GetRegionalVar(db, id, target) else GetDistrictVar(db, id, target)
      case DistrictTarget(_) => GetDistrictVar(db, id, target)
  }

  /** The country branch of `get`: the national node (a missing one raises), or all regional nodes. */
  function GetNational(db: Db, id: VarId, netValue: bool): Result<Selection, LookupError>
  {
    if netValue then
      var national :- GetOne(NationalsOf(db.nationals, id));
      Ok(OneNational(national))
    else Ok(Regionals(RegionalsOf(db.regionals, id)))
  }

  // ---------------------------------------------------------------------------
  // Properties

  /** In a valid store a national lookup (no target or a country) finds the variable's node exactly when it exists. */
  lemma GetNationalNode(db: Db, id: VarId, target: Target)
    requires DbValid(db)
    requires target.NoTarget? || target.CountryTarget?
    ensures Get(db, id, target, true, false).Ok? <==> NationalFor(db.nationals, id).Some?
    ensures NationalFor(db.nationals, id).Some? ==> Get(db, id, target, true, false) == Ok(OneNational(NationalFor(db.nationals, id).value))
  {
    match NationalFor(db.nationals, id)
    case Some(n) => UniqueWhere(db.nationals, NationalKey, n);
    case None => WhereNone(db.nationals, NationalKey, id);
  }

  /** The two filters of a region lookup are one filter on the regional key. */
  lemma RegionalsInKey(rs: seq<RegionalNode>, id: VarId, region: Code)
    ensures RegionalsIn(RegionalsOf(rs, id), region) == RegionalsAt(rs, RegKey(id, region))
  {
    WhereWhere(rs, RegionalVar, id, NodeRegion, region, RegionalKey, RegKey(id, region));
  }

  /** In a valid store a region lookup finds the node keyed on (variable, region), and never raises MultipleObjectsReturned. */
  lemma GetRegionalNode(db: Db, id: VarId, region: Code)
    requires DbValid(db)
    ensures var r := Get(db, id, RegionTarget(region), true, false);
      && (r.Ok? <==> RegionalFor(db.regionals, RegKey(id, region)).Some?)
      && (r.Ok? ==> r.value == OneRegional(RegionalFor(db.regionals, RegKey(id, region)).value))
      && r != Err(MultipleObjectsReturned)
  {
    GetRegionalAt(db, id, region);
  }

  /** A region lookup in a key-unique regional table. */
  lemma GetRegionalAt(db: Db, id: VarId, region: Code)
    requires UniqueBy(db.regionals, RegionalKey)
    ensures var r := Get(db, id, RegionTarget(region), true, false);
      && (r.Ok? <==> RegionalFor(db.regionals, RegKey(id, region)).Some?)
      && (r.Ok? ==> r.value == OneRegional(RegionalFor(db.regionals, RegKey(id, region)).value))
      && r != Err(MultipleObjectsReturned)
  {
    RegionalsInKey(db.regionals, id, region);
    RegionalsAtOne(db.regionals, RegKey(id, region));
  }

  /** In a key-unique regional table, the nodes at a key are its lookup's node, or none. */
  lemma RegionalsAtOne(rs: seq<RegionalNode>, key: RegKey)
    requires UniqueBy(rs, RegionalKey)
    ensures RegionalFor(rs, key).Some? ==> RegionalsAt(rs, key) == [RegionalFor(rs, key).value]
    ensures RegionalFor(rs, key).None? ==> RegionalsAt(rs, key) == []
  {
    match RegionalFor(rs, key)
    case Some(n) => UniqueWhere(rs, RegionalKey, n);
    case None => WhereNone(rs, RegionalKey, key);
  }

  /** The region a district code lies in, or the empty code for an unknown district. */
  function RegionOfDistrict(db: Db, district: Code): Code
  {
    match DistrictRegion(db.districts, district)
    case Some(region) => region
    case None => ""
  }

  /** In a valid store the two filters of a district lookup are one filter on the district key. */
  lemma DistrictsAtKey(db: Db, id: VarId, district: Code)
    requires DbValid(db)
    ensures DistrictsAt(DistrictVarsOf(db.districtVars, id), district)
         == DistrictVarsAt(db.districtVars, DisKey(RegKey(id, RegionOfDistrict(db, district)), district))
  {
    var k := DisKey(RegKey(id, RegionOfDistrict(db, district)), district);
    forall x | x in db.districtVars
      ensures DistrictVar(x) == id && x.district == district <==> DistrictKey(x) == k
    {
      assert DistrictVarOk(db.districts, db.regionals, x);
    }
    WhereWhere(db.districtVars, DistrictVar, id, NodeDistrict, district, DistrictKey, k);
  }

  /** In a valid store a district lookup never raises MultipleObjectsReturned, and finds the variable's node of that district exactly when there is one. */
  lemma GetDistrictNode(db: Db, id: VarId, district: Code)
    requires DbValid(db)
    ensures var r := Get(db, id, DistrictTarget(district), true, false);
      && r != Err(MultipleObjectsReturned)
      && (r.Ok? <==> exists n :: n in db.districtVars && DistrictVar(n) == id && n.district == district)
      && (r.Ok? ==> r.value.OneDistrict? && r.value.district in db.districtVars
                    && r.value.district.district == district && DistrictVar(r.value.district) == id)
  {
    DistrictLookupUnique(db, id, district);
    GetDistrictAt(db, id, district);
  }

  /** A district lookup that at most one node passes. */
  lemma GetDistrictAt(db: Db, id: VarId, district: Code)
    requires |DistrictsAt(DistrictVarsOf(db.districtVars, id), district)| <= 1
    ensures var r := Get(db, id, DistrictTarget(district), true, false);
      && r != Err(MultipleObjectsReturned)
      && (r.Ok? <==> exists n :: n in db.districtVars && DistrictVar(n) == id && n.district == district)
      && (r.Ok? ==> r.value.OneDistrict? && r.value.district in db.districtVars
                    && r.value.district.district == district && DistrictVar(r.value.district) == id)
  {
    GetDistrictOne(db.districtVars, id, district);
  }

  lemma DistrictLookupUnique(db: Db, id: VarId, district: Code)
    requires DbValid(db)
    ensures |DistrictsAt(DistrictVarsOf(db.districtVars, id), district)| <= 1
  {
    DistrictsAtKey(db, id, district);
    var k := DisKey(RegKey(id, RegionOfDistrict(db, district)), district);
    assert |Where(db.districtVars, DistrictKey, k)| <= 1;
  }

  lemma GetDistrictOne(ds: seq<DistrictNode>, id: VarId, district: Code)
    requires |DistrictsAt(DistrictVarsOf(ds, id), district)| <= 1
    ensures var r := GetOne(DistrictsAt(DistrictVarsOf(ds, id), district));
      && r != Err(MultipleObjectsReturned)
      && (r.Ok? <==> exists n :: n in ds && DistrictVar(n) == id && n.district == district)
      && (r.Ok? ==> r.value in ds && r.value.district == district && DistrictVar(r.value) == id)
  {
    var s := DistrictsAt(DistrictVarsOf(ds, id), district);
    assert forall n :: n in s <==> n in ds && DistrictVar(n) == id && n.district == district;
    if |s| == 1 {
      assert s[0] in s;
    }
  }

  /** A region lookup without the net value lists exactly the variable's district nodes in that region. */
  lemma GetDistrictsOfRegion(db: Db, id: VarId, region: Code)
    ensures var r := Get(db, id, RegionTarget(region), false, false);
      && r.Ok? && r.value.Districts?
      && forall n :: n in r.value.districts <==>
           n in db.districtVars && DistrictVar(n) == id && DistrictRegion(db.districts, n.district) == Some(region)
  {
  }
}
