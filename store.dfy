/**
 * The database as mutable state: one field per table, and the model methods
 * of IndicatorVariable, NationalIndicatorVariable and RegionalIndicatorVariable
 * and the two post-save handlers as methods that change those tables in place,
 * with the loops the source runs. Each method is proved to perform the
 * corresponding transition of module Tree, whose properties TreeFacts proves.
 */
module Store {
  import opened Wrappers
  import opened Tables
  import opened Choices
  import opened Geo
  import opened Schema
  import opened Tree
  import opened TreeFacts
  import Lookup

  class Store {
    var regions: seq<Region>
    var districts: seq<District>
    var nationals: seq<NationalNode>
    var regionals: seq<RegionalNode>
    var districtVars: seq<DistrictNode>
    var nationalValues: seq<ValueRow<VarId>>
    var regionalValues: seq<ValueRow<RegKey>>
    var districtValues: seq<ValueRow<DisKey>>

    function Snapshot(): Db
      reads this
    {
      Db(regions, districts, nationals, regionals, districtVars, nationalValues, regionalValues, districtValues)
    }

    /** The integrity the database keeps between operations. */
    ghost predicate Valid()
      reads this
    {
      DbValid(Snapshot())
    }

    constructor(db: Db)
      requires DbValid(db)
      ensures Snapshot() == db && Valid()
    {
      regions, districts := db.regions, db.districts;
      nationals, regionals, districtVars := db.nationals, db.regionals, db.districtVars;
      nationalValues, regionalValues, districtValues := db.nationalValues, db.regionalValues, db.districtValues;
    }

    /** `IndicatorVariable.get_create_national_var`. */
    method GetCreateNationalVar(v: IndicatorVariable)
      requires Valid()
      modifies this
      ensures Snapshot() == GetCreateNational(old(Snapshot()), v)
      ensures Valid() && |NationalsOf(nationals, v.id)| == 1
    {
      GetCreateNationalValid(Snapshot(), v);
      if NationalFor(nationals, v.id).None? {
        nationals := nationals + [NewNational(v)];
      }
    }

    /** `NationalIndicatorVariable.get_create_regional_vars`, run through the variable. */
    method GetCreateRegionalVars(v: IndicatorVariable)
      requires Valid() && NationalFor(nationals, v.id).Some?
      modifies this
      ensures Snapshot() == GetCreateRegionals(old(Snapshot()), v)
      ensures Valid() && RegionalsComplete(Snapshot(), v)
    {
      ghost var start := Snapshot();
      var national := NationalFor(nationals, v.id).value;
      var regs := RegionsOf(regions, v.country);
      for i := 0 to |regs|
        modifies this`regionals
        invariant regionals == GetCreateRegionalsOver(old(regionals), national, regs[..i])
      {
        assert regs[..i + 1][..i] == regs[..i];
        var node := RegionalNodeFor(national, regs[i]);
        if node !in regionals {
          regionals := regionals + [node];
        }
      }
      assert regs[..|regs|] == regs;
      GetCreateRegionalsValid(start, v);
    }

    /** `NationalIndicatorVariable.delete_regional_vars`: one bulk delete, and the database's cascade. */
    method DeleteRegionalVars(id: VarId)
      requires Valid()
      modifies this
      ensures Snapshot() == DeleteRegionals(old(Snapshot()), id)
      ensures Valid() && RegionalsOf(regionals, id) == [] && DistrictVarsOf(districtVars, id) == []
    {
      DeleteRegionalsNodes(Snapshot(), id);
      DeleteRegionalsRows(Snapshot(), id);
      RejectVarFacts(regionals, id);
      var keys := KeysOf(RegionalsOf(regionals, id), RegionalKey);
      var goneDistricts := KeysOf(Select(districtVars, DistrictRegional, keys), DistrictKey);
      regionals := Reject(regionals, RegionalVar, {id});
      districtVars := Reject(districtVars, DistrictRegional, keys);
      regionalValues := Reject(regionalValues, RowKey, keys);
      districtValues := Reject(districtValues, RowKey, goneDistricts);
    }

    /** `RegionalIndicatorVariable.delete_district_vars`: one bulk delete, and the database's cascade. */
    method DeleteDistrictVarsAt(key: RegKey)
      requires Valid()
      modifies this
      ensures Snapshot() == Tree.DeleteDistrictVarsAt(old(Snapshot()), key)
      ensures Valid() && forall n :: n in districtVars ==> n.regionalVar != key
    {
      DeleteDistrictVarsAtValid(Snapshot(), key);
      var goneDistricts := KeysOf(Select(districtVars, DistrictRegional, {key}), DistrictKey);
      districtVars := Reject(districtVars, DistrictRegional, {key});
      districtValues := Reject(districtValues, RowKey, goneDistricts);
    }

    /** `IndicatorVariable.delete_district_vars`: the regional delete for each regional node of the variable. */
    method DeleteDistrictVars(id: VarId)
      requires Valid()
      modifies this
      ensures Snapshot() == Tree.DeleteDistrictVars(old(Snapshot()), id)
      ensures Valid() && DistrictVarsOf(districtVars, id) == []
    {
      ghost var start := Snapshot();
      var rvs := RegionalsOf(regionals, id);
      for i := 0 to |rvs|
        invariant Snapshot() == DeleteDistrictVarsOver(start, rvs[..i])
      {
        assert rvs[..i + 1][..i] == rvs[..i];
        DeleteDistrictVarsOverValid(start, rvs[..i]);
        DeleteDistrictVarsAt(rvs[i].Key());
      }
      assert rvs[..|rvs|] == rvs;
      DeleteDistrictVarsValid(start, id);
    }

    /**
     * `RegionalIndicatorVariable.get_create_district_vars`: for each district of
     * the variable's country, get-or-create its node under the regional node of
     * the district's own region.
     */
    method GetCreateDistrictVars(v: IndicatorVariable)
      requires Valid() && RegionalsCover(Snapshot(), v)
      modifies this
      ensures Snapshot() == Tree.GetCreateDistrictVars(old(Snapshot()), v)
      ensures Valid() && DistrictVarsComplete(Snapshot(), v)
    {
      GetCreateDistrictVarsValid(Snapshot(), v);
      var dists := DistrictsOfCountry(regions, districts, v.country);
      AddDistrictNodes(v.id, dists);
    }

    /** The loop of `get_create_district_vars` over the given districts, each of which has its region's regional node. */
    method AddDistrictNodes(id: VarId, dists: seq<District>)
      requires forall d :: d in dists ==> RegionalFor(regionals, RegKey(id, d.region)).Some?
      modifies this`districtVars
      ensures districtVars == GetCreateDistrictVarsOver(old(districtVars), regionals, id, dists)
    {
      for i := 0 to |dists|
        invariant districtVars == GetCreateDistrictVarsOver(old(districtVars), regionals, id, dists[..i])
      {
        GetCreateDistrictVarsOverStep(old(districtVars), regionals, id, dists, i);
        var regional := RegionalFor(regionals, RegKey(id, dists[i].region)).value;
        if DistrictVarFor(districtVars, DisKey(regional.Key(), dists[i].code)).None? {
          districtVars := districtVars + [DistrictNodeFor(regional, dists[i])];
        }
      }
      assert dists[..|dists|] == dists;
    }

    /** `IndicatorVariable.create_district_vars`: the regional get-or-create once per regional node of the variable. */
    method CreateDistrictVars(v: IndicatorVariable)
      requires Valid() && RegionalsCover(Snapshot(), v)
      modifies this
      ensures Snapshot() == Tree.CreateDistrictVars(old(Snapshot()), v)
      ensures Valid()
    {
      var rvs := RegionalsOf(regionals, v.id);
      ghost var start := Snapshot();
      for i := 0 to |rvs|
        invariant Snapshot() == GetCreateDistrictVarsTimes(start, v, i)
      {
        GetCreateDistrictVarsTimesValid(start, v, i);
        GetCreateDistrictVars(v);
      }
      GetCreateDistrictVarsTimesValid(start, v, |rvs|);
    }

    /**
     * `IndicatorVariable.delete_national_var`: the national node goes, and by
     * cascade everything below it. Reading `national_var` of a variable that
     * has no national node raises DoesNotExist, and nothing is deleted.
     */
    method DeleteNationalVar(id: VarId) returns (error: Option<Lookup.LookupError>)
      requires Valid()
      modifies this
      ensures error.Some? <==> NationalFor(old(nationals), id).None?
      ensures error.Some? ==> error == Some(Lookup.DoesNotExist) && Snapshot() == old(Snapshot())
      ensures error.None? ==> Snapshot() == DeleteNational(old(Snapshot()), id)
      ensures Valid() && NationalsOf(nationals, id) == [] && RegionalsOf(regionals, id) == []
      ensures DistrictVarsOf(districtVars, id) == []
    {
      if NationalFor(nationals, id).None? {
        NoNationalNoTree(Snapshot(), id);
        return Some(Lookup.DoesNotExist);
      }
      DeleteNationalValid(Snapshot(), id);
      DeleteRegionalVars(id);
      nationals := Reject(nationals, NationalKey, {id});
      nationalValues := Reject(nationalValues, RowKey, {id});
      error := None;
    }

    /** The `create_indicator_vars` post-save handler. */
    method CreateIndicatorVars(v: IndicatorVariable)
      requires Valid()
      modifies this
      ensures Snapshot() == Reconcile(old(Snapshot()), v)
      ensures Valid() && TreeShaped(Snapshot(), v) && SameForOthers(old(Snapshot()), Snapshot(), v.id)
    {
      ReconcileValid(Snapshot(), v);
      match v.level {
        case National =>
          GetCreateNationalVar(v);
          DeleteRegionalVars(v.id);
        case Regional =>
          GetCreateNationalVar(v);
          GetCreateRegionalVars(v);
          DeleteDistrictVars(v.id);
        case District =>
          GetCreateNationalVar(v);
          ghost var withNational := Snapshot();
          GetCreateRegionalVars(v);
          CoverAfterGetCreateRegionals(withNational, v);
          CreateDistrictVars(v);
      }
    }

    /** The `create_regions` post-save handler; `failed` is the code of the subdivision whose insert raised. */
    method CreateRegions(country: Code, created: bool, subs: seq<Subdivision>) returns (failed: Option<Code>)
      requires Valid()
      modifies this
      ensures (Snapshot(), failed) == Tree.CreateRegions(old(Snapshot()), country, created, subs)
      ensures Valid()
    {
      CreateRegionsValid(Snapshot(), country, created, subs);
      failed := None;
      if created {
        var i := 0;
        while i < |subs|
          invariant 0 <= i <= |subs|
          invariant CreateRegionsOver(regions, country, subs[i..]) == CreateRegionsOver(old(regions), country, subs)
          invariant Snapshot() == old(Snapshot()).(regions := regions)
        {
          var s := subs[i];
          assert subs[i..][1..] == subs[i + 1..];
          if RegionCountry(regions, s.code).Some? {
            failed := Some(s.code);
            return;
          }
          regions := regions + [Region(s.name, s.code, country)];
          i := i + 1;
        }
      }
    }
  }
}
