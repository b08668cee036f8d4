/**
 * The variable tree of one indicator variable and its reconciliation, as pure
 * transitions of a database snapshot: the get-or-create and delete operations
 * of IndicatorVariable, NationalIndicatorVariable and RegionalIndicatorVariable,
 * the `create_indicator_vars` post-save handler that chains them by level, and
 * the `create_regions` handler. The Store class performs the same transitions
 * in place.
 */
module Tree {
  import opened Wrappers
  import opened Tables
  import opened Choices
  import opened Geo
  import opened Schema

  // ---------------------------------------------------------------------------
  // Get-or-create

  function NewNational(v: IndicatorVariable): NationalNode
  {
    NationalNode(NationalName(v), v.id)
  }

  /** `get_create_national_var`: keyed on the variable; the name is only a default. */
  function GetCreateNational(db: Db, v: IndicatorVariable): (r: Db)
    ensures NationalFor(r.nationals, v.id).Some?
  {
    if NationalFor(db.nationals, v.id).Some? then db
    else
      assert NewNational(v) in db.nationals + [NewNational(v)];
      db.(nationals := db.nationals + [NewNational(v)])
  }

  function RegionalNodeFor(national: NationalNode, r: Region): RegionalNode
  {
    RegionalNode(RegionalName(national, r.code), r.code, national.indicatorVar)
  }

  /** A get-or-create whose lookup names every field of the row. */
  function AddMissing<T(==)>(s: seq<T>, x: T): seq<T>
  {
    if x in s then s else s + [x]
  }

  /** The loop of `get_create_regional_vars` over a list of regions. */
  function GetCreateRegionalsOver(rs: seq<RegionalNode>, national: NationalNode, regs: seq<Region>): seq<RegionalNode>
    decreases |regs|
  {
    if regs == [] then rs
    else AddMissing(GetCreateRegionalsOver(rs, national, regs[..|regs| - 1]), RegionalNodeFor(national, regs[|regs| - 1]))
  }

  /** `get_create_regional_vars`: one node per region of the variable's country. */
  function GetCreateRegionals(db: Db, v: IndicatorVariable): Db
    requires NationalFor(db.nationals, v.id).Some?
  {
    db.(regionals := GetCreateRegionalsOver(db.regionals, NationalFor(db.nationals, v.id).value, RegionsOf(db.regions, v.country)))
  }

  function DistrictNodeFor(regional: RegionalNode, d: District): DistrictNode
  {
    DistrictNode(DistrictName(regional), d.code, regional.Key())
  }

  /** Every district of the variable's country has a regional node to hang from. */
  ghost predicate RegionalsCover(db: Db, v: IndicatorVariable)
  {
    forall d :: d in DistrictsOfCountry(db.regions, db.districts, v.country) ==>
      RegionalFor(db.regionals, RegKey(v.id, d.region)).Some?
  }

  /**
   * The loop of `RegionalIndicatorVariable.get_create_district_vars` over a list
   * of districts: each district gets a node under the regional node of its own
   * region, keyed on (regional node, district).
   */
  function GetCreateDistrictVarsOver(ds: seq<DistrictNode>, rs: seq<RegionalNode>, id: VarId, dists: seq<District>): seq<DistrictNode>
    requires forall d :: d in dists ==> RegionalFor(rs, RegKey(id, d.region)).Some?
    decreases |dists|
  {
    if dists == [] then ds
    else
      var before := GetCreateDistrictVarsOver(ds, rs, id, dists[..|dists| - 1]);
      var d := dists[|dists| - 1];
      var regional := RegionalFor(rs, RegKey(id, d.region)).value;
      if DistrictVarFor(before, DisKey(regional.Key(), d.code)).Some? then before
      else before + [DistrictNodeFor(regional, d)]
  }

  /**
   * The same loop as the source writes it: the lookup includes the name, which
   * derives from the regional node `caller` that runs the loop, not from the
   * node the district is attached to. Kept only to exhibit the duplicates it
   * creates; the model uses GetCreateDistrictVarsOver.
   */
  function GetCreateDistrictVarsAsWritten(ds: seq<DistrictNode>, rs: seq<RegionalNode>, id: VarId, caller: RegionalNode, dists: seq<District>): (r: seq<DistrictNode>)
    requires forall d :: d in dists ==> RegionalFor(rs, RegKey(id, d.region)).Some?
    ensures |ds| <= |r| && r[..|ds|] == ds
    decreases |dists|
  {
    if dists == [] then ds
    else
      var before := GetCreateDistrictVarsAsWritten(ds, rs, id, caller, dists[..|dists| - 1]);
      var d := dists[|dists| - 1];
      var regional := RegionalFor(rs, RegKey(id, d.region)).value;
      var node := DistrictNode(DistrictName(caller), d.code, regional.Key());
      if node in before then before
      else
        assert (before + [node])[..|ds|] == before[..|ds|];
        before + [node]
  }

  /** `RegionalIndicatorVariable.get_create_district_vars` (it does not depend on which regional node runs it). */
  function GetCreateDistrictVars(db: Db, v: IndicatorVariable): (r: Db)
    requires RegionalsCover(db, v)
    ensures r == db.(districtVars := r.districtVars)
  {
    db.(districtVars := GetCreateDistrictVarsOver(db.districtVars, db.regionals, v.id,
                                                  DistrictsOfCountry(db.regions, db.districts, v.country)))
  }

  /** The regional get-or-create of district nodes run n times in a row. */
  function GetCreateDistrictVarsTimes(db: Db, v: IndicatorVariable, n: nat): (r: Db)
    requires RegionalsCover(db, v)
    ensures r == db.(districtVars := r.districtVars)
    decreases n
  {
    if n == 0 then db else GetCreateDistrictVars(GetCreateDistrictVarsTimes(db, v, n - 1), v)
  }

  /** `IndicatorVariable.create_district_vars`: the regional operation once per regional node of the variable. */
  function CreateDistrictVars(db: Db, v: IndicatorVariable): Db
    requires RegionalsCover(db, v)
  {
    GetCreateDistrictVarsTimes(db, v, |RegionalsOf(db.regionals, v.id)|)
  }

  // ---------------------------------------------------------------------------
  // Deletes, with the database's cascade to dependent rows

  /** Deletes the district nodes under the given regional nodes, and their value rows. */
  function DeleteDistrictVarsUnder(db: Db, keys: set<RegKey>): Db
  {
    db.(districtVars := Reject(db.districtVars, DistrictRegional, keys),
        districtValues := Reject(db.districtValues, RowKey,
                                 KeysOf(Select(db.districtVars, DistrictRegional, keys), DistrictKey)))
  }

  /** `RegionalIndicatorVariable.delete_district_vars`. */
  function DeleteDistrictVarsAt(db: Db, key: RegKey): Db
  {
    DeleteDistrictVarsUnder(db, {key})
  }

  /** The loop of `IndicatorVariable.delete_district_vars` over a list of regional nodes. */
  function DeleteDistrictVarsOver(db: Db, rvs: seq<RegionalNode>): Db
    decreases |rvs|
  {
    if rvs == [] then db
    else DeleteDistrictVarsAt(DeleteDistrictVarsOver(db, rvs[..|rvs| - 1]), rvs[|rvs| - 1].Key())
  }

  /** `IndicatorVariable.delete_district_vars`. */
  function DeleteDistrictVars(db: Db, id: VarId): Db
  {
    DeleteDistrictVarsOver(db, RegionalsOf(db.regionals, id))
  }

  /** `delete_regional_vars`: the variable's regional nodes go, and by cascade their district nodes and all their value rows. */
  function DeleteRegionals(db: Db, id: VarId): Db
  {
    var keys := KeysOf(RegionalsOf(db.regionals, id), RegionalKey);
    DeleteDistrictVarsUnder(db, keys).(
      regionals := Reject(db.regionals, RegionalVar, {id}),
      regionalValues := Reject(db.regionalValues, RowKey, keys))
  }

  /** `delete_national_var`: the national node goes, and by cascade everything below it. */
  function DeleteNational(db: Db, id: VarId): Db
  {
    DeleteRegionals(db, id).(
      nationals := Reject(db.nationals, NationalKey, {id}),
      nationalValues := Reject(db.nationalValues, RowKey, {id}))
  }

  // ---------------------------------------------------------------------------
  // The post-save handlers

  /**
   * `create_indicator_vars`, run after every save of a variable. At District
   * level the source calls a `get_create_district_vars` that IndicatorVariable
   * does not define; the method it defines for this, `create_district_vars`,
   * is what runs here.
   */
  function Reconcile(db: Db, v: IndicatorVariable): Db
  {
    var withNational := GetCreateNational(db, v);
    match v.level
    case National => DeleteRegionals(withNational, v.id)
    case Regional => DeleteDistrictVars(GetCreateRegionals(withNational, v), v.id)
    case District =>
      var withRegionals := GetCreateRegionals(withNational, v);
      CoverAfterGetCreateRegionals(withNational, v);
      CreateDistrictVars(withRegionals, v)
  }

  /** The regions after seeding, and the code of the subdivision whose insert failed, if one did. */
  datatype Seeding = Seeding(regions: seq<Region>, failed: Option<Code>)

  /**
   * The loop of `create_regions`: one region per subdivision, in order. Region
   * codes are unique, so an insert whose code is taken raises an integrity
   * error and ends the loop; the regions inserted before it stay.
   */
  function CreateRegionsOver(regions: seq<Region>, country: Code, subs: seq<Subdivision>): Seeding
    decreases |subs|
  {
    if subs == [] then Seeding(regions, None)
    else if RegionCountry(regions, subs[0].code).Some? then Seeding(regions, Some(subs[0].code))
    else CreateRegionsOver(regions + [Region(subs[0].name, subs[0].code, country)], country, subs[1..])
  }

  /** `create_regions`, run after every save of a country: only the save that creates the country seeds its regions. */
  function CreateRegions(db: Db, country: Code, created: bool, subs: seq<Subdivision>): (Db, Option<Code>)
  {
    if !created then (db, None)
    else
      var seeded := CreateRegionsOver(db.regions, country, subs);
      (db.(regions := seeded.regions), seeded.failed)
  }

  // ---------------------------------------------------------------------------
  // Results of the get-or-create loops

  lemma GetCreateRegionalsOverFacts(rs: seq<RegionalNode>, national: NationalNode, regs: seq<Region>)
    ensures var r := GetCreateRegionalsOver(rs, national, regs);
      && |rs| <= |r| && r[..|rs|] == rs
      && (forall x :: x in regs ==> RegionalNodeFor(national, x) in r)
      && (forall n :: n in r[|rs|..] ==> exists x :: x in regs && n == RegionalNodeFor(national, x))
  {
    RegionalsOverPrefix(rs, national, regs);
    RegionalsOverHas(rs, national, regs);
    RegionalsOverNew(rs, national, regs);
  }

  lemma {:induction false} RegionalsOverPrefix(rs: seq<RegionalNode>, national: NationalNode, regs: seq<Region>)
    ensures var r := GetCreateRegionalsOver(rs, national, regs); |rs| <= |r| && r[..|rs|] == rs
    decreases |regs|
  {
    if regs != [] {
      var before := GetCreateRegionalsOver(rs, national, regs[..|regs| - 1]);
      RegionalsOverPrefix(rs, national, regs[..|regs| - 1]);
      var n := RegionalNodeFor(national, regs[|regs| - 1]);
      if n !in before {
        assert (before + [n])[..|rs|] == before[..|rs|];
      }
    }
  }

  lemma {:induction false} RegionalsOverHas(rs: seq<RegionalNode>, national: NationalNode, regs: seq<Region>)
    ensures forall x :: x in regs ==> RegionalNodeFor(national, x) in GetCreateRegionalsOver(rs, national, regs)
    decreases |regs|
  {
    if regs != [] {
      var init := regs[..|regs| - 1];
      RegionalsOverHas(rs, national, init);
      forall x | x in regs
        ensures RegionalNodeFor(national, x) in GetCreateRegionalsOver(rs, national, regs)
      {
        InitOrLast(regs, x);
      }
    }
  }

  lemma {:induction false} RegionalsOverNew(rs: seq<RegionalNode>, national: NationalNode, regs: seq<Region>)
    ensures var r := GetCreateRegionalsOver(rs, national, regs);
      |rs| <= |r| && forall n :: n in r[|rs|..] ==> exists x :: x in regs && n == RegionalNodeFor(national, x)
    decreases |regs|
  {
    if regs != [] {
      var init := regs[..|regs| - 1];
      var last := regs[|regs| - 1];
      RegionalsOverNew(rs, national, init);
      var before := GetCreateRegionalsOver(rs, national, init);
      assert forall x :: x in init ==> x in regs;
      var n := RegionalNodeFor(national, last);
      if n !in before {
        assert (before + [n])[|rs|..] == before[|rs|..] + [n];
        assert last in regs;
      }
    }
  }

  lemma CoverAfterGetCreateRegionals(db: Db, v: IndicatorVariable)
    requires NationalFor(db.nationals, v.id).Some?
    ensures RegionalsCover(GetCreateRegionals(db, v), v)
  {
    var national := NationalFor(db.nationals, v.id).value;
    var after := GetCreateRegionals(db, v);
    GetCreateRegionalsOverFacts(db.regionals, national, RegionsOf(db.regions, v.country));
    forall d | d in DistrictsOfCountry(after.regions, after.districts, v.country)
      ensures RegionalFor(after.regionals, RegKey(v.id, d.region)).Some?
    {
      var r := First(db.regions, RegionCode, d.region).value;
      assert r in RegionsOf(db.regions, v.country);
      var n := RegionalNodeFor(national, r);
      assert n in after.regionals && n.Key() == RegKey(v.id, d.region);
    }
  }
}
