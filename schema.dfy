/**
 * The rows of the indicator-variable tables: the variable itself, its National,
 * Regional and District nodes, and the three per-tier value tables, gathered
 * into one database snapshot `Db`, with the integrity the modelled operations
 * establish and preserve. The database itself enforces only the one-to-one
 * national key and the foreign keys; the uniqueness of the regional and
 * district keys and the derived node names are invariants of the operations.
 *
 * Node identity follows the natural keys the get-or-create calls use: a
 * national node is known by its variable (a one-to-one field), a regional node
 * by (variable, region) and a district node by (regional node, district).
 * `DistrictIndicatorVariable` declares no `district` field although its
 * get-or-create keys on one; the model gives it that field.
 */
module Schema {
  import opened Wrappers
  import opened Tables
  import opened Choices
  import opened Geo

  type VarId = nat

  /** A date, as a day number. */
  type Date = int

  datatype IndicatorVariable = IndicatorVariable(
    id: VarId,
    name: string,
    code: string,
    country: Code,
    valueType: ValueType,
    level: AggregationLevel,
    computeFormat: CalFormat)

  datatype NationalNode = NationalNode(name: string, indicatorVar: VarId)

  datatype RegKey = RegKey(variable: VarId, region: Code)

  datatype RegionalNode = RegionalNode(name: string, region: Code, nationalVar: VarId) {
    function Key(): RegKey { RegKey(nationalVar, region) }
  }

  datatype DisKey = DisKey(regional: RegKey, district: Code)

  datatype DistrictNode = DistrictNode(name: string, district: Code, regionalVar: RegKey) {
    function Key(): DisKey { DisKey(regionalVar, district) }
  }

  /** A row of NationalVarValue, RegionalVarValue or DistrictVarValue; `variable` is the owning node's key. */
  datatype ValueRow<K> = ValueRow(period: Date, amount: real, variable: K)

  datatype Db = Db(
    regions: seq<Region>,
    districts: seq<District>,
    nationals: seq<NationalNode>,
    regionals: seq<RegionalNode>,
    districtVars: seq<DistrictNode>,
    nationalValues: seq<ValueRow<VarId>>,
    regionalValues: seq<ValueRow<RegKey>>,
    districtValues: seq<ValueRow<DisKey>>)

  // ---------------------------------------------------------------------------
  // Names given to new nodes

  /** `self.country.code + ' ' + self.name`. */
  function NationalName(v: IndicatorVariable): string { v.country + " " + v.name }

  /** `self.name + ' ' + region.code`, self being the national node. */
  function RegionalName(national: NationalNode, region: Code): string { national.name + " " + region }

  /**
   * The source writes `self.name + '_' + self.name` with self the regional node
   * that happens to run the loop; here it is the regional node the new district
   * node is attached to, so the name no longer depends on the caller.
   */
  function DistrictName(regional: RegionalNode): string { regional.name + "_" + regional.name }

  // ---------------------------------------------------------------------------
  // Keys, as functions for the table queries

  function NationalKey(n: NationalNode): VarId { n.indicatorVar }

  function RegionalKey(n: RegionalNode): RegKey { n.Key() }

  function RegionalVar(n: RegionalNode): VarId { n.nationalVar }

  function NodeRegion(n: RegionalNode): Code { n.region }

  function NodeDistrict(n: DistrictNode): Code { n.district }

  function DistrictKey(n: DistrictNode): DisKey { n.Key() }

  function DistrictRegional(n: DistrictNode): RegKey { n.regionalVar }

  function DistrictVar(n: DistrictNode): VarId { n.regionalVar.variable }

  function RowKey<K>(r: ValueRow<K>): K { r.variable }

  /** The variable a regional or district value row belongs to. */
  function RegionalRowVar(r: ValueRow<RegKey>): VarId { r.variable.variable }

  function DistrictRowVar(r: ValueRow<DisKey>): VarId { r.variable.regional.variable }

  // ---------------------------------------------------------------------------
  // Queries

  /** `NationalIndicatorVariable.objects.filter(indicator_var=id)`. */
  function NationalsOf(ns: seq<NationalNode>, id: VarId): seq<NationalNode> { Where(ns, NationalKey, id) }

  /** `indicator_var.national_var`, None where the reverse one-to-one access would raise. */
  function NationalFor(ns: seq<NationalNode>, id: VarId): Option<NationalNode> { First(ns, NationalKey, id) }

  /** `get_all_regional_vars`: the regional nodes under the variable's national node. */
  function RegionalsOf(rs: seq<RegionalNode>, id: VarId): seq<RegionalNode> { Where(rs, RegionalVar, id) }

  /** `filter(national_var=..., region=...)`. */
  function RegionalsAt(rs: seq<RegionalNode>, key: RegKey): seq<RegionalNode> { Where(rs, RegionalKey, key) }

  function RegionalFor(rs: seq<RegionalNode>, key: RegKey): Option<RegionalNode> { First(rs, RegionalKey, key) }

  /** `get_all_district_vars`: district nodes under the variable's regional nodes. */
  function DistrictVarsOf(ds: seq<DistrictNode>, id: VarId): seq<DistrictNode> { Where(ds, DistrictVar, id) }

  function DistrictVarsAt(ds: seq<DistrictNode>, key: DisKey): seq<DistrictNode> { Where(ds, DistrictKey, key) }

  function DistrictVarFor(ds: seq<DistrictNode>, key: DisKey): Option<DistrictNode> { First(ds, DistrictKey, key) }

  /** The value rows of a variable's national node, of its regional nodes and of its district nodes. */
  function NationalValuesOf(rows: seq<ValueRow<VarId>>, id: VarId): seq<ValueRow<VarId>> { Where(rows, RowKey, id) }

  function RegionalValuesOf(rows: seq<ValueRow<RegKey>>, id: VarId): seq<ValueRow<RegKey>> { Where(rows, RegionalRowVar, id) }

  function DistrictValuesOf(rows: seq<ValueRow<DisKey>>, id: VarId): seq<ValueRow<DisKey>> { Where(rows, DistrictRowVar, id) }

  // ---------------------------------------------------------------------------
  // Integrity

  /** A regional node's region exists and its name derives from its national node's. */
  ghost predicate RegionalOk(regions: seq<Region>, ns: seq<NationalNode>, n: RegionalNode)
  {
    && RegionCountry(regions, n.region).Some?
    && NationalFor(ns, n.nationalVar).Some?
    && n.name == RegionalName(NationalFor(ns, n.nationalVar).value, n.region)
  }

  /** A district node's district lies in its regional node's region, and its name derives from that node's. */
  ghost predicate DistrictVarOk(districts: seq<District>, rs: seq<RegionalNode>, n: DistrictNode)
  {
    && DistrictRegion(districts, n.district) == Some(n.regionalVar.region)
    && RegionalFor(rs, n.regionalVar).Some?
    && n.name == DistrictName(RegionalFor(rs, n.regionalVar).value)
  }

  ghost predicate NodesValid(db: Db)
  {
    && UniqueBy(db.nationals, NationalKey)
    && UniqueBy(db.regionals, RegionalKey)
    && UniqueBy(db.districtVars, DistrictKey)
    && (forall n :: n in db.regionals ==> RegionalOk(db.regions, db.nationals, n))
    && (forall n :: n in db.districtVars ==> DistrictVarOk(db.districts, db.regionals, n))
  }

  /** Every value row belongs to a stored node (the foreign keys). */
  ghost predicate ValuesValid(db: Db)
  {
    && (forall r :: r in db.nationalValues ==> NationalFor(db.nationals, r.variable).Some?)
    && (forall r :: r in db.regionalValues ==> RegionalFor(db.regionals, r.variable).Some?)
    && (forall r :: r in db.districtValues ==> DistrictVarFor(db.districtVars, r.variable).Some?)
  }

  /**
   * The invariant the modelled operations establish and preserve: unique
   * keys, existing parents, derived names. Only the national key and the
   * parents are database constraints.
   */
  ghost predicate DbValid(db: Db)
  {
    GeoValid(db.regions, db.districts) && NodesValid(db) && ValuesValid(db)
  }

  // ---------------------------------------------------------------------------
  // Facts about lookups

  lemma RegionalForKey(rs: seq<RegionalNode>, key: RegKey)
    requires RegionalFor(rs, key).Some?
    ensures RegionalFor(rs, key).value.Key() == key
    ensures RegionalFor(rs, key).value.nationalVar == key.variable
    ensures RegionalFor(rs, key).value.region == key.region
  {
  }

  /** In a key-unique table the lookup finds the row with that key. */
  lemma RegionalForMember(rs: seq<RegionalNode>, n: RegionalNode)
    requires UniqueBy(rs, RegionalKey) && n in rs
    ensures RegionalFor(rs, n.Key()) == Some(n)
  {
    UniqueWhere(rs, RegionalKey, n);
  }

  lemma NationalForMember(ns: seq<NationalNode>, n: NationalNode)
    requires UniqueBy(ns, NationalKey) && n in ns
    ensures NationalFor(ns, n.indicatorVar) == Some(n)
  {
    UniqueWhere(ns, NationalKey, n);
  }

  lemma DistrictVarForMember(ds: seq<DistrictNode>, n: DistrictNode)
    requires UniqueBy(ds, DistrictKey) && n in ds
    ensures DistrictVarFor(ds, n.Key()) == Some(n)
  {
    UniqueWhere(ds, DistrictKey, n);
  }

  /** Appending a row leaves every lookup that already succeeded unchanged. */
  lemma FirstAppend<T(!new), K(!new)>(s: seq<T>, x: T, key: T -> K, k: K)
    requires First(s, key, k).Some?
    ensures First(s + [x], key, k) == First(s, key, k)
  {
    SelectAppend(s, x, key, {k});
  }

  /** Excluding rows leaves every lookup of a surviving key unchanged. */
  lemma FirstReject<T(!new), K(!new), L(!new)>(s: seq<T>, f: T -> K, gone: set<K>, key: T -> L, k: L)
    requires forall x :: x in s && key(x) == k ==> f(x) !in gone
    ensures First(Reject(s, f, gone), key, k) == First(s, key, k)
  {
    SelectReject(s, f, gone, key, {k});
    RejectNone(Where(s, key, k), f, gone);
  }

  /** Appending rows leaves every lookup that already succeeded unchanged. */
  lemma FirstConcat<T(!new), K(!new)>(s: seq<T>, t: seq<T>, key: T -> K, k: K)
    requires First(s, key, k).Some?
    ensures First(s + t, key, k) == First(s, key, k)
  {
    SelectConcat(s, t, key, {k});
  }
}
