/**
 * What the tree transitions guarantee: each keeps the store's integrity, each
 * leaves every other variable's nodes as they were, the get-or-create loops
 * leave exactly one node per place, the deletes leave none, and running the
 * post-save handler twice is running it once.
 */
module TreeFacts {
  import opened Wrappers
  import opened Tables
  import opened Choices
  import opened Geo
  import opened Schema
  import opened Tree

  /** Nothing hanging from any variable other than `id`, nodes or value rows, differs between the two snapshots. */
  ghost predicate SameForOthers(a: Db, b: Db, id: VarId)
  {
    && a.regions == b.regions && a.districts == b.districts
    && (forall w: VarId :: w != id ==> NationalsOf(a.nationals, w) == NationalsOf(b.nationals, w))
    && (forall w: VarId :: w != id ==> RegionalsOf(a.regionals, w) == RegionalsOf(b.regionals, w))
    && (forall w: VarId :: w != id ==> DistrictVarsOf(a.districtVars, w) == DistrictVarsOf(b.districtVars, w))
    && (forall w: VarId :: w != id ==> NationalValuesOf(a.nationalValues, w) == NationalValuesOf(b.nationalValues, w))
    && (forall w: VarId :: w != id ==> RegionalValuesOf(a.regionalValues, w) == RegionalValuesOf(b.regionalValues, w))
    && (forall w: VarId :: w != id ==> DistrictValuesOf(a.districtValues, w) == DistrictValuesOf(b.districtValues, w))
  }

  // ---------------------------------------------------------------------------
  // National node

  /** `get_create_national_var` keeps integrity and leaves exactly one national node for the variable. */
  lemma GetCreateNationalValid(db: Db, v: IndicatorVariable)
    requires DbValid(db)
    ensures var r := GetCreateNational(db, v);
      && DbValid(r)
      && NationalsOf(r.nationals, v.id) == [NationalFor(r.nationals, v.id).value]
      && (NationalFor(db.nationals, v.id).Some? ==> r == db)
      && (NationalFor(db.nationals, v.id).None? ==> NationalFor(r.nationals, v.id) == Some(NewNational(v)))
      && (NationalFor(db.nationals, v.id).None? ==> r == db.(nationals := db.nationals + [NewNational(v)]))
      && SameForOthers(db, r, v.id)
  {
    var r := GetCreateNational(db, v);
    if NationalFor(db.nationals, v.id).Some? {
      UniqueWhere(db.nationals, NationalKey, NationalFor(db.nationals, v.id).value);
    } else {
      var x := NewNational(v);
      WhereNone(db.nationals, NationalKey, v.id);
      AppendUnique(db.nationals, x, NationalKey);
      NationalForMember(r.nationals, x);
      forall k | NationalFor(db.nationals, k).Some?
        ensures NationalFor(r.nationals, k) == NationalFor(db.nationals, k)
      {
        FirstAppend(db.nationals, x, NationalKey, k);
      }
      forall w: VarId | w != v.id
        ensures NationalsOf(r.nationals, w) == NationalsOf(db.nationals, w)
      {
        SelectAppend(db.nationals, x, NationalKey, {w});
      }
    }
  }

  // ---------------------------------------------------------------------------
  // Regional nodes

  /** Exactly one regional node per region of the variable's country, named after the national node. */
  ghost predicate RegionalsComplete(db: Db, v: IndicatorVariable)
  {
    && NationalFor(db.nationals, v.id).Some?
    && forall r :: r in RegionsOf(db.regions, v.country) ==>
         RegionalsAt(db.regionals, RegKey(v.id, r.code)) == [RegionalNodeFor(NationalFor(db.nationals, v.id).value, r)]
  }

  /** The regional loop keeps the regional table key-unique and its nodes well formed. */
  lemma {:induction false} GetCreateRegionalsOverValid(regions: seq<Region>, ns: seq<NationalNode>, rs: seq<RegionalNode>,
                                                      national: NationalNode, regs: seq<Region>)
    requires UniqueBy(rs, RegionalKey)
    requires forall n :: n in rs ==> RegionalOk(regions, ns, n)
    requires NationalFor(ns, national.indicatorVar) == Some(national)
    requires forall r :: r in regs ==> RegionCountry(regions, r.code).Some?
    ensures var out := GetCreateRegionalsOver(rs, national, regs);
      && UniqueBy(out, RegionalKey)
      && (forall n :: n in out ==> RegionalOk(regions, ns, n))
    decreases |regs|
  {
    if regs != [] {
      var init := regs[..|regs| - 1];
      var last := regs[|regs| - 1];
      assert forall r :: r in init ==> r in regs;
      GetCreateRegionalsOverValid(regions, ns, rs, national, init);
      var before := GetCreateRegionalsOver(rs, national, init);
      var x := RegionalNodeFor(national, last);
      assert last in regs;
      forall y | y in before && RegionalKey(y) == RegionalKey(x)
        ensures y == x
      {
        assert RegionalOk(regions, ns, y);
      }
      if x !in before {
        WhereEmpty(before, RegionalKey, RegionalKey(x));
        AppendUnique(before, x, RegionalKey);
      }
    }
  }

  /** When every region already has its node, the regional loop changes nothing. */
  lemma {:induction false} GetCreateRegionalsOverPresent(rs: seq<RegionalNode>, national: NationalNode, regs: seq<Region>)
    requires forall r :: r in regs ==> RegionalNodeFor(national, r) in rs
    ensures GetCreateRegionalsOver(rs, national, regs) == rs
    decreases |regs|
  {
    if regs != [] {
      var init := regs[..|regs| - 1];
      assert forall r :: r in init ==> r in regs;
      GetCreateRegionalsOverPresent(rs, national, init);
      assert regs[|regs| - 1] in regs;
    }
  }

  /**
   * `get_create_regional_vars` keeps integrity, leaves exactly one regional
   * node per region of the variable's country, touches no other variable, and
   * changes nothing when the nodes are already there.
   */
  lemma GetCreateRegionalsValid(db: Db, v: IndicatorVariable)
    requires DbValid(db) && NationalFor(db.nationals, v.id).Some?
    ensures var r := GetCreateRegionals(db, v);
      && DbValid(r)
      && RegionalsComplete(r, v)
      && SameForOthers(db, r, v.id)
      && (RegionalsComplete(db, v) ==> r == db)
      && r == db.(regionals := r.regionals)
      && |db.regionals| <= |r.regionals| && r.regionals[..|db.regionals|] == db.regionals
      && (forall n :: n in r.regionals[|db.regionals|..] ==> RegionalVar(n) == v.id)
  {
    var national := NationalFor(db.nationals, v.id).value;
    var regs := RegionsOf(db.regions, v.country);
    var rs := db.regionals;
    var out := GetCreateRegionalsOver(rs, national, regs);
    var r := GetCreateRegionals(db, v);
    assert r.regionals == out;
    NationalForMember(db.nationals, national);
    forall x | x in regs
      ensures RegionCountry(db.regions, x.code).Some?
    {
      RegionCountryOfMember(db.regions, x);
    }
    GetCreateRegionalsOverValid(db.regions, db.nationals, rs, national, regs);
    GetCreateRegionalsOverOthers(rs, national, regs);
    GetCreateRegionalsOverComplete(rs, national, regs);
    if RegionalsComplete(db, v) {
      forall x | x in regs
        ensures RegionalNodeFor(national, x) in rs
      {
        assert RegionalNodeFor(national, x) in RegionalsAt(rs, RegKey(v.id, x.code));
      }
      GetCreateRegionalsOverPresent(rs, national, regs);
    }
  }

  /** The regional loop keeps every lookup that already succeeded and every other variable's nodes. */
  lemma GetCreateRegionalsOverOthers(rs: seq<RegionalNode>, national: NationalNode, regs: seq<Region>)
    ensures var out := GetCreateRegionalsOver(rs, national, regs);
      && |rs| <= |out| && out[..|rs|] == rs
      && (forall n :: n in out[|rs|..] ==> RegionalVar(n) == national.indicatorVar)
      && (forall k :: RegionalFor(rs, k).Some? ==> RegionalFor(out, k) == RegionalFor(rs, k))
      && (forall w: VarId :: w != national.indicatorVar ==> RegionalsOf(out, w) == RegionalsOf(rs, w))
  {
    var out := GetCreateRegionalsOver(rs, national, regs);
    GetCreateRegionalsOverFacts(rs, national, regs);
    var extra := out[|rs|..];
    assert out == rs + extra;
    forall k | RegionalFor(rs, k).Some?
      ensures RegionalFor(out, k) == RegionalFor(rs, k)
    {
      FirstConcat(rs, extra, RegionalKey, k);
    }
    forall w: VarId | w != national.indicatorVar
      ensures RegionalsOf(out, w) == RegionalsOf(rs, w)
    {
      SelectConcat(rs, extra, RegionalVar, {w});
      WhereEmpty(extra, RegionalVar, w);
    }
  }

  /** After the regional loop, in a key-unique result, each region's key holds exactly its node. */
  lemma GetCreateRegionalsOverComplete(rs: seq<RegionalNode>, national: NationalNode, regs: seq<Region>)
    requires UniqueBy(GetCreateRegionalsOver(rs, national, regs), RegionalKey)
    ensures forall x :: x in regs ==>
      RegionalsAt(GetCreateRegionalsOver(rs, national, regs), RegKey(national.indicatorVar, x.code)) == [RegionalNodeFor(national, x)]
  {
    var out := GetCreateRegionalsOver(rs, national, regs);
    RegionalsOverHas(rs, national, regs);
    forall x | x in regs
      ensures RegionalsAt(out, RegKey(national.indicatorVar, x.code)) == [RegionalNodeFor(national, x)]
    {
      UniqueWhere(out, RegionalKey, RegionalNodeFor(national, x));
    }
  }

  lemma {:induction false} SelectEmpty<T(!new), K(!new)>(s: seq<T>, key: T -> K, keep: set<K>)
    requires forall x :: x in s ==> key(x) !in keep
    ensures Select(s, key, keep) == []
  {
    if s != [] {
      assert forall x :: x in s[1..] ==> x in s;
      SelectEmpty(s[1..], key, keep);
      assert s[0] in s;
    }
  }

  lemma SameForOthersTrans(a: Db, b: Db, c: Db, id: VarId)
    requires SameForOthers(a, b, id) && SameForOthers(b, c, id)
    ensures SameForOthers(a, c, id)
  {
  }

  // ---------------------------------------------------------------------------
  // Deleting district nodes

  /** Excluding the district nodes under some regional nodes, with their values. */
  lemma DeleteDistrictVarsUnderValid(db: Db, keys: set<RegKey>, id: VarId)
    requires DbValid(db)
    ensures var r := DeleteDistrictVarsUnder(db, keys);
      && DbValid(r)
      && (forall n :: n in r.districtVars <==> n in db.districtVars && n.regionalVar !in keys)
      && (forall x :: x in r.districtValues <==> x in db.districtValues && x.variable.regional !in keys)
      && r == db.(districtVars := r.districtVars, districtValues := r.districtValues)
      && ((forall k :: k in keys ==> k.variable == id) ==> SameForOthers(db, r, id))
  {
    DistrictRowsUnder(db.districtVars, db.districtValues, keys, id);
    var ds := db.districtVars;
    var r := DeleteDistrictVarsUnder(db, keys);
    var gone := KeysOf(Select(ds, DistrictRegional, keys), DistrictKey);
    RejectUnique(ds, DistrictRegional, keys, DistrictKey);
    forall x | x in ds && DistrictRegional(x) in keys
      ensures DistrictKey(x) in gone
    {
      assert x in Select(ds, DistrictRegional, keys);
    }
    forall row | row in r.districtValues
      ensures DistrictVarFor(r.districtVars, row.variable) == DistrictVarFor(ds, row.variable)
    {
      FirstReject(ds, DistrictRegional, keys, DistrictKey, row.variable);
    }
    if forall k :: k in keys ==> k.variable == id {
      forall w: VarId | w != id
        ensures DistrictVarsOf(r.districtVars, w) == DistrictVarsOf(ds, w)
      {
        SelectReject(ds, DistrictRegional, keys, DistrictVar, {w});
        RejectNone(Where(ds, DistrictVar, w), DistrictRegional, keys);
      }
    }
  }

  /**
   * A district value row goes with the district nodes under the given regional
   * nodes exactly when its own node hangs from one of them; rows of other
   * variables stay when all those regional nodes are the variable's.
   */
  lemma DistrictRowsUnder(ds: seq<DistrictNode>, rows: seq<ValueRow<DisKey>>, keys: set<RegKey>, id: VarId)
    requires forall x :: x in rows ==> DistrictVarFor(ds, x.variable).Some?
    ensures var out := Reject(rows, RowKey, KeysOf(Select(ds, DistrictRegional, keys), DistrictKey));
      && (forall x :: x in out <==> x in rows && x.variable.regional !in keys)
      && ((forall k :: k in keys ==> k.variable == id) ==>
            forall w: VarId :: w != id ==> DistrictValuesOf(out, w) == DistrictValuesOf(rows, w))
  {
    var gone := KeysOf(Select(ds, DistrictRegional, keys), DistrictKey);
    forall c | c in gone
      ensures c.regional in keys
    {
      var m :| m in Select(ds, DistrictRegional, keys) && DistrictKey(m) == c;
    }
    forall x | x in rows && x.variable.regional in keys
      ensures x.variable in gone
    {
      var n := DistrictVarFor(ds, x.variable).value;
      assert n in Select(ds, DistrictRegional, keys);
    }
    if forall k :: k in keys ==> k.variable == id {
      forall w: VarId | w != id
        ensures DistrictValuesOf(Reject(rows, RowKey, gone), w) == DistrictValuesOf(rows, w)
      {
        WhereReject(rows, RowKey, gone, DistrictRowVar, w);
      }
    }
  }

  lemma DeleteDistrictVarsUnderTwice(db: Db, a: set<RegKey>, b: set<RegKey>)
    ensures DeleteDistrictVarsUnder(DeleteDistrictVarsUnder(db, a), b) == DeleteDistrictVarsUnder(db, a + b)
  {
    var ds := db.districtVars;
    var ga := KeysOf(Select(ds, DistrictRegional, a), DistrictKey);
    var gb := KeysOf(Select(Reject(ds, DistrictRegional, a), DistrictRegional, b), DistrictKey);
    var gab := KeysOf(Select(ds, DistrictRegional, a + b), DistrictKey);
    RejectTwice(ds, DistrictRegional, a, b);
    RejectTwice(db.districtValues, RowKey, ga, gb);
    forall c | c in gab
      ensures c in ga + gb
    {
      var x :| x in Select(ds, DistrictRegional, a + b) && DistrictKey(x) == c;
      if DistrictRegional(x) !in a {
        assert x in Select(Reject(ds, DistrictRegional, a), DistrictRegional, b);
      }
    }
    assert ga + gb == gab;
  }

  /** Deleting under regional nodes no district node hangs from changes nothing. */
  lemma DeleteDistrictVarsUnderNone(db: Db, keys: set<RegKey>)
    requires forall n :: n in db.districtVars ==> n.regionalVar !in keys
    ensures DeleteDistrictVarsUnder(db, keys) == db
  {
    RejectNone(db.districtVars, DistrictRegional, keys);
    SelectEmpty(db.districtVars, DistrictRegional, keys);
    assert KeysOf(Select(db.districtVars, DistrictRegional, keys), DistrictKey) == {};
    RejectNone(db.districtValues, RowKey, {});
  }

  lemma KeysOfAppend(rvs: seq<RegionalNode>, x: RegionalNode)
    ensures KeysOf(rvs + [x], RegionalKey) == KeysOf(rvs, RegionalKey) + {x.Key()}
  {
    forall k | k in KeysOf(rvs + [x], RegionalKey)
      ensures k in KeysOf(rvs, RegionalKey) + {x.Key()}
    {
      var y :| y in rvs + [x] && RegionalKey(y) == k;
      if y != x {
        assert y in rvs;
      }
    }
    forall k | k in KeysOf(rvs, RegionalKey)
      ensures k in KeysOf(rvs + [x], RegionalKey)
    {
      var y :| y in rvs && RegionalKey(y) == k;
      assert y in rvs + [x];
    }
    assert x in rvs + [x];
  }

  lemma {:induction false} DeleteDistrictVarsOverUnder(db: Db, rvs: seq<RegionalNode>)
    ensures DeleteDistrictVarsOver(db, rvs) == DeleteDistrictVarsUnder(db, KeysOf(rvs, RegionalKey))
    decreases |rvs|
  {
    if rvs == [] {
      assert KeysOf(rvs, RegionalKey) == {};
      DeleteDistrictVarsUnderNone(db, {});
    } else {
      var init := rvs[..|rvs| - 1];
      var last := rvs[|rvs| - 1];
      var a := KeysOf(init, RegionalKey);
      calc {
        DeleteDistrictVarsOver(db, rvs);
        DeleteDistrictVarsUnder(DeleteDistrictVarsOver(db, init), {last.Key()});
        { DeleteDistrictVarsOverUnder(db, init); }
        DeleteDistrictVarsUnder(DeleteDistrictVarsUnder(db, a), {last.Key()});
        { DeleteDistrictVarsUnderTwice(db, a, {last.Key()}); }
        DeleteDistrictVarsUnder(db, a + {last.Key()});
        { assert rvs == init + [last]; KeysOfAppend(init, last); }
        DeleteDistrictVarsUnder(db, KeysOf(rvs, RegionalKey));
      }
    }
  }

  /** A district node of a variable hangs from a regional node of that variable. */
  lemma DistrictVarsUnderRegionals(db: Db, id: VarId, n: DistrictNode)
    requires DbValid(db) && n in db.districtVars && DistrictVar(n) == id
    ensures n.regionalVar in KeysOf(RegionalsOf(db.regionals, id), RegionalKey)
  {
    assert DistrictVarOk(db.districts, db.regionals, n);
    var y := RegionalFor(db.regionals, n.regionalVar).value;
    assert y in RegionalsOf(db.regionals, id);
  }

  /** A district value row hangs from one of the variable's regional nodes exactly when it belongs to the variable. */
  lemma DistrictRowsOfVar(db: Db, id: VarId)
    requires DbValid(db)
    ensures var keys := KeysOf(RegionalsOf(db.regionals, id), RegionalKey);
      && (forall k :: k in keys ==> k.variable == id)
      && (forall x :: x in db.districtValues ==> (x.variable.regional in keys <==> x.variable.regional.variable == id))
  {
    var keys := KeysOf(RegionalsOf(db.regionals, id), RegionalKey);
    forall k | k in keys
      ensures k.variable == id
    {
      var m :| m in RegionalsOf(db.regionals, id) && RegionalKey(m) == k;
    }
    forall x | x in db.districtValues && x.variable.regional.variable == id
      ensures x.variable.regional in keys
    {
      var n := DistrictVarFor(db.districtVars, x.variable).value;
      DistrictVarsUnderRegionals(db, id, n);
    }
  }

  /**
   * `IndicatorVariable.delete_district_vars` keeps integrity, leaves the
   * variable no district node, and changes nothing else.
   */
  lemma DeleteDistrictVarsValid(db: Db, id: VarId)
    requires DbValid(db)
    ensures var r := DeleteDistrictVars(db, id);
      && DbValid(r)
      && DistrictVarsOf(r.districtVars, id) == []
      && (forall x :: x in r.districtValues <==> x in db.districtValues && x.variable.regional.variable != id)
      && r == db.(districtVars := r.districtVars, districtValues := r.districtValues)
      && SameForOthers(db, r, id)
  {
    var keys := KeysOf(RegionalsOf(db.regionals, id), RegionalKey);
    DistrictRowsOfVar(db, id);
    DeleteDistrictVarsOverUnder(db, RegionalsOf(db.regionals, id));
    DeleteDistrictVarsUnderValid(db, keys, id);
    var r := DeleteDistrictVars(db, id);
    forall n | n in db.districtVars && DistrictVar(n) == id
      ensures n.regionalVar in keys
    {
      DistrictVarsUnderRegionals(db, id, n);
    }
    WhereEmpty(r.districtVars, DistrictVar, id);
  }

  /** `RegionalIndicatorVariable.delete_district_vars` leaves no district node under that regional node. */
  lemma DeleteDistrictVarsAtValid(db: Db, key: RegKey)
    requires DbValid(db)
    ensures var r := DeleteDistrictVarsAt(db, key);
      && DbValid(r)
      && (forall n :: n in r.districtVars <==> n in db.districtVars && n.regionalVar != key)
      && (forall x :: x in r.districtValues <==> x in db.districtValues && x.variable.regional != key)
      && r == db.(districtVars := r.districtVars, districtValues := r.districtValues)
      && SameForOthers(db, r, key.variable)
  {
    DeleteDistrictVarsUnderValid(db, {key}, key.variable);
  }

  // ---------------------------------------------------------------------------
  // Deleting regional and national nodes

  /**
   * `delete_regional_vars` keeps integrity, leaves the variable no regional
   * node, no district node and no value row below the national level, and
   * changes nothing else.
   */
  lemma DeleteRegionalsValid(db: Db, id: VarId)
    requires DbValid(db)
    ensures var r := DeleteRegionals(db, id);
      && DbValid(r)
      && RegionalsOf(r.regionals, id) == []
      && DistrictVarsOf(r.districtVars, id) == []
      && (forall n :: n in r.regionals <==> n in db.regionals && n.nationalVar != id)
      && (forall x :: x in r.regionalValues <==> x in db.regionalValues && x.variable.variable != id)
      && (forall x :: x in r.districtValues <==> x in db.districtValues && x.variable.regional.variable != id)
      && r.nationals == db.nationals && r.nationalValues == db.nationalValues
      && SameForOthers(db, r, id)
  {
    var keys := KeysOf(RegionalsOf(db.regionals, id), RegionalKey);
    DeleteDistrictVarsUnderValid(db, keys, id);
    RejectVarFacts(db.regionals, id);
    DeleteRegionalsNodes(db, id);
    DeleteRegionalsRows(db, id);
    DeleteRegionalsValueRows(db, id);
  }

  /** `delete_regional_vars` removes exactly the variable's regional and district value rows, and keeps every other variable's. */
  lemma DeleteRegionalsValueRows(db: Db, id: VarId)
    requires DbValid(db)
    ensures var r := DeleteRegionals(db, id);
      && (forall x :: x in r.regionalValues <==> x in db.regionalValues && x.variable.variable != id)
      && (forall x :: x in r.districtValues <==> x in db.districtValues && x.variable.regional.variable != id)
      && (forall w: VarId :: w != id ==> RegionalValuesOf(r.regionalValues, w) == RegionalValuesOf(db.regionalValues, w))
      && (forall w: VarId :: w != id ==> DistrictValuesOf(r.districtValues, w) == DistrictValuesOf(db.districtValues, w))
  {
    var keys := KeysOf(RegionalsOf(db.regionals, id), RegionalKey);
    var rows := db.regionalValues;
    DistrictRowsOfVar(db, id);
    DistrictRowsUnder(db.districtVars, db.districtValues, keys, id);
    forall x | x in rows && x.variable.variable == id
      ensures x.variable in keys
    {
      var n := RegionalFor(db.regionals, x.variable).value;
      assert n in RegionalsOf(db.regionals, id);
    }
    forall w: VarId | w != id
      ensures RegionalValuesOf(Reject(rows, RowKey, keys), w) == RegionalValuesOf(rows, w)
    {
      WhereReject(rows, RowKey, keys, RegionalRowVar, w);
    }
  }

  /** Removing a variable's regional nodes from the table: nothing of it is left, and every other lookup is unchanged. */
  lemma RejectVarFacts(rs: seq<RegionalNode>, id: VarId)
    ensures var out := Reject(rs, RegionalVar, {id});
      var keys := KeysOf(RegionalsOf(rs, id), RegionalKey);
      && (UniqueBy(rs, RegionalKey) ==> UniqueBy(out, RegionalKey))
      && RegionalsOf(out, id) == []
      && (forall w: VarId :: w != id ==> RegionalsOf(out, w) == RegionalsOf(rs, w))
      && (forall k :: k !in keys ==> RegionalFor(out, k) == RegionalFor(rs, k))
  {
    var out := Reject(rs, RegionalVar, {id});
    var keys := KeysOf(RegionalsOf(rs, id), RegionalKey);
    if UniqueBy(rs, RegionalKey) {
      RejectUnique(rs, RegionalVar, {id}, RegionalKey);
    }
    WhereEmpty(out, RegionalVar, id);
    forall w: VarId | w != id
      ensures RegionalsOf(out, w) == RegionalsOf(rs, w)
    {
      SelectReject(rs, RegionalVar, {id}, RegionalVar, {w});
      RejectNone(Where(rs, RegionalVar, w), RegionalVar, {id});
    }
    forall k | k !in keys
      ensures RegionalFor(out, k) == RegionalFor(rs, k)
    {
      forall x | x in rs && RegionalKey(x) == k
        ensures RegionalVar(x) !in {id}
      {
        assert RegionalVar(x) == id ==> x in RegionalsOf(rs, id);
      }
      FirstReject(rs, RegionalVar, {id}, RegionalKey, k);
    }
  }

  /** After `delete_regional_vars` the node tables keep their integrity and hold nothing of the variable. */
  lemma DeleteRegionalsNodes(db: Db, id: VarId)
    requires DbValid(db)
    ensures var r := DeleteRegionals(db, id);
      && NodesValid(r)
      && DistrictVarsOf(r.districtVars, id) == []
  {
    var keys := KeysOf(RegionalsOf(db.regionals, id), RegionalKey);
    var mid := DeleteDistrictVarsUnder(db, keys);
    var r := DeleteRegionals(db, id);
    DeleteDistrictVarsUnderValid(db, keys, id);
    RejectVarFacts(db.regionals, id);
    assert r.districtVars == mid.districtVars;
    forall n | n in r.districtVars
      ensures DistrictVarOk(r.districts, r.regionals, n)
    {
      assert DistrictVarOk(mid.districts, mid.regionals, n);
      assert n.regionalVar !in keys;
    }
    forall n | n in db.districtVars && DistrictVar(n) == id
      ensures n.regionalVar in keys
    {
      DistrictVarsUnderRegionals(db, id, n);
    }
    WhereEmpty(r.districtVars, DistrictVar, id);
  }

  /** After `delete_regional_vars` every value row still has its node, and none belongs to the variable's removed nodes. */
  lemma DeleteRegionalsRows(db: Db, id: VarId)
    requires DbValid(db)
    ensures var r := DeleteRegionals(db, id);
      && ValuesValid(r)
      && (forall row :: row in r.regionalValues ==> row.variable.variable != id)
      && (forall row :: row in r.districtValues ==> row.variable.regional.variable != id)
  {
    var keys := KeysOf(RegionalsOf(db.regionals, id), RegionalKey);
    var mid := DeleteDistrictVarsUnder(db, keys);
    var r := DeleteRegionals(db, id);
    DeleteDistrictVarsUnderValid(db, keys, id);
    RejectVarFacts(db.regionals, id);
    forall row | row in r.regionalValues
      ensures row.variable.variable != id
      ensures RegionalFor(r.regionals, row.variable).Some?
    {
      RegionalForKey(db.regionals, row.variable);
      var n := RegionalFor(db.regionals, row.variable).value;
      assert RegionalVar(n) == id ==> n in RegionalsOf(db.regionals, id);
    }
    forall row | row in r.districtValues
      ensures row.variable.regional.variable != id
    {
      DeleteRegionalsNodes(db, id);
      var n := DistrictVarFor(r.districtVars, row.variable).value;
      assert n in Where(r.districtVars, DistrictVar, DistrictVar(n));
    }
  }

  /**
   * `delete_national_var` keeps integrity, leaves nothing of the variable's
   * tree and none of its values, and changes nothing else.
   */
  lemma DeleteNationalValid(db: Db, id: VarId)
    requires DbValid(db)
    ensures var r := DeleteNational(db, id);
      && DbValid(r)
      && NationalsOf(r.nationals, id) == []
      && RegionalsOf(r.regionals, id) == []
      && DistrictVarsOf(r.districtVars, id) == []
      && (forall n :: n in r.nationals <==> n in db.nationals && n.indicatorVar != id)
      && (forall x :: x in r.nationalValues <==> x in db.nationalValues && x.variable != id)
      && (forall x :: x in r.regionalValues <==> x in db.regionalValues && x.variable.variable != id)
      && (forall x :: x in r.districtValues <==> x in db.districtValues && x.variable.regional.variable != id)
      && SameForOthers(db, r, id)
  {
    forall w: VarId | w != id
      ensures NationalValuesOf(Reject(db.nationalValues, RowKey, {id}), w) == NationalValuesOf(db.nationalValues, w)
    {
      WhereReject(db.nationalValues, RowKey, {id}, RowKey, w);
    }
    DeleteRegionalsValid(db, id);
    DeleteNationalNodes(db.nationals, id);
    var r := DeleteNational(db, id);
    forall n | n in r.regionals
      ensures n.nationalVar != id
    {
      assert n in Where(r.regionals, RegionalVar, RegionalVar(n));
    }
  }

  /** Removing a variable's national node keeps the table key-unique, and every other lookup unchanged. */
  lemma DeleteNationalNodes(ns: seq<NationalNode>, id: VarId)
    ensures var out := Reject(ns, NationalKey, {id});
      && (UniqueBy(ns, NationalKey) ==> UniqueBy(out, NationalKey))
      && NationalsOf(out, id) == []
      && (forall k :: k != id ==> NationalFor(out, k) == NationalFor(ns, k))
      && (forall w: VarId :: w != id ==> NationalsOf(out, w) == NationalsOf(ns, w))
  {
    var out := Reject(ns, NationalKey, {id});
    if UniqueBy(ns, NationalKey) {
      RejectUnique(ns, NationalKey, {id}, NationalKey);
    }
    forall k | k != id
      ensures NationalFor(out, k) == NationalFor(ns, k)
    {
      FirstReject(ns, NationalKey, {id}, NationalKey, k);
    }
    WhereEmpty(out, NationalKey, id);
    forall w: VarId | w != id
      ensures NationalsOf(out, w) == NationalsOf(ns, w)
    {
      WhereReject(ns, NationalKey, {id}, NationalKey, w);
    }
  }

  /** In a valid store a variable without a national node has no tree at all: no regional and no district nodes. */
  lemma NoNationalNoTree(db: Db, id: VarId)
    requires DbValid(db) && NationalFor(db.nationals, id).None?
    ensures NationalsOf(db.nationals, id) == []
    ensures RegionalsOf(db.regionals, id) == []
    ensures DistrictVarsOf(db.districtVars, id) == []
  {
    WhereNone(db.nationals, NationalKey, id);
    forall n | n in db.regionals
      ensures RegionalVar(n) != id
    {
      assert RegionalOk(db.regions, db.nationals, n);
    }
    WhereEmpty(db.regionals, RegionalVar, id);
    forall n | n in db.districtVars
      ensures DistrictVar(n) != id
    {
      assert DistrictVarOk(db.districts, db.regionals, n);
      var m := RegionalFor(db.regionals, n.regionalVar).value;
      assert RegionalOk(db.regions, db.nationals, m);
    }
    WhereEmpty(db.districtVars, DistrictVar, id);
  }

  // ---------------------------------------------------------------------------
  // District nodes

  function DistrictPlace(id: VarId, d: District): DisKey
  {
    DisKey(RegKey(id, d.region), d.code)
  }

  /** Exactly one district node per district of the variable's country, under its region's regional node. */
  ghost predicate DistrictVarsComplete(db: Db, v: IndicatorVariable)
  {
    forall d :: d in DistrictsOfCountry(db.regions, db.districts, v.country) ==>
      && RegionalFor(db.regionals, RegKey(v.id, d.region)).Some?
      && DistrictVarsAt(db.districtVars, DistrictPlace(v.id, d))
         == [DistrictNodeFor(RegionalFor(db.regionals, RegKey(v.id, d.region)).value, d)]
  }

  lemma {:induction false} GetCreateDistrictVarsOverFacts(ds: seq<DistrictNode>, rs: seq<RegionalNode>, id: VarId, dists: seq<District>)
    requires forall d :: d in dists ==> RegionalFor(rs, RegKey(id, d.region)).Some?
    ensures var out := GetCreateDistrictVarsOver(ds, rs, id, dists);
      && |ds| <= |out| && out[..|ds|] == ds
      && (forall n :: n in out[|ds|..] ==> DistrictVar(n) == id)
    decreases |dists|
  {
    if dists != [] {
      var init := dists[..|dists| - 1];
      var d := dists[|dists| - 1];
      assert forall x :: x in init ==> x in dists;
      GetCreateDistrictVarsOverFacts(ds, rs, id, init);
      var before := GetCreateDistrictVarsOver(ds, rs, id, init);
      var regional := RegionalFor(rs, RegKey(id, d.region)).value;
      RegionalForKey(rs, RegKey(id, d.region));
      var out := GetCreateDistrictVarsOver(ds, rs, id, dists);
      var x := DistrictNodeFor(regional, d);
      if out != before {
        AppendKeepsPrefix(ds, before, x);
      }
    }
  }

  lemma AppendKeepsPrefix<T>(s: seq<T>, before: seq<T>, x: T)
    requires |s| <= |before| && before[..|s|] == s
    ensures (before + [x])[..|s|] == s && (before + [x])[|s|..] == before[|s|..] + [x]
  {
    assert (before + [x])[..|before|] == before;
  }

  lemma {:induction false} GetCreateDistrictVarsOverPlaces(ds: seq<DistrictNode>, rs: seq<RegionalNode>, id: VarId, dists: seq<District>)
    requires forall d :: d in dists ==> RegionalFor(rs, RegKey(id, d.region)).Some?
    ensures forall d :: d in dists ==> DistrictVarFor(GetCreateDistrictVarsOver(ds, rs, id, dists), DistrictPlace(id, d)).Some?
    decreases |dists|
  {
    if dists != [] {
      var init := dists[..|dists| - 1];
      assert forall x :: x in init ==> x in dists;
      GetCreateDistrictVarsOverPlaces(ds, rs, id, init);
      forall d | d in dists
        ensures DistrictVarFor(GetCreateDistrictVarsOver(ds, rs, id, dists), DistrictPlace(id, d)).Some?
      {
        InitOrLast(dists, d);
        if d in init {
          OverPlacesKept(ds, rs, id, dists, DistrictPlace(id, d));
        } else {
          OverPlacesLast(ds, rs, id, dists);
        }
      }
    }
  }

  /** One more step of the district loop keeps every node it already had. */
  lemma OverPlacesKept(ds: seq<DistrictNode>, rs: seq<RegionalNode>, id: VarId, dists: seq<District>, k: DisKey)
    requires dists != []
    requires forall d :: d in dists ==> RegionalFor(rs, RegKey(id, d.region)).Some?
    requires forall d :: d in dists[..|dists| - 1] ==> d in dists
    requires DistrictVarFor(GetCreateDistrictVarsOver(ds, rs, id, dists[..|dists| - 1]), k).Some?
    ensures DistrictVarFor(GetCreateDistrictVarsOver(ds, rs, id, dists), k).Some?
  {
    var before := GetCreateDistrictVarsOver(ds, rs, id, dists[..|dists| - 1]);
    var out := GetCreateDistrictVarsOver(ds, rs, id, dists);
    if out != before {
      var d := dists[|dists| - 1];
      FirstAppend(before, DistrictNodeFor(RegionalFor(rs, RegKey(id, d.region)).value, d), DistrictKey, k);
    }
  }

  /** The last step of the district loop leaves a node for its district. */
  lemma OverPlacesLast(ds: seq<DistrictNode>, rs: seq<RegionalNode>, id: VarId, dists: seq<District>)
    requires dists != []
    requires forall d :: d in dists ==> RegionalFor(rs, RegKey(id, d.region)).Some?
    ensures DistrictVarFor(GetCreateDistrictVarsOver(ds, rs, id, dists), DistrictPlace(id, dists[|dists| - 1])).Some?
  {
    var d := dists[|dists| - 1];
    var before := GetCreateDistrictVarsOver(ds, rs, id, dists[..|dists| - 1]);
    var out := GetCreateDistrictVarsOver(ds, rs, id, dists);
    RegionalForKey(rs, RegKey(id, d.region));
    var x := DistrictNodeFor(RegionalFor(rs, RegKey(id, d.region)).value, d);
    if out != before {
      assert x in out && DistrictKey(x) == DistrictPlace(id, d);
    }
  }

  /** The district loop keeps the district table key-unique and its nodes well formed. */
  lemma {:induction false} GetCreateDistrictVarsOverValid(districts: seq<District>, rs: seq<RegionalNode>, ds: seq<DistrictNode>,
                                                         id: VarId, dists: seq<District>)
    requires UniqueBy(districts, DistrictCode)
    requires UniqueBy(ds, DistrictKey)
    requires forall n :: n in ds ==> DistrictVarOk(districts, rs, n)
    requires forall d :: d in dists ==> d in districts && RegionalFor(rs, RegKey(id, d.region)).Some?
    ensures var out := GetCreateDistrictVarsOver(ds, rs, id, dists);
      && UniqueBy(out, DistrictKey)
      && (forall n :: n in out ==> DistrictVarOk(districts, rs, n))
    decreases |dists|
  {
    if dists != [] {
      var init := dists[..|dists| - 1];
      var d := dists[|dists| - 1];
      assert forall x :: x in init ==> x in dists;
      assert d in dists;
      GetCreateDistrictVarsOverValid(districts, rs, ds, id, init);
      var before := GetCreateDistrictVarsOver(ds, rs, id, init);
      var regional := RegionalFor(rs, RegKey(id, d.region)).value;
      RegionalForKey(rs, RegKey(id, d.region));
      var x := DistrictNodeFor(regional, d);
      if DistrictVarFor(before, DistrictPlace(id, d)).None? {
        WhereNone(before, DistrictKey, DistrictPlace(id, d));
        AppendUnique(before, x, DistrictKey);
        DistrictRegionOfMember(districts, d);
      }
    }
  }

  /** When every district already has its node, the district loop changes nothing. */
  lemma {:induction false} GetCreateDistrictVarsOverPresent(ds: seq<DistrictNode>, rs: seq<RegionalNode>, id: VarId, dists: seq<District>)
    requires forall d :: d in dists ==> RegionalFor(rs, RegKey(id, d.region)).Some?
    requires forall d :: d in dists ==> DistrictVarFor(ds, DistrictPlace(id, d)).Some?
    ensures GetCreateDistrictVarsOver(ds, rs, id, dists) == ds
    decreases |dists|
  {
    if dists != [] {
      var init := dists[..|dists| - 1];
      assert forall x :: x in init ==> x in dists;
      GetCreateDistrictVarsOverPresent(ds, rs, id, init);
      assert dists[|dists| - 1] in dists;
      RegionalForKey(rs, RegKey(id, dists[|dists| - 1].region));
    }
  }

  /**
   * `RegionalIndicatorVariable.get_create_district_vars` keeps integrity,
   * leaves exactly one node per district of the variable's country, touches
   * no other variable, and changes nothing when the nodes are already there.
   */
  lemma GetCreateDistrictVarsValid(db: Db, v: IndicatorVariable)
    requires DbValid(db) && RegionalsCover(db, v)
    ensures var r := GetCreateDistrictVars(db, v);
      && DbValid(r)
      && DistrictVarsComplete(r, v)
      && SameForOthers(db, r, v.id)
      && (DistrictVarsComplete(db, v) ==> r == db)
      && |db.districtVars| <= |r.districtVars| && r.districtVars[..|db.districtVars|] == db.districtVars
      && (forall n :: n in r.districtVars[|db.districtVars|..] ==> DistrictVar(n) == v.id)
  {
    var dists := DistrictsOfCountry(db.regions, db.districts, v.country);
    var ds := db.districtVars;
    var rs := db.regionals;
    var out := GetCreateDistrictVarsOver(ds, rs, v.id, dists);
    var r := GetCreateDistrictVars(db, v);
    assert r.districtVars == out;
    GetCreateDistrictVarsOverValid(db.districts, rs, ds, v.id, dists);
    GetCreateDistrictVarsOverFacts(ds, rs, v.id, dists);
    GetCreateDistrictVarsOverComplete(db.districts, rs, ds, v.id, dists);
    GetCreateDistrictVarsOverOthers(ds, rs, v.id, dists);
    if DistrictVarsComplete(db, v) {
      forall d | d in dists
        ensures DistrictVarFor(ds, DistrictPlace(v.id, d)).Some?
      {
        assert DistrictNodeFor(RegionalFor(rs, RegKey(v.id, d.region)).value, d) in DistrictVarsAt(ds, DistrictPlace(v.id, d));
      }
      GetCreateDistrictVarsOverPresent(ds, rs, v.id, dists);
    }
  }

  /** After the district loop each district visited has exactly one node, attached to its own region's regional node. */
  lemma GetCreateDistrictVarsOverComplete(districts: seq<District>, rs: seq<RegionalNode>, ds: seq<DistrictNode>,
                                          id: VarId, dists: seq<District>)
    requires UniqueBy(districts, DistrictCode)
    requires UniqueBy(ds, DistrictKey)
    requires forall n :: n in ds ==> DistrictVarOk(districts, rs, n)
    requires forall d :: d in dists ==> d in districts && RegionalFor(rs, RegKey(id, d.region)).Some?
    ensures var out := GetCreateDistrictVarsOver(ds, rs, id, dists);
      forall d :: d in dists ==>
        DistrictVarsAt(out, DistrictPlace(id, d)) == [DistrictNodeFor(RegionalFor(rs, RegKey(id, d.region)).value, d)]
  {
    var out := GetCreateDistrictVarsOver(ds, rs, id, dists);
    GetCreateDistrictVarsOverValid(districts, rs, ds, id, dists);
    GetCreateDistrictVarsOverPlaces(ds, rs, id, dists);
    forall d | d in dists
      ensures DistrictVarsAt(out, DistrictPlace(id, d)) == [DistrictNodeFor(RegionalFor(rs, RegKey(id, d.region)).value, d)]
    {
      var n := DistrictVarFor(out, DistrictPlace(id, d)).value;
      assert DistrictVarOk(districts, rs, n);
      DistrictRegionOfMember(districts, d);
      UniqueWhere(out, DistrictKey, n);
    }
  }

  /** The district loop keeps every lookup that already succeeded, and every other variable's district nodes. */
  lemma GetCreateDistrictVarsOverOthers(ds: seq<DistrictNode>, rs: seq<RegionalNode>, id: VarId, dists: seq<District>)
    requires forall d :: d in dists ==> RegionalFor(rs, RegKey(id, d.region)).Some?
    ensures var out := GetCreateDistrictVarsOver(ds, rs, id, dists);
      && (forall k :: DistrictVarFor(ds, k).Some? ==> DistrictVarFor(out, k) == DistrictVarFor(ds, k))
      && (forall w: VarId :: w != id ==> DistrictVarsOf(out, w) == DistrictVarsOf(ds, w))
  {
    var out := GetCreateDistrictVarsOver(ds, rs, id, dists);
    GetCreateDistrictVarsOverFacts(ds, rs, id, dists);
    var extra := out[|ds|..];
    assert out == ds + extra;
    forall k | DistrictVarFor(ds, k).Some?
      ensures DistrictVarFor(out, k) == DistrictVarFor(ds, k)
    {
      FirstConcat(ds, extra, DistrictKey, k);
    }
    forall w: VarId | w != id
      ensures DistrictVarsOf(out, w) == DistrictVarsOf(ds, w)
    {
      SelectConcat(ds, extra, DistrictVar, {w});
      WhereEmpty(extra, DistrictVar, w);
    }
  }

  /**
   * `IndicatorVariable.create_district_vars` runs the regional operation once
   * per regional node; since that operation does not depend on the node it
   * runs from and is idempotent, the outcome is one run, or none when the
   * variable has no regional node.
   */
  lemma {:induction false} GetCreateDistrictVarsTimesOnce(db: Db, v: IndicatorVariable, n: nat)
    requires DbValid(db) && RegionalsCover(db, v)
    ensures GetCreateDistrictVarsTimes(db, v, n) == if n == 0 then db else GetCreateDistrictVars(db, v)
    decreases n
  {
    if n > 1 {
      GetCreateDistrictVarsTimesOnce(db, v, n - 1);
      GetCreateDistrictVarsValid(db, v);
      GetCreateDistrictVarsValid(GetCreateDistrictVars(db, v), v);
    }
  }

  lemma CreateDistrictVarsValid(db: Db, v: IndicatorVariable)
    requires DbValid(db) && RegionalsCover(db, v)
    ensures CreateDistrictVars(db, v) == if RegionalsOf(db.regionals, v.id) == [] then db else GetCreateDistrictVars(db, v)
  {
    GetCreateDistrictVarsTimesOnce(db, v, |RegionalsOf(db.regionals, v.id)|);
  }

  // ---------------------------------------------------------------------------
  // The post-save handler

  /** The tree `create_indicator_vars` promises for the variable's aggregation level. */
  ghost predicate TreeShaped(db: Db, v: IndicatorVariable)
  {
    && |NationalsOf(db.nationals, v.id)| == 1
    && match v.level
       case National => RegionalsOf(db.regionals, v.id) == [] && DistrictVarsOf(db.districtVars, v.id) == []
       case Regional => RegionalsComplete(db, v) && DistrictVarsOf(db.districtVars, v.id) == []
       case District => RegionalsComplete(db, v) && DistrictVarsComplete(db, v)
  }

  /**
   * After saving a variable the store keeps its integrity, the variable's tree
   * has the shape its level calls for, and no other variable's tree changed.
   */
  lemma ReconcileValid(db: Db, v: IndicatorVariable)
    requires DbValid(db)
    ensures var r := Reconcile(db, v);
      DbValid(r) && TreeShaped(r, v) && SameForOthers(db, r, v.id)
  {
    var a := GetCreateNational(db, v);
    GetCreateNationalValid(db, v);
    match v.level
    case National =>
      DeleteRegionalsValid(a, v.id);
      SameForOthersTrans(db, a, Reconcile(db, v), v.id);
    case Regional =>
      var b := GetCreateRegionals(a, v);
      GetCreateRegionalsValid(a, v);
      DeleteDistrictVarsValid(b, v.id);
      SameForOthersTrans(db, a, b, v.id);
      SameForOthersTrans(db, b, Reconcile(db, v), v.id);
    case District =>
      var b := GetCreateRegionals(a, v);
      GetCreateRegionalsValid(a, v);
      CoverAfterGetCreateRegionals(a, v);
      CreateDistrictVarsValid(b, v);
      GetCreateDistrictVarsValid(b, v);
      SameForOthersTrans(db, a, b, v.id);
      SameForOthersTrans(db, b, Reconcile(db, v), v.id);
  }

  /** With no regional node left for the variable, `delete_regional_vars` changes nothing. */
  lemma DeleteRegionalsNone(db: Db, id: VarId)
    requires RegionalsOf(db.regionals, id) == []
    ensures DeleteRegionals(db, id) == db
  {
    assert KeysOf(RegionalsOf(db.regionals, id), RegionalKey) == {};
    DeleteDistrictVarsUnderNone(db, {});
    forall x | x in db.regionals
      ensures RegionalVar(x) !in {id}
    {
      assert x in Where(db.regionals, RegionalVar, RegionalVar(x));
    }
    RejectNone(db.regionals, RegionalVar, {id});
    RejectNone(db.regionalValues, RowKey, {});
  }

  /** Every key among a variable's regional nodes carries that variable. */
  lemma RegionalKeysOf(rs: seq<RegionalNode>, id: VarId)
    ensures forall k :: k in KeysOf(RegionalsOf(rs, id), RegionalKey) ==> k.variable == id
  {
  }

  /** With no district node left for the variable, `delete_district_vars` changes nothing. */
  lemma DeleteDistrictVarsNone(db: Db, id: VarId)
    requires DistrictVarsOf(db.districtVars, id) == []
    ensures DeleteDistrictVars(db, id) == db
  {
    var keys := KeysOf(RegionalsOf(db.regionals, id), RegionalKey);
    DeleteDistrictVarsOverUnder(db, RegionalsOf(db.regionals, id));
    RegionalKeysOf(db.regionals, id);
    forall n | n in db.districtVars
      ensures n.regionalVar !in keys
    {
      assert n in Where(db.districtVars, DistrictVar, DistrictVar(n));
    }
    DeleteDistrictVarsUnderNone(db, keys);
  }

  /** Saving a variable a second time, unchanged, changes nothing. */
  lemma ReconcileIdempotent(db: Db, v: IndicatorVariable)
    requires DbValid(db)
    ensures Reconcile(Reconcile(db, v), v) == Reconcile(db, v)
  {
    var r := Reconcile(db, v);
    ReconcileValid(db, v);
    assert NationalsOf(r.nationals, v.id)[0] in NationalsOf(r.nationals, v.id);
    assert GetCreateNational(r, v) == r;
    match v.level
    case National =>
      DeleteRegionalsNone(r, v.id);
    case Regional =>
      GetCreateRegionalsValid(r, v);
      DeleteDistrictVarsNone(r, v.id);
    case District =>
      GetCreateRegionalsValid(r, v);
      CoverAfterGetCreateRegionals(r, v);
      CreateDistrictVarsValid(r, v);
      GetCreateDistrictVarsValid(r, v);
  }

  lemma {:induction false} RejectAll<T(!new), K(!new)>(s: seq<T>, key: T -> K, gone: set<K>)
    requires forall x :: x in s ==> key(x) in gone
    ensures Reject(s, key, gone) == []
  {
    if s != [] {
      assert forall x :: x in s[1..] ==> x in s;
      RejectAll(s[1..], key, gone);
      assert s[0] in s;
    }
  }

  /** Regional nodes of one variable appended to a table holding none of that variable's go again on exclusion. */
  lemma {:induction false} UndoAppended<T(!new), K(!new)>(s: seq<T>, t: seq<T>, key: T -> K, gone: set<K>)
    requires forall x :: x in s ==> key(x) !in gone
    requires forall x :: x in t ==> key(x) in gone
    ensures Reject(s + t, key, gone) == s
  {
    RejectConcat(s, t, key, gone);
    RejectNone(s, key, gone);
    RejectAll(t, key, gone);
  }

  /**
   * `delete_regional_vars` undoes a get-or-create of regional and district
   * nodes for a variable that had none.
   */
  lemma DeleteRegionalsUndo(a: Db, b: Db, id: VarId)
    requires DbValid(b)
    requires RegionalsOf(a.regionals, id) == [] && DistrictVarsOf(a.districtVars, id) == []
    requires forall row :: row in a.regionalValues ==> row.variable.variable != id
    requires forall row :: row in a.districtValues ==> row.variable.regional.variable != id
    requires b == a.(regionals := b.regionals, districtVars := b.districtVars)
    requires |a.regionals| <= |b.regionals| && b.regionals[..|a.regionals|] == a.regionals
    requires forall n :: n in b.regionals[|a.regionals|..] ==> RegionalVar(n) == id
    requires |a.districtVars| <= |b.districtVars| && b.districtVars[..|a.districtVars|] == a.districtVars
    requires forall n :: n in b.districtVars[|a.districtVars|..] ==> DistrictVar(n) == id
    ensures DeleteRegionals(b, id) == a
  {
    var keys := KeysOf(RegionalsOf(b.regionals, id), RegionalKey);
    RegionalKeysOf(b.regionals, id);
    UndoRegionals(a.regionals, b.regionals, id);
    UndoDistrictVars(a.districtVars, b, id);
    var gone := KeysOf(Select(b.districtVars, DistrictRegional, keys), DistrictKey);
    forall c | c in gone
      ensures c.regional.variable == id
    {
      var x :| x in Select(b.districtVars, DistrictRegional, keys) && DistrictKey(x) == c;
    }
    RejectNone(a.districtValues, RowKey, gone);
    RejectNone(a.regionalValues, RowKey, keys);
  }

  /** Excluding a variable's regional nodes undoes appending them to a table that held none. */
  lemma UndoRegionals(a: seq<RegionalNode>, b: seq<RegionalNode>, id: VarId)
    requires RegionalsOf(a, id) == []
    requires |a| <= |b| && b[..|a|] == a
    requires forall n :: n in b[|a|..] ==> RegionalVar(n) == id
    ensures Reject(b, RegionalVar, {id}) == a
  {
    var extra := b[|a|..];
    assert b == a + extra;
    forall x | x in a
      ensures RegionalVar(x) !in {id}
    {
      assert x in Where(a, RegionalVar, RegionalVar(x));
    }
    UndoAppended(a, extra, RegionalVar, {id});
  }

  /** Excluding the district nodes under a variable's regional nodes undoes appending them to a table that held none of the variable's. */
  lemma UndoDistrictVars(a: seq<DistrictNode>, b: Db, id: VarId)
    requires DbValid(b)
    requires DistrictVarsOf(a, id) == []
    requires |a| <= |b.districtVars| && b.districtVars[..|a|] == a
    requires forall n :: n in b.districtVars[|a|..] ==> DistrictVar(n) == id
    ensures Reject(b.districtVars, DistrictRegional, KeysOf(RegionalsOf(b.regionals, id), RegionalKey)) == a
  {
    var keys := KeysOf(RegionalsOf(b.regionals, id), RegionalKey);
    RegionalKeysOf(b.regionals, id);
    var extra := b.districtVars[|a|..];
    assert b.districtVars == a + extra;
    forall x | x in a
      ensures DistrictRegional(x) !in keys
    {
      assert x in Where(a, DistrictVar, DistrictVar(x));
    }
    forall x | x in extra
      ensures DistrictRegional(x) in keys
    {
      DistrictVarsUnderRegionals(b, id, x);
    }
    UndoAppended(a, extra, DistrictRegional, keys);
  }

  /** What a National-level save leaves of the variable: its national node and nothing below it. */
  lemma NationalSaveFacts(db: Db, n: IndicatorVariable)
    requires DbValid(db) && n.level == National
    ensures var r := Reconcile(db, n);
      && DbValid(r)
      && NationalFor(r.nationals, n.id).Some?
      && RegionalsOf(r.regionals, n.id) == [] && DistrictVarsOf(r.districtVars, n.id) == []
      && (forall row :: row in r.regionalValues ==> row.variable.variable != n.id)
      && (forall row :: row in r.districtValues ==> row.variable.regional.variable != n.id)
  {
    GetCreateNationalValid(db, n);
    DeleteRegionalsValid(GetCreateNational(db, n), n.id);
  }

  /** A District-level save from a store with a national node only appends regional and district nodes of the variable. */
  lemma DistrictSaveFacts(db: Db, v: IndicatorVariable)
    requires DbValid(db) && v.level == AggregationLevel.District && NationalFor(db.nationals, v.id).Some?
    ensures var r := Reconcile(db, v);
      && DbValid(r)
      && NationalFor(r.nationals, v.id).Some?
      && r == db.(regionals := r.regionals, districtVars := r.districtVars)
      && |db.regionals| <= |r.regionals| && r.regionals[..|db.regionals|] == db.regionals
      && (forall x :: x in r.regionals[|db.regionals|..] ==> RegionalVar(x) == v.id)
      && |db.districtVars| <= |r.districtVars| && r.districtVars[..|db.districtVars|] == db.districtVars
      && (forall x :: x in r.districtVars[|db.districtVars|..] ==> DistrictVar(x) == v.id)
  {
    assert GetCreateNational(db, v) == db;
    var b := GetCreateRegionals(db, v);
    GetCreateRegionalsValid(db, v);
    CoverAfterGetCreateRegionals(db, v);
    CreateDistrictVarsValid(b, v);
    GetCreateDistrictVarsValid(b, v);
  }

  /**
   * Switching a variable from the National level to District and back
   * restores the store exactly: the second National save deletes every node
   * the District save created, and nothing else.
   */
  lemma NationalDistrictNational(db: Db, v: IndicatorVariable)
    requires DbValid(db) && v.level == AggregationLevel.District
    ensures var n := v.(level := National);
      var r1 := Reconcile(db, n);
      Reconcile(Reconcile(r1, v), n) == r1
  {
    var n := v.(level := National);
    var r1 := Reconcile(db, n);
    NationalSaveFacts(db, n);
    var r2 := Reconcile(r1, v);
    DistrictSaveFacts(r1, v);
    assert GetCreateNational(r2, n) == r2;
    DeleteRegionalsUndo(r1, r2, v.id);
  }

  // ---------------------------------------------------------------------------
  // Seeding regions

  /** The regions seeded from a list of subdivisions. */
  function RegionsFrom(country: Code, subs: seq<Subdivision>): (r: seq<Region>)
    ensures |r| == |subs|
    ensures forall x :: x in r ==> x.country == country
    decreases |subs|
  {
    if subs == [] then [] else [Region(subs[0].name, subs[0].code, country)] + RegionsFrom(country, subs[1..])
  }

  /** Each seeded region carries its subdivision's name and code, in order. */
  lemma {:induction false} RegionsFromCarries(country: Code, subs: seq<Subdivision>)
    ensures forall i :: 0 <= i < |subs| ==> RegionsFrom(country, subs)[i] == Region(subs[i].name, subs[i].code, country)
  {
    if subs != [] {
      RegionsFromCarries(country, subs[1..]);
      assert forall i :: 1 <= i < |subs| ==> subs[1..][i - 1] == subs[i];
    }
  }

  /** No subdivision's code is taken, and no two subdivisions share a code. */
  ghost predicate FreshCodes(regions: seq<Region>, subs: seq<Subdivision>)
  {
    && (forall i :: 0 <= i < |subs| ==> RegionCountry(regions, subs[i].code).None?)
    && (forall i, j :: 0 <= i < j < |subs| ==> subs[i].code != subs[j].code)
  }

  lemma RegionCountryAdd(regions: seq<Region>, r: Region, code: Code)
    ensures RegionCountry(regions + [r], code).None? <==> RegionCountry(regions, code).None? && code != r.code
  {
    SelectAppend(regions, r, RegionCode, {code});
    if RegionCountry(regions, code).None? {
      WhereNone(regions, RegionCode, code);
    }
  }

  lemma FreshCodesStep(regions: seq<Region>, country: Code, subs: seq<Subdivision>)
    requires subs != []
    ensures FreshCodes(regions, subs) <==>
      RegionCountry(regions, subs[0].code).None? && FreshCodes(regions + [Region(subs[0].name, subs[0].code, country)], subs[1..])
  {
    var r := Region(subs[0].name, subs[0].code, country);
    var t := subs[1..];
    forall i | 0 <= i < |t|
      ensures RegionCountry(regions + [r], t[i].code).None? <==> RegionCountry(regions, subs[i + 1].code).None? && subs[i + 1].code != subs[0].code
    {
      RegionCountryAdd(regions, r, t[i].code);
    }
    if FreshCodes(regions, subs) {
      assert forall i, j :: 0 <= i < j < |t| ==> t[i].code == subs[i + 1].code && t[j].code == subs[j + 1].code;
    }
    if RegionCountry(regions, subs[0].code).None? && FreshCodes(regions + [r], t) {
      forall i, j | 0 <= i < j < |subs|
        ensures subs[i].code != subs[j].code
      {
        if i > 0 {
          assert subs[i] == t[i - 1] && subs[j] == t[j - 1];
        } else {
          assert subs[j] == t[j - 1];
        }
      }
      forall i | 0 <= i < |subs|
        ensures RegionCountry(regions, subs[i].code).None?
      {
        if i > 0 {
          assert subs[i] == t[i - 1];
        }
      }
    }
  }

  /** Seeding stopped at subdivision k, whose code was taken, after seeding the k before it. */
  ghost predicate StoppedAt(regions: seq<Region>, country: Code, subs: seq<Subdivision>, out: Seeding, k: nat)
  {
    && k < |subs|
    && out.regions == regions + RegionsFrom(country, subs[..k])
    && FreshCodes(regions, subs[..k])
    && out.failed == Some(subs[k].code)
    && RegionCountry(out.regions, subs[k].code).Some?
  }

  /** `create_regions` keeps region codes unique. */
  lemma {:induction false} CreateRegionsOverUnique(regions: seq<Region>, country: Code, subs: seq<Subdivision>)
    requires UniqueBy(regions, RegionCode)
    ensures UniqueBy(CreateRegionsOver(regions, country, subs).regions, RegionCode)
    decreases |subs|
  {
    if subs != [] && RegionCountry(regions, subs[0].code).None? {
      var r := Region(subs[0].name, subs[0].code, country);
      WhereNone(regions, RegionCode, subs[0].code);
      AppendUnique(regions, r, RegionCode);
      CreateRegionsOverUnique(regions + [r], country, subs[1..]);
    }
  }

  /** `create_regions` seeds every subdivision exactly when their codes are fresh. */
  lemma {:induction false} CreateRegionsOverFresh(regions: seq<Region>, country: Code, subs: seq<Subdivision>)
    ensures var out := CreateRegionsOver(regions, country, subs);
      && (out.failed.None? <==> FreshCodes(regions, subs))
      && (out.failed.None? ==> out.regions == regions + RegionsFrom(country, subs))
    decreases |subs|
  {
    if subs != [] {
      var r := Region(subs[0].name, subs[0].code, country);
      FreshCodesStep(regions, country, subs);
      if RegionCountry(regions, subs[0].code).None? {
        CreateRegionsOverFresh(regions + [r], country, subs[1..]);
        assert [r] + RegionsFrom(country, subs[1..]) == RegionsFrom(country, subs);
      }
    }
  }

  /** Otherwise `create_regions` stops at a subdivision whose code is taken, keeping the regions seeded before it. */
  lemma {:induction false} CreateRegionsOverStops(regions: seq<Region>, country: Code, subs: seq<Subdivision>)
    ensures var out := CreateRegionsOver(regions, country, subs);
      out.failed.Some? ==> exists k: nat :: StoppedAt(regions, country, subs, out, k)
    decreases |subs|
  {
    var out := CreateRegionsOver(regions, country, subs);
    if subs != [] {
      var r := Region(subs[0].name, subs[0].code, country);
      if RegionCountry(regions, subs[0].code).Some? {
        assert subs[..0] == [];
        assert StoppedAt(regions, country, subs, out, 0);
      } else {
        CreateRegionsOverStops(regions + [r], country, subs[1..]);
        if out.failed.Some? {
          var k: nat :| StoppedAt(regions + [r], country, subs[1..], out, k);
          StoppedAtStep(regions, country, subs, out, k);
        }
      }
    }
  }

  lemma StoppedAtStep(regions: seq<Region>, country: Code, subs: seq<Subdivision>, out: Seeding, k: nat)
    requires subs != [] && RegionCountry(regions, subs[0].code).None?
    requires StoppedAt(regions + [Region(subs[0].name, subs[0].code, country)], country, subs[1..], out, k)
    ensures StoppedAt(regions, country, subs, out, k + 1)
  {
    StoppedRegionsStep(regions, country, subs, k);
    StoppedFreshStep(regions, country, subs, k);
    assert subs[k + 1] == subs[1..][k];
  }

  /** Seeding the first subdivision and then k more seeds the first k + 1. */
  lemma StoppedRegionsStep(regions: seq<Region>, country: Code, subs: seq<Subdivision>, k: nat)
    requires k < |subs| - 1
    ensures (regions + [Region(subs[0].name, subs[0].code, country)]) + RegionsFrom(country, subs[1..][..k])
         == regions + RegionsFrom(country, subs[..k + 1])
  {
    var r := Region(subs[0].name, subs[0].code, country);
    var pre := subs[..k + 1];
    assert pre[1..] == subs[1..][..k] && pre[0] == subs[0];
    assert RegionsFrom(country, pre) == [r] + RegionsFrom(country, pre[1..]);
  }

  lemma StoppedFreshStep(regions: seq<Region>, country: Code, subs: seq<Subdivision>, k: nat)
    requires k < |subs| - 1 && RegionCountry(regions, subs[0].code).None?
    requires FreshCodes(regions + [Region(subs[0].name, subs[0].code, country)], subs[1..][..k])
    ensures FreshCodes(regions, subs[..k + 1])
  {
    var pre := subs[..k + 1];
    assert pre[1..] == subs[1..][..k] && pre[0] == subs[0];
    FreshCodesStep(regions, country, pre);
  }

  lemma RegionCountryConcat(regions: seq<Region>, extra: seq<Region>, code: Code)
    requires RegionCountry(regions, code).Some?
    ensures RegionCountry(regions + extra, code) == RegionCountry(regions, code)
  {
    FirstConcat(regions, extra, RegionCode, code);
  }

  /**
   * Saving a country keeps the store's integrity. Only the creating save
   * seeds regions; when every subdivision's code is fresh, the country's
   * regions are then the ones it had followed by one per subdivision, in order.
   */
  lemma CreateRegionsValid(db: Db, country: Code, created: bool, subs: seq<Subdivision>)
    requires DbValid(db)
    ensures var (r, failed) := CreateRegions(db, country, created, subs);
      && DbValid(r)
      && r == db.(regions := r.regions)
      && (!created ==> r == db && failed.None?)
      && (created ==> (failed.None? <==> FreshCodes(db.regions, subs)))
      && (created && failed.None? ==> RegionsOf(r.regions, country) == RegionsOf(db.regions, country) + RegionsFrom(country, subs))
      && (created && failed.Some? ==> exists k: nat :: StoppedAt(db.regions, country, subs, CreateRegionsOver(db.regions, country, subs), k))
  {
    if created {
      var out := CreateRegionsOver(db.regions, country, subs);
      CreateRegionsOverUnique(db.regions, country, subs);
      CreateRegionsOverFresh(db.regions, country, subs);
      CreateRegionsOverStops(db.regions, country, subs);
      var extra: seq<Region>;
      if out.failed.None? {
        extra := RegionsFrom(country, subs);
        SelectConcat(db.regions, extra, RegionCountryCode, {country});
        SelectAll(extra, RegionCountryCode, {country});
      } else {
        var k: nat :| StoppedAt(db.regions, country, subs, out, k);
        extra := RegionsFrom(country, subs[..k]);
      }
      assert out.regions == db.regions + extra;
      forall code | RegionCountry(db.regions, code).Some?
        ensures RegionCountry(out.regions, code) == RegionCountry(db.regions, code)
      {
        RegionCountryConcat(db.regions, extra, code);
      }
    }
  }

  // ---------------------------------------------------------------------------
  // Integrity along the loops of the Store methods

  lemma DeleteDistrictVarsOverValid(db: Db, rvs: seq<RegionalNode>)
    requires DbValid(db)
    ensures DbValid(DeleteDistrictVarsOver(db, rvs))
  {
    DeleteDistrictVarsOverUnder(db, rvs);
    DeleteDistrictVarsUnderValid(db, KeysOf(rvs, RegionalKey), 0);
  }

  lemma GetCreateDistrictVarsTimesValid(db: Db, v: IndicatorVariable, n: nat)
    requires DbValid(db) && RegionalsCover(db, v)
    ensures DbValid(GetCreateDistrictVarsTimes(db, v, n)) && RegionalsCover(GetCreateDistrictVarsTimes(db, v, n), v)
  {
    GetCreateDistrictVarsTimesOnce(db, v, n);
    GetCreateDistrictVarsValid(db, v);
  }

  /** One turn of the district loop. */
  lemma GetCreateDistrictVarsOverStep(ds: seq<DistrictNode>, rs: seq<RegionalNode>, id: VarId, dists: seq<District>, i: nat)
    requires i < |dists|
    requires forall d :: d in dists ==> RegionalFor(rs, RegKey(id, d.region)).Some?
    ensures forall d :: d in dists[..i] ==> d in dists
    ensures var before := GetCreateDistrictVarsOver(ds, rs, id, dists[..i]);
      var regional := RegionalFor(rs, RegKey(id, dists[i].region)).value;
      GetCreateDistrictVarsOver(ds, rs, id, dists[..i + 1])
      == if DistrictVarFor(before, DisKey(regional.Key(), dists[i].code)).Some? then before
         else before + [DistrictNodeFor(regional, dists[i])]
  {
    assert dists[..i + 1][..i] == dists[..i];
    assert dists[i] in dists;
  }

  // ---------------------------------------------------------------------------
  // The district get-or-create as written

  /**
   * Two regional nodes running the source's loop over the same district leave
   * two district nodes under the same regional node for it: the names differ,
   * so the second lookup misses.
   */
  lemma AsWrittenDuplicates()
    ensures var rs := [RegionalNode("C v R1", "R1", 0), RegionalNode("C v R2", "R2", 0)];
      var d := Geo.District("d1", "D1", "R1");
      var once := GetCreateDistrictVarsAsWritten([], rs, 0, rs[0], [d]);
      var twice := GetCreateDistrictVarsAsWritten(once, rs, 0, rs[1], [d]);
      && UniqueBy(once, DistrictKey)
      && !UniqueBy(twice, DistrictKey)
  {
    var rs := [RegionalNode("C v R1", "R1", 0), RegionalNode("C v R2", "R2", 0)];
    var d := Geo.District("d1", "D1", "R1");
    var key := RegKey(0, "R1");
    assert "R2" != "R1" by { assert "R2"[1] != "R1"[1]; }
    assert RegionalKey(rs[1]) != key;
    assert Where(rs[1..], RegionalKey, key) == [] by {
      assert rs[1..][1..] == [];
      assert Where(rs[1..], RegionalKey, key) == [] + Where(rs[1..][1..], RegionalKey, key);
    }
    assert Where(rs, RegionalKey, key) == [rs[0]] + Where(rs[1..], RegionalKey, key);
    assert RegionalFor(rs, key) == Some(rs[0]);
    var n1 := DistrictNode(DistrictName(rs[0]), "D1", key);
    var n2 := DistrictNode(DistrictName(rs[1]), "D1", key);
    assert [d][..0] == [];
    assert RegKey(0, d.region) == key && rs[0].Key() == key;
    assert GetCreateDistrictVarsAsWritten([], rs, 0, rs[0], []) == [];
    var once := GetCreateDistrictVarsAsWritten([], rs, 0, rs[0], [d]);
    assert once == [] + [n1];
    UniqueFromEmpty(n1);
    assert DistrictName(rs[0]) != DistrictName(rs[1]) by {
      assert DistrictName(rs[0])[5] == '1';
      assert DistrictName(rs[1])[5] == '2';
    }
    assert n1 != n2;
    assert GetCreateDistrictVarsAsWritten(once, rs, 0, rs[1], []) == once;
    var twice := GetCreateDistrictVarsAsWritten(once, rs, 0, rs[1], [d]);
    assert n2 !in once;
    assert twice == once + [n2];
    assert twice == [n1, n2];
    assert Where(twice, DistrictKey, n1.Key()) == [n1, n2] by {
      assert twice[1..][1..] == [];
      assert Where(twice[1..], DistrictKey, n1.Key()) == [n2] + Where(twice[1..][1..], DistrictKey, n1.Key());
    }
  }

  lemma UniqueFromEmpty(n: DistrictNode)
    ensures UniqueBy([n], DistrictKey)
  {
    AppendUnique([], n, DistrictKey);
    assert [] + [n] == [n];
  }
}
