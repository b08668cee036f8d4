/**
 * Reading values: the forward match of `get_value_at`, and what a value row
 * reports (`Value.value`): its inputted amount, or for a Computed variable the
 * variable's reducer over the values of the nodes one tier down.
 */
module Values {
  import opened Wrappers
  import opened Tables
  import opened Choices
  import opened Geo
  import opened Schema
  import opened Reducers

  /**
   * `get_value_at`: the row of the node with the least period on or after the
   * date; among rows of that period, the first stored. The source filters on
   * a misspelt field and dereferences the missing row; here no row is None.
   */
  function FirstOnOrAfter<K(==,!new)>(rows: seq<ValueRow<K>>, key: K, date: Date): (r: Option<ValueRow<K>>)
    ensures r.Some? <==> exists x :: x in rows && x.variable == key && x.period >= date
    ensures r.Some? ==> r.value in rows && r.value.variable == key && r.value.period >= date
    ensures r.Some? ==> forall x :: x in rows && x.variable == key && x.period >= date ==> r.value.period <= x.period
  {
    if rows == [] then None
    else
      var rest := FirstOnOrAfter(rows[1..], key, date);
      assert forall x :: x in rows <==> x == rows[0] || x in rows[1..];
      if rows[0].variable == key && rows[0].period >= date && (rest.None? || rows[0].period <= rest.value.period)
      then Some(rows[0])
      else rest
  }

  function AmountOf<K>(row: Option<ValueRow<K>>): Option<real>
  {
    match row
    case None => None
    case Some(x) => Some(x.amount)
  }

  /** The values of the items that have one, in order: the children's values a computed value gathers. */
  function Present<T(!new)>(f: T -> Option<real>, s: seq<T>): (r: seq<real>)
    ensures |r| <= |s|
    ensures forall a :: a in r <==> exists x :: x in s && f(x) == Some(a)
  {
    if s == [] then []
    else
      assert forall x :: x in s <==> x == s[0] || x in s[1..];
      (match f(s[0]) case Some(a) => [a] case None => []) + Present(f, s[1..])
  }

  /** Gathering two runs of items one after the other gathers the two runs' values, one after the other. */
  lemma {:induction false} PresentConcat<T(!new)>(f: T -> Option<real>, a: seq<T>, b: seq<T>)
    ensures Present(f, a + b) == Present(f, a) + Present(f, b)
  {
    if a == [] {
      assert a + b == b;
    } else {
      assert (a + b)[0] == a[0];
      assert (a + b)[1..] == a[1..] + b;
      var h := match f(a[0]) case Some(x) => [x] case None => [];
      calc {
        Present(f, a + b);
        h + Present(f, a[1..] + b);
        { PresentConcat(f, a[1..], b); }
        h + (Present(f, a[1..]) + Present(f, b));
        (h + Present(f, a[1..])) + Present(f, b);
        Present(f, a) + Present(f, b);
      }
    }
  }

  /** When every item has a value, there is one value per item, in the items' order. */
  lemma {:induction false} PresentAll<T(!new)>(f: T -> Option<real>, s: seq<T>)
    requires forall i :: 0 <= i < |s| ==> f(s[i]).Some?
    ensures |Present(f, s)| == |s|
    ensures forall i :: 0 <= i < |s| ==> Some(Present(f, s)[i]) == f(s[i])
  {
    if s != [] {
      var t := s[1..];
      assert forall i :: 0 <= i < |t| ==> t[i] == s[i + 1];
      PresentAll(f, t);
      var r := Present(f, s);
      assert r == [f(s[0]).value] + Present(f, t);
      forall i | 0 <= i < |s|
        ensures Some(r[i]) == f(s[i])
      {
        if i > 0 {
          assert r[i] == Present(f, t)[i - 1] && t[i - 1] == s[i];
        }
      }
    }
  }

  // ---------------------------------------------------------------------------
  // District tier

  /** A district row always reports its inputted amount, whatever the variable's value type. */
  function DistrictValueAt(db: Db, key: DisKey, date: Date): Option<real>
  {
    AmountOf(FirstOnOrAfter(db.districtValues, key, date))
  }


  /** The value of a district node at a date. */
  function DistrictValueOf(db: Db, date: Date): DistrictNode -> Option<real>
  {
    (n: DistrictNode) => DistrictValueAt(db, n.Key(), date)
  }

  /** The values at a date of those nodes that have one, in table order. */
  function DistrictAmounts(db: Db, nodes: seq<DistrictNode>, date: Date): (r: seq<real>)
    ensures |r| <= |nodes|
    ensures forall a :: a in r <==> exists n :: n in nodes && DistrictValueAt(db, n.Key(), date) == Some(a)
  {
    Present(DistrictValueOf(db, date), nodes)
  }

  /** The district nodes of the variable whose district lies in the region. */
  function DistrictChildren(db: Db, id: VarId, region: Code): (r: seq<DistrictNode>)
    ensures forall n :: n in r <==> n in db.districtVars && DistrictVar(n) == id && DistrictRegion(db.districts, n.district) == Some(region)
  {
    Where(DistrictVarsOf(db.districtVars, id), (n: DistrictNode) => DistrictRegion(db.districts, n.district), Some(region))
  }

  // ---------------------------------------------------------------------------
  // Regional tier

  /**
   * `RegionalVarValue.computed_value`: the reducer over the values, at the
   * row's period, of the variable's district nodes in the node's region. The
   * source gathers every value row of those nodes, of any period, through
   * misspelt field names; the model takes one value per node at the period.
   */
  function RegionalComputed(db: Db, v: IndicatorVariable, key: RegKey, period: Date): Option<real>
  {
    Compute(DistrictAmounts(db, DistrictChildren(db, v.id, key.region), period), v.computeFormat)
  }

  /** `RegionalIndicatorVariable.get_value_at` followed by `Value.value`. */
  function RegionalValueAt(db: Db, v: IndicatorVariable, key: RegKey, date: Date): Option<real>
  {
    match FirstOnOrAfter(db.regionalValues, key, date)
    case None => None
    case Some(row) =>
      if v.valueType == Inputted then Some(row.amount) else RegionalComputed(db, v, key, row.period)
  }


  /** The value of a regional node at a date. */
  function RegionalValueOf(db: Db, v: IndicatorVariable, date: Date): RegionalNode -> Option<real>
  {
    (n: RegionalNode) => RegionalValueAt(db, v, n.Key(), date)
  }

  /** The values at a date of those nodes that have one, in table order. */
  function RegionalAmounts(db: Db, v: IndicatorVariable, nodes: seq<RegionalNode>, date: Date): (r: seq<real>)
    ensures |r| <= |nodes|
    ensures forall a :: a in r <==> exists n :: n in nodes && RegionalValueAt(db, v, n.Key(), date) == Some(a)
  {
    Present(RegionalValueOf(db, v, date), nodes)
  }

  /** The regional nodes of the variable whose region lies in the country. */
  function RegionalChildren(db: Db, id: VarId, country: Code): (r: seq<RegionalNode>)
    ensures forall n :: n in r <==> n in db.regionals && RegionalVar(n) == id && RegionCountry(db.regions, n.region) == Some(country)
  {
    Where(RegionalsOf(db.regionals, id), (n: RegionalNode) => RegionCountry(db.regions, n.region), Some(country))
  }

  // ---------------------------------------------------------------------------
  // National tier

  /**
   * `NationalVarValue.computed_value`: the reducer over the values, at the
   * row's period, of the variable's regional nodes in its country (the source
   * reads the country through a field the national node does not have).
   */
  function NationalComputed(db: Db, v: IndicatorVariable, period: Date): Option<real>
  {
    Compute(RegionalAmounts(db, v, RegionalChildren(db, v.id, v.country), period), v.computeFormat)
  }

  /** `NationalIndicatorVariable.get_value_at` followed by `Value.value`. */
  function NationalValueAt(db: Db, v: IndicatorVariable, date: Date): Option<real>
  {
    match FirstOnOrAfter(db.nationalValues, v.id, date)
    case None => None
    case Some(row) =>
      if v.valueType == Inputted then Some(row.amount) else NationalComputed(db, v, row.period)
  }

  // ---------------------------------------------------------------------------
  // Properties

  /** With distinct periods, the forward match is the one row of least period on or after the date. */
  lemma ForwardMatchDetermined<K(!new)>(rows: seq<ValueRow<K>>, key: K, date: Date, x: ValueRow<K>)
    requires x in rows && x.variable == key && x.period >= date
    requires forall y :: y in rows && y.variable == key && y.period >= date ==> x.period <= y.period
    requires forall y, z :: y in rows && z in rows && y.variable == key && z.variable == key && y.period == z.period ==> y == z
    ensures FirstOnOrAfter(rows, key, date) == Some(x)
  {
  }

  /** A later date never matches an earlier row; rows before the date are never read. */
  lemma ForwardMatchMonotone<K(!new)>(rows: seq<ValueRow<K>>, key: K, d1: Date, d2: Date)
    requires d1 <= d2 && FirstOnOrAfter(rows, key, d2).Some?
    ensures FirstOnOrAfter(rows, key, d1).Some?
    ensures FirstOnOrAfter(rows, key, d1).value.period <= FirstOnOrAfter(rows, key, d2).value.period
  {
  }

  /** Appending a row dated before the date leaves the match unchanged. */
  lemma {:induction false} ForwardMatchIgnoresEarlier<K(!new)>(rows: seq<ValueRow<K>>, key: K, date: Date, x: ValueRow<K>)
    requires x.period < date
    ensures FirstOnOrAfter(rows + [x], key, date) == FirstOnOrAfter(rows, key, date)
  {
    if rows != [] {
      assert (rows + [x])[1..] == rows[1..] + [x];
      ForwardMatchIgnoresEarlier(rows[1..], key, date, x);
    }
  }

  /** District amounts: a concatenation of nodes gathers the two parts' amounts in order. */
  lemma DistrictAmountsConcat(db: Db, a: seq<DistrictNode>, b: seq<DistrictNode>, date: Date)
    ensures DistrictAmounts(db, a + b, date) == DistrictAmounts(db, a, date) + DistrictAmounts(db, b, date)
  {
    PresentConcat(DistrictValueOf(db, date), a, b);
  }

  /** District amounts: when every node has a value, one amount per node, in the nodes' order. */
  lemma DistrictAmountsAllValued(db: Db, nodes: seq<DistrictNode>, date: Date)
    requires forall i :: 0 <= i < |nodes| ==> DistrictValueAt(db, nodes[i].Key(), date).Some?
    ensures var r := DistrictAmounts(db, nodes, date);
      |r| == |nodes| && forall i :: 0 <= i < |nodes| ==> Some(r[i]) == DistrictValueAt(db, nodes[i].Key(), date)
  {
    PresentAll(DistrictValueOf(db, date), nodes);
  }

  /** Regional amounts: a concatenation of nodes gathers the two parts' amounts in order. */
  lemma RegionalAmountsConcat(db: Db, v: IndicatorVariable, a: seq<RegionalNode>, b: seq<RegionalNode>, date: Date)
    ensures RegionalAmounts(db, v, a + b, date) == RegionalAmounts(db, v, a, date) + RegionalAmounts(db, v, b, date)
  {
    PresentConcat(RegionalValueOf(db, v, date), a, b);
  }

  /** Regional amounts: when every node has a value, one amount per node, in the nodes' order. */
  lemma RegionalAmountsAllValued(db: Db, v: IndicatorVariable, nodes: seq<RegionalNode>, date: Date)
    requires forall i :: 0 <= i < |nodes| ==> RegionalValueAt(db, v, nodes[i].Key(), date).Some?
    ensures var r := RegionalAmounts(db, v, nodes, date);
      |r| == |nodes| && forall i :: 0 <= i < |nodes| ==> Some(r[i]) == RegionalValueAt(db, v, nodes[i].Key(), date)
  {
    PresentAll(RegionalValueOf(db, v, date), nodes);
  }

  /** A row of an Inputted variable reports its inputted amount, at every tier. */
  lemma InputtedReportsAmount(db: Db, v: IndicatorVariable, key: RegKey, date: Date)
    requires v.valueType == Inputted
    ensures NationalValueAt(db, v, date) == AmountOf(FirstOnOrAfter(db.nationalValues, v.id, date))
    ensures RegionalValueAt(db, v, key, date) == AmountOf(FirstOnOrAfter(db.regionalValues, key, date))
  {
  }

  /**
   * A row of a Computed variable reports the reducer over the tier below at
   * its period; order of the children does not matter.
   */
  lemma ComputedReducesChildren(db: Db, v: IndicatorVariable, key: RegKey, date: Date, children: seq<real>)
    requires v.valueType == Computed
    requires FirstOnOrAfter(db.regionalValues, key, date).Some?
    requires multiset(children) == multiset(DistrictAmounts(db, DistrictChildren(db, v.id, key.region),
                                                            FirstOnOrAfter(db.regionalValues, key, date).value.period))
    ensures RegionalValueAt(db, v, key, date) == Compute(children, v.computeFormat)
  {
    var period := FirstOnOrAfter(db.regionalValues, key, date).value.period;
    ComputePermutation(DistrictAmounts(db, DistrictChildren(db, v.id, key.region), period), children, v.computeFormat);
  }

  /** The same at the national tier, over the regional nodes of the variable's country. */
  lemma NationalComputedReducesChildren(db: Db, v: IndicatorVariable, date: Date, children: seq<real>)
    requires v.valueType == Computed
    requires FirstOnOrAfter(db.nationalValues, v.id, date).Some?
    requires multiset(children) == multiset(RegionalAmounts(db, v, RegionalChildren(db, v.id, v.country),
                                                            FirstOnOrAfter(db.nationalValues, v.id, date).value.period))
    ensures NationalValueAt(db, v, date) == Compute(children, v.computeFormat)
  {
    var period := FirstOnOrAfter(db.nationalValues, v.id, date).value.period;
    ComputePermutation(RegionalAmounts(db, v, RegionalChildren(db, v.id, v.country), period), children, v.computeFormat);
  }
}
