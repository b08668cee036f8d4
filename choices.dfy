/**
 * The choice enumerations of the indicator models: aggregation level, value type
 * and calculation format, with the codes stored in the database and the labels
 * shown to users.
 */
module Choices {
  import opened Wrappers

  /** AggregationLevelChoice: the geographic tier a variable or indicator lives at. */
  datatype AggregationLevel = District | Regional | National

  /** ValueTypeChoice: whether a variable's values are typed in or derived. */
  datatype ValueType = Computed | Inputted

  /** CalFormatChoice: how a coarser tier reduces the finer tier's values. */
  datatype CalFormat = Average | Net | Mean | Median

  /** How many tiers below the national one a level sits: National 0, Regional 1, District 2. */
  function Depth(level: AggregationLevel): nat
  {
    match level
    case National => 0
    case Regional => 1
    case District => 2
  }

  /** The value stored in the `level` column. */
  function LevelCode(level: AggregationLevel): string
  {
    match level
    case District => "Dis"
    case Regional => "Reg"
    case National => "Nat"
  }

  /** What `get_level_display()` shows. */
  function LevelLabel(level: AggregationLevel): string
  {
    match level
    case District => "District"
    case Regional => "Regional"
    case National => "National"
  }

  /** Reads a stored `level` column back; anything but the three codes is rejected. */
  function ParseLevel(code: string): (r: Option<AggregationLevel>)
    ensures r.Some? ==> LevelCode(r.value) == code
  {
    if code == "Dis" then Some(District)
    else if code == "Reg" then Some(Regional)
    else if code == "Nat" then Some(National)
    else None
  }

  /** Storing a level and reading it back gives the same level. */
  lemma ParseLevelCode(level: AggregationLevel)
    ensures ParseLevel(LevelCode(level)) == Some(level)
  {
  }

  /** Depth orders the three levels strictly, so it identifies a level. */
  lemma DepthInjective(a: AggregationLevel, b: AggregationLevel)
    ensures Depth(a) == Depth(b) <==> a == b
  {
  }
}
