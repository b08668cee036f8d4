/**
 * The indicator admin form: `__init__` restricts the selectable variables to
 * the indicator's country, and `clean` rejects a selection holding a variable
 * coarser than the indicator's level, with one message per such variable.
 */
module Admin {
  import opened Wrappers
  import opened Tables
  import opened Choices
  import opened Geo
  import opened Schema

  /** `str(variable)`: country code, name and code. */
  function VarLabel(v: IndicatorVariable): string
  {
    v.country + " " + v.name + " | " + v.code
  }

  /** The message `clean` reports for an offending variable. */
  function Message(v: IndicatorVariable): string
  {
    VarLabel(v) + " is a " + LevelLabel(v.level) + " level variable"
  }

  /** A variable lives at a coarser tier than the indicator's level asks for (an unset level asks for none). */
  predicate TooCoarse(level: Option<AggregationLevel>, v: IndicatorVariable)
  {
    level.Some? && Depth(v.level) < Depth(level.value)
  }

  /** The offending variables, in the order the selection's queryset yields them. */
  function Offenders(level: Option<AggregationLevel>, vars: seq<IndicatorVariable>): (r: seq<IndicatorVariable>)
    ensures forall v :: v in r <==> v in vars && TooCoarse(level, v)
  {
    if vars == [] then []
    else
      var init := Offenders(level, vars[..|vars| - 1]);
      var v := vars[|vars| - 1];
      assert vars == vars[..|vars| - 1] + [v];
      if TooCoarse(level, v) then init + [v] else init
  }

  /** The messages the two tests of `clean` append, variable by variable. */
  function Messages(level: Option<AggregationLevel>, vars: seq<IndicatorVariable>): seq<string>
  {
    if vars == [] then []
    else
      var v := vars[|vars| - 1];
      Messages(level, vars[..|vars| - 1])
      + (if (v.level == National || v.level == Regional) && level == Some(AggregationLevel.District) then [Message(v)] else [])
      + (if v.level == National && level == Some(Regional) then [Message(v)] else [])
  }

  function VarCountry(v: IndicatorVariable): Code { v.country }

  /** The queryset `__init__` offers: the variables of the indicator's country, none when it has no country. */
  function Selectable(country: Option<Code>, all: seq<IndicatorVariable>): (r: seq<IndicatorVariable>)
    ensures forall v :: v in r <==> country.Some? && v in all && v.country == country.value
  {
    if country.None? then [] else Where(all, VarCountry, country.value)
  }

  class IndicatorAdminForm {
    /** The indicator instance's country, if it has one. */
    const country: Option<Code>
    /** The queryset of the `variables` field. */
    var choices: seq<IndicatorVariable>

    constructor(country: Option<Code>, all: seq<IndicatorVariable>)
      ensures this.country == country
      ensures choices == Selectable(country, all)
    {
      this.country := country;
      choices := Selectable(country, all);
    }

    /** `clean`: accepts an empty selection; otherwise collects a message per offending variable and raises when there is any. */
    method Clean(level: Option<AggregationLevel>, variables: seq<IndicatorVariable>) returns (r: Result<(), seq<string>>)
      ensures r.Ok? <==> Messages(level, variables) == []
      ensures r.Err? ==> r.error == Messages(level, variables)
    {
      if variables == [] {
        return Ok(());
      }
      var msgs: seq<string> := [];
      for i := 0 to |variables|
        invariant msgs == Messages(level, variables[..i])
      {
        var v := variables[i];
        assert variables[..i + 1][..i] == variables[..i];
        if (v.level == National || v.level == Regional) && level == Some(AggregationLevel.District) {
          msgs := msgs + [Message(v)];
        }
        if v.level == National && level == Some(Regional) {
          msgs := msgs + [Message(v)];
        }
      }
      assert variables[..|variables|] == variables;
      if msgs != [] {
        return Err(msgs);
      }
      return Ok(());
    }
  }

  // ---------------------------------------------------------------------------
  // Properties

  /** Each offending variable yields exactly one message, in queryset order, and no other variable yields one. */
  lemma {:induction false} MessagesPerOffender(level: Option<AggregationLevel>, vars: seq<IndicatorVariable>)
    ensures |Messages(level, vars)| == |Offenders(level, vars)|
    ensures forall i :: 0 <= i < |Offenders(level, vars)| ==> Messages(level, vars)[i] == Message(Offenders(level, vars)[i])
  {
    if vars != [] {
      MessagesPerOffender(level, vars[..|vars| - 1]);
    }
  }

  /** The form is accepted exactly when every selected variable is at least as fine as the indicator's level. */
  lemma AcceptedIffFineEnough(level: Option<AggregationLevel>, vars: seq<IndicatorVariable>)
    ensures Messages(level, vars) == [] <==> forall v :: v in vars ==> !TooCoarse(level, v)
  {
    MessagesPerOffender(level, vars);
    var off := Offenders(level, vars);
    if off != [] {
      assert off[0] in off;
    }
  }

  /** The two tests of `clean`, level by level: a District indicator rejects National and Regional variables, a Regional one National variables, and a National or unset one nothing. */
  lemma TooCoarseByLevel(level: Option<AggregationLevel>, v: IndicatorVariable)
    ensures level == Some(AggregationLevel.District) ==> (TooCoarse(level, v) <==> v.level == National || v.level == Regional)
    ensures level == Some(Regional) ==> (TooCoarse(level, v) <==> v.level == National)
    ensures level == None || level == Some(National) ==> !TooCoarse(level, v)
  {
  }

  /** A National-level or unset indicator accepts every selection. */
  lemma NationalAcceptsAll(level: Option<AggregationLevel>, vars: seq<IndicatorVariable>)
    requires level == None || level == Some(National)
    ensures Messages(level, vars) == []
  {
    AcceptedIffFineEnough(level, vars);
  }
}
