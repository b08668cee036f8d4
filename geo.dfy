/**
 * The geographic hierarchy Country -> Region -> District. A country is known by
 * its code; a region row names its country's code and a district row its
 * region's code (codes are unique, as the `unique=True` columns demand).
 */
module Geo {
  import opened Wrappers
  import opened Tables

  type Code = string

  datatype Region = Region(name: string, code: Code, country: Code)

  datatype District = District(name: string, code: Code, region: Code)

  /** A (name, code) pair of the reference subdivision list of a country. */
  datatype Subdivision = Subdivision(name: string, code: Code)

  function RegionCode(r: Region): Code { r.code }

  function RegionCountryCode(r: Region): Code { r.country }

  function DistrictCode(d: District): Code { d.code }

  /** `country.regions.all()`. */
  function RegionsOf(regions: seq<Region>, country: Code): seq<Region>
  {
    Where(regions, RegionCountryCode, country)
  }

  /** The country of the region with the given code, if there is such a region. */
  function RegionCountry(regions: seq<Region>, code: Code): Option<Code>
  {
    match First(regions, RegionCode, code)
    case None => None
    case Some(r) => Some(r.country)
  }

  /** The region of the district with the given code, if there is such a district. */
  function DistrictRegion(districts: seq<District>, code: Code): Option<Code>
  {
    match First(districts, DistrictCode, code)
    case None => None
    case Some(d) => Some(d.region)
  }

  /** `District.objects.filter(region__country=country)`. */
  function DistrictsOfCountry(regions: seq<Region>, districts: seq<District>, country: Code): (r: seq<District>)
    ensures forall d :: d in r <==> d in districts && RegionCountry(regions, d.region) == Some(country)
  {
    if districts == [] then []
    else
      (if RegionCountry(regions, districts[0].region) == Some(country) then [districts[0]] else [])
      + DistrictsOfCountry(regions, districts[1..], country)
  }

  /** Codes are unique and every district belongs to a stored region. */
  ghost predicate GeoValid(regions: seq<Region>, districts: seq<District>)
  {
    && UniqueBy(regions, RegionCode)
    && UniqueBy(districts, DistrictCode)
    && (forall d :: d in districts ==> RegionCountry(regions, d.region).Some?)
  }

  lemma RegionCountryOfMember(regions: seq<Region>, r: Region)
    requires UniqueBy(regions, RegionCode) && r in regions
    ensures RegionCountry(regions, r.code) == Some(r.country)
  {
    UniqueWhere(regions, RegionCode, r);
  }

  lemma DistrictRegionOfMember(districts: seq<District>, d: District)
    requires UniqueBy(districts, DistrictCode) && d in districts
    ensures DistrictRegion(districts, d.code) == Some(d.region)
  {
    UniqueWhere(districts, DistrictCode, d);
  }

  /** A region row added later never changes what an existing code resolves to. */
  lemma RegionCountryAppend(regions: seq<Region>, r: Region, code: Code)
    requires RegionCountry(regions, code).Some?
    ensures RegionCountry(regions + [r], code) == RegionCountry(regions, code)
  {
    SelectAppend(regions, r, RegionCode, {code});
  }
}
