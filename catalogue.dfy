/** The fixed lists the synthetic record generator draws from: the three
    subsidiaries and their fleets, the ten port countries and their ports,
    the fuel price points and the engine warm-up times. */
module Catalogue {

  datatype Subsidiary = NCL | Oceania | RegentSevenSeas

  datatype Country =
    | Italy | Spain | Greece | France | Portugal
    | UK | Germany | Norway | Croatia | Netherlands

  datatype PortStatus = Busy | Normal

  /** The warm-up time, in minutes, that the dashboard treats as optimal. */
  const OptimalWarmUp: int := 15

  /** The ten fuel price points, in dollars per metric ton, in source order. */
  const FuelCosts: seq<int> := [650, 670, 700, 660, 680, 720, 640, 690, 710, 655]

  /** The eight engine warm-up times, in minutes, in source order. */
  const WarmUpMinutes: seq<int> := [10, 12, 15, 18, 20, 22, 25, 28]

  /** Fuel used is drawn uniformly from [5, 20) and rounded to one decimal,
      so in tenths of a metric ton it lies in [50, 200]. */
  const MinFuelTenths: int := 50
  const MaxFuelTenths: int := 200

  const Subsidiaries: seq<Subsidiary> := [NCL, Oceania, RegentSevenSeas]

  const Countries: seq<Country> :=
    [Italy, Spain, Greece, France, Portugal, UK, Germany, Norway, Croatia, Netherlands]

  /** The subsidiary's name as it appears in the Subsidiary column. */
  function SubsidiaryName(s: Subsidiary): string
  {
    match s
    case NCL => "NCL"
    case Oceania => "Oceania"
    case RegentSevenSeas => "Regent Seven Seas"
  }

  /** The fleet of each subsidiary, in source order. */
  function Ships(s: Subsidiary): seq<string>
  {
    match s
    case NCL => ["Norwegian Escape", "Norwegian Joy", "Norwegian Getaway", "Norwegian Pearl"]
    case Oceania => ["Marina", "Riviera", "Sirena", "Nautica"]
    case RegentSevenSeas => ["Seven Seas Splendor", "Seven Seas Navigator", "Seven Seas Mariner"]
  }

  /** The country's name as it appears in the Port_Country column. */
  function CountryName(c: Country): string
  {
    match c
    case Italy => "Italy"
    case Spain => "Spain"
    case Greece => "Greece"
    case France => "France"
    case Portugal => "Portugal"
    case UK => "UK"
    case Germany => "Germany"
    case Norway => "Norway"
    case Croatia => "Croatia"
    case Netherlands => "Netherlands"
  }

  /** The one port of each country. */
  function Port(c: Country): string
  {
    match c
    case Italy => "Port of Naples"
    case Spain => "Port of Barcelona"
    case Greece => "Port of Piraeus"
    case France => "Port of Marseille"
    case Portugal => "Port of Lisbon"
    case UK => "Port of Southampton"
    case Germany => "Port of Hamburg"
    case Norway => "Port of Oslo"
    case Croatia => "Port of Dubrovnik"
    case Netherlands => "Port of Rotterdam"
  }

  /** The subsidiary list names every subsidiary. */
  lemma SubsidiaryListed(s: Subsidiary)
    ensures s in Subsidiaries
  {
  }

  /** The country list names every country. */
  lemma CountryListed(c: Country)
    ensures c in Countries
  {
  }

  /** No ship sails for two subsidiaries: the fleets are disjoint. */
  lemma FleetsDisjoint(a: Subsidiary, b: Subsidiary, ship: string)
    requires ship in Ships(a) && ship in Ships(b)
    ensures a == b
  {
  }

  /** The country-to-port mapping is one-to-one. */
  lemma PortInjective(c: Country, d: Country)
    requires Port(c) == Port(d)
    ensures c == d
  {
  }

  /** Distinct subsidiaries have distinct names, so grouping by the name
      groups by the subsidiary. */
  lemma SubsidiaryNameInjective(a: Subsidiary, b: Subsidiary)
    requires SubsidiaryName(a) == SubsidiaryName(b)
    ensures a == b
  {
  }

  /** Distinct countries have distinct names. */
  lemma CountryNameInjective(c: Country, d: Country)
    requires CountryName(c) == CountryName(d)
    ensures c == d
  {
  }
}
