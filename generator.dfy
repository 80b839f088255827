/** The synthetic record generator. The seeded random source is not modelled:
    the values it yields for one row are supplied as a Draw, and the generator
    is proved to turn any sequence of admissible draws into a table whose rows
    keep the structural rules of the data set. */
module Generator {
  import opened Catalogue

  datatype Option<T> = None | Some(value: T)

  /** One generated row: the ten columns of the table, in column order.
      Fuel used is kept in tenths of a metric ton, the value being rounded
      to one decimal when the row is built. */
  datatype Record = Record(
    subsidiary: Subsidiary,
    shipName: string,
    country: Country,
    portName: string,
    portStatus: PortStatus,
    fuelTenths: int,
    fuelCostPerTon: int,
    warmUpMinutes: int,
    optimalWarmUpMinutes: int,
    sailingDelay: bool)

  /** The values the random source yields while one row is built, in the
      order they are drawn: subsidiary, index into its fleet, country, port
      status, fuel used (already rounded to tenths), fuel price, warm-up time,
      and the delay coin, which is drawn only when the port is busy. */
  datatype Draw = Draw(
    subsidiary: Subsidiary,
    shipIndex: int,
    country: Country,
    portStatus: PortStatus,
    fuelTenths: int,
    fuelCost: int,
    warmUp: int,
    coin: Option<real>)

  /** What the random source can yield: every categorical value comes from
      its fixed list, fuel from the rounded range, and a uniform coin in
      [0, 1) exists exactly when the port status is Busy. */
  predicate ValidDraw(d: Draw)
  {
    && 0 <= d.shipIndex < |Ships(d.subsidiary)|
    && MinFuelTenths <= d.fuelTenths <= MaxFuelTenths
    && d.fuelCost in FuelCosts
    && d.warmUp in WarmUpMinutes
    && (d.coin.Some? <==> d.portStatus == Busy)
    && (d.coin.Some? ==> 0.0 <= d.coin.value < 1.0)
  }

  /** The structural rules every generated row keeps. */
  predicate WellFormed(r: Record)
  {
    && r.shipName in Ships(r.subsidiary)
    && r.portName == Port(r.country)
    && (r.sailingDelay ==> r.portStatus == Busy)
    && MinFuelTenths <= r.fuelTenths <= MaxFuelTenths
    && r.fuelCostPerTon in FuelCosts
    && r.warmUpMinutes in WarmUpMinutes
    && r.optimalWarmUpMinutes == OptimalWarmUp
  }

  /** The row that one admissible draw produces. */
  function MakeRecord(d: Draw): (r: Record)
    requires ValidDraw(d)
    ensures WellFormed(r)
    ensures r.subsidiary == d.subsidiary && r.country == d.country && r.portStatus == d.portStatus
    ensures d.portStatus == Busy ==> (r.sailingDelay <==> d.coin.value > 0.3)
  {
    var ship := Ships(d.subsidiary)[d.shipIndex];
    var delay := d.portStatus == Busy && d.coin.value > 0.3;
    Record(d.subsidiary, ship, d.country, Port(d.country), d.portStatus,
           d.fuelTenths, d.fuelCost, d.warmUp, OptimalWarmUp, delay)
  }

  /** Builds one row per requested entry, consuming one draw per row. A
      request of zero or fewer entries yields an empty table, as iterating
      over an empty range does. */
  method GenerateNclhData(numEntries: int, draws: seq<Draw>) returns (data: seq<Record>)
    requires numEntries <= |draws|
    requires forall i :: 0 <= i < numEntries ==> ValidDraw(draws[i])
    ensures |data| == if numEntries < 0 then 0 else numEntries
    ensures forall i :: 0 <= i < |data| ==> data[i] == MakeRecord(draws[i])
    ensures forall i :: 0 <= i < |data| ==> WellFormed(data[i])
  {
    data := [];
    var n := if numEntries < 0 then 0 else numEntries;
    for k := 0 to n
      invariant |data| == k
      invariant forall i :: 0 <= i < k ==> data[i] == MakeRecord(draws[i])
    {
      data := data + [MakeRecord(draws[k])];
    }
  }

  /** Two rows of a generated table with the same country name the same
      port, and two rows with the same port are in the same country. */
  lemma PortIsFunctionOfCountry(data: seq<Record>, i: int, j: int)
    requires forall k :: 0 <= k < |data| ==> WellFormed(data[k])
    requires 0 <= i < |data| && 0 <= j < |data|
    ensures data[i].country == data[j].country <==> data[i].portName == data[j].portName
  {
    if data[i].portName == data[j].portName {
      PortInjective(data[i].country, data[j].country);
    }
  }

  /** In a generated table a ship name identifies the subsidiary: two rows
      with the same ship have the same subsidiary. */
  lemma ShipDeterminesSubsidiary(data: seq<Record>, i: int, j: int)
    requires forall k :: 0 <= k < |data| ==> WellFormed(data[k])
    requires 0 <= i < |data| && 0 <= j < |data|
    requires data[i].shipName == data[j].shipName
    ensures data[i].subsidiary == data[j].subsidiary
  {
    FleetsDisjoint(data[i].subsidiary, data[j].subsidiary, data[i].shipName);
  }
}
