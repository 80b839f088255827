/** The three columns derived from every generated row: the warm-up status,
    the extra fuel wasted by a longer than optimal warm-up, and the money that
    fuel cost. Arithmetic is exact: fuel is a count of tenths of a metric ton
    and the derived quantities are reals. */
module Derivation {
  import opened Catalogue
  import opened Generator

  /** "Optimal (≤15 mins)" and "Non-Optimal (>15 mins)". */
  datatype WarmUpStatus = Optimal | NonOptimal

  /** A row of the table once the derived columns are added: extra fuel
      wasted in metric tons and financial loss in dollars. */
  datatype Row = Row(
    raw: Record,
    warmUpStatus: WarmUpStatus,
    extraFuelWasted: real,
    financialLoss: real)

  /** Fuel in metric tons from a count of tenths of a ton. */
  function FuelTons(tenths: int): real
  {
    tenths as real / 10.0
  }

  /** The derived columns of one row. The status compares the warm-up time
      with the optimal 15 minutes; extra fuel is charged only to Non-Optimal
      rows, at one percent of the fuel used per minute beyond 15; the loss
      prices that fuel at the row's cost per ton. */
  function Derive(rec: Record): (row: Row)
    ensures row.raw == rec
    ensures row.warmUpStatus == Optimal <==> rec.warmUpMinutes <= OptimalWarmUp
    ensures row.warmUpStatus == Optimal ==> row.extraFuelWasted == 0.0
    ensures row.warmUpStatus == NonOptimal ==>
              row.extraFuelWasted == (rec.warmUpMinutes - OptimalWarmUp) as real * FuelTons(rec.fuelTenths) / 100.0
    ensures rec.fuelTenths >= 0 ==> row.extraFuelWasted >= 0.0
    ensures row.warmUpStatus == NonOptimal && rec.fuelTenths > 0 ==> row.extraFuelWasted > 0.0
    ensures row.financialLoss == row.extraFuelWasted * rec.fuelCostPerTon as real
    ensures rec.fuelTenths >= 0 && rec.fuelCostPerTon >= 0 ==> row.financialLoss >= 0.0
    ensures rec.fuelCostPerTon > 0 ==> (row.financialLoss == 0.0 <==> row.extraFuelWasted == 0.0)
  {
    var status := if rec.warmUpMinutes <= 15 then Optimal else NonOptimal;
    var extra :=
      if status == NonOptimal
      then (rec.warmUpMinutes - 15) as real * (FuelTons(rec.fuelTenths) / 100.0)
      else 0.0;
    Row(rec, status, extra, extra * rec.fuelCostPerTon as real)
  }

  /** A row whose derived columns are those of its raw record. */
  predicate Derived(row: Row)
  {
    row == Derive(row.raw)
  }

  /** Adds the derived columns to every row of a generated table. */
  function DeriveTable(recs: seq<Record>): (rows: seq<Row>)
    ensures |rows| == |recs|
    ensures forall i :: 0 <= i < |rows| ==> rows[i].raw == recs[i] && Derived(rows[i])
  {
    seq(|recs|, i requires 0 <= i < |recs| => Derive(recs[i]))
  }

  /** For a generated row (fuel and price both positive) the three derived
      columns agree: the row is Non-Optimal exactly when it wastes fuel, and
      exactly when it loses money. */
  lemma GeneratedRowLossIffNonOptimal(rec: Record)
    requires WellFormed(rec)
    ensures Derive(rec).warmUpStatus == NonOptimal <==> Derive(rec).extraFuelWasted > 0.0
    ensures Derive(rec).warmUpStatus == NonOptimal <==> Derive(rec).financialLoss > 0.0
  {
    assert rec.fuelCostPerTon > 0;
  }

  /** A worked row: 20 minutes of warm-up on 12.3 tons of fuel at $700 a ton
      wastes 5% of 12.3 tons, 0.615 tons, worth $430.50. */
  lemma DeriveExample()
    ensures var row := Derive(Record(NCL, "Norwegian Joy", Spain, "Port of Barcelona", Busy,
                                     123, 700, 20, 15, true));
            row.warmUpStatus == NonOptimal && row.extraFuelWasted == 0.615 && row.financialLoss == 430.5
  {
  }
}
