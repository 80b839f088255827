/** The figures computed from the filtered table: the two metric totals, the
    per-(group, status) fuel table, and the per-group warm-up percentages
    behind the stacked bar chart. Every table is built by one pass over the
    rows, and each is proved against a direct count or sum over the rows. */
module Aggregation {
  import Catalogue
  import opened Derivation
  import opened Sequences

  /** The columns the warm-up chart can group by. */
  datatype GroupKey = ShipName | Subsidiary | PortCountry

  /** The value of the grouping column in a row. The group-by operations
      below take the grouping column as any function from a row to its
      value; (row: Row) => KeyValue(k, row) is the one the dashboard uses. */
  function KeyValue(k: GroupKey, row: Row): string
  {
    match k
    case ShipName => row.raw.shipName
    case Subsidiary => Catalogue.SubsidiaryName(row.raw.subsidiary)
    case PortCountry => Catalogue.CountryName(row.raw.country)
  }

  /** The grouping column k as a function from a row to its value. */
  function Column(k: GroupKey): Row -> string
  {
    (row: Row) => KeyValue(k, row)
  }

  /** Two rows fall in the same group of column k exactly when they have the
      same ship, the same subsidiary or the same country, respectively: the
      names in the Subsidiary and Port_Country columns identify them. */
  lemma KeyValueSeparatesGroups(k: GroupKey, a: Row, b: Row)
    ensures k == ShipName ==> (KeyValue(k, a) == KeyValue(k, b) <==> a.raw.shipName == b.raw.shipName)
    ensures k == Subsidiary ==> (KeyValue(k, a) == KeyValue(k, b) <==> a.raw.subsidiary == b.raw.subsidiary)
    ensures k == PortCountry ==> (KeyValue(k, a) == KeyValue(k, b) <==> a.raw.country == b.raw.country)
  {
    if k == Subsidiary && KeyValue(k, a) == KeyValue(k, b) {
      Catalogue.SubsidiaryNameInjective(a.raw.subsidiary, b.raw.subsidiary);
    }
    if k == PortCountry && KeyValue(k, a) == KeyValue(k, b) {
      Catalogue.CountryNameInjective(a.raw.country, b.raw.country);
    }
  }

  // ---------------------------------------------------------------- totals

  /** Total extra fuel wasted, in metric tons; 0 for an empty table. */
  function TotalExtraFuel(rows: seq<Row>): (t: real)
    ensures rows == [] ==> t == 0.0
    ensures (forall i :: 0 <= i < |rows| ==> rows[i].extraFuelWasted >= 0.0) ==> t >= 0.0
  {
    if rows == [] then 0.0
    else TotalExtraFuel(rows[..|rows| - 1]) + rows[|rows| - 1].extraFuelWasted
  }

  /** Total financial loss, in dollars; 0 for an empty table. */
  function TotalLoss(rows: seq<Row>): (t: real)
    ensures rows == [] ==> t == 0.0
    ensures (forall i :: 0 <= i < |rows| ==> rows[i].financialLoss >= 0.0) ==> t >= 0.0
  {
    if rows == [] then 0.0
    else TotalLoss(rows[..|rows| - 1]) + rows[|rows| - 1].financialLoss
  }

  /** Total fuel used, in tenths of a metric ton. */
  function TotalFuel(rows: seq<Row>): (t: int)
    ensures (forall i :: 0 <= i < |rows| ==> rows[i].raw.fuelTenths >= 0) ==> t >= 0
  {
    if rows == [] then 0
    else TotalFuel(rows[..|rows| - 1]) + rows[|rows| - 1].raw.fuelTenths
  }

  /** The totals add up over a split of the table. */
  lemma {:induction false} TotalsAppend(a: seq<Row>, b: seq<Row>)
    ensures TotalExtraFuel(a + b) == TotalExtraFuel(a) + TotalExtraFuel(b)
    ensures TotalLoss(a + b) == TotalLoss(a) + TotalLoss(b)
    ensures TotalFuel(a + b) == TotalFuel(a) + TotalFuel(b)
  {
    if b == [] {
      assert a + b == a;
    } else {
      var b' := b[..|b| - 1];
      assert (a + b)[..|a + b| - 1] == a + b';
      assert (a + b)[|a + b| - 1] == b[|b| - 1];
      TotalsAppend(a, b');
    }
  }

  /** Optimal rows waste nothing, so the extra fuel and the loss of a table
      are those of its Non-Optimal rows alone. */
  lemma {:induction false} TotalsComeFromNonOptimalRows(rows: seq<Row>)
    requires forall i :: 0 <= i < |rows| ==> Derived(rows[i])
    ensures var bad := Filter(rows, (row: Row) => row.warmUpStatus == NonOptimal);
            TotalExtraFuel(rows) == TotalExtraFuel(bad) && TotalLoss(rows) == TotalLoss(bad)
  {
    var p := (row: Row) => row.warmUpStatus == NonOptimal;
    if rows != [] {
      var rest := rows[1..];
      assert rows == [rows[0]] + rest;
      TotalsComeFromNonOptimalRows(rest);
      TotalsAppend([rows[0]], rest);
      var bad := Filter(rows, p);
      if p(rows[0]) {
        assert bad == [rows[0]] + Filter(rest, p);
        TotalsAppend([rows[0]], Filter(rest, p));
      } else {
        assert bad == Filter(rest, p);
        assert TotalExtraFuel([rows[0]]) == 0.0 + rows[0].extraFuelWasted;
        assert TotalLoss([rows[0]]) == 0.0 + rows[0].financialLoss;
      }
    }
  }

  /** For a generated table with derived columns the loss lies between the
      cheapest and the dearest price times the extra fuel. */
  lemma {:induction false} LossWithinPriceRange(rows: seq<Row>)
    requires forall i :: 0 <= i < |rows| ==> Derived(rows[i]) && Generator.WellFormed(rows[i].raw)
    ensures 640.0 * TotalExtraFuel(rows) <= TotalLoss(rows) <= 720.0 * TotalExtraFuel(rows)
  {
    if rows != [] {
      LossWithinPriceRange(rows[..|rows| - 1]);
      RowLossWithinPriceRange(rows[|rows| - 1]);
    }
  }

  /** The same bound for one row that uses no negative fuel and is priced
      from the fuel price list. */
  lemma RowLossWithinPriceRange(row: Row)
    requires Derived(row) && row.raw.fuelTenths >= 0 && row.raw.fuelCostPerTon in Catalogue.FuelCosts
    ensures 640.0 * row.extraFuelWasted <= row.financialLoss <= 720.0 * row.extraFuelWasted
  {
    var c := row.raw.fuelCostPerTon as real;
    var e := row.extraFuelWasted;
    assert 640.0 <= c <= 720.0;
    assert e >= 0.0 && row.financialLoss == e * c;
    assert (c - 640.0) * e >= 0.0 && (720.0 - c) * e >= 0.0;
  }

  // ------------------------------------------------ group by (key, status)

  /** One row of a group-by over (grouping column, warm-up status): the
      summed fuel used, in tenths of a metric ton, and the number of rows. */
  datatype Cell = Cell(group: string, status: WarmUpStatus, fuelTenths: int, count: nat)

  /** The count of the cell for (g, s), or 0 when there is none. */
  function CountIn(t: seq<Cell>, g: string, s: WarmUpStatus): nat
  {
    if t == [] then 0
    else if t[0].group == g && t[0].status == s then t[0].count
    else CountIn(t[1..], g, s)
  }

  /** The fuel of the cell for (g, s), or 0 when there is none. */
  function FuelIn(t: seq<Cell>, g: string, s: WarmUpStatus): int
  {
    if t == [] then 0
    else if t[0].group == g && t[0].status == s then t[0].fuelTenths
    else FuelIn(t[1..], g, s)
  }

  /** The table has a cell for (g, s). */
  predicate Present(t: seq<Cell>, g: string, s: WarmUpStatus)
  {
    exists i :: 0 <= i < |t| && t[i].group == g && t[i].status == s
  }

  /** No two cells share a (group, status) pair. */
  predicate DistinctPairs(t: seq<Cell>)
  {
    forall i, j :: 0 <= i < j < |t| ==> (t[i].group, t[i].status) != (t[j].group, t[j].status)
  }

  function SumCounts(t: seq<Cell>): int
  {
    if t == [] then 0 else t[0].count + SumCounts(t[1..])
  }

  function SumFuel(t: seq<Cell>): int
  {
    if t == [] then 0 else t[0].fuelTenths + SumFuel(t[1..])
  }

  /** The number of rows in group g with status s. */
  function CountRows(rows: seq<Row>, key: Row -> string, g: string, s: WarmUpStatus): nat
  {
    if rows == [] then 0
    else
      var last := rows[|rows| - 1];
      CountRows(rows[..|rows| - 1], key, g, s) + if key(last) == g && last.warmUpStatus == s then 1 else 0
  }

  /** The fuel used by the rows in group g with status s. */
  function FuelRows(rows: seq<Row>, key: Row -> string, g: string, s: WarmUpStatus): int
  {
    if rows == [] then 0
    else
      var last := rows[|rows| - 1];
      FuelRows(rows[..|rows| - 1], key, g, s) + if key(last) == g && last.warmUpStatus == s then last.raw.fuelTenths else 0
  }

  /** A table with one more cell in front has that cell's pair and its own. */
  lemma PresentCons(c: Cell, t: seq<Cell>, h: string, u: WarmUpStatus)
    ensures Present([c] + t, h, u) <==> Present(t, h, u) || (c.group == h && c.status == u)
  {
    var t' := [c] + t;
    if Present(t', h, u) {
      var i :| 0 <= i < |t'| && t'[i].group == h && t'[i].status == u;
      if i > 0 { assert t[i - 1] == t'[i]; }
    }
    if Present(t, h, u) {
      var i :| 0 <= i < |t| && t[i].group == h && t[i].status == u;
      assert t'[i + 1] == t[i];
    }
    assert t'[0] == c;
  }

  /** Adds one row, in group g with status s and fuel f, to a table: the
      cell for (g, s) grows by one row and f, or is appended when new. */
  function Tally(t: seq<Cell>, g: string, s: WarmUpStatus, f: int): (t': seq<Cell>)
    ensures |t| <= |t'| <= |t| + 1
  {
    if t == [] then [Cell(g, s, f, 1)]
    else if t[0].group == g && t[0].status == s then
      [Cell(g, s, t[0].fuelTenths + f, t[0].count + 1)] + t[1..]
    else
      [t[0]] + Tally(t[1..], g, s, f)
  }

  /** Tallying a row adds one to the count and f to the fuel of its own pair
      and leaves every other pair's figures alone. */
  lemma {:induction false} TallyLookup(t: seq<Cell>, g: string, s: WarmUpStatus, f: int, h: string, u: WarmUpStatus)
    ensures CountIn(Tally(t, g, s, f), h, u) == CountIn(t, h, u) + if h == g && u == s then 1 else 0
    ensures FuelIn(Tally(t, g, s, f), h, u) == FuelIn(t, h, u) + if h == g && u == s then f else 0
  {
    if t != [] && !(t[0].group == g && t[0].status == s) {
      var t' := Tally(t, g, s, f);
      assert t'[1..] == Tally(t[1..], g, s, f);
      TallyLookup(t[1..], g, s, f, h, u);
    } else if t != [] {
      assert Tally(t, g, s, f)[1..] == t[1..];
    }
  }

  /** Tallying a row gives its pair a cell and takes no cell away. */
  lemma {:induction false} TallyPresent(t: seq<Cell>, g: string, s: WarmUpStatus, f: int, h: string, u: WarmUpStatus)
    ensures Present(Tally(t, g, s, f), h, u) <==> Present(t, h, u) || (h == g && u == s)
  {
    if t != [] {
      var t' := Tally(t, g, s, f);
      assert t == [t[0]] + t[1..];
      assert t' == [t'[0]] + t'[1..];
      PresentCons(t[0], t[1..], h, u);
      PresentCons(t'[0], t'[1..], h, u);
      if t[0].group == g && t[0].status == s {
        assert t'[1..] == t[1..];
      } else {
        assert t'[0] == t[0] && t'[1..] == Tally(t[1..], g, s, f);
        TallyPresent(t[1..], g, s, f, h, u);
      }
    } else {
      assert Tally(t, g, s, f)[0].group == g;
    }
  }

  /** Tallying keeps every cell's count positive and the pairs distinct, and
      adds one row and f to the column totals. */
  lemma {:induction false} TallyInvariant(t: seq<Cell>, g: string, s: WarmUpStatus, f: int)
    ensures (forall i :: 0 <= i < |t| ==> t[i].count >= 1) ==>
              forall i :: 0 <= i < |Tally(t, g, s, f)| ==> Tally(t, g, s, f)[i].count >= 1
    ensures DistinctPairs(t) ==> DistinctPairs(Tally(t, g, s, f))
    ensures SumCounts(Tally(t, g, s, f)) == SumCounts(t) + 1
    ensures SumFuel(Tally(t, g, s, f)) == SumFuel(t) + f
  {
    var t' := Tally(t, g, s, f);
    if t != [] {
      if t[0].group == g && t[0].status == s {
        assert t'[1..] == t[1..];
        assert DistinctPairs(t) ==> DistinctPairs(t') by {
          if DistinctPairs(t) {
            forall i, j | 0 <= i < j < |t'|
              ensures (t'[i].group, t'[i].status) != (t'[j].group, t'[j].status)
            {
              assert t'[j] == t[j];
              if i > 0 { assert t'[i] == t[i]; }
            }
          }
        }
      } else {
        var rest := Tally(t[1..], g, s, f);
        assert t'[1..] == rest;
        TallyInvariant(t[1..], g, s, f);
        assert DistinctPairs(t) ==> DistinctPairs(t') by {
          if DistinctPairs(t) {
            forall i | 0 <= i < |t| - 1
              ensures (t[1..][i].group, t[1..][i].status) != (t[0].group, t[0].status)
            {
              assert t[1..][i] == t[i + 1];
            }
            assert !Present(t[1..], t[0].group, t[0].status);
            TallyPresent(t[1..], g, s, f, t[0].group, t[0].status);
            forall i, j | 0 <= i < j < |t'|
              ensures (t'[i].group, t'[i].status) != (t'[j].group, t'[j].status)
            {
              assert t'[j] == rest[j - 1];
              if i > 0 {
                assert t'[i] == rest[i - 1];
              } else {
                assert !Present(rest, t[0].group, t[0].status);
              }
            }
          }
        }
      }
    }
  }

  /** pandas' groupby over (grouping column, warm-up status) with a row count
      and a fuel sum; groups appear in the order first met. No two cells
      share a pair and every cell counts at least one row; GroupByLookup and
      GroupByTotals below say what the cells hold. */
  function GroupByStatus(rows: seq<Row>, key: Row -> string): (t: seq<Cell>)
    ensures rows == [] ==> t == []
    ensures forall i :: 0 <= i < |t| ==> t[i].count >= 1
    ensures DistinctPairs(t)
  {
    if rows == [] then []
    else
      var last := rows[|rows| - 1];
      var before := GroupByStatus(rows[..|rows| - 1], key);
      TallyInvariant(before, key(last), last.warmUpStatus, last.raw.fuelTenths);
      Tally(before, key(last), last.warmUpStatus, last.raw.fuelTenths)
  }

  /** Looking a pair up in the group-by table gives the number of rows of
      that pair and the fuel they used (0 and 0 for a pair without rows),
      and the pair has a cell exactly when it has rows. */
  lemma {:induction false} GroupByLookup(rows: seq<Row>, key: Row -> string, g: string, s: WarmUpStatus)
    ensures CountIn(GroupByStatus(rows, key), g, s) == CountRows(rows, key, g, s)
    ensures FuelIn(GroupByStatus(rows, key), g, s) == FuelRows(rows, key, g, s)
    ensures Present(GroupByStatus(rows, key), g, s) <==> CountRows(rows, key, g, s) > 0
  {
    if rows != [] {
      var last := rows[|rows| - 1];
      var before := GroupByStatus(rows[..|rows| - 1], key);
      GroupByLookup(rows[..|rows| - 1], key, g, s);
      TallyLookup(before, key(last), last.warmUpStatus, last.raw.fuelTenths, g, s);
      TallyPresent(before, key(last), last.warmUpStatus, last.raw.fuelTenths, g, s);
    }
  }

  /** Between them the cells of the group-by table account for every row
      and for all the fuel those rows used. */
  lemma {:induction false} GroupByTotals(rows: seq<Row>, key: Row -> string)
    ensures SumCounts(GroupByStatus(rows, key)) == |rows|
    ensures SumFuel(GroupByStatus(rows, key)) == TotalFuel(rows)
  {
    if rows != [] {
      var last := rows[|rows| - 1];
      var before := GroupByStatus(rows[..|rows| - 1], key);
      GroupByTotals(rows[..|rows| - 1], key);
      TallyInvariant(before, key(last), last.warmUpStatus, last.raw.fuelTenths);
    }
  }

  /** In a table whose pairs are distinct the lookups find each cell's own values. */
  lemma {:induction false} LookupFindsCell(t: seq<Cell>, i: int)
    requires DistinctPairs(t)
    requires 0 <= i < |t|
    ensures CountIn(t, t[i].group, t[i].status) == t[i].count
    ensures FuelIn(t, t[i].group, t[i].status) == t[i].fuelTenths
  {
    if i > 0 {
      assert (t[0].group, t[0].status) != (t[i].group, t[i].status);
      assert t[1..][i - 1] == t[i];
      LookupFindsCell(t[1..], i - 1);
    }
  }

  /** Every cell of the fuel table holds the row count and the fuel sum of
      exactly the rows of its (group, status) pair. */
  lemma CellsMatchRows(rows: seq<Row>, key: Row -> string, i: int)
    requires 0 <= i < |GroupByStatus(rows, key)|
    ensures var c := GroupByStatus(rows, key)[i];
            c.count == CountRows(rows, key, c.group, c.status) && c.fuelTenths == FuelRows(rows, key, c.group, c.status)
  {
    var c := GroupByStatus(rows, key)[i];
    LookupFindsCell(GroupByStatus(rows, key), i);
    GroupByLookup(rows, key, c.group, c.status);
  }

  /** A pair has rows exactly when some row is in that group with that status. */
  lemma {:induction false} CountRowsPositive(rows: seq<Row>, key: Row -> string, g: string, s: WarmUpStatus)
    ensures CountRows(rows, key, g, s) > 0 <==>
              exists j :: 0 <= j < |rows| && key(rows[j]) == g && rows[j].warmUpStatus == s
  {
    if rows != [] {
      var init := rows[..|rows| - 1];
      CountRowsPositive(init, key, g, s);
      if exists j :: 0 <= j < |init| && key(init[j]) == g && init[j].warmUpStatus == s {
        var j :| 0 <= j < |init| && key(init[j]) == g && init[j].warmUpStatus == s;
        assert rows[j] == init[j];
      }
      if exists j :: 0 <= j < |rows| && key(rows[j]) == g && rows[j].warmUpStatus == s {
        var j :| 0 <= j < |rows| && key(rows[j]) == g && rows[j].warmUpStatus == s;
        if j < |init| { assert init[j] == rows[j]; }
      }
    }
  }

  // ------------------------------------------- warm-up percentage table

  /** One row of the unstacked count table: a group's Optimal and Non-Optimal
      row counts, 0 where the group has no row of that status. */
  datatype StatusCounts = StatusCounts(group: string, optimal: nat, nonOptimal: nat)

  /** One row of the percentage table. */
  datatype Share = Share(group: string, optimal: real, nonOptimal: real)

  /** The grouping column of a table. */
  function KeyColumn(rows: seq<Row>, key: Row -> string): (keys: seq<string>)
    ensures |keys| == |rows|
    ensures forall i :: 0 <= i < |rows| ==> keys[i] == key(rows[i])
  {
    seq(|rows|, i requires 0 <= i < |rows| => key(rows[i]))
  }

  /** The group column of a group-by table. */
  function CellGroups(t: seq<Cell>): (gs: seq<string>)
    ensures |gs| == |t|
    ensures forall i :: 0 <= i < |t| ==> gs[i] == t[i].group
  {
    seq(|t|, i requires 0 <= i < |t| => t[i].group)
  }

  /** The group column of a percentage table. */
  function ShareGroups(p: seq<Share>): (gs: seq<string>)
    ensures |gs| == |p|
    ensures forall i :: 0 <= i < |p| ==> gs[i] == p[i].group
  {
    seq(|p|, i requires 0 <= i < |p| => p[i].group)
  }

  /** The group-by table has a cell for group g exactly when some row is in g. */
  lemma GroupsOfGroupBy(rows: seq<Row>, key: Row -> string, g: string)
    ensures g in CellGroups(GroupByStatus(rows, key)) <==> g in KeyColumn(rows, key)
  {
    var t := GroupByStatus(rows, key);
    if g in CellGroups(t) {
      var c :| 0 <= c < |t| && CellGroups(t)[c] == g;
      assert Present(t, g, t[c].status);
      GroupByLookup(rows, key, g, t[c].status);
      CountRowsPositive(rows, key, g, t[c].status);
      var j :| 0 <= j < |rows| && key(rows[j]) == g && rows[j].warmUpStatus == t[c].status;
      assert KeyColumn(rows, key)[j] == g;
    }
    if g in KeyColumn(rows, key) {
      var j :| 0 <= j < |rows| && KeyColumn(rows, key)[j] == g;
      CountRowsPositive(rows, key, g, rows[j].warmUpStatus);
      GroupByLookup(rows, key, g, rows[j].warmUpStatus);
      var c :| 0 <= c < |t| && t[c].group == g && t[c].status == rows[j].warmUpStatus;
      assert CellGroups(t)[c] == g;
    }
  }

  /** A pair with a cell has a positive count when every cell does. */
  lemma {:induction false} CountInPositive(t: seq<Cell>, g: string, s: WarmUpStatus)
    requires forall i :: 0 <= i < |t| ==> t[i].count >= 1
    requires Present(t, g, s)
    ensures CountIn(t, g, s) >= 1
  {
    if !(t[0].group == g && t[0].status == s) {
      var i :| 0 <= i < |t| && t[i].group == g && t[i].status == s;
      assert t[1..][i - 1] == t[i];
      CountInPositive(t[1..], g, s);
    }
  }

  /** unstack(fill_value=0): one row per group of the table, in the order the
      groups first occur, holding that group's count for each status; when
      every cell counts a row, every group counts at least one. */
  function Unstack(t: seq<Cell>): (u: seq<StatusCounts>)
    ensures |u| == |Unique(CellGroups(t))|
    ensures forall i :: 0 <= i < |u| ==>
              && u[i].group == Unique(CellGroups(t))[i]
              && u[i].optimal == CountIn(t, u[i].group, Optimal)
              && u[i].nonOptimal == CountIn(t, u[i].group, NonOptimal)
    ensures (forall j :: 0 <= j < |t| ==> t[j].count >= 1) ==>
              forall i :: 0 <= i < |u| ==> u[i].optimal + u[i].nonOptimal >= 1
  {
    var gs := Unique(CellGroups(t));
    var u := seq(|gs|, i requires 0 <= i < |gs| =>
                 StatusCounts(gs[i], CountIn(t, gs[i], Optimal), CountIn(t, gs[i], NonOptimal)));
    assert (forall j :: 0 <= j < |t| ==> t[j].count >= 1) ==>
             forall i :: 0 <= i < |u| ==> u[i].optimal + u[i].nonOptimal >= 1 by {
      if forall j :: 0 <= j < |t| ==> t[j].count >= 1 {
        forall i | 0 <= i < |u| ensures u[i].optimal + u[i].nonOptimal >= 1 {
          assert gs[i] in CellGroups(t);
          var j :| 0 <= j < |t| && CellGroups(t)[j] == gs[i];
          CountInPositive(t, gs[i], t[j].status);
        }
      }
    }
    u
  }

  /** The share, in percent, that a count of part rows makes up of a group
      that has rest rows besides them. */
  function Percent(part: nat, rest: nat): real
    requires part + rest > 0
  {
    100.0 * part as real / (part + rest) as real
  }

  /** part / (part + rest) * 100, the order pandas computes a percentage in,
      is the same percentage. */
  lemma ScaledShare(part: nat, rest: nat)
    requires part + rest > 0
    ensures part as real / (part + rest) as real * 100.0 == Percent(part, rest)
  {
  }

  /** counts.div(counts.sum(axis=1), axis=0) * 100, for a count table in
      which every group has at least one row. */
  function Shares(u: seq<StatusCounts>): (p: seq<Share>)
    requires forall i :: 0 <= i < |u| ==> u[i].optimal + u[i].nonOptimal >= 1
    ensures |p| == |u|
    ensures forall i :: 0 <= i < |u| ==>
              && p[i].group == u[i].group
              && p[i].optimal == Percent(u[i].optimal, u[i].nonOptimal)
              && p[i].nonOptimal == Percent(u[i].nonOptimal, u[i].optimal)
  {
    var p := seq(|u|, i requires 0 <= i < |u| =>
                 var total := (u[i].optimal + u[i].nonOptimal) as real;
                 Share(u[i].group, u[i].optimal as real / total * 100.0, u[i].nonOptimal as real / total * 100.0));
    forall i | 0 <= i < |u|
      ensures p[i].optimal == Percent(u[i].optimal, u[i].nonOptimal)
      ensures p[i].nonOptimal == Percent(u[i].nonOptimal, u[i].optimal)
    {
      ScaledShare(u[i].optimal, u[i].nonOptimal);
      ScaledShare(u[i].nonOptimal, u[i].optimal);
    }
    p
  }

  /** The warm-up efficiency table: one entry per group that has a row, each
      group once (the lemmas below say which groups and what each entry
      holds). An empty table yields no entry and no division by zero. */
  function WarmUpPercentages(rows: seq<Row>, key: Row -> string): (p: seq<Share>)
    ensures rows == [] ==> p == []
    ensures Distinct(ShareGroups(p))
  {
    var t := GroupByStatus(rows, key);
    var p := Shares(Unstack(t));
    assert ShareGroups(p) == Unique(CellGroups(t));
    p
  }

  /** The percentage table has an entry for group g exactly when some
      filtered row is in g. */
  lemma PercentageGroups(rows: seq<Row>, key: Row -> string, g: string)
    ensures g in ShareGroups(WarmUpPercentages(rows, key)) <==> g in KeyColumn(rows, key)
  {
    var t := GroupByStatus(rows, key);
    assert ShareGroups(WarmUpPercentages(rows, key)) == Unique(CellGroups(t));
    GroupsOfGroupBy(rows, key, g);
  }

  /** Entry i of the shares table, both percentages spelled out. */
  lemma SharesEntry(u: seq<StatusCounts>, i: int)
    requires forall i :: 0 <= i < |u| ==> u[i].optimal + u[i].nonOptimal >= 1
    requires 0 <= i < |u|
    ensures Shares(u)[i] == Share(u[i].group, Percent(u[i].optimal, u[i].nonOptimal),
                                  Percent(u[i].nonOptimal, u[i].optimal))
  {
  }

  /** Entry i of the percentage table is made from entry i of the unstacked
      group-by table, whose counts are the row counts of its group. */
  lemma PercentageFromCounts(rows: seq<Row>, key: Row -> string, i: int)
    requires 0 <= i < |WarmUpPercentages(rows, key)|
    ensures var u := Unstack(GroupByStatus(rows, key));
            && 0 <= i < |u|
            && u[i].optimal == CountRows(rows, key, u[i].group, Optimal)
            && u[i].nonOptimal == CountRows(rows, key, u[i].group, NonOptimal)
            && u[i].optimal + u[i].nonOptimal >= 1
            && WarmUpPercentages(rows, key)[i]
               == Share(u[i].group, Percent(u[i].optimal, u[i].nonOptimal),
                        Percent(u[i].nonOptimal, u[i].optimal))
  {
    var u := Unstack(GroupByStatus(rows, key));
    assert WarmUpPercentages(rows, key)[i] == Shares(u)[i];
    SharesEntry(u, i);
    GroupByLookup(rows, key, u[i].group, Optimal);
    GroupByLookup(rows, key, u[i].group, NonOptimal);
  }

  /** Each entry of the percentage table is 100 * count / group size for
      both statuses, counted over the filtered rows; the group size is at
      least 1. */
  lemma PercentageOfGroup(rows: seq<Row>, key: Row -> string, i: int)
    requires 0 <= i < |WarmUpPercentages(rows, key)|
    ensures var e := WarmUpPercentages(rows, key)[i];
            var o := CountRows(rows, key, e.group, Optimal);
            var n := CountRows(rows, key, e.group, NonOptimal);
            && o + n >= 1
            && e.optimal == Percent(o, n)
            && e.nonOptimal == Percent(n, o)
  {
    PercentageFromCounts(rows, key, i);
  }

  /** Two percentages that split one positive total sum to 100 and lie in [0, 100]. */
  lemma SplitSumsTo100(o: nat, n: nat)
    requires o + n >= 1
    ensures Percent(o, n) + Percent(n, o) == 100.0
    ensures 0.0 <= Percent(o, n) <= 100.0
    ensures 0.0 <= Percent(n, o) <= 100.0
  {
    var x, y := o as real, n as real;
    var total := x + y;
    assert (o + n) as real == total;
    assert Percent(o, n) == 100.0 * x / total;
    assert Percent(n, o) == 100.0 * y / total;
    assert 100.0 * x / total + 100.0 * y / total == 100.0 * (x + y) / total;
    assert 100.0 * (x + y) / total == 100.0;
    assert 100.0 * x <= 100.0 * total;
    assert 100.0 * y <= 100.0 * total;
  }

  /** Each group's Optimal and Non-Optimal percentages sum to 100. */
  lemma PercentagesSumTo100(rows: seq<Row>, key: Row -> string, i: int)
    requires 0 <= i < |WarmUpPercentages(rows, key)|
    ensures var e := WarmUpPercentages(rows, key)[i];
            && e.optimal + e.nonOptimal == 100.0
            && 0.0 <= e.optimal <= 100.0 && 0.0 <= e.nonOptimal <= 100.0
  {
    var e := WarmUpPercentages(rows, key)[i];
    PercentageOfGroup(rows, key, i);
    SplitSumsTo100(CountRows(rows, key, e.group, Optimal), CountRows(rows, key, e.group, NonOptimal));
  }

  /** One bar segment of the warm-up chart: a group, a status and its share. */
  datatype PlotRow = PlotRow(group: string, status: WarmUpStatus, percentage: real)

  /** The melt of the percentage table into long form: first every group's
      Optimal share, then every group's Non-Optimal share. */
  function Melt(p: seq<Share>): (m: seq<PlotRow>)
    ensures |m| == 2 * |p|
    ensures forall i :: 0 <= i < |p| ==>
              && m[i] == PlotRow(p[i].group, Optimal, p[i].optimal)
              && m[|p| + i] == PlotRow(p[i].group, NonOptimal, p[i].nonOptimal)
  {
    seq(|p|, i requires 0 <= i < |p| => PlotRow(p[i].group, Optimal, p[i].optimal))
    + seq(|p|, i requires 0 <= i < |p| => PlotRow(p[i].group, NonOptimal, p[i].nonOptimal))
  }

  /** In the chart data each group's two segments stack to exactly 100. */
  lemma PlotBarsStackTo100(rows: seq<Row>, key: Row -> string, i: int)
    requires 0 <= i < |WarmUpPercentages(rows, key)|
    ensures var p := WarmUpPercentages(rows, key);
            var m := Melt(p);
            && m[i].group == m[|p| + i].group
            && m[i].status == Optimal && m[|p| + i].status == NonOptimal
            && m[i].percentage + m[|p| + i].percentage == 100.0
  {
    PercentagesSumTo100(rows, key, i);
  }

  /** A non-empty table whose rows all lie in one group g has exactly one
      percentage entry, the one for g. */
  lemma SingleGroup(rows: seq<Row>, key: Row -> string, g: string)
    requires rows != []
    requires forall j :: 0 <= j < |rows| ==> key(rows[j]) == g
    ensures |WarmUpPercentages(rows, key)| == 1 && WarmUpPercentages(rows, key)[0].group == g
  {
    var p := WarmUpPercentages(rows, key);
    assert KeyColumn(rows, key)[0] == g;
    PercentageGroups(rows, key, g);
    forall i | 0 <= i < |p| ensures p[i].group == g {
      assert ShareGroups(p)[i] == p[i].group;
      PercentageGroups(rows, key, p[i].group);
    }
    assert (set x | x in ShareGroups(p)) == {g};
    DistinctCardinality(ShareGroups(p));
  }

  /** The percentage table has no more entries than the grouping column
      takes values. */
  lemma PercentageCountBound(rows: seq<Row>, key: Row -> string, values: seq<string>)
    requires forall j :: 0 <= j < |rows| ==> key(rows[j]) in values
    ensures |WarmUpPercentages(rows, key)| <= |values|
  {
    var p := WarmUpPercentages(rows, key);
    forall i | 0 <= i < |ShareGroups(p)| ensures ShareGroups(p)[i] in (set x | x in values) {
      var g := ShareGroups(p)[i];
      PercentageGroups(rows, key, g);
      var j :| 0 <= j < |rows| && KeyColumn(rows, key)[j] == g;
    }
    DistinctWithin(ShareGroups(p), (set x | x in values));
    ElementsCardinality(values);
  }

  /** Grouped by subsidiary the warm-up chart has at most one bar per
      subsidiary. */
  lemma OneBarPerSubsidiary(rows: seq<Row>)
    ensures |WarmUpPercentages(rows, Column(Subsidiary))| <= |Catalogue.Subsidiaries|
  {
    var names := seq(|Catalogue.Subsidiaries|, i requires 0 <= i < |Catalogue.Subsidiaries| =>
                       Catalogue.SubsidiaryName(Catalogue.Subsidiaries[i]));
    forall j | 0 <= j < |rows| ensures Column(Subsidiary)(rows[j]) in names {
      var x := rows[j].raw.subsidiary;
      Catalogue.SubsidiaryListed(x);
      var i :| 0 <= i < |Catalogue.Subsidiaries| && Catalogue.Subsidiaries[i] == x;
      assert names[i] == Column(Subsidiary)(rows[j]);
    }
    PercentageCountBound(rows, Column(Subsidiary), names);
  }

  /** Grouped by port country the warm-up chart has at most one bar per
      country. */
  lemma OneBarPerCountry(rows: seq<Row>)
    ensures |WarmUpPercentages(rows, Column(PortCountry))| <= |Catalogue.Countries|
  {
    var names := seq(|Catalogue.Countries|, i requires 0 <= i < |Catalogue.Countries| =>
                       Catalogue.CountryName(Catalogue.Countries[i]));
    forall j | 0 <= j < |rows| ensures Column(PortCountry)(rows[j]) in names {
      var x := rows[j].raw.country;
      Catalogue.CountryListed(x);
      var i :| 0 <= i < |Catalogue.Countries| && Catalogue.Countries[i] == x;
      assert names[i] == Column(PortCountry)(rows[j]);
    }
    PercentageCountBound(rows, Column(PortCountry), names);
  }

  /** Two Optimal and two Non-Optimal rows of one group give that group
      shares of exactly 50 and 50. */
  lemma HalfAndHalf(key: Row -> string, a1: Row, b1: Row, a2: Row, b2: Row)
    requires a1.warmUpStatus == Optimal && a2.warmUpStatus == Optimal
    requires b1.warmUpStatus == NonOptimal && b2.warmUpStatus == NonOptimal
    requires key(a1) == key(b1) == key(a2) == key(b2)
    ensures WarmUpPercentages([a1, b1, a2, b2], key) == [Share(key(a1), 50.0, 50.0)]
  {
    var rows := [a1, b1, a2, b2];
    var g := key(a1);
    SingleGroup(rows, key, g);
    CountAll(key, a1, b1, a2, b2);
    PercentageOfGroup(rows, key, 0);
    var p := WarmUpPercentages(rows, key);
    assert p[0].optimal == 50.0 && p[0].nonOptimal == 50.0 by {
      assert Percent(2, 2) == 50.0;
    }
    assert p == [Share(g, 50.0, 50.0)];
  }

  /** The counts behind HalfAndHalf, one prefix at a time. */
  lemma CountAll(key: Row -> string, a1: Row, b1: Row, a2: Row, b2: Row)
    requires a1.warmUpStatus == Optimal && a2.warmUpStatus == Optimal
    requires b1.warmUpStatus == NonOptimal && b2.warmUpStatus == NonOptimal
    requires key(a1) == key(b1) == key(a2) == key(b2)
    ensures CountRows([a1, b1, a2, b2], key, key(a1), Optimal) == 2
    ensures CountRows([a1, b1, a2, b2], key, key(a1), NonOptimal) == 2
  {
    var g := key(a1);
    assert [a1, b1, a2, b2][..3] == [a1, b1, a2];
    assert [a1, b1, a2][..2] == [a1, b1];
    assert [a1, b1][..1] == [a1];
    assert [a1][..0] == [];
    assert CountRows([a1], key, g, Optimal) == 1 && CountRows([a1], key, g, NonOptimal) == 0;
    assert CountRows([a1, b1], key, g, Optimal) == 1 && CountRows([a1, b1], key, g, NonOptimal) == 1;
    assert CountRows([a1, b1, a2], key, g, Optimal) == 2 && CountRows([a1, b1, a2], key, g, NonOptimal) == 1;
  }
}
