/** The sidebar filters. An empty selection means "no filter". A non-empty
    ship selection replaces the subsidiary selection instead of being
    combined with it. The ship options are the ships of the rows of the
    selected subsidiaries. */
module Filters {
  import opened Catalogue
  import opened Generator
  import opened Derivation
  import opened Sequences

  /** The filtered table. With a non-empty ship selection it is exactly the rows
      whose ship is selected, whatever the subsidiaries. Otherwise, with a
      non-empty subsidiary selection, it is the rows of those subsidiaries.
      With neither it is the whole table. In every case the rows keep their
      original order. */
  function ApplyFilters(rows: seq<Row>, subs: set<Subsidiary>, ships: set<string>): (r: seq<Row>)
    ensures IsSubsequence(r, rows)
    ensures ships != {} ==>
              forall x :: multiset(r)[x] == if x.raw.shipName in ships then multiset(rows)[x] else 0
    ensures ships == {} && subs != {} ==>
              forall x :: multiset(r)[x] == if x.raw.subsidiary in subs then multiset(rows)[x] else 0
    ensures ships == {} && subs == {} ==> r == rows
  {
    if subs != {} && ships == {} then
      Filter(rows, (row: Row) => row.raw.subsidiary in subs)
    else if ships != {} then
      Filter(rows, (row: Row) => row.raw.shipName in ships)
    else
      SubsequenceReflexive(rows);
      rows
  }

  /** Once any ship is selected the subsidiary selection has no effect. */
  lemma ShipSelectionOverridesSubsidiaries(rows: seq<Row>, subs1: set<Subsidiary>, subs2: set<Subsidiary>, ships: set<string>)
    requires ships != {}
    ensures ApplyFilters(rows, subs1, ships) == ApplyFilters(rows, subs2, ships)
  {
  }

  /** The ship column of a table, row for row. */
  function ShipColumn(rows: seq<Row>): seq<string>
  {
    seq(|rows|, i requires 0 <= i < |rows| => rows[i].raw.shipName)
  }

  /** The options offered in the ship selector: every ship, once, that sails
      in some row of the selected subsidiaries, or in any row when no
      subsidiary is selected. */
  function AvailableShips(rows: seq<Row>, subs: set<Subsidiary>): (ships: seq<string>)
    ensures Distinct(ships)
    ensures forall n :: n in ships <==>
              exists i :: 0 <= i < |rows| && rows[i].raw.shipName == n
                                          && (subs == {} || rows[i].raw.subsidiary in subs)
  {
    var source := if subs != {} then Filter(rows, (row: Row) => row.raw.subsidiary in subs) else rows;
    var names := ShipColumn(source);
    forall n | n in names
      ensures exists i :: 0 <= i < |rows| && rows[i].raw.shipName == n
                          && (subs == {} || rows[i].raw.subsidiary in subs)
    {
      var j :| 0 <= j < |source| && names[j] == n;
      assert source[j] in rows;
      var i :| 0 <= i < |rows| && rows[i] == source[j];
    }
    forall i | 0 <= i < |rows| && (subs == {} || rows[i].raw.subsidiary in subs)
      ensures rows[i].raw.shipName in names
    {
      assert rows[i] in source;
      var j :| 0 <= j < |source| && source[j] == rows[i];
      assert names[j] == rows[i].raw.shipName;
    }
    Unique(names)
  }

  /** In a generated table every offered ship belongs to the fleet of one of
      the selected subsidiaries. */
  lemma OfferedShipsBelongToSelection(rows: seq<Row>, subs: set<Subsidiary>, n: string)
    requires forall i :: 0 <= i < |rows| ==> WellFormed(rows[i].raw)
    requires subs != {}
    requires n in AvailableShips(rows, subs)
    ensures exists s :: s in subs && n in Ships(s)
  {
    var i :| 0 <= i < |rows| && rows[i].raw.shipName == n && rows[i].raw.subsidiary in subs;
    assert n in Ships(rows[i].raw.subsidiary);
  }

  /** When the ships selected are among those offered, the override is
      harmless for a generated table: every row the ship filter keeps belongs
      to a selected subsidiary, because a ship sails for one subsidiary only. */
  lemma ShipFilterStaysWithinSubsidiaries(rows: seq<Row>, subs: set<Subsidiary>, ships: set<string>, x: Row)
    requires forall i :: 0 <= i < |rows| ==> WellFormed(rows[i].raw)
    requires subs != {}
    requires forall n :: n in ships ==> n in AvailableShips(rows, subs)
    requires x in ApplyFilters(rows, subs, ships)
    ensures x.raw.subsidiary in subs
  {
    var r := ApplyFilters(rows, subs, ships);
    if ships != {} {
      assert multiset(r)[x] > 0;
      assert x.raw.shipName in ships;
      var i :| 0 <= i < |rows| && rows[i].raw.shipName == x.raw.shipName && rows[i].raw.subsidiary in subs;
      assert multiset(rows)[x] > 0;
      assert x in rows;
      FleetsDisjoint(rows[i].raw.subsidiary, x.raw.subsidiary, x.raw.shipName);
    } else {
      assert multiset(r)[x] > 0;
    }
  }
}
