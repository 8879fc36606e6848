/**
 * The totals behind the sales map: the table grouped by state code with
 * the quantity summed (the choropleth), and grouped by city label with the
 * quantity summed (the "Total orders" of each city marker).
 */
module Geography {
  import opened Wrappers
  import opened Aggregate
  import opened Sales
  import StateCode

  /**
   * Each state of the table appears exactly once, with the sum of the
   * quantities ordered from it, and the totals add up to the quantity of
   * the whole table.
   */
  function StateTotals(s: seq<Sale>): (r: seq<Group<string>>)
    ensures DistinctKeys(r)
    ensures forall st :: HasKey(r, st) <==> st in KeysOf(s, StateOf)
    ensures forall i :: 0 <= i < |r| ==> r[i].total == KeyTotal(s, StateOf, r[i].key, QuantityOf)
    ensures GroupSum(r) == Total(s, QuantityOf)
  {
    GroupTotalsSum(s, StateOf, QuantityOf);
    GroupTotals(s, StateOf, QuantityOf)
  }

  /**
   * Each city of the table appears exactly once, with the sum of the
   * quantities ordered there, and the totals add up to the quantity of the
   * whole table.
   */
  function CityTotals(s: seq<Sale>): (r: seq<Group<string>>)
    ensures DistinctKeys(r)
    ensures forall c :: HasKey(r, c) <==> c in KeysOf(s, CityOf)
    ensures forall i :: 0 <= i < |r| ==> r[i].total == KeyTotal(s, CityOf, r[i].key, QuantityOf)
    ensures GroupSum(r) == Total(s, QuantityOf)
  {
    GroupTotalsSum(s, CityOf, QuantityOf);
    GroupTotals(s, CityOf, QuantityOf)
  }

  /**
   * On a loaded table, the states on the map are exactly the states read
   * off the rows' city labels.
   */
  lemma StatesComeFromLabels(rows: seq<RawSale>, s: seq<Sale>)
    requires Load(rows) == Success(s)
    ensures forall st :: HasKey(StateTotals(s), st) <==>
              exists i :: 0 <= i < |rows| && StateCode.Extract(rows[i].city) == Some(st)
  {
    forall st | st in KeysOf(s, StateOf)
      ensures exists i :: 0 <= i < |rows| && StateCode.Extract(rows[i].city) == Some(st)
    {
      var k :| 0 <= k < |s| && StateOf(s[k]) == st;
      assert StateCode.Extract(rows[k].city) == Some(s[k].state);
    }
    forall st, i | 0 <= i < |rows| && StateCode.Extract(rows[i].city) == Some(st)
      ensures st in KeysOf(s, StateOf)
    {
      assert StateOf(s[i]) == st;
    }
  }
}
