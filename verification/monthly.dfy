/**
 * Quantity ordered per month for one city: group the whole table by
 * (city, month), sum the quantity, then keep the groups of the selected
 * city. Months without orders for the city are absent, not zero.
 */
module Monthly {
  import opened Aggregate
  import opened Sales

  function CityMonthOf(x: Sale): (string, string) { (x.city, x.month) }

  /** Selects the (city, month) keys of one city. */
  function InCity(city: string): ((string, string)) -> bool
  {
    (k: (string, string)) => k.0 == city
  }

  /** The groups of `city`, re-keyed by month, in their original order. */
  function ForCity(g: seq<Group<(string, string)>>, city: string): (r: seq<Group<string>>)
    ensures forall i :: 0 <= i < |r| ==> exists j :: 0 <= j < |g| && g[j] == Group((city, r[i].key), r[i].total)
    ensures forall mo :: HasKey(g, (city, mo)) ==> HasKey(r, mo)
  {
    if |g| == 0 then []
    else
      var q := g[..|g| - 1];
      var p := ForCity(q, city);
      var e := g[|g| - 1];
      var r := if e.key.0 == city then p + [Group(e.key.1, e.total)] else p;
      assert forall mo :: HasKey(g, (city, mo)) ==> HasKey(r, mo) by {
        forall mo | HasKey(g, (city, mo)) ensures HasKey(r, mo) {
          var j :| 0 <= j < |g| && g[j].key == (city, mo);
          if j < |q| {
            assert q[j] == g[j];
            var i :| 0 <= i < |p| && p[i].key == mo;
            assert r[i] == p[i];
          } else {
            assert r[|p|].key == mo;
          }
        }
      }
      r
  }

  /** Re-keying keeps the sum of the city's groups. */
  lemma {:induction false} ForCitySum(g: seq<Group<(string, string)>>, city: string)
    ensures GroupSum(ForCity(g, city)) == GroupSumWhere(g, InCity(city))
  {
    if |g| > 0 {
      var p := ForCity(g[..|g| - 1], city);
      ForCitySum(g[..|g| - 1], city);
      if g[|g| - 1].key.0 == city {
        assert (p + [Group(g[|g| - 1].key.1, g[|g| - 1].total)])[..|p|] == p;
      }
    }
  }

  lemma {:induction false} ForCityKeepsDistinct(g: seq<Group<(string, string)>>, city: string)
    requires DistinctKeys(g)
    ensures DistinctKeys(ForCity(g, city))
  {
    if |g| > 0 {
      var p := g[..|g| - 1];
      var e := g[|g| - 1];
      ForCityKeepsDistinct(p, city);
      var fp := ForCity(p, city);
      if e.key.0 == city {
        forall i | 0 <= i < |fp| ensures fp[i].key != e.key.1 {
          var j :| 0 <= j < |p| && p[j] == Group((city, fp[i].key), fp[i].total);
          assert g[j].key != g[|g| - 1].key;
        }
      }
    }
  }

  /**
   * The monthly series of `city`: one entry per month in which the city
   * has orders, holding the sum of the quantities of those orders; an
   * unknown city gives an empty series.
   */
  function MonthlyQuantity(s: seq<Sale>, city: string): (r: seq<Group<string>>)
    ensures DistinctKeys(r)
    ensures forall mo :: HasKey(r, mo) <==> (city, mo) in KeysOf(s, CityMonthOf)
    ensures forall i :: 0 <= i < |r| ==> r[i].total == KeyTotal(s, CityMonthOf, (city, r[i].key), QuantityOf)
    ensures city !in KeysOf(s, CityOf) ==> r == []
  {
    var g := GroupTotals(s, CityMonthOf, QuantityOf);
    var r := ForCity(g, city);
    ForCityKeepsDistinct(g, city);
    MonthlyFacts(s, city, g, r);
    r
  }

  lemma MonthlyFacts(s: seq<Sale>, city: string, g: seq<Group<(string, string)>>, r: seq<Group<string>>)
    requires IsGrouping(g, s, CityMonthOf, QuantityOf)
    requires r == ForCity(g, city)
    ensures forall mo :: HasKey(r, mo) <==> (city, mo) in KeysOf(s, CityMonthOf)
    ensures forall i :: 0 <= i < |r| ==> r[i].total == KeyTotal(s, CityMonthOf, (city, r[i].key), QuantityOf)
    ensures city !in KeysOf(s, CityOf) ==> r == []
  {
    forall mo ensures HasKey(r, mo) <==> (city, mo) in KeysOf(s, CityMonthOf) {
      if HasKey(r, mo) {
        var i :| 0 <= i < |r| && r[i].key == mo;
        var j :| 0 <= j < |g| && g[j] == Group((city, mo), r[i].total);
        assert HasKey(g, (city, mo));
      }
      if (city, mo) in KeysOf(s, CityMonthOf) {
        assert HasKey(g, (city, mo));
        var j :| 0 <= j < |g| && g[j].key == (city, mo);
        assert g[j].key.1 == mo;
      }
    }
    forall i | 0 <= i < |r| ensures r[i].total == KeyTotal(s, CityMonthOf, (city, r[i].key), QuantityOf) {
      var j :| 0 <= j < |g| && g[j] == Group((city, r[i].key), r[i].total);
    }
    if |r| > 0 {
      var j :| 0 <= j < |g| && g[j] == Group((city, r[0].key), r[0].total);
      assert HasKey(g, (city, r[0].key));
      var k :| 0 <= k < |s| && CityMonthOf(s[k]) == (city, r[0].key);
      assert CityOf(s[k]) == city;
    }
  }

  lemma {:induction false} CityTotalWhere(s: seq<Sale>, city: string)
    ensures TotalWhere(s, CityMonthOf, InCity(city), QuantityOf) == KeyTotal(s, CityOf, city, QuantityOf)
  {
    if |s| > 0 {
      CityTotalWhere(s[..|s| - 1], city);
    }
  }

  /** The months of a city add up to everything the city ordered. */
  lemma {:induction false} MonthlyAddsUpToCity(s: seq<Sale>, city: string)
    ensures GroupSum(MonthlyQuantity(s, city)) == KeyTotal(s, CityOf, city, QuantityOf)
  {
    ForCitySum(GroupTotals(s, CityMonthOf, QuantityOf), city);
    GroupTotalsPreserveSum(s, CityMonthOf, QuantityOf, InCity(city));
    CityTotalWhere(s, city);
  }
}
