/**
 * The sales table. A raw row carries the calendar fields already derived
 * from its order timestamp (month name, weekday name, hour of day); loading
 * adds the state code extracted from the city label.
 */
module Sales {
  import opened Wrappers
  import StateCode

  datatype RawSale = RawSale(
    city: string,
    product: string,
    quantity: int,
    month: string,
    day: string,
    hour: int)

  datatype Sale = Sale(
    city: string,
    state: string,
    product: string,
    quantity: int,
    month: string,
    day: string,
    hour: int)

  /** Loading stops at the first row whose city label names no state. */
  datatype LoadError = MalformedCityLabel(row: nat, city: string)

  /** The raw row a derived row was computed from. */
  function Raw(x: Sale): RawSale
  {
    RawSale(x.city, x.product, x.quantity, x.month, x.day, x.hour)
  }

  function CityOf(x: Sale): string { x.city }

  function StateOf(x: Sale): string { x.state }

  function ProductOf(x: Sale): string { x.product }

  function QuantityOf(x: Sale): int { x.quantity }

  /** Every city label of `rows` names a state. */
  predicate AllLabelled(rows: seq<RawSale>)
  {
    forall i :: 0 <= i < |rows| ==> StateCode.Extract(rows[i].city).Some?
  }

  /** The first row, from `from` on, whose city label names no state. */
  function FirstMalformed(rows: seq<RawSale>, from: nat): (k: nat)
    requires exists i :: from <= i < |rows| && StateCode.Extract(rows[i].city).None?
    ensures from <= k < |rows| && StateCode.Extract(rows[k].city).None?
    ensures forall i :: from <= i < k ==> StateCode.Extract(rows[i].city).Some?
    decreases |rows| - from
  {
    if StateCode.Extract(rows[from].city).None? then from else FirstMalformed(rows, from + 1)
  }

  /**
   * Derives the state column for every row. The derivation is all or
   * nothing: one malformed label fails the whole load, and the error
   * names the first such row, the one at which row-by-row application
   * stops.
   */
  function Load(rows: seq<RawSale>): (r: Result<seq<Sale>, LoadError>)
    ensures r.Success? <==> AllLabelled(rows)
    ensures r.Success? ==> |r.value| == |rows|
    ensures r.Success? ==> forall i :: 0 <= i < |rows| ==>
              Raw(r.value[i]) == rows[i] && StateCode.Extract(rows[i].city) == Some(r.value[i].state)
    ensures r.Failure? ==>
              && r.error.row < |rows|
              && r.error.city == rows[r.error.row].city
              && StateCode.Extract(rows[r.error.row].city).None?
              && forall i :: 0 <= i < r.error.row ==> StateCode.Extract(rows[i].city).Some?
  {
    if AllLabelled(rows) then
      Success(seq(|rows|, i requires 0 <= i < |rows| =>
        var row := rows[i];
        Sale(row.city, StateCode.Extract(row.city).value, row.product, row.quantity, row.month, row.day, row.hour)))
    else
      var k := FirstMalformed(rows, 0);
      Failure(MalformedCityLabel(k, rows[k].city))
  }
}
